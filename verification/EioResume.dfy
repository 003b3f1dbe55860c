// Starting from an EIO file and a checkpoint (Lab1-Hazards/loader.c, the part for EIO files): the initial image is
// loaded, the checkpoint over it, and the trace is fast-forwarded to the checkpoint.
module EioResume {
  import opened FlatMemory
  import opened PageTable
  import opened Eio
  import opened EioSession
  import opened Checkpoint

  // ---- Machine states and architected state --------------------------------------------------

  /** The machine that registers, counters and bounds make up with a memory. */
  function MachineOf(a: Arch, m: Pages): Eio.Machine
    requires WellFormed(m)
  {
    MachineState(a.iregs, a.pc, a.brk, m,
                 OtherState(a.icnt, a.npc, a.hi, a.lo, a.fcc, a.fregs, a.stackMin, a.segments))
  }

  /** All of a machine but its memory. */
  function ArchFrom(s: Eio.Machine): Arch
  {
    ArchState(s.other.icnt, s.pc, s.other.npc, s.other.hi, s.other.lo, s.other.fcc, s.regs, s.other.fregs,
              s.brk, s.other.stackMin, s.other.segments)
  }

  lemma ArchAndMemory(s: Eio.Machine)
    ensures MachineOf(ArchFrom(s), s.mem) == s
  {
  }

  // ---- Loading ---------------------------------------------------------------------------------

  datatype Option<T> = None | Some(value: T)

  /** The page records that an image announces. */
  function PagesOf(i: Image): seq<PageRecord>
    requires i.pageCount <= |i.pages|
  {
    i.pages[..if i.pageCount > 0 then i.pageCount else 0]
  }

  /** Images and trace go together: the initial image carries the count -1, and the count of the checkpoint
      is in the trace. */
  predicate Loadable(initial: Image, checkpoint: Option<Image>, trace: seq<Transaction>)
  {
    && WellFormedImage(initial) && ExoToCounter(initial.transIcnt) == -1
    && (checkpoint.Some? ==>
          && WellFormedImage(checkpoint.value)
          && FastForward(trace, ExoToCounter(checkpoint.value.transIcnt)).At?)
  }

  /** The state and the rest of the trace with which simulation starts. */
  function Started(initial: Image, checkpoint: Option<Image>, trace: seq<Transaction>, m: Pages)
    : (Eio.Machine, seq<Transaction>)
    requires Loadable(initial, checkpoint, trace) && WellFormed(m)
  {
    var m1 := Loaded(m, PagesOf(initial));
    match checkpoint
    case None => (MachineOf(ArchOf(initial), m1), trace)
    case Some(c) =>
      (MachineOf(ArchOf(c), Loaded(m1, PagesOf(c))), FastForward(trace, ExoToCounter(c.transIcnt)).rest)
  }

  /** ld_load_prog for an EIO file. */
  method LoadEio(initial: Image, checkpoint: Option<Image>, trace: seq<Transaction>, mem: Memory)
    returns (ok: bool, arch: Arch, rest: seq<Transaction>)
    requires mem.Valid()
    modifies mem.Repr
    ensures mem.Valid() && fresh(mem.Repr - old(mem.Repr))
    ensures ok <==> Loadable(initial, checkpoint, trace)
    ensures ok ==> (MachineOf(arch, mem.Contents()), rest) == Started(initial, checkpoint, trace, old(mem.Contents()))
  {
    hide Memory.Valid, Memory.Contents, Loaded, ArchOf, WellFormedImage, ExoToCounter, FastForward, MachineOf;
    ImagePages(initial);
    rest := trace;
    var icnt;
    ok, arch, icnt := ReadCheckpoint(initial, mem);
    if !ok || icnt != -1 {
      return false, arch, rest;
    }
    if checkpoint.Some? {
      ImagePages(checkpoint.value);
      ok, arch, icnt := ReadCheckpoint(checkpoint.value, mem);
      if !ok {
        return false, arch, rest;
      }
      var f := Forward(trace, icnt);
      if f.NotFound? {
        return false, arch, rest;
      }
      rest := f.rest;
    }
  }

  lemma ImagePages(i: Image)
    ensures WellFormedImage(i) ==> i.pageCount <= |i.pages|
  {
  }

  // ---- What simulation starts with ---------------------------------------------------------------

  /** What a machine takes from an image: numbers cut to their widths, and as many pages as the image announces. */
  lemma MachineSays(i: Image, m: Pages)
    requires WellFormedImage(i) && WellFormed(m)
    ensures var s := MachineOf(ArchOf(i), m);
            && (forall k :: 0 <= k < 32 ==> s.regs[k] == FromExo(i.iregs[k]) && s.other.fregs[k] == FromExo(i.fregs[k]))
            && s.other.icnt == ExoToCounter(i.misc[0]) && s.other.fcc == FromExo(i.misc[5])
            && s.pc == i.misc[1] % 4_294_967_296 && s.other.npc == i.misc[2] % 4_294_967_296
            && s.other.hi == i.misc[3] % 4_294_967_296 && s.other.lo == i.misc[4] % 4_294_967_296
            && s.brk == i.brk % 4_294_967_296 && s.other.stackMin == i.stackMin % 4_294_967_296
            && (forall k :: 0 <= k < 6 ==> s.other.segments[k] == i.segments[k] % 4_294_967_296)
            && s.mem == m
    ensures PagesOf(i) <= i.pages && |PagesOf(i)| == if i.pageCount < 0 then 0 else i.pageCount
  {
    hide ArchOf;
    StateSays(i);
  }

  /** When images and trace go together, and what is then left of the trace. */
  lemma {:induction false} LoadingMeans(initial: Image, c: Image, trace: seq<Transaction>, m: Pages, k: nat)
    requires WellFormed(m) && k <= |trace| && 0 <= initial.transIcnt < 0x1_0000_0000_0000_0000
    requires forall i :: 0 <= i < k ==> trace[i].icnt != ExoToCounter(c.transIcnt)
    requires k < |trace| ==> trace[k].icnt == ExoToCounter(c.transIcnt)
    ensures Loadable(initial, None, trace) <==>
              WellFormedImage(initial) && initial.transIcnt == 0xffff_ffff_ffff_ffff
    ensures Loadable(initial, Some(c), trace) <==> Loadable(initial, None, trace) && WellFormedImage(c) && k < |trace|
    ensures Loadable(initial, None, trace) ==> Started(initial, None, trace, m).1 == trace
    ensures Loadable(initial, Some(c), trace) ==> Started(initial, Some(c), trace, m).1 == trace[k + 1..]
  {
    hide WellFormedImage, Loaded, ArchOf, MachineOf;
    FastForwardStops(trace, ExoToCounter(c.transIcnt), k);
    CounterMeans(0, initial.transIcnt);
    ImagePages(initial);
    ImagePages(c);
  }

  // ---- Pages are never freed ---------------------------------------------------------------------

  lemma {:induction false} StoreGrows(m: Pages, a: Addr, bytes: seq<Byte>)
    requires WellFormed(m)
    ensures m.Keys <= StoreBytes(m, a, bytes).Keys
  {
    if bytes != [] {
      var k := |bytes| - 1;
      StoreGrows(m, a, bytes[..k]);
      LoadAfterStore(StoreBytes(m, a, bytes[..k]), Plus(a, k), bytes[k], a);
      hide Store, Load, PageNo, Plus;
    }
  }

  lemma {:induction false} CallGrows(m: Pages, ops: seq<Transfer>)
    requires WellFormed(m)
    ensures m.Keys <= Performed(m, ops).Keys
  {
    hide StoreBytes;
    if ops != [] {
      var k := |ops| - 1;
      CallGrows(m, ops[..k]);
      if ops[k].Deposit? {
        StoreGrows(Performed(m, ops[..k]), ops[k].addr, ops[k].bytes);
      }
    }
  }

  /** No computation of the run frees a page. */
  ghost predicate Growing(stages: seq<Stage>)
  {
    forall i, s: Eio.Machine :: 0 <= i < |stages| ==> s.mem.Keys <= stages[i].compute(s).mem.Keys
  }

  lemma {:induction false} LiveGrows(s: Eio.Machine, stages: seq<Stage>)
    requires Traceable(stages) && Growing(stages)
    ensures s.mem.Keys <= Live(s, stages).mem.Keys
  {
    hide ReadsThenWrites, WithRegs, ResultsToExo, Performed;
    if stages != [] {
      var k := |stages| - 1;
      assert forall i, s: Eio.Machine :: 0 <= i < k ==> stages[..k][i].compute(s) == stages[i].compute(s);
      LiveGrows(s, stages[..k]);
      var t := Live(s, stages[..k]);
      assert t.mem.Keys <= stages[k].compute(t).mem.Keys;
      CallGrows(stages[k].compute(t).mem, stages[k].call.accesses);
    }
  }

  // ---- The whole way -----------------------------------------------------------------------------

  /** The image describes the machine: all of its state, and all of its pages, each once. */
  ghost predicate Describes(image: Image, s: Eio.Machine, icnt: Counter, nums: seq<int>)
  {
    && image == ImageOf(ArchFrom(s), icnt, |image.pages|, image.pages)
    && Records(image.pages, s.mem, nums)
    && forall p :: p in s.mem ==> p in nums
  }

  /** Loading the image of a machine over a memory with none but pages of the machine gives the machine. */
  lemma ImageLoads(image: Image, s: Eio.Machine, icnt: Counter, nums: seq<int>, m: Pages)
    requires Describes(image, s, icnt, nums) && WellFormed(m) && m.Keys <= s.mem.Keys
    ensures WellFormedImage(image) && ExoToCounter(image.transIcnt) == icnt
    ensures MachineOf(ArchOf(image), Loaded(m, PagesOf(image))) == s
    ensures Loaded(m, PagesOf(image)) == s.mem
  {
    hide Loaded, Records, ArchOf, ExoToCounter, CounterToExo, ImageOf, WellFormedImage, MachineOf, ArchFrom;
    ImageRestores(ArchFrom(s), icnt, s.mem, image.pages, nums, m);
    ArchAndMemory(s);
  }

  /** Record a run from s; take an image of s at its start and one of x after k > 0 system calls, anywhere in
      the computation that follows. Load the first into an empty memory and the second over it,
      fast-forward the trace and replay: the machine starts in x and ends where the recorded run ended. */
  lemma {:induction false} ResumeFromImages(
    s: Eio.Machine, stages: seq<Stage>, k: nat, x: Eio.Machine, rest: Eio.Machine -> Eio.Machine,
    initial: Image, nums: seq<int>, checkpoint: Image, nums': seq<int>)
    requires Traceable(stages) && DistinctCounts(stages) && Growing(stages) && 0 < k < |stages|
    requires -0x8000_0000_0000_0000 <= stages[k - 1].icnt < 0x8000_0000_0000_0000
    requires Traceable(stages[..k])
    requires Live(s, stages[..k]).mem.Keys <= x.mem.Keys
    requires rest(x) == stages[k].compute(Live(s, stages[..k]))
    requires Describes(initial, s, -1, nums) && Describes(checkpoint, x, stages[k - 1].icnt, nums')
    ensures Loadable(initial, Some(checkpoint), Trace(s, stages))
    ensures var (state, trace) := Started(initial, Some(checkpoint), Trace(s, stages), map[]);
            && state == x && |trace| == |stages| - k
            && Replayed(state, Resumed(stages, k, rest), trace) == Ok(Live(s, stages))
  {
    hide Loaded, Describes, ArchOf, ExoToCounter, WellFormedImage, MachineOf, Live, Trace, FastForward, Replayed,
         Traceable, DistinctCounts, Growing, Resumed;
    ImageLoads(initial, s, -1, nums, map[]);
    GrowingPrefix(stages, k);
    LiveGrows(s, stages[..k]);
    ImageLoads(checkpoint, x, stages[k - 1].icnt, nums', s.mem);
    ResumeFromCheckpoint(s, stages, k, x, rest);
  }

  lemma {:induction false} GrowingPrefix(stages: seq<Stage>, k: nat)
    requires Growing(stages) && k <= |stages|
    ensures Growing(stages[..k])
  {
    assert forall i :: 0 <= i < k ==> stages[..k][i] == stages[i];
  }
}
