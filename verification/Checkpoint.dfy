// Checkpoints of the architected state (Lab1-Hazards/eio.c, eio_write_chkpt and eio_read_chkpt): the
// walk over all page table entries, and the byte-wise reload.
module Checkpoint {
  import opened FlatMemory
  import opened PageTable
  import opened Eio

  /** One memory page of a checkpoint: its first address and its bytes. */
  datatype PageRecord = PageRecord(addr: Addr, data: seq<Byte>)

  // ---- The meaning of a list of page records ------------------------------------------------

  /** Memory after the records have been written to it, in order. */
  function Loaded(m: Pages, recs: seq<PageRecord>): (r: Pages)
    requires WellFormed(m)
    ensures WellFormed(r)
  {
    if recs == [] then m
    else StoreBytes(Loaded(m, recs[..|recs| - 1]), recs[|recs| - 1].addr, recs[|recs| - 1].data)
  }

  /** The record describes the allocated page p. */
  predicate RecordOf(r: PageRecord, m: Pages, p: int)
    requires WellFormed(m)
  {
    p in m && r.addr == p * 4096 && r.data == m[p]
  }

  /** The records describe the pages nums of m, in that order. */
  predicate Records(recs: seq<PageRecord>, m: Pages, nums: seq<int>)
    requires WellFormed(m)
  {
    |recs| == |nums| && forall i :: 0 <= i < |recs| ==> RecordOf(recs[i], m, nums[i])
  }

  predicate NoDuplicates(nums: seq<int>)
  {
    forall i, j :: 0 <= i < j < |nums| ==> nums[i] != nums[j]
  }

  /** Writing all bytes of a page replaces the page. */
  lemma StorePage(m: Pages, p: int, data: seq<Byte>)
    requires WellFormed(m) && 0 <= p < PAGE_NUMBERS && |data| == PAGE_SIZE
    ensures StoreBytes(m, p * 4096, data) == m[p := data]
  {
    hide StoreBytes, Load, WellFormed, PageNo, Offset;
    assert data[..PAGE_SIZE] == data;
    StorePageKeys(m, p, data, PAGE_SIZE);
    PageReplaced(m, p, data, 0);
    var l, r := StoreBytes(m, p * 4096, data), m[p := data];
    forall b: Addr
      ensures Load(l, b) == Load(r, b)
    {
      StoredPageByte(m, p, data, b);
    }
    SameBytesSamePages(l, r);
  }

  lemma StoredPageByte(m: Pages, p: int, data: seq<Byte>, b: Addr)
    requires WellFormed(m) && 0 <= p < PAGE_NUMBERS && |data| == PAGE_SIZE
    ensures WellFormed(m[p := data])
    ensures Load(StoreBytes(m, p * 4096, data), b) == Load(m[p := data], b)
  {
    hide StoreBytes, Load, WellFormed, PageNo, Offset;
    LoadAfterStoreBytes(m, p * 4096, data, b);
    WithinPage(p, b);
    PageReplaced(m, p, data, b);
  }

  lemma PageReplaced(m: Pages, p: int, data: seq<Byte>, b: Addr)
    requires WellFormed(m) && 0 <= p < PAGE_NUMBERS && |data| == PAGE_SIZE
    ensures WellFormed(m[p := data])
    ensures Load(m[p := data], b) == if PageNo(b) == p then data[Offset(b)] else Load(m, b)
  {
  }

  lemma WithinPage(p: int, b: Addr)
    requires 0 <= p < PAGE_NUMBERS
    ensures var d := (b - p * 4096) % 0x1_0000_0000;
            && (d < 4096 <==> PageNo(b) == p)
            && (d < 4096 ==> d == Offset(b))
  {
  }

  lemma {:induction false} StorePageKeys(m: Pages, p: int, data: seq<Byte>, n: nat)
    requires WellFormed(m) && 0 <= p < PAGE_NUMBERS && |data| == PAGE_SIZE && n <= PAGE_SIZE
    ensures StoreBytes(m, p * 4096, data[..n]).Keys == if n == 0 then m.Keys else m.Keys + {p}
  {
    hide Store, Plus, PageNo, Load;
    if n > 0 {
      StorePageKeys(m, p, data, n - 1);
      assert data[..n][..n - 1] == data[..n - 1];
      PlaceInPage(p, n - 1);
      LoadAfterStore(StoreBytes(m, p * 4096, data[..n - 1]), Plus(p * 4096, n - 1), data[n - 1], 0);
    }
  }

  lemma PlaceInPage(p: int, i: nat)
    requires 0 <= p < PAGE_NUMBERS && i < 4096
    ensures PageNo(Plus(p * 4096, i)) == p
  {
  }

  /** The pages of saved that nums lists. */
  function Chosen(saved: Pages, nums: seq<int>): (r: Pages)
  {
    map p | p in saved && p in nums :: saved[p]
  }

  /** Loading records that describe pages of a saved memory lays those pages over what was there. */
  lemma {:induction false} LoadedIsOverlay(m: Pages, recs: seq<PageRecord>, saved: Pages, nums: seq<int>)
    requires WellFormed(m) && WellFormed(saved) && Records(recs, saved, nums)
    ensures Loaded(m, recs) == m + Chosen(saved, nums)
  {
    hide StoreBytes, Records, RecordOf, Chosen;
    if recs == [] {
      ChosenNone(m, saved, nums, recs);
    } else {
      var k := |recs| - 1;
      RecordsSplit(recs, saved, nums);
      LoadedIsOverlay(m, recs[..k], saved, nums[..k]);
      StorePage(Loaded(m, recs[..k]), nums[k], recs[k].data);
      ChosenStep(m, saved, nums);
    }
  }

  lemma ChosenNone(m: Pages, saved: Pages, nums: seq<int>, recs: seq<PageRecord>)
    requires WellFormed(saved) && Records(recs, saved, nums) && recs == []
    ensures m + Chosen(saved, nums) == m
  {
  }

  lemma RecordsSplit(recs: seq<PageRecord>, saved: Pages, nums: seq<int>)
    requires WellFormed(saved) && Records(recs, saved, nums) && recs != []
    ensures |nums| == |recs|
    ensures var k := |recs| - 1;
            && Records(recs[..k], saved, nums[..k])
            && nums[k] in saved && 0 <= nums[k] < PAGE_NUMBERS
            && recs[k].addr == nums[k] * 4096 && recs[k].data == saved[nums[k]] && |recs[k].data| == PAGE_SIZE
  {
    assert RecordOf(recs[|recs| - 1], saved, nums[|recs| - 1]);
  }

  lemma ChosenStep(m: Pages, saved: Pages, nums: seq<int>)
    requires nums != [] && nums[|nums| - 1] in saved
    ensures var k := |nums| - 1;
            m + Chosen(saved, nums) == (m + Chosen(saved, nums[..k]))[nums[k] := saved[nums[k]]]
  {
    var k := |nums| - 1;
    assert forall p :: p in nums <==> p in nums[..k] || p == nums[k];
  }

  /** Restoring a full set of records reproduces the saved memory exactly when the memory it is loaded
      into holds no page beyond the saved ones; loading into the empty memory always does. */
  lemma RestoredMemory(m: Pages, recs: seq<PageRecord>, saved: Pages, nums: seq<int>)
    requires WellFormed(m) && WellFormed(saved) && Records(recs, saved, nums)
    requires forall p :: p in saved ==> p in nums
    ensures Loaded(m, recs) == m + saved
    ensures Loaded(m, recs) == saved <==> m.Keys <= saved.Keys
  {
    LoadedIsOverlay(m, recs, saved, nums);
    ChooseAll(saved, nums);
    OverlayIsSaved(m, saved);
    hide Chosen, Loaded;
  }

  lemma ChooseAll(saved: Pages, nums: seq<int>)
    requires forall p :: p in saved ==> p in nums
    ensures Chosen(saved, nums) == saved
  {
    var c := Chosen(saved, nums);
    forall p | p in saved
      ensures p in c && c[p] == saved[p]
    {
      assert p in nums;
    }
    assert c.Keys == saved.Keys;
  }

  lemma OverlayIsSaved(m: Pages, saved: Pages)
    ensures m + saved == saved <==> m.Keys <= saved.Keys
  {
    var r := m + saved;
    assert r.Keys == m.Keys + saved.Keys;
    if m.Keys <= saved.Keys {
      assert r.Keys == saved.Keys;
      assert forall p :: p in saved ==> r[p] == saved[p];
    }
  }

  lemma {:induction false} DistinctCount(nums: seq<int>, s: set<int>)
    requires NoDuplicates(nums) && forall p :: p in nums <==> p in s
    ensures |nums| == |s|
  {
    if nums == [] {
      assert forall p :: p !in s;
    } else {
      var k := |nums| - 1;
      assert forall p :: p in nums <==> p in nums[..k] || p == nums[k];
      DistinctCount(nums[..k], s - {nums[k]});
    }
  }

  // ---- Writing -----------------------------------------------------------------------------

  /** Which pages the walk has visited at entry k of bucket s. */
  ghost predicate Visited(entries: map<int, Pte>, chains: seq<seq<Pte>>, p: int, s: nat, k: nat)
    requires |chains| == PTAB_SIZE && (s < PTAB_SIZE ==> k <= |chains[s]|)
  {
    p in entries && (p % 32768 < s || (p % 32768 == s && s < PTAB_SIZE && entries[p] in chains[s][..k]))
  }

  /** MEM_FORALL: visit all entries bucket by bucket. Exactly the allocated pages are dumped, each once,
      so that the page count in the header is the number of records that follow it. */
  method WritePages(mem: Memory) returns (recs: seq<PageRecord>, ghost nums: seq<int>)
    requires mem.Valid()
    ensures Records(recs, mem.Contents(), nums) && NoDuplicates(nums)
    ensures forall p :: p in mem.Contents() <==> p in nums
    ensures |recs| == mem.pageCount == |mem.Contents()|
  {
    hide Memory.Valid, Memory.Contents, Records, NoDuplicates, Dumped, PteAddr, PageOf;
    ghost var m := mem.Contents();
    recs, nums := [], [];
    NothingDumped(mem);
    var i := 0;
    while i < PTAB_SIZE
      invariant 0 <= i <= PTAB_SIZE == |mem.chains|
      invariant Dumped(mem, recs, nums, i, 0)
    {
      TableShape(mem, i);
      var pte := mem.ptab[i];
      ghost var c := mem.chains[i];
      ghost var k := 0;
      while pte != null
        invariant 0 <= k <= |c|
        invariant pte == if k < |c| then c[k] else null
        invariant Dumped(mem, recs, nums, i, k)
        decreases |c| - k
      {
        NextDumped(mem, recs, nums, i, k);
        recs, nums := recs + [PageRecord(PteAddr(pte.tag, i), pte.page[..])], nums + [PageOf(pte.tag, i)];
        pte := pte.next;
        k := k + 1;
      }
      NextBucket(mem, recs, nums, i);
      i := i + 1;
    }
    AllDumped(mem, recs, nums);
    RecordsCounted(recs, m, nums);
    DistinctCount(nums, m.Keys);
  }

  /** The records describe exactly the pages visited, each once. */
  ghost predicate Dumped(mem: Memory, recs: seq<PageRecord>, nums: seq<int>, s: nat, k: nat)
    requires mem.Valid() && |mem.chains| == PTAB_SIZE && (s < PTAB_SIZE ==> k <= |mem.chains[s]|)
    reads mem, mem.Repr
  {
    && Records(recs, mem.Contents(), nums) && NoDuplicates(nums)
    && forall p :: p in nums <==> Visited(mem.entries, mem.chains, p, s, k)
  }

  lemma NothingDumped(mem: Memory)
    requires mem.Valid()
    ensures |mem.chains| == PTAB_SIZE && Dumped(mem, [], [], 0, 0)
  {
  }

  /** A bucket is a chain from its head, and each entry leads to the next. */
  lemma TableShape(mem: Memory, s: nat)
    requires mem.Valid() && s < PTAB_SIZE
    ensures mem.ptab.Length == PTAB_SIZE == |mem.chains|
    ensures var c := mem.chains[s];
            && mem.ptab[s] == Head(c)
            && forall i {:trigger c[i].next} :: 0 <= i < |c| ==> c[i].next == Following(c, i) && c[i].tag < 32
  {
    assert mem.Chain(s);
  }

  lemma NextDumped(mem: Memory, recs: seq<PageRecord>, nums: seq<int>, s: nat, k: nat)
    requires mem.Valid() && |mem.chains| == PTAB_SIZE && s < PTAB_SIZE && k < |mem.chains[s]|
    requires Dumped(mem, recs, nums, s, k)
    ensures var n := mem.chains[s][k];
            && n.tag < 32
            && Dumped(mem, recs + [PageRecord(PteAddr(n.tag, s), n.page[..])], nums + [PageOf(n.tag, s)], s, k + 1)
  {
    hide Memory.Valid, Memory.Contents, Visited, RecordOf, PteAddr, PageOf;
    NextEntry(mem, s, k);
  }

  lemma RecordsCounted(recs: seq<PageRecord>, m: Pages, nums: seq<int>)
    requires WellFormed(m) && Records(recs, m, nums)
    ensures |recs| == |nums|
  {
  }

  lemma NextEntry(mem: Memory, s: nat, k: nat)
    requires mem.Valid() && s < PTAB_SIZE && k < |mem.chains[s]|
    ensures var n := mem.chains[s][k];
            var p := PageOf(n.tag, s);
            && n.tag < 32
            && RecordOf(PageRecord(PteAddr(n.tag, s), n.page[..]), mem.Contents(), p)
            && !Visited(mem.entries, mem.chains, p, s, k)
            && forall q :: Visited(mem.entries, mem.chains, q, s, k + 1) <==>
                           Visited(mem.entries, mem.chains, q, s, k) || q == p
  {
    var n := mem.chains[s][k];
    assert mem.Chain(s);
    assert Known(mem.entries, n, s);
    BucketSplits(n.tag, s);
  }

  lemma NextBucket(mem: Memory, recs: seq<PageRecord>, nums: seq<int>, s: nat)
    requires mem.Valid() && |mem.chains| == PTAB_SIZE && s < PTAB_SIZE
    requires Dumped(mem, recs, nums, s, |mem.chains[s]|)
    ensures Dumped(mem, recs, nums, s + 1, 0)
  {
    hide Memory.Valid, Memory.Contents, Records, NoDuplicates;
    assert mem.chains[s][..|mem.chains[s]|] == mem.chains[s];
    forall q
      ensures Visited(mem.entries, mem.chains, q, s + 1, 0) <==>
              Visited(mem.entries, mem.chains, q, s, |mem.chains[s]|)
    {
      if q in mem.entries && q % 32768 == s {
        InItsBucket(mem, q);
      }
    }
  }

  lemma InItsBucket(mem: Memory, q: int)
    requires mem.Valid() && |mem.chains| == PTAB_SIZE && q in mem.entries
    ensures mem.entries[q] in mem.chains[q % 32768]
  {
  }

  /** Once all buckets are done, the records are those of the allocated pages. */
  lemma AllDumped(mem: Memory, recs: seq<PageRecord>, nums: seq<int>)
    requires mem.Valid() && |mem.chains| == PTAB_SIZE && Dumped(mem, recs, nums, PTAB_SIZE, 0)
    ensures Records(recs, mem.Contents(), nums) && NoDuplicates(nums)
    ensures forall p :: p in mem.Contents() <==> p in nums
    ensures |mem.Contents()| == mem.pageCount
  {
    AllVisited(mem);
    hide Memory.Valid, Memory.Contents, Records, NoDuplicates, Visited;
  }

  lemma AllVisited(mem: Memory)
    requires mem.Valid()
    ensures forall q :: Visited(mem.entries, mem.chains, q, PTAB_SIZE, 0) <==> q in mem.Contents()
    ensures |mem.Contents()| == mem.pageCount
  {
    assert mem.Contents().Keys == mem.entries.Keys;
    assert |mem.Contents()| == |mem.Contents().Keys| && |mem.entries| == |mem.entries.Keys|;
  }

  // ---- The rest of the architected state ------------------------------------------------------

  function CounterToExo(c: Counter): int { c % 0x1_0000_0000_0000_0000 }

  function ExoToCounter(v: int): Counter
  {
    var low := v % 0x1_0000_0000_0000_0000;
    if low < 0x8000_0000_0000_0000 then low else low - 0x1_0000_0000_0000_0000
  }

  function ExoToAddr(v: int): Addr { v % 0x1_0000_0000 }

  /** Registers, counters and segment bounds: everything a checkpoint holds besides the pages. The
      segment bounds are base and size of text, data and stack. */
  datatype ArchState = ArchState(
    icnt: Counter, pc: Addr, npc: Addr, hi: Addr, lo: Addr, fcc: Word,
    iregs: seq<Word>, fregs: seq<Word>,
    brk: Addr, stackMin: Addr, segments: seq<Addr>)

  type Arch = a: ArchState | |a.iregs| == 32 && |a.fregs| == 32 && |a.segments| == 6
    witness ArchState(0, 0, 0, 0, 0, 0, seq(32, _ => 0), seq(32, _ => 0), 0, 0, seq(6, _ => 0))

  datatype Image = Image(
    transIcnt: int, misc: seq<int>, iregs: seq<int>, fregs: seq<int>,
    pageCount: int, brk: int, stackMin: int, segments: seq<int>, pages: seq<PageRecord>)

  function ImageOf(a: Arch, transIcnt: Counter, pageCount: int, pages: seq<PageRecord>): Image
  {
    Image(CounterToExo(transIcnt),
          [CounterToExo(a.icnt), a.pc, a.npc, a.hi, a.lo, ToExo(a.fcc)],
          seq(32, i requires 0 <= i < 32 => ToExo(a.iregs[i])),
          seq(32, i requires 0 <= i < 32 => ToExo(a.fregs[i])),
          pageCount, a.brk, a.stackMin, a.segments, pages)
  }

  predicate WellFormedImage(i: Image)
  {
    |i.misc| == 6 && |i.iregs| == 32 && |i.fregs| == 32 && |i.segments| == 6 && i.pageCount <= |i.pages|
  }

  function WordsOf(vs: seq<int>): (r: seq<Word>)
    ensures |r| == |vs|
  {
    seq(|vs|, i requires 0 <= i < |vs| => FromExo(vs[i]))
  }

  function AddrsOf(vs: seq<int>): (r: seq<Addr>)
    ensures |r| == |vs|
  {
    seq(|vs|, i requires 0 <= i < |vs| => ExoToAddr(vs[i]))
  }

  function ArchOf(i: Image): Arch
    requires WellFormedImage(i)
  {
    ArchState(ExoToCounter(i.misc[0]), ExoToAddr(i.misc[1]), ExoToAddr(i.misc[2]), ExoToAddr(i.misc[3]),
              ExoToAddr(i.misc[4]), FromExo(i.misc[5]),
              WordsOf(i.iregs), WordsOf(i.fregs),
              ExoToAddr(i.brk), ExoToAddr(i.stackMin), AddrsOf(i.segments))
  }

  lemma CounterRoundTrip(c: Counter)
    ensures ExoToCounter(CounterToExo(c)) == c
  {
  }

  lemma WordsRoundTrip(ws: seq<Word>)
    requires |ws| == 32
    ensures WordsOf(seq(32, i requires 0 <= i < 32 => ToExo(ws[i]))) == ws
  {
    forall i | 0 <= i < 32
      ensures FromExo(ToExo(ws[i])) == ws[i]
    {
      ExoRoundTrip(ws[i]);
    }
    hide ToExo, FromExo;
  }

  /** Everything but the pages survives the image. */
  lemma ArchRoundTrip(a: Arch, transIcnt: Counter, pageCount: int, pages: seq<PageRecord>)
    requires pageCount <= |pages|
    ensures WellFormedImage(ImageOf(a, transIcnt, pageCount, pages))
    ensures ArchOf(ImageOf(a, transIcnt, pageCount, pages)) == a
    ensures ExoToCounter(ImageOf(a, transIcnt, pageCount, pages).transIcnt) == transIcnt
  {
    CounterRoundTrip(a.icnt);
    CounterRoundTrip(transIcnt);
    ExoRoundTrip(a.fcc);
    WordsRoundTrip(a.iregs);
    WordsRoundTrip(a.fregs);
    assert AddrsOf(a.segments) == a.segments;
    hide CounterToExo, ExoToCounter, ToExo, FromExo, WordsOf, AddrsOf;
    assert forall x: Addr :: ExoToAddr(x) == x;
  }

  // ---- Writing and reading a checkpoint -------------------------------------------------------

  method WriteCheckpoint(arch: Arch, transIcnt: Counter, mem: Memory) returns (image: Image, ghost nums: seq<int>)
    requires mem.Valid()
    ensures image == ImageOf(arch, transIcnt, |image.pages|, image.pages)
    ensures Records(image.pages, mem.Contents(), nums) && NoDuplicates(nums)
    ensures forall p :: p in mem.Contents() <==> p in nums
    ensures image.pageCount == |mem.Contents()|
  {
    var recs;
    recs, nums := WritePages(mem);
    image := ImageOf(arch, transIcnt, mem.pageCount, recs);
  }

  /** Reload: as many page records as the header announces, each written byte by byte. Missing parts
      are fatal; what had been loaded before stays. */
  method ReadCheckpoint(image: Image, mem: Memory) returns (ok: bool, arch: Arch, transIcnt: Counter)
    requires mem.Valid()
    modifies mem.Repr
    ensures mem.Valid() && fresh(mem.Repr - old(mem.Repr))
    ensures ok <==> WellFormedImage(image)
    ensures ok ==> arch == ArchOf(image) && transIcnt == ExoToCounter(image.transIcnt)
    ensures ok ==> var n := if image.pageCount > 0 then image.pageCount else 0;
                   mem.Contents() == Loaded(old(mem.Contents()), image.pages[..n])
  {
    hide Memory.Valid, Memory.Contents, StoreBytes, ArchOf, ExoToCounter;
    arch, transIcnt := ArchState(0, 0, 0, 0, 0, 0, seq(32, _ => 0), seq(32, _ => 0), 0, 0, seq(6, _ => 0)), 0;
    if |image.misc| != 6 || |image.iregs| != 32 || |image.fregs| != 32 || |image.segments| != 6 {
      return false, arch, transIcnt;
    }
    ghost var m := mem.Contents();
    ghost var n := if image.pageCount > 0 then image.pageCount else 0;
    var i := 0;
    while i < image.pageCount
      invariant 0 <= i <= n && i <= |image.pages|
      invariant mem.Valid() && fresh(mem.Repr - old(mem.Repr))
      invariant mem.Contents() == Loaded(m, image.pages[..i])
    {
      if i == |image.pages| {
        return false, arch, transIcnt;
      }
      ReadPage(image.pages[i], mem);
      assert image.pages[..i + 1][..i] == image.pages[..i];
      i := i + 1;
    }
    return true, ArchOf(image), ExoToCounter(image.transIcnt);
  }

  method ReadPage(rec: PageRecord, mem: Memory)
    requires mem.Valid()
    modifies mem.Repr
    ensures mem.Valid() && fresh(mem.Repr - old(mem.Repr))
    ensures mem.Contents() == StoreBytes(old(mem.Contents()), rec.addr, rec.data)
  {
    hide Memory.Valid, Memory.Contents, Store, Plus;
    ghost var m := mem.Contents();
    var pageAddr, j := rec.addr, 0;
    assert Plus(rec.addr, 0) == rec.addr by { StartOf(rec.addr); }
    while j < |rec.data|
      invariant 0 <= j <= |rec.data| && pageAddr == Plus(rec.addr, j)
      invariant mem.Valid() && fresh(mem.Repr - old(mem.Repr))
      invariant mem.Contents() == StoreBytes(m, rec.addr, rec.data[..j])
    {
      mem.WriteByte(pageAddr, rec.data[j]);
      assert rec.data[..j + 1][..j] == rec.data[..j];
      PlusPlus(rec.addr, j, 1);
      pageAddr, j := Plus(pageAddr, 1), j + 1;
    }
    assert rec.data[..j] == rec.data;
  }

  lemma StartOf(a: Addr)
    ensures Plus(a, 0) == a
  {
  }

  /** Dump one machine and load the dump into another: registers, counters and bounds come back, and so
      does the memory, exactly when the other machine has no page that the dumped one lacks. */
  method DumpAndRestore(arch: Arch, transIcnt: Counter, mem: Memory, mem': Memory)
    returns (arch': Arch, transIcnt': Counter)
    requires mem.Valid() && mem'.Valid() && mem.Repr !! mem'.Repr
    modifies mem'.Repr
    ensures mem.Valid() && mem'.Valid()
    ensures arch' == arch && transIcnt' == transIcnt
    ensures mem'.Contents() == old(mem'.Contents()) + mem.Contents()
    ensures mem'.Contents() == mem.Contents() <==> old(mem'.Contents().Keys) <= mem.Contents().Keys
  {
    hide *;
    var image, nums := WriteCheckpoint(arch, transIcnt, mem);
    ImageRestores(arch, transIcnt, mem.Contents(), image.pages, nums, mem'.Contents());
    var ok;
    ok, arch', transIcnt' := ReadCheckpoint(image, mem');
  }

  /** An image with one record for each page of saved restores everything that went into it. */
  lemma ImageRestores(a: Arch, transIcnt: Counter, saved: Pages, pages: seq<PageRecord>, nums: seq<int>, m: Pages)
    requires WellFormed(m) && WellFormed(saved) && Records(pages, saved, nums)
    requires forall p :: p in saved ==> p in nums
    ensures var image := ImageOf(a, transIcnt, |pages|, pages);
            && image.pageCount == |pages| && image.pages[..|pages|] == pages
            && WellFormedImage(image)
            && ArchOf(image) == a && ExoToCounter(image.transIcnt) == transIcnt
    ensures Loaded(m, pages) == m + saved
    ensures Loaded(m, pages) == saved <==> m.Keys <= saved.Keys
  {
    RestoredMemory(m, pages, saved, nums);
    ArchRoundTrip(a, transIcnt, |pages|, pages);
    assert pages[..|pages|] == pages;
    hide Loaded, Records, ArchOf, ExoToCounter, CounterToExo;
  }

  // ---- The parts of an image -----------------------------------------------------------------------

  /** What is where in the image of a state: six miscellaneous numbers, the registers in order, and the rest. */
  lemma ImageSays(a: Arch, transIcnt: Counter, pageCount: int, pages: seq<PageRecord>)
    ensures var i := ImageOf(a, transIcnt, pageCount, pages);
            && ExoToCounter(i.transIcnt) == transIcnt
            && |i.misc| == 6 && ExoToCounter(i.misc[0]) == a.icnt
            && i.misc[1] == a.pc && i.misc[2] == a.npc && i.misc[3] == a.hi && i.misc[4] == a.lo
            && FromExo(i.misc[5]) == a.fcc
            && |i.iregs| == |i.fregs| == 32
            && (forall k :: 0 <= k < 32 ==> FromExo(i.iregs[k]) == a.iregs[k] && FromExo(i.fregs[k]) == a.fregs[k])
            && i.pageCount == pageCount && i.brk == a.brk && i.stackMin == a.stackMin
            && i.segments == a.segments && i.pages == pages
  {
    CounterRoundTrip(a.icnt);
    CounterRoundTrip(transIcnt);
    ExoRoundTrip(a.fcc);
    forall k | 0 <= k < 32
      ensures FromExo(ToExo(a.iregs[k])) == a.iregs[k] && FromExo(ToExo(a.fregs[k])) == a.fregs[k]
    {
      ExoRoundTrip(a.iregs[k]);
      ExoRoundTrip(a.fregs[k]);
    }
  }

  /** Counters are 64 bits wide, and stored as they are. */
  lemma CounterMeans(c: Counter, v: int)
    ensures CounterToExo(c) == if c < 0 then c + 18_446_744_073_709_551_616 else c
    ensures 0 <= v < 18_446_744_073_709_551_616 ==>
              ExoToCounter(v) == if v < 9_223_372_036_854_775_808 then v else v - 18_446_744_073_709_551_616
  {
  }

  /** What a state takes from a well-formed image, each part cut to its width. */
  lemma StateSays(i: Image)
    requires WellFormedImage(i)
    ensures var a := ArchOf(i);
            && a.icnt == ExoToCounter(i.misc[0]) && a.fcc == FromExo(i.misc[5])
            && a.pc == i.misc[1] % 4_294_967_296 && a.npc == i.misc[2] % 4_294_967_296
            && a.hi == i.misc[3] % 4_294_967_296 && a.lo == i.misc[4] % 4_294_967_296
            && (forall k :: 0 <= k < 32 ==> a.iregs[k] == FromExo(i.iregs[k]) && a.fregs[k] == FromExo(i.fregs[k]))
            && a.brk == i.brk % 4_294_967_296 && a.stackMin == i.stackMin % 4_294_967_296
            && forall k :: 0 <= k < 6 ==> a.segments[k] == i.segments[k] % 4_294_967_296
  {
  }
}
