// Which lookups of the page table find their page at the head of its bucket (Lab1-Hazards/memory.h and memory.c),
// as a function of the accesses alone.
module PageCache {
  import opened FlatMemory

  // ---- Lookups -----------------------------------------------------------------------------------

  /** The page table as lookups see it: the pages, the page at the head of each bucket (-1 when it is empty), and the
      two counters. */
  datatype DirectoryState = Directory(pages: Pages, fronts: seq<int>, misses: nat, accesses: nat)

  type Directory = d: DirectoryState | WellFormed(d.pages) && |d.fronts| == 32768
    witness Directory(map[], seq(32768, _ => -1), 0, 0)

  function Empty(): Directory
  {
    Directory(map[], seq(32768, _ => -1), 0, 0)
  }

  /** One lookup: a page that is there heads its bucket afterwards. */
  function LookedUp(d: Directory, a: Addr): Directory
  {
    var p, s := PageNo(a), SetOf(a);
    Directory(d.pages, if p in d.pages then d.fronts[s := p] else d.fronts,
              d.misses + (if d.fronts[s] == p then 0 else 1), d.accesses + 1)
  }

  /** Reading a byte looks its page up once, and if it is there once more. */
  function Read(d: Directory, a: Addr): Directory
  {
    if PageNo(a) in d.pages then LookedUp(LookedUp(d, a), a) else LookedUp(d, a)
  }

  /** A new page heads its bucket. */
  function Entered(d: Directory, a: Addr): Directory
  {
    d.(pages := Allocated(d.pages, a), fronts := d.fronts[SetOf(a) := PageNo(a)])
  }

  /** Writing a byte looks its page up, allocates it if need be, and looks it up once more. */
  function Written(d: Directory, a: Addr, v: Byte): Directory
  {
    var d1 := LookedUp(d, a);
    var d2 := if PageNo(a) in d.pages then d1 else Entered(d1, a);
    var d3 := LookedUp(d2, a);
    d3.(pages := Patched(d3.pages, a, v))
  }

  function Step(d: Directory, op: Operation): Directory
  {
    match op
    case Get(a) => Read(d, a)
    case Put(a, v) => Written(d, a, v)
  }

  function After(ops: seq<Operation>): Directory
  {
    if ops == [] then Empty() else Step(After(ops[..|ops| - 1]), ops[|ops| - 1])
  }

  // ---- In terms of the accesses --------------------------------------------------------------------

  /** Page p has been written to. */
  predicate Present(ops: seq<Operation>, p: int)
  {
    exists i :: 0 <= i < |ops| && ops[i].Put? && ops[i].addr / 4096 == p
  }

  /** The page of the last access to bucket s that was a write, or a read of a page written to before. */
  function Holder(ops: seq<Operation>, s: nat): int
  {
    if ops == [] then -1
    else
      var before, last := ops[..|ops| - 1], ops[|ops| - 1];
      var p := last.addr / 4096;
      if p % 32768 == s && (last.Put? || Present(before, p)) then p else Holder(before, s)
  }

  /** The accesses to a page other than the holder of its bucket. */
  function Missed(ops: seq<Operation>): nat
  {
    if ops == [] then 0
    else
      var before, p := ops[..|ops| - 1], ops[|ops| - 1].addr / 4096;
      Missed(before) + if Holder(before, p % 32768) == p then 0 else 1
  }

  /** Two lookups for each access, one for a read of a page never written to. */
  function Lookups(ops: seq<Operation>): nat
  {
    if ops == [] then 0
    else
      var before, last := ops[..|ops| - 1], ops[|ops| - 1];
      Lookups(before) + if last.Get? && !Present(before, last.addr / 4096) then 1 else 2
  }

  lemma PresentIsTouched(ops: seq<Operation>, p: int)
    ensures Present(ops, p) <==> Touches(ops, p)
  {
  }

  lemma {:induction false} HolderIsPresent(ops: seq<Operation>, s: nat)
    ensures var p := Holder(ops, s);
            p == -1 || (Present(ops, p) && p % 32768 == s)
  {
    if ops != [] {
      var before, last := ops[..|ops| - 1], ops[|ops| - 1];
      HolderIsPresent(before, s);
      assert ops == before + [last];
      PresentStep(before, last, Holder(ops, s));
    }
  }

  lemma PresentStep(ops: seq<Operation>, o: Operation, p: int)
    ensures Present(ops + [o], p) <==> Present(ops, p) || (o.Put? && o.addr / 4096 == p)
  {
    PresentIsTouched(ops, p);
    PresentIsTouched(ops + [o], p);
    TouchesStep(ops, o, p);
  }

  /** One access, to a page that is there if it heads its bucket. */
  lemma StepSays(d: Directory, op: Operation)
    requires d.fronts[op.addr / 4096 % 32768] == op.addr / 4096 ==> op.addr / 4096 in d.pages
    ensures var r, p := Step(d, op), op.addr / 4096;
            var there := op.Put? || p in d.pages;
            && r.pages == (if op.Put? then Store(d.pages, op.addr, op.value) else d.pages)
            && r.fronts == (if there then d.fronts[p % 32768 := p] else d.fronts)
            && r.misses == d.misses + (if d.fronts[p % 32768] == p then 0 else 1)
            && r.accesses == d.accesses + if there then 2 else 1
  {
  }

  /** After any accesses to the empty memory: what is in it, which page heads each bucket, and both counters. */
  lemma {:induction false} AccessesMean(ops: seq<Operation>)
    ensures var d := After(ops);
            && d.pages == Run(map[], ops)
            && (forall s :: 0 <= s < 32768 ==> d.fronts[s] == Holder(ops, s))
            && d.misses == Missed(ops) && d.accesses == Lookups(ops)
  {
    hide Step, Store, Load, Present, Touches;
    if ops != [] {
      var before, last := ops[..|ops| - 1], ops[|ops| - 1];
      AccessesMean(before);
      LastWriteWins(before);
      var d := After(before);
      PresentIsTouched(before, last.addr / 4096);
      HolderIsPresent(before, last.addr / 4096 % 32768);
      StepSays(d, last);
    }
  }

  // ---- What the first level is worth -------------------------------------------------------------------

  /** No two pages of the accesses have the same bucket. */
  predicate NoSharing(ops: seq<Operation>)
  {
    forall i, j :: 0 <= i < |ops| && 0 <= j < |ops| && ops[i].addr / 4096 % 32768 == ops[j].addr / 4096 % 32768 ==>
                     ops[i].addr / 4096 == ops[j].addr / 4096
  }

  predicate AllWrites(ops: seq<Operation>)
  {
    forall i :: 0 <= i < |ops| ==> ops[i].Put?
  }

  lemma {:induction false} HeldSince(ops: seq<Operation>, k: nat)
    requires AllWrites(ops) && NoSharing(ops) && k < |ops|
    ensures var p := ops[k].addr / 4096;
            Holder(ops, p % 32768) == p
  {
    var n := |ops| - 1;
    if k < n && ops[n].addr / 4096 % 32768 != ops[k].addr / 4096 % 32768 {
      HeldSince(ops[..n], k);
    }
  }

  /** Writes to pages with buckets of their own miss once for each page: as often as pages are allocated. */
  lemma {:induction false} MissesOncePerPage(ops: seq<Operation>)
    requires AllWrites(ops) && NoSharing(ops)
    ensures Missed(ops) == |Run(map[], ops)|
  {
    hide Store, Load, Holder, Touches;
    if ops != [] {
      var n := |ops| - 1;
      var before, last := ops[..n], ops[n];
      var p, m := last.addr / 4096, Run(map[], before);
      assert AllWrites(before) && NoSharing(before);
      MissesOncePerPage(before);
      LastWriteWins(before);
      PresentIsTouched(before, p);
      LoadAfterStore(m, last.addr, last.value, 0);
      if Present(before, p) {
        var i :| 0 <= i < |before| && before[i].Put? && before[i].addr / 4096 == p;
        HeldSince(before, i);
        assert m.Keys + {p} == m.Keys;
      } else {
        HolderIsPresent(before, p % 32768);
      }
      SameSize(Run(map[], ops), m.Keys + {p});
      SameSize(m, m.Keys);
    }
  }

  lemma SameSize(m: Pages, keys: set<int>)
    requires m.Keys == keys
    ensures |m| == |keys|
  {
  }

  /** Writes that change the page within one bucket every time miss every time. */
  lemma {:induction false} AlternationMisses(ops: seq<Operation>)
    requires AllWrites(ops)
    requires forall i :: 0 < i < |ops| ==> var p, q := ops[i - 1].addr / 4096, ops[i].addr / 4096;
                                           p != q && p % 32768 == q % 32768
    ensures Missed(ops) == |ops|
  {
    if ops != [] {
      var n := |ops| - 1;
      var before := ops[..n];
      AlternationMisses(before);
      if n > 0 {
        assert before[n - 1] == ops[n - 1] && ops[n - 1].Put?;
        assert Holder(before, ops[n - 1].addr / 4096 % 32768) == ops[n - 1].addr / 4096;
      }
    }
  }
}
