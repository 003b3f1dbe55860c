// The simulated memory as callers see it (Lab1-Hazards/memory.h): a flat space of 2^32 bytes, all zero
// until written, held in pages that come into being when they are first written.
module FlatMemory {

  const ADDRESS_SPACE: int := 0x1_0000_0000
  const PAGE_SIZE: int := 4096
  const PTAB_SIZE: int := 32768
  const PAGE_NUMBERS: int := 0x10_0000

  type Byte = b: int | 0 <= b < 256
  type Addr = a: int | 0 <= a < 0x1_0000_0000

  /** Address arithmetic wraps at 32 bits. */
  function Plus(a: Addr, n: nat): Addr
  {
    (a + n) % 0x1_0000_0000
  }

  // ---- Splitting an address --------------------------------------------------------------

  function PageNo(a: Addr): (p: nat)
    ensures p < PAGE_NUMBERS
  {
    a / 4096
  }

  function Offset(a: Addr): (o: nat)
    ensures o < PAGE_SIZE
  {
    a % 4096
  }

  /** The bucket of the hash table and the tag within the bucket: shifts by 12 and 27 bits. */
  function SetOf(a: Addr): (s: nat)
    ensures s < PTAB_SIZE
  {
    (a / 4096) % 32768
  }

  function TagOf(a: Addr): (t: nat)
    ensures t < 32
  {
    a / 0x800_0000
  }

  /** The page number that an entry with this tag in this bucket describes. */
  function PageOf(tag: nat, set': nat): (p: nat)
  {
    tag * 32768 + set'
  }

  /** The first address of the page that an entry with this tag in this bucket describes. */
  function PteAddr(tag: nat, set': nat): (a: Addr)
    requires tag < 32 && set' < PTAB_SIZE
  {
    tag * 0x800_0000 + set' * 4096
  }

  /** Tag and bucket together are the page number, in both directions. */
  lemma SplitIsInvertible(a: Addr)
    ensures PteAddr(TagOf(a), SetOf(a)) + Offset(a) == a
    ensures PageOf(TagOf(a), SetOf(a)) == PageNo(a)
  {
    PageAndOffset(a);
    TagAndBucket(a);
  }

  lemma PageAndOffset(a: Addr)
    ensures a == PageNo(a) * 4096 + Offset(a)
  {
  }

  lemma TagAndBucket(a: Addr)
    ensures PageNo(a) == TagOf(a) * 32768 + SetOf(a)
  {
    var p := PageNo(a);
    assert TagOf(a) == p / 32768 by { TwoShifts(a); }
  }

  /** Shifting by 12 and then 15 bits is shifting by 27. */
  lemma TwoShifts(a: Addr)
    ensures a / 4096 / 32768 == a / 0x800_0000
  {
  }

  lemma PteAddrSplits(tag: nat, set': nat, off: nat)
    requires tag < 32 && set' < PTAB_SIZE && off < PAGE_SIZE
    ensures var a := PteAddr(tag, set') + off;
            TagOf(a) == tag && SetOf(a) == set' && Offset(a) == off && PageNo(a) == PageOf(tag, set')
  {
    var a := PteAddr(tag, set') + off;
    var p := tag * 32768 + set';
    assert a == p * 4096 + off;
    PageSplits(p, off);
    BucketSplits(tag, set');
    assert a == tag * 0x800_0000 + (set' * 4096 + off);
    assert set' * 4096 + off < 0x800_0000;
  }

  lemma PageSplits(p: nat, off: nat)
    requires off < 4096
    ensures (p * 4096 + off) / 4096 == p && (p * 4096 + off) % 4096 == off
  {
  }

  lemma BucketSplits(tag: nat, set': nat)
    requires set' < 32768
    ensures PageOf(tag, set') % 32768 == set' && PageOf(tag, set') / 32768 == tag
  {
  }

  // ---- Pages -----------------------------------------------------------------------------

  /** The allocated pages by page number. */
  type Pages = map<int, seq<Byte>>

  predicate WellFormed(m: Pages)
  {
    forall p :: p in m ==> 0 <= p < PAGE_NUMBERS && |m[p]| == PAGE_SIZE
  }

  /** A page as it is allocated. */
  function ZeroPage(): (page: seq<Byte>)
    ensures |page| == PAGE_SIZE && forall i :: 0 <= i < PAGE_SIZE ==> page[i] == 0
  {
    seq(PAGE_SIZE, _ => 0)
  }

  /** The byte at an address: zero where no page has been allocated. */
  function Load(m: Pages, a: Addr): Byte
    requires WellFormed(m)
  {
    if PageNo(a) in m then m[PageNo(a)][Offset(a)] else 0
  }

  /** The pages once the page of a is there. */
  function Allocated(m: Pages, a: Addr): (r: Pages)
    requires WellFormed(m)
    ensures WellFormed(r) && PageNo(a) in r
  {
    if PageNo(a) in m then m else m[PageNo(a) := ZeroPage()]
  }

  /** Change one byte of an allocated page. */
  function Patched(m: Pages, a: Addr, v: Byte): (r: Pages)
    requires WellFormed(m) && PageNo(a) in m
    ensures WellFormed(r)
  {
    var page: seq<Byte> := m[PageNo(a)];
    m[PageNo(a) := page[Offset(a) := v]]
  }

  function Store(m: Pages, a: Addr, v: Byte): (r: Pages)
    requires WellFormed(m)
    ensures WellFormed(r)
  {
    Patched(Allocated(m, a), a, v)
  }

  /** Storing changes one byte of the flat space, and allocates at most its page. */
  lemma LoadAfterStore(m: Pages, a: Addr, v: Byte, b: Addr)
    requires WellFormed(m)
    ensures Load(Store(m, a, v), b) == if a == b then v else Load(m, b)
    ensures Store(m, a, v).Keys == m.Keys + {PageNo(a)}
  {
    if PageNo(a) == PageNo(b) && Offset(a) == Offset(b) {
      assert a == PageNo(a) * 4096 + Offset(a);
      assert b == PageNo(b) * 4096 + Offset(b);
    }
  }

  /** Two memories with the same allocated pages and the same bytes are the same. */
  lemma SameBytesSamePages(m: Pages, m': Pages)
    requires WellFormed(m) && WellFormed(m')
    requires m.Keys == m'.Keys
    requires forall a: Addr :: Load(m, a) == Load(m', a)
    ensures m == m'
  {
    forall p | p in m
      ensures m[p] == m'[p]
    {
      forall i | 0 <= i < PAGE_SIZE
        ensures m[p][i] == m'[p][i]
      {
        var a: Addr := p * 4096 + i;
        assert PageNo(a) == p && Offset(a) == i;
        assert Load(m, a) == Load(m', a);
      }
    }
  }

  // ---- Interleaved reads and writes ------------------------------------------------------

  datatype Operation = Get(addr: Addr) | Put(addr: Addr, value: Byte)

  function Run(m: Pages, ops: seq<Operation>): (r: Pages)
    requires WellFormed(m)
    ensures WellFormed(r)
  {
    if ops == [] then m
    else
      var before := Run(m, ops[..|ops| - 1]);
      match ops[|ops| - 1]
      case Get(_) => before
      case Put(a, v) => Store(before, a, v)
  }

  /** The last value written to a, or zero. */
  function LastWritten(ops: seq<Operation>, a: Addr): Byte
  {
    if ops == [] then 0
    else
      var last := ops[|ops| - 1];
      if last.Put? && last.addr == a then last.value else LastWritten(ops[..|ops| - 1], a)
  }

  predicate Touches(ops: seq<Operation>, p: int)
  {
    exists i :: 0 <= i < |ops| && ops[i].Put? && PageNo(ops[i].addr) == p
  }

  /** From the empty memory, every interleaving of reads and writes leaves at each address the last byte
      written there, and allocates exactly the pages that were written to. */
  lemma {:induction false} LastWriteWins(ops: seq<Operation>)
    ensures forall a: Addr :: Load(Run(map[], ops), a) == LastWritten(ops, a)
    ensures forall p :: p in Run(map[], ops) <==> Touches(ops, p)
  {
    if ops != [] {
      var before, last := ops[..|ops| - 1], ops[|ops| - 1];
      LastWriteWins(before);
      var m := Run(map[], before);
      if last.Put? {
        forall a: Addr
          ensures Load(Run(map[], ops), a) == LastWritten(ops, a)
        {
          LoadAfterStore(m, last.addr, last.value, a);
        }
      }
      hide Load, Store;
      forall p
        ensures p in Run(map[], ops) <==> Touches(ops, p)
      {
        TouchesStep(before, last, p);
        assert before + [last] == ops;
        if last.Put? {
          LoadAfterStore(m, last.addr, last.value, 0);
        }
      }
    }
  }

  lemma TouchesStep(ops: seq<Operation>, o: Operation, p: int)
    ensures Touches(ops + [o], p) <==> Touches(ops, p) || (o.Put? && PageNo(o.addr) == p)
  {
    hide PageNo;
    var all := ops + [o];
    if o.Put? && PageNo(o.addr) == p {
      assert all[|ops|] == o;
    }
    if Touches(ops, p) {
      var i :| 0 <= i < |ops| && ops[i].Put? && PageNo(ops[i].addr) == p;
      assert all[i] == ops[i];
    }
  }

  // ---- Runs of bytes ---------------------------------------------------------------------

  /** Store consecutive bytes, lowest address first; addresses wrap. */
  function StoreBytes(m: Pages, a: Addr, bytes: seq<Byte>): (r: Pages)
    requires WellFormed(m)
    ensures WellFormed(r)
  {
    if bytes == [] then m
    else Store(StoreBytes(m, a, bytes[..|bytes| - 1]), Plus(a, |bytes| - 1), bytes[|bytes| - 1])
  }

  function LoadBytes(m: Pages, a: Addr, n: nat): (bytes: seq<Byte>)
    requires WellFormed(m)
    ensures |bytes| == n
  {
    seq(n, i requires 0 <= i < n => Load(m, Plus(a, i)))
  }

  /** Bytes stored in a run shorter than the address space read back; all others stay. */
  lemma {:induction false} LoadAfterStoreBytes(m: Pages, a: Addr, bytes: seq<Byte>, b: Addr)
    requires WellFormed(m) && |bytes| <= ADDRESS_SPACE
    ensures var d := (b - a) % 0x1_0000_0000;
            Load(StoreBytes(m, a, bytes), b) == if d < |bytes| then bytes[d] else Load(m, b)
  {
    if bytes != [] {
      var n := |bytes| - 1;
      var m' := StoreBytes(m, a, bytes[..n]);
      LoadAfterStoreBytes(m, a, bytes[..n], b);
      LoadAfterStore(m', Plus(a, n), bytes[n], b);
      Distance(a, b, n);
    }
  }

  lemma Distance(a: Addr, b: Addr, n: nat)
    requires n < ADDRESS_SPACE
    ensures Plus(a, n) == b <==> (b - a) % 0x1_0000_0000 == n
  {
  }

  lemma {:induction false} StoreBytesAppend(m: Pages, a: Addr, xs: seq<Byte>, ys: seq<Byte>)
    requires WellFormed(m)
    ensures StoreBytes(m, a, xs + ys) == StoreBytes(StoreBytes(m, a, xs), Plus(a, |xs|), ys)
  {
    hide Store;
    if ys == [] {
      assert xs + ys == xs;
    } else {
      var n := |ys| - 1;
      StoreBytesAppend(m, a, xs, ys[..n]);
      PlusPlus(a, |xs|, n);
      hide Plus;
      var all := xs + ys;
      assert all[..|all| - 1] == xs + ys[..n];
      assert all[|all| - 1] == ys[n];
      assert |all| - 1 == |xs| + n;
    }
  }

  lemma PlusPlus(a: Addr, i: nat, j: nat)
    ensures Plus(Plus(a, i), j) == Plus(a, i + j)
  {
  }
}
