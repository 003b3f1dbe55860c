// Symbol tables of Lab1-Hazards/symbol.c: sizes as gaps to the next symbol, and binary search by address
// and by name.
module SymbolTable {

  /** Addresses are 32 bits wide; sizes are 32-bit signed integers. */
  type Address = a: int | 0 <= a < 0x1_0000_0000

  type Name = seq<char>

  class Symbol {
    const name: Name
    const addr: Address
    var size: int

    constructor (name: Name, addr: Address)
      ensures this.name == name && this.addr == addr && size == 0
    {
      this.name, this.addr, this.size := name, addr, 0;
    }
  }

  /** An unsigned 32-bit value as a signed one. */
  function Signed(x: int): (r: int)
    ensures -0x8000_0000 <= r < 0x8000_0000
  {
    var w := x % 0x1_0000_0000;
    if w < 0x8000_0000 then w else w - 0x1_0000_0000
  }

  // ---- Order of the tables ---------------------------------------------------------------------

  /** The comparison by which tables are sorted. */
  function AddressCompare(a: Address, b: Address): int
  {
    Signed(a - b)
  }

  /** The comparison follows the addresses exactly for pairs less than half the address space apart. */
  lemma CompareFollowsAddresses(a: Address, b: Address)
    ensures ((AddressCompare(a, b) < 0 <==> a < b) && (AddressCompare(a, b) == 0 <==> a == b))
       <==> -0x8000_0000 <= a - b < 0x8000_0000
  {
    if a < b {
      assert (a - b) % 0x1_0000_0000 == a - b + 0x1_0000_0000;
    } else {
      assert (a - b) % 0x1_0000_0000 == a - b;
    }
  }

  predicate Sorted(addrs: seq<Address>)
  {
    forall i, j :: 0 <= i < j < |addrs| ==> addrs[i] <= addrs[j]
  }

  ghost function Addresses(c: seq<Symbol>): (r: seq<Address>)
    ensures |r| == |c| && forall i :: 0 <= i < |c| ==> r[i] == c[i].addr
  {
    if c == [] then [] else [c[0].addr] + Addresses(c[1..])
  }

  ghost function Sizes(c: seq<Symbol>): (r: seq<int>)
    reads c
    ensures |r| == |c| && forall i :: 0 <= i < |c| ==> r[i] == c[i].size
  {
    if c == [] then [] else [c[0].size] + Sizes(c[1..])
  }

  // ---- Sizes -------------------------------------------------------------------------------------

  /** Where the next symbol starts, or the segment ends. */
  function Next(addrs: seq<Address>, segmentEnd: int, i: nat): int
    requires i < |addrs|
  {
    if i != |addrs| - 1 then addrs[i + 1] else segmentEnd
  }

  /** Bytes to the next symbol, or to the end of the segment. */
  function SizeAt(addrs: seq<Address>, segmentEnd: int, i: nat): int
    requires i < |addrs|
  {
    Signed(Next(addrs, segmentEnd, i) - addrs[i])
  }

  ghost predicate Sized(addrs: seq<Address>, sizes: seq<int>, segmentEnd: int)
  {
    && |sizes| == |addrs|
    && forall i :: 0 <= i < |addrs| ==> sizes[i] == SizeAt(addrs, segmentEnd, i)
  }

  /** Fill in the sizes of one table. */
  method ComputeSizes(syms: array<Symbol>, base: Address, size: Address)
    requires forall i, j :: 0 <= i < j < syms.Length ==> syms[i] != syms[j]
    modifies set i | 0 <= i < syms.Length :: syms[i]
    ensures Sized(Addresses(syms[..]), Sizes(syms[..]), base + size)
  {
    ghost var c := syms[..];
    for i := 0 to syms.Length
      invariant forall j :: 0 <= j < i ==> c[j].size == SizeAt(Addresses(c), base + size, j)
    {
      assert syms[i] == c[i];
      syms[i].size :=
        Signed(if i != syms.Length - 1 then syms[i + 1].addr - syms[i].addr else base + size - syms[i].addr);
    }
  }

  // ---- Lookup by address -----------------------------------------------------------------------------

  /** Where a symbol ends: it has at least one byte, and its end wraps around. */
  function End(a: Address, size: int): Address
  {
    (a + if size > 1 then size else 1) % 0x1_0000_0000
  }

  predicate InBounds(a: Address, size: int, t: Address)
  {
    a <= t && t < End(a, size)
  }

  predicate Matches(a: Address, size: int, t: Address, exact: bool)
  {
    if exact then a == t else InBounds(a, size, t)
  }

  /** No symbol before position n matches. */
  predicate NoneBefore(addrs: seq<Address>, sizes: seq<int>, t: Address, exact: bool, n: int)
    requires |sizes| == |addrs| && n <= |addrs|
  {
    forall i :: 0 <= i < n ==> !Matches(addrs[i], sizes[i], t, exact)
  }

  /** Each symbol that is not the last ends by the next address, but for the one byte that it always has. */
  predicate EndByNext(addrs: seq<Address>, sizes: seq<int>)
  {
    && |sizes| == |addrs|
    && forall j :: 0 <= j < |addrs| - 1 ==> sizes[j] <= 1 || sizes[j] <= Gap(addrs, j)
  }

  function Gap(addrs: seq<Address>, j: nat): int
    requires j + 1 < |addrs|
  {
    var next: int := addrs[j + 1];
    next - addrs[j]
  }

  /** Sizes computed for a table end by the next address. */
  lemma SizedEndByNext(addrs: seq<Address>, sizes: seq<int>, segmentEnd: int)
    requires Sorted(addrs) && Sized(addrs, sizes, segmentEnd)
    ensures EndByNext(addrs, sizes)
  {
    forall j | 0 <= j < |addrs| - 1
      ensures sizes[j] <= 1 || sizes[j] <= Gap(addrs, j)
    {
      assert addrs[j] <= addrs[j + 1];
      assert sizes[j] == SizeAt(addrs, segmentEnd, j);
    }
  }

  /** A symbol that is not the last covers its own address and nothing beyond the next. */
  lemma CoversUpToNext(addrs: seq<Address>, sizes: seq<int>, j: nat, t: Address)
    requires Sorted(addrs) && EndByNext(addrs, sizes)
    requires j + 1 < |addrs|
    ensures InBounds(addrs[j], sizes[j], t) ==> t == addrs[j] || t < addrs[j + 1]
    ensures InBounds(addrs[j], sizes[j], addrs[j]) <==> addrs[j] != 0xffff_ffff
  {
    assert addrs[j] <= addrs[j + 1];
    assert sizes[j] <= 1 || sizes[j] <= Gap(addrs, j);
  }

  /** The position that the halving of low..high comes to. */
  function Probe(addrs: seq<Address>, sizes: seq<int>, t: Address, exact: bool, low: int, high: int): int
    requires |sizes| == |addrs| && 0 <= low && high < |addrs|
    decreases high - low
  {
    if high < low then -1
    else
      var pos := (low + high) / 2;
      if Matches(addrs[pos], sizes[pos], t, exact) then pos
      else if t < addrs[pos] then Probe(addrs, sizes, t, exact, low, pos - 1)
      else Probe(addrs, sizes, t, exact, pos + 1, high)
  }

  lemma MatchIsSome(addrs: seq<Address>, sizes: seq<int>, t: Address, exact: bool, k: nat)
    requires |sizes| == |addrs| && k < |addrs| && Matches(addrs[k], sizes[k], t, exact)
    ensures !NoneBefore(addrs, sizes, t, exact, |addrs|)
  {
  }

  /** The halving of low..high toward the end of the first k + 1 positions comes by position p. */
  predicate OnPath(low: nat, high: int, k: int, p: int)
    decreases high - low
  {
    low <= high &&
    var pos := (low + high) / 2;
    p == pos || (if pos <= k then OnPath(pos + 1, high, k, p) else OnPath(low, pos - 1, k, p))
  }

  /** The symbols up to position k are those that do not start past t. */
  predicate IsLast(addrs: seq<Address>, t: Address, k: int)
  {
    -1 <= k < |addrs| && forall i :: 0 <= i < |addrs| ==> (addrs[i] <= t <==> i <= k)
  }

  lemma {:induction false} ProbeFinds(addrs: seq<Address>, sizes: seq<int>, t: Address, exact: bool,
                                      low: nat, high: int, k: int, p: nat)
    requires |sizes| == |addrs| && high < |addrs| && IsLast(addrs, t, k)
    requires OnPath(low, high, k, p) && p < |addrs| && Matches(addrs[p], sizes[p], t, exact)
    ensures Probe(addrs, sizes, t, exact, low, high) != -1
    decreases high - low
  {
    hide Matches;
    var pos := (low + high) / 2;
    if p != pos {
      if pos <= k {
        ProbeFinds(addrs, sizes, t, exact, pos + 1, high, k, p);
      } else {
        ProbeFinds(addrs, sizes, t, exact, low, pos - 1, k, p);
      }
    }
  }

  lemma {:induction false} ProbeOnPath(addrs: seq<Address>, sizes: seq<int>, t: Address, exact: bool,
                                       low: nat, high: int, k: int)
    requires |sizes| == |addrs| && high < |addrs| && IsLast(addrs, t, k)
    ensures var r := Probe(addrs, sizes, t, exact, low, high);
            r != -1 ==> low <= r <= high && OnPath(low, high, k, r) && Matches(addrs[r], sizes[r], t, exact)
    decreases high - low
  {
    hide Matches;
    if low <= high {
      var pos := (low + high) / 2;
      if pos <= k {
        ProbeOnPath(addrs, sizes, t, exact, pos + 1, high, k);
      } else {
        ProbeOnPath(addrs, sizes, t, exact, low, pos - 1, k);
      }
    }
  }

  /** The halving comes by the position that it is after, */
  lemma {:induction false} PathMeetsLast(low: nat, high: int, k: int)
    requires low <= k <= high
    ensures OnPath(low, high, k, k)
    decreases high - low
  {
    var pos := (low + high) / 2;
    if pos < k {
      PathMeetsLast(pos + 1, high, k);
    } else if pos > k {
      PathMeetsLast(low, pos - 1, k);
    }
  }

  /** and on its way to the very end by the position before. */
  lemma {:induction false} PathMeetsLastButOne(low: nat, high: int)
    requires low < high
    ensures OnPath(low, high, high, high - 1)
    decreases high - low
  {
    var pos := (low + high) / 2;
    if pos < high - 1 {
      PathMeetsLastButOne(pos + 1, high);
    }
  }

  /** The last symbol at or below an address; -1 for none. */
  lemma {:induction false} LastAtOrBelow(addrs: seq<Address>, t: Address) returns (k: int)
    requires Sorted(addrs)
    ensures IsLast(addrs, t, k)
  {
    k := -1;
    while k + 1 < |addrs| && addrs[k + 1] <= t
      invariant -1 <= k < |addrs|
      invariant forall i :: 0 <= i <= k ==> addrs[i] <= t
    {
      k := k + 1;
    }
  }

  /** In every sorted table, whatever the sizes: when the last symbol at or below an address matches, the search
      finds a symbol. In particular exact lookup is complete. */
  lemma LastIsFound(addrs: seq<Address>, sizes: seq<int>, t: Address, exact: bool, k: nat)
    requires |sizes| == |addrs| && IsLast(addrs, t, k)
    requires k < |addrs| && Matches(addrs[k], sizes[k], t, exact)
    ensures Probe(addrs, sizes, t, exact, 0, |addrs| - 1) != -1
  {
    PathMeetsLast(0, |addrs| - 1, k);
    ProbeFinds(addrs, sizes, t, exact, 0, |addrs| - 1, k, k);
  }

  /** Where the next symbol starts, or the address space ends. */
  function Limit(addrs: seq<Address>, k: nat): int
    requires k < |addrs|
  {
    if k + 1 < |addrs| then addrs[k + 1] else 0x1_0000_0000
  }

  function Min(x: int, y: int): int { if x < y then x else y }

  /** The symbol at j covers addresses for which the search ends up at the later symbol k. */
  predicate ReachesOver(addrs: seq<Address>, sizes: seq<int>, j: nat, k: nat)
    requires |sizes| == |addrs| && j < |addrs| && k < |addrs|
  {
    addrs[k] < Limit(addrs, k) && addrs[k] < End(addrs[j], sizes[j])
  }

  /** On the way to k the search comes by a symbol that covers those addresses too. */
  predicate SeenInstead(addrs: seq<Address>, sizes: seq<int>, j: nat, k: nat)
    requires |sizes| == |addrs| && j < |addrs| && k < |addrs|
  {
    exists p :: 0 <= p <= k && OnPath(0, |addrs| - 1, k, p)
                && Min(End(addrs[j], sizes[j]), Limit(addrs, k)) <= End(addrs[p], sizes[p])
  }

  /** What a table must be like for bounds lookup to miss nothing: wherever a symbol reaches over a later one,
      the search comes by one that reaches as far. */
  predicate Reachable(addrs: seq<Address>, sizes: seq<int>)
    requires |sizes| == |addrs|
  {
    forall j, k :: 0 <= j < k < |addrs| && ReachesOver(addrs, sizes, j, k) ==> SeenInstead(addrs, sizes, j, k)
  }

  /** Bounds lookup finds a symbol for every address that some symbol covers. */
  ghost predicate Complete(addrs: seq<Address>, sizes: seq<int>)
    requires |sizes| == |addrs|
  {
    forall t: Address :: Probe(addrs, sizes, t, false, 0, |addrs| - 1) == -1 ==>
                           NoneBefore(addrs, sizes, t, false, |addrs|)
  }

  lemma ReachableFinds(addrs: seq<Address>, sizes: seq<int>, t: Address, j: nat)
    requires Sorted(addrs) && |sizes| == |addrs| && Reachable(addrs, sizes)
    requires j < |addrs| && InBounds(addrs[j], sizes[j], t)
    ensures Probe(addrs, sizes, t, false, 0, |addrs| - 1) != -1
  {
    hide End, Probe, OnPath, Sorted, Reachable;
    var k := LastAtOrBelow(addrs, t);
    if j == k {
      LastIsFound(addrs, sizes, t, false, k);
    } else {
      assert SeenInstead(addrs, sizes, j, k) by { ReachableAt(addrs, sizes, j, k); }
      var p :| 0 <= p <= k && OnPath(0, |addrs| - 1, k, p)
        && Min(End(addrs[j], sizes[j]), Limit(addrs, k)) <= End(addrs[p], sizes[p]);
      ProbeFinds(addrs, sizes, t, false, 0, |addrs| - 1, k, p);
    }
  }

  lemma ReachableAt(addrs: seq<Address>, sizes: seq<int>, j: nat, k: nat)
    requires |sizes| == |addrs| && Reachable(addrs, sizes)
    requires j < k < |addrs| && ReachesOver(addrs, sizes, j, k)
    ensures SeenInstead(addrs, sizes, j, k)
  {
  }

  lemma CompleteReaches(addrs: seq<Address>, sizes: seq<int>, j: nat, k: nat)
    requires Sorted(addrs) && |sizes| == |addrs| && Complete(addrs, sizes)
    requires j < k < |addrs| && ReachesOver(addrs, sizes, j, k)
    ensures SeenInstead(addrs, sizes, j, k)
  {
    hide End, Probe, OnPath, Complete;
    var t: Address := Min(End(addrs[j], sizes[j]), Limit(addrs, k)) - 1;
    assert IsLast(addrs, t, k);
    assert InBounds(addrs[j], sizes[j], t);
    CompleteFinds(addrs, sizes, t, j);
    var p := Probe(addrs, sizes, t, false, 0, |addrs| - 1);
    ProbeOnPath(addrs, sizes, t, false, 0, |addrs| - 1, k);
    assert 0 <= p <= k && OnPath(0, |addrs| - 1, k, p);
  }

  lemma CompleteFinds(addrs: seq<Address>, sizes: seq<int>, t: Address, j: nat)
    requires |sizes| == |addrs| && Complete(addrs, sizes)
    requires j < |addrs| && InBounds(addrs[j], sizes[j], t)
    ensures Probe(addrs, sizes, t, false, 0, |addrs| - 1) != -1
  {
    hide InBounds, Probe;
    MatchIsSome(addrs, sizes, t, false, j);
  }

  /** Bounds lookup in a sorted table, with any sizes and any number of symbols at one address, is complete if and
      only if the table is as above. */
  lemma CompleteIfReachable(addrs: seq<Address>, sizes: seq<int>)
    requires Sorted(addrs) && |sizes| == |addrs|
    ensures Complete(addrs, sizes) <==> Reachable(addrs, sizes)
  {
    hide Sorted, InBounds, Probe, ReachesOver, SeenInstead;
    if Reachable(addrs, sizes) {
      forall t: Address, j | 0 <= j < |addrs| && InBounds(addrs[j], sizes[j], t)
        ensures Probe(addrs, sizes, t, false, 0, |addrs| - 1) != -1
      {
        ReachableFinds(addrs, sizes, t, j);
      }
    }
    if Complete(addrs, sizes) {
      forall j, k | 0 <= j < k < |addrs| && ReachesOver(addrs, sizes, j, k)
        ensures SeenInstead(addrs, sizes, j, k)
      {
        CompleteReaches(addrs, sizes, j, k);
      }
    }
  }

  lemma SortedAt(addrs: seq<Address>, i: int, j: int)
    requires Sorted(addrs) && 0 <= i <= j < |addrs|
    ensures addrs[i] <= addrs[j]
  {
  }

  lemma EndsWithTies(addrs: seq<Address>, sizes: seq<int>, j: nat, k: nat)
    requires Sorted(addrs) && |sizes| == |addrs| && EndByNext(addrs, sizes)
    requires j < k < |addrs| && ReachesOver(addrs, sizes, j, k)
    ensures addrs[j] == addrs[k] && End(addrs[j], sizes[j]) == addrs[k] + 1
  {
    assert addrs[j] <= addrs[j + 1] <= addrs[k];
    CoversUpToNext(addrs, sizes, j, addrs[k]);
    assert Gap(addrs, j) == 0;
  }

  /** Symbols that end by the next address reach over no other, but for the one byte that those at the same
      address share. */
  lemma EndByNextIsReachable(addrs: seq<Address>, sizes: seq<int>)
    requires Sorted(addrs) && |sizes| == |addrs| && EndByNext(addrs, sizes)
    ensures Reachable(addrs, sizes)
  {
    hide OnPath, End, EndByNext, Sorted;
    forall j, k | 0 <= j < k < |addrs| && ReachesOver(addrs, sizes, j, k)
      ensures SeenInstead(addrs, sizes, j, k)
    {
      EndsWithTies(addrs, sizes, j, k);
      var p := if k + 1 < |addrs| then k else k - 1;
      if p == k {
        PathMeetsLast(0, |addrs| - 1, k);
      } else {
        PathMeetsLastButOne(0, k);
      }
      SortedAt(addrs, j, p);
      SortedAt(addrs, p, k);
      CoversUpToNext(addrs, sizes, p, addrs[k]);
      assert addrs[k] < End(addrs[p], sizes[p]);
    }
  }

  /** So bounds lookup is complete in the table of one segment, with whatever symbols at the same address. */
  lemma SegmentComplete(addrs: seq<Address>, sizes: seq<int>, segmentEnd: int)
    requires Sorted(addrs) && Sized(addrs, sizes, segmentEnd)
    ensures Complete(addrs, sizes)
  {
    hide Complete, Reachable, EndByNext, Sorted;
    SizedEndByNext(addrs, sizes, segmentEnd);
    EndByNextIsReachable(addrs, sizes);
    CompleteIfReachable(addrs, sizes);
  }

  /** What the search answers: complete by address always, by bounds in such tables. */
  lemma ProbeAnswers(addrs: seq<Address>, sizes: seq<int>, t: Address, exact: bool)
    requires Sorted(addrs) && |sizes| == |addrs|
    ensures var r := Probe(addrs, sizes, t, exact, 0, |addrs| - 1);
            && -1 <= r < |addrs|
            && (r >= 0 ==> Matches(addrs[r], sizes[r], t, exact))
            && (exact || Reachable(addrs, sizes) ==> (r == -1 <==> NoneBefore(addrs, sizes, t, exact, |addrs|)))
  {
    hide InBounds, OnPath, Reachable, Sorted, Probe;
    var k := LastAtOrBelow(addrs, t);
    ProbeOnPath(addrs, sizes, t, exact, 0, |addrs| - 1, k);
    forall j | 0 <= j < |addrs| && Matches(addrs[j], sizes[j], t, exact) && (exact || Reachable(addrs, sizes))
      ensures Probe(addrs, sizes, t, exact, 0, |addrs| - 1) != -1
    {
      if exact {
        SortedAt(addrs, j, k);
        LastIsFound(addrs, sizes, t, exact, k);
      } else {
        ReachableFinds(addrs, sizes, t, j);
      }
    }
  }

  lemma ProbeStep(addrs: seq<Address>, sizes: seq<int>, t: Address, exact: bool, low: nat, high: int, pos: int)
    requires |sizes| == |addrs| && low <= high < |addrs| && pos == (low + high) / 2
    ensures low <= pos <= high
    ensures Probe(addrs, sizes, t, exact, low, high) ==
            if Matches(addrs[pos], sizes[pos], t, exact) then pos
            else if t < addrs[pos] then Probe(addrs, sizes, t, exact, low, pos - 1)
            else Probe(addrs, sizes, t, exact, pos + 1, high)
    ensures Probe(addrs, sizes, t, exact, pos, pos - 1) == Probe(addrs, sizes, t, exact, pos + 1, pos) == -1
  {
  }

  /** Binary search for the symbol of an address, by exact match or by bounds; -1 for none. */
  method BindAddr(syms: array<Symbol>, t: Address, exact: bool) returns (index: int)
    requires Sorted(Addresses(syms[..]))
    ensures index == Probe(Addresses(syms[..]), Sizes(syms[..]), t, exact, 0, syms.Length - 1)
    ensures -1 <= index < syms.Length
    ensures index >= 0 ==> Matches(syms[index].addr, syms[index].size, t, exact)
    ensures exact || Reachable(Addresses(syms[..]), Sizes(syms[..])) ==>
              (index == -1 <==> NoneBefore(Addresses(syms[..]), Sizes(syms[..]), t, exact, syms.Length))
  {
    hide *;
    ghost var a, z := Addresses(syms[..]), Sizes(syms[..]);
    ProbeAnswers(a, z, t, exact);
    var nsyms := syms.Length;
    if nsyms == 0 {
      return -1;
    }
    var low, high := 0, nsyms - 1;
    var pos := (low + high) / 2;
    while !Matches(syms[pos].addr, syms[pos].size, t, exact)
      invariant 0 <= low <= pos <= high < nsyms && pos == (low + high) / 2
      invariant Probe(a, z, t, exact, low, high) == Probe(a, z, t, exact, 0, nsyms - 1)
      decreases high - low
    {
      ProbeStep(a, z, t, exact, low, high, pos);
      if t < syms[pos].addr {
        high := pos - 1;
      } else {
        low := pos + 1;
      }
      if high >= low {
        pos := (low + high) / 2;
      } else {
        return -1;
      }
    }
    ProbeStep(a, z, t, exact, low, high, pos);
    return pos;
  }

  /** A symbol whose bounds hold an address is the nearest at or below it. */
  lemma BoundIsNearest(addrs: seq<Address>, sizes: seq<int>, t: Address, k: nat, i: nat)
    requires Sorted(addrs) && EndByNext(addrs, sizes)
    requires k < |addrs| && i < |addrs| && InBounds(addrs[k], sizes[k], t) && addrs[i] <= t
    ensures addrs[i] <= addrs[k]
  {
    if addrs[i] > addrs[k] {
      assert k < i && addrs[k + 1] <= addrs[i];
      CoversUpToNext(addrs, sizes, k, t);
    }
  }

  // ---- Lookup by name ----------------------------------------------------------------------------------

  /** The sign convention of strcmp. */
  function Strcmp(a: Name, b: Name): int
  {
    if a == [] && b == [] then 0
    else if a == [] then -1
    else if b == [] then 1
    else if a[0] != b[0] then a[0] as int - b[0] as int
    else Strcmp(a[1..], b[1..])
  }

  lemma {:induction false} StrcmpZero(a: Name, b: Name)
    ensures Strcmp(a, b) == 0 <==> a == b
  {
    if a != [] && b != [] {
      StrcmpZero(a[1..], b[1..]);
      assert a == [a[0]] + a[1..] && b == [b[0]] + b[1..];
    }
  }

  lemma {:induction false} StrcmpTransitive(a: Name, b: Name, c: Name)
    requires Strcmp(a, b) <= 0 && Strcmp(b, c) <= 0
    ensures Strcmp(a, c) <= 0
    ensures Strcmp(a, c) == 0 ==> Strcmp(a, b) == 0 && Strcmp(b, c) == 0
  {
    if a != [] && b != [] && c != [] && a[0] == b[0] == c[0] {
      StrcmpTransitive(a[1..], b[1..], c[1..]);
    }
  }

  /** The two names part at position k: there the first one ends, or has the smaller character. */
  predicate PartAt(a: Name, b: Name, k: nat)
  {
    k <= |a| && k < |b| && a[..k] == b[..k] && (k == |a| || a[k] < b[k])
  }

  /** The comparison orders names as a dictionary does. */
  lemma {:induction false} StrcmpMeans(a: Name, b: Name)
    ensures Strcmp(a, b) < 0 <==> exists k: nat :: PartAt(a, b, k)
  {
    if a == [] || b == [] || a[0] != b[0] {
      assert b != [] && (a == [] || a[0] < b[0]) ==> PartAt(a, b, 0);
      forall k: nat | PartAt(a, b, k)
        ensures Strcmp(a, b) < 0
      {
        if k > 0 {
          assert a[..k][0] == b[..k][0];
        }
      }
    } else {
      StrcmpMeans(a[1..], b[1..]);
      assert a == [a[0]] + a[1..] && b == [b[0]] + b[1..];
      if Strcmp(a, b) < 0 {
        var k: nat :| PartAt(a[1..], b[1..], k);
        assert a[..k + 1] == [a[0]] + a[1..][..k] && b[..k + 1] == [b[0]] + b[1..][..k];
        assert PartAt(a, b, k + 1);
      }
      forall k: nat | PartAt(a, b, k)
        ensures Strcmp(a, b) < 0
      {
        assert k > 0;
        assert a[1..][..k - 1] == a[..k][1..] && b[1..][..k - 1] == b[..k][1..];
        assert PartAt(a[1..], b[1..], k - 1);
      }
    }
  }

  ghost predicate SortedByName(c: seq<Symbol>)
  {
    forall i, j :: 0 <= i < j < |c| ==> Strcmp(c[i].name, c[j].name) <= 0
  }

  /** A table is sorted by name as soon as no symbol sorts before the one in front of it. */
  lemma SortedByNeighbours(c: seq<Symbol>)
    ensures SortedByName(c) <==> forall i :: 0 <= i < |c| - 1 ==> Strcmp(c[i].name, c[i + 1].name) <= 0
  {
    hide Strcmp;
    if forall i :: 0 <= i < |c| - 1 ==> Strcmp(c[i].name, c[i + 1].name) <= 0 {
      forall i, j | 0 <= i < j < |c|
        ensures Strcmp(c[i].name, c[j].name) <= 0
      {
        SortedBetween(c, i, j);
      }
    }
  }

  lemma {:induction false} SortedBetween(c: seq<Symbol>, i: nat, j: nat)
    requires i < j < |c|
    requires forall k :: i <= k < j ==> Strcmp(c[k].name, c[k + 1].name) <= 0
    ensures Strcmp(c[i].name, c[j].name) <= 0
  {
    hide Strcmp;
    if i + 1 < j {
      SortedBetween(c, i, j - 1);
      StrcmpTransitive(c[i].name, c[j - 1].name, c[j].name);
    }
  }

  /** If the name at pos sorts after, so does every later one; if before, every earlier one. */
  lemma OneSided(c: seq<Symbol>, pos: nat, j: nat, name: Name)
    requires SortedByName(c) && pos < |c| && j < |c|
    requires Strcmp(c[pos].name, name) != 0
    requires if Strcmp(c[pos].name, name) > 0 then pos <= j else j <= pos
    ensures c[j].name != name
  {
    if j != pos {
      assert Strcmp(c[j].name, name) == 0 <==> c[j].name == name by { StrcmpZero(c[j].name, name); }
      hide Strcmp;
      if c[j].name == name {
        if j < pos {
          assert Strcmp(c[j].name, c[pos].name) <= 0;
          StrcmpTransitive(c[j].name, c[pos].name, name);
        }
      }
    }
    StrcmpZero(c[pos].name, name);
  }

  /** Binary search for a symbol by name; -1 for none. */
  method BindName(syms: array<Symbol>, name: Name) returns (index: int)
    requires SortedByName(syms[..])
    ensures -1 <= index < syms.Length
    ensures index >= 0 ==> syms[index].name == name
    ensures index == -1 ==> forall i :: 0 <= i < syms.Length ==> syms[i].name != name
  {
    hide SortedByName, Strcmp;
    ghost var c := syms[..];
    var nsyms := syms.Length;
    if nsyms == 0 {
      return -1;
    }
    var low, high := 0, nsyms - 1;
    var pos := (low + high) / 2;
    var cmp := Strcmp(syms[pos].name, name);
    while cmp != 0
      invariant 0 <= low <= pos <= high < nsyms
      invariant cmp == Strcmp(syms[pos].name, name)
      invariant forall i :: 0 <= i < nsyms && (i < low || high < i) ==> c[i].name != name
      decreases high - low
    {
      forall i | 0 <= i < nsyms && (if cmp > 0 then pos <= i else i <= pos)
        ensures c[i].name != name
      {
        OneSided(c, pos, i, name);
      }
      if cmp > 0 {
        high := pos - 1;
      } else {
        low := pos + 1;
      }
      if high >= low {
        pos := (low + high) / 2;
        cmp := Strcmp(syms[pos].name, name);
      } else {
        assert forall i :: 0 <= i < nsyms ==> syms[i] == c[i];
        return -1;
      }
    }
    StrcmpZero(syms[pos].name, name);
    return pos;
  }
}
