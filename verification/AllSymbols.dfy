// Symbol tables of one segment and of the whole program (Lab1-Hazards/symbol.c): what their symbols cover, and
// when looking an address up in the table of all symbols finds it.
module AllSymbols {
  import opened SymbolTable

  // ---- One segment --------------------------------------------------------------------------------

  /** No gap reaches half the address space and the last symbol lies inside the segment. */
  predicate Regular(addrs: seq<Address>, segmentEnd: int)
    requires addrs != []
  {
    && (forall i :: 0 <= i < |addrs| ==> Next(addrs, segmentEnd, i) - addrs[i] < 0x8000_0000)
    && addrs[|addrs| - 1] < segmentEnd <= 0xffff_ffff
  }

  /** Each symbol of a regular table ends where the next begins, and the last with the segment. */
  lemma RegularSize(addrs: seq<Address>, sizes: seq<int>, segmentEnd: int, i: nat)
    requires Sorted(addrs) && |sizes| == |addrs| && Sized(addrs, sizes, segmentEnd)
    requires addrs != [] && Regular(addrs, segmentEnd) && i < |addrs|
    ensures addrs[i] <= Next(addrs, segmentEnd, i) <= 0xffff_ffff
    ensures sizes[i] == Next(addrs, segmentEnd, i) - addrs[i]
  {
    assert i + 1 < |addrs| ==> addrs[i] <= addrs[i + 1];
  }

  lemma SomeSymbolCovers(addrs: seq<Address>, sizes: seq<int>, segmentEnd: int, t: Address)
    requires Sorted(addrs) && |sizes| == |addrs| && Sized(addrs, sizes, segmentEnd)
    requires addrs != [] && Regular(addrs, segmentEnd)
    requires addrs[0] <= t < segmentEnd
    ensures !NoneBefore(addrs, sizes, t, false, |addrs|)
  {
    hide Sorted, Sized, Regular, NoneBefore;
    var k := LastAtOrBelow(addrs, t);
    RegularSize(addrs, sizes, segmentEnd, k);
    assert InBounds(addrs[k], sizes[k], t);
    MatchIsSome(addrs, sizes, t, false, k);
  }

  lemma CoveredIsInside(addrs: seq<Address>, sizes: seq<int>, segmentEnd: int, t: Address, i: nat)
    requires Sorted(addrs) && |sizes| == |addrs| && Sized(addrs, sizes, segmentEnd)
    requires addrs != [] && Regular(addrs, segmentEnd)
    requires i < |addrs| && InBounds(addrs[i], sizes[i], t)
    ensures addrs[0] <= t < segmentEnd
  {
    assert addrs[0] <= addrs[i] <= addrs[|addrs| - 1] < segmentEnd;
    if i + 1 < |addrs| {
      assert addrs[i + 1] <= addrs[|addrs| - 1];
      SizedEndByNext(addrs, sizes, segmentEnd);
      CoversUpToNext(addrs, sizes, i, t);
    } else {
      RegularSize(addrs, sizes, segmentEnd, i);
    }
  }

  lemma RegularCovers(addrs: seq<Address>, sizes: seq<int>, segmentEnd: int, t: Address)
    requires Sorted(addrs) && |sizes| == |addrs| && Sized(addrs, sizes, segmentEnd)
    requires addrs != [] && Regular(addrs, segmentEnd)
    ensures NoneBefore(addrs, sizes, t, false, |addrs|) <==> t < addrs[0] || segmentEnd <= t
  {
    hide Sorted, Sized, Regular, InBounds;
    forall i | 0 <= i < |addrs| && Matches(addrs[i], sizes[i], t, false)
      ensures addrs[0] <= t < segmentEnd
    {
      CoveredIsInside(addrs, sizes, segmentEnd, t, i);
    }
    if addrs[0] <= t < segmentEnd {
      SomeSymbolCovers(addrs, sizes, segmentEnd, t);
    }
  }

  /** The symbol at i covers a single byte when the next one is half the address space away, and none before it
      goes further. */
  lemma GapUncovered(addrs: seq<Address>, sizes: seq<int>, segmentEnd: int, i: nat, j: nat)
    requires Sorted(addrs) && |sizes| == |addrs| && Sized(addrs, sizes, segmentEnd)
    requires i < |addrs| && j < |addrs|
    requires addrs[i] + 1 < Next(addrs, segmentEnd, i) <= 0xffff_ffff
    requires Next(addrs, segmentEnd, i) - addrs[i] >= 0x8000_0000
    ensures !InBounds(addrs[j], sizes[j], addrs[i] + 1)
  {
    if j < i {
      assert addrs[j] <= addrs[j + 1] <= addrs[i];
      SizedEndByNext(addrs, sizes, segmentEnd);
      CoversUpToNext(addrs, sizes, j, addrs[i] + 1);
    } else if j > i {
      assert addrs[i + 1] <= addrs[j];
    }
  }

  lemma GapLeavesHole(addrs: seq<Address>, sizes: seq<int>, segmentEnd: int, i: nat)
    requires Sorted(addrs) && |sizes| == |addrs| && Sized(addrs, sizes, segmentEnd) && i < |addrs|
    requires addrs[i] + 0x8000_0000 <= Next(addrs, segmentEnd, i) <= 0xffff_ffff
    ensures NoneBefore(addrs, sizes, addrs[i] + 1, false, |addrs|)
  {
    hide InBounds, Sized;
    forall j | 0 <= j < |addrs|
      ensures !InBounds(addrs[j], sizes[j], addrs[i] + 1)
    {
      GapUncovered(addrs, sizes, segmentEnd, i, j);
    }
  }

  /** When the last symbol lies inside the segment, the symbols cover exactly the addresses from the first one to
      the end of the segment if and only if the table is regular. */
  lemma SymbolsCoverSegment(addrs: seq<Address>, sizes: seq<int>, segmentEnd: int)
    requires Sorted(addrs) && |sizes| == |addrs| && Sized(addrs, sizes, segmentEnd)
    requires addrs != [] && addrs[|addrs| - 1] < segmentEnd
    ensures (forall t: Address :: NoneBefore(addrs, sizes, t, false, |addrs|) <==> t < addrs[0] || segmentEnd <= t)
       <==> Regular(addrs, segmentEnd)
  {
    hide Sized, InBounds, Regular;
    if Regular(addrs, segmentEnd) {
      forall t: Address
        ensures NoneBefore(addrs, sizes, t, false, |addrs|) <==> t < addrs[0] || segmentEnd <= t
      {
        RegularCovers(addrs, sizes, segmentEnd, t);
      }
    }
    if forall t: Address :: NoneBefore(addrs, sizes, t, false, |addrs|) <==> t < addrs[0] || segmentEnd <= t {
      CoveringIsRegular(addrs, sizes, segmentEnd);
    }
  }

  lemma CoveringIsRegular(addrs: seq<Address>, sizes: seq<int>, segmentEnd: int)
    requires Sorted(addrs) && |sizes| == |addrs| && Sized(addrs, sizes, segmentEnd)
    requires addrs != [] && addrs[|addrs| - 1] < segmentEnd
    requires forall t: Address :: NoneBefore(addrs, sizes, t, false, |addrs|) <==> t < addrs[0] || segmentEnd <= t
    ensures Regular(addrs, segmentEnd)
  {
    hide Sized, End;
    assert NoneBefore(addrs, sizes, 0xffff_ffff, false, |addrs|);
    forall i | 0 <= i < |addrs|
      ensures Next(addrs, segmentEnd, i) - addrs[i] < 0x8000_0000
    {
      assert addrs[0] <= addrs[i] <= addrs[|addrs| - 1];
      assert Next(addrs, segmentEnd, i) <= segmentEnd;
      if Next(addrs, segmentEnd, i) - addrs[i] >= 0x8000_0000 {
        GapLeavesHole(addrs, sizes, segmentEnd, i);
      }
    }
  }

  // ---- Two segments -------------------------------------------------------------------------------

  /** With sizes computed segment by segment, a symbol may reach over its successors: the search then goes
      right past it and finds nothing. Twice an address that the first symbol covers: in a table of three
      symbols, and in one that comes from a text segment around a data segment. */
  lemma MergedLookupMisses()
    ensures InBounds(100, 200, 200) && Probe([100, 150, 300], [200, 10, 100], 200, false, 0, 2) == -1
    ensures Sized([100], [200], 300) && Sized([150, 250], [100, 10], 260)
    ensures InBounds(100, 200, 270) && Probe([100, 150, 250], [200, 100, 10], 270, false, 0, 2) == -1
  {
    assert Probe([100, 150, 300], [200, 10, 100], 200, false, 2, 2) == -1;
    assert Probe([100, 150, 250], [200, 100, 10], 270, false, 2, 2) == -1;
  }

  /** So does one where two symbols with the same address are sorted another way round than in the table of
      their segment, which gave them their sizes. */
  lemma TiedLookupMisses()
    ensures Sized([100, 100, 150], [0, 50, 10], 160)
    ensures InBounds(100, 50, 120) && Probe([100, 100, 150], [50, 0, 10], 120, false, 0, 2) == -1
  {
    assert Probe([100, 100, 150], [50, 0, 10], 120, false, 2, 2) == -1;
  }

  lemma MergedSorted(lower: seq<Address>, upper: seq<Address>)
    requires Sorted(lower) && Sorted(upper)
    requires lower != [] && upper != [] ==> lower[|lower| - 1] <= upper[0]
    ensures Sorted(lower + upper)
  {
    var all := lower + upper;
    forall i, j | 0 <= i < j < |all|
      ensures all[i] <= all[j]
    {
      if i < |lower| <= j {
        assert lower[i] <= lower[|lower| - 1] && upper[0] <= upper[j - |lower|];
      }
    }
  }

  lemma MergedEndByNext(lower: seq<Address>, lowSizes: seq<int>, upper: seq<Address>, upSizes: seq<int>)
    requires EndByNext(lower, lowSizes) && EndByNext(upper, upSizes)
    requires lower != [] && upper != [] ==>
               var a: int, next: int, size := lower[|lower| - 1], upper[0], lowSizes[|lower| - 1];
               size <= 1 || size <= next - a
    ensures EndByNext(lower + upper, lowSizes + upSizes)
  {
    var all, sizes := lower + upper, lowSizes + upSizes;
    forall j | 0 <= j < |all| - 1
      ensures sizes[j] <= 1 || sizes[j] <= Gap(all, j)
    {
      if j + 1 < |lower| {
        assert Gap(all, j) == Gap(lower, j);
      } else if j >= |lower| {
        assert Gap(all, j) == Gap(upper, j - |lower|);
      }
    }
  }

  /** When the lower segment ends at or below the first symbol of the upper one, the tables put together are
      searched completely, regular or not. */
  lemma ApartComplete(lower: seq<Address>, lowSizes: seq<int>, lowEnd: int,
                      upper: seq<Address>, upSizes: seq<int>, upEnd: int)
    requires Sorted(lower) && Sized(lower, lowSizes, lowEnd)
    requires Sorted(upper) && Sized(upper, upSizes, upEnd)
    requires lower != [] && upper != [] ==> lower[|lower| - 1] <= lowEnd <= upper[0]
    ensures Sorted(lower + upper) && Complete(lower + upper, lowSizes + upSizes)
  {
    hide Sorted, Complete, Reachable;
    var all, sizes := lower + upper, lowSizes + upSizes;
    MergedSorted(lower, upper);
    SizedEndByNext(lower, lowSizes, lowEnd);
    SizedEndByNext(upper, upSizes, upEnd);
    if lower != [] {
      assert lowSizes[|lower| - 1] == SizeAt(lower, lowEnd, |lower| - 1);
    }
    hide EndByNext, Sized;
    MergedEndByNext(lower, lowSizes, upper, upSizes);
    EndByNextIsReachable(all, sizes);
    CompleteIfReachable(all, sizes);
  }

  /** Where a symbol of a regular table ends: at the next one, or after its one byte. */
  lemma RegularEnd(addrs: seq<Address>, sizes: seq<int>, segmentEnd: int, i: nat)
    requires Sorted(addrs) && |sizes| == |addrs| && Sized(addrs, sizes, segmentEnd)
    requires addrs != [] && Regular(addrs, segmentEnd) && i < |addrs|
    ensures var next := Next(addrs, segmentEnd, i);
            End(addrs[i], sizes[i]) == if next > addrs[i] then next else addrs[i] + 1
  {
    RegularSize(addrs, sizes, segmentEnd, i);
    assert addrs[i] <= addrs[|addrs| - 1] < 0xffff_ffff;
  }

  /** Where a symbol ends that ends at the next one, or after its one byte. */
  function EndAtNext(addrs: seq<Address>, i: nat): int
    requires i + 1 < |addrs|
  {
    var a: int, next: int := addrs[i], addrs[i + 1];
    if next > a then next else a + 1
  }

  /** Two regular tables, one above the other, put together: every symbol ends at the next, but for the last of
      either. */
  ghost predicate TwoSegments(all: seq<Address>, sizes: seq<int>, m: nat, lowEnd: int, upEnd: int)
  {
    && |sizes| == |all| && m + 1 < |all| && Sorted(all)
    && all[m] < lowEnd <= 0xffff_ffff && End(all[m], sizes[m]) == lowEnd
    && all[|all| - 1] < upEnd <= 0xffff_ffff && End(all[|all| - 1], sizes[|all| - 1]) == upEnd
    && forall i :: 0 <= i < |all| - 1 && i != m ==> End(all[i], sizes[i]) == EndAtNext(all, i)
  }

  lemma MergedIsTwoSegments(lower: seq<Address>, lowSizes: seq<int>, lowEnd: int,
                            upper: seq<Address>, upSizes: seq<int>, upEnd: int)
    requires Sorted(lower) && Sized(lower, lowSizes, lowEnd) && lower != [] && Regular(lower, lowEnd)
    requires Sorted(upper) && Sized(upper, upSizes, upEnd) && upper != [] && Regular(upper, upEnd)
    requires lower[|lower| - 1] <= upper[0]
    ensures TwoSegments(lower + upper, lowSizes + upSizes, |lower| - 1, lowEnd, upEnd)
  {
    hide End, Sorted;
    var all, sizes, m := lower + upper, lowSizes + upSizes, |lower| - 1;
    MergedSorted(lower, upper);
    RegularEnd(lower, lowSizes, lowEnd, m);
    RegularEnd(upper, upSizes, upEnd, |upper| - 1);
    forall i | 0 <= i < |all| - 1 && i != m
      ensures End(all[i], sizes[i]) == EndAtNext(all, i)
    {
      if i < m {
        RegularEnd(lower, lowSizes, lowEnd, i);
        assert all[i] == lower[i] && all[i + 1] == lower[i + 1] && sizes[i] == lowSizes[i];
      } else {
        var u := i - |lower|;
        RegularEnd(upper, upSizes, upEnd, u);
        assert all[i] == upper[u] && all[i + 1] == upper[u + 1] && sizes[i] == upSizes[u];
      }
    }
  }

  /** A symbol that ends at the next one reaches over those at the same address only. */
  lemma TieOrLastOfLower(all: seq<Address>, sizes: seq<int>, m: nat, lowEnd: int, upEnd: int, j: nat, k: nat)
    requires TwoSegments(all, sizes, m, lowEnd, upEnd)
    requires j < k < |all| && ReachesOver(all, sizes, j, k)
    ensures j == m || End(all[j], sizes[j]) == all[k] + 1
  {
    hide End;
    assert all[j] <= all[j + 1] <= all[k];
  }

  /** A symbol with room up to the next one ends there at least. */
  lemma EndsBeyond(all: seq<Address>, sizes: seq<int>, m: nat, lowEnd: int, upEnd: int, k: nat)
    requires TwoSegments(all, sizes, m, lowEnd, upEnd)
    requires k < |all| && all[k] < Limit(all, k)
    ensures all[k] + 1 <= End(all[k], sizes[k])
    ensures m < k < |all| - 1 ==> Limit(all, k) <= End(all[k], sizes[k])
  {
    hide End;
  }

  lemma LastEnds(all: seq<Address>, sizes: seq<int>, m: nat, lowEnd: int, upEnd: int)
    requires TwoSegments(all, sizes, m, lowEnd, upEnd)
    ensures |sizes| == |all| && m + 1 < |all|
    ensures End(all[m], sizes[m]) == lowEnd && End(all[|all| - 1], sizes[|all| - 1]) == upEnd
  {
    hide End, Sorted;
  }

  lemma SeenOnTheWay(addrs: seq<Address>, sizes: seq<int>, j: nat, k: nat, p: nat)
    requires |sizes| == |addrs| && j < |addrs| && p <= k < |addrs| && OnPath(0, |addrs| - 1, k, p)
    requires End(addrs[j], sizes[j]) <= End(addrs[p], sizes[p]) || Limit(addrs, k) <= End(addrs[p], sizes[p])
    ensures SeenInstead(addrs, sizes, j, k)
  {
    hide End, OnPath;
  }

  lemma TwoSegmentsReachable(all: seq<Address>, sizes: seq<int>, m: nat, lowEnd: int, upEnd: int)
    requires |sizes| == |all| && TwoSegments(all, sizes, m, lowEnd, upEnd)
    requires lowEnd <= upEnd || OnPath(0, |all| - 1, |all| - 1, m)
    ensures Reachable(all, sizes)
  {
    hide End, OnPath, Sorted, TwoSegments, SeenInstead;
    LastEnds(all, sizes, m, lowEnd, upEnd);
    forall j, k | 0 <= j < k < |all| && ReachesOver(all, sizes, j, k)
      ensures SeenInstead(all, sizes, j, k)
    {
      PathMeetsLast(0, |all| - 1, k);
      TieOrLastOfLower(all, sizes, m, lowEnd, upEnd, j, k);
      EndsBeyond(all, sizes, m, lowEnd, upEnd, k);
      SeenOnTheWay(all, sizes, j, k, if j == m && k == |all| - 1 && upEnd < lowEnd then m else k);
    }
  }

  lemma TwoSegmentsNeed(all: seq<Address>, sizes: seq<int>, m: nat, lowEnd: int, upEnd: int)
    requires TwoSegments(all, sizes, m, lowEnd, upEnd)
    requires Reachable(all, sizes) && upEnd < lowEnd
    ensures OnPath(0, |all| - 1, |all| - 1, m)
  {
    hide End, OnPath, Reachable;
    var n := |all|;
    ReachableAt(all, sizes, m, n - 1);
    forall p | 0 <= p < n - 1 && p != m
      ensures End(all[p], sizes[p]) <= upEnd
    {
      assert all[p] <= all[p + 1] <= all[n - 1];
    }
    var p :| 0 <= p <= n - 1 && OnPath(0, n - 1, n - 1, p)
      && Min(End(all[m], sizes[m]), Limit(all, n - 1)) <= End(all[p], sizes[p]);
    assert p == m;
  }

  /** Put together, the table of a regular segment and that of another one above it are searched completely if and
      only if the upper segment ends last, or the halving that always goes right comes by the last symbol of
      the lower one. */
  lemma MergedComplete(lower: seq<Address>, lowSizes: seq<int>, lowEnd: int,
                       upper: seq<Address>, upSizes: seq<int>, upEnd: int)
    requires Sorted(lower) && Sized(lower, lowSizes, lowEnd) && lower != [] && Regular(lower, lowEnd)
    requires Sorted(upper) && Sized(upper, upSizes, upEnd) && upper != [] && Regular(upper, upEnd)
    requires lower[|lower| - 1] <= upper[0]
    ensures var all, sizes := lower + upper, lowSizes + upSizes;
            && Sorted(all)
            && (Complete(all, sizes) <==>
                lowEnd <= upEnd || OnPath(0, |all| - 1, |all| - 1, |lower| - 1))
  {
    hide Sized, Regular, Complete, Reachable, OnPath;
    var all, sizes, m := lower + upper, lowSizes + upSizes, |lower| - 1;
    MergedIsTwoSegments(lower, lowSizes, lowEnd, upper, upSizes, upEnd);
    CompleteIfReachable(all, sizes);
    if lowEnd <= upEnd || OnPath(0, |all| - 1, |all| - 1, m) {
      TwoSegmentsReachable(all, sizes, m, lowEnd, upEnd);
    } else if Reachable(all, sizes) {
      TwoSegmentsNeed(all, sizes, m, lowEnd, upEnd);
    }
  }

  /** A table as rows of address and size. */
  function Rows(addrs: seq<Address>, sizes: seq<int>): (r: seq<(Address, int)>)
    requires |sizes| == |addrs|
    ensures |r| == |addrs| && forall i :: 0 <= i < |r| ==> r[i] == (addrs[i], sizes[i])
  {
    seq(|addrs|, i requires 0 <= i < |addrs| => (addrs[i], sizes[i]))
  }

  lemma AllButLast(a: seq<(Address, int)>)
    requires a != []
    ensures multiset(a) == multiset(a[..|a| - 1]) + multiset{a[|a| - 1]}
  {
    assert a == a[..|a| - 1] + [a[|a| - 1]];
  }

  lemma Cancel(m: multiset<(Address, int)>, n: multiset<(Address, int)>, e: (Address, int))
    requires m + multiset{e} == n + multiset{e}
    ensures m == n
  {
    assert m == m + multiset{e} - multiset{e} && n == n + multiset{e} - multiset{e};
  }

  lemma SameLast(a: seq<(Address, int)>, b: seq<(Address, int)>)
    requires forall i, j :: 0 <= i < j < |a| ==> a[i].0 < a[j].0
    requires forall i, j :: 0 <= i < j < |b| ==> b[i].0 <= b[j].0
    requires a != [] && b != [] && multiset(a) == multiset(b)
    ensures a[|a| - 1] == b[|b| - 1]
  {
    var x, y := a[|a| - 1], b[|b| - 1];
    assert x in multiset(b) && y in multiset(a);
    var j :| 0 <= j < |b| && b[j] == x;
    var i :| 0 <= i < |a| && a[i] == y;
    assert j < |b| - 1 ==> x.0 <= y.0;
    assert i < |a| - 1 ==> y.0 < x.0;
  }

  /** There is only one way to sort rows with distinct addresses. */
  lemma {:induction false} SortedIsUnique(a: seq<(Address, int)>, b: seq<(Address, int)>)
    requires forall i, j :: 0 <= i < j < |a| ==> a[i].0 < a[j].0
    requires forall i, j :: 0 <= i < j < |b| ==> b[i].0 <= b[j].0
    requires multiset(a) == multiset(b)
    ensures a == b
    decreases |a|
  {
    if a == [] || b == [] {
      assert |multiset(a)| == |a| && |multiset(b)| == |b|;
    } else {
      SameLast(a, b);
      AllButLast(a);
      AllButLast(b);
      var x, y := a[..|a| - 1], b[..|b| - 1];
      Cancel(multiset(x), multiset(y), a[|a| - 1]);
      SortedIsUnique(x, y);
      assert a == x + [a[|a| - 1]] && b == y + [b[|b| - 1]];
    }
  }

  /** The table of all symbols holds the symbols of both segments, sorted by address. When no two have the same
      address, it is the table of the lower segment followed by that of the upper one. */
  lemma AllSymbolsMerged(lower: seq<Address>, lowSizes: seq<int>, upper: seq<Address>, upSizes: seq<int>,
                         all: seq<Address>, sizes: seq<int>)
    requires |lowSizes| == |lower| && |upSizes| == |upper| && |sizes| == |all|
    requires Sorted(lower + upper) && Sorted(all)
    requires multiset(Rows(all, sizes)) == multiset(Rows(lower + upper, lowSizes + upSizes))
    requires forall i, j :: 0 <= i < j < |all| ==> all[i] != all[j]
    ensures all == lower + upper && sizes == lowSizes + upSizes
  {
    var a, b := Rows(all, sizes), Rows(lower + upper, lowSizes + upSizes);
    hide Rows;
    SortedIsUnique(a, b);
    forall i | 0 <= i < |all|
      ensures all[i] == (lower + upper)[i] && sizes[i] == (lowSizes + upSizes)[i]
    {
      assert a[i] == b[i];
    }
  }

  /** So bounds lookup in the table of all symbols, however the sort has arranged it, is complete if and only if
      the same condition holds. */
  lemma AllSymbolsComplete(lower: seq<Address>, lowSizes: seq<int>, lowEnd: int,
                           upper: seq<Address>, upSizes: seq<int>, upEnd: int,
                           all: seq<Address>, sizes: seq<int>)
    requires Sorted(lower) && Sized(lower, lowSizes, lowEnd) && lower != [] && Regular(lower, lowEnd)
    requires Sorted(upper) && Sized(upper, upSizes, upEnd) && upper != [] && Regular(upper, upEnd)
    requires lower[|lower| - 1] < upper[0]
    requires Sorted(all) && |sizes| == |all|
    requires multiset(Rows(all, sizes)) == multiset(Rows(lower + upper, lowSizes + upSizes))
    requires forall i, j :: 0 <= i < j < |all| ==> all[i] != all[j]
    ensures Complete(all, sizes) <==> lowEnd <= upEnd || OnPath(0, |all| - 1, |all| - 1, |lower| - 1)
  {
    hide Sorted, Regular, Complete, OnPath, Rows;
    MergedComplete(lower, lowSizes, lowEnd, upper, upSizes, upEnd);
    AllSymbolsMerged(lower, lowSizes, upper, upSizes, all, sizes);
  }
}
