// The inverted page table of Lab1-Hazards/memory.c and memory.h: hash buckets of linked entries, moved
// to the front when a search finds them, with pages allocated on the first write.
module PageTable {
  import opened FlatMemory
  import opened PageCache

  class Pte {
    var next: Pte?
    const tag: nat
    const page: array<Byte>
    ghost const bucket: nat

    constructor (tag: nat, page: array<Byte>, next: Pte?, ghost bucket: nat)
      ensures this.tag == tag && this.page == page && this.next == next && this.bucket == bucket
    {
      this.tag, this.page, this.next, this.bucket := tag, page, next, bucket;
    }
  }

  /** The entry after position i of a chain. */
  ghost function Following(c: seq<Pte>, i: nat): Pte?
    requires i < |c|
  {
    if i + 1 < |c| then c[i + 1] else null
  }

  /** Tags in a chain are distinct, so its entries are. */
  ghost predicate Distinct(c: seq<Pte>)
  {
    forall i, j :: 0 <= i < j < |c| ==> c[i].tag != c[j].tag
  }

  ghost function Head(c: seq<Pte>): Pte?
  {
    if c == [] then null else c[0]
  }

  /** The entries on the chains are exactly the ones known by page number. */
  ghost predicate Indexed(chains: seq<seq<Pte>>, entries: map<int, Pte>)
    requires |chains| == PTAB_SIZE
  {
    && (forall s :: 0 <= s < PTAB_SIZE ==> forall n <- chains[s] :: Known(entries, n, s))
    && (forall p :: p in entries ==> 0 <= p < PAGE_NUMBERS && entries[p] in chains[p % 32768]
                                     && entries[p].tag == p / 32768)
  }

  /** The page number of an entry in bucket s leads to that entry. */
  ghost predicate Known(entries: map<int, Pte>, n: Pte, s: nat)
  {
    var p := PageOf(n.tag, s);
    p in entries && entries[p] == n
  }

  /** The page at the head of a bucket. */
  ghost function FrontOf(head: Pte?, s: nat): int
  {
    if head == null then -1 else PageOf(head.tag, s)
  }

  ghost function Fronts(heads: seq<Pte?>): (r: seq<int>)
    ensures |r| == |heads| && forall s :: 0 <= s < |heads| ==> r[s] == FrontOf(heads[s], s)
  {
    seq(|heads|, s requires 0 <= s < |heads| => FrontOf(heads[s], s))
  }

  ghost function ToFront(c: seq<Pte>, k: nat): (r: seq<Pte>)
    requires k < |c|
    ensures |r| == |c| && r[0] == c[k]
    ensures forall i :: 0 < i <= k ==> r[i] == c[i - 1]
    ensures forall i :: k < i < |c| ==> r[i] == c[i]
  {
    [c[k]] + c[..k] + c[k + 1..]
  }

  lemma ToFrontSameEntries(c: seq<Pte>, k: nat)
    requires k < |c|
    ensures forall n :: n in ToFront(c, k) <==> n in c
  {
    assert c == c[..k] + [c[k]] + c[k + 1..];
  }

  lemma ToFrontDistinct(c: seq<Pte>, k: nat)
    requires k < |c| && Distinct(c)
    ensures Distinct(ToFront(c, k))
  {
    var r := ToFront(c, k);
    hide ToFront;
    forall i, j | 0 <= i < j < |r|
      ensures r[i].tag != r[j].tag
    {
      var i' := if i == 0 then k else if i <= k then i - 1 else i;
      var j' := if j <= k then j - 1 else j;
      assert r[i] == c[i'] && r[j] == c[j'];
    }
  }

  /** All entries on the chains are among the objects in use. */
  ghost predicate AllIn(chains: seq<seq<Pte>>, used: set<object>)
  {
    forall s :: 0 <= s < |chains| ==> forall n <- chains[s] :: n in used
  }

  /** Who follows whom once the entry at k has moved. */
  lemma ToFrontLinks(c: seq<Pte>, k: nat)
    requires 0 < k < |c|
    ensures var r := ToFront(c, k);
            && Head(r) == c[k]
            && Following(r, 0) == c[0] == Head(c)
            && (forall i :: 0 < i < k ==> Following(r, i) == Following(c, i - 1))
            && Following(r, k) == Following(c, k)
            && (forall i :: k < i < |c| ==> Following(r, i) == Following(c, i))
  {
  }

  lemma ToFrontKeepsIndex(chains: seq<seq<Pte>>, entries: map<int, Pte>, s: nat, k: nat)
    requires |chains| == PTAB_SIZE && s < PTAB_SIZE && k < |chains[s]|
    requires Indexed(chains, entries)
    ensures Indexed(chains[s := ToFront(chains[s], k)], entries)
  {
    ToFrontSameEntries(chains[s], k);
    hide Known, ToFront;
  }

  class Memory {
    const ptab: array<Pte?>
    var pageCount: nat
    var ptabMisses: nat
    var ptabAccesses: nat

    /** The buckets as sequences, the entries by page number, and the objects in use. */
    ghost var chains: seq<seq<Pte>>
    ghost var entries: map<int, Pte>
    ghost var Repr: set<object>

    ghost predicate Chain(s: nat)
      requires ptab.Length == PTAB_SIZE == |chains| && s < PTAB_SIZE
      reads `chains, ptab, chains[s]
    {
      var c := chains[s];
      && ptab[s] == Head(c)
      && Distinct(c)
      && (forall i {:trigger c[i].next} :: 0 <= i < |c| ==> c[i].next == Following(c, i))
      && (forall n <- c :: n.bucket == s && n.tag < 32)
    }

    ghost predicate Paged()
      reads `entries
    {
      && (forall p :: p in entries ==> entries[p].page.Length == PAGE_SIZE)
      && (forall p, q :: p in entries && q in entries && p != q ==> entries[p].page != entries[q].page)
    }

    ghost predicate Owned()
      reads `entries, `Repr
    {
      && this in Repr && ptab in Repr
      && forall p :: p in entries ==> entries[p] in Repr && entries[p].page in Repr
    }

    ghost function Entries(): set<Pte>
      reads `entries
    {
      set p | p in entries :: entries[p]
    }

    ghost predicate Valid()
      reads this, Repr
      ensures Valid() ==> this in Repr && ptab in Repr
    {
      && Owned()
      && ptab.Length == PTAB_SIZE == |chains|
      && Indexed(chains, entries) && Paged()
      && AllIn(chains, Repr)
      && (forall s :: 0 <= s < PTAB_SIZE ==> Chain(s))
      && pageCount == |entries|
    }

    /** The allocated pages: what callers see. */
    ghost function Contents(): (m: Pages)
      requires Valid()
      reads this, Repr
      ensures WellFormed(m)
    {
      map p | p in entries :: entries[p].page[..]
    }

    /** What lookups depend on. */
    ghost function AsDirectory(): (d: Directory)
      requires Valid()
      reads this, Repr
    {
      Directory(Contents(), Fronts(ptab[..]), ptabMisses, ptabAccesses)
    }

    constructor ()
      ensures Valid() && fresh(Repr)
      ensures Contents() == map[]
      ensures AsDirectory() == Empty()
    {
      ptab := new Pte?[PTAB_SIZE](_ => null);
      pageCount, ptabMisses, ptabAccesses := 0, 0, 0;
      chains := seq(PTAB_SIZE, _ => []);
      entries := map[];
      Repr := {this, ptab};
    }

    /** Unlink pte, which follows prev in bucket s, and relink it at the head. */
    method Relink(s: nat, prev: Pte, pte: Pte)
      requires s < ptab.Length && prev != pte
      modifies ptab, prev`next, pte`next
      ensures prev.next == old(pte.next) && pte.next == old(ptab[s]) && ptab[s] == pte
      ensures forall t :: 0 <= t < ptab.Length && t != s ==> ptab[t] == old(ptab[t])
    {
      prev.next := pte.next;
      pte.next := ptab[s];
      ptab[s] := pte;
    }

    /** What relinking does to the bucket of the entry. */
    method MoveToFront(s: nat, prev: Pte, pte: Pte, ghost k: nat)
      requires ptab.Length == PTAB_SIZE == |chains| && s < PTAB_SIZE
      requires Chain(s)
      requires 0 < k < |chains[s]| && chains[s][k - 1] == prev && chains[s][k] == pte
      modifies this`chains, ptab, prev`next, pte`next
      ensures chains == old(chains)[s := ToFront(old(chains[s]), k)]
      ensures ptab[..] == old(ptab[..])[s := pte]
      ensures Chain(s)
    {
      ghost var c := chains[s];
      ghost var r := ToFront(c, k);
      ToFrontDistinct(c, k);
      ToFrontLinks(c, k);
      assert c[k].tag != c[k - 1].tag;
      ToFrontSameEntries(c, k);
      assert forall i :: 0 <= i < |c| && i != k && i != k - 1 ==> c[i] != prev && c[i] != pte;
      hide Distinct, ToFront, Following;
      Relink(s, prev, pte);
      chains := chains[s := r];
      assert forall i {:trigger c[i].next} :: 0 <= i < |c| && i != k && i != k - 1 ==> c[i].next == Following(c, i);
      forall i | 0 <= i < |r|
        ensures r[i].next == Following(r, i)
      {
        if i == 0 {
        } else if i < k {
          assert r[i] == c[i - 1];
        } else if i == k {
          assert r[i] == c[k - 1];
        } else {
          assert r[i] == c[i];
        }
      }
    }

    method Promote(s: nat, prev: Pte, pte: Pte, ghost k: nat)
      requires Valid() && s < PTAB_SIZE
      requires 0 < k < |chains[s]| && chains[s][k - 1] == prev && chains[s][k] == pte
      modifies this`chains, ptab, prev`next, pte`next
      ensures Valid()
      ensures chains == old(chains)[s := ToFront(old(chains[s]), k)]
      ensures ptab[..] == old(ptab[..])[s := pte]
    {
      assert Chain(s);
      ToFrontKeepsIndex(chains, entries, s, k);
      ToFrontSameEntries(chains[s], k);
      assert prev.bucket == s && pte.bucket == s;
      MoveToFront(s, prev, pte, k);
      hide Known, Indexed, ToFront, Distinct;
      forall t | 0 <= t < PTAB_SIZE && t != s
        ensures Chain(t)
      {
        assert old(Chain(t));
      }
    }

    /** The entry for addr heads its bucket: the next lookup of its page is a first-level hit. */
    ghost predicate AtFront(addr: Addr)
      requires ptab.Length == PTAB_SIZE
      reads ptab, `entries
    {
      PageNo(addr) in entries && ptab[SetOf(addr)] == entries[PageNo(addr)]
    }

    /** The heads of the buckets after a lookup of addr. */
    ghost function Headed(heads: seq<Pte?>, addr: Addr): seq<Pte?>
      requires |heads| == PTAB_SIZE
      reads `entries
    {
      if PageNo(addr) in entries then heads[SetOf(addr) := entries[PageNo(addr)]] else heads
    }

    lemma EntryInBucket(addr: Addr)
      requires Valid() && PageNo(addr) in entries
      ensures entries[PageNo(addr)] in chains[SetOf(addr)] && entries[PageNo(addr)].tag == TagOf(addr)
    {
      hide PageNo, SetOf, TagOf, PageOf, Known, Distinct, Chain, Paged;
      SplitIsInvertible(addr);
      BucketSplits(TagOf(addr), SetOf(addr));
    }

    /** Walk the bucket of addr until its tag is found. */
    method Search(addr: Addr) returns (prev: Pte?, pte: Pte?, ghost k: nat)
      requires Valid()
      ensures ptab.Length == PTAB_SIZE == |chains|
      ensures var c := chains[SetOf(addr)];
              if PageNo(addr) in entries
              then k < |c| && pte == c[k] == entries[PageNo(addr)] && prev == if k == 0 then null else c[k - 1]
              else pte == null
    {
      var s := SetOf(addr);
      assert Chain(s);
      ghost var c := chains[s];
      prev, pte, k := null, ptab[s], 0;
      hide Known, Distinct, SetOf, TagOf, PageNo, Indexed, Paged, Owned;
      while pte != null && pte.tag != TagOf(addr)
        invariant 0 <= k <= |c|
        invariant pte == if k < |c| then c[k] else null
        invariant prev == if k == 0 then null else c[k - 1]
        invariant forall i :: 0 <= i < k ==> c[i].tag != TagOf(addr)
        decreases |c| - k
      {
        prev := pte;
        pte := pte.next;
        k := k + 1;
      }
      if pte != null {
        FoundIsEntry(addr, pte);
      }
      if PageNo(addr) in entries {
        EntryInBucket(addr);
      }
    }

    lemma FoundIsEntry(addr: Addr, n: Pte)
      requires Valid() && n in chains[SetOf(addr)] && n.tag == TagOf(addr)
      ensures PageNo(addr) in entries && entries[PageNo(addr)] == n
    {
      hide PageNo, SetOf, TagOf, PageOf, Distinct, Chain, Paged;
      SplitIsInvertible(addr);
      assert Known(entries, n, SetOf(addr));
    }

    lemma InEntries(s: nat, k: nat)
      requires Valid() && s < PTAB_SIZE && k < |chains[s]|
      ensures chains[s][k] in Entries()
    {
      assert Known(entries, chains[s][k], s);
    }

    /** The entry that a search has found is at the head of its bucket afterwards. */
    method BringUp(addr: Addr, prev: Pte?, pte: Pte, ghost k: nat)
      requires Valid() && PageNo(addr) in entries && pte == entries[PageNo(addr)]
      requires ptab.Length == PTAB_SIZE == |chains|
      requires var c := chains[SetOf(addr)];
               k < |c| && pte == c[k] && prev == if k == 0 then null else c[k - 1]
      modifies this`chains, ptab, Entries()`next
      ensures Valid() && Contents() == old(Contents())
      ensures AtFront(addr) && ptab[..] == old(ptab[..])[SetOf(addr) := pte]
    {
      hide PageNo, SetOf, TagOf, PageOf, Known, Distinct, Indexed;
      var s := SetOf(addr);
      assert Chain(s);
      if prev != null {
        assert prev in Entries() && pte in Entries() by { InEntries(s, k - 1); }
        Promote(s, prev, pte, k);
        assert Chain(s);
      }
    }

    lemma Buckets()
      requires Valid()
      ensures ptab.Length == PTAB_SIZE == |chains|
    {
    }

    method Tally()
      requires Valid()
      modifies this`ptabMisses, this`ptabAccesses
      ensures Valid() && Contents() == old(Contents())
      ensures ptabMisses == old(ptabMisses) + 1 && ptabAccesses == old(ptabAccesses) + 1
    {
      hide Indexed, Chain, Paged, Owned, AllIn;
      ptabMisses := ptabMisses + 1;
      ptabAccesses := ptabAccesses + 1;
    }

    /** Look the page of addr up in its bucket; an entry that is found moves to the head. */
    method Translate(addr: Addr) returns (page: array?<Byte>)
      requires Valid()
      modifies this`chains, this`ptabMisses, this`ptabAccesses, ptab, Entries()`next
      ensures Valid() && Contents() == old(Contents())
      ensures ptabMisses == old(ptabMisses) + 1 && ptabAccesses == old(ptabAccesses) + 1
      ensures page == if PageNo(addr) in entries then entries[PageNo(addr)].page else null
      ensures ptab[..] == Headed(old(ptab[..]), addr)
    {
      hide PageNo, SetOf, AtFront, Valid;
      Buckets();
      var prev, pte, k := Search(addr);
      Tally();
      if pte == null {
        return null;
      }
      BringUp(addr, prev, pte, k);
      return pte.page;
    }

    /** MEM_PAGE: try the head of the bucket before searching it. */
    method Page(addr: Addr) returns (page: array?<Byte>)
      requires Valid()
      modifies this`chains, this`ptabMisses, this`ptabAccesses, ptab, Entries()`next
      ensures Valid() && Contents() == old(Contents())
      ensures ptabAccesses == old(ptabAccesses) + 1
      ensures ptabMisses == old(ptabMisses) + if old(AtFront(addr)) then 0 else 1
      ensures page == if PageNo(addr) in entries then entries[PageNo(addr)].page else null
      ensures ptab[..] == Headed(old(ptab[..]), addr)
    {
      hide PageNo, SetOf, TagOf, PageOf, Known, Distinct, Indexed, Paged;
      var head := ptab[SetOf(addr)];
      assert Chain(SetOf(addr));
      if head != null && head.tag == TagOf(addr) {
        FoundIsEntry(addr, head);
        ptabAccesses := ptabAccesses + 1;
        return head.page;
      }
      if PageNo(addr) in entries {
        EntryInBucket(addr);
      }
      page := Translate(addr);
    }

    /** Put an entry at the head of bucket s. */
    method PutHead(s: nat, pte: Pte)
      requires ptab.Length == PTAB_SIZE == |chains| && s < PTAB_SIZE
      requires forall t :: 0 <= t < PTAB_SIZE ==> Chain(t)
      requires Distinct([pte] + chains[s]) && pte.next == ptab[s] && pte.bucket == s && pte.tag < 32
      modifies this`chains, ptab
      ensures chains == old(chains)[s := [pte] + old(chains[s])]
      ensures ptab[..] == old(ptab[..])[s := pte]
      ensures forall t :: 0 <= t < PTAB_SIZE ==> Chain(t)
    {
      hide Distinct;
      ghost var c := chains[s];
      assert Chain(s);
      ptab[s] := pte;
      chains := chains[s := [pte] + c];
      assert Chain(s) by {
        assert forall i :: 0 < i <= |c| ==> chains[s][i] == c[i - 1];
      }
      forall t | 0 <= t < PTAB_SIZE && t != s
        ensures Chain(t)
      {
        assert old(Chain(t));
      }
    }

    /** Allocate the page of addr, all zero, at the head of its bucket. */
    method NewPage(addr: Addr)
      requires Valid() && PageNo(addr) !in entries
      modifies this`chains, this`entries, this`Repr, this`pageCount, ptab
      ensures Valid() && fresh(Repr - old(Repr))
      ensures Contents() == old(Contents())[PageNo(addr) := ZeroPage()]
      ensures pageCount == old(pageCount) + 1
      ensures PageNo(addr) in entries && entries == old(entries)[PageNo(addr) := entries[PageNo(addr)]]
      ensures ptab[..] == Headed(old(ptab[..]), addr)
      ensures fresh(entries[PageNo(addr)]) && fresh(entries[PageNo(addr)].page)
    {
      hide Known, Distinct, SetOf, TagOf, PageNo, PageOf, Indexed, Paged, Chain, Valid, ZeroPage, Contents;
      Buckets();
      var s := SetOf(addr);
      var page := new Byte[4096](_ => 0);
      var pte := new Pte(TagOf(addr), page, ptab[s], s);
      NewEntryDistinct(addr, pte);
      NewEntryIndexed(addr, pte);
      AddEntry(addr, pte);
    }

    /** Put a new entry at the head of its bucket and count it in. */
    method Admit(p: int, s: nat, pte: Pte)
      requires Valid() && ptab.Length == PTAB_SIZE == |chains| && s < PTAB_SIZE && p !in entries
      requires pte !in Repr && pte.page !in Repr && pte.page.Length == PAGE_SIZE
      requires pte.bucket == s && pte.tag < 32 && pte.next == ptab[s]
      requires Distinct([pte] + chains[s])
      modifies this`chains, this`entries, this`Repr, this`pageCount, ptab
      ensures chains == old(chains)[s := [pte] + old(chains[s])] && entries == old(entries)[p := pte]
      ensures Repr == old(Repr) + {pte, pte.page} && Owned() && Paged()
      ensures forall t :: 0 <= t < PTAB_SIZE ==> Chain(t)
      ensures pageCount == |entries| == old(pageCount) + 1
      ensures ptab[..] == old(ptab[..])[s := pte]
    {
      hide Known, Distinct, Indexed, Chain, Owned, Paged, AllIn;
      PutHead(s, pte);
      Enter(p, pte);
    }

    /** The bookkeeping for a new entry: the program's part is the head of the bucket and the count. */
    method AddEntry(addr: Addr, pte: Pte)
      requires Valid() && PageNo(addr) !in entries
      requires pte !in Repr && pte.page !in Repr && pte.page[..] == ZeroPage()
      requires pte.bucket == SetOf(addr) && pte.tag == TagOf(addr) && pte.next == ptab[SetOf(addr)]
      requires Distinct([pte] + chains[SetOf(addr)])
      requires Indexed(chains[SetOf(addr) := [pte] + chains[SetOf(addr)]], entries[PageNo(addr) := pte])
      modifies this`chains, this`entries, this`Repr, this`pageCount, ptab
      ensures Valid() && Repr == old(Repr) + {pte, pte.page}
      ensures Contents() == old(Contents())[PageNo(addr) := ZeroPage()]
      ensures pageCount == old(pageCount) + 1
      ensures entries == old(entries)[PageNo(addr) := pte] && ptab[..] == old(ptab[..])[SetOf(addr) := pte]
    {
      hide Known, Distinct, SetOf, TagOf, PageNo, PageOf, Indexed, Chain, Owned, Paged, AllIn, ZeroPage;
      var s := SetOf(addr);
      assert pte.page.Length == 4096 by { assert |pte.page[..]| == 4096; }
      NewLinks(chains, s, pte, Repr);
      Admit(PageNo(addr), s, pte);
    }

    lemma NewLinks(before: seq<seq<Pte>>, s: nat, pte: Pte, used: set<object>)
      requires s < |before| && AllIn(before, used)
      ensures AllIn(before[s := [pte] + before[s]], used + {pte, pte.page})
    {
    }

    /** Count a new entry in. */
    method Enter(p: int, pte: Pte)
      requires Owned() && Paged() && pageCount == |entries| && p !in entries
      requires pte.page !in Repr && pte.page.Length == PAGE_SIZE
      modifies this`entries, this`Repr, this`pageCount
      ensures Owned() && Paged() && pageCount == |entries| == old(pageCount) + 1
      ensures Repr == old(Repr) + {pte, pte.page} && entries == old(entries)[p := pte]
    {
      entries := entries[p := pte];
      Repr := Repr + {pte, pte.page};
      pageCount := pageCount + 1;
    }

    lemma NewEntryDistinct(addr: Addr, n: Pte)
      requires Valid() && PageNo(addr) !in entries && n.tag == TagOf(addr)
      ensures Distinct([n] + chains[SetOf(addr)])
    {
      hide PageNo, SetOf, TagOf, Known, Indexed;
      var c := chains[SetOf(addr)];
      assert Chain(SetOf(addr));
      forall i | 0 <= i < |c|
        ensures c[i].tag != n.tag
      {
        if c[i].tag == n.tag {
          FoundIsEntry(addr, c[i]);
        }
      }
    }

    lemma NewEntryIndexed(addr: Addr, n: Pte)
      requires Valid() && PageNo(addr) !in entries && n.tag == TagOf(addr)
      ensures Indexed(chains[SetOf(addr) := [n] + chains[SetOf(addr)]], entries[PageNo(addr) := n])
    {
      hide SetOf, TagOf, PageNo, PageOf, Distinct, Chain;
      SplitIsInvertible(addr);
      BucketSplits(TagOf(addr), SetOf(addr));
    }

    /** MEM_TICKLE: allocate the page of addr unless it is there. */
    method Tickle(addr: Addr)
      requires Valid()
      modifies this, ptab, Entries()`next
      ensures Valid() && fresh(Repr - old(Repr))
      ensures ptab[..] == Headed(old(ptab[..]), addr)
      ensures Contents() == Allocated(old(Contents()), addr)
      ensures forall p :: p in entries && p in old(entries) ==> entries[p] == old(entries[p])
      ensures PageNo(addr) !in old(entries) ==> fresh(entries[PageNo(addr)].page)
      ensures PageNo(addr) in entries && ptabAccesses == old(ptabAccesses) + 1
      ensures ptabMisses == old(ptabMisses) + if old(AtFront(addr)) then 0 else 1
    {
      hide PageNo, SetOf, ZeroPage, Indexed, Chain, Paged;
      var page := Page(addr);
      if page == null {
        NewPage(addr);
      }
    }

    lemma AtFrontMeans(addr: Addr)
      requires Valid()
      ensures AtFront(addr) <==> Fronts(ptab[..])[SetOf(addr)] == PageNo(addr)
    {
      hide PageNo, SetOf, TagOf, PageOf, Known, Distinct, Indexed, Paged;
      var s := SetOf(addr);
      assert Chain(s);
      SplitIsInvertible(addr);
      if PageNo(addr) in entries {
        EntryInBucket(addr);
      }
      if ptab[s] != null {
        TagOfFront(ptab[s].tag, addr);
        if ptab[s].tag == TagOf(addr) {
          FoundIsEntry(addr, ptab[s]);
        }
      }
    }

    lemma TagOfFront(tag: nat, addr: Addr)
      ensures PageOf(tag, SetOf(addr)) == PageNo(addr) <==> tag == TagOf(addr)
    {
      hide SetOf, TagOf, PageNo;
      SplitIsInvertible(addr);
    }

    lemma StepDone(d: Directory, heads: seq<Pte?>, op: Operation)
      requires Valid() && |heads| == PTAB_SIZE && d.fronts == Fronts(heads)
      requires d.fronts[SetOf(op.addr)] == PageNo(op.addr) ==> PageNo(op.addr) in d.pages
      requires Contents() == if op.Put? then Store(d.pages, op.addr, op.value) else d.pages
      requires ptab[..] == Headed(heads, op.addr)
      requires ptabMisses == d.misses + if d.fronts[SetOf(op.addr)] == PageNo(op.addr) then 0 else 1
      requires ptabAccesses == d.accesses + if op.Put? || PageNo(op.addr) in d.pages then 2 else 1
      ensures AsDirectory() == Step(d, op)
    {
      StepSays(d, op);
      hide Known, Distinct, Indexed, Paged, Chain, Step, Store, Owned, AllIn, TagOf, PageOf;
      if op.Put? {
        LoadAfterStore(d.pages, op.addr, op.value, op.addr);
      }
      if PageNo(op.addr) in entries {
        EntryInBucket(op.addr);
        TagOfFront(TagOf(op.addr), op.addr);
      }
    }

    /** What a method on one byte needs of a valid table. */
    lemma Parts(addr: Addr)
      requires Valid()
      ensures ptab.Length == PTAB_SIZE && Entries() <= Repr
      ensures PageNo(addr) in entries ==> entries[PageNo(addr)].page in Repr
      ensures PageNo(addr) in entries <==> PageNo(addr) in Contents()
      ensures AsDirectory() == Directory(Contents(), Fronts(ptab[..]), ptabMisses, ptabAccesses)
      ensures AtFront(addr) <==> Fronts(ptab[..])[SetOf(addr)] == PageNo(addr)
    {
      AtFrontMeans(addr);
    }

    /** The byte of the page of addr. */
    lemma ByteOf(addr: Addr)
      requires Valid() && PageNo(addr) in entries
      ensures entries[PageNo(addr)].page.Length == PAGE_SIZE
      ensures entries[PageNo(addr)].page[Offset(addr)] == Load(Contents(), addr)
    {
    }

    /** MEM_READ of a byte: the page is looked up once to test it and, if it is there, again to read it. */
    method ReadByte(addr: Addr) returns (v: Byte)
      requires Valid()
      modifies Repr
      ensures Valid() && Repr == old(Repr) && Contents() == old(Contents())
      ensures v == Load(Contents(), addr)
      ensures AsDirectory() == Step(old(AsDirectory()), Get(addr))
    {
      hide PageNo, SetOf, Offset, Valid, Contents, Step, AsDirectory, Fronts, Entries;
      ghost var heads := ptab[..];
      Parts(addr);
      var page := Page(addr);
      Parts(addr);
      if page != null {
        page := Page(addr);
        ByteOf(addr);
        v := page[Offset(addr)];
      } else {
        v := 0;
      }
      StepDone(old(AsDirectory()), heads, Get(addr));
    }

    /** MEM_WRITE of a byte. */
    method WriteByte(addr: Addr, v: Byte)
      requires Valid()
      modifies Repr
      ensures Valid() && fresh(Repr - old(Repr))
      ensures Contents() == Store(old(Contents()), addr, v)
      ensures AsDirectory() == Step(old(AsDirectory()), Put(addr, v))
    {
      hide PageNo, SetOf, Allocated, Patched, Valid, Contents, Step, AsDirectory, Fronts, Entries;
      ghost var heads := ptab[..];
      Parts(addr);
      Tickle(addr);
      Parts(addr);
      var page := Page(addr);
      Parts(addr);
      Poke(page, addr, v);
      StepDone(old(AsDirectory()), heads, Put(addr, v));
    }

    /** Store into the page of addr. */
    method Poke(page: array<Byte>, addr: Addr, v: Byte)
      requires Valid() && PageNo(addr) in entries && page == entries[PageNo(addr)].page
      modifies page
      ensures Valid()
      ensures Contents() == Patched(old(Contents()), addr, v)
    {
      hide PageNo, Offset, Indexed, Distinct, Known, Head, Following;
      page[Offset(addr)] := v;
      assert forall s :: 0 <= s < PTAB_SIZE ==> old(Chain(s)) && Chain(s);
      ghost var m := old(Contents());
      assert page[..] == Patched(m, addr, v)[PageNo(addr)];
      assert forall p :: p in entries && p != PageNo(addr) ==> entries[p].page[..] == m[p];
    }
  }
}
