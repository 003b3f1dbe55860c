// The TAGE predictor as the program holds it: tables and history in arrays, the folded history kept
// incrementally in circular shift registers, and the provider carried from prediction to update.
// Every method is proved against the functions of module Tage.
module TageMachine {
  import opened Branches
  import opened FoldedHistory
  import opened Tage
  import opened TageProperties

  class Predictor {
    const T0Phrt: array<int>
    const T0Pht: array2<int>
    const GHR: array<bool>
    const T: array2<Entry>
    const CSR: array3<bool>
    var providerComp: int
    var providerPred: bool
    var providerIndex: int
    var altPred: bool
    var probability: int
    var useCounter: int

    // ---- Abstraction -----------------------------------------------------------------------

    ghost predicate Allocated()
    {
      && T0Phrt.Length == T0_HISTORIES
      && T0Pht.Length0 == T0_TABLES && T0Pht.Length1 == T0_PATTERNS
      && GHR.Length == HISTORY_BITS
      && T.Length0 == TABLES && T.Length1 == ENTRIES
      && CSR.Length0 == TABLES && CSR.Length1 == 2 && CSR.Length2 == TAG_WIDTH
    }

    ghost function Tables(): (r: Tables)
      requires Allocated()
      reads T
      ensures TablesShape(r)
    {
      seq(TABLES, t requires 0 <= t < TABLES && Allocated() reads T =>
        seq(ENTRIES, i requires 0 <= i < ENTRIES && Allocated() reads T => T[t, i]))
    }

    ghost function PatternTables(): (r: seq<seq<int>>)
      requires Allocated()
      reads T0Pht
      ensures |r| == T0_TABLES && forall t :: 0 <= t < T0_TABLES ==> |r[t]| == T0_PATTERNS
    {
      seq(T0_TABLES, t requires 0 <= t < T0_TABLES && Allocated() reads T0Pht =>
        seq(T0_PATTERNS, q requires 0 <= q < T0_PATTERNS && Allocated() reads T0Pht => T0Pht[t, q]))
    }

    ghost function Abs(): State
      requires Allocated()
      reads `probability, `useCounter, T0Phrt, T0Pht, GHR, T
    {
      State(T0Phrt[..], PatternTables(), GHR[..], Tables(), probability, useCounter)
    }

    /** Both registers of table t hold the folds of its window; the eleventh bit of register 1 is clear. */
    ghost predicate Folded(t: nat, g: seq<bool>)
      requires Allocated() && t < TABLES && |g| == HISTORY_BITS
      reads CSR
    {
      && (forall k :: 0 <= k < 11 ==> CSR[t, 0, k] == Fold(g, Window(t), 11, k))
      && (forall k :: 0 <= k < 10 ==> CSR[t, 1, k] == Fold(g, Window(t), 10, k))
      && !CSR[t, 1, 10]
    }

    ghost predicate Folds()
      reads GHR, CSR
    {
      Allocated() && forall t :: 0 <= t < TABLES ==> Folded(t, GHR[..])
    }

    ghost predicate Valid()
      reads `probability, `useCounter, T0Phrt, T0Pht, GHR, T, CSR
    {
      Folds() && Abs().Shape() && InRange(Abs())
    }

    /** The tables and the history are those that the trace tr leads to. */
    ghost predicate Reflects(tr: Trace)
      reads `probability, `useCounter, T0Phrt, T0Pht, GHR, T, CSR
    {
      Valid() && Abs() == After(tr)
    }

    constructor ()
      ensures Reflects([])
      ensures fresh(T0Phrt) && fresh(T0Pht) && fresh(GHR) && fresh(T) && fresh(CSR)
    {
      hide Folds, Reflects, Valid, Abs, Initial, After;
      T0Phrt := new int[T0_HISTORIES](_ => 0);
      T0Pht := new int[T0_TABLES, T0_PATTERNS]((_, _) => 3);
      GHR := new bool[HISTORY_BITS](_ => false);
      T := new Entry[TABLES, ENTRIES]((_, _) => Entry(3, 0, 0));
      CSR := new bool[TABLES, 2, TAG_WIDTH]((_, _, _) => false);
      providerComp, providerPred, providerIndex, altPred := 0, false, 0, false;
      probability, useCounter := 0, 128;
      new;
      ClearRegisters();
      InitialState();
      InitiallyValid();
    }

    lemma ClearRegisters()
      requires Allocated() && forall j :: 0 <= j < HISTORY_BITS ==> !GHR[j]
      requires forall t, n, k :: 0 <= t < TABLES && 0 <= n < 2 && 0 <= k < TAG_WIDTH ==> !CSR[t, n, k]
      ensures Folds()
    {
      hide Fold;
      forall t | 0 <= t < TABLES
        ensures Folded(t, GHR[..])
      {
        ClearFolds(GHR[..], Window(t), 11);
        ClearFolds(GHR[..], Window(t), 10);
      }
    }

    lemma InitialState()
      requires Allocated() && forall j :: 0 <= j < HISTORY_BITS ==> !GHR[j]
      requires forall h :: 0 <= h < T0_HISTORIES ==> T0Phrt[h] == 0
      requires forall t, q :: 0 <= t < T0_TABLES && 0 <= q < T0_PATTERNS ==> T0Pht[t, q] == 3
      requires forall t, i :: 0 <= t < TABLES && 0 <= i < ENTRIES ==> T[t, i] == Entry(3, 0, 0)
      requires probability == 0 && useCounter == 128
      ensures Abs() == Initial()
    {
      var init := Initial();
      assert T0Phrt[..] == init.t0phrt && GHR[..] == init.ghr;
      assert forall t :: 0 <= t < T0_TABLES ==> PatternTables()[t] == init.t0pht[t];
      assert forall t :: 0 <= t < TABLES ==> Tables()[t] == init.tables[t];
    }

    lemma InitiallyValid()
      requires Folds() && Abs() == Initial()
      ensures Reflects([])
    {
      RunKeepsRange([]);
      hide Folds;
    }

    // ---- The folded registers --------------------------------------------------------------

    /** The rotating loop: every bit moves up by one; the lowest ones are still to be set. */
    method Rotate(table: nat)
      requires Allocated() && table < TABLES
      modifies CSR
      ensures forall k :: 0 < k < 11 ==> CSR[table, 0, k] == old(CSR[table, 0, k - 1])
      ensures forall k :: 0 < k < 10 ==> CSR[table, 1, k] == old(CSR[table, 1, k - 1])
      ensures CSR[table, 1, 10] == old(CSR[table, 1, 10])
      ensures forall t, n, k :: 0 <= t < TABLES && t != table && 0 <= n < 2 && 0 <= k < 11 ==>
                CSR[t, n, k] == old(CSR[t, n, k])
    {
      var i := TAG_WIDTH - 1;
      while i > 0
        invariant 0 <= i <= 10
        invariant forall k :: i < k < 11 ==> CSR[table, 0, k] == old(CSR[table, 0, k - 1])
        invariant forall k :: i < k < 10 ==> CSR[table, 1, k] == old(CSR[table, 1, k - 1])
        invariant forall k :: 0 <= k <= i ==> CSR[table, 0, k] == old(CSR[table, 0, k])
        invariant forall k :: 0 <= k <= i && k < 10 ==> CSR[table, 1, k] == old(CSR[table, 1, k])
        invariant CSR[table, 1, 10] == old(CSR[table, 1, 10])
        invariant forall t, n, k :: 0 <= t < TABLES && t != table && 0 <= n < 2 && 0 <= k < 11 ==>
                    CSR[t, n, k] == old(CSR[t, n, k])
      {
        CSR[table, 0, i] := CSR[table, 0, i - 1];
        if i < TAG_WIDTH - 1 {
          CSR[table, 1, i] := CSR[table, 1, i - 1];
        }
        i := i - 1;
      }
    }

    method UpdateCsr(table: nat, numHisBits: nat)
      requires Allocated() && table < TABLES && numHisBits < HISTORY_BITS
      modifies CSR
      ensures forall k :: 0 <= k < 11 ==>
                CSR[table, 0, k] ==
                Rotated(old(CSR[table, 0, Below(k, 11)]), k, 11, numHisBits, GHR[0], GHR[numHisBits])
      ensures forall k :: 0 <= k < 10 ==>
                CSR[table, 1, k] ==
                Rotated(old(CSR[table, 1, Below(k, 10)]), k, 10, numHisBits, GHR[0], GHR[numHisBits])
      ensures CSR[table, 1, 10] == old(CSR[table, 1, 10])
      ensures forall t, n, k :: 0 <= t < TABLES && t != table && 0 <= n < 2 && 0 <= k < 11 ==>
                CSR[t, n, k] == old(CSR[t, n, k])
    {
      var csr0Msb := CSR[table, 0, TAG_WIDTH - 1];
      var csr1Msb := CSR[table, 1, TAG_WIDTH - 2];
      Rotate(table);
      InsertBits(table, 0, numHisBits, csr0Msb);
      InsertBits(table, 1, numHisBits, csr1Msb);
    }

    /** Let the newest outcome in at the bottom and take the one that left the window out. */
    method InsertBits(table: nat, num: nat, numHisBits: nat, msb: bool)
      requires Allocated() && table < TABLES && num < 2 && numHisBits < HISTORY_BITS
      modifies CSR
      ensures forall k :: 0 <= k < Width(num) ==>
                CSR[table, num, k] ==
                Xor(Xor(if k == 0 then msb else old(CSR[table, num, k]), k == 0 && GHR[0]),
                    numHisBits % Width(num) == k && GHR[numHisBits])
      ensures forall k :: Width(num) <= k < 11 ==> CSR[table, num, k] == old(CSR[table, num, k])
      ensures forall t, n, k :: 0 <= t < TABLES && 0 <= n < 2 && 0 <= k < 11 && (t != table || n != num) ==>
                CSR[t, n, k] == old(CSR[t, n, k])
    {
      var out := numHisBits % Width(num);
      CSR[table, num, 0] := Xor(GHR[0], msb);
      CSR[table, num, out] := Xor(GHR[numHisBits], CSR[table, num, out]);
    }

    /** The reading of a register, computed in 32-bit arithmetic. Ten digits never wrap; the power
        for the eleventh bit does, but that bit is clear. */
    method GetCsr(table: nat, num: nat) returns (r: nat)
      requires Folds() && table < TABLES && num < 2
      ensures r == CsrValue(GHR[..], table, num)
    {
      hide Folds, Folded, Fold, FoldValue;
      RegisterBits(table, num);
      var end := if num == 1 then TAG_WIDTH else TAG_WIDTH - 1;
      var pow := 1;
      var sum := 0;
      var i := 0;
      ghost var g, n, w := GHR[..], Window(table), Width(num);
      NoDigits(g, n, w);
      while i < end
        invariant 0 <= i <= end
        invariant pow == Pow10(i) % WORD_SIZE
        invariant sum == FoldValue(g, n, w, if i <= 10 then i else 10)
      {
        ReadDigit(g, n, w, i);
        sum := (sum + pow * (if CSR[table, num, i] then 1 else 0)) % WORD_SIZE;
        pow := (pow * 10) % WORD_SIZE;
        i := i + 1;
      }
      r := sum;
    }

    /** The bits of a register are those of its fold. */
    lemma RegisterBits(table: nat, num: nat)
      requires Folds() && table < TABLES && num < 2
      ensures Allocated()
      ensures forall k :: 0 <= k < 10 ==> CSR[table, num, k] == Fold(GHR[..], Window(table), Width(num), k)
      ensures num == 1 ==> !CSR[table, num, 10]
    {
      hide Fold;
      assert Folded(table, GHR[..]);
    }

    // ---- Hashes ----------------------------------------------------------------------------

    method TagAndIndex(pc: Pc, t: nat) returns (tag: int, ind: int)
      requires Folds() && 1 <= t <= TABLES
      ensures tag == Tag(GHR[..], t, pc) && ind == Index(GHR[..], t, pc)
    {
      var csr0 := GetCsr(t - 1, 0);
      var csr1 := GetCsr(t - 1, 1);
      tag := TagHash(pc, csr0, csr1);
      ind := IndexHash(pc, csr1);
    }

    // ---- Prediction ------------------------------------------------------------------------

    method GetT0(pc: Pc) returns (taken: bool)
      requires Valid()
      ensures taken == T0Predicted(Abs(), pc)
    {
      var phrtIndex := (pc / 8) % 1024;
      var phtIndex := pc % 8;
      var mode := T0Pht[phtIndex, T0Phrt[phrtIndex]];
      assert mode == PatternTables()[phtIndex][T0Phrt[..][phrtIndex]];
      taken := !(mode <= 3);
    }

    /** What the fields that a prediction sets say about the provider. */
    ghost predicate Provides(p: Provider)
      reads `providerComp, `providerPred, `providerIndex, `altPred
    {
      providerComp == p.comp && providerPred == p.pred && providerIndex == p.index && altPred == p.alt
    }

    method LookUp(pc: Pc) returns (pred: seq<int>, index: seq<int>, useful: seq<int>)
      requires Valid()
      ensures LookedUp(pred, index, useful, Tables(), GHR[..], pc, 8)
    {
      hide InRange, Folded, Index, Tag, Answer;
      ghost var ts, g := Tables(), GHR[..];
      pred, index, useful := seq(8, _ => -1), seq(8, _ => -1), seq(8, _ => 0);
      var i := 1;
      while i <= 7
        invariant 1 <= i <= 8
        invariant LookedUp(pred, index, useful, ts, g, pc, i)
        invariant forall u :: i <= u < 8 ==> pred[u] == -1 && index[u] == -1 && useful[u] == 0
      {
        var tag, ind := TagAndIndex(pc, i);
        assert T[i - 1, ind] == Selected(ts, g, pc, i);
        AnswerIs(ts, g, pc, i);
        if T[i - 1, ind].tag == tag {
          pred := pred[i := T[i - 1, ind].pred];
          index := index[i := ind];
          useful := useful[i := T[i - 1, ind].useful];
        }
        i := i + 1;
      }
    }

    /** Scan from the longest table: the first match provides, and j is the next one below it. */
    method Choose(pred: seq<int>, index: seq<int>, useful: seq<int>, t0: bool)
      returns (comp: nat, compPred: bool, compIndex: int, alt: bool, weak: bool, ghost j: nat)
      requires |pred| == |index| == |useful| == 8
      ensures Chosen(pred, index, useful, t0, Provider(comp, compPred, compIndex, alt), weak, j)
    {
      comp, compPred, compIndex, alt, weak, j := 0, t0, -1, t0, false, 0;
      var i := 7;
      while i > 0
        invariant 0 <= i <= 7
        invariant comp == 0 && compPred == alt == t0 && compIndex == -1 && !weak && j == 0
        invariant forall u :: i < u <= 7 ==> pred[u] == -1
      {
        if pred[i] != -1 {
          comp, compPred, compIndex := i, pred[i] >= 4, index[i];
          if (pred[i] > 2 && pred[i] < 5) || useful[i] == 0 {
            weak := true;
          }
          var k := i - 1;
          while k > 0
            invariant 0 <= k < i
            invariant alt == t0
            invariant forall u :: k < u < i ==> pred[u] == -1
          {
            if pred[k] != -1 {
              alt := pred[i] >= 4;
              break;
            }
            k := k - 1;
          }
          j := k;
          return;
        }
        i := i - 1;
      }
    }

    lemma Parts()
      requires Valid()
      ensures Allocated() && Folds() && Abs().Shape() && InRange(Abs())
      ensures Abs().tables == Tables() && Abs().ghr == GHR[..]
    {
    }

    method GetPrediction(pc: Pc) returns (taken: bool)
      requires Valid()
      modifies `providerComp, `providerPred, `providerIndex, `altPred
      ensures Valid() && Abs() == old(Abs())
      ensures Provides(ProviderOf(Abs(), pc))
      ensures taken == Predicted(Abs(), pc)
    {
      hide Valid, Folds, Abs, InRange, LookedUp, Chosen, ProviderOf, Predicted, T0Predicted, State.Shape;
      Parts();
      ghost var s := Abs();
      // T0 is the default component.
      var t0 := GetT0(pc);
      var pred, index, useful := LookUp(pc);
      NotesLength(s, pred, index, useful, pc);
      var comp, compPred, compIndex, alt, weak, j := Choose(pred, index, useful, t0);
      ChosenProvides(s, pc, pred, index, useful, t0, Provider(comp, compPred, compIndex, alt), weak, j);
      Remember(comp, compPred, compIndex, alt);
      taken := if weak then altPred else providerPred;
    }

    /** Keep the provider for the update. */
    method Remember(comp: nat, pred: bool, index: int, alt: bool)
      requires Valid()
      modifies `providerComp, `providerPred, `providerIndex, `altPred
      ensures Valid() && Abs() == old(Abs())
      ensures Provides(Provider(comp, pred, index, alt))
    {
      hide Folds, InRange, State.Shape;
      providerComp, providerPred, providerIndex, altPred := comp, pred, index, alt;
    }

    // ---- Update ----------------------------------------------------------------------------

    method UpdateT0(pc: Pc, resolveDir: bool)
      requires Allocated() && Abs().Shape()
      modifies T0Phrt, T0Pht
      ensures T0Phrt[..] == UpdatedT0(old(Abs()), pc, resolveDir).t0phrt
      ensures PatternTables() == UpdatedT0(old(Abs()), pc, resolveDir).t0pht
    {
      var phrtIndex := (pc / 8) % 1024;
      var phtIndex := pc % 8;
      assert T0Phrt[phrtIndex] == T0Phrt[..][phrtIndex];
      var q := T0Phrt[phrtIndex];
      if !resolveDir && T0Pht[phtIndex, q] != 0 {
        T0Pht[phtIndex, q] := T0Pht[phtIndex, q] - 1;
      }
      if resolveDir && T0Pht[phtIndex, q] != 7 {
        T0Pht[phtIndex, q] := T0Pht[phtIndex, q] + 1;
      }
      T0Phrt[phrtIndex] := (2 * T0Phrt[phrtIndex]) % 512 + if resolveDir then 1 else 0;
      ghost var r := UpdatedT0(old(Abs()), pc, resolveDir);
      assert T0Phrt[..] == r.t0phrt;
      assert forall t :: 0 <= t < T0_TABLES ==> PatternTables()[t] == r.t0pht[t];
    }

    /** Move the provider's counter; the copies say what a change left, and stay 0 without one. */
    method TrainPrediction(resolveDir: bool, ghost p: Provider) returns (useful: int, pred: int)
      requires Allocated() && Provides(p) && ProviderOk(p) && p.comp != 0
      modifies T
      ensures var e := old(Tables())[p.comp - 1][p.index];
              var moved := Bump(e.pred, resolveDir, 7);
              && Tables() == Put(old(Tables()), p.comp, p.index, Entry(moved, e.tag, e.useful))
              && useful == (if e.pred == (if resolveDir then 7 else 0) then 0 else e.useful)
              && pred == (if e.pred == (if resolveDir then 7 else 0) then 0 else moved)
    {
      hide Put;
      var t, i := providerComp - 1, providerIndex;
      TablesEntry(t, i);
      ghost var ts, e: Entry := Tables(), T[t, i];
      PutSame(ts, p.comp, p.index);
      useful, pred := 0, 0;
      if resolveDir {
        if T[t, i].pred != 7 {
          Install(t + 1, i, T[t, i].(pred := T[t, i].pred + 1));
          TablesEntry(t, i);
          PutGet(ts, t + 1, i, Entry(e.pred + 1, e.tag, e.useful));
          useful, pred := T[t, i].useful, T[t, i].pred;
        }
      } else {
        if T[t, i].pred != 0 {
          Install(t + 1, i, T[t, i].(pred := T[t, i].pred - 1));
          TablesEntry(t, i);
          PutGet(ts, t + 1, i, Entry(e.pred - 1, e.tag, e.useful));
          useful, pred := T[t, i].useful, T[t, i].pred;
        }
      }
    }

    lemma TablesEntry(t: nat, i: int)
      requires Allocated() && t < TABLES && 0 <= i < ENTRIES
      ensures Tables()[t][i] == T[t, i]
    {
    }

    /** Move the provider's useful bit and the useful counter. */
    method TrainUseful(resolveDir: bool, ghost p: Provider)
      requires Allocated() && Provides(p) && ProviderOk(p) && p.comp != 0
      modifies T, `useCounter
      ensures var e := old(Tables())[p.comp - 1][p.index];
              Tables() == Put(old(Tables()), p.comp, p.index, Entry(e.pred, e.tag, TrainedUseful(e, p, resolveDir)))
      ensures useCounter == TrainedCounter(old(useCounter), p, resolveDir)
    {
      hide Put;
      var t, i := providerComp - 1, providerIndex;
      TablesEntry(t, i);
      PutSame(Tables(), p.comp, p.index);
      if providerPred == resolveDir && providerPred != altPred {
        Install(t + 1, i, T[t, i].(useful := 1));
        if useCounter != 255 {
          useCounter := useCounter + 1;
        }
      } else if providerPred != resolveDir && providerPred != altPred {
        Install(t + 1, i, T[t, i].(useful := 0));
        if useCounter != 0 {
          useCounter := useCounter - 1;
        }
      }
    }

    /** Train the provider; the result says whether the update goes on to allocate. */
    method Train(resolveDir: bool, ghost p: Provider) returns (allocate: bool)
      requires Allocated() && Provides(p) && ProviderOk(p)
      modifies T, `useCounter
      ensures Tables() == TrainedTables(old(Tables()), p, resolveDir)
      ensures useCounter == TrainedCounter(old(useCounter), p, resolveDir)
      ensures allocate == WantsAllocation(old(Tables()), p, resolveDir)
    {
      hide Put;
      ghost var ts := Tables();
      var useful, pred := 0, 0;
      if providerComp != 0 {
        useful, pred := TrainPrediction(resolveDir, p);
        ghost var e: Entry := ts[p.comp - 1][p.index];
        ghost var moved := Entry(Bump(e.pred, resolveDir, 7), e.tag, e.useful);
        PutGet(ts, p.comp, p.index, moved);
        TrainUseful(resolveDir, p);
        PutPut(ts, p.comp, p.index, moved, Entry(moved.pred, e.tag, TrainedUseful(e, p, resolveDir)));
      }
      allocate := providerComp != TABLES && resolveDir != providerPred && !(useful == 0 && pred > 2 && pred < 5);
    }

    /** Clear the useful bits of all tables above comp. */
    method ClearUseful(comp: nat)
      requires Allocated() && comp <= TABLES
      modifies T
      ensures Tables() == ClearedAbove(old(Tables()), comp)
    {
      var t := comp;
      while t < TABLES
        invariant comp <= t <= TABLES
        invariant forall u, i :: 0 <= u < TABLES && 0 <= i < ENTRIES ==>
                    T[u, i] == if comp <= u < t then old(T[u, i]).(useful := 0) else old(T[u, i])
      {
        var i := 0;
        while i < ENTRIES
          invariant 0 <= i <= ENTRIES
          invariant forall u, j :: 0 <= u < TABLES && 0 <= j < ENTRIES ==>
                      T[u, j] == if comp <= u < t || (u == t && j < i) then old(T[u, j]).(useful := 0) else old(T[u, j])
        {
          T[t, i] := T[t, i].(useful := 0);
          i := i + 1;
        }
        t := t + 1;
      }
      assert forall u :: 0 <= u < TABLES ==> Tables()[u] == ClearedAbove(old(Tables()), comp)[u];
    }

    /** The tags and indices of all seven tables; element 0 is unused. */
    method Hashes(pc: Pc) returns (tags: seq<int>, inds: seq<int>)
      requires Folds()
      ensures |tags| == |inds| == 8
      ensures forall t :: 1 <= t <= 7 ==> tags[t] == Tag(GHR[..], t, pc) && inds[t] == Index(GHR[..], t, pc)
    {
      hide Tag, Index;
      tags, inds := [0], [0];
      var t := 1;
      while t <= 7
        invariant 1 <= t <= 8 && |tags| == |inds| == t
        invariant forall u :: 1 <= u < t ==> tags[u] == Tag(GHR[..], u, pc) && inds[u] == Index(GHR[..], u, pc)
      {
        var tag, ind := TagAndIndex(pc, t);
        tags, inds := tags + [tag], inds + [ind];
        t := t + 1;
      }
    }

    /** Mark the first two tables above the provider whose selected entry is not useful. */
    method FindFree(pc: Pc, inds: seq<int>) returns (found: seq<bool>, numFound: int)
      requires Folds() && 0 <= providerComp < TABLES
      requires |inds| == 8 && forall t :: 1 <= t <= 7 ==> inds[t] == Index(GHR[..], t, pc)
      ensures |found| == 7
      ensures var (first, second) := Candidates(Tables(), GHR[..], pc, providerComp);
              && (forall u :: 0 <= u < 7 ==> (found[u] <==> u + 1 == first || u + 1 == second))
              && numFound == (if first <= 7 then 1 else 0) + (if second <= 7 then 1 else 0)
    {
      hide Index, Folded, Candidates;
      ghost var ts, g := Tables(), GHR[..];
      ghost var (first, second) := Candidates(ts, g, pc, providerComp);
      CandidateFacts(ts, g, pc, providerComp);
      found, numFound := seq(7, _ => false), 0;
      var t := 1;
      while t <= 7
        invariant 1 <= t <= 8 && |found| == 7
        invariant forall u :: 0 <= u < 7 ==> (found[u] <==> u + 1 < t && (u + 1 == first || u + 1 == second))
        invariant numFound == (if first < t then 1 else 0) + (if second < t then 1 else 0)
      {
        assert T[t - 1, inds[t]] == Selected(ts, g, pc, t);
        if providerComp <= t - 1 && T[t - 1, inds[t]].useful == 0 && (t <= 2 || numFound < 2) {
          found := found[t - 1 := true];
          numFound := numFound + 1;
        }
        t := t + 1;
      }
    }

    method FirstMarked(found: seq<bool>, ghost first: nat) returns (t: nat)
      requires |found| == 7 && 1 <= first <= 7 && found[first - 1]
      requires forall u :: 0 <= u < first - 1 ==> !found[u]
      ensures t == first
    {
      t := 1;
      while !found[t - 1]
        invariant 1 <= t <= first
        decreases first - t
      {
        t := t + 1;
      }
    }

    method LastMarked(found: seq<bool>, ghost last: nat) returns (t: nat)
      requires |found| == 7 && 1 <= last <= 7 && found[last - 1]
      requires forall u :: last <= u < 7 ==> !found[u]
      ensures t == last
    {
      t := 7;
      while !found[t - 1]
        invariant last <= t <= 7
        decreases t
      {
        t := t - 1;
      }
    }

    method Allocate(pc: Pc, resolveDir: bool)
      requires Folds() && 0 <= providerComp < TABLES
      modifies T, `probability
      ensures Tables() == AllocatedTables(old(Tables()), GHR[..], pc, providerComp, old(probability), resolveDir)
      ensures probability == NextProbability(old(Tables()), GHR[..], pc, providerComp, old(probability))
    {
      hide Index, Tag, Folded, Candidates, FirstFree;
      ghost var ts, g := Tables(), GHR[..];
      ghost var (first, second) := Candidates(ts, g, pc, providerComp);
      CandidateFacts(ts, g, pc, providerComp);
      var initialPred := if resolveDir then 4 else 3;
      var tags, inds := Hashes(pc);
      var found, numFound := FindFree(pc, inds);

      if numFound == 0 {
        ClearUseful(providerComp);
      } else if numFound == 1 || (numFound > 1 && probability < 2) {
        var t := FirstMarked(found, first);
        Install(t, inds[t], Entry(initialPred, tags[t], 0));
        probability := probability + 1;
      } else {
        probability := 1;
        var t := LastMarked(found, second);
        Install(t, inds[t], Entry(initialPred, tags[t], 0));
      }
    }

    method Install(t: nat, i: int, e: Entry)
      requires Allocated() && 1 <= t <= TABLES && 0 <= i < ENTRIES
      modifies T
      ensures Tables() == Put(old(Tables()), t, i, e)
    {
      T[t - 1, i] := e;
      assert forall u :: 0 <= u < TABLES ==> Tables()[u] == Put(old(Tables()), t, i, e)[u];
    }

    /** Shift the outcome into the history and carry all fourteen folded registers along. */
    method PushHistory(resolveDir: bool)
      requires Folds()
      modifies GHR, CSR
      ensures Folds() && GHR[..] == Push(old(GHR[..]), resolveDir)
    {
      ghost var g := GHR[..];
      var i := HISTORY_BITS - 1;
      while i > 0
        invariant 0 <= i < HISTORY_BITS
        invariant forall j :: 0 <= j <= i ==> GHR[j] == g[j]
        invariant forall j :: i < j < HISTORY_BITS ==> GHR[j] == g[j - 1]
        invariant forall t :: 0 <= t < TABLES ==> Folded(t, g)
      {
        GHR[i] := GHR[i - 1];
        i := i - 1;
      }
      GHR[0] := resolveDir;
      ghost var g' := Push(g, resolveDir);
      assert GHR[..] == g';

      hide Folded, Push;
      var t := 0;
      while t < TABLES
        invariant 0 <= t <= TABLES
        invariant GHR[..] == g'
        invariant forall u :: 0 <= u < t ==> Folded(u, g')
        invariant forall u :: t <= u < TABLES ==> Folded(u, g)
      {
        UpdateFold(t, g, resolveDir);
        t := t + 1;
      }
    }

    /** One call of UpdateCsr carries the folds of one table from the old history to the new one. */
    method UpdateFold(t: nat, ghost g: seq<bool>, ghost b: bool)
      requires Allocated() && t < TABLES && |g| == HISTORY_BITS
      requires Folded(t, g) && GHR[..] == Push(g, b)
      modifies CSR
      ensures Folded(t, GHR[..])
      ensures forall u :: 0 <= u < TABLES && u != t ==>
                Folded(u, g) == old(Folded(u, g)) && Folded(u, Push(g, b)) == old(Folded(u, Push(g, b)))
    {
      hide Fold, Push, Rotated;
      ghost var n := Window(t);
      UpdateCsr(t, Window(t));
      forall k | 0 <= k < 11
        ensures CSR[t, 0, k] == Fold(GHR[..], n, 11, k)
      {
        FoldStep(g, b, n, 11, k);
      }
      forall k | 0 <= k < 10
        ensures CSR[t, 1, k] == Fold(GHR[..], n, 10, k)
      {
        FoldStep(g, b, n, 10, k);
      }
    }

    /** The update that follows a prediction: the provider fields are what that prediction left. */
    method UpdatePredictor(pc: Pc, resolveDir: bool, ghost p: Provider)
      requires Valid() && Provides(p) && ProviderOk(p)
      modifies T0Phrt, T0Pht, GHR, T, CSR, `probability, `useCounter
      ensures Valid() && Abs() == Updated(old(Abs()), p, pc, resolveDir)
    {
      ghost var s := Abs();
      UpdateKeepsRange(s, p, pc, resolveDir);
      UpdatedFields(s, p, pc, resolveDir);
      hide InRange, Folded, Updated, UpdatedT0, TrainedTables, WantsAllocation, AllocatedTables, NextProbability, Push,
        TrainedCounter, ClearedAbove, LearnedTables, LearnedProbability;
      UpdateT0(pc, resolveDir);
      Learn(pc, resolveDir, p);
      PushHistory(resolveDir);
      assert Abs() == Updated(s, p, pc, resolveDir);
    }

    /** Train, allocate, and clear all useful bits when the useful counter runs out. */
    method Learn(pc: Pc, resolveDir: bool, ghost p: Provider)
      requires Folds() && Provides(p) && ProviderOk(p)
      modifies T, `probability, `useCounter
      ensures var trained := TrainedTables(old(Tables()), p, resolveDir);
              var wants := WantsAllocation(old(Tables()), p, resolveDir);
              var learned := if wants
                             then AllocatedTables(trained, GHR[..], pc, p.comp, old(probability), resolveDir)
                             else trained;
              var u := TrainedCounter(old(useCounter), p, resolveDir);
              && Tables() == (if u == 0 then ClearedAbove(learned, 0) else learned)
              && useCounter == (if u == 0 then 128 else u)
              && probability == if wants then NextProbability(trained, GHR[..], pc, p.comp, old(probability))
                                else old(probability)
    {
      hide Folded, TrainedTables, AllocatedTables, NextProbability, TrainedCounter, ClearedAbove, TablesShape;
      var allocate := Train(resolveDir, p);
      if allocate {
        Allocate(pc, resolveDir);
      }
      if useCounter == 0 {
        ClearUseful(0);
        useCounter := 128;
      }
    }
  }

  lemma PutSame(ts: Tables, t: nat, i: int)
    requires TablesShape(ts) && 1 <= t <= TABLES && 0 <= i < ENTRIES
    ensures var e := ts[t - 1][i]; Put(ts, t, i, Entry(e.pred, e.tag, e.useful)) == ts
  {
    var e := ts[t - 1][i];
    assert ts[t - 1][i := Entry(e.pred, e.tag, e.useful)] == ts[t - 1];
  }

  lemma PutGet(ts: Tables, t: nat, i: int, e: Entry)
    requires TablesShape(ts) && 1 <= t <= TABLES && 0 <= i < ENTRIES
    ensures Put(ts, t, i, e)[t - 1][i] == e
  {
  }

  lemma PutPut(ts: Tables, t: nat, i: int, e: Entry, f: Entry)
    requires TablesShape(ts) && 1 <= t <= TABLES && 0 <= i < ENTRIES
    ensures Put(Put(ts, t, i, e), t, i, f) == Put(ts, t, i, f)
  {
    assert ts[t - 1][i := e][i := f] == ts[t - 1][i := f];
  }

  lemma {:induction false} ClearFolds(g: seq<bool>, n: nat, w: nat)
    requires n <= |g| && w > 0 && forall j :: 0 <= j < |g| ==> !g[j]
    ensures forall k :: !Fold(g, n, w, k)
  {
    if n > 0 {
      ClearFolds(g, n - 1, w);
    }
  }

  /** The new state, field by field, in terms of the stages of the update. */
  lemma UpdatedFields(s: State, p: Provider, pc: Pc, taken: bool)
    requires s.Shape() && ProviderOk(p)
    ensures var r := Updated(s, p, pc, taken);
            var trained := TrainedTables(s.tables, p, taken);
            var wants := WantsAllocation(s.tables, p, taken);
            var learned := if wants then AllocatedTables(trained, s.ghr, pc, p.comp, s.probability, taken) else trained;
            var u := TrainedCounter(s.useCounter, p, taken);
            && r.t0phrt == UpdatedT0(s, pc, taken).t0phrt
            && r.t0pht == UpdatedT0(s, pc, taken).t0pht
            && r.ghr == Push(s.ghr, taken)
            && r.tables == (if u == 0 then ClearedAbove(learned, 0) else learned)
            && r.useCounter == (if u == 0 then 128 else u)
            && r.probability == if wants then NextProbability(trained, s.ghr, pc, p.comp, s.probability)
                                else s.probability
  {
    hide UpdatedT0, TrainedTables, WantsAllocation, AllocatedTables, NextProbability, TrainedCounter, ClearedAbove;
  }

  /** The candidates are the first two free tables above the provider. */
  lemma CandidateFacts(ts: Tables, g: seq<bool>, pc: Pc, comp: nat)
    requires TablesShape(ts) && |g| == HISTORY_BITS && comp < TABLES
    ensures var (first, second) := Candidates(ts, g, pc, comp);
            && comp < first <= second <= TABLES + 1
            && (first < second || first == TABLES + 1)
            && (forall u :: comp < u < first ==> Selected(ts, g, pc, u).useful != 0)
            && (forall u :: first < u < second ==> Selected(ts, g, pc, u).useful != 0)
            && (first <= TABLES ==> Selected(ts, g, pc, first).useful == 0)
            && (second <= TABLES ==> Selected(ts, g, pc, second).useful == 0)
  {
    hide FirstFree, Selected;
  }

  /** What a prediction notes for table u: -1 for no match, or the selected entry and where it is. */
  ghost predicate Answer(pred: int, index: int, useful: int, ts: Tables, g: seq<bool>, pc: Pc, u: nat)
    requires TablesShape(ts) && |g| == HISTORY_BITS && 1 <= u <= TABLES
  {
    if Matches(ts, g, pc, u)
    then pred == Selected(ts, g, pc, u).pred && index == Index(g, u, pc) && useful == Selected(ts, g, pc, u).useful
    else pred == -1
  }

  lemma AnswerIs(ts: Tables, g: seq<bool>, pc: Pc, u: nat)
    requires TablesShape(ts) && |g| == HISTORY_BITS && 1 <= u <= TABLES
    ensures var e := Selected(ts, g, pc, u);
            if e.tag == Tag(g, u, pc) then Answer(e.pred, Index(g, u, pc), e.useful, ts, g, pc, u)
            else Answer(-1, -1, 0, ts, g, pc, u)
  {
  }

  /** The notes for the tables below n. */
  ghost predicate LookedUp(pred: seq<int>, index: seq<int>, useful: seq<int>,
                           ts: Tables, g: seq<bool>, pc: Pc, n: nat)
    requires TablesShape(ts) && |g| == HISTORY_BITS && n <= 8
  {
    && |pred| == |index| == |useful| == 8
    && forall u :: 1 <= u < n ==> Answer(pred[u], index[u], useful[u], ts, g, pc, u)
  }

  /** What the scan finds in the notes: the first match from above, whether it is weak, and the next match
      below it (0 for none). */
  ghost predicate Chosen(pred: seq<int>, index: seq<int>, useful: seq<int>, t0: bool, p: Provider, weak: bool, j: nat)
    requires |pred| == |index| == |useful| == 8
  {
    && p.comp <= 7 && (forall u :: p.comp < u <= 7 ==> pred[u] == -1)
    && (p.comp == 0 ==> j == 0 && p.pred == p.alt == t0 && p.index == -1 && !weak)
    && (p.comp > 0 ==>
          && pred[p.comp] != -1 && p.pred == (pred[p.comp] >= 4) && p.index == index[p.comp]
          && weak == ((pred[p.comp] > 2 && pred[p.comp] < 5) || useful[p.comp] == 0)
          && j < p.comp && (j > 0 ==> pred[j] != -1) && (forall u :: j < u < p.comp ==> pred[u] == -1)
          && p.alt == if j > 0 then pred[p.comp] >= 4 else t0)
  }

  lemma NotesLength(s: State, pred: seq<int>, index: seq<int>, useful: seq<int>, pc: Pc)
    requires s.Shape() && LookedUp(pred, index, useful, s.tables, s.ghr, pc, 8)
    ensures |pred| == |index| == |useful| == 8
  {
  }

  /** The scan of the notes finds the provider, and the answer is its own unless it is weak. */
  lemma ChosenProvides(s: State, pc: Pc, pred: seq<int>, index: seq<int>, useful: seq<int>, t0: bool,
                       p: Provider, weak: bool, j: nat)
    requires s.Shape() && InRange(s) && |pred| == |index| == |useful| == 8
    requires LookedUp(pred, index, useful, s.tables, s.ghr, pc, 8)
    requires Chosen(pred, index, useful, t0, p, weak, j) && t0 == T0Predicted(s, pc)
    ensures ProviderOf(s, pc) == p
    ensures Predicted(s, pc) == if weak then p.alt else p.pred
  {
    hide InRange, LookedUp, Matches, Index, HighestMatch, ProviderOf, Predicted, T0Predicted;
    NotesDecide(s, pred, index, useful, pc);
    ProviderFrom(s, pc, p.comp, j);
  }

  /** Counters are never negative, so -1 in the notes means no match. */
  lemma NotesDecide(s: State, pred: seq<int>, index: seq<int>, useful: seq<int>, pc: Pc)
    requires s.Shape() && InRange(s)
    requires LookedUp(pred, index, useful, s.tables, s.ghr, pc, 8)
    ensures |pred| == |index| == |useful| == 8
    ensures forall u :: 1 <= u <= 7 ==> (pred[u] != -1 <==> Matches(s.tables, s.ghr, pc, u))
    ensures forall u :: 1 <= u <= 7 && pred[u] != -1 ==>
              var e := Selected(s.tables, s.ghr, pc, u);
              pred[u] == e.pred && index[u] == Index(s.ghr, u, pc) && useful[u] == e.useful
  {
    hide Matches, Index;
    forall u | 1 <= u <= 7
      ensures Selected(s.tables, s.ghr, pc, u).pred >= 0
    {
      assert EntryInRange(s.tables[u - 1][Index(s.ghr, u, pc)]);
    }
    assert forall u :: 1 <= u < 8 ==> Answer(pred[u], index[u], useful[u], s.tables, s.ghr, pc, u);
  }

  /** The provider and the answer, given the longest match i and the next one j (0 for none). */
  lemma ProviderFrom(s: State, pc: Pc, i: nat, j: nat)
    requires s.Shape() && (j < i <= TABLES || i == j == 0)
    requires i > 0 ==> Matches(s.tables, s.ghr, pc, i)
    requires forall u :: i < u <= TABLES ==> !Matches(s.tables, s.ghr, pc, u)
    requires j > 0 ==> Matches(s.tables, s.ghr, pc, j)
    requires forall u :: j < u < i ==> !Matches(s.tables, s.ghr, pc, u)
    ensures var t0 := T0Predicted(s, pc);
            if i == 0 then ProviderOf(s, pc) == Provider(0, t0, -1, t0) && Predicted(s, pc) == t0
            else
              var e := Selected(s.tables, s.ghr, pc, i);
              var alt := if j > 0 then e.pred >= 4 else t0;
              && ProviderOf(s, pc) == Provider(i, e.pred >= 4, Index(s.ghr, i, pc), alt)
              && Predicted(s, pc) == if Weak(e) then alt else e.pred >= 4
  {
    hide Matches, Index, T0Predicted, Weak;
    NoMatchAboveHighest(s.tables, s.ghr, pc, TABLES);
    if i > 0 {
      NoMatchAboveHighest(s.tables, s.ghr, pc, i - 1);
    }
  }

  /** One round of the reading loop, in wrapping arithmetic. */
  lemma NoDigits(g: seq<bool>, n: nat, w: nat)
    requires n <= |g| && w > 0
    ensures FoldValue(g, n, w, 0) == 0 && Pow10(0) == 1
  {
  }

  lemma ReadDigit(g: seq<bool>, n: nat, w: nat, i: nat)
    requires n <= |g| && w > 0 && i <= 10
    ensures (Pow10(i) % WORD_SIZE * 10) % WORD_SIZE == Pow10(i + 1) % WORD_SIZE
    ensures i < 10 ==> (FoldValue(g, n, w, i) + Pow10(i) % WORD_SIZE * (if Fold(g, n, w, i) then 1 else 0)) % WORD_SIZE
                       == FoldValue(g, n, w, i + 1)
    ensures i == 10 ==> FoldValue(g, n, w, i) % WORD_SIZE == FoldValue(g, n, w, i)
  {
    hide Fold, Pow10, FoldValue;
    NextPower(i);
    TimesTen(Pow10(i));
    NextFoldValue(g, n, w, i);
    if i < 10 {
      DigitsFit(i);
      AddDigit(FoldValue(g, n, w, i), Pow10(i), Fold(g, n, w, i));
    } else {
      TenDigits();
    }
  }

  lemma AddDigit(v: nat, p: nat, bit: bool)
    requires p <= 1_000_000_000 && 9 * v < 10_000_000_000
    ensures (v + p % WORD_SIZE * (if bit then 1 else 0)) % WORD_SIZE == v + if bit then p else 0
  {
  }

  lemma NextPower(i: nat)
    ensures Pow10(i + 1) == 10 * Pow10(i)
  {
  }

  lemma TimesTen(x: nat)
    ensures (x % WORD_SIZE * 10) % WORD_SIZE == (10 * x) % WORD_SIZE
  {
    assert 10 * x == x % WORD_SIZE * 10 + x / WORD_SIZE * 10 * WORD_SIZE;
  }

  lemma NextFoldValue(g: seq<bool>, n: nat, w: nat, i: nat)
    requires n <= |g| && w > 0
    ensures FoldValue(g, n, w, i + 1) == FoldValue(g, n, w, i) + if Fold(g, n, w, i) then Pow10(i) else 0
  {
    hide Fold, Pow10;
  }

  lemma {:induction false} DigitsFit(i: nat)
    requires i < 10
    ensures Pow10(i) <= 1_000_000_000 && Pow10(i + 1) <= 10_000_000_000
  {
    TenDigits();
    PowersGrow(i, 9);
    PowersGrow(i + 1, 10);
  }

  lemma {:induction false} PowersGrow(i: nat, j: nat)
    requires i <= j
    ensures Pow10(i) <= Pow10(j)
  {
    if i < j {
      PowersGrow(i, j - 1);
    }
  }
}
