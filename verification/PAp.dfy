// The two-level predictor with private histories and private pattern tables
// (Lab2-Branch-Predictor/predictor.cc, "2level").
module PAp {
  import opened BinaryWords
  import opened Branches

  const HISTORIES: nat := 512
  const PATTERN_TABLES: nat := 8
  const PATTERNS: nat := 64

  function PhtIndex(pc: Pc): (k: nat)
    ensures k < PATTERN_TABLES
  {
    pc % 8
  }

  function BhtIndex(pc: Pc): (k: nat)
    ensures k < HISTORIES
  {
    (pc / 8) % 512
  }

  /** Shift one outcome into a six-bit history. */
  function ShiftIn(pattern: int, taken: bool): (r: int)
    ensures 0 <= r < PATTERNS
  {
    (2 * pattern) % 64 + if taken then 1 else 0
  }

  /** The history register after the outcomes os. */
  function History(os: seq<bool>): (r: nat)
    ensures r < PATTERNS
  {
    if os == [] then 0 else ShiftIn(History(os[..|os| - 1]), os[|os| - 1])
  }

  /** The outcomes that history register h has recorded. */
  function Recorded(tr: Trace, h: nat): seq<bool>
  {
    Outcomes(tr, (pc: Pc) => BhtIndex(pc) == h)
  }

  /** The counter for pattern q of pattern table t after a trace. */
  function Cell(tr: Trace, t: nat, q: nat): (c: int)
    ensures 0 <= c <= 3
  {
    if tr == [] then 1
    else
      var before, last := tr[..|tr| - 1], tr[|tr| - 1];
      if PhtIndex(last.pc) == t && History(Recorded(before, BhtIndex(last.pc))) == q
      then Bump(Cell(before, t, q), last.taken, 3)
      else Cell(before, t, q)
  }

  predicate Predicted(tr: Trace, pc: Pc)
  {
    Cell(tr, PhtIndex(pc), History(Recorded(tr, BhtIndex(pc)))) >= 2
  }

  /** Mispredictions of the predict-then-update loop over a whole trace. */
  function Misses(tr: Trace): nat
  {
    if tr == [] then 0
    else
      var before, last := tr[..|tr| - 1], tr[|tr| - 1];
      Misses(before) + if Predicted(before, last.pc) != last.taken then 1 else 0
  }

  /** Those of them that are charged to the branch at pc. */
  function MissesOf(tr: Trace, pc: Pc): nat
  {
    if tr == [] then 0
    else
      var before, last := tr[..|tr| - 1], tr[|tr| - 1];
      MissesOf(before, pc) + if last.pc == pc && Predicted(before, pc) != last.taken then 1 else 0
  }

  class Predictor {
    const papbht: array<int>
    const pappht: array2<int>

    ghost predicate Reflects(tr: Trace)
      reads papbht, pappht
    {
      && papbht.Length == HISTORIES
      && pappht.Length0 == PATTERN_TABLES && pappht.Length1 == PATTERNS
      && (forall h :: 0 <= h < HISTORIES ==> papbht[h] == History(Recorded(tr, h)))
      && (forall t, q :: 0 <= t < PATTERN_TABLES && 0 <= q < PATTERNS ==> pappht[t, q] == Cell(tr, t, q))
    }

    constructor ()
      ensures Reflects([])
      ensures fresh(papbht) && fresh(pappht)
    {
      papbht := new int[HISTORIES];
      pappht := new int[PATTERN_TABLES, PATTERNS];
      new;
      var i := 0;
      while i < 8
        invariant 0 <= i <= 8
        invariant forall t, q :: 0 <= t < i && 0 <= q < PATTERNS ==> pappht[t, q] == 1
      {
        var j := 0;
        while j < 64
          invariant 0 <= j <= 64
          invariant forall t, q :: 0 <= t < i && 0 <= q < PATTERNS ==> pappht[t, q] == 1
          invariant forall q :: 0 <= q < j ==> pappht[i, q] == 1
        {
          pappht[i, j] := 1;
          j := j + 1;
        }
        i := i + 1;
      }
      i := 0;
      while i < 512
        invariant 0 <= i <= 512
        invariant forall h :: 0 <= h < i ==> papbht[h] == 0
        invariant forall t, q :: 0 <= t < PATTERN_TABLES && 0 <= q < PATTERNS ==> pappht[t, q] == 1
      {
        papbht[i] := 0;
        i := i + 1;
      }
    }

    method GetPrediction(pc: Pc, ghost tr: Trace) returns (taken: bool)
      requires Reflects(tr)
      ensures taken == Predicted(tr, pc)
    {
      var phtIndex := pc % 8;
      var bhtIndex := (pc / 8) % 512;
      var pattern := papbht[bhtIndex];
      var state := pappht[phtIndex, pattern];
      if state == 0 || state == 1 {
        return false;
      } else {
        return true;
      }
    }

    method UpdatePredictor(pc: Pc, resolveDir: bool, ghost tr: Trace)
      requires Reflects(tr)
      modifies papbht, pappht
      ensures Reflects(tr + [Branch(pc, resolveDir)])
    {
      var phtIndex := pc % 8;
      var bhtIndex := (pc / 8) % 512;
      var oldPattern := papbht[bhtIndex];

      if !resolveDir {
        if pappht[phtIndex, oldPattern] != 0 {
          pappht[phtIndex, oldPattern] := pappht[phtIndex, oldPattern] - 1;
        }
      } else {
        if pappht[phtIndex, oldPattern] != 3 {
          pappht[phtIndex, oldPattern] := pappht[phtIndex, oldPattern] + 1;
        }
      }
      var newPattern := (2 * oldPattern) % 64 + if resolveDir then 1 else 0;
      papbht[bhtIndex] := newPattern;

      ghost var b := Branch(pc, resolveDir);
      forall h | 0 <= h < HISTORIES
        ensures History(Recorded(tr + [b], h)) ==
                if h == BhtIndex(pc) then ShiftIn(History(Recorded(tr, h)), resolveDir) else History(Recorded(tr, h))
      {
        HistoryStep(tr, b, h);
      }
      forall t, q | 0 <= t < PATTERN_TABLES && 0 <= q < PATTERNS
        ensures Cell(tr + [b], t, q) ==
                if t == PhtIndex(pc) && q == History(Recorded(tr, BhtIndex(pc)))
                then Bump(Cell(tr, t, q), resolveDir, 3) else Cell(tr, t, q)
      {
        SplitLast(tr, b);
      }
    }
  }

  lemma HistoryStep(tr: Trace, b: Branch, h: nat)
    ensures Recorded(tr + [b], h) == if h == BhtIndex(b.pc) then Recorded(tr, h) + [b.taken] else Recorded(tr, h)
    ensures History(Recorded(tr + [b], h)) ==
            if h == BhtIndex(b.pc) then ShiftIn(History(Recorded(tr, h)), b.taken) else History(Recorded(tr, h))
  {
    SplitLast(tr, b);
    SplitLastOutcome(Recorded(tr, h), b.taken);
  }

  // ---- The history register holds the last six outcomes ---------------------------------

  /** The six outcomes that a history value stands for, oldest first. */
  function Unpack(q: nat): (w: seq<bool>)
    ensures |w| == 6
  {
    Bits(q, 6)
  }

  lemma ShiftUnpacked(q: nat, taken: bool)
    requires q < PATTERNS
    ensures Unpack(ShiftIn(q, taken)) == Unpack(q)[1..] + [taken]
  {
    ShiftValue(q, taken);
    assert Pow2(5) == 32;
    ShiftedBits(q, 6, taken);
  }

  lemma ShiftValue(q: nat, taken: bool)
    requires q < PATTERNS
    ensures ShiftIn(q, taken) == 2 * (if q >= 32 then q - 32 else q) + if taken then 1 else 0
  {
  }

  /** The register holds exactly the last six outcomes, not-taken before the first one. */
  lemma {:induction false} HistoryIsLastSix(os: seq<bool>)
    ensures Unpack(History(os)) == (Padding(6) + os)[|os|..]
  {
    if os == [] {
      ZeroBits(6);
      assert Unpack(0) == Padding(6) == Padding(6) + os;
    } else {
      var before, last := os[..|os| - 1], os[|os| - 1];
      HistoryIsLastSix(before);
      ShiftUnpacked(History(before), last);
      LastAfter(before, last, 6);
    }
  }

  // ---- The prediction in closed form -------------------------------------------------------

  /** The outcomes of the branches that record in the same history as a. */
  function Sharing(tr: Trace, a: Pc): seq<bool>
  {
    if tr == [] then []
    else
      var rest, last := Sharing(tr[..|tr| - 1], a), tr[|tr| - 1];
      if last.pc / 8 % 512 == a / 8 % 512 then rest + [last.taken] else rest
  }

  /** The last six of them, not-taken before the first one. */
  function LastSix(tr: Trace, a: Pc): (w: seq<bool>)
    ensures |w| == 6
  {
    Last(Sharing(tr, a), 6)
  }

  /** The outcomes of the branches whose low three bits are those of pc and that came after the six outcomes w. */
  function After(tr: Trace, pc: Pc, w: seq<bool>): seq<bool>
  {
    if tr == [] then []
    else
      var before, last := tr[..|tr| - 1], tr[|tr| - 1];
      var rest := After(before, pc, w);
      if last.pc % 8 == pc % 8 && LastSix(before, last.pc) == w then rest + [last.taken] else rest
  }

  lemma {:induction false} SharingIsRecorded(tr: Trace, a: Pc)
    ensures Recorded(tr, BhtIndex(a)) == Sharing(tr, a)
  {
    if tr != [] {
      SharingIsRecorded(tr[..|tr| - 1], a);
    }
  }

  /** Histories are equal exactly when the last six outcomes are. */
  lemma SameHistory(tr: Trace, a: Pc, tr': Trace, b: Pc)
    ensures History(Recorded(tr, BhtIndex(a))) == History(Recorded(tr', BhtIndex(b))) <==>
            LastSix(tr, a) == LastSix(tr', b)
  {
    hide History, Recorded, Unpack, Sharing;
    var x, y := Sharing(tr, a), Sharing(tr', b);
    SharingIsRecorded(tr, a);
    SharingIsRecorded(tr', b);
    HistoryIsLastSix(x);
    HistoryIsLastSix(y);
    UnpackInjective(History(x), History(y));
  }

  lemma UnpackInjective(p: nat, q: nat)
    requires p < PATTERNS && q < PATTERNS
    ensures Unpack(p) == Unpack(q) <==> p == q
  {
    assert Pow2(6) == 64;
    if Unpack(p) == Unpack(q) {
      BitsInjective(p, q, 6);
    }
  }

  lemma {:induction false} CellIsAfter(tr: Trace, pc: Pc, tr': Trace)
    ensures Cell(tr, PhtIndex(pc), History(Recorded(tr', BhtIndex(pc)))) ==
            Saturating(After(tr, pc, LastSix(tr', pc)), 1, 3)
  {
    hide History, Recorded, LastSix;
    if tr != [] {
      var before, last := tr[..|tr| - 1], tr[|tr| - 1];
      CellIsAfter(before, pc, tr');
      SameHistory(before, last.pc, tr', pc);
      SaturatingStep(After(before, pc, LastSix(tr', pc)), last.taken, 1, 3);
    }
  }

  /** After any trace, shared entries included, the prediction for pc is that of a two-bit counter which starts at
      1 and has seen the outcomes of all branches with the same low three bits that came after the same six
      outcomes as pc does now. The six are those of the branches with the same next nine bits. */
  lemma PredictionClosedForm(tr: Trace, pc: Pc)
    ensures Predicted(tr, pc) <==> Saturating(After(tr, pc, LastSix(tr, pc)), 1, 3) >= 2
  {
    CellIsAfter(tr, pc, tr);
  }

  // ---- A branch that shares neither table with another branch ----------------------------

  /** No other PC of the trace uses the history entry or the pattern table of pc. */
  predicate Isolated(tr: Trace, pc: Pc)
  {
    forall i :: 0 <= i < |tr| && tr[i].pc != pc ==>
      BhtIndex(tr[i].pc) != BhtIndex(pc) && PhtIndex(tr[i].pc) != PhtIndex(pc)
  }

  function Own(tr: Trace, pc: Pc): seq<bool>
  {
    Outcomes(tr, (p: Pc) => p == pc)
  }

  /** The counter for pattern q of a table that a single branch with outcomes os trains. */
  function OwnCell(os: seq<bool>, q: nat): (c: int)
    ensures 0 <= c <= 3
  {
    if os == [] then 1
    else
      var before := os[..|os| - 1];
      if History(before) == q then Bump(OwnCell(before, q), os[|os| - 1], 3) else OwnCell(before, q)
  }

  /** Whether the next outcome o is mispredicted after the outcomes os. */
  predicate Missed(os: seq<bool>, o: bool)
  {
    (OwnCell(os, History(os)) >= 2) != o
  }

  function OwnMisses(os: seq<bool>): nat
  {
    if os == [] then 0
    else
      var before := os[..|os| - 1];
      OwnMisses(before) + if Missed(before, os[|os| - 1]) then 1 else 0
  }

  lemma {:induction false} IsolatedState(tr: Trace, pc: Pc)
    requires Isolated(tr, pc)
    ensures Recorded(tr, BhtIndex(pc)) == Own(tr, pc)
    ensures forall q :: 0 <= q ==> Cell(tr, PhtIndex(pc), q) == OwnCell(Own(tr, pc), q)
  {
    if tr != [] {
      var before, last := tr[..|tr| - 1], tr[|tr| - 1];
      assert tr[|tr| - 1] == last;
      assert forall i :: 0 <= i < |before| ==> before[i] == tr[i];
      IsolatedState(before, pc);
      if last.pc == pc {
        SplitLastOutcome(Own(before, pc), last.taken);
      }
    }
  }

  /** An isolated branch is predicted as if it were alone. */
  lemma {:induction false} IsolatedMisses(tr: Trace, pc: Pc)
    requires Isolated(tr, pc)
    ensures MissesOf(tr, pc) == OwnMisses(Own(tr, pc))
  {
    if tr != [] {
      var before, last := tr[..|tr| - 1], tr[|tr| - 1];
      assert forall i :: 0 <= i < |before| ==> before[i] == tr[i];
      IsolatedMisses(before, pc);
      IsolatedState(before, pc);
      if last.pc == pc {
        SplitLastOutcome(Own(before, pc), last.taken);
      }
    }
  }

  // ---- The learning bound ----------------------------------------------------------------

  /** From the seventh on, every outcome is the function f of the six outcomes before it. */
  predicate Follows(os: seq<bool>, f: seq<bool> -> bool)
  {
    forall i :: 6 <= i < |os| ==> os[i] == f(os[i - 6..i])
  }

  /** Mispredictions a counter can still cause if only the outcome dir follows. */
  function Slack(dir: bool, c: int): int
  {
    if dir then (if c <= 1 then 2 - c else 0) else (if c >= 2 then c - 1 else 0)
  }

  /** The slack of the patterns below n. */
  function Potential(os: seq<bool>, f: seq<bool> -> bool, n: nat): int
  {
    if n == 0 then 0 else Potential(os, f, n - 1) + Slack(f(Unpack(n - 1)), OwnCell(os, n - 1))
  }

  /** The number of patterns below n that f maps to taken. */
  function TakenPatterns(f: seq<bool> -> bool, n: nat): (r: nat)
    ensures r <= n
  {
    if n == 0 then 0 else TakenPatterns(f, n - 1) + if f(Unpack(n - 1)) then 1 else 0
  }

  lemma {:induction false} InitialPotential(f: seq<bool> -> bool, n: nat)
    ensures Potential([], f, n) == TakenPatterns(f, n)
  {
    if n > 0 {
      InitialPotential(f, n - 1);
    }
  }

  lemma OwnCellStep(os: seq<bool>, o: bool, q: nat)
    ensures OwnCell(os + [o], q) == if q == History(os) then Bump(OwnCell(os, q), o, 3) else OwnCell(os, q)
  {
    SplitLastOutcome(os, o);
  }

  lemma {:induction false} PotentialStep(os: seq<bool>, o: bool, f: seq<bool> -> bool, n: nat)
    ensures var h := History(os); var c := OwnCell(os, h);
            Potential(os + [o], f, n) ==
            Potential(os, f, n) + if h < n then Slack(f(Unpack(h)), Bump(c, o, 3)) - Slack(f(Unpack(h)), c) else 0
  {
    hide OwnCell, History, Unpack, Slack;
    if n > 0 {
      PotentialStep(os, o, f, n - 1);
      OwnCellStep(os, o, n - 1);
    }
  }

  lemma {:induction false} PotentialNonNegative(os: seq<bool>, f: seq<bool> -> bool, n: nat)
    ensures Potential(os, f, n) >= 0
  {
    hide OwnCell, Unpack;
    if n > 0 {
      PotentialNonNegative(os, f, n - 1);
    }
  }

  lemma {:induction false} FollowsPrefix(os: seq<bool>, f: seq<bool> -> bool)
    requires os != [] && Follows(os, f)
    ensures Follows(os[..|os| - 1], f)
  {
    var before := os[..|os| - 1];
    forall i | 6 <= i < |before|
      ensures before[i] == f(before[i - 6..i])
    {
      assert before[i - 6..i] == os[i - 6..i];
    }
  }

  /** After the warm-up the outcome is what f says of the history register. */
  lemma {:induction false} PredictedOutcome(os: seq<bool>, f: seq<bool> -> bool)
    requires |os| >= 7 && Follows(os, f)
    ensures os[|os| - 1] == f(Unpack(History(os[..|os| - 1])))
  {
    var before := os[..|os| - 1];
    HistoryIsLastSix(before);
    assert (Padding(6) + before)[|before|..] == os[|os| - 7..|os| - 1];
  }

  /** Mispredictions paid for: warm-up outcomes cost at most two each, later ones nothing. */
  lemma {:induction false} LearningAmortised(os: seq<bool>, f: seq<bool> -> bool)
    requires Follows(os, f)
    ensures OwnMisses(os) + Potential(os, f, PATTERNS) <= TakenPatterns(f, PATTERNS) + 2 * Min(|os|, 6)
  {
    hide Potential, OwnCell, History, Unpack, TakenPatterns, Follows;
    if os == [] {
      InitialPotential(f, PATTERNS);
    } else {
      var before, last := os[..|os| - 1], os[|os| - 1];
      FollowsPrefix(os, f);
      LearningAmortised(before, f);
      PotentialStep(before, last, f, PATTERNS);
      assert before + [last] == os;
      if |before| >= 6 {
        PredictedOutcome(os, f);
      }
    }
  }

  /** A branch that is a function of its last six outcomes is learned after at most
      one misprediction per pattern, plus the cost of the first six outcomes. */
  lemma {:induction false} LearningBound(tr: Trace, pc: Pc, f: seq<bool> -> bool)
    requires Isolated(tr, pc)
    requires Follows(Own(tr, pc), f)
    ensures MissesOf(tr, pc) <= TakenPatterns(f, PATTERNS) + 12 <= 76
  {
    IsolatedMisses(tr, pc);
    LearningAmortised(Own(tr, pc), f);
    PotentialNonNegative(Own(tr, pc), f, PATTERNS);
  }

  // ---- The two loops of the microbenchmark -----------------------------------------------

  /** The branch of a loop that is taken in one iteration out of period. */
  predicate LoopBranch(os: seq<bool>, period: nat, phase: nat)
    requires period > 0
  {
    forall i :: 0 <= i < |os| ==> os[i] == (i % period == phase)
  }

  predicate AllFalse(w: seq<bool>)
  {
    forall i :: 0 <= i < |w| ==> !w[i]
  }

  /** One iteration in seven fits a six-outcome history: at most 13 mispredictions, ever. */
  lemma {:induction false} PeriodSevenIsLearned(tr: Trace, pc: Pc, phase: nat)
    requires Isolated(tr, pc)
    requires phase < 7 && LoopBranch(Own(tr, pc), 7, phase)
    ensures MissesOf(tr, pc) <= 13
  {
    var os := Own(tr, pc);
    forall i | 6 <= i < |os|
      ensures os[i] == AllFalse(os[i - 6..i])
    {
      PeriodSevenWindow(os, phase, i);
    }
    LearningBound(tr, pc, AllFalse);
    OneTakenPattern(PATTERNS);
  }

  lemma PeriodSevenWindow(os: seq<bool>, phase: nat, i: nat)
    requires phase < 7 && LoopBranch(os, 7, phase)
    requires 6 <= i < |os|
    ensures os[i] == AllFalse(os[i - 6..i])
  {
    var w := os[i - 6..i];
    if os[i] {
      forall k | 0 <= k < 6
        ensures !w[k]
      {
        assert w[k] == os[i - 6 + k];
        assert (i - (6 - k)) % 7 != i % 7;
      }
    } else {
      var d := (i - phase) % 7;
      assert 1 <= d <= 6;
      assert (i - d) % 7 == phase;
      assert w[6 - d] == os[i - d];
    }
  }

  lemma {:induction false} OneTakenPattern(n: nat)
    requires n <= PATTERNS
    ensures TakenPatterns(AllFalse, n) == if n == 0 then 0 else 1
  {
    if n > 0 {
      OneTakenPattern(n - 1);
      if n == 1 {
        ZeroBits(6);
        assert AllFalse(Unpack(0));
      } else {
        NonZeroHasTaken(n - 1);
      }
    }
  }

  lemma NonZeroHasTaken(q: nat)
    requires 0 < q < PATTERNS
    ensures !AllFalse(Unpack(q))
  {
    assert Pow2(6) == 64;
    NonZeroHasBit(q, 6);
  }

  lemma {:induction false} NonZeroHasBit(q: nat, n: nat)
    requires 0 < q < Pow2(n)
    ensures exists k :: 0 <= k < n && Bits(q, n)[k]
  {
    if q % 2 == 1 {
      assert Bits(q, n)[n - 1];
    } else {
      NonZeroHasBit(q / 2, n - 1);
      var k :| 0 <= k < n - 1 && Bits(q / 2, n - 1)[k];
      assert Bits(q, n)[k];
    }
  }

  lemma {:induction false} ZeroBits(n: nat)
    ensures forall k :: 0 <= k < n ==> !Bits(0, n)[k]
  {
    if n > 0 {
      ZeroBits(n - 1);
    }
  }

  /** How many indices below n, from the eighth on, are taken iterations of the period-eight loop. */
  function FullPeriods(n: nat, phase: nat): nat
  {
    if n == 0 then 0 else FullPeriods(n - 1, phase) + if n - 1 >= 8 && (n - 1) % 8 == phase then 1 else 0
  }

  /** One iteration in eight does not fit: every full period costs a misprediction, for ever. */
  lemma {:induction false} PeriodEightIsNotLearned(tr: Trace, pc: Pc, phase: nat)
    requires Isolated(tr, pc)
    requires phase < 8 && LoopBranch(Own(tr, pc), 8, phase)
    ensures MissesOf(tr, pc) >= FullPeriods(|Own(tr, pc)|, phase)
  {
    IsolatedMisses(tr, pc);
    PeriodEightMisses(Own(tr, pc), phase);
  }

  lemma OwnMissesStep(os: seq<bool>, o: bool)
    ensures OwnMisses(os + [o]) == OwnMisses(os) + if Missed(os, o) then 1 else 0
  {
    SplitLastOutcome(os, o);
  }

  /** In an interval without taken iterations of the loop no new period is counted, and at a taken
      one the same all-not-taken pattern has just been trained not taken: one of the two is missed. */
  lemma {:induction false} PeriodEightMisses(os: seq<bool>, phase: nat)
    requires phase < 8 && LoopBranch(os, 8, phase)
    ensures OwnMisses(os) >= FullPeriods(|os|, phase)
  {
    hide OwnMisses, OwnCell, History;
    var n := |os|;
    if n > 0 {
      var before := os[..n - 1];
      if n - 1 >= 8 && (n - 1) % 8 == phase {
        var earlier := os[..n - 2];
        PeriodEightMisses(earlier, phase);
        assert before[..n - 2] == earlier && before == earlier + [os[n - 2]] && os == before + [os[n - 1]];
        OwnMissesStep(earlier, os[n - 2]);
        OwnMissesStep(before, os[n - 1]);
        QuietWindow(os, phase, n - 2);
        QuietWindow(os, phase, n - 1);
        OwnCellStep(earlier, os[n - 2], 0);
      } else {
        PeriodEightMisses(before, phase);
        assert os == before + [os[n - 1]];
        OwnMissesStep(before, os[n - 1]);
      }
    }
  }

  lemma BetweenTakenIterations(i: nat, d: nat, phase: nat)
    requires 1 <= d <= 6 && d <= i && phase < 8
    requires i % 8 == phase || (i + 1) % 8 == phase
    ensures (i - d) % 8 != phase
  {
    var q, r := i / 8, i % 8;
    assert i == 8 * q + r;
    if r >= d {
      assert (i - d) % 8 == r - d;
    } else {
      assert i - d == 8 * (q - 1) + (r + 8 - d);
      assert (i - d) % 8 == r + 8 - d;
    }
  }

  /** Just before a taken iteration, and one iteration earlier, the history is all not taken. */
  lemma QuietWindow(os: seq<bool>, phase: nat, i: nat)
    requires phase < 8 && LoopBranch(os, 8, phase)
    requires 7 <= i < |os|
    requires i % 8 == phase || (i + 1) % 8 == phase
    ensures History(os[..i]) == 0
    ensures os[i] == (i % 8 == phase)
  {
    var w := os[..i];
    HistoryIsLastSix(w);
    hide History, Unpack;
    var u := Unpack(History(w));
    forall k | 0 <= k < 6
      ensures !u[k]
    {
      assert u[k] == (Padding(6) + w)[i..][k];
      assert (Padding(6) + w)[i + k] == w[i + k - 6];
      BetweenTakenIterations(i, 6 - k, phase);
    }
    if History(w) != 0 {
      NonZeroHasTaken(History(w));
    }
  }
}
