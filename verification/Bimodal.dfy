// The 2-bit saturating counter predictor (Lab2-Branch-Predictor/predictor.cc, "2bitsat").
module Bimodal {
  import opened Branches

  const ENTRIES: nat := 4096

  /** The table entry a PC selects: its low twelve bits. */
  function Index(pc: Pc): (k: nat)
    ensures k < ENTRIES
  {
    pc % 4096
  }

  /** The counter of one entry after it has seen the outcomes os: it starts weakly not taken. */
  function Counter(os: seq<bool>): (c: int)
    ensures 0 <= c <= 3
  {
    if os == [] then 1 else Bump(Counter(os[..|os| - 1]), os[|os| - 1], 3)
  }

  /** Mispredictions of one entry that sees the outcomes os and nothing else. */
  function EntryMisses(os: seq<bool>): nat
  {
    if os == [] then 0
    else
      var before := os[..|os| - 1];
      EntryMisses(before) + (if (Counter(before) >= 2) != os[|os| - 1] then 1 else 0)
  }

  /** The outcomes that entry k sees during a trace. */
  function SubTrace(tr: Trace, k: nat): seq<bool>
  {
    Outcomes(tr, (pc: Pc) => Index(pc) == k)
  }

  /** The prediction for pc after the trace tr. */
  predicate Predicted(tr: Trace, pc: Pc)
  {
    Counter(SubTrace(tr, Index(pc))) >= 2
  }

  /** Mispredictions of the predict-then-update loop over a whole trace. */
  function Misses(tr: Trace): nat
  {
    if tr == [] then 0
    else
      var before, last := tr[..|tr| - 1], tr[|tr| - 1];
      Misses(before) + (if Predicted(before, last.pc) != last.taken then 1 else 0)
  }

  class Predictor {
    const bitsat: array<int>

    /** The table is the one that the trace tr leads to. */
    ghost predicate Reflects(tr: Trace)
      reads bitsat
    {
      && bitsat.Length == ENTRIES
      && forall k :: 0 <= k < ENTRIES ==> bitsat[k] == Counter(SubTrace(tr, k))
    }

    constructor ()
      ensures Reflects([])
      ensures fresh(bitsat)
    {
      bitsat := new int[ENTRIES];
      new;
      var i := 0;
      while i < 4096
        invariant 0 <= i <= 4096
        invariant forall k :: 0 <= k < i ==> bitsat[k] == 1
      {
        bitsat[i] := 1;
        i := i + 1;
      }
    }

    method GetPrediction(pc: Pc, ghost tr: Trace) returns (taken: bool)
      requires Reflects(tr)
      ensures taken == Predicted(tr, pc)
    {
      var index := pc % 4096;
      if bitsat[index] == 0 || bitsat[index] == 1 {
        return false;
      } else {
        return true;
      }
    }

    method UpdatePredictor(pc: Pc, resolveDir: bool, ghost tr: Trace)
      requires Reflects(tr)
      modifies bitsat
      ensures bitsat[..] == old(bitsat[..])[Index(pc) := Bump(old(bitsat[Index(pc)]), resolveDir, 3)]
      ensures Reflects(tr + [Branch(pc, resolveDir)])
    {
      hide Counter, SubTrace, Outcomes;
      var index := pc % 4096;
      var state := bitsat[index];
      if !resolveDir {
        if state != 0 {
          bitsat[index] := bitsat[index] - 1;
        }
      } else {
        if state != 3 {
          bitsat[index] := bitsat[index] + 1;
        }
      }
      forall k | 0 <= k < ENTRIES
        ensures Counter(SubTrace(tr + [Branch(pc, resolveDir)], k)) ==
                if k == Index(pc) then Bump(Counter(SubTrace(tr, k)), resolveDir, 3) else Counter(SubTrace(tr, k))
      {
        CounterStep(tr, Branch(pc, resolveDir), k);
      }
    }
  }

  /** A branch moves the counter of its own entry and no other. */
  lemma CounterStep(tr: Trace, b: Branch, k: nat)
    ensures SubTrace(tr + [b], k) == if k == Index(b.pc) then SubTrace(tr, k) + [b.taken] else SubTrace(tr, k)
    ensures Counter(SubTrace(tr + [b], k)) ==
            if k == Index(b.pc) then Bump(Counter(SubTrace(tr, k)), b.taken, 3) else Counter(SubTrace(tr, k))
  {
    SplitLast(tr, b);
    SplitLastOutcome(SubTrace(tr, k), b.taken);
  }

  // ---- The amortised bound -------------------------------------------------------------

  /** How far one entry's counter is above the not-taken states: what not-taken misses consume. */
  function Above(c: int): int { if c >= 2 then c - 1 else 0 }

  /** How far it is below the taken states: what taken misses consume. */
  function Below(c: int): int { if c <= 1 then 2 - c else 0 }

  /** Mispredictions plus the slack left, against each minority direction. */
  lemma {:induction false} EntryAmortised(os: seq<bool>)
    ensures EntryMisses(os) + Above(Counter(os)) <= 2 * Count(os, true)
    ensures EntryMisses(os) + Below(Counter(os)) <= 2 * Count(os, false) + 1
  {
    if os != [] {
      EntryAmortised(os[..|os| - 1]);
    }
  }

  /** The bound of one entry, in terms of how often it saw each direction. */
  function EntryBound(os: seq<bool>): int
  {
    Min(2 * Count(os, true), 2 * Count(os, false) + 1)
  }

  /** The outcomes taken, not taken, taken, ... of length n. */
  function Alternating(n: nat): (os: seq<bool>)
    ensures |os| == n
  {
    if n == 0 then [] else Alternating(n - 1) + [n % 2 == 1]
  }

  /** An alternating branch attains the bound at every length: no smaller bound holds. */
  lemma {:induction false} EntryBoundIsTight(n: nat)
    ensures EntryMisses(Alternating(n)) == n == EntryBound(Alternating(n))
  {
    AlternatingState(n);
  }

  lemma EmptyEntry()
    ensures EntryMisses([]) == 0 && Counter([]) == 1 && Count([], true) == Count([], false) == 0
  {
  }

  /** What one more outcome does to an entry and to the counts. */
  lemma OutcomeStep(os: seq<bool>, o: bool)
    ensures EntryMisses(os + [o]) == EntryMisses(os) + if (Counter(os) >= 2) != o then 1 else 0
    ensures Counter(os + [o]) == Bump(Counter(os), o, 3)
    ensures Count(os + [o], o) == Count(os, o) + 1 && Count(os + [o], !o) == Count(os, !o)
  {
    SplitLastOutcome(os, o);
  }

  lemma {:induction false} AlternatingState(n: nat)
    ensures EntryMisses(Alternating(n)) == n
    ensures Counter(Alternating(n)) == 1 + n % 2
    ensures Count(Alternating(n), true) == (n + 1) / 2 && Count(Alternating(n), false) == n / 2
  {
    hide EntryMisses, Counter, Count;
    EmptyEntry();
    if n > 0 {
      AlternatingState(n - 1);
      OutcomeStep(Alternating(n - 1), n % 2 == 1);
    }
  }

  // ---- Whole traces --------------------------------------------------------------------

  function SumMisses(tr: Trace, n: nat): nat
  {
    if n == 0 then 0 else SumMisses(tr, n - 1) + EntryMisses(SubTrace(tr, n - 1))
  }

  function SumBounds(tr: Trace, n: nat): int
  {
    if n == 0 then 0 else SumBounds(tr, n - 1) + EntryBound(SubTrace(tr, n - 1))
  }

  lemma EntryMissesStep(tr: Trace, b: Branch, k: nat)
    ensures EntryMisses(SubTrace(tr + [b], k)) ==
            EntryMisses(SubTrace(tr, k)) +
            if k == Index(b.pc) && Predicted(tr, b.pc) != b.taken then 1 else 0
  {
    CounterStep(tr, b, k);
    OutcomeStep(SubTrace(tr, k), b.taken);
    hide SubTrace, Counter, EntryMisses;
  }

  lemma {:induction false} SumMissesStep(tr: Trace, b: Branch, n: nat)
    ensures SumMisses(tr + [b], n) ==
            SumMisses(tr, n) +
            if Index(b.pc) < n && Predicted(tr, b.pc) != b.taken then 1 else 0
  {
    hide EntryMisses, SubTrace, Predicted, Counter, Outcomes;
    if n > 0 {
      SumMissesStep(tr, b, n - 1);
      EntryMissesStep(tr, b, n - 1);
    }
  }

  /** The loop's mispredictions are those of the 4096 sub-traces, each on its own. */
  lemma {:induction false} MissesSplitByEntry(tr: Trace)
    ensures Misses(tr) == SumMisses(tr, ENTRIES)
  {
    if tr == [] {
      EmptySum(ENTRIES);
    } else {
      var before, last := tr[..|tr| - 1], tr[|tr| - 1];
      MissesSplitByEntry(before);
      SumMissesStep(before, last, ENTRIES);
      assert before + [last] == tr;
    }
  }

  lemma {:induction false} EmptySum(n: nat)
    ensures SumMisses([], n) == 0
  {
    if n > 0 {
      EmptySum(n - 1);
    }
  }

  lemma {:induction false} SumsWithinBounds(tr: Trace, n: nat)
    ensures SumMisses(tr, n) <= SumBounds(tr, n)
  {
    if n > 0 {
      SumsWithinBounds(tr, n - 1);
      EntryAmortised(SubTrace(tr, n - 1));
    }
  }

  /** Over any trace, mispredictions stay within the sum of the per-entry bounds. */
  lemma {:induction false} AmortisedBound(tr: Trace)
    ensures Misses(tr) <= SumBounds(tr, ENTRIES)
  {
    MissesSplitByEntry(tr);
    SumsWithinBounds(tr, ENTRIES);
  }

  /** Entries are isolated: records whose PC differs modulo 4096 never influence a prediction. */
  lemma {:induction false} PredictionDependsOnSubTrace(tr: Trace, tr': Trace, pc: Pc)
    requires Congruent(tr, pc) == Congruent(tr', pc)
    ensures Predicted(tr, pc) == Predicted(tr', pc)
  {
    CongruentOutcomes(tr, pc);
    CongruentOutcomes(tr', pc);
  }

  /** The outcomes of the branches whose PC is equal to pc modulo 4096. */
  function Seen(tr: Trace, pc: Pc): seq<bool>
  {
    if tr == [] then []
    else
      var rest, last := Seen(tr[..|tr| - 1], pc), tr[|tr| - 1];
      if last.pc % 4096 == pc % 4096 then rest + [last.taken] else rest
  }

  lemma {:induction false} SubTraceIsSeen(tr: Trace, pc: Pc)
    ensures SubTrace(tr, Index(pc)) == Seen(tr, pc)
  {
    if tr != [] {
      SubTraceIsSeen(tr[..|tr| - 1], pc);
    }
  }

  lemma {:induction false} CounterSaturates(os: seq<bool>)
    ensures Counter(os) == Saturating(os, 1, 3)
  {
    if os != [] {
      CounterSaturates(os[..|os| - 1]);
    }
  }

  /** After any trace the prediction for pc is that of a two-bit counter which starts at 1 and has seen those
      outcomes. */
  lemma PredictionClosedForm(tr: Trace, pc: Pc)
    ensures Predicted(tr, pc) <==> Saturating(Seen(tr, pc), 1, 3) >= 2
  {
    SubTraceIsSeen(tr, pc);
    CounterSaturates(Seen(tr, pc));
  }

  /** The records of tr whose PC is equal to pc modulo 4096. */
  function Congruent(tr: Trace, pc: Pc): Trace
  {
    if tr == [] then []
    else
      var rest, last := Congruent(tr[..|tr| - 1], pc), tr[|tr| - 1];
      if last.pc % 4096 == pc % 4096 then rest + [last] else rest
  }

  lemma {:induction false} CongruentOutcomes(tr: Trace, pc: Pc)
    ensures SubTrace(tr, Index(pc)) == SubTrace(Congruent(tr, pc), Index(pc))
  {
    if tr != [] {
      var rest, last := tr[..|tr| - 1], tr[|tr| - 1];
      CongruentOutcomes(rest, pc);
      if Index(last.pc) == Index(pc) {
        CounterStep(Congruent(rest, pc), last, Index(pc));
      }
    }
  }
}
