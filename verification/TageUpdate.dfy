// What one round of the TAGE predictor does to its tables, case by case, written out.
module TageUpdate {
  import opened Branches
  import opened FoldedHistory
  import opened Tage
  import opened TageProperties

  /** Entry i of table t, counted from 1. */
  function At(ts: Tables, t: nat, i: nat): Entry
    requires TablesShape(ts) && 1 <= t <= 7 && i < 1024
  {
    ts[t - 1][i]
  }

  /** A counter of the provider that this outcome moves to a middle state, with the useful bit clear. */
  predicate JustMiddle(e: Entry, taken: bool)
  {
    e.useful == 0 && if taken then e.pred == 2 || e.pred == 3 else e.pred == 4 || e.pred == 5
  }

  /** No new entry is called for: the prediction was right, there is no table above the provider, or the provider
      has only just become weak. */
  predicate Quiet(s: State, pc: Pc, taken: bool)
    requires s.Shape()
  {
    var p := ProviderOf(s, pc);
    p.pred == taken || p.comp == 7 || (p.comp > 0 && JustMiddle(s.tables[p.comp - 1][p.index], taken))
  }

  /** The useful counter runs out: the provider was wrong and its alternative right, once too often. */
  predicate Ages(s: State, pc: Pc, taken: bool)
    requires s.Shape()
  {
    var p := ProviderOf(s, pc);
    p.comp > 0 && p.pred != taken && p.alt == taken && s.useCounter == 1
  }

  /** The tables above the provider whose selected entry is not useful. */
  function FreeAbove(s: State, pc: Pc): set<nat>
    requires s.Shape()
  {
    set u: nat | ProviderOf(s, pc).comp < u <= 7 && 1 <= u <= 7
                 && s.tables[u - 1][Index(s.ghr, u, pc)].useful == 0
  }

  lemma QuietMeans(s: State, pc: Pc, taken: bool)
    requires s.Shape() && InRange(s)
    ensures Quiet(s, pc, taken) <==> !WantsAllocation(s.tables, ProviderOf(s, pc), taken)
  {
    hide ProviderOf;
    var p := ProviderOf(s, pc);
    if p.comp > 0 {
      assert EntryInRange(s.tables[p.comp - 1][p.index]);
    }
  }

  lemma AgesMeans(s: State, pc: Pc, taken: bool)
    requires s.Shape() && InRange(s)
    ensures Ages(s, pc, taken) <==> TrainedCounter(s.useCounter, ProviderOf(s, pc), taken) == 0
  {
    hide ProviderOf;
  }

  /** The useful counter counts the rounds in which provider and alternative disagreed: up to 255 when the provider
      was right, down when it was wrong, and from 1 back to 128. */
  lemma UseCounterStep(s: State, pc: Pc, taken: bool)
    requires s.Shape() && InRange(s)
    ensures var p := ProviderOf(s, pc);
            Step(s, Branch(pc, taken)).useCounter ==
            if p.comp == 0 || p.pred == p.alt then s.useCounter
            else if p.pred == taken then (if s.useCounter < 255 then s.useCounter + 1 else 255)
            else if s.useCounter == 1 then 128 else s.useCounter - 1
  {
    hide ProviderOf, LearnedTables, LearnedProbability;
  }

  /** An entry once ageing has had its turn. */
  function Aged(e: Entry, ages: bool): Entry
  {
    if ages then Entry(e.pred, e.tag, 0) else e
  }

  lemma StepAged(s: State, pc: Pc, taken: bool, t: nat, i: nat)
    requires s.Shape() && InRange(s) && 1 <= t <= 7 && i < 1024
    ensures At(Step(s, Branch(pc, taken)).tables, t, i) ==
            Aged(At(LearnedTables(s, ProviderOf(s, pc), pc, taken), t, i), Ages(s, pc, taken))
  {
    hide ProviderOf, LearnedTables, LearnedProbability, TrainedCounter, Ages, InRange;
    AgesMeans(s, pc, taken);
  }

  /** The provider's entry after training: its counter takes one saturating step, and its useful bit says whether it
      was right where the alternative differed. */
  function TrainedEntry(e: Entry, p: Provider, taken: bool): Entry
  {
    Entry(if taken then (if e.pred < 7 then e.pred + 1 else 7) else (if e.pred > 0 then e.pred - 1 else 0), e.tag,
          if p.pred == p.alt then e.useful else if p.pred == taken then 1 else 0)
  }

  lemma TrainedTable(s: State, pc: Pc, taken: bool, t: nat, i: nat)
    requires s.Shape() && InRange(s) && 1 <= t <= 7 && i < 1024
    ensures var p := ProviderOf(s, pc);
            At(TrainedTables(s.tables, p, taken), t, i) ==
            if t == p.comp && i == p.index then TrainedEntry(At(s.tables, t, i), p, taken) else At(s.tables, t, i)
  {
    hide ProviderOf;
    assert EntryInRange(At(s.tables, t, i));
  }

  lemma QuietLearned(s: State, pc: Pc, taken: bool, t: nat, i: nat)
    requires s.Shape() && InRange(s) && 1 <= t <= 7 && i < 1024 && Quiet(s, pc, taken)
    ensures var p := ProviderOf(s, pc);
            At(LearnedTables(s, p, pc, taken), t, i) ==
            if t == p.comp && i == p.index then TrainedEntry(At(s.tables, t, i), p, taken) else At(s.tables, t, i)
  {
    hide ProviderOf, TrainedTables, TrainedEntry, InRange, Quiet, WantsAllocation;
    QuietMeans(s, pc, taken);
    TrainedTable(s, pc, taken, t, i);
  }

  /** A quiet round trains the provider's entry and leaves every other one alone, but for ageing. */
  lemma QuietStep(s: State, pc: Pc, taken: bool, t: nat, i: nat)
    requires s.Shape() && InRange(s) && 1 <= t <= 7 && i < 1024 && Quiet(s, pc, taken)
    ensures var p, e := ProviderOf(s, pc), At(s.tables, t, i);
            At(Step(s, Branch(pc, taken)).tables, t, i) ==
            Aged(if t == p.comp && i == p.index then TrainedEntry(e, p, taken) else e, Ages(s, pc, taken))
    ensures Step(s, Branch(pc, taken)).probability == s.probability
  {
    hide ProviderOf, LearnedTables, TrainedEntry, InRange, Quiet, Step, Ages, Aged;
    StepAged(s, pc, taken, t, i);
    QuietLearned(s, pc, taken, t, i);
    ProbabilityStep(s, pc, taken);
    QuietMeans(s, pc, taken);
  }

  lemma ProbabilityStep(s: State, pc: Pc, taken: bool)
    requires s.Shape()
    ensures Step(s, Branch(pc, taken)).probability == LearnedProbability(s, ProviderOf(s, pc), pc, taken)
  {
    hide ProviderOf, LearnedTables, LearnedProbability, TrainedCounter;
  }

  // ---- Rounds that call for a new entry ---------------------------------------------------------------

  /** Training changes no table above the provider, so the free tables are those of before. */
  lemma FreeTables(s: State, pc: Pc, taken: bool, u: nat)
    requires s.Shape() && ProviderOf(s, pc).comp < u <= 7
    ensures var ts := TrainedTables(s.tables, ProviderOf(s, pc), taken);
            u in FreeAbove(s, pc) <==> Selected(ts, s.ghr, pc, u).useful == 0
  {
    hide ProviderOf, Index, TrainedTables;
    TrainingIsLocal(s.tables, ProviderOf(s, pc), taken);
  }

  /** The candidates are the two lowest free tables. */
  lemma CandidatesAreFree(s: State, pc: Pc, taken: bool)
    requires s.Shape() && ProviderOf(s, pc).comp < 7
    ensures var (first, second) := Candidates(TrainedTables(s.tables, ProviderOf(s, pc), taken), s.ghr, pc,
                                              ProviderOf(s, pc).comp);
            var free := FreeAbove(s, pc);
            && (first == 8 <==> free == {})
            && (first <= 7 ==> first in free && forall u :: u in free ==> first <= u)
            && (first <= 7 ==> (second == 8 <==> free == {first}))
            && (first <= 7 && second <= 7 ==>
                  second in free && first < second && forall u :: u in free && u != first ==> second <= u)
  {
    hide ProviderOf, Index, TrainedTables, FirstFree, FreeAbove, Selected;
    var ts, comp, free := TrainedTables(s.tables, ProviderOf(s, pc), taken), ProviderOf(s, pc).comp, FreeAbove(s, pc);
    FreeRange(s, pc);
    forall u: nat | comp < u <= 7
      ensures u in free <==> Selected(ts, s.ghr, pc, u).useful == 0
    {
      FreeTables(s, pc, taken, u);
    }
    var (first, second) := Candidates(ts, s.ghr, pc, comp);
    assert first <= 7 ==> first in free;
    assert forall u :: u in free ==> first <= u;
    if first <= 7 && second == 8 {
      assert free == {first};
    }
  }

  lemma FreeRange(s: State, pc: Pc)
    requires s.Shape()
    ensures forall u :: u in FreeAbove(s, pc) ==> ProviderOf(s, pc).comp < u <= 7
  {
    hide ProviderOf, Index;
  }

  /** Nothing is free: the useful bits of all tables above the provider are cleared. */
  lemma FailedStep(s: State, pc: Pc, taken: bool, t: nat, i: nat)
    requires s.Shape() && InRange(s) && 1 <= t <= 7 && i < 1024 && !Quiet(s, pc, taken) && FreeAbove(s, pc) == {}
    ensures var p, e := ProviderOf(s, pc), At(s.tables, t, i);
            At(Step(s, Branch(pc, taken)).tables, t, i) ==
            if t > p.comp then Entry(e.pred, e.tag, 0)
            else Aged(if t == p.comp && i == p.index then TrainedEntry(e, p, taken) else e, Ages(s, pc, taken))
    ensures Step(s, Branch(pc, taken)).probability == s.probability
  {
    hide ProviderOf, TrainedTables, TrainedEntry, InRange, Quiet, Step, Ages, WantsAllocation, Candidates, FreeAbove;
    QuietMeans(s, pc, taken);
    StepAged(s, pc, taken, t, i);
    TrainedTable(s, pc, taken, t, i);
    ProbabilityStep(s, pc, taken);
    NotQuiet(s, pc, taken);
    CandidatesAreFree(s, pc, taken);
  }

  lemma NotQuiet(s: State, pc: Pc, taken: bool)
    requires s.Shape() && !Quiet(s, pc, taken)
    ensures ProviderOf(s, pc).comp < 7
  {
    hide ProviderOf;
  }

  /** The table that the new entry goes to: the lowest free one; but when there is a second one, every other time
      that one. */
  predicate GoesTo(s: State, pc: Pc, u: nat)
    requires s.Shape()
  {
    var free := FreeAbove(s, pc);
    && u in free
    && if s.probability < 2 || |free| == 1 then forall v :: v in free ==> u <= v
       else exists first :: first in free && first < u && forall v :: v in free && v != first ==> first < v && u <= v
  }

  /** Something is free: one new entry, weak in the direction of the outcome, with the tag of the PC and not useful,
      in place of the selected entry of that table. */
  lemma AllocatingStep(s: State, pc: Pc, taken: bool) returns (u: nat)
    requires s.Shape() && InRange(s) && !Quiet(s, pc, taken) && FreeAbove(s, pc) != {}
    ensures ProviderOf(s, pc).comp < u <= 7 && GoesTo(s, pc, u)
    ensures forall t, i :: 1 <= t <= 7 && 0 <= i < 1024 ==>
              var p, e := ProviderOf(s, pc), At(s.tables, t, i);
              At(Step(s, Branch(pc, taken)).tables, t, i) ==
              Aged(if t == u && i == Index(s.ghr, u, pc) then Entry(if taken then 4 else 3, Tag(s.ghr, u, pc), 0)
                   else if t == p.comp && i == p.index then TrainedEntry(e, p, taken) else e, Ages(s, pc, taken))
    ensures Step(s, Branch(pc, taken)).probability ==
            if s.probability < 2 || |FreeAbove(s, pc)| == 1 then s.probability + 1 else 1
  {
    hide ProviderOf, InRange, Quiet, Step, Ages, Aged, Index, Tag, TrainedEntry, GoesTo, FreeAbove, LearnedTables, At;
    NotQuiet(s, pc, taken);
    u := TargetIsFree(s, pc, taken);
    forall t, i | 1 <= t <= 7 && 0 <= i < 1024
      ensures var p, e := ProviderOf(s, pc), At(s.tables, t, i);
              At(Step(s, Branch(pc, taken)).tables, t, i) ==
              Aged(if t == u && i == Index(s.ghr, u, pc) then Entry(if taken then 4 else 3, Tag(s.ghr, u, pc), 0)
                   else if t == p.comp && i == p.index then TrainedEntry(e, p, taken) else e, Ages(s, pc, taken))
    {
      StepAged(s, pc, taken, t, i);
      AllocatedTable(s, pc, taken, u, t, i);
    }
  }

  lemma TargetIsFree(s: State, pc: Pc, taken: bool) returns (u: nat)
    requires s.Shape() && InRange(s) && !Quiet(s, pc, taken) && FreeAbove(s, pc) != {}
    requires ProviderOf(s, pc).comp < 7
    ensures ProviderOf(s, pc).comp < u <= 7 && GoesTo(s, pc, u)
    ensures u == Target(TrainedTables(s.tables, ProviderOf(s, pc), taken), s.ghr, pc, ProviderOf(s, pc).comp,
                        s.probability)
    ensures Step(s, Branch(pc, taken)).probability ==
            if s.probability < 2 || |FreeAbove(s, pc)| == 1 then s.probability + 1 else 1
  {
    hide ProviderOf, TrainedTables, InRange, Quiet, Step, WantsAllocation, Candidates, FreeAbove;
    QuietMeans(s, pc, taken);
    ProbabilityStep(s, pc, taken);
    CandidatesAreFree(s, pc, taken);
    FreeRange(s, pc);
    var free := FreeAbove(s, pc);
    var (first, second) := Candidates(TrainedTables(s.tables, ProviderOf(s, pc), taken), s.ghr, pc,
                                      ProviderOf(s, pc).comp);
    u := if s.probability < 2 || second == 8 then first else second;
    OneFree(free, first, second);
  }

  lemma OneFree(free: set<nat>, first: nat, second: nat)
    requires first in free && (second == 8 <==> free == {first})
    requires second != 8 ==> second in free && first < second
    ensures |free| == 1 <==> second == 8
  {
    if second != 8 {
      assert {first, second} <= free;
      assert |{first, second}| == 2;
      Subset({first, second}, free);
    }
  }

  lemma Subset(x: set<nat>, y: set<nat>)
    requires x <= y
    ensures |x| <= |y|
  {
    assert y == x + (y - x);
  }

  lemma AllocatedTable(s: State, pc: Pc, taken: bool, u: nat, t: nat, i: nat)
    requires s.Shape() && InRange(s) && !Quiet(s, pc, taken) && 1 <= t <= 7 && i < 1024
    requires ProviderOf(s, pc).comp < u <= 7
    requires u == Target(TrainedTables(s.tables, ProviderOf(s, pc), taken), s.ghr, pc, ProviderOf(s, pc).comp,
                         s.probability)
    ensures var p, e := ProviderOf(s, pc), At(s.tables, t, i);
            At(LearnedTables(s, p, pc, taken), t, i) ==
            if t == u && i == Index(s.ghr, u, pc) then Entry(if taken then 4 else 3, Tag(s.ghr, u, pc), 0)
            else if t == p.comp && i == p.index then TrainedEntry(e, p, taken) else e
  {
    hide ProviderOf, TrainedTables, TrainedEntry, InRange, Quiet, WantsAllocation, Target, Index, Tag;
    QuietMeans(s, pc, taken);
    TrainedTable(s, pc, taken, t, i);
  }

  // ---- What the round is for ---------------------------------------------------------------------------

  /** A right prediction, a provider in the last table and one that has only just become weak change no tag, and
      clear no useful bit above the provider unless the useful counter runs out. */
  lemma QuietKeeps(s: State, pc: Pc, taken: bool)
    requires s.Shape() && InRange(s) && Quiet(s, pc, taken)
    ensures forall t, i :: 1 <= t <= 7 && 0 <= i < 1024 ==>
              At(Step(s, Branch(pc, taken)).tables, t, i).tag == At(s.tables, t, i).tag
    ensures !Ages(s, pc, taken) ==>
              forall t, i :: ProviderOf(s, pc).comp < t <= 7 && 0 <= i < 1024 ==>
                At(Step(s, Branch(pc, taken)).tables, t, i) == At(s.tables, t, i)
  {
    hide ProviderOf, InRange, Quiet, Step, Ages;
    forall t, i | 1 <= t <= 7 && 0 <= i < 1024
      ensures var p, e := ProviderOf(s, pc), At(s.tables, t, i);
              At(Step(s, Branch(pc, taken)).tables, t, i) ==
              Aged(if t == p.comp && i == p.index then TrainedEntry(e, p, taken) else e, Ages(s, pc, taken))
    {
      QuietStep(s, pc, taken, t, i);
    }
  }

  /** Every other round ends with a table above the provider that holds an entry for the PC and predicts the outcome,
      as long as the history has not moved; or all selected entries above the provider were useful, and no
      entry there is any more. */
  lemma WrongIsLearned(s: State, pc: Pc, taken: bool)
    requires s.Shape() && InRange(s) && !Quiet(s, pc, taken)
    ensures var p, s' := ProviderOf(s, pc), UnshiftedStep(s, Branch(pc, taken));
            || (p.comp < ProviderOf(s', pc).comp && ProviderOf(s', pc).pred == taken)
            || ((forall u :: p.comp < u <= 7 ==> s.tables[u - 1][Index(s.ghr, u, pc)].useful != 0)
                && forall t, i :: p.comp < t <= 7 && 0 <= i < 1024 ==> At(s'.tables, t, i).useful == 0)
  {
    hide ProviderOf, InRange, Quiet, Step, UnshiftedStep, Index, WantsAllocation, TrainedTables, Candidates, FreeAbove;
    QuietMeans(s, pc, taken);
    NotQuiet(s, pc, taken);
    var p := ProviderOf(s, pc);
    if FreeAbove(s, pc) == {} {
      NoneFree(s, pc);
      forall t, i | p.comp < t <= 7 && 0 <= i < 1024
        ensures At(Step(s, Branch(pc, taken)).tables, t, i).useful == 0
      {
        FailedStep(s, pc, taken, t, i);
      }
    } else {
      CandidatesAreFree(s, pc, taken);
      AllocatedEntryProvides(s, pc, taken);
    }
  }

  lemma NoneFree(s: State, pc: Pc)
    requires s.Shape() && FreeAbove(s, pc) == {}
    ensures forall u :: ProviderOf(s, pc).comp < u <= 7 ==> s.tables[u - 1][Index(s.ghr, u, pc)].useful != 0
  {
    hide ProviderOf, Index;
    forall u | ProviderOf(s, pc).comp < u <= 7
      ensures s.tables[u - 1][Index(s.ghr, u, pc)].useful != 0
    {
      assert u !in FreeAbove(s, pc);
    }
  }

  // ---- Where a run starts ------------------------------------------------------------------------------

  /** Before the first branch every counter is just below the middle; no entry has a tag or is useful, the useful
      counter is at half its range, and the alternation has not begun. */
  lemma StartMeans()
    ensures var s := After([]);
            && (forall t, i :: 1 <= t <= 7 && 0 <= i < 1024 ==> At(s.tables, t, i) == Entry(3, 0, 0))
            && (forall h :: 0 <= h < 1024 ==> s.t0phrt[h] == 0)
            && (forall n, q :: 0 <= n < 8 && 0 <= q < 512 ==> s.t0pht[n][q] == 3)
            && (forall j :: 0 <= j < 512 ==> !s.ghr[j])
            && s.useCounter == 128 && s.probability == 0
  {
  }

  /** So the first answer is not taken, whether by an entry with the right tag or by the base predictor. */
  lemma StartsCold(pc: Pc)
    ensures !Predicted(After([]), pc)
  {
    hide Predicted, HighestMatch, Index, After, T0Predicted;
    StartMeans();
    StartBase(pc);
    PredictionRule(After([]), pc);
    var s := After([]);
    var c := HighestMatch(s.tables, s.ghr, pc, 7);
    if c > 0 {
      assert Selected(s.tables, s.ghr, pc, c) == At(s.tables, c, Index(s.ghr, c, pc));
    }
  }

  lemma StartBase(pc: Pc)
    ensures !T0Predicted(After([]), pc)
  {
    hide After;
    StartMeans();
  }
}
