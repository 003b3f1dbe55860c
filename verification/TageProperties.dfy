// What holds of the TAGE predictor on every run.
module TageProperties {
  import opened Branches
  import opened FoldedHistory
  import opened Tage

  // ---- The prediction rule -----------------------------------------------------------------

  /** The alternative prediction is never that of the next longest match: with a second tagged match
      it repeats the provider. So the base predictor answers exactly when no table matches, or one
      table matches and is weak; in every other case the longest match answers. */
  lemma PredictionRule(s: State, pc: Pc)
    requires s.Shape()
    ensures var c := HighestMatch(s.tables, s.ghr, pc, TABLES);
            Predicted(s, pc) ==
            if c == 0 then T0Predicted(s, pc)
            else
              var e := Selected(s.tables, s.ghr, pc, c);
              if (e.pred == 3 || e.pred == 4 || e.useful == 0)
                 && (forall u :: 1 <= u < c ==> !Matches(s.tables, s.ghr, pc, u))
              then T0Predicted(s, pc)
              else e.pred >= 4
  {
    hide Matches, T0Predicted, Index;
    var c := HighestMatch(s.tables, s.ghr, pc, TABLES);
    if c != 0 {
      NoMatchAboveHighest(s.tables, s.ghr, pc, c - 1);
      var lower := HighestMatch(s.tables, s.ghr, pc, c - 1);
      if lower > 0 {
        assert 1 <= lower < c && Matches(s.tables, s.ghr, pc, lower);
      }
    }
  }

  // ---- The ranges of every field -------------------------------------------------------------

  predicate EntryInRange(e: Entry)
  {
    0 <= e.pred <= 7 && 0 <= e.tag <= 1023 && 0 <= e.useful <= 1
  }

  predicate TablesInRange(ts: Tables)
    requires TablesShape(ts)
  {
    forall t, i :: 0 <= t < TABLES && 0 <= i < ENTRIES ==> EntryInRange(ts[t][i])
  }

  predicate InRange(s: State)
    requires s.Shape()
  {
    && TablesInRange(s.tables)
    && 1 <= s.useCounter <= 255
    && 0 <= s.probability
    && forall t, q :: 0 <= t < T0_TABLES && 0 <= q < T0_PATTERNS ==> 0 <= s.t0pht[t][q] <= 7
  }

  lemma PutInRange(ts: Tables, t: nat, i: int, e: Entry)
    requires TablesShape(ts) && TablesInRange(ts) && EntryInRange(e)
    requires 1 <= t <= TABLES && 0 <= i < ENTRIES
    ensures TablesInRange(Put(ts, t, i, e))
  {
  }

  lemma ClearedInRange(ts: Tables, comp: nat)
    requires TablesShape(ts) && TablesInRange(ts)
    ensures TablesInRange(ClearedAbove(ts, comp))
  {
  }

  lemma LearnedInRange(s: State, p: Provider, pc: Pc, taken: bool)
    requires s.Shape() && ProviderOk(p) && TablesInRange(s.tables)
    ensures TablesInRange(LearnedTables(s, p, pc, taken))
  {
    var ts := TrainedTables(s.tables, p, taken);
    if p.comp != 0 {
      var e := s.tables[p.comp - 1][p.index];
      assert EntryInRange(e);
      PutInRange(s.tables, p.comp, p.index, Entry(Bump(e.pred, taken, 7), e.tag, TrainedUseful(e, p, taken)));
    }
    if WantsAllocation(s.tables, p, taken) {
      var t := Target(ts, s.ghr, pc, p.comp, s.probability);
      if t == TABLES + 1 {
        ClearedInRange(ts, p.comp);
      } else {
        PutInRange(ts, t, Index(s.ghr, t, pc), NewEntry(s.ghr, t, pc, taken));
      }
    }
  }

  /** Whatever provider a prediction left behind, the update keeps every field in range. */
  lemma UpdateKeepsRange(s: State, p: Provider, pc: Pc, taken: bool)
    requires s.Shape() && ProviderOk(p) && InRange(s)
    ensures InRange(Updated(s, p, pc, taken))
  {
    LearnedInRange(s, p, pc, taken);
    ClearedInRange(LearnedTables(s, p, pc, taken), 0);
    var r := Updated(s, p, pc, taken);
    forall t, q | 0 <= t < T0_TABLES && 0 <= q < T0_PATTERNS
      ensures 0 <= r.t0pht[t][q] <= 7
    {
      assert 0 <= s.t0pht[t][q] <= 7;
    }
  }

  lemma {:induction false} RunKeepsRange(tr: Trace)
    ensures InRange(After(tr))
  {
    if tr != [] {
      var before, last := tr[..|tr| - 1], tr[|tr| - 1];
      RunKeepsRange(before);
      UpdateKeepsRange(After(before), ProviderOf(After(before), last.pc), last.pc, last.taken);
    }
  }

  // ---- Allocation ------------------------------------------------------------------------------

  predicate Allocates(s: State, pc: Pc, taken: bool)
    requires s.Shape()
  {
    var p := ProviderOf(s, pc);
    WantsAllocation(s.tables, p, taken) && AllocationTarget(s, pc, taken) <= TABLES
  }

  /** The table an update would allocate in: 8 when every selected entry above the provider is useful. */
  function AllocationTarget(s: State, pc: Pc, taken: bool): (t: nat)
    requires s.Shape() && WantsAllocation(s.tables, ProviderOf(s, pc), taken)
    ensures ProviderOf(s, pc).comp < t <= TABLES + 1
  {
    var p := ProviderOf(s, pc);
    Target(TrainedTables(s.tables, p, taken), s.ghr, pc, p.comp, s.probability)
  }

  predicate SameTags(ts: Tables, ts': Tables)
    requires TablesShape(ts) && TablesShape(ts')
  {
    forall t, i :: 0 <= t < TABLES && 0 <= i < ENTRIES ==> ts[t][i].tag == ts'[t][i].tag
  }

  /** Training touches neither tags nor the entries of other tables. */
  lemma TrainingIsLocal(ts: Tables, p: Provider, taken: bool)
    requires TablesShape(ts) && ProviderOk(p)
    ensures SameTags(ts, TrainedTables(ts, p, taken))
    ensures forall t :: p.comp <= t < TABLES ==> TrainedTables(ts, p, taken)[t] == ts[t]
  {
  }

  /** An update that allocates rewrites the tag of one entry: the selected one of a table above the
      provider, whose useful bit was clear. Every other tag stays. */
  lemma AllocationRewritesOneTag(s: State, pc: Pc, taken: bool)
    requires s.Shape() && Allocates(s, pc, taken)
    ensures var p, t := ProviderOf(s, pc), AllocationTarget(s, pc, taken);
            && p.comp < t <= TABLES
            && Selected(s.tables, s.ghr, pc, t).useful == 0
            && Selected(s.tables, s.ghr, pc, t).tag != Tag(s.ghr, t, pc)
            && SameTags(Step(s, Branch(pc, taken)).tables,
                        Put(s.tables, t, Index(s.ghr, t, pc), NewEntry(s.ghr, t, pc, taken)))
  {
    var p := ProviderOf(s, pc);
    var t := AllocationTarget(s, pc, taken);
    TrainingIsLocal(s.tables, p, taken);
    AgeingKeepsTags(s, Branch(pc, taken));
    NoMatchAboveProvider(s, pc, t);
    hide Index, Tag, HighestMatch, ProviderOf, TrainedTables;
    var e := NewEntry(s.ghr, t, pc, taken);
    PutKeepsOtherTags(s.tables, TrainedTables(s.tables, p, taken), t, Index(s.ghr, t, pc), e);
    hide Step, Put, NewEntry, Target;
  }

  lemma NoMatchAboveProvider(s: State, pc: Pc, t: nat)
    requires s.Shape() && ProviderOf(s, pc).comp < t <= TABLES
    ensures !Matches(s.tables, s.ghr, pc, t)
  {
    hide Matches, T0Predicted;
    NoMatchAboveHighest(s.tables, s.ghr, pc, TABLES);
  }

  lemma PutKeepsOtherTags(ts: Tables, ts': Tables, t: nat, i: int, e: Entry)
    requires TablesShape(ts) && TablesShape(ts') && SameTags(ts, ts')
    requires 1 <= t <= TABLES && 0 <= i < ENTRIES
    ensures SameTags(Put(ts', t, i, e), Put(ts, t, i, e))
  {
  }

  lemma AgeingKeepsTags(s: State, b: Branch)
    requires s.Shape()
    ensures SameTags(Step(s, b).tables, LearnedTables(s, ProviderOf(s, b.pc), b.pc, b.taken))
  {
    hide LearnedTables, ProviderOf, LearnedProbability;
  }

  /** An update that does not allocate rewrites no tag. */
  lemma OtherwiseTagsStay(s: State, pc: Pc, taken: bool)
    requires s.Shape() && !Allocates(s, pc, taken)
    ensures SameTags(Step(s, Branch(pc, taken)).tables, s.tables)
  {
    AgeingKeepsTags(s, Branch(pc, taken));
    TrainingIsLocal(s.tables, ProviderOf(s, pc), taken);
    ClearingKeepsTags(TrainedTables(s.tables, ProviderOf(s, pc), taken), ProviderOf(s, pc).comp);
    hide Step, ProviderOf, TrainedTables, Target, WantsAllocation, ClearedAbove, Put, InRange;
  }

  lemma ClearingKeepsTags(ts: Tables, comp: nat)
    requires TablesShape(ts)
    ensures SameTags(ClearedAbove(ts, comp), ts)
  {
  }

  lemma {:induction false} HighestMatchIs(ts: Tables, g: seq<bool>, pc: Pc, t: nat, m: nat)
    requires TablesShape(ts) && |g| == HISTORY_BITS && m <= t <= TABLES && m > 0
    requires Matches(ts, g, pc, m)
    requires forall u :: m < u <= t ==> !Matches(ts, g, pc, u)
    ensures HighestMatch(ts, g, pc, t) == m
  {
    if t > m {
      HighestMatchIs(ts, g, pc, t - 1, m);
    }
  }

  /** Looking the PC up again before the history moves finds exactly the new entry, and it
      predicts the outcome that had been mispredicted. */
  lemma AllocatedEntryProvides(s: State, pc: Pc, taken: bool)
    requires s.Shape() && Allocates(s, pc, taken)
    ensures var t := AllocationTarget(s, pc, taken);
            var s' := UnshiftedStep(s, Branch(pc, taken));
            && ProviderOf(s', pc).comp == t
            && ProviderOf(s', pc).pred == taken
  {
    hide Step, UnshiftedStep, Index, Tag, AllocationTarget, ProviderOf, WantsAllocation, TrainedTables;
    AllocationRewritesOneTag(s, pc, taken);
    var t := AllocationTarget(s, pc, taken);
    var s' := UnshiftedStep(s, Branch(pc, taken));
    var i, e := Index(s.ghr, t, pc), NewEntry(s.ghr, t, pc, taken);
    NewEntryInstalled(s, pc, taken);
    forall u | t < u <= TABLES
      ensures !Matches(s'.tables, s.ghr, pc, u)
    {
      NoMatchAboveProvider(s, pc, u);
      assert Selected(s'.tables, s.ghr, pc, u).tag == Selected(Put(s.tables, t, i, e), s.ghr, pc, u).tag;
    }
    HighestMatchIs(s'.tables, s.ghr, pc, TABLES, t);
    ProviderWhenMatched(s', pc, t);
  }

  lemma ProviderWhenMatched(s: State, pc: Pc, t: nat)
    requires s.Shape() && 0 < t == HighestMatch(s.tables, s.ghr, pc, TABLES)
    ensures ProviderOf(s, pc).comp == t
    ensures ProviderOf(s, pc).pred == (Selected(s.tables, s.ghr, pc, t).pred >= 4)
  {
  }

  lemma NewEntryInstalled(s: State, pc: Pc, taken: bool)
    requires s.Shape() && Allocates(s, pc, taken)
    ensures var t := AllocationTarget(s, pc, taken);
            Selected(Step(s, Branch(pc, taken)).tables, s.ghr, pc, t) == NewEntry(s.ghr, t, pc, taken)
  {
    hide ProviderOf, TrainedTables, Target, Index, Tag;
  }

  // ---- Useful bits and failed allocations -------------------------------------------------------

  /** The update of b finds every candidate entry useful and can only clear useful bits. */
  predicate FailsToAllocate(s: State, b: Branch)
    requires s.Shape()
  {
    var p := ProviderOf(s, b.pc);
    WantsAllocation(s.tables, p, b.taken) && AllocationTarget(s, b.pc, b.taken) == TABLES + 1
  }

  /** The update of b sets a useful bit above table comp: the provider is there, it was right, it was
      the only tagged match, and the base predictor was wrong. */
  predicate EarnsUseful(s: State, b: Branch, comp: nat)
    requires s.Shape()
  {
    var c := HighestMatch(s.tables, s.ghr, b.pc, TABLES);
    && comp < c
    && (Selected(s.tables, s.ghr, b.pc, c).pred >= 4) == b.taken
    && T0Predicted(s, b.pc) != b.taken
    && forall u :: 1 <= u < c ==> !Matches(s.tables, s.ghr, b.pc, u)
  }

  predicate UsefulClearAbove(ts: Tables, comp: nat)
    requires TablesShape(ts)
  {
    forall t, i :: comp <= t < TABLES && 0 <= i < ENTRIES ==> ts[t][i].useful == 0
  }

  lemma ClearedIsClear(ts: Tables, comp: nat, c: nat)
    requires TablesShape(ts) && (c <= comp || UsefulClearAbove(ts, comp))
    ensures UsefulClearAbove(ClearedAbove(ts, c), comp)
  {
  }

  lemma FailureClears(s: State, b: Branch)
    requires s.Shape() && FailsToAllocate(s, b)
    ensures UsefulClearAbove(Step(s, b).tables, ProviderOf(s, b.pc).comp)
  {
    var p := ProviderOf(s, b.pc);
    var ts := TrainedTables(s.tables, p, b.taken);
    ClearedIsClear(ts, p.comp, p.comp);
    ClearedIsClear(ClearedAbove(ts, p.comp), p.comp, 0);
  }

  /** Only the event above sets a useful bit. */
  lemma ClearUnlessEarned(s: State, b: Branch, comp: nat)
    requires s.Shape() && UsefulClearAbove(s.tables, comp)
    requires !EarnsUseful(s, b, comp)
    ensures UsefulClearAbove(Step(s, b).tables, comp)
  {
    TrainedStaysClear(s, b, comp);
    LearnedStaysClear(s, ProviderOf(s, b.pc), b, comp);
    hide LearnedTables, ProviderOf;
    ClearedIsClear(LearnedTables(s, ProviderOf(s, b.pc), b.pc, b.taken), comp, 0);
  }

  lemma LearnedStaysClear(s: State, p: Provider, b: Branch, comp: nat)
    requires s.Shape() && ProviderOk(p)
    requires UsefulClearAbove(TrainedTables(s.tables, p, b.taken), comp)
    ensures UsefulClearAbove(LearnedTables(s, p, b.pc, b.taken), comp)
  {
    hide TrainedTables, Target, Index, Tag;
    var ts := TrainedTables(s.tables, p, b.taken);
    if WantsAllocation(s.tables, p, b.taken) {
      ClearedIsClear(ts, comp, p.comp);
    }
  }

  lemma TrainedStaysClear(s: State, b: Branch, comp: nat)
    requires s.Shape() && UsefulClearAbove(s.tables, comp)
    requires !EarnsUseful(s, b, comp)
    ensures UsefulClearAbove(TrainedTables(s.tables, ProviderOf(s, b.pc), b.taken), comp)
  {
    hide ProviderOf, EarnsUseful;
    var p := ProviderOf(s, b.pc);
    if comp < p.comp {
      OnlyEarnedIsUseful(s, b, comp);
    }
  }

  /** A provider above comp that is right and disagrees with its alternative earns its useful bit. */
  lemma OnlyEarnedIsUseful(s: State, b: Branch, comp: nat)
    requires s.Shape() && comp < ProviderOf(s, b.pc).comp && !EarnsUseful(s, b, comp)
    ensures var p := ProviderOf(s, b.pc); p.pred == p.alt || p.pred != b.taken
  {
    hide Matches, T0Predicted, Index;
    var c := ProviderOf(s, b.pc).comp;
    NoMatchAboveHighest(s.tables, s.ghr, b.pc, c - 1);
  }

  lemma ClearMeansNoFailure(s: State, b: Branch, comp: nat)
    requires s.Shape() && UsefulClearAbove(s.tables, comp)
    requires comp <= ProviderOf(s, b.pc).comp
    ensures !FailsToAllocate(s, b)
  {
    var p := ProviderOf(s, b.pc);
    if p.comp < TABLES {
      var ts := TrainedTables(s.tables, p, b.taken);
      TrainingIsLocal(s.tables, p, b.taken);
      assert Selected(ts, s.ghr, b.pc, p.comp + 1).useful == 0;
      assert FirstFree(ts, s.ghr, b.pc, p.comp + 1) == p.comp + 1;
    }
  }

  lemma AfterNext(tr: Trace, j: nat)
    requires j < |tr|
    ensures After(tr[..j + 1]) == Step(After(tr[..j]), tr[j])
  {
    hide Step;
    assert tr[..j + 1][..j] == tr[..j];
  }

  lemma {:induction false} ClearUntil(tr: Trace, i: nat, j: nat, comp: nat)
    requires i < j <= |tr|
    requires UsefulClearAbove(After(tr[..i + 1]).tables, comp)
    requires forall k :: i < k < j ==> !EarnsUseful(After(tr[..k]), tr[k], comp)
    ensures UsefulClearAbove(After(tr[..j]).tables, comp)
    decreases j
  {
    hide *;
    if j > i + 1 {
      ClearUntil(tr, i, j - 1, comp);
      AfterNext(tr, j - 1);
      ClearUnlessEarned(After(tr[..j - 1]), tr[j - 1], comp);
    }
  }

  /** Between a failed allocation and any later one from the same or a higher provider, some branch
      earns a useful bit above the first provider. */
  lemma FailuresAreSeparated(tr: Trace, i: nat, j: nat)
    requires i < j < |tr|
    requires FailsToAllocate(After(tr[..i]), tr[i])
    requires FailsToAllocate(After(tr[..j]), tr[j])
    requires ProviderOf(After(tr[..i]), tr[i].pc).comp <= ProviderOf(After(tr[..j]), tr[j].pc).comp
    ensures exists k :: i < k < j &&
              EarnsUseful(After(tr[..k]), tr[k], ProviderOf(After(tr[..i]), tr[i].pc).comp)
  {
    hide *;
    var comp := ProviderOf(After(tr[..i]), tr[i].pc).comp;
    if forall k :: i < k < j ==> !EarnsUseful(After(tr[..k]), tr[k], comp) {
      FailureClears(After(tr[..i]), tr[i]);
      AfterNext(tr, i);
      ClearUntil(tr, i, j, comp);
      ClearMeansNoFailure(After(tr[..j]), tr[j], comp);
    }
  }

  // ---- What the hashes depend on ------------------------------------------------------------------

  /** The outcome that is j branches old, not taken before the trace began. */
  predicate Recent(tr: Trace, j: nat)
  {
    j < |tr| && tr[|tr| - 1 - j].taken
  }

  lemma {:induction false} HistoryIsRecentOutcomes(tr: Trace)
    ensures forall j :: 0 <= j < HISTORY_BITS ==> After(tr).ghr[j] == Recent(tr, j)
  {
    hide Step;
    if tr != [] {
      var before, last := tr[..|tr| - 1], tr[|tr| - 1];
      HistoryIsRecentOutcomes(before);
      StepPushesHistory(After(before), last);
      PushRecent(After(before).ghr, before, last);
      assert before + [last] == tr;
    }
  }

  lemma PushRecent(g: seq<bool>, tr: Trace, b: Branch)
    requires g != [] && forall j :: 0 <= j < |g| ==> g[j] == Recent(tr, j)
    ensures forall j :: 0 <= j < |g| ==> Push(g, b.taken)[j] == Recent(tr + [b], j)
  {
  }

  lemma StepPushesHistory(s: State, b: Branch)
    requires s.Shape()
    ensures Step(s, b).ghr == Push(s.ghr, b.taken)
  {
    hide LearnedTables, LearnedProbability, ProviderOf;
  }

  /** The tag and index of table t are functions of the PC and the last 7, 15, ..., 511 outcomes:
      nothing older, and nothing of which branches produced them, has any influence. */
  lemma HashesDependOnRecentOutcomes(tr: Trace, tr': Trace, t: nat, pc: Pc)
    requires 1 <= t <= 7
    requires forall j :: 0 <= j < [7, 15, 31, 63, 127, 255, 511][t - 1] ==> Recent(tr, j) == Recent(tr', j)
    ensures Tag(After(tr).ghr, t, pc) == Tag(After(tr').ghr, t, pc)
    ensures Index(After(tr).ghr, t, pc) == Index(After(tr').ghr, t, pc)
  {
    hide After, Tag, Index;
    var g, g' := After(tr).ghr, After(tr').ghr;
    HistoryIsRecentOutcomes(tr);
    HistoryIsRecentOutcomes(tr');
    assert g[..Window(t - 1)] == g'[..Window(t - 1)];
    HashesDependOnWindow(g, g', t, pc);
  }

  lemma HashesDependOnWindow(g: seq<bool>, g': seq<bool>, t: nat, pc: Pc)
    requires 1 <= t <= TABLES && |g| == |g'| == HISTORY_BITS
    requires g[..Window(t - 1)] == g'[..Window(t - 1)]
    ensures Tag(g, t, pc) == Tag(g', t, pc) && Index(g, t, pc) == Index(g', t, pc)
  {
    hide TagHash, IndexHash, FoldValue, Window;
    ValueDependsOnWindow(g, g', Window(t - 1), Width(0), 10);
    ValueDependsOnWindow(g, g', Window(t - 1), Width(1), 10);
  }
}
