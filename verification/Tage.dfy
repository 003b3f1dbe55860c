// The eight-component TAGE predictor (Lab2-Branch-Predictor/predictor.cc, "openend") as a
// state machine on values: what one prediction and one update do, with the tags and indices
// computed from the outcome history itself. TageMachine holds the program's form of it.
module Tage {
  import opened BinaryWords
  import opened Branches
  import opened FoldedHistory

  const ENTRIES: nat := 1024
  const T0_HISTORIES: nat := 1024
  const T0_TABLES: nat := 8
  const T0_PATTERNS: nat := 512

  /** One tagged entry: 3-bit counter, 10-bit tag and useful bit. */
  datatype Entry = Entry(pred: int, tag: int, useful: int)

  type Tables = seq<seq<Entry>>

  predicate TablesShape(ts: Tables)
  {
    |ts| == TABLES && forall t :: 0 <= t < TABLES ==> |ts[t]| == ENTRIES
  }

  datatype State = State(
    t0phrt: seq<int>, t0pht: seq<seq<int>>,
    ghr: seq<bool>, tables: Tables,
    probability: int, useCounter: int)
  {
    predicate Shape()
    {
      && |t0phrt| == T0_HISTORIES
      && (forall i :: 0 <= i < T0_HISTORIES ==> 0 <= t0phrt[i] < T0_PATTERNS)
      && |t0pht| == T0_TABLES
      && (forall i :: 0 <= i < T0_TABLES ==> |t0pht[i]| == T0_PATTERNS)
      && |ghr| == HISTORY_BITS
      && TablesShape(tables)
    }
  }

  /** What a prediction leaves behind for the update: component 0 is the base predictor T0. */
  datatype Provider = Provider(comp: nat, pred: bool, index: int, alt: bool)

  predicate ProviderOk(p: Provider)
  {
    p.comp <= TABLES && (p.comp != 0 ==> 0 <= p.index < ENTRIES)
  }

  // ---- Hashing ---------------------------------------------------------------------------

  /** The ten-bit tag hash of a PC and the two register readings; the shift wraps at 32 bits. */
  function TagHash(pc: Pc, csr0: nat, csr1: nat): (r: int)
    requires csr0 < WORD_SIZE && csr1 < WORD_SIZE
    ensures 0 <= r < ENTRIES
  {
    BitXor(BitXor(pc, csr0, 32), 2 * csr1 % WORD_SIZE, 32) % 1024
  }

  function IndexHash(pc: Pc, csr1: nat): (r: int)
    requires csr1 < WORD_SIZE
    ensures 0 <= r < ENTRIES
  {
    BitXor(BitXor(pc, pc / 2048, 32), csr1, 32) % 1024
  }

  /** The tag that table t (counted from 1) stores for pc under the history g. */
  function Tag(g: seq<bool>, t: nat, pc: Pc): (r: int)
    requires 1 <= t <= TABLES && |g| == HISTORY_BITS
    ensures 0 <= r < ENTRIES
  {
    TagHash(pc, CsrValue(g, t - 1, 0), CsrValue(g, t - 1, 1))
  }

  function Index(g: seq<bool>, t: nat, pc: Pc): (r: int)
    requires 1 <= t <= TABLES && |g| == HISTORY_BITS
    ensures 0 <= r < ENTRIES
  {
    IndexHash(pc, CsrValue(g, t - 1, 1))
  }

  // ---- Prediction ------------------------------------------------------------------------

  function T0History(pc: Pc): (r: nat) ensures r < T0_HISTORIES { (pc / 8) % 1024 }

  function T0Table(pc: Pc): (r: nat) ensures r < T0_TABLES { pc % 8 }

  predicate T0Predicted(s: State, pc: Pc)
    requires s.Shape()
  {
    s.t0pht[T0Table(pc)][s.t0phrt[T0History(pc)]] > 3
  }

  /** The entry of table t that pc selects. */
  function Selected(ts: Tables, g: seq<bool>, pc: Pc, t: nat): Entry
    requires TablesShape(ts) && |g| == HISTORY_BITS && 1 <= t <= TABLES
  {
    ts[t - 1][Index(g, t, pc)]
  }

  predicate Matches(ts: Tables, g: seq<bool>, pc: Pc, t: nat)
    requires TablesShape(ts) && |g| == HISTORY_BITS && 1 <= t <= TABLES
  {
    Selected(ts, g, pc, t).tag == Tag(g, t, pc)
  }

  /** The highest of tables 1..t whose selected entry carries the tag of pc, or 0. */
  function HighestMatch(ts: Tables, g: seq<bool>, pc: Pc, t: nat): (r: nat)
    requires TablesShape(ts) && |g| == HISTORY_BITS && t <= TABLES
    ensures r <= t
    ensures r > 0 ==> Matches(ts, g, pc, r)
  {
    if t == 0 then 0
    else if Matches(ts, g, pc, t) then t
    else HighestMatch(ts, g, pc, t - 1)
  }

  lemma {:induction false} NoMatchAboveHighest(ts: Tables, g: seq<bool>, pc: Pc, t: nat)
    requires TablesShape(ts) && |g| == HISTORY_BITS && t <= TABLES
    ensures forall u :: HighestMatch(ts, g, pc, t) < u <= t ==> !Matches(ts, g, pc, u)
  {
    hide Matches;
    if t > 0 && !Matches(ts, g, pc, t) {
      NoMatchAboveHighest(ts, g, pc, t - 1);
    }
  }

  function ProviderOf(s: State, pc: Pc): (p: Provider)
    requires s.Shape()
    ensures ProviderOk(p)
  {
    var c := HighestMatch(s.tables, s.ghr, pc, TABLES);
    if c == 0 then Provider(0, T0Predicted(s, pc), -1, T0Predicted(s, pc))
    else
      var dir := Selected(s.tables, s.ghr, pc, c).pred >= 4;
      var lower := HighestMatch(s.tables, s.ghr, pc, c - 1);
      Provider(c, dir, Index(s.ghr, c, pc), if lower > 0 then dir else T0Predicted(s, pc))
  }

  /** A provider is weak when its counter is in a middle state or its useful bit is clear. */
  predicate Weak(e: Entry)
  {
    2 < e.pred < 5 || e.useful == 0
  }

  /** The direction that the predictor answers. */
  predicate Predicted(s: State, pc: Pc)
    requires s.Shape()
  {
    var p := ProviderOf(s, pc);
    if p.comp != 0 && Weak(s.tables[p.comp - 1][p.index]) then p.alt else p.pred
  }

  // ---- Update ----------------------------------------------------------------------------

  function Put(ts: Tables, t: nat, i: int, e: Entry): (r: Tables)
    requires TablesShape(ts) && 1 <= t <= TABLES && 0 <= i < ENTRIES
    ensures TablesShape(r)
  {
    ts[t - 1 := ts[t - 1][i := e]]
  }

  function UpdatedT0(s: State, pc: Pc, taken: bool): (r: State)
    requires s.Shape()
    ensures r.Shape()
    ensures r.(t0phrt := s.t0phrt, t0pht := s.t0pht) == s
  {
    var h, t := T0History(pc), T0Table(pc);
    var q := s.t0phrt[h];
    s.(t0pht := s.t0pht[t := s.t0pht[t][q := Bump(s.t0pht[t][q], taken, 7)]],
       t0phrt := s.t0phrt[h := (2 * q) % 512 + if taken then 1 else 0])
  }

  /** The useful bit after a resolved branch: it changes only when the alternative disagreed. */
  function TrainedUseful(e: Entry, p: Provider, taken: bool): int
  {
    if p.pred == p.alt then e.useful else if p.pred == taken then 1 else 0
  }

  function TrainedCounter(u: int, p: Provider, taken: bool): int
  {
    if p.comp == 0 || p.pred == p.alt then u else Bump(u, p.pred == taken, 255)
  }

  function TrainedTables(ts: Tables, p: Provider, taken: bool): (r: Tables)
    requires TablesShape(ts) && ProviderOk(p)
    ensures TablesShape(r)
  {
    if p.comp == 0 then ts
    else
      var e := ts[p.comp - 1][p.index];
      Put(ts, p.comp, p.index, Entry(Bump(e.pred, taken, 7), e.tag, TrainedUseful(e, p, taken)))
  }

  /** Whether the update goes on to allocate: the provider was wrong, is not the last table, and is
      not a counter that has just moved to a middle state with its useful bit clear. A counter that
      was already saturated in the resolved direction leaves the program's copies at zero. */
  predicate WantsAllocation(ts: Tables, p: Provider, taken: bool)
    requires TablesShape(ts) && ProviderOk(p)
  {
    && p.comp != TABLES
    && p.pred != taken
    && (p.comp == 0 ||
        var e := ts[p.comp - 1][p.index];
        var moved := Bump(e.pred, taken, 7);
        !(moved != e.pred && e.useful == 0 && 2 < moved < 5))
  }

  /** The lowest table from t on whose selected entry is not useful, or 8. */
  function FirstFree(ts: Tables, g: seq<bool>, pc: Pc, t: nat): (r: nat)
    requires TablesShape(ts) && |g| == HISTORY_BITS && 1 <= t <= TABLES + 1
    ensures t <= r <= TABLES + 1
    ensures r <= TABLES ==> Selected(ts, g, pc, r).useful == 0
    ensures forall u :: t <= u < r ==> Selected(ts, g, pc, u).useful != 0
    decreases TABLES + 1 - t
  {
    if t == TABLES + 1 then t
    else if Selected(ts, g, pc, t).useful == 0 then t
    else FirstFree(ts, g, pc, t + 1)
  }

  /** The two candidates for a new entry: the two lowest free tables above the provider. */
  function Candidates(ts: Tables, g: seq<bool>, pc: Pc, comp: nat): (r: (nat, nat))
    requires TablesShape(ts) && |g| == HISTORY_BITS && comp < TABLES
    ensures comp < r.0 <= TABLES + 1 && (r.0 <= TABLES ==> r.0 < r.1 <= TABLES + 1)
  {
    var first := FirstFree(ts, g, pc, comp + 1);
    (first, if first == TABLES + 1 then first else FirstFree(ts, g, pc, first + 1))
  }

  /** The table that receives a new entry: the lower candidate, or every other time the higher. */
  function Target(ts: Tables, g: seq<bool>, pc: Pc, comp: nat, probability: int): (t: nat)
    requires TablesShape(ts) && |g| == HISTORY_BITS && comp < TABLES
    ensures comp < t <= TABLES + 1
    ensures t <= TABLES ==> Selected(ts, g, pc, t).useful == 0
    ensures t == TABLES + 1 <==> Candidates(ts, g, pc, comp).0 == TABLES + 1
  {
    var (first, second) := Candidates(ts, g, pc, comp);
    if first == TABLES + 1 || second == TABLES + 1 || probability < 2 then first else second
  }

  function NextProbability(ts: Tables, g: seq<bool>, pc: Pc, comp: nat, probability: int): int
    requires TablesShape(ts) && |g| == HISTORY_BITS && comp < TABLES
  {
    var (first, second) := Candidates(ts, g, pc, comp);
    if first == TABLES + 1 then probability
    else if second == TABLES + 1 || probability < 2 then probability + 1
    else 1
  }

  /** Clear the useful bits of every table above comp. */
  function ClearedAbove(ts: Tables, comp: nat): (r: Tables)
    requires TablesShape(ts)
    ensures TablesShape(r)
  {
    seq(TABLES, t requires 0 <= t < TABLES =>
      if t < comp then ts[t] else seq(ENTRIES, i requires 0 <= i < ENTRIES => ts[t][i].(useful := 0)))
  }

  /** The new entry that a misprediction installs: its counter leans weakly to the outcome. */
  function NewEntry(g: seq<bool>, t: nat, pc: Pc, taken: bool): Entry
    requires 1 <= t <= TABLES && |g| == HISTORY_BITS
  {
    Entry(if taken then 4 else 3, Tag(g, t, pc), 0)
  }

  function AllocatedTables(ts: Tables, g: seq<bool>, pc: Pc, comp: nat, probability: int, taken: bool): (r: Tables)
    requires TablesShape(ts) && |g| == HISTORY_BITS && comp < TABLES
    ensures TablesShape(r)
  {
    var t := Target(ts, g, pc, comp, probability);
    if t == TABLES + 1 then ClearedAbove(ts, comp)
    else Put(ts, t, Index(g, t, pc), NewEntry(g, t, pc, taken))
  }

  /** The tables once training and allocation are done, before ageing and the history push. */
  function LearnedTables(s: State, p: Provider, pc: Pc, taken: bool): (r: Tables)
    requires s.Shape() && ProviderOk(p)
    ensures TablesShape(r)
  {
    var ts := TrainedTables(s.tables, p, taken);
    if WantsAllocation(s.tables, p, taken) then AllocatedTables(ts, s.ghr, pc, p.comp, s.probability, taken) else ts
  }

  function LearnedProbability(s: State, p: Provider, pc: Pc, taken: bool): int
    requires s.Shape() && ProviderOk(p)
  {
    if WantsAllocation(s.tables, p, taken)
    then NextProbability(TrainedTables(s.tables, p, taken), s.ghr, pc, p.comp, s.probability)
    else s.probability
  }

  function Updated(s: State, p: Provider, pc: Pc, taken: bool): (r: State)
    requires s.Shape() && ProviderOk(p)
    ensures r.Shape()
  {
    var s1 := UpdatedT0(s, pc, taken);
    var u := TrainedCounter(s.useCounter, p, taken);
    var learned := LearnedTables(s, p, pc, taken);
    s1.(tables := if u == 0 then ClearedAbove(learned, 0) else learned,
        useCounter := if u == 0 then 128 else u,
        probability := LearnedProbability(s, p, pc, taken),
        ghr := Push(s.ghr, taken))
  }

  function Initial(): (s: State)
    ensures s.Shape()
  {
    State(seq(T0_HISTORIES, _ => 0),
          seq(T0_TABLES, _ => seq(T0_PATTERNS, _ => 3)),
          seq(HISTORY_BITS, _ => false),
          seq(TABLES, _ => seq(ENTRIES, _ => Entry(3, 0, 0))),
          0, 128)
  }

  /** One round of the main loop: predict, then update with what the prediction left behind. */
  function Step(s: State, b: Branch): (r: State)
    requires s.Shape()
    ensures r.Shape()
  {
    Updated(s, ProviderOf(s, b.pc), b.pc, b.taken)
  }

  /** The same round without the shift of the history. */
  function UnshiftedStep(s: State, b: Branch): (r: State)
    requires s.Shape()
    ensures r.Shape() && r.ghr == s.ghr && r.tables == Step(s, b).tables
  {
    hide Updated, ProviderOf;
    Step(s, b).(ghr := s.ghr)
  }

  /** The state after a trace. */
  function After(tr: Trace): (s: State)
    ensures s.Shape()
  {
    if tr == [] then Initial() else Step(After(tr[..|tr| - 1]), tr[|tr| - 1])
  }

  function Misses(tr: Trace): nat
  {
    if tr == [] then 0
    else
      var before, last := tr[..|tr| - 1], tr[|tr| - 1];
      Misses(before) + if Predicted(After(before), last.pc) != last.taken then 1 else 0
  }
}
