// What the functions of the TAGE predictor come to, written out: the folded history, tags and indices bit by
// bit, the base predictor as counters over the trace, and the provider.
module TageClosedForms {
  import opened BinaryWords
  import opened Branches
  import opened FoldedHistory
  import opened Tage
  import opened TageProperties

  // ---- The folded history ------------------------------------------------------------------------

  /** How many outcomes table t folds. */
  function Length(t: nat): (n: nat)
    requires 1 <= t <= 7
    ensures n < 512
  {
    [7, 15, 31, 63, 127, 255, 511][t - 1]
  }

  /** The taken outcomes among the first n whose position is k modulo w. */
  function TakenAt(g: seq<bool>, n: nat, w: nat, k: int): set<int>
    requires n <= |g| && w > 0
  {
    set j | 0 <= j < n && j % w == k && g[j]
  }

  lemma TakenStep(g: seq<bool>, n: nat, w: nat, k: int)
    requires 0 < n <= |g| && w > 0
    ensures |TakenAt(g, n, w, k)| ==
            |TakenAt(g, n - 1, w, k)| + if (n - 1) % w == k && g[n - 1] then 1 else 0
  {
    var before := TakenAt(g, n - 1, w, k);
    if (n - 1) % w == k && g[n - 1] {
      assert TakenAt(g, n, w, k) == before + {n - 1};
    } else {
      assert TakenAt(g, n, w, k) == before;
    }
  }

  /** A bit of the folded history tells whether their number is odd. */
  lemma {:induction false} FoldIsParity(g: seq<bool>, n: nat, w: nat, k: int)
    requires n <= |g| && w > 0
    ensures Fold(g, n, w, k) <==> |TakenAt(g, n, w, k)| % 2 == 1
  {
    hide TakenAt;
    if n == 0 {
      NoneTaken(g, w, k);
    } else {
      FoldIsParity(g, n - 1, w, k);
      TakenStep(g, n, w, k);
    }
  }

  lemma NoneTaken(g: seq<bool>, w: nat, k: int)
    requires w > 0
    ensures |TakenAt(g, 0, w, k)| == 0
  {
    assert TakenAt(g, 0, w, k) == {};
  }

  function Digit(g: seq<bool>, t: nat, w: nat, k: nat): nat
    requires |g| == 512 && 1 <= t <= 7 && w > 0
  {
    |TakenAt(g, Length(t), w, k)| % 2
  }

  /** The number that the fold onto w bits gives: its ten low bits as decimal digits. */
  function Reading(g: seq<bool>, t: nat, w: nat): nat
    requires |g| == 512 && 1 <= t <= 7 && w > 0
  {
    Digit(g, t, w, 0) + 10 * Digit(g, t, w, 1) + 100 * Digit(g, t, w, 2) + 1_000 * Digit(g, t, w, 3)
    + 10_000 * Digit(g, t, w, 4) + 100_000 * Digit(g, t, w, 5) + 1_000_000 * Digit(g, t, w, 6)
    + 10_000_000 * Digit(g, t, w, 7) + 100_000_000 * Digit(g, t, w, 8) + 1_000_000_000 * Digit(g, t, w, 9)
  }

  lemma LengthIsWindow(t: nat, num: nat)
    requires 1 <= t <= 7 && num < 2
    ensures Window(t - 1) == Length(t) && Width(num) == 11 - num
  {
  }

  lemma NextDigit(g: seq<bool>, t: nat, w: nat, m: nat, p: nat)
    requires |g| == 512 && 1 <= t <= 7 && w > 0 && p == Pow10(m)
    ensures FoldValue(g, Length(t), w, m + 1) == FoldValue(g, Length(t), w, m) + p * Digit(g, t, w, m)
    ensures Pow10(m + 1) == 10 * p
  {
    hide Fold, TakenAt, Length;
    FoldIsParity(g, Length(t), w, m);
  }

  /** Registers 0 and 1 of a table are read as the folds onto eleven and onto ten bits. */
  lemma CsrIsReading(g: seq<bool>, t: nat, num: nat)
    requires |g| == 512 && 1 <= t <= 7 && num < 2
    ensures CsrValue(g, t - 1, num) == Reading(g, t, 11 - num)
  {
    hide FoldValue, Pow10, Digit, Window, Width, Length;
    LengthIsWindow(t, num);
    var w := 11 - num;
    NoDigitYet(g, t, w);
    NextDigit(g, t, w, 0, 1);
    NextDigit(g, t, w, 1, 10);
    NextDigit(g, t, w, 2, 100);
    NextDigit(g, t, w, 3, 1_000);
    NextDigit(g, t, w, 4, 10_000);
    NextDigit(g, t, w, 5, 100_000);
    NextDigit(g, t, w, 6, 1_000_000);
    NextDigit(g, t, w, 7, 10_000_000);
    NextDigit(g, t, w, 8, 100_000_000);
    NextDigit(g, t, w, 9, 1_000_000_000);
  }

  lemma NoDigitYet(g: seq<bool>, t: nat, w: nat)
    requires |g| == 512 && 1 <= t <= 7 && w > 0
    ensures FoldValue(g, Length(t), w, 0) == 0 && Pow10(0) == 1
  {
  }

  // ---- Tags and indices bit by bit ---------------------------------------------------------------

  lemma Doubled(x: nat, k: nat)
    ensures BitAt(2 * x, k) == (k > 0 && BitAt(x, k - 1))
  {
    Halve(x, 0);
  }

  lemma MaskedTen(x: nat, k: nat)
    requires k < 10
    ensures BitAt(x % 1024, k) == BitAt(x, k)
  {
    assert Pow2(5) == 32;
    assert Pow2(10) == 1024;
    BitOfLow(x, 10, k);
  }

  lemma Wrapped(x: nat, k: nat)
    requires k < 10
    ensures BitAt(x % WORD_SIZE, k) == BitAt(x, k)
  {
    hide BitAt;
    MaskedTen(x, k);
    MaskedTen(x % WORD_SIZE, k);
    MaskedTwice(x);
  }

  lemma MaskedTwice(x: nat)
    ensures x % WORD_SIZE % 1024 == x % 1024
  {
    var q, r := x / WORD_SIZE, x % WORD_SIZE;
    assert x == 1024 * (4_194_304 * q + r / 1024) + r % 1024;
    Remainder(1024, 4_194_304 * q + r / 1024, r % 1024);
  }

  /** A tag is the exclusive or of the ten low bits of the PC, of the first reading, and of twice the second. */
  lemma TagBits(g: seq<bool>, t: nat, pc: Pc, k: nat)
    requires |g| == 512 && 1 <= t <= 7 && k < 10
    ensures BitAt(Tag(g, t, pc), k) ==
            ((BitAt(pc, k) != BitAt(Reading(g, t, 11), k)) != (k > 0 && BitAt(Reading(g, t, 10), k - 1)))
    ensures 0 <= Tag(g, t, pc) < 1024
  {
    hide BitAt, BitXor, Reading, CsrValue;
    CsrIsReading(g, t, 0);
    CsrIsReading(g, t, 1);
    var c0, c1 := CsrValue(g, t - 1, 0), CsrValue(g, t - 1, 1);
    var x := BitXor(pc, c0, 32);
    BitOfXor(pc, c0, 32, k);
    BitOfXor(x, 2 * c1 % WORD_SIZE, 32, k);
    Wrapped(2 * c1, k);
    Doubled(c1, k);
    MaskedTen(BitXor(x, 2 * c1 % WORD_SIZE, 32), k);
  }

  /** An index is the exclusive or of the ten low bits of the PC, of bits 11 to 20 of the PC, and of the second
      reading. */
  lemma IndexBits(g: seq<bool>, t: nat, pc: Pc, k: nat)
    requires |g| == 512 && 1 <= t <= 7 && k < 10
    ensures BitAt(Index(g, t, pc), k) == ((BitAt(pc, k) != BitAt(pc, k + 11)) != BitAt(Reading(g, t, 10), k))
    ensures 0 <= Index(g, t, pc) < 1024
  {
    hide BitAt, BitXor, Reading, CsrValue;
    CsrIsReading(g, t, 1);
    var c1 := CsrValue(g, t - 1, 1);
    var x := BitXor(pc, pc / 2048, 32);
    BitOfUpper(pc, k);
    BitOfXor(pc, pc / 2048, 32, k);
    BitOfXor(x, c1, 32, k);
    MaskedTen(BitXor(x, c1, 32), k);
  }

  /** The bits leave no choice. */
  lemma TenBitsDecide(x: nat, y: nat)
    requires x < 1024 && y < 1024 && forall k :: 0 <= k < 10 ==> BitAt(x, k) == BitAt(y, k)
    ensures x == y
  {
    assert Pow2(5) == 32;
    assert Pow2(10) == 1024;
    KnownByBits(x, y, 10);
  }

  // ---- The provider ----------------------------------------------------------------------------------

  /** Table t holds an entry for pc. */
  predicate Holds(s: State, pc: Pc, t: nat)
    requires s.Shape() && 1 <= t <= 7
  {
    s.tables[t - 1][Index(s.ghr, t, pc)].tag == Tag(s.ghr, t, pc)
  }

  /** The provider is the highest table that holds an entry for pc, the base predictor if none does. Its
      alternative repeats it if a second table holds one, and is that of the base predictor otherwise. */
  lemma ProviderRule(s: State, pc: Pc)
    requires s.Shape()
    ensures var p, t0 := ProviderOf(s, pc), T0Predicted(s, pc);
            && 0 <= p.comp <= 7 && (forall t :: p.comp < t <= 7 ==> !Holds(s, pc, t))
            && (p.comp == 0 ==> p.pred == p.alt == t0)
            && (p.comp > 0 ==>
                  && Holds(s, pc, p.comp) && p.index == Index(s.ghr, p.comp, pc)
                  && p.pred == (s.tables[p.comp - 1][p.index].pred >= 4)
                  && p.alt == if exists t :: 1 <= t < p.comp && Holds(s, pc, t) then p.pred else t0)
  {
    hide T0Predicted, Index, Tag;
    var c := HighestMatch(s.tables, s.ghr, pc, 7);
    NoMatchAboveHighest(s.tables, s.ghr, pc, 7);
    if c > 0 {
      NoMatchAboveHighest(s.tables, s.ghr, pc, c - 1);
      var lower := HighestMatch(s.tables, s.ghr, pc, c - 1);
      assert lower > 0 ==> Holds(s, pc, lower);
      forall t | 1 <= t < c && Holds(s, pc, t)
        ensures lower > 0
      {
        assert Matches(s.tables, s.ghr, pc, t);
      }
    }
    forall t | c < t <= 7
      ensures !Holds(s, pc, t)
    {
      assert !Matches(s.tables, s.ghr, pc, t);
    }
  }

  // ---- The base predictor ------------------------------------------------------------------------------

  /** The outcomes of the branches that record in the same base history as a. */
  function Sharing(tr: Trace, a: Pc): seq<bool>
  {
    if tr == [] then []
    else
      var rest, last := Sharing(tr[..|tr| - 1], a), tr[|tr| - 1];
      if last.pc / 8 % 1024 == a / 8 % 1024 then rest + [last.taken] else rest
  }

  function LastNine(tr: Trace, a: Pc): (w: seq<bool>)
    ensures |w| == 9
  {
    Last(Sharing(tr, a), 9)
  }

  /** The outcomes of the branches whose low three bits are those of pc and that came after the nine outcomes w. */
  function AfterNine(tr: Trace, pc: Pc, w: seq<bool>): seq<bool>
  {
    if tr == [] then []
    else
      var before, last := tr[..|tr| - 1], tr[|tr| - 1];
      var rest := AfterNine(before, pc, w);
      if last.pc % 8 == pc % 8 && LastNine(before, last.pc) == w then rest + [last.taken] else rest
  }

  /** One round moves the counter at the branch's history and table, and shifts that history. */
  lemma BaseStep(s: State, b: Branch)
    requires s.Shape()
    ensures var h := b.pc / 8 % 1024;
            && (forall i :: 0 <= i < 1024 ==>
                  Step(s, b).t0phrt[i] ==
                  if i == h then (2 * s.t0phrt[h]) % 512 + (if b.taken then 1 else 0) else s.t0phrt[i])
            && (forall t, q :: 0 <= t < 8 && 0 <= q < 512 ==>
                  Step(s, b).t0pht[t][q] ==
                  if t == b.pc % 8 && q == s.t0phrt[h] then Bump(s.t0pht[t][q], b.taken, 7) else s.t0pht[t][q])
  {
    hide LearnedTables, LearnedProbability, ProviderOf, Bump;
  }

  lemma NineShifted(q: nat, taken: bool)
    requires q < 512
    ensures Bits((2 * q) % 512 + if taken then 1 else 0, 9) == Bits(q, 9)[1..] + [taken]
  {
    hide Bits;
    assert Pow2(5) == 32;
    assert Pow2(8) == 256;
    ShiftedBits(q, 9, taken);
    assert (2 * q) % 512 == 2 * if q >= 256 then q - 256 else q;
  }

  lemma {:induction false} NoBits(n: nat)
    ensures Bits(0, n) == Last([], n)
  {
    if n > 0 {
      NoBits(n - 1);
      assert Bits(0, n) == Padding(n - 1) + [false];
    }
  }

  /** A base history holds the last nine outcomes of its branches. */
  lemma {:induction false} BaseHistory(tr: Trace, a: Pc)
    ensures Bits(After(tr).t0phrt[a / 8 % 1024], 9) == LastNine(tr, a)
  {
    hide Step, Bits, Last;
    if tr == [] {
      NoBits(9);
    } else {
      var before, b := tr[..|tr| - 1], tr[|tr| - 1];
      var s := After(before);
      BaseHistory(before, a);
      BaseStep(s, b);
      if b.pc / 8 % 1024 == a / 8 % 1024 {
        NineShifted(s.t0phrt[a / 8 % 1024], b.taken);
        LastAfter(Sharing(before, a), b.taken, 9);
      }
    }
  }

  lemma NineDecide(p: nat, q: nat)
    requires p < 512 && q < 512
    ensures Bits(p, 9) == Bits(q, 9) <==> p == q
  {
    assert Pow2(5) == 32;
    assert Pow2(9) == 512;
    if Bits(p, 9) == Bits(q, 9) {
      BitsInjective(p, q, 9);
    }
  }

  lemma NoneYet(pc: Pc, w: seq<bool>)
    ensures Saturating(AfterNine([], pc, w), 3, 7) == 3
  {
  }

  /** A base counter is that of the outcomes which came after its nine. */
  lemma {:induction false} BaseCounter(tr: Trace, pc: Pc, q: nat)
    requires q < 512
    ensures After(tr).t0pht[pc % 8][q] == Saturating(AfterNine(tr, pc, Bits(q, 9)), 3, 7)
  {
    hide Step, Bits, LastNine, Saturating, Bump;
    if tr == [] {
      NoneYet(pc, Bits(q, 9));
    } else {
      var before, b := tr[..|tr| - 1], tr[|tr| - 1];
      var s := After(before);
      BaseCounter(before, pc, q);
      BaseStep(s, b);
      BaseHistory(before, b.pc);
      NineDecide(s.t0phrt[b.pc / 8 % 1024], q);
      SaturatingStep(AfterNine(before, pc, Bits(q, 9)), b.taken, 3, 7);
    }
  }

  /** After any trace, the base predictor answers for pc as a three-bit counter does that starts at 3 and has seen
      the outcomes of all branches with the same low three bits that came after the same nine outcomes as pc
      does now. The nine are those of the branches with the same next ten bits. */
  lemma BaseClosedForm(tr: Trace, pc: Pc)
    ensures T0Predicted(After(tr), pc) <==> Saturating(AfterNine(tr, pc, LastNine(tr, pc)), 3, 7) >= 4
  {
    hide Bits, LastNine, AfterNine, Saturating, After;
    BaseHistory(tr, pc);
    BaseCounter(tr, pc, After(tr).t0phrt[pc / 8 % 1024]);
  }
}
