// What the branch predictors of Lab2-Branch-Predictor share: the branch record of the
// trace, the saturating counter and filtered sub-traces.
module Branches {

  const WORD_SIZE: int := 0x1_0000_0000

  /** An unsigned 32-bit program counter. */
  type Pc = x: int | 0 <= x < WORD_SIZE

  /** A conditional branch of the trace: its address and its resolved direction. */
  datatype Branch = Branch(pc: Pc, taken: bool)

  type Trace = seq<Branch>

  /** One step of a counter that saturates at 0 and at top. */
  function Bump(c: int, taken: bool, top: int): (r: int)
    ensures 0 <= c <= top ==> 0 <= r <= top
  {
    if taken then (if c != top then c + 1 else c)
    else (if c != 0 then c - 1 else c)
  }

  /** The outcomes of the branches that a predicate on the PC selects, oldest first. */
  function Outcomes(tr: Trace, select: Pc -> bool): seq<bool>
  {
    if tr == [] then []
    else
      var rest := Outcomes(tr[..|tr| - 1], select);
      var last := tr[|tr| - 1];
      if select(last.pc) then rest + [last.taken] else rest
  }

  /** How many outcomes of os equal dir. */
  function Count(os: seq<bool>, dir: bool): nat
  {
    if os == [] then 0
    else Count(os[..|os| - 1], dir) + (if os[|os| - 1] == dir then 1 else 0)
  }

  function Min(a: int, b: int): int { if a <= b then a else b }

  /** Splitting off the newest record of a trace. */
  lemma SplitLast(tr: Trace, b: Branch)
    ensures (tr + [b])[..|tr|] == tr && (tr + [b])[|tr|] == b
  {
  }

  lemma SplitLastOutcome(os: seq<bool>, o: bool)
    ensures (os + [o])[..|os|] == os && (os + [o])[|os|] == o
  {
  }

  // ---- Histories and counters ----------------------------------------------------------------

  function Padding(n: nat): seq<bool>
  {
    seq(n, _ => false)
  }

  /** The last n outcomes, not-taken before the first one. */
  function Last(os: seq<bool>, n: nat): (w: seq<bool>)
    ensures |w| == n
  {
    (Padding(n) + os)[|os|..]
  }

  lemma LastAfter(os: seq<bool>, o: bool, n: nat)
    requires n > 0
    ensures Last(os + [o], n) == Last(os, n)[1..] + [o]
  {
    assert (Padding(n) + (os + [o]))[|os| + 1..] == (Padding(n) + os)[|os|..][1..] + [o];
  }

  /** A counter between 0 and top that starts at init and follows the outcomes. */
  function Saturating(os: seq<bool>, init: int, top: int): int
  {
    if os == [] then init
    else
      var c := Saturating(os[..|os| - 1], init, top);
      if os[|os| - 1] then (if c < top then c + 1 else top) else (if c > 0 then c - 1 else 0)
  }

  lemma {:induction false} SaturatingInRange(os: seq<bool>, init: int, top: int)
    requires 0 <= init <= top
    ensures 0 <= Saturating(os, init, top) <= top
  {
    if os != [] {
      SaturatingInRange(os[..|os| - 1], init, top);
    }
  }

  lemma SaturatingStep(os: seq<bool>, o: bool, init: int, top: int)
    requires 0 <= init <= top
    ensures Saturating(os + [o], init, top) == Bump(Saturating(os, init, top), o, top)
  {
    SplitLastOutcome(os, o);
    SaturatingInRange(os, init, top);
  }
}
