// The global history and its folded images (Lab2-Branch-Predictor/predictor.cc, updateCSR and
// getCSR). This module is the specification side: what a folded register must contain.
module FoldedHistory {

  const HISTORY_BITS: nat := 512
  const TAG_WIDTH: nat := 11
  const TABLES: nat := 7

  /** The number of outcomes folded for table t: one less than the history length that the
      design notes give, because updateCSR is called with that length minus one. */
  function Window(t: nat): (n: nat)
    requires t < TABLES
    ensures 0 < n < HISTORY_BITS
  {
    [7, 15, 31, 63, 127, 255, 511][t]
  }

  /** The width of a folded register: eleven bits for number 0 and ten for number 1. */
  function Width(num: nat): (w: nat)
    requires num < 2
    ensures w == 10 || w == 11
  {
    TAG_WIDTH - num
  }

  predicate Xor(a: bool, b: bool) { a != b }

  /** Bit k of the fold of the first n history bits onto w bits, computed from scratch. */
  predicate Fold(g: seq<bool>, n: nat, w: nat, k: int)
    requires n <= |g| && w > 0
  {
    if n == 0 then false
    else Xor(Fold(g, n - 1, w, k), (n - 1) % w == k && g[n - 1])
  }

  /** The history after one more outcome: the oldest bit falls out. */
  function Push(g: seq<bool>, b: bool): (r: seq<bool>)
    requires g != []
    ensures |r| == |g|
  {
    [b] + g[..|g| - 1]
  }

  /** Only the folded outcomes matter. */
  lemma {:induction false} FoldDependsOnWindow(g: seq<bool>, g': seq<bool>, n: nat, w: nat, k: int)
    requires n <= |g| && n <= |g'| && w > 0
    requires g[..n] == g'[..n]
    ensures Fold(g, n, w, k) == Fold(g', n, w, k)
  {
    if n > 0 {
      assert g[n - 1] == g[..n][n - 1] && g'[n - 1] == g'[..n][n - 1];
      assert g[..n - 1] == g[..n][..n - 1] && g'[..n - 1] == g'[..n][..n - 1];
      FoldDependsOnWindow(g, g', n - 1, w, k);
    }
  }

  lemma RotatedPosition(m: nat, w: nat, k: int)
    requires (w == 10 || w == 11) && 0 <= k < w && m > 0
    ensures (m % w == k) <==> ((m - 1) % w == Below(k, w))
  {
    if w == 10 {
      assert (m % 10 == k) <==> ((m - 1) % 10 == if k == 0 then 9 else k - 1);
    } else {
      assert (m % 11 == k) <==> ((m - 1) % 11 == if k == 0 then 10 else k - 1);
    }
  }

  /** Folding a history that gained an outcome rotates the fold by one and adds the outcome. */
  lemma {:induction false} FoldOfPushed(g: seq<bool>, b: bool, n: nat, w: nat, k: int)
    requires (w == 10 || w == 11) && 0 <= k < w
    requires n <= |g|
    ensures Fold([b] + g, n + 1, w, k) ==
            Xor(Fold(g, n, w, Below(k, w)), k == 0 && b)
  {
    if n > 0 {
      FoldOfPushed(g, b, n - 1, w, k);
      RotatedPosition(n, w, k);
      assert ([b] + g)[n] == g[n - 1];
    } else {
      assert Fold([b] + g, 0, w, k) == false;
    }
  }

  /** The bit that a rotation by one moves to position k. */
  function Below(k: int, w: nat): int { if k == 0 then w - 1 else k - 1 }

  /** The incremental step for bit k: the bit below moves up, the newest outcome comes in at
      position 0, and the outcome that has just left the window of n goes out. */
  predicate Rotated(below: bool, k: int, w: nat, n: nat, inBit: bool, outBit: bool)
    requires w > 0
  {
    Xor(Xor(below, k == 0 && inBit), n % w == k && outBit)
  }

  /** A register that holds the fold of g holds, after the step, the fold of the new history. */
  lemma FoldStep(g: seq<bool>, b: bool, n: nat, w: nat, k: int)
    requires (w == 10 || w == 11) && 0 <= k < w
    requires n < |g|
    ensures Rotated(Fold(g, n, w, Below(k, w)), k, w, n, Push(g, b)[0], Push(g, b)[n]) == Fold(Push(g, b), n, w, k)
  {
    FoldOfPushed(g, b, n, w, k);
    assert Push(g, b)[..n] == ([b] + g)[..n];
    FoldDependsOnWindow(Push(g, b), [b] + g, n, w, k);
    assert Push(g, b)[n] == ([b] + g)[n];
  }

  // ---- Reading a register ----------------------------------------------------------------

  function Pow10(i: nat): (p: nat)
    ensures p > 0
  {
    if i == 0 then 1 else 10 * Pow10(i - 1)
  }

  /** The first m bits of a fold read as decimal digits, lowest first. */
  function FoldValue(g: seq<bool>, n: nat, w: nat, m: nat): (v: nat)
    requires n <= |g| && w > 0
    ensures 9 * v < Pow10(m)
  {
    if m == 0 then 0
    else FoldValue(g, n, w, m - 1) + if Fold(g, n, w, m - 1) then Pow10(m - 1) else 0
  }

  /** What getCSR returns: ten digits of either register, whatever their widths. */
  function CsrValue(g: seq<bool>, t: nat, num: nat): (v: nat)
    requires t < TABLES && num < 2 && |g| == HISTORY_BITS
    ensures v <= 1_111_111_111
  {
    TenDigits();
    FoldValue(g, Window(t), Width(num), 10)
  }

  lemma TenDigits()
    ensures Pow10(10) == 10_000_000_000
  {
    assert Pow10(2) == 100;
    assert Pow10(4) == 10_000;
    assert Pow10(6) == 1_000_000;
    assert Pow10(8) == 100_000_000;
  }

  lemma {:induction false} ValueDependsOnWindow(g: seq<bool>, g': seq<bool>, n: nat, w: nat, m: nat)
    requires n <= |g| && n <= |g'| && w > 0
    requires g[..n] == g'[..n]
    ensures FoldValue(g, n, w, m) == FoldValue(g', n, w, m)
  {
    if m > 0 {
      ValueDependsOnWindow(g, g', n, w, m - 1);
      FoldDependsOnWindow(g, g', n, w, m - 1);
    }
  }
}
