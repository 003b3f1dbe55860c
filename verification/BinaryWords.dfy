// Numbers as words of bits: registers that shift, single bits, and exclusive or.
module BinaryWords {

  // ---- Shift registers ------------------------------------------------------------------

  /** The n low bits of q, highest first. */
  function Bits(q: nat, n: nat): (w: seq<bool>)
    ensures |w| == n
  {
    if n == 0 then [] else Bits(q / 2, n - 1) + [q % 2 == 1]
  }

  function Pow2(n: nat): (p: nat)
    ensures p > 0
  {
    if n == 0 then 1 else 2 * Pow2(n - 1)
  }

  /** Dropping a bit above the n low ones changes none of them. */
  lemma {:induction false} HighBitDropped(q: nat, n: nat)
    requires q >= Pow2(n)
    ensures Bits(q - Pow2(n), n) == Bits(q, n)
  {
    if n > 0 {
      assert (q - Pow2(n)) / 2 == q / 2 - Pow2(n - 1);
      assert (q - Pow2(n)) % 2 == q % 2;
      HighBitDropped(q / 2, n - 1);
    }
  }

  lemma {:induction false} LowBits(q: nat, n: nat)
    ensures Bits(q, n + 1)[1..] == Bits(q, n)
  {
    if n > 0 {
      LowBits(q / 2, n - 1);
      assert Bits(q, n + 1)[1..] == Bits(q / 2, n)[1..] + [q % 2 == 1];
    }
  }

  lemma Halve(x: nat, t: nat)
    requires t < 2
    ensures (2 * x + t) / 2 == x && (2 * x + t) % 2 == t
  {
  }

  /** Shifting an outcome into n bits drops the highest one. */
  lemma ShiftedBits(q: nat, n: nat, taken: bool)
    requires n > 0 && q < Pow2(n)
    ensures var low := if q >= Pow2(n - 1) then q - Pow2(n - 1) else q;
            low >= 0 && Bits(2 * low + (if taken then 1 else 0), n) == Bits(q, n)[1..] + [taken]
  {
    var low: nat := if q >= Pow2(n - 1) then q - Pow2(n - 1) else q;
    var t := if taken then 1 else 0;
    Halve(low, t);
    assert Bits(2 * low + t, n) == Bits(low, n - 1) + [taken];
    LowBits(q, n - 1);
    if q >= Pow2(n - 1) {
      HighBitDropped(q, n - 1);
    }
  }

  lemma {:induction false} BitsInjective(p: nat, q: nat, n: nat)
    requires p < Pow2(n) && q < Pow2(n) && Bits(p, n) == Bits(q, n)
    ensures p == q
  {
    if n > 0 {
      var x, y := Bits(p, n), Bits(q, n);
      assert x[..n - 1] == Bits(p / 2, n - 1) && y[..n - 1] == Bits(q / 2, n - 1);
      assert x[n - 1] == y[n - 1];
      BitsInjective(p / 2, q / 2, n - 1);
    }
  }

  // ---- Words and their bits -----------------------------------------------------------------

  /** Bit k of a number. */
  predicate BitAt(x: nat, k: nat)
  {
    if k == 0 then x % 2 == 1 else BitAt(x / 2, k - 1)
  }

  /** The exclusive or of the n low bits. */
  function BitXor(x: nat, y: nat, n: nat): nat
  {
    if n == 0 then 0 else 2 * BitXor(x / 2, y / 2, n - 1) + if x % 2 == y % 2 then 0 else 1
  }

  lemma {:induction false} BitOfXor(x: nat, y: nat, n: nat, k: nat)
    requires k < n
    ensures BitAt(BitXor(x, y, n), k) == (BitAt(x, k) != BitAt(y, k))
  {
    Halve(BitXor(x / 2, y / 2, n - 1), if x % 2 == y % 2 then 0 else 1);
    if k > 0 {
      BitOfXor(x / 2, y / 2, n - 1, k - 1);
    }
  }

  /** Masking keeps the low bits, */
  lemma {:induction false} BitOfLow(x: nat, n: nat, k: nat)
    requires k < n
    ensures BitAt(x % Pow2(n), k) == BitAt(x, k)
  {
    HalfOfLow(x, Pow2(n - 1));
    if k > 0 {
      BitOfLow(x / 2, n - 1, k - 1);
    }
  }

  lemma HalfOfLow(x: nat, p: nat)
    requires p > 0
    ensures x % (2 * p) / 2 == x / 2 % p && x % (2 * p) % 2 == x % 2
  {
    var q, r := x / 2 / p, x / 2 % p;
    var t := 2 * r + x % 2;
    assert x == 2 * (p * q + r) + x % 2;
    assert 2 * (p * q + r) + x % 2 == (2 * p) * q + t;
    Remainder(2 * p, q, t);
  }

  lemma Remainder(d: nat, q: nat, t: nat)
    requires t < d
    ensures (d * q + t) % d == t && (d * q + t) / d == q
  {
    var x := d * q + t;
    var e := x / d - q;
    assert d * e == t - x % d;
    Multiple(d, e);
  }

  lemma Multiple(d: int, e: int)
    requires d > 0
    ensures e > 0 ==> d * e >= d
    ensures e < 0 ==> d * e <= -d
  {
  }

  /** shifting down moves them. */
  lemma BitOfHalf(x: nat, k: nat)
    ensures BitAt(x / 2, k) == BitAt(x, k + 1)
  {
  }

  lemma BitOfSixteenth(x: nat, k: nat)
    ensures BitAt(x / 16, k) == BitAt(x, k + 4)
  {
    BitOfHalf(x, k + 3);
    BitOfHalf(x / 2, k + 2);
    BitOfHalf(x / 4, k + 1);
    BitOfHalf(x / 8, k);
    assert x / 2 / 2 == x / 4 && x / 4 / 2 == x / 8 && x / 8 / 2 == x / 16;
  }

  lemma BitOfUpper(x: nat, k: nat)
    ensures BitAt(x / 2048, k) == BitAt(x, k + 11)
  {
    BitOfSixteenth(x, k + 7);
    BitOfSixteenth(x / 16, k + 3);
    BitOfHalf(x / 256, k + 2);
    BitOfHalf(x / 512, k + 1);
    BitOfHalf(x / 1024, k);
    assert x / 16 / 16 == x / 256 && x / 256 / 2 == x / 512 && x / 512 / 2 == x / 1024 && x / 1024 / 2 == x / 2048;
  }

  /** A number below 2 to the n is known by its n low bits. */
  lemma {:induction false} KnownByBits(x: nat, y: nat, n: nat)
    requires x < Pow2(n) && y < Pow2(n)
    requires forall k :: 0 <= k < n ==> BitAt(x, k) == BitAt(y, k)
    ensures x == y
  {
    if n > 0 {
      assert BitAt(x, 0) == BitAt(y, 0);
      forall k | 0 <= k < n - 1
        ensures BitAt(x / 2, k) == BitAt(y / 2, k)
      {
        assert BitAt(x, k + 1) == BitAt(y, k + 1);
      }
      KnownByBits(x / 2, y / 2, n - 1);
    }
  }
}
