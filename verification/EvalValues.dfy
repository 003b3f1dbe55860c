// Expression values of Lab1-Hazards/eval.c: integers of five types, and symbols; conversions and
// arithmetic follow the rules of C.
module EvalValues {

  datatype IntType = TInt | TUint | TAddr | TSqword | TQword

  function Modulus(t: IntType): int
  {
    match t
    case TInt | TUint | TAddr => 0x1_0000_0000
    case TSqword | TQword => 0x1_0000_0000_0000_0000
  }

  predicate SignedType(t: IntType) { t == TInt || t == TSqword }

  predicate InRange(t: IntType, n: int)
  {
    match t
    case TInt => -0x8000_0000 <= n < 0x8000_0000
    case TUint | TAddr => 0 <= n < 0x1_0000_0000
    case TSqword => -0x8000_0000_0000_0000 <= n < 0x8000_0000_0000_0000
    case TQword => 0 <= n < 0x1_0000_0000_0000_0000
  }

  /** An integer converted to a type: reduced to its width, and read as signed where it is. */
  function Convert(t: IntType, n: int): (r: int)
    ensures InRange(t, r)
  {
    match t
    case TInt => var w := n % 0x1_0000_0000; if w < 0x8000_0000 then w else w - 0x1_0000_0000
    case TUint | TAddr => n % 0x1_0000_0000
    case TSqword =>
      var w := n % 0x1_0000_0000_0000_0000;
      if w < 0x8000_0000_0000_0000 then w else w - 0x1_0000_0000_0000_0000
    case TQword => n % 0x1_0000_0000_0000_0000
  }

  datatype AnyValue = Number(t: IntType, n: int) | Symbol(name: string)

  type Value = v: AnyValue | v.Number? ==> InRange(v.t, v.n) witness Number(TInt, 0)

  /** The value that goes with an error. */
  const ERR_VALUE: Value := Number(TInt, 0)

  datatype Failure = UnmatchedParen | NoTerm | DivByZero | BadConst | BadExpr | UndefVar | Extra

  datatype Outcome = Ok(v: Value) | Err(e: Failure)

  // ---- Arithmetic ------------------------------------------------------------------------------

  function ResultType(t1: IntType, t2: IntType): IntType
  {
    if t1 == TQword || t2 == TQword then TQword
    else if t1 == TSqword || t2 == TSqword then TSqword
    else if t1 == TAddr || t2 == TAddr then TAddr
    else if t1 == TUint || t2 == TUint then TUint
    else TInt
  }

  datatype Operator = Plus | Minus | Times | Over

  /** Division that truncates toward zero. */
  function Quotient(a: int, b: int): int
    requires b != 0
  {
    if a >= 0 then a / b else -(-a / b)
  }

  /** An operation carried out in the result type of its operands. */
  function Compute(op: Operator, a: Value, b: Value): (r: Value)
    requires a.Number? && b.Number? && (op == Over ==> b.n != 0)
    ensures r.Number? && r.t == ResultType(a.t, b.t)
  {
    var t := ResultType(a.t, b.t);
    var x, y := Convert(t, a.n), Convert(t, b.n);
    match op
    case Plus => Number(t, Convert(t, x + y))
    case Minus => Number(t, Convert(t, x - y))
    case Times => Number(t, Convert(t, x * y))
    case Over => Number(t, Convert(t, Quotient(x, y)))
  }

  /** A divisor that is not zero is not zero in the result type either: no conversion narrows. */
  lemma NonzeroStays(t: IntType, t1: IntType, b: Value)
    requires b.Number? && b.n != 0 && t == ResultType(t1, b.t)
    ensures Convert(t, b.n) != 0
  {
  }

  /** The result type holds both operands as they are, except that an unsigned one has no negatives. */
  lemma ResultTypeHolds(a: Value, t2: IntType)
    requires a.Number?
    ensures var t := ResultType(a.t, t2);
            && t == ResultType(t2, a.t)
            && (InRange(t, a.n) <==> a.n >= 0 || SignedType(t))
            && (InRange(t, a.n) <==> Convert(t, a.n) == a.n)
  {
    InRangeIsFixed(ResultType(a.t, t2), a.n);
  }

  lemma InRangeIsFixed(t: IntType, n: int)
    ensures InRange(t, n) <==> Convert(t, n) == n
  {
  }

  /** A quotient of converted operands leaves a remainder smaller than the divisor and of the sign of the
      dividend. It fits the result type but for the most negative number divided by -1, which C leaves
      undefined. */
  lemma DivisionTruncates(a: Value, b: Value) returns (q: int, r: int)
    requires a.Number? && b.Number? && b.n != 0
    ensures var t := ResultType(a.t, b.t);
            var x, y := Convert(t, a.n), Convert(t, b.n);
            && x == q * y + r && -(if y < 0 then -y else y) < r < (if y < 0 then -y else y)
            && (r == 0 || (r > 0 <==> x > 0))
            && (InRange(t, q) <==> !(SignedType(t) && y == -1 && 2 * x == -Modulus(t)))
            && (InRange(t, q) ==> Compute(Over, a, b).n == q)
  {
    var t := ResultType(a.t, b.t);
    var x, y := Convert(t, a.n), Convert(t, b.n);
    NonzeroStays(t, a.t, b);
    q, r := QuotientTruncates(x, y);
    InRangeIsFixed(t, q);
    QuotientFits(t, x, y);
  }

  lemma QuotientTruncates(x: int, y: int) returns (q: int, r: int)
    requires y != 0
    ensures q == Quotient(x, y) && x == q * y + r
    ensures -(if y < 0 then -y else y) < r < (if y < 0 then -y else y) && (r == 0 || (r > 0 <==> x > 0))
  {
    hide Quotient;
    var k, m := Euclid(x, y);
    q, r := Quotient(x, y), if x >= 0 then m else -m;
    if x < 0 {
      NegatedProduct(k, y);
    }
  }

  lemma Euclid(x: int, y: int) returns (k: int, m: int)
    requires y != 0
    ensures Quotient(x, y) == if x >= 0 then k else -k
    ensures (if x < 0 then -x else x) == k * y + m && 0 <= m < (if y < 0 then -y else y)
    ensures x == 0 ==> m == 0
  {
    var n := if x < 0 then -x else x;
    k, m := n / y, n % y;
  }

  lemma NegatedProduct(k: int, y: int)
    ensures -k * y == -(k * y)
  {
  }

  /** A quotient leaves the range of its operands only for the most negative number and -1. */
  lemma QuotientFits(t: IntType, x: int, y: int)
    requires y != 0 && InRange(t, x) && InRange(t, y)
    ensures InRange(t, Quotient(x, y)) <==> !(SignedType(t) && y == -1 && 2 * x == -Modulus(t))
  {
    if y == -1 {
      assert Quotient(x, y) == -x;
    } else {
      hide Quotient;
      SmallerQuotient(x, y);
    }
  }

  lemma SmallerQuotient(x: int, y: int)
    requires y != 0 && y != -1
    ensures var q, n := Quotient(x, y), if x < 0 then -x else x;
            && (y > 0 && x >= 0 ==> 0 <= q <= n)
            && (y > 0 && x < 0 ==> -n <= q <= 0)
            && (y < -1 ==> 2 * q <= n && -2 * q <= n)
  {
    var k, m := Euclid(x, y);
    hide Quotient;
    ProductGrows(k, y, m);
  }

  lemma ProductGrows(k: int, y: int, m: int)
    requires y != 0 && k * y + m >= 0 && 0 <= m < (if y < 0 then -y else y)
    ensures y > 0 ==> 0 <= k <= k * y
    ensures y < 0 ==> k <= 0 && -k <= k * y
    ensures y < -1 ==> -2 * k <= k * y
  {
    if y > 0 {
      PositiveGrows(k, y, m);
    } else {
      assert k * y == -k * -y;
      PositiveGrows(-k, -y, m);
      if y < -1 {
        TimesAtLeast(-k, -y, 2);
      }
    }
  }

  lemma PositiveGrows(k: int, y: int, m: int)
    requires y > 0 && k * y + m >= 0 && 0 <= m < y
    ensures 0 <= k <= k * y
  {
    if k < 0 {
      TimesAtLeast(-k, y, 1);
      NegatedProduct(k, y);
      TimesAtLeast(-k - 1, y, 0);
    } else {
      TimesAtLeast(k, y, 1);
    }
  }

  lemma TimesAtLeast(k: int, y: int, c: int)
    requires k >= 0 && y >= c
    ensures k * y >= k * c
  {
  }

  /** Conversion changes a number by a multiple of the modulus. */
  lemma ConvertIsModular(t: IntType, n: int) returns (k: int)
    ensures Convert(t, n) == n + k * Modulus(t)
  {
    match t
    case TInt | TUint | TAddr =>
      k := -(n / 0x1_0000_0000);
      if Convert(t, n) < 0 {
        k := k - 1;
      }
    case TSqword | TQword =>
      k := -(n / 0x1_0000_0000_0000_0000);
      if Convert(t, n) < 0 {
        k := k - 1;
      }
  }

  /** Sums, differences and products are exact up to a multiple of the modulus of the result type, through
      all conversions of the operands. */
  lemma ArithmeticIsModular(op: Operator, a: Value, b: Value) returns (k: int)
    requires a.Number? && b.Number? && op != Over
    ensures var exact := if op == Plus then a.n + b.n else if op == Minus then a.n - b.n else a.n * b.n;
            Compute(op, a, b).n == exact + k * Modulus(ResultType(a.t, b.t))
  {
    var t := ResultType(a.t, b.t);
    var M := Modulus(t);
    var i := ConvertIsModular(t, a.n);
    var j := ConvertIsModular(t, b.n);
    var x, y := Convert(t, a.n), Convert(t, b.n);
    match op
    case Plus =>
      var l := ConvertIsModular(t, x + y);
      k := i + j + l;
      Distribute(M, i, j, l);
    case Minus =>
      var l := ConvertIsModular(t, x - y);
      k := i - j + l;
      Distribute(M, i, -j, l);
    case Times =>
      var l := ConvertIsModular(t, x * y);
      k := a.n * j + i * b.n + i * j * M + l;
      ProductModulo(a.n, b.n, i, j, M);
      Distribute(M, a.n * j + i * b.n + i * j * M, l, 0);
  }

  lemma Distribute(M: int, i: int, j: int, l: int)
    ensures (i + j + l) * M == i * M + j * M + l * M
  {
  }

  lemma ProductModulo(a: int, b: int, i: int, j: int, M: int)
    ensures (a + i * M) * (b + j * M) == a * b + (a * j + i * b + i * j * M) * M
  {
    calc {
      (a + i * M) * (b + j * M);
      a * (b + j * M) + (i * M) * (b + j * M);
      a * b + a * (j * M) + (i * M) * b + (i * M) * (j * M);
      { assert a * (j * M) == (a * j) * M; assert (i * M) * b == (i * b) * M; }
      a * b + (a * j) * M + (i * b) * M + (i * M) * (j * M);
      { assert (i * M) * (j * M) == (i * j * M) * M; }
      a * b + (a * j + i * b + i * j * M) * M;
    }
  }

  /** Negation: an unsigned operand becomes signed, and the most negative integer unsigned. */
  function Negate(a: Value): (r: Value)
    requires a.Number?
    ensures r.Number?
  {
    match a.t
    case TQword => Number(TSqword, Convert(TSqword, -Convert(TSqword, a.n)))
    case TSqword => Number(TSqword, Convert(TSqword, -a.n))
    case TAddr => Number(TAddr, Convert(TAddr, -a.n))
    case TUint =>
      if a.n > 0x8000_0000 then Number(TSqword, -a.n)
      else Number(TInt, Convert(TInt, -Convert(TInt, a.n)))
    case TInt =>
      if a.n == -0x8000_0000 then Number(TUint, 0x8000_0000) else Number(TInt, -a.n)
  }

  /** Through all its promotions negation is exact, except on addresses and at the far end of the 64-bit
      types. */
  lemma NegateIsExact(a: Value)
    requires a.Number?
    ensures Negate(a).n == -a.n <==>
              match a.t
              case TInt | TUint => true
              case TAddr => a.n == 0
              case TSqword => a.n != -0x8000_0000_0000_0000
              case TQword => a.n <= 0x8000_0000_0000_0000
  {
    hide Convert;
    match a.t
    case TQword =>
      WrapSigned(a.n);
      WrapSigned(-Convert(TSqword, a.n));
    case TSqword => WrapSigned(-a.n);
    case TUint => if a.n <= 0x8000_0000 { WrapNarrow(a.n); }
    case TAddr => WrapAddress(a.n);
    case TInt =>
  }

  /** Reading a number near the 64-bit range as signed. */
  lemma WrapSigned(n: int)
    requires -0x8000_0000_0000_0000 <= n < 0x1_0000_0000_0000_0000
    ensures Convert(TSqword, n) == if n < 0x8000_0000_0000_0000 then n else n - 0x1_0000_0000_0000_0000
  {
  }

  lemma WrapNarrow(n: int)
    requires 0 <= n <= 0x8000_0000
    ensures Convert(TInt, -Convert(TInt, n)) == -n
  {
  }

  lemma WrapAddress(n: int)
    requires 0 <= n < 0x1_0000_0000
    ensures Convert(TAddr, -n) == if n == 0 then 0 else 0x1_0000_0000 - n
  {
  }

  // ---- With errors -----------------------------------------------------------------------------

  /** f_neg, with symbols refused. */
  function NegateOutcome(a: Value): Outcome
  {
    if a.Symbol? then Err(BadExpr) else Ok(Negate(a))
  }

  /** A sum, difference or product whose right operand has been evaluated, perhaps with an error; a symbol
      on the left is reported instead of that error. */
  function Combine(op: Operator, a: Value, right: Outcome): Outcome
    requires op != Over
  {
    if a.Symbol? then Err(BadExpr)
    else if right.Err? then right
    else if right.v.Symbol? then Err(BadExpr)
    else Ok(Compute(op, a, right.v))
  }

  /** A quotient: errors on the right come first, then a zero divisor. */
  function Divide(a: Value, right: Outcome): Outcome
  {
    if right.Err? then right
    else if right.v.Number? && right.v.n == 0 then Err(DivByZero)
    else if a.Symbol? || right.v.Symbol? then Err(BadExpr)
    else Ok(Compute(Over, a, right.v))
  }

  function Operate(op: Operator, a: Value, right: Outcome): (r: Outcome)
    ensures r.Ok? ==> right.Ok?
  {
    if op == Over then Divide(a, right) else Combine(op, a, right)
  }
}
