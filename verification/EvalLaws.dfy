// What the values of expressions come to (Lab1-Hazards/eval.c), written out: in which type an operation is carried
// out, when its result is the mathematical one, and what negation yields.
module EvalLaws {
  import opened EvalValues

  /** The types from narrowest to widest. */
  function Rank(t: IntType): nat
  {
    match t
    case TInt => 0
    case TUint => 1
    case TAddr => 2
    case TSqword => 3
    case TQword => 4
  }

  function Low(t: IntType): int
  {
    match t
    case TInt => -2_147_483_648
    case TSqword => -9_223_372_036_854_775_808
    case TUint | TAddr | TQword => 0
  }

  function High(t: IntType): int
  {
    match t
    case TInt => 2_147_483_647
    case TUint | TAddr => 4_294_967_295
    case TSqword => 9_223_372_036_854_775_807
    case TQword => 18_446_744_073_709_551_615
  }

  predicate Fits(t: IntType, n: int)
  {
    Low(t) <= n <= High(t)
  }

  /** An operation is carried out in the wider of the two operand types. */
  lemma WiderType(t1: IntType, t2: IntType)
    ensures ResultType(t1, t2) == if Rank(t1) < Rank(t2) then t2 else t1
  {
  }

  /** A conversion keeps what fits and otherwise adds or takes away whole multiples of 2 to the width. */
  lemma ConversionMeans(t: IntType, n: int) returns (k: int)
    ensures Fits(t, Convert(t, n))
    ensures Fits(t, n) ==> Convert(t, n) == n
    ensures Convert(t, n) ==
            n + k * if t == TSqword || t == TQword then 18_446_744_073_709_551_616 else 4_294_967_296
  {
    k := ConvertIsModular(t, n);
  }

  /** The exact result of an operation; division truncates toward zero. */
  function Exact(op: Operator, x: int, y: int): int
    requires op == Over ==> y != 0
  {
    match op
    case Plus => x + y
    case Minus => x - y
    case Times => x * y
    case Over =>
      if x >= 0 && y > 0 then x / y
      else if x >= 0 then -(x / -y)
      else if y > 0 then -(-x / y)
      else -x / -y
  }

  lemma TruncatedQuotient(x: int, y: int)
    requires y != 0
    ensures Quotient(x, y) == Exact(Over, x, y)
  {
    if y < 0 {
      NegativeDivisor(if x < 0 then -x else x, y);
    }
  }

  lemma NegativeDivisor(n: nat, y: int)
    requires y < 0
    ensures n / y == -(n / -y)
  {
  }

  /** When operands and exact result fit the wider type, the result is exact and of that type. */
  lemma ComputedExactly(op: Operator, a: Value, b: Value)
    requires a.Number? && b.Number? && (op == Over ==> b.n != 0)
    ensures var t := if Rank(a.t) < Rank(b.t) then b.t else a.t;
            Fits(t, a.n) && Fits(t, b.n) && Fits(t, Exact(op, a.n, b.n)) ==>
              Compute(op, a, b) == Number(t, Exact(op, a.n, b.n))
  {
    hide Rank, ResultType, Convert, Fits, Quotient;
    var t := if Rank(a.t) < Rank(b.t) then b.t else a.t;
    WiderType(a.t, b.t);
    if Fits(t, a.n) && Fits(t, b.n) && Fits(t, Exact(op, a.n, b.n)) {
      var _ := ConversionMeans(t, a.n);
      var _ := ConversionMeans(t, b.n);
      var _ := ConversionMeans(t, Exact(op, a.n, b.n));
      if op == Over {
        TruncatedQuotient(a.n, b.n);
      }
    }
  }

  /** In particular for two numbers of type int. */
  lemma IntegersExactly(op: Operator, x: int, y: int)
    requires Fits(TInt, x) && Fits(TInt, y) && (op == Over ==> y != 0)
    ensures Fits(TInt, Exact(op, x, y)) ==>
              Compute(op, Number(TInt, x), Number(TInt, y)) == Number(TInt, Exact(op, x, y))
  {
    ComputedExactly(op, Number(TInt, x), Number(TInt, y));
  }

  /** An operation succeeds on numbers only, and a quotient on a divisor other than zero. An error on the right is
      passed on, except that a symbol on the left of another operator is reported instead. */
  lemma OperationMeans(op: Operator, a: Value, right: Outcome)
    ensures var r := Operate(op, a, right);
            && (r.Ok? <==> a.Number? && right.Ok? && right.v.Number? && (op == Over ==> right.v.n != 0))
            && (r.Ok? ==> r.v == Compute(op, a, right.v))
            && (right.Err? && (op == Over || a.Number?) ==> r == right)
            && (right.Err? && op != Over && a.Symbol? ==> r == Err(BadExpr))
            && (right.Ok? && op == Over && right.v == Number(TInt, 0) ==> r == Err(DivByZero))
            && (right.Ok? && (right.v.Symbol? || (a.Symbol? && (op == Over ==> right.v.n != 0))) ==> r == Err(BadExpr))
            && (right.Ok? && op == Over && right.v.Number? && right.v.n == 0 ==> r == Err(DivByZero))
  {
    hide Compute;
  }

  /** The type and value of a negated number: a signed type for a quadword, int for an unsigned number up to 2 to the
      31st, and an unsigned one for the most negative int. */
  lemma NegationMeans(t: IntType, n: int)
    requires Fits(t, n)
    ensures var r := Negate(Number(t, n));
            match t
            case TInt => r == if n == -2_147_483_648 then Number(TUint, 2_147_483_648) else Number(TInt, -n)
            case TUint => r == if n > 2_147_483_648 then Number(TSqword, -n) else Number(TInt, -n)
            case TAddr => r == Number(TAddr, if n == 0 then 0 else 4_294_967_296 - n)
            case TSqword => r == if n == -9_223_372_036_854_775_808 then Number(TSqword, n) else Number(TSqword, -n)
            case TQword =>
              r == Number(TSqword, if n <= 9_223_372_036_854_775_808 then -n else 18_446_744_073_709_551_616 - n)
  {
    hide Convert;
    match t
    case TQword =>
      WrapSigned(n);
      WrapSigned(-Convert(TSqword, n));
    case TSqword => WrapSigned(-n);
    case TUint => if n <= 2_147_483_648 { WrapNarrow(n); }
    case TAddr => WrapAddress(n);
    case TInt =>
  }

  /** Symbols cannot be negated. */
  lemma NegationOutcome(a: Value)
    ensures NegateOutcome(a) == if a.Symbol? then Err(BadExpr) else Ok(Negate(a))
  {
    hide Negate;
  }
}
