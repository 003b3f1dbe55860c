// The tokens and the grammar of expressions in Lab1-Hazards/eval.c: what the scanner finds, what the
// recursive descent computes on it, and derivation trees of the documented grammar.
module EvalGrammar {
  import opened EvalValues

  datatype Kind =
    | IdentToken | ConstToken | PlusToken | MinusToken | MultToken | DivToken
    | OpenParen | CloseParen | EndOfText | Whitespace | Invalid

  // ---- Scanning ----------------------------------------------------------------------------------

  /** What a token may start with. */
  function KindOf(c: char): Kind
  {
    if 'a' <= c <= 'z' || 'A' <= c <= 'Z' || c == '_' || c == '$' then IdentToken
    else if '0' <= c <= '9' || c == '.' then ConstToken
    else if c == '+' then PlusToken
    else if c == '-' then MinusToken
    else if c == '*' then MultToken
    else if c == '/' then DivToken
    else if c == '(' then OpenParen
    else if c == ')' then CloseParen
    else if c == ' ' || c == '\t' then Whitespace
    else Invalid
  }

  function Lower(c: char): char
  {
    if 'A' <= c <= 'Z' then c - 'A' + 'a' else c
  }

  function SkipSpace(text: string, p: nat): (r: nat)
    requires p <= |text|
    ensures p <= r <= |text|
    ensures forall i :: p <= i < r ==> KindOf(text[i]) == Whitespace
    ensures r < |text| ==> KindOf(text[r]) != Whitespace
    decreases |text| - p
  {
    if p < |text| && KindOf(text[p]) == Whitespace then SkipSpace(text, p + 1) else p
  }

  predicate InIdent(c: char) { KindOf(c) == IdentToken || KindOf(c) == ConstToken }

  function IdentEnd(text: string, p: nat): (r: nat)
    requires p <= |text|
    ensures p <= r <= |text|
    decreases |text| - p
  {
    if p < |text| && InIdent(text[p]) then IdentEnd(text, p + 1) else p
  }

  /** Characters that continue a numeric literal: exponents take a sign, and hex digits follow an x. */
  predicate InConst(c: char, last: char, hex: bool)
  {
    || KindOf(c) == ConstToken
    || ((c == '-' || c == '+') && last == 'e')
    || Lower(c) == 'e' || Lower(c) == 'x'
    || (hex && 'a' <= Lower(c) <= 'f')
  }

  function ConstEnd(text: string, p: nat, last: char, hex: bool): (r: nat)
    requires p <= |text|
    ensures p <= r <= |text|
    decreases |text| - p
  {
    if p < |text| && InConst(text[p], last, hex)
    then ConstEnd(text, p + 1, Lower(text[p]), hex || Lower(text[p]) == 'x')
    else p
  }

  /** A token: its kind, its text, and where it ends. */
  datatype Token = Token(kind: Kind, text: string, end: nat)

  /** The token that starts at a character that is not whitespace. */
  function TokenAt(text: string, s: nat): (t: Token)
    requires s < |text|
    ensures s < t.end <= |text|
    ensures t.kind != EndOfText
  {
    var kind := KindOf(text[s]);
    var end := match kind
      case IdentToken => IdentEnd(text, s + 1)
      case ConstToken => ConstEnd(text, s + 1, '\0', false)
      case _ => s + 1;
    Token(kind, text[s..end], end)
  }

  /** The next token after position p. */
  function Scan(text: string, p: nat): (t: Token)
    requires p <= |text|
    ensures p <= t.end <= |text|
    ensures t.kind != Whitespace
    ensures t.kind == EndOfText || p < t.end
  {
    var s := SkipSpace(text, p);
    if s == |text| then Token(EndOfText, "", s) else TokenAt(text, s)
  }

  /** The scanner loses nothing: what it passes is blanks and then the text of the token. */
  lemma ScanIsSlice(text: string, p: nat) returns (s: nat)
    requires p <= |text|
    ensures var t := Scan(text, p);
            && p <= s <= t.end
            && (forall i :: p <= i < s ==> KindOf(text[i]) == Whitespace)
            && text[s..t.end] == t.text
            && (t.kind == EndOfText <==> s == |text|)
            && (s < |text| ==> KindOf(text[s]) == t.kind)
  {
    hide KindOf, IdentEnd, ConstEnd;
    s := SkipSpace(text, p);
  }

  lemma {:induction false} IdentEndIsMaximal(text: string, p: nat)
    requires p <= |text|
    ensures var r := IdentEnd(text, p);
            && (forall i :: p <= i < r ==> InIdent(text[i]))
            && (r < |text| ==> !InIdent(text[r]))
    decreases |text| - p
  {
    hide KindOf;
    if p < |text| && InIdent(text[p]) {
      IdentEndIsMaximal(text, p + 1);
    }
  }

  /** Identifiers run as far as they can. */
  lemma IdentIsMaximal(text: string, p: nat)
    requires p <= |text| && Scan(text, p).kind == IdentToken
    ensures var t := Scan(text, p);
            && (forall i :: 0 <= i < |t.text| ==> InIdent(t.text[i]))
            && (t.end < |text| ==> !InIdent(text[t.end]))
  {
    var s := SkipSpace(text, p);
    IdentEndIsMaximal(text, s + 1);
    hide KindOf, IdentEnd;
  }

  predicate Digit(c: char) { '0' <= c <= '9' }

  /** What may stand after a number: the end, or a character that neither continues it nor changes how it
      is read. */
  predicate AfterNumber(text: string, p: nat)
    requires p <= |text|
  {
    p < |text| ==> KindOf(text[p]) != IdentToken && KindOf(text[p]) != ConstToken
  }

  lemma {:induction false} DigitsEnd(text: string, p: nat, n: nat, last: char)
    requires p + n <= |text| && last != 'e' && AfterNumber(text, p + n)
    requires forall i :: p <= i < p + n ==> Digit(text[i])
    ensures ConstEnd(text, p, last, false) == p + n
    decreases n
  {
    if n > 0 {
      assert Digit(text[p]);
      DigitsEnd(text, p + 1, n - 1, Lower(text[p]));
    }
  }

  /** A run of digits before an operator, a parenthesis, a blank or the end is one token, and no more. */
  lemma DigitsAreOneToken(text: string, p: nat, n: nat)
    requires n > 0 && p + n <= |text| && AfterNumber(text, p + n)
    requires forall i :: p <= i < p + n ==> Digit(text[i])
    ensures Scan(text, p) == Token(ConstToken, text[p..p + n], p + n)
  {
    assert Digit(text[p]);
    DigitsEnd(text, p + 1, n - 1, '\0');
  }

  // ---- Recursive descent ---------------------------------------------------------------------------

  /** How identifiers and numeric literals get their values. */
  datatype Meaning = Meaning(ident: string -> Outcome, literal: string -> Outcome)

  /** A value or an error, and the position after the last token consumed. */
  datatype Parsed = Parsed(result: Outcome, pos: nat)

  /** Where the scanner stands after the next token has been looked at: a token that is not valid counts as
      no look-ahead, so it is consumed by looking. */
  function Peeked(text: string, p: nat): (q: nat)
    requires p <= |text|
    ensures p <= q <= |text|
  {
    var t := Scan(text, p);
    if t.kind == Invalid then t.end else p
  }

  function FactorAt(m: Meaning, text: string, p: nat): (r: Parsed)
    requires p <= |text|
    ensures p <= r.pos <= |text|
    ensures r.result.Ok? ==> p < r.pos
    decreases |text| - p, 0
  {
    var t := Scan(text, p);
    if t.kind == OpenParen then GroupAt(m, text, t.end)
    else if t.kind == MinusToken then
      var r := FactorAt(m, text, t.end);
      if r.result.Err? then r else Parsed(NegateOutcome(r.result.v), r.pos)
    else if t.kind == IdentToken then Parsed(m.ident(t.text), t.end)
    else if t.kind == ConstToken then Parsed(m.literal(t.text), t.end)
    else Parsed(Err(NoTerm), Peeked(text, p))
  }

  /** An expression up to and including a closing parenthesis. */
  function GroupAt(m: Meaning, text: string, p: nat): (r: Parsed)
    requires p <= |text|
    ensures p <= r.pos <= |text|
    decreases |text| - p, 3
  {
    var r := ExprAt(m, text, p);
    if r.result.Err? then r
    else
      var c := Scan(text, r.pos);
      if c.kind != CloseParen then Parsed(Err(UnmatchedParen), Peeked(text, r.pos))
      else Parsed(r.result, c.end)
  }

  function TermAt(m: Meaning, text: string, p: nat): (r: Parsed)
    requires p <= |text|
    ensures p <= r.pos <= |text|
    ensures r.result.Ok? ==> p < r.pos
    decreases |text| - p, 1
  {
    var f := FactorAt(m, text, p);
    if f.result.Err? then f
    else
      var t := Scan(text, f.pos);
      if t.kind == MultToken || t.kind == DivToken then
        var r := TermAt(m, text, t.end);
        Parsed(Operate(if t.kind == MultToken then Times else Over, f.result.v, r.result), r.pos)
      else Parsed(f.result, Peeked(text, f.pos))
  }

  function ExprAt(m: Meaning, text: string, p: nat): (r: Parsed)
    requires p <= |text|
    ensures p <= r.pos <= |text|
    ensures r.result.Ok? ==> p < r.pos
    decreases |text| - p, 2
  {
    var f := TermAt(m, text, p);
    if f.result.Err? then f
    else
      var t := Scan(text, f.pos);
      if t.kind == PlusToken || t.kind == MinusToken then
        var r := ExprAt(m, text, t.end);
        Parsed(Operate(if t.kind == PlusToken then Plus else Minus, f.result.v, r.result), r.pos)
      else Parsed(f.result, Peeked(text, f.pos))
  }

  // ---- Derivation trees ------------------------------------------------------------------------------

  datatype FactorTree =
    | Grouped(e: ExprTree)
    | Negated(f: FactorTree)
    | Named(name: string)
    | Literal(digits: string)

  datatype TermTree =
    | OneFactor(f: FactorTree)
    | Multiplied(f: FactorTree, times: bool, rest: TermTree)

  datatype ExprTree =
    | OneTerm(t: TermTree)
    | Added(t: TermTree, plus: bool, rest: ExprTree)

  /** A token without its place. */
  datatype Lexeme = Lexeme(kind: Kind, text: string)

  function FactorLexemes(f: FactorTree): seq<Lexeme>
  {
    match f
    case Grouped(e) => [Lexeme(OpenParen, "(")] + ExprLexemes(e) + [Lexeme(CloseParen, ")")]
    case Negated(g) => [Lexeme(MinusToken, "-")] + FactorLexemes(g)
    case Named(name) => [Lexeme(IdentToken, name)]
    case Literal(digits) => [Lexeme(ConstToken, digits)]
  }

  function TermLexemes(t: TermTree): seq<Lexeme>
  {
    match t
    case OneFactor(f) => FactorLexemes(f)
    case Multiplied(f, times, rest) =>
      FactorLexemes(f) + [if times then Lexeme(MultToken, "*") else Lexeme(DivToken, "/")] + TermLexemes(rest)
  }

  function ExprLexemes(e: ExprTree): seq<Lexeme>
  {
    match e
    case OneTerm(t) => TermLexemes(t)
    case Added(t, plus, rest) =>
      TermLexemes(t) + [if plus then Lexeme(PlusToken, "+") else Lexeme(MinusToken, "-")] + ExprLexemes(rest)
  }

  function FactorValue(m: Meaning, f: FactorTree): Outcome
  {
    match f
    case Grouped(e) => ExprValue(m, e)
    case Negated(g) => var v := FactorValue(m, g); if v.Err? then v else NegateOutcome(v.v)
    case Named(name) => m.ident(name)
    case Literal(digits) => m.literal(digits)
  }

  function TermValue(m: Meaning, t: TermTree): Outcome
  {
    match t
    case OneFactor(f) => FactorValue(m, f)
    case Multiplied(f, times, rest) =>
      var v := FactorValue(m, f);
      if v.Err? then v else Operate(if times then Times else Over, v.v, TermValue(m, rest))
  }

  /** Operators of one level group to the right: a - b - c is a - (b - c). */
  function ExprValue(m: Meaning, e: ExprTree): Outcome
  {
    match e
    case OneTerm(t) => TermValue(m, t)
    case Added(t, plus, rest) =>
      var v := TermValue(m, t);
      if v.Err? then v else Operate(if plus then Plus else Minus, v.v, ExprValue(m, rest))
  }

  // ---- Text that spells lexemes ------------------------------------------------------------------------

  /** Where the scanner stands after n tokens from p. */
  function After(text: string, p: nat, n: nat): (q: nat)
    requires p <= |text|
    ensures p <= q <= |text|
    decreases n
  {
    if n == 0 then p else After(text, Scan(text, p).end, n - 1)
  }

  /** The first n lexemes from p. */
  function Lexemes(text: string, p: nat, n: nat): (ls: seq<Lexeme>)
    requires p <= |text|
    ensures |ls| == n
    decreases n
  {
    if n == 0 then []
    else
      var t := Scan(text, p);
      [Lexeme(t.kind, t.text)] + Lexemes(text, t.end, n - 1)
  }

  /** The tokens from p reach position q, and none of them is invalid. */
  predicate CleanTo(text: string, p: nat, q: nat)
    requires p <= |text|
    decreases |text| - p
  {
    p == q ||
    var t := Scan(text, p);
    p < q && t.kind != Invalid && t.kind != EndOfText && CleanTo(text, t.end, q)
  }

  lemma {:induction false} AfterSplit(text: string, p: nat, a: nat, b: nat)
    requires p <= |text|
    ensures After(text, p, a + b) == After(text, After(text, p, a), b)
    ensures Lexemes(text, p, a + b) == Lexemes(text, p, a) + Lexemes(text, After(text, p, a), b)
    decreases a
  {
    hide Scan;
    if a > 0 {
      AfterSplit(text, Scan(text, p).end, a - 1, b);
    }
  }

  /** Text that spells lexemes can be read in two parts. */
  lemma SpelledInParts(text: string, p: nat, xs: seq<Lexeme>, ys: seq<Lexeme>)
    requires p <= |text| && Lexemes(text, p, |xs + ys|) == xs + ys
    ensures var q := After(text, p, |xs|);
            && Lexemes(text, p, |xs|) == xs && Lexemes(text, q, |ys|) == ys
            && After(text, p, |xs + ys|) == After(text, q, |ys|)
  {
    hide Lexemes, After;
    AfterSplit(text, p, |xs|, |ys|);
    var q := After(text, p, |xs|);
    assert Lexemes(text, p, |xs|) == (Lexemes(text, p, |xs|) + Lexemes(text, q, |ys|))[..|xs|] == xs;
    assert Lexemes(text, q, |ys|) == (Lexemes(text, p, |xs|) + Lexemes(text, q, |ys|))[|xs|..] == ys;
  }

  lemma SpelledOne(text: string, p: nat, l: Lexeme)
    requires p <= |text| && Lexemes(text, p, 1) == [l]
    ensures Scan(text, p).kind == l.kind && Scan(text, p).text == l.text && After(text, p, 1) == Scan(text, p).end
  {
    hide Scan;
    assert Lexemes(text, p, 1)[0] == l;
  }

  /** What is clean can be cut after any token. */
  lemma {:induction false} CleanSplit(text: string, p: nat, q: nat, n: nat)
    requires p <= |text| && CleanTo(text, p, q) && After(text, p, n) <= q
    ensures CleanTo(text, p, After(text, p, n)) && CleanTo(text, After(text, p, n), q)
    decreases n
  {
    hide Scan;
    if n > 0 && p != q {
      CleanSplit(text, Scan(text, p).end, q, n - 1);
    }
  }

  lemma CleanStep(text: string, p: nat, q: nat)
    requires p <= |text| && CleanTo(text, p, q) && p != q
    ensures var t := Scan(text, p);
            t.kind != Invalid && t.kind != EndOfText && CleanTo(text, t.end, q) && p < t.end <= q
  {
    hide Scan;
    CleanBounds(text, Scan(text, p).end, q);
  }

  lemma CleanBounds(text: string, p: nat, q: nat)
    requires p <= |text| && CleanTo(text, p, q)
    ensures p <= q
  {
    hide Scan;
  }

  /** Lexemes that are neither invalid nor the end spell clean text. */
  lemma {:induction false} SpelledIsClean(text: string, p: nat, ls: seq<Lexeme>)
    requires p <= |text| && Lexemes(text, p, |ls|) == ls
    requires forall l <- ls :: l.kind != Invalid && l.kind != EndOfText
    ensures CleanTo(text, p, After(text, p, |ls|))
    decreases |ls|
  {
    hide Scan;
    if ls != [] {
      var t := Scan(text, p);
      assert ls[0] == Lexeme(t.kind, t.text) && ls[0] in ls;
      assert ls[1..] == Lexemes(text, t.end, |ls| - 1);
      SpelledIsClean(text, t.end, ls[1..]);
    }
  }

  lemma SpelledTogether(text: string, p: nat, xs: seq<Lexeme>, ys: seq<Lexeme>)
    requires p <= |text| && Lexemes(text, p, |xs|) == xs
    requires Lexemes(text, After(text, p, |xs|), |ys|) == ys
    ensures Lexemes(text, p, |xs + ys|) == xs + ys
    ensures After(text, p, |xs + ys|) == After(text, After(text, p, |xs|), |ys|)
  {
    hide *;
    AfterSplit(text, p, |xs|, |ys|);
    assert |xs + ys| == |xs| + |ys|;
  }

  lemma OneSpelled(text: string, p: nat, l: Lexeme)
    requires p <= |text| && Scan(text, p).kind == l.kind && Scan(text, p).text == l.text
    ensures Lexemes(text, p, 1) == [l] && After(text, p, 1) == Scan(text, p).end
  {
    hide Scan;
    assert Lexemes(text, Scan(text, p).end, 0) == [];
  }

  /** Tokens of one character are spelled by it. */
  lemma Punctuation(text: string, p: nat)
    requires p <= |text|
    ensures var t := Scan(text, p);
            match t.kind
            case OpenParen => t.text == "("
            case CloseParen => t.text == ")"
            case PlusToken => t.text == "+"
            case MinusToken => t.text == "-"
            case MultToken => t.text == "*"
            case DivToken => t.text == "/"
            case _ => true
  {
  }

  // ---- The evaluator computes what a tree means ------------------------------------------------------------

  /** The token after an expression neither continues it nor is invalid. */
  predicate EndsExpr(k: Kind) { EndsTerm(k) && k != PlusToken && k != MinusToken }

  predicate EndsTerm(k: Kind) { k != MultToken && k != DivToken && k != Invalid }

  lemma {:induction false} FactorComplete(m: Meaning, text: string, p: nat, f: FactorTree)
    requires p <= |text| && Lexemes(text, p, |FactorLexemes(f)|) == FactorLexemes(f)
    ensures FactorAt(m, text, p).result == FactorValue(m, f)
    ensures FactorValue(m, f).Ok? ==> FactorAt(m, text, p).pos == After(text, p, |FactorLexemes(f)|)
    decreases f
  {
    hide Scan, Lexemes, After;
    match f
    case Grouped(e) =>
      SpelledInParts(text, p, [Lexeme(OpenParen, "(")] + ExprLexemes(e), [Lexeme(CloseParen, ")")]);
      SpelledInParts(text, p, [Lexeme(OpenParen, "(")], ExprLexemes(e));
      SpelledOne(text, p, Lexeme(OpenParen, "("));
      var q := After(text, Scan(text, p).end, |ExprLexemes(e)|);
      SpelledOne(text, q, Lexeme(CloseParen, ")"));
      ExprComplete(m, text, Scan(text, p).end, e);
    case Negated(g) =>
      SpelledInParts(text, p, [Lexeme(MinusToken, "-")], FactorLexemes(g));
      SpelledOne(text, p, Lexeme(MinusToken, "-"));
      FactorComplete(m, text, Scan(text, p).end, g);
    case Named(name) => SpelledOne(text, p, Lexeme(IdentToken, name));
    case Literal(digits) => SpelledOne(text, p, Lexeme(ConstToken, digits));
  }

  lemma {:induction false} TermComplete(m: Meaning, text: string, p: nat, t: TermTree)
    requires p <= |text| && Lexemes(text, p, |TermLexemes(t)|) == TermLexemes(t)
    requires EndsTerm(Scan(text, After(text, p, |TermLexemes(t)|)).kind)
    ensures TermAt(m, text, p).result == TermValue(m, t)
    ensures TermValue(m, t).Ok? ==> TermAt(m, text, p).pos == After(text, p, |TermLexemes(t)|)
    decreases t
  {
    hide Scan, Lexemes, After, FactorAt, FactorValue, Operate;
    match t
    case OneFactor(f) => FactorComplete(m, text, p, f);
    case Multiplied(f, times, rest) =>
      var op := if times then Lexeme(MultToken, "*") else Lexeme(DivToken, "/");
      SpelledInParts(text, p, FactorLexemes(f) + [op], TermLexemes(rest));
      SpelledInParts(text, p, FactorLexemes(f), [op]);
      FactorComplete(m, text, p, f);
      var q := After(text, p, |FactorLexemes(f)|);
      SpelledOne(text, q, op);
      TermComplete(m, text, Scan(text, q).end, rest);
  }

  /** Text that spells a tree, followed by a token that does not continue it, evaluates to what the tree
      means, errors included, and consumes exactly the tree. */
  lemma {:induction false} ExprComplete(m: Meaning, text: string, p: nat, e: ExprTree)
    requires p <= |text| && Lexemes(text, p, |ExprLexemes(e)|) == ExprLexemes(e)
    requires EndsExpr(Scan(text, After(text, p, |ExprLexemes(e)|)).kind)
    ensures ExprAt(m, text, p).result == ExprValue(m, e)
    ensures ExprValue(m, e).Ok? ==> ExprAt(m, text, p).pos == After(text, p, |ExprLexemes(e)|)
    decreases e
  {
    hide Scan, Lexemes, After, TermAt, TermValue, Operate;
    match e
    case OneTerm(t) => TermComplete(m, text, p, t);
    case Added(t, plus, rest) =>
      var op := if plus then Lexeme(PlusToken, "+") else Lexeme(MinusToken, "-");
      SpelledInParts(text, p, TermLexemes(t) + [op], ExprLexemes(rest));
      SpelledInParts(text, p, TermLexemes(t), [op]);
      var q := After(text, p, |TermLexemes(t)|);
      SpelledOne(text, q, op);
      TermComplete(m, text, p, t);
      ExprComplete(m, text, Scan(text, q).end, rest);
  }

  // ---- Positions are reached token by token ------------------------------------------------------------------

  lemma PeekReaches(text: string, p: nat) returns (n: nat)
    requires p <= |text|
    ensures After(text, p, n) == Peeked(text, p)
  {
    hide Scan;
    n := if Scan(text, p).kind == Invalid then 1 else 0;
    OneStep(text, p);
  }

  lemma OneStep(text: string, p: nat)
    requires p <= |text|
    ensures After(text, p, 0) == p && After(text, p, 1) == Scan(text, p).end
  {
    hide Scan;
  }

  lemma {:induction false} FactorReaches(m: Meaning, text: string, p: nat) returns (n: nat)
    requires p <= |text|
    ensures After(text, p, n) == FactorAt(m, text, p).pos
    decreases |text| - p, 0
  {
    hide Scan, After, Peeked, NegateOutcome, GroupAt;
    var t := Scan(text, p);
    OneStep(text, p);
    if t.kind == OpenParen {
      var k := GroupReaches(m, text, t.end);
      AfterSplit(text, p, 1, k);
      n := 1 + k;
    } else if t.kind == MinusToken {
      var k := FactorReaches(m, text, t.end);
      AfterSplit(text, p, 1, k);
      n := 1 + k;
    } else if t.kind == IdentToken || t.kind == ConstToken {
      n := 1;
    } else {
      n := PeekReaches(text, p);
    }
  }

  lemma {:induction false} GroupReaches(m: Meaning, text: string, p: nat) returns (n: nat)
    requires p <= |text|
    ensures After(text, p, n) == GroupAt(m, text, p).pos
    decreases |text| - p, 3
  {
    hide Scan, After, Peeked, ExprAt;
    var r := ExprAt(m, text, p);
    n := ExprReaches(m, text, p);
    if r.result.Ok? {
      OneStep(text, r.pos);
      var k := PeekReaches(text, r.pos);
      k := if Scan(text, r.pos).kind != CloseParen then k else 1;
      AfterSplit(text, p, n, k);
      n := n + k;
    }
  }

  lemma {:induction false} TermReaches(m: Meaning, text: string, p: nat) returns (n: nat)
    requires p <= |text|
    ensures After(text, p, n) == TermAt(m, text, p).pos
    decreases |text| - p, 1
  {
    hide Scan, After, Peeked, FactorAt, Operate;
    var f := FactorAt(m, text, p);
    n := FactorReaches(m, text, p);
    if f.result.Ok? {
      var t := Scan(text, f.pos);
      var k := PeekReaches(text, f.pos);
      if t.kind == MultToken || t.kind == DivToken {
        OneStep(text, f.pos);
        var l := TermReaches(m, text, t.end);
        AfterSplit(text, f.pos, 1, l);
        k := 1 + l;
      }
      AfterSplit(text, p, n, k);
      n := n + k;
    }
  }

  lemma {:induction false} ExprReaches(m: Meaning, text: string, p: nat) returns (n: nat)
    requires p <= |text|
    ensures After(text, p, n) == ExprAt(m, text, p).pos
    decreases |text| - p, 2
  {
    hide Scan, After, Peeked, TermAt, Operate;
    var f := TermAt(m, text, p);
    n := TermReaches(m, text, p);
    if f.result.Ok? {
      var t := Scan(text, f.pos);
      var k := PeekReaches(text, f.pos);
      if t.kind == PlusToken || t.kind == MinusToken {
        OneStep(text, f.pos);
        var l := ExprReaches(m, text, t.end);
        AfterSplit(text, f.pos, 1, l);
        k := 1 + l;
      }
      AfterSplit(text, p, n, k);
      n := n + k;
    }
  }

  // ---- And computes nothing else -----------------------------------------------------------------------------

  /** Looking ahead from the last place of clean text consumes nothing. */
  lemma CleanPeek(text: string, p: nat, q: nat)
    requires p <= |text| && CleanTo(text, p, q) && q == Peeked(text, p)
    ensures q == p && Scan(text, p).kind != Invalid
  {
    hide Scan;
  }

  lemma {:induction false} FactorSound(m: Meaning, text: string, p: nat) returns (f: FactorTree)
    requires p <= |text| && FactorAt(m, text, p).result.Ok? && CleanTo(text, p, FactorAt(m, text, p).pos)
    ensures Lexemes(text, p, |FactorLexemes(f)|) == FactorLexemes(f)
    ensures FactorAt(m, text, p) == Parsed(FactorValue(m, f), After(text, p, |FactorLexemes(f)|))
    decreases |text| - p, 0
  {
    hide Scan, Lexemes, After, CleanTo, NegateOutcome, Peeked;
    var t := Scan(text, p);
    var l := Lexeme(t.kind, t.text);
    Punctuation(text, p);
    OneSpelled(text, p, l);
    CleanStep(text, p, FactorAt(m, text, p).pos);
    if t.kind == OpenParen {
      var r := ExprAt(m, text, t.end);
      var n := ExprReaches(m, text, t.end);
      CleanSplit(text, t.end, FactorAt(m, text, p).pos, n);
      var e := ExprSound(m, text, t.end);
      var c := Scan(text, r.pos);
      Punctuation(text, r.pos);
      OneSpelled(text, r.pos, Lexeme(c.kind, c.text));
      SpelledTogether(text, p, [l], ExprLexemes(e));
      SpelledTogether(text, p, [l] + ExprLexemes(e), [Lexeme(c.kind, c.text)]);
      f := Grouped(e);
    } else if t.kind == MinusToken {
      var g := FactorSound(m, text, t.end);
      SpelledTogether(text, p, [l], FactorLexemes(g));
      f := Negated(g);
    } else if t.kind == IdentToken {
      f := Named(t.text);
    } else {
      f := Literal(t.text);
    }
  }

  lemma {:induction false} TermSound(m: Meaning, text: string, p: nat) returns (t: TermTree)
    requires p <= |text| && TermAt(m, text, p).result.Ok? && CleanTo(text, p, TermAt(m, text, p).pos)
    ensures Lexemes(text, p, |TermLexemes(t)|) == TermLexemes(t)
    ensures TermAt(m, text, p) == Parsed(TermValue(m, t), After(text, p, |TermLexemes(t)|))
    ensures EndsTerm(Scan(text, TermAt(m, text, p).pos).kind)
    decreases |text| - p, 1
  {
    hide Scan, Lexemes, After, CleanTo, FactorAt, Operate, Peeked;
    var q, end := FactorAt(m, text, p).pos, TermAt(m, text, p).pos;
    var n := FactorReaches(m, text, p);
    CleanSplit(text, p, end, n);
    var f := FactorSound(m, text, p);
    var o := Scan(text, q);
    if o.kind == MultToken || o.kind == DivToken {
      var op := Lexeme(o.kind, o.text);
      Punctuation(text, q);
      OneSpelled(text, q, op);
      CleanStep(text, q, end);
      var rest := TermSound(m, text, o.end);
      SpelledTogether(text, p, FactorLexemes(f), [op]);
      SpelledTogether(text, p, FactorLexemes(f) + [op], TermLexemes(rest));
      t := Multiplied(f, o.kind == MultToken, rest);
    } else {
      CleanPeek(text, q, end);
      t := OneFactor(f);
    }
  }

  /** If no token consumed is invalid, an expression that evaluates has a tree that it spells: the evaluator
      consumes exactly the tree, leaves no operator after it, and computes what it means. */
  lemma {:induction false} ExprSound(m: Meaning, text: string, p: nat) returns (e: ExprTree)
    requires p <= |text| && ExprAt(m, text, p).result.Ok? && CleanTo(text, p, ExprAt(m, text, p).pos)
    ensures Derived(m, text, p, e)
    ensures EndsExpr(Scan(text, ExprAt(m, text, p).pos).kind)
    decreases |text| - p, 2
  {
    hide Scan, Lexemes, After, CleanTo, TermAt, Operate, Peeked;
    var q, end := TermAt(m, text, p).pos, ExprAt(m, text, p).pos;
    var n := TermReaches(m, text, p);
    CleanSplit(text, p, end, n);
    var t := TermSound(m, text, p);
    var o := Scan(text, q);
    if o.kind == PlusToken || o.kind == MinusToken {
      var op := Lexeme(o.kind, o.text);
      Punctuation(text, q);
      OneSpelled(text, q, op);
      CleanStep(text, q, end);
      var rest := ExprSound(m, text, o.end);
      SpelledTogether(text, p, TermLexemes(t), [op]);
      SpelledTogether(text, p, TermLexemes(t) + [op], ExprLexemes(rest));
      e := Added(t, o.kind == PlusToken, rest);
    } else {
      CleanPeek(text, q, end);
      e := OneTerm(t);
    }
  }

  /** The text from p spells e, and evaluating it consumes exactly e and gives what e means. */
  predicate Derived(m: Meaning, text: string, p: nat, e: ExprTree)
    requires p <= |text|
  {
    && Lexemes(text, p, |ExprLexemes(e)|) == ExprLexemes(e)
    && ExprAt(m, text, p) == Parsed(ExprValue(m, e), After(text, p, |ExprLexemes(e)|))
  }

  predicate Ordinary(ls: seq<Lexeme>)
  {
    forall l <- ls :: l.kind != Invalid && l.kind != EndOfText
  }

  /** No tree has an invalid lexeme. */
  lemma FactorOrdinary(f: FactorTree)
    ensures Ordinary(FactorLexemes(f))
    decreases f
  {
    match f
    case Grouped(e) => ExprOrdinary(e);
    case Negated(g) => FactorOrdinary(g);
    case _ =>
  }

  lemma TermOrdinary(t: TermTree)
    ensures Ordinary(TermLexemes(t))
    decreases t
  {
    FactorOrdinary(t.f);
    if t.Multiplied? {
      TermOrdinary(t.rest);
    }
  }

  lemma ExprOrdinary(e: ExprTree)
    ensures Ordinary(ExprLexemes(e))
    decreases e
  {
    TermOrdinary(e.t);
    if e.Added? {
      ExprOrdinary(e.rest);
    }
  }

  /** A value that is computed is that of a derivation of exactly the text consumed if and only if no token
      consumed is invalid. */
  lemma {:induction false} DerivedIffClean(m: Meaning, text: string, p: nat)
    requires p <= |text| && ExprAt(m, text, p).result.Ok?
    ensures (exists e :: Derived(m, text, p, e)) <==> CleanTo(text, p, ExprAt(m, text, p).pos)
  {
    hide CleanTo, ExprAt, Scan;
    if CleanTo(text, p, ExprAt(m, text, p).pos) {
      var e := ExprSound(m, text, p);
    }
    if exists e :: Derived(m, text, p, e) {
      var e :| Derived(m, text, p, e);
      ExprOrdinary(e);
      SpelledIsClean(text, p, ExprLexemes(e));
    }
  }

  lemma InvalidText()
    ensures var text := "1@+2";
            && Scan(text, 0) == Token(ConstToken, "1", 1)
            && Scan(text, 1).kind == Invalid && Scan(text, 1).end == 2
            && Scan(text, 2).kind == PlusToken && Scan(text, 2).end == 3
            && Scan(text, 3) == Token(ConstToken, "2", 4)
            && Scan(text, 4).kind == EndOfText
  {
    var text := "1@+2";
    assert text[0..1] == "1" && text[3..4] == "2";
    assert ConstEnd(text, 1, '\0', false) == 1;
    assert ConstEnd(text, 4, '\0', false) == 4;
  }

  /** An invalid token where an operator may follow is dropped: the sum is computed as if it were not there. */
  lemma {:induction false} InvalidIsDropped(m: Meaning)
    requires m.literal("1").Ok? && m.literal("2").Ok?
    ensures ExprAt(m, "1@+2", 0) == Parsed(Operate(Plus, m.literal("1").v, m.literal("2")), 4)
    ensures !CleanTo("1@+2", 0, 4)
  {
    InvalidText();
    hide Scan, Operate;
    var text := "1@+2";
    assert TermAt(m, text, 0) == Parsed(m.literal("1"), 2);
    assert ExprAt(m, text, 3) == Parsed(m.literal("2"), 4);
  }
}
