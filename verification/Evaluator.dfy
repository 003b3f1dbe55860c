// The expression evaluator of Lab1-Hazards/eval.c: a scanner with one token of look-ahead and the mutually
// recursive procedures that evaluate while they parse.
module Evaluator {
  import opened EvalValues
  import opened EvalGrammar

  lemma OneMore(before: string, text: string, a: nat, p: nat)
    requires a <= p < |text|
    ensures before + text[a..p] + [text[p]] == before + text[a..p + 1]
  {
    assert text[a..p] + [text[p]] == text[a..p + 1];
  }

  lemma FirstAndRest(text: string, a: nat, p: nat)
    requires a < p <= |text|
    ensures [text[a]] + text[a + 1..p] == text[a..p]
  {
  }

  datatype Error = NoError | Failed(e: Failure)

  class EvalState {
    var text: string
    var p: nat
    var lastp: nat
    var tokBuf: string
    /** The look-ahead token; an invalid one stands for none. */
    var peekTok: Kind
    var evalError: Error
    const meaning: Meaning

    /** The last token consumed ends at q, whether or not the next one has been looked at. */
    ghost predicate At(q: nat)
      reads this
    {
      && q <= |text|
      && if peekTok == Invalid then p == q
         else lastp == q && Scan(text, q) == Token(peekTok, tokBuf, p)
    }

    constructor (meaning: Meaning)
      ensures this.meaning == meaning && evalError == NoError
    {
      this.meaning := meaning;
      text, p, lastp, tokBuf, peekTok, evalError := "", 0, 0, "", Invalid, NoError;
    }

    /** The next token: the one looked at, or else the next in the text. */
    method GetNextToken(ghost q: nat) returns (tok: Kind)
      requires At(q)
      modifies `p, `tokBuf, `peekTok
      ensures peekTok == Invalid
      ensures tok == Scan(text, q).kind && tokBuf == Scan(text, q).text && p == Scan(text, q).end
    {
      if peekTok != Invalid {
        tok := peekTok;
        peekTok := Invalid;
        return;
      }
      hide Scan;
      tok := ReadToken();
    }

    /** Read a token from the text. */
    method ReadToken() returns (tok: Kind)
      requires p <= |text|
      modifies `p, `tokBuf
      ensures Scan(text, old(p)) == Token(tok, tokBuf, p)
    {
      tokBuf := "";
      SkipWhitespace();
      if p == |text| {
        return EndOfText;
      }
      ghost var s := p;
      hide SkipSpace;
      tokBuf := tokBuf + [text[p]];
      tok := KindOf(text[p]);
      p := p + 1;
      if tok == IdentToken {
        ReadIdent();
      } else if tok == ConstToken {
        ReadConst();
      }
      FirstAndRest(text, s, p);
    }

    method SkipWhitespace()
      requires p <= |text|
      modifies `p
      ensures p == SkipSpace(text, old(p))
    {
      while p < |text| && KindOf(text[p]) == Whitespace
        invariant p <= |text| && SkipSpace(text, p) == SkipSpace(text, old(p))
      {
        p := p + 1;
      }
    }

    method ReadIdent()
      requires p <= |text|
      modifies `p, `tokBuf
      ensures p == IdentEnd(text, old(p))
      ensures tokBuf == old(tokBuf) + text[old(p)..p]
    {
      while p < |text| && InIdent(text[p])
        invariant old(p) <= p <= |text| && tokBuf == old(tokBuf) + text[old(p)..p]
        invariant IdentEnd(text, p) == IdentEnd(text, old(p))
      {
        OneMore(old(tokBuf), text, old(p), p);
        tokBuf := tokBuf + [text[p]];
        p := p + 1;
      }
    }

    method ReadConst()
      requires p <= |text|
      modifies `p, `tokBuf
      ensures p == ConstEnd(text, old(p), '\0', false)
      ensures tokBuf == old(tokBuf) + text[old(p)..p]
    {
      hide InConst;
      var lastChar, allowHex := '\0', false;
      while p < |text| && InConst(text[p], lastChar, allowHex)
        invariant old(p) <= p <= |text| && tokBuf == old(tokBuf) + text[old(p)..p]
        invariant ConstEnd(text, p, lastChar, allowHex) == ConstEnd(text, old(p), '\0', false)
      {
        lastChar := Lower(text[p]);
        if text[p] == 'x' || text[p] == 'X' {
          allowHex := true;
        }
        OneMore(old(tokBuf), text, old(p), p);
        tokBuf := tokBuf + [text[p]];
        p := p + 1;
      }
    }

    /** Look at the next token. */
    method PeekNextToken(ghost q: nat) returns (tok: Kind)
      requires At(q)
      modifies `p, `lastp, `tokBuf, `peekTok
      ensures tok == Scan(text, q).kind == peekTok
      ensures At(Peeked(text, q))
    {
      if peekTok == Invalid {
        lastp := p;
        peekTok := GetNextToken(q);
      }
      tok := peekTok;
    }

    /** What a procedure returns and leaves behind, by what the recursive descent computes. */
    ghost predicate Done(r: Parsed, val: Value)
      reads this
    {
      && At(r.pos)
      && match r.result
         case Ok(v) => evalError == NoError && val == v
         case Err(e) => evalError == Failed(e) && val == Number(TInt, 0)
    }

    method Factor(ghost q: nat) returns (val: Value)
      requires At(q) && evalError == NoError
      modifies `p, `lastp, `tokBuf, `peekTok, `evalError
      ensures Done(FactorAt(meaning, text, q), val)
      decreases |text| - q, 0
    {
      hide Scan, NegateOutcome, GroupAt;
      var tok := PeekNextToken(q);
      if tok == OpenParen {
        var _ := GetNextToken(q);
        val := Group(p);
      } else if tok == MinusToken {
        var _ := GetNextToken(q);
        val := Factor(p);
        if evalError != NoError {
          return ERR_VALUE;
        }
        val := Finish(NegateOutcome(val));
      } else if tok == IdentToken {
        var _ := GetNextToken(q);
        val := Finish(meaning.ident(tokBuf));
      } else if tok == ConstToken {
        var _ := GetNextToken(q);
        val := Finish(meaning.literal(tokBuf));
      } else {
        evalError := Failed(NoTerm);
        return ERR_VALUE;
      }
    }

    /** The rest of a factor after its opening parenthesis. */
    method Group(ghost q: nat) returns (val: Value)
      requires At(q) && evalError == NoError
      modifies `p, `lastp, `tokBuf, `peekTok, `evalError
      ensures Done(GroupAt(meaning, text, q), val)
      decreases |text| - q, 3
    {
      hide Scan, ExprAt;
      ghost var r := ExprAt(meaning, text, q);
      val := Expr(q);
      if evalError != NoError {
        return ERR_VALUE;
      }
      var tok := PeekNextToken(r.pos);
      if tok != CloseParen {
        evalError := Failed(UnmatchedParen);
        return ERR_VALUE;
      }
      var _ := GetNextToken(r.pos);
    }

    /** Record the error of an operation, if it has one. */
    method Finish(o: Outcome) returns (val: Value)
      modifies `evalError
      ensures match o
              case Ok(v) => evalError == old(evalError) && val == v
              case Err(e) => evalError == Failed(e) && val == Number(TInt, 0)
    {
      match o
      case Ok(v) => val := v;
      case Err(e) =>
        evalError := Failed(e);
        val := ERR_VALUE;
    }

    /** What has been evaluated on the right of an operator, as one outcome. */
    function Evaluated(val: Value): Outcome
      reads this
    {
      if evalError == NoError then Ok(val) else Err(evalError.e)
    }

    /** Apply an operator other than division to the value on its left and what came out on its right. */
    method Apply(op: Operator, left: Value, right: Value, ghost r: Parsed) returns (val: Value)
      requires op != Over && Done(r, right)
      modifies `evalError
      ensures Done(Parsed(Operate(op, left, r.result), r.pos), val)
    {
      hide Scan, Compute;
      val := Finish(Combine(op, left, Evaluated(right)));
    }

    /** Divide, unless there was an error on the right or the divisor is zero. */
    method Quotient(left: Value, right: Value, ghost r: Parsed) returns (val: Value)
      requires Done(r, right)
      modifies `evalError
      ensures Done(Parsed(Operate(Over, left, r.result), r.pos), val)
    {
      hide Scan, Compute;
      if evalError != NoError {
        return ERR_VALUE;
      }
      if right.Number? && right.n == 0 {
        evalError := Failed(DivByZero);
        return ERR_VALUE;
      }
      val := Finish(Divide(left, Ok(right)));
    }

    method Term(ghost q: nat) returns (val: Value)
      requires At(q) && evalError == NoError
      modifies `p, `lastp, `tokBuf, `peekTok, `evalError
      ensures Done(TermAt(meaning, text, q), val)
      decreases |text| - q, 1
    {
      hide Scan, FactorAt, Operate, ExprAt, GroupAt;
      ghost var f := FactorAt(meaning, text, q);
      val := Factor(q);
      if evalError != NoError {
        return ERR_VALUE;
      }
      var tok := PeekNextToken(f.pos);
      match tok
      case MultToken =>
        var _ := GetNextToken(f.pos);
        var right := Term(p);
        val := Apply(Times, val, right, TermAt(meaning, text, Scan(text, f.pos).end));
      case DivToken =>
        var _ := GetNextToken(f.pos);
        var right := Term(p);
        val := Quotient(val, right, TermAt(meaning, text, Scan(text, f.pos).end));
      case _ =>
    }

    method Expr(ghost q: nat) returns (val: Value)
      requires At(q) && evalError == NoError
      modifies `p, `lastp, `tokBuf, `peekTok, `evalError
      ensures Done(ExprAt(meaning, text, q), val)
      decreases |text| - q, 2
    {
      hide Scan, TermAt, Operate, FactorAt, GroupAt;
      ghost var f := TermAt(meaning, text, q);
      val := Term(q);
      if evalError != NoError {
        return ERR_VALUE;
      }
      var tok := PeekNextToken(f.pos);
      match tok
      case PlusToken =>
        var _ := GetNextToken(f.pos);
        var right := Expr(p);
        val := Apply(Plus, val, right, ExprAt(meaning, text, Scan(text, f.pos).end));
      case MinusToken =>
        var _ := GetNextToken(f.pos);
        var right := Expr(p);
        val := Apply(Minus, val, right, ExprAt(meaning, text, Scan(text, f.pos).end));
      case _ =>
    }

    /** Evaluate an expression and report where it ends. */
    method EvalExpr(t: string) returns (val: Value, end: nat)
      modifies this
      ensures text == t
      ensures var r := ExprAt(meaning, t, 0);
              && end == r.pos
              && match r.result
                 case Ok(v) => evalError == NoError && val == v
                 case Err(e) => evalError == Failed(e) && val == Number(TInt, 0)
    {
      evalError := NoError;
      text := t;
      p := 0;
      tokBuf := "";
      peekTok := Invalid;
      val := Expr(0);
      end := if peekTok != Invalid then lastp else p;
    }
  }
}
