// The tokens of expressions (Lab1-Hazards/eval.c) in terms of their characters.
module ScanLaws {
  import opened EvalValues
  import opened EvalGrammar

  predicate IsLetter(c: char) { 'a' <= c <= 'z' || 'A' <= c <= 'Z' }

  predicate IsDigit(c: char) { '0' <= c <= '9' }

  /** What a character begins, when it begins a token. */
  lemma KindMeans(c: char)
    ensures KindOf(c) == IdentToken <==> IsLetter(c) || c == '_' || c == '$'
    ensures KindOf(c) == ConstToken <==> IsDigit(c) || c == '.'
    ensures KindOf(c) == PlusToken <==> c == '+'
    ensures KindOf(c) == MinusToken <==> c == '-'
    ensures KindOf(c) == MultToken <==> c == '*'
    ensures KindOf(c) == DivToken <==> c == '/'
    ensures KindOf(c) == OpenParen <==> c == '('
    ensures KindOf(c) == CloseParen <==> c == ')'
    ensures KindOf(c) == Whitespace <==> c == ' ' || c == '\t'
    ensures KindOf(c) != EndOfText
  {
  }

  predicate IsBlank(c: char) { c == ' ' || c == '\t' }

  predicate InName(c: char) { IsLetter(c) || IsDigit(c) || c == '_' || c == '$' || c == '.' }

  predicate IsE(c: char) { c == 'e' || c == 'E' }

  predicate IsX(c: char) { c == 'x' || c == 'X' }

  /** Whether the character at i goes on with a number that starts at s: digits and points do, e and x in either case, a
      sign right after an e, and the letters up to f behind an x. */
  predicate GoesOn(text: string, s: nat, i: nat)
    requires s < i < |text|
  {
    var c := text[i];
    || IsDigit(c) || c == '.' || IsE(c) || IsX(c)
    || ((c == '+' || c == '-') && i > s + 1 && IsE(text[i - 1]))
    || (('a' <= c <= 'f' || 'A' <= c <= 'F') && exists j :: s < j < i && IsX(text[j]))
  }

  lemma LowerMeans(c: char)
    ensures Lower(c) == 'e' <==> IsE(c)
    ensures Lower(c) == 'x' <==> IsX(c)
    ensures 'a' <= Lower(c) <= 'f' <==> 'a' <= c <= 'f' || 'A' <= c <= 'F'
    ensures Lower(c) == 'e' ==> 'a' <= Lower(c) <= 'f'
  {
  }

  lemma ContinuesMeans(text: string, s: nat, i: nat, last: char, hex: bool)
    requires s < i < |text|
    requires last == if i > s + 1 then Lower(text[i - 1]) else '\0'
    requires hex <==> exists j :: s < j < i && IsX(text[j])
    ensures InConst(text[i], last, hex) <==> GoesOn(text, s, i)
  {
    hide KindOf, Lower;
    KindMeans(text[i]);
    LowerMeans(text[i]);
    if i > s + 1 {
      LowerMeans(text[i - 1]);
    }
  }

  /** A number runs as far as its characters go on. */
  lemma {:induction false} NumberRuns(text: string, s: nat, i: nat, last: char, hex: bool)
    requires s < i <= |text|
    requires last == if i > s + 1 then Lower(text[i - 1]) else '\0'
    requires hex <==> exists j :: s < j < i && IsX(text[j])
    ensures var r := ConstEnd(text, i, last, hex);
            && (forall k :: i <= k < r ==> GoesOn(text, s, k))
            && (r < |text| ==> !GoesOn(text, s, r))
    decreases |text| - i
  {
    hide InConst, Lower, GoesOn;
    if i < |text| {
      ContinuesMeans(text, s, i, last, hex);
      if InConst(text[i], last, hex) {
        LowerMeans(text[i]);
        NumberRuns(text, s, i + 1, Lower(text[i]), hex || Lower(text[i]) == 'x');
      }
    }
  }

  lemma {:induction false} NameRuns(text: string, p: nat)
    requires p <= |text|
    ensures var r := IdentEnd(text, p);
            (forall i :: p <= i < r ==> InName(text[i])) && (r < |text| ==> !InName(text[r]))
    decreases |text| - p
  {
    hide KindOf;
    if p < |text| {
      KindMeans(text[p]);
      if InIdent(text[p]) {
        NameRuns(text, p + 1);
      }
    }
  }

  /** The next token: past the blanks; an identifier or a number as long as its characters go on, anything else a
      single character. */
  lemma TokenMeans(text: string, p: nat) returns (s: nat)
    requires p <= |text|
    ensures var t := Scan(text, p);
            && p <= s <= t.end <= |text| && t.text == text[s..t.end]
            && (forall i :: p <= i < s ==> IsBlank(text[i]))
            && (if s == |text| then t.kind == EndOfText && t.end == s
                else
                  && !IsBlank(text[s]) && t.kind == KindOf(text[s]) && s < t.end
                  && (t.kind == IdentToken ==> (forall i :: s < i < t.end ==> InName(text[i]))
                                               && (t.end < |text| ==> !InName(text[t.end])))
                  && (t.kind == ConstToken ==> (forall i :: s < i < t.end ==> GoesOn(text, s, i))
                                               && (t.end < |text| ==> !GoesOn(text, s, t.end)))
                  && (t.kind != IdentToken && t.kind != ConstToken ==> t.end == s + 1))
  {
    hide KindOf, GoesOn, InName, IdentEnd, ConstEnd;
    s := SkipSpace(text, p);
    forall i | p <= i < |text|
      ensures KindOf(text[i]) == Whitespace <==> IsBlank(text[i])
    {
      KindMeans(text[i]);
    }
    if s < |text| {
      NameRuns(text, s + 1);
      NumberRuns(text, s, s + 1, '\0', false);
    }
  }
}
