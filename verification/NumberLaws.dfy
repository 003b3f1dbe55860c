// What the conversions of Lab1-Hazards/misc.c make of any string, in terms of its characters.
module NumberLaws {
  import opened NumberText

  /** Digits in bases up to 36: letters count on from the digits, in either case. */
  lemma DigitMeans(c: char)
    ensures '0' <= c <= '9' ==> DigitOf(c) == c as int - 48
    ensures 'a' <= c <= 'z' ==> DigitOf(c) == c as int - 87
    ensures 'A' <= c <= 'Z' ==> DigitOf(c) == c as int - 55
    ensures DigitOf(c) < 36 <==> '0' <= c <= '9' || 'a' <= c <= 'z' || 'A' <= c <= 'Z'
  {
  }

  /** The six characters that are passed over. */
  lemma SpaceMeans(c: char)
    ensures IsSpace(c) <==> c == ' ' || c == '\t' || c == '\n' || c == 11 as char || c == 12 as char || c == '\r'
  {
  }

  /** The prefix of a hexadecimal number. */
  predicate Hexadecimal(s: string)
  {
    |s| >= 2 && s[0] == '0' && (s[1] == 'x' || s[1] == 'X')
  }

  /** The base of a number whose blanks are followed by the text s. */
  function BaseFor(s: string, base: int): int
  {
    if base != 0 then base else if Hexadecimal(s) then 16 else 10
  }

  /** A string put together from blanks, a sign, a prefix, digits and a rest. */
  predicate Spelled(s: string, blanks: string, sign: string, prefix: string, ds: string, rest: string,
                    base: int, signed: bool)
  {
    && s == blanks + (sign + (prefix + (ds + rest)))
    && (forall i :: 0 <= i < |blanks| ==> IsSpace(blanks[i]))
    && (sign == "" || (signed && (sign == "-" || sign == "+")))
    && 2 <= base <= 36
    && (prefix == "" || (base == 16 && (prefix == "0x" || prefix == "0X")))
    && (forall i :: 0 <= i < |ds| ==> DigitOf(ds[i]) < base)
  }

  /** No part could be longer: nothing that follows a part goes on with it. */
  predicate Longest(sign: string, prefix: string, ds: string, rest: string, base: int, signed: bool)
  {
    && (base == 16 && prefix == "" ==> !Hexadecimal(ds + rest))
    && (rest != "" ==> DigitOf(rest[0]) >= base)
    && (sign == prefix == ds == "" && rest != "" ==> !IsSpace(rest[0]))
    && (signed && sign == prefix == ds == "" && rest != "" ==> rest[0] != '-' && rest[0] != '+')
  }

  /** A string taken apart: blanks, sign, prefix, digits, and a rest that does not go on with a digit. */
  predicate Apart(s: string, blanks: string, sign: string, prefix: string, ds: string, rest: string,
                  base: int, signed: bool)
  {
    && Spelled(s, blanks, sign, prefix, ds, rest, base, signed)
    && Longest(sign, prefix, ds, rest, base, signed)
  }

  lemma HexPrefixMeans(s: string, i: nat)
    requires i <= |s|
    ensures HexPrefix(s, i) <==> Hexadecimal(s[i..])
  {
  }

  /** A number cut to the range of the conversion; magnitudes above the largest number are out of range. */
  function Cut(m: int, negative: bool, signed: bool, end: nat): Parsed
  {
    var max := if signed then 9_223_372_036_854_775_807 else 18_446_744_073_709_551_615;
    if m > max then Parsed(if negative then -9_223_372_036_854_775_808 else max, end, OutOfRange)
    else Parsed(if negative then -m else m, end, Cleared)
  }

  lemma OutcomeIsCut(m: int, negative: bool, signed: bool, end: nat)
    ensures Outcome(negative, signed, m, end) == Cut(m, negative, signed, end)
  {
  }

  /** What a string converts to: nothing when it has no digits, and otherwise the number that they denote, with its
      sign, cut to the range. */
  lemma ConversionMeans(s: string, blanks: string, sign: string, prefix: string, ds: string, rest: string,
                        asked: int, signed: bool)
    requires asked == 0 || 2 <= asked <= 36
    requires |blanks| <= |s| && Apart(s, blanks, sign, prefix, ds, rest, BaseFor(s[|blanks|..], asked), signed)
    ensures Converted(s, asked, signed) ==
            if ds == "" then Parsed(0, 0, Unchanged)
            else Cut(Value(ds, BaseFor(s[|blanks|..], asked)), sign == "-", signed, |s| - |rest|)
  {
    hide SkipSpace, RunEnd, Value, HexPrefix, AfterSign, AfterPrefix, BaseOf, BaseFor, Apart, Cut, Outcome;
    var b := BaseFor(s[|blanks|..], asked);
    BaseIs(s, |blanks|, asked);
    BlanksPassed(s, blanks, sign, prefix, ds, rest, b, signed);
    DigitsPassed(s, blanks, sign, prefix, ds, rest, b, signed);
    if |blanks| < |s| {
      SignPassed(s, blanks, sign, prefix, ds, rest, b, signed);
      PrefixPassed(s, blanks, sign, prefix, ds, rest, b, signed);
      OutcomeIsCut(Value(ds, b), sign == "-", signed, |s| - |rest|);
    }
  }

  lemma BaseIs(s: string, i: nat, asked: int)
    requires i <= |s| && (asked == 0 || 2 <= asked <= 36)
    ensures BaseOf(s, i, asked) == BaseFor(s[i..], asked) && 2 <= BaseFor(s[i..], asked) <= 36
  {
    hide HexPrefix, Hexadecimal;
    HexPrefixMeans(s, i);
  }

  lemma Parts(s: string, blanks: string, sign: string, prefix: string, ds: string, rest: string,
              base: int, signed: bool)
    requires Apart(s, blanks, sign, prefix, ds, rest, base, signed)
    ensures var i, j := |blanks|, |blanks| + |sign|;
            var k := j + |prefix|;
            && |s| == k + |ds| + |rest|
            && s[..i] == blanks && s[i..j] == sign && s[j..k] == prefix && s[k..k + |ds|] == ds && s[k + |ds|..] == rest
            && s[j..] == prefix + (ds + rest) && s[k..] == ds + rest
  {
    hide IsSpace, DigitOf, Hexadecimal, Longest;
    var i, j := |blanks|, |blanks| + |sign|;
    var k := j + |prefix|;
    assert s == blanks + (sign + (prefix + (ds + rest)));
    hide *;
    Peeled(s, 0, blanks, sign + (prefix + (ds + rest)));
    Peeled(s, i, sign, prefix + (ds + rest));
    Peeled(s, j, prefix, ds + rest);
    Peeled(s, k, ds, rest);
  }

  /** The first part of what follows position i, and what comes after it. */
  lemma Peeled(s: string, i: nat, part: string, more: string)
    requires i <= |s| && s[i..] == part + more
    ensures |s| == i + |part| + |more| && s[i..i + |part|] == part && s[i + |part|..] == more
  {
    assert s[i..][..|part|] == s[i..i + |part|];
    assert s[i..][|part|..] == s[i + |part|..];
  }

  lemma FirstCharacter(s: string, blanks: string, sign: string, prefix: string, ds: string, rest: string,
                       base: int, signed: bool)
    requires Apart(s, blanks, sign, prefix, ds, rest, base, signed) && |blanks| < |s|
    ensures !IsSpace(s[|blanks|])
    ensures signed ==> ((s[|blanks|] == '-') == (sign == "-") && (s[|blanks|] == '+') == (sign == "+"))
  {
    hide IsSpace, DigitOf, Hexadecimal;
    Parts(s, blanks, sign, prefix, ds, rest, base, signed);
    var i := |blanks|;
    if sign != "" {
      assert s[i] == s[i..i + |sign|][0];
      SignIsNoSpace(s[i]);
    } else if prefix != "" {
      assert s[i] == s[i..i + |prefix|][0];
      SignIsNoSpace(s[i]);
    } else if ds != "" {
      assert s[i] == s[i..i + |ds|][0];
      DigitsAreNotSigns(s[i], base);
    } else {
      assert s[i] == s[i..][0];
    }
  }

  lemma SignIsNoSpace(c: char)
    requires c == '-' || c == '+' || c == '0'
    ensures !IsSpace(c)
  {
  }

  lemma BlanksPassed(s: string, blanks: string, sign: string, prefix: string, ds: string, rest: string,
                     base: int, signed: bool)
    requires Apart(s, blanks, sign, prefix, ds, rest, base, signed)
    ensures SkipSpace(s, 0) == |blanks|
  {
    hide IsSpace, DigitOf, Hexadecimal, SkipSpace;
    Parts(s, blanks, sign, prefix, ds, rest, base, signed);
    if |blanks| < |s| {
      FirstCharacter(s, blanks, sign, prefix, ds, rest, base, signed);
    }
    assert forall k :: 0 <= k < |blanks| ==> s[k] == blanks[k];
    SkipBlanks(s, 0, |blanks|);
  }

  lemma SignPassed(s: string, blanks: string, sign: string, prefix: string, ds: string, rest: string,
                   base: int, signed: bool)
    requires Apart(s, blanks, sign, prefix, ds, rest, base, signed) && |blanks| < |s|
    ensures AfterSign(s, |blanks|, signed) == |blanks| + |sign|
    ensures (signed && s[|blanks|] == '-') <==> sign == "-"
  {
    hide IsSpace, DigitOf, Hexadecimal;
    FirstCharacter(s, blanks, sign, prefix, ds, rest, base, signed);
  }

  lemma PrefixPassed(s: string, blanks: string, sign: string, prefix: string, ds: string, rest: string,
                     base: int, signed: bool)
    requires Apart(s, blanks, sign, prefix, ds, rest, base, signed)
    ensures var j := |blanks| + |sign|;
            j <= |s| && AfterPrefix(s, j, base) == j + |prefix|
  {
    hide IsSpace, DigitOf, HexPrefix;
    Parts(s, blanks, sign, prefix, ds, rest, base, signed);
    HexPrefixMeans(s, |blanks| + |sign|);
  }

  lemma DigitFacts(s: string, blanks: string, sign: string, prefix: string, ds: string, rest: string,
                   base: int, signed: bool)
    requires Apart(s, blanks, sign, prefix, ds, rest, base, signed)
    ensures 2 <= base <= 36
    ensures (forall i :: 0 <= i < |ds| ==> DigitOf(ds[i]) < base) && (rest != "" ==> DigitOf(rest[0]) >= base)
  {
  }

  lemma DigitsPassed(s: string, blanks: string, sign: string, prefix: string, ds: string, rest: string,
                     base: int, signed: bool)
    requires Apart(s, blanks, sign, prefix, ds, rest, base, signed)
    ensures var k := |blanks| + |sign| + |prefix|;
            k <= |s| && RunEnd(s, k, base) == k + |ds| == |s| - |rest| && s[k..k + |ds|] == ds
  {
    hide Apart, DigitOf, RunEnd;
    Parts(s, blanks, sign, prefix, ds, rest, base, signed);
    DigitFacts(s, blanks, sign, prefix, ds, rest, base, signed);
    var k := |blanks| + |sign| + |prefix|;
    assert forall i :: k <= i < k + |ds| ==> s[i] == s[k..k + |ds|][i - k];
    assert rest != "" ==> s[k + |ds|] == s[k + |ds|..][0];
    RunStops(s, k, k + |ds|, base);
  }

  lemma {:induction false} RunStops(s: string, i: nat, j: nat, base: Base)
    requires i <= j <= |s|
    requires forall k :: i <= k < j ==> DigitOf(s[k]) < base
    requires j < |s| ==> DigitOf(s[j]) >= base
    ensures RunEnd(s, i, base) == j
    decreases j - i
  {
    hide DigitOf;
    if i < j {
      RunStops(s, i + 1, j, base);
    }
  }

  /** The value of digits, highest first. */
  lemma {:induction false} ValueMeans(ds: string, d: char, base: Base)
    ensures Value("", base) == 0 && Value(ds + [d], base) == Value(ds, base) * base + DigitOf(d)
  {
    assert (ds + [d])[..|ds|] == ds;
  }

  lemma PrefixText(s: string, j: nat)
    requires j <= |s| && Hexadecimal(s[j..])
    ensures j + 2 <= |s| && (s[j..j + 2] == "0x" || s[j..j + 2] == "0X")
  {
    assert s[j..][0] == s[j] && s[j..][1] == s[j + 1];
  }

  lemma SlicesMeet(s: string, i: nat, j: nat, k: nat, e: nat)
    requires i <= j <= k <= e <= |s|
    ensures s == s[..i] + (s[i..j] + (s[j..k] + (s[k..e] + s[e..]))) && s[k..e] + s[e..] == s[k..]
  {
    assert s[k..e] + s[e..] == s[k..];
    assert s[j..k] + s[k..] == s[j..];
    assert s[i..j] + s[j..] == s[i..];
  }

  lemma SlicesSpelled(s: string, i: nat, j: nat, k: nat, e: nat, base: int, signed: bool)
    requires i <= j <= k <= e <= |s| && 2 <= base <= 36
    requires forall n :: 0 <= n < i ==> IsSpace(s[n])
    requires j == i || (j == i + 1 && signed && (s[i] == '-' || s[i] == '+'))
    requires k == j || (k == j + 2 && base == 16 && Hexadecimal(s[j..]))
    requires e == RunEnd(s, k, base)
    ensures Spelled(s, s[..i], s[i..j], s[j..k], s[k..e], s[e..], base, signed)
  {
    hide IsSpace, DigitOf, Hexadecimal, RunEnd;
    SlicesMeet(s, i, j, k, e);
    if k > j {
      PrefixText(s, j);
    }
    assert j > i ==> s[i..j] == [s[i]];
  }

  lemma SlicesLongest(s: string, i: nat, j: nat, k: nat, e: nat, base: int, signed: bool)
    requires i <= j <= k <= e <= |s| && 2 <= base <= 36
    requires i < |s| ==> !IsSpace(s[i])
    requires i < |s| && signed && (s[i] == '-' || s[i] == '+') ==> j > i
    requires base == 16 && Hexadecimal(s[j..]) ==> k > j
    requires e == RunEnd(s, k, base)
    ensures Longest(s[i..j], s[j..k], s[k..e], s[e..], base, signed)
  {
    hide IsSpace, DigitOf, Hexadecimal, RunEnd;
    assert s[k..e] + s[e..] == s[k..];
    assert e < |s| ==> s[e..][0] == s[e];
  }

  /** The slices of a string at the places where the conversion stops. */
  lemma SlicesApart(s: string, i: nat, j: nat, k: nat, e: nat, base: int, signed: bool)
    requires i <= j <= k <= e <= |s| && 2 <= base <= 36
    requires forall n :: 0 <= n < i ==> IsSpace(s[n])
    requires i < |s| ==> !IsSpace(s[i])
    requires j == if i < |s| && signed && (s[i] == '-' || s[i] == '+') then i + 1 else i
    requires k == if base == 16 && Hexadecimal(s[j..]) then j + 2 else j
    requires e == RunEnd(s, k, base)
    ensures Apart(s, s[..i], s[i..j], s[j..k], s[k..e], s[e..], base, signed)
  {
    hide IsSpace, DigitOf, Hexadecimal, RunEnd, Spelled, Longest;
    SlicesSpelled(s, i, j, k, e, base, signed);
    SlicesLongest(s, i, j, k, e, base, signed);
  }

  /** Every string can be taken apart. */
  lemma TakenApart(s: string, asked: int, signed: bool)
    returns (blanks: string, sign: string, prefix: string, ds: string, rest: string)
    requires asked == 0 || 2 <= asked <= 36
    ensures |blanks| <= |s| && Apart(s, blanks, sign, prefix, ds, rest, BaseFor(s[|blanks|..], asked), signed)
  {
    hide IsSpace, DigitOf, Hexadecimal, SkipSpace, RunEnd, Apart, BaseFor;
    var i := SkipSpace(s, 0);
    SpacesBefore(s, 0);
    BaseIs(s, i, asked);
    var b := BaseFor(s[i..], asked);
    var j := if i < |s| && signed && (s[i] == '-' || s[i] == '+') then i + 1 else i;
    if b == 16 && Hexadecimal(s[j..]) {
      PrefixText(s, j);
    }
    var k := if b == 16 && Hexadecimal(s[j..]) then j + 2 else j;
    var e := RunEnd(s, k, b);
    SlicesApart(s, i, j, k, e, b, signed);
    blanks, sign, prefix, ds, rest := s[..i], s[i..j], s[j..k], s[k..e], s[e..];
  }

  lemma {:induction false} SpacesBefore(s: string, i: nat)
    requires i <= |s|
    ensures forall k :: i <= k < SkipSpace(s, i) ==> IsSpace(s[k])
    ensures SkipSpace(s, i) < |s| ==> !IsSpace(s[SkipSpace(s, i)])
    decreases |s| - i
  {
    hide IsSpace;
    if i < |s| && IsSpace(s[i]) {
      SpacesBefore(s, i + 1);
    }
  }

  // ---- Printed numbers -------------------------------------------------------------------------------

  /** Digits are printed in lower case. */
  lemma DigitPrinted(d: int)
    requires 0 <= d < 36
    ensures DigitChar(d) == "0123456789abcdefghijklmnopqrstuvwxyz"[d]
  {
  }

  /** Digits of a number, lowest last, without leading zeros. */
  lemma {:induction false} DigitsMean(v: nat, base: Base)
    ensures v < base ==> Digits(v, base) == [DigitChar(v)]
    ensures v >= base ==> Digits(v, base) == Digits(v / base, base) + [DigitChar(v % base)]
    ensures v > 0 ==> Digits(v, base)[0] != '0'
    decreases v
  {
    Quotient(v, base);
    if v >= base {
      DigitsMean(v / base, base);
    } else if v > 0 {
      DigitPrinted(v);
    }
  }

  function Padding(width: nat, n: nat): nat
  {
    if width > n then width - n else 0
  }

  lemma Padded(prefix: string, ds: string, width: nat)
    ensures var pad := Padding(width, |prefix| + |ds|);
            && Assembled(prefix, 0, ds, width, true) == prefix + Zeros(pad) + ds
            && Assembled(prefix, 0, ds, width, false) == Blanks(pad) + prefix + ds
  {
    assert Zeros(0) == [];
  }

  lemma ZeroPadded(width: nat)
    ensures var pad := Padding(width, 1);
            && Assembled("", 1, "", width, true) == Zeros(pad) + "0"
            && Assembled("", 1, "", width, false) == Blanks(pad) + "0"
  {
    assert Zeros(1) == "0";
    var pad := Padding(width, 1);
    assert Zeros(1 + pad) == Zeros(pad) + "0";
  }

  /** Signed numbers: padding is in front of the sign if it is blank, and behind it if it is zero. */
  lemma SignedMeans(v: Int64, width: nat)
    ensures var value: int := v;
            var sign, ds := if value < 0 then "-" else "", Digits(if value < 0 then -value else value, 10);
            && PrintSigned(v, width, true) == sign + Zeros(Padding(width, |sign| + |ds|)) + ds
            && PrintSigned(v, width, false) == Blanks(Padding(width, |sign| + |ds|)) + sign + ds
  {
    hide Digits, Assembled, Padding;
    Padded(if v < 0 then "-" else "", Digits(Magnitude(v), 10), width);
  }

  lemma PaddedAlone(ds: string, width: nat)
    ensures var pad := Padding(width, |ds|);
            && Assembled("", 0, ds, width, true) == Zeros(pad) + ds
            && Assembled("", 0, ds, width, false) == Blanks(pad) + ds
  {
    hide Assembled, Padding;
    Padded("", ds, width);
    assert "" + Zeros(Padding(width, |ds|)) == Zeros(Padding(width, |ds|));
    assert Blanks(Padding(width, |ds|)) + "" == Blanks(Padding(width, |ds|));
  }

  lemma UnsignedMeans(v: UInt64, width: nat)
    ensures var ds := Digits(v, 10);
            && PrintUnsigned(v, width, true) == Zeros(Padding(width, |ds|)) + ds
            && PrintUnsigned(v, width, false) == Blanks(Padding(width, |ds|)) + ds
  {
    hide Digits, Assembled, Padding, Zeros, Blanks;
    PaddedAlone(Digits(v, 10), width);
  }

  /** Hexadecimal numbers; zero is one digit here too. */
  lemma HexMeans(v: UInt64, width: nat)
    ensures var ds := Digits(v, 16);
            && PrintHex(v, width, true) == Zeros(Padding(width, |ds|)) + ds
            && PrintHex(v, width, false) == Blanks(Padding(width, |ds|)) + ds
  {
    DigitsMean(0, 16);
    DigitPrinted(0);
    hide Digits, DigitChar, Assembled, Padding, Zeros, Blanks;
    PaddedAlone(Digits(v, 16), width);
    ZeroPadded(width);
  }
}
