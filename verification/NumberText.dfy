// Printing and parsing of 64-bit integers (Lab1-Hazards/misc.c): the %ld, %lu and %lx conversions of
// myvsprintf, and the string conversions myatosq and myatoq.
module NumberText {

  const INT_MAX64: int := 9223372036854775807
  const INT_MIN64: int := -9223372036854775808
  const UINT_MAX64: int := 18446744073709551615

  type Int64 = x: int | INT_MIN64 <= x <= INT_MAX64
  type UInt64 = x: int | 0 <= x <= UINT_MAX64
  type Base = b: int | 2 <= b <= 36 witness 10

  // ---- Digits and their value -----------------------------------------------------------------

  function DigitChar(d: int): char
    requires 0 <= d < 36
  {
    if d < 10 then ('0' as int + d) as char else ('a' as int + (d - 10)) as char
  }

  predicate IsDigit(c: char) { '0' <= c <= '9' }

  predicate IsAlpha(c: char) { 'a' <= c <= 'z' || 'A' <= c <= 'Z' }

  function ToUpper(c: char): char
  {
    if 'a' <= c <= 'z' then (c as int - 'a' as int + 'A' as int) as char else c
  }

  predicate IsSpace(c: char)
  {
    c == ' ' || 9 <= c as int <= 13
  }

  /** The value of a digit in bases up to 36; anything else is no digit in any base. */
  function DigitOf(c: char): (d: int)
    ensures 0 <= d
  {
    if IsDigit(c) then c as int - '0' as int
    else if IsAlpha(c) then ToUpper(c) as int - 'A' as int + 10
    else 99
  }

  lemma DigitRoundTrip(d: int)
    requires 0 <= d < 36
    ensures DigitOf(DigitChar(d)) == d && !IsSpace(DigitChar(d)) && DigitChar(d) != '-' && DigitChar(d) != '+'
  {
  }

  /** The number that a string of digits denotes. */
  function Value(ds: string, base: Base): (v: int)
  {
    if ds == [] then 0 else Value(ds[..|ds| - 1], base) * base + DigitOf(ds[|ds| - 1])
  }

  /** The digits of a number, most significant first, without leading zeros. */
  function Digits(v: nat, base: Base): (ds: string)
    ensures ds != []
  {
    if v < base then [DigitChar(v)]
    else
      Quotient(v, base);
      Digits(v / base, base) + [DigitChar(v % base)]
  }

  lemma Scaled(q: int, base: int)
    requires base >= 2
    ensures q >= 0 ==> q * base >= 2 * q
    ensures q <= 0 ==> q * base <= 0
  {
  }

  lemma Quotient(v: nat, base: Base)
    ensures v == v / base * base + v % base && 0 <= v % base < base
    ensures v >= base ==> 0 < v / base < v
  {
    Scaled(v / base, base);
  }

  lemma {:induction false} ValueOfDigits(v: nat, base: Base)
    ensures Value(Digits(v, base), base) == v
    ensures forall i :: 0 <= i < |Digits(v, base)| ==> 0 <= DigitOf(Digits(v, base)[i]) < base
    decreases v
  {
    if v < base {
      DigitRoundTrip(v);
      assert Value([DigitChar(v)][..0], base) == 0;
    } else {
      Quotient(v, base);
      ValueOfDigits(v / base, base);
      DigitRoundTrip(v % base);
      var hi := Digits(v / base, base);
      var ds := hi + [DigitChar(v % base)];
      assert ds[..|ds| - 1] == hi;
    }
  }

  function Zeros(n: nat): (z: string)
    ensures |z| == n && forall i :: 0 <= i < n ==> z[i] == '0'
  {
    seq(n, _ => '0')
  }

  function Blanks(n: nat): (z: string)
    ensures |z| == n && forall i :: 0 <= i < n ==> z[i] == ' '
  {
    seq(n, _ => ' ')
  }

  lemma {:induction false} LeadingZeros(n: nat, ds: string, base: Base)
    ensures Value(Zeros(n) + ds, base) == Value(ds, base)
    decreases |ds|, n
  {
    var all := Zeros(n) + ds;
    if ds != [] {
      LeadingZeros(n, ds[..|ds| - 1], base);
      assert all[..|all| - 1] == Zeros(n) + ds[..|ds| - 1];
    } else if n > 0 {
      LeadingZeros(n - 1, ds, base);
      assert all[..|all| - 1] == Zeros(n - 1) + ds;
      assert Value(Zeros(n - 1) + ds, base) == 0;
    } else {
      assert all == ds;
    }
  }

  // ---- Printing -------------------------------------------------------------------------------

  /** A conversion: blanks or zeros up to the width, around the sign and the digits. Zeros go between
      sign and digits. A hexadecimal zero has no digits of its own and one forced zero instead. */
  function Assembled(prefix: string, forced: nat, digits: string, width: nat, padZero: bool): string
  {
    var k := |digits| + |prefix| + forced;
    var pad := if width <= k then 0 else width - k;
    if padZero then prefix + Zeros(forced + pad) + digits
    else Blanks(pad) + prefix + Zeros(forced) + digits
  }

  function Magnitude(v: int): nat { if v < 0 then -v else v }

  function PrintSigned(v: Int64, width: nat, padZero: bool): string
  {
    Assembled(if v < 0 then "-" else "", 0, Digits(Magnitude(v), 10), width, padZero)
  }

  function PrintUnsigned(v: UInt64, width: nat, padZero: bool): string
  {
    Assembled("", 0, Digits(v, 10), width, padZero)
  }

  function PrintHex(v: UInt64, width: nat, padZero: bool): string
  {
    if v == 0 then Assembled("", 1, "", width, padZero) else Assembled("", 0, Digits(v, 16), width, padZero)
  }

  /** A padded field is as long as the wider of its width and its natural length. */
  lemma FieldLength(prefix: string, forced: nat, digits: string, width: nat, padZero: bool)
    ensures var k := |digits| + |prefix| + forced;
            |Assembled(prefix, forced, digits, width, padZero)| == if width <= k then k else width
  {
  }

  // ---- Parsing --------------------------------------------------------------------------------

  datatype Errno = Unchanged | Cleared | OutOfRange

  /** What a conversion returns: the value, the index after the last character used, and errno. */
  datatype Parsed = Parsed(value: int, end: nat, errno: Errno)

  function At(s: string, i: nat): char { if i < |s| then s[i] else '\0' }

  function SkipSpace(s: string, i: nat): (j: nat)
    requires i <= |s|
    ensures i <= j <= |s|
    decreases |s| - i
  {
    if i < |s| && IsSpace(s[i]) then SkipSpace(s, i + 1) else i
  }

  predicate HexPrefix(s: string, i: nat)
    ensures HexPrefix(s, i) ==> i + 1 < |s|
  {
    At(s, i) == '0' && ToUpper(At(s, i + 1)) == 'X'
  }

  /** The end of the run of digits that starts at i. */
  function RunEnd(s: string, i: nat, base: Base): (j: nat)
    requires i <= |s|
    ensures i <= j <= |s|
    ensures forall k :: i <= k < j ==> DigitOf(s[k]) < base
    ensures j < |s| ==> DigitOf(s[j]) >= base
    decreases |s| - i
  {
    if i < |s| && DigitOf(s[i]) < base then RunEnd(s, i + 1, base) else i
  }

  /** Where the digits start once blanks, sign and hexadecimal prefix are behind. */
  function AfterSign(s: string, i: nat, signed: bool): (j: nat)
    requires i < |s|
    ensures i <= j <= |s|
  {
    if signed && (s[i] == '-' || s[i] == '+') then i + 1 else i
  }

  function AfterPrefix(s: string, i: nat, base: int): (j: nat)
    requires i <= |s|
    ensures i <= j <= |s|
  {
    if base == 16 && HexPrefix(s, i) then i + 2 else i
  }

  function BaseOf(s: string, i: nat, base: int): int
  {
    if base == 0 then (if HexPrefix(s, i) then 16 else 10) else base
  }

  /** The specification of both conversions: the number denoted by the longest run of digits after the
      optional parts, clamped to the range, with ERANGE exactly when its magnitude exceeds the largest
      value; nothing is converted when there is no digit. */
  function Converted(s: string, base: int, signed: bool): Parsed
    requires base == 0 || 2 <= base <= 36
  {
    var i := SkipSpace(s, 0);
    if i == |s| then Parsed(0, 0, Unchanged)
    else
      var b := BaseOf(s, i, base);
      var negative := signed && s[i] == '-';
      var start := AfterPrefix(s, AfterSign(s, i, signed), b);
      var end := RunEnd(s, start, b);
      if end == start then Parsed(0, 0, Unchanged)
      else
        Outcome(negative, signed, Value(s[start..end], b), end)
  }

  /** A magnitude clamped to the range of the conversion. */
  function Outcome(negative: bool, signed: bool, m: int, end: nat): Parsed
  {
    var max := if signed then INT_MAX64 else UINT_MAX64;
    if m > max then Parsed(if negative then INT_MIN64 else max, end, OutOfRange)
    else Parsed(if negative then -m else m, end, Cleared)
  }

  /** The clamp is the nearest representable number, and ERANGE tells when it was needed, but for the
      smallest signed number: that one is exact and reported all the same. */
  lemma OutcomeIsClamp(negative: bool, signed: bool, m: int, end: nat)
    requires m >= 0 && (negative ==> signed)
    ensures var exact := if negative then -m else m;
            var low, high := if signed then INT_MIN64 else 0, if signed then INT_MAX64 else UINT_MAX64;
            var r := Outcome(negative, signed, m, end);
            && r.value == (if exact < low then low else if exact > high then high else exact)
            && (r.errno == OutOfRange <==> r.value != exact || exact == INT_MIN64)
  {
  }

  // ---- Printing and parsing back ---------------------------------------------------------------

  lemma {:induction false} SkipBlanks(s: string, i: nat, j: nat)
    requires i <= j <= |s|
    requires forall k :: i <= k < j ==> IsSpace(s[k])
    requires j < |s| ==> !IsSpace(s[j])
    ensures SkipSpace(s, i) == j
    decreases j - i
  {
    if i < j {
      SkipBlanks(s, i + 1, j);
    }
  }

  lemma {:induction false} RunToEnd(s: string, i: nat, base: Base)
    requires i <= |s|
    requires forall k :: i <= k < |s| ==> DigitOf(s[k]) < base
    ensures RunEnd(s, i, base) == |s|
    decreases |s| - i
  {
    if i < |s| {
      RunToEnd(s, i + 1, base);
    }
  }

  /** A field of blanks, a sign, zeros and digits. */
  predicate IsField(s: string, blanks: nat, prefix: string, zeros: nat, v: nat, base: Base)
  {
    && (prefix == "" || prefix == "-")
    && s == Blanks(blanks) + prefix + Zeros(zeros) + Digits(v, base)
  }

  /** The numeric part of a field runs to its end and denotes the number. */
  lemma FieldNumber(s: string, blanks: nat, prefix: string, zeros: nat, v: nat, base: Base)
    requires IsField(s, blanks, prefix, zeros, v, base)
    ensures var start := blanks + |prefix|;
            && start < |s| && s[start..|s|] == Zeros(zeros) + Digits(v, base)
            && RunEnd(s, start, base) == |s| && Value(s[start..|s|], base) == v
            && DigitOf(s[start]) < base
  {
    var ds, start := Digits(v, base), blanks + |prefix|;
    ValueOfDigits(v, base);
    LeadingZeros(zeros, ds, base);
    hide Digits, DigitOf, Value;
    assert s[start..|s|] == Zeros(zeros) + ds;
    assert DigitOf('0') == 0 by { ZeroDigit(); }
    forall k | start <= k < |s|
      ensures DigitOf(s[k]) < base
    {
      assert s[k] == s[start..|s|][k - start];
    }
    RunToEnd(s, start, base);
  }

  lemma ZeroDigit()
    ensures DigitOf('0') == 0
  {
  }

  lemma DigitsAreNotSigns(c: char, base: Base)
    requires DigitOf(c) < base
    ensures !IsSpace(c) && c != '-' && c != '+'
  {
  }

  /** Blanks and sign of a field are passed over. */
  lemma FieldStart(s: string, blanks: nat, prefix: string, zeros: nat, v: nat, base: Base)
    requires IsField(s, blanks, prefix, zeros, v, base)
    ensures blanks < |s| && SkipSpace(s, 0) == blanks
    ensures (s[blanks] == '-') == (prefix == "-") && s[blanks] != '+'
    ensures prefix != "-" ==> prefix == ""
  {
    FieldNumber(s, blanks, prefix, zeros, v, base);
    hide Digits, DigitOf, Value, RunEnd;
    if prefix == "-" {
      assert s[blanks] == '-';
    } else {
      DigitsAreNotSigns(s[blanks], base);
    }
    SkipBlanks(s, 0, blanks);
  }

  /** What the parser makes of a field. */
  lemma FieldParses(s: string, blanks: nat, prefix: string, zeros: nat, v: nat, base: Base, signed: bool)
    requires IsField(s, blanks, prefix, zeros, v, base)
    requires prefix == "-" ==> signed
    requires base == 16 ==> !HexPrefix(s, blanks + |prefix|)
    ensures Converted(s, base, signed) == Outcome(prefix == "-", signed, v, |s|)
  {
    hide IsField, SkipSpace, RunEnd, Value, HexPrefix, DigitOf, Digits, Outcome;
    FieldNumber(s, blanks, prefix, zeros, v, base);
    FieldStart(s, blanks, prefix, zeros, v, base);
  }

  lemma {:induction false} FirstDigit(v: nat, base: Base)
    ensures Digits(v, base)[0] == '0' ==> v == 0
    decreases v
  {
    if v >= base {
      Quotient(v, base);
      FirstDigit(v / base, base);
    } else {
      DigitRoundTrip(v);
    }
  }

  /** Every signed 64-bit integer that is printed in decimal, however padded, is read back. Reading the
      smallest one also reports ERANGE: its magnitude exceeds the largest value. */
  lemma SignedRoundTrip(v: Int64, width: nat, padZero: bool)
    ensures var s := PrintSigned(v, width, padZero);
            Converted(s, 10, true) == Parsed(v, |s|, if v == INT_MIN64 then OutOfRange else Cleared)
  {
    var s := PrintSigned(v, width, padZero);
    var prefix := if v < 0 then "-" else "";
    var ds := Digits(Magnitude(v), 10);
    var k := |ds| + |prefix|;
    var pad := if width <= k then 0 else width - k;
    if padZero {
      assert s == Blanks(0) + prefix + Zeros(pad) + ds;
      FieldParses(s, 0, prefix, pad, Magnitude(v), 10, true);
    } else {
      assert s == Blanks(pad) + prefix + Zeros(0) + ds;
      FieldParses(s, pad, prefix, 0, Magnitude(v), 10, true);
    }
  }

  lemma UnsignedRoundTrip(v: UInt64, width: nat, padZero: bool)
    ensures var s := PrintUnsigned(v, width, padZero); Converted(s, 10, false) == Parsed(v, |s|, Cleared)
  {
    var s := PrintUnsigned(v, width, padZero);
    var ds := Digits(v, 10);
    var pad := if width <= |ds| then 0 else width - |ds|;
    if padZero {
      assert s == Blanks(0) + "" + Zeros(pad) + ds;
      FieldParses(s, 0, "", pad, v, 10, false);
    } else {
      assert s == Blanks(pad) + "" + Zeros(0) + ds;
      FieldParses(s, pad, "", 0, v, 10, false);
    }
  }

  function HexLength(v: UInt64): nat
  {
    if v == 0 then 1 else |Digits(v, 16)|
  }

  /** The digits of a hexadecimal conversion, zeros included: what stands between padding and end. */
  lemma HexDigits(v: UInt64, width: nat, padZero: bool) returns (blanks: nat, zeros: nat, ds: string)
    ensures blanks == if padZero || width <= HexLength(v) then 0 else width - HexLength(v)
    ensures (ds == "" || ds == Digits(v, 16)) && (ds == "" ==> v == 0) && zeros + |ds| > 0
    ensures PrintHex(v, width, padZero) == Blanks(blanks) + (Zeros(zeros) + ds)
  {
    hide Digits;
    var k := HexLength(v);
    var pad := if width <= k then 0 else width - k;
    var forced := if v == 0 then 1 else 0;
    ds := if v == 0 then "" else Digits(v, 16);
    zeros := if padZero then forced + pad else forced;
    blanks := if padZero then 0 else pad;
    if padZero {
      assert Blanks(0) + (Zeros(zeros) + ds) == Zeros(zeros) + ds;
    } else {
      assert Blanks(pad) + (Zeros(zeros) + ds) == Blanks(pad) + Zeros(forced) + ds;
    }
  }

  /** A prefixed hexadecimal number is read back, in base 16 or with the base left open, exactly when no
      blanks come between the prefix and the digits: padding with blanks spoils it, zeros do not. */
  lemma HexRoundTrip(v: UInt64, width: nat, padZero: bool, base: int)
    requires base == 16 || base == 0
    ensures var s := "0x" + PrintHex(v, width, padZero);
            Converted(s, base, false) == Parsed(v, |s|, Cleared) <==> padZero || width <= HexLength(v)
  {
    hide PrintHex, HexLength, Digits, Converted;
    var blanks, zeros, ds := HexDigits(v, width, padZero);
    HexFieldParses("0x" + (Blanks(blanks) + (Zeros(zeros) + ds)), blanks, zeros, ds, v, base);
  }

  lemma HexFieldParses(s: string, blanks: nat, zeros: nat, ds: string, v: UInt64, base: int)
    requires base == 16 || base == 0
    requires (ds == "" || ds == Digits(v, 16)) && (ds == "" ==> v == 0) && zeros + |ds| > 0
    requires s == "0x" + (Blanks(blanks) + (Zeros(zeros) + ds))
    ensures Converted(s, base, false) == Parsed(v, |s|, Cleared) <==> blanks == 0
  {
    hide SkipSpace, RunEnd, Value, Digits, HexPrefix, DigitOf;
    PrefixedStart(s, base);
    if blanks > 0 {
      assert s[2] == ' ';
      BlankStopsRun(s);
    } else {
      assert Blanks(0) + (Zeros(zeros) + ds) == Zeros(zeros) + ds;
      HexRun(s, zeros, ds, v);
    }
  }

  lemma PrefixedStart(s: string, base: int)
    requires |s| >= 2 && s[..2] == "0x" && (base == 16 || base == 0)
    ensures SkipSpace(s, 0) == 0 && HexPrefix(s, 0) && BaseOf(s, 0, base) == 16
    ensures AfterPrefix(s, AfterSign(s, 0, false), 16) == 2
  {
    assert s[0] == s[..2][0] && s[1] == s[..2][1];
  }

  lemma BlankStopsRun(s: string)
    requires |s| > 2 && s[2] == ' '
    ensures RunEnd(s, 2, 16) == 2
  {
  }

  lemma HexRun(s: string, zeros: nat, ds: string, v: nat)
    requires (ds == "" || ds == Digits(v, 16)) && (ds == "" ==> v == 0)
    requires s == "0x" + (Zeros(zeros) + ds)
    ensures RunEnd(s, 2, 16) == |s| && Value(s[2..|s|], 16) == v
  {
    ValueOfDigits(v, 16);
    LeadingZeros(zeros, ds, 16);
    ZeroDigit();
    assert s[2..|s|] == Zeros(zeros) + ds;
    assert ds == "" ==> Value(ds, 16) == 0;
    hide Digits, DigitOf, Value;
    forall k | 2 <= k < |s|
      ensures DigitOf(s[k]) < 16
    {
      assert s[k] == s[2..|s|][k - 2];
    }
    RunToEnd(s, 2, 16);
  }

  // ---- The parsing loops ------------------------------------------------------------------------

  /** The program's test for a digit that no longer fits is exact. */
  lemma CutoffTest(i: int, c: int, base: Base, max: int)
    requires 0 <= i && 0 <= c < base && max >= 0
    ensures (i > max / base || (i == max / base && c > max % base)) <==> i * base + c > max
  {
    var q, r := max / base, max % base;
    assert max == q * base + r && 0 <= r < base;
    if i < q {
      Scaled(q - i - 1, base);
      assert i * base + base + (q - i - 1) * base == q * base;
    } else if i > q {
      Scaled(i - q - 1, base);
      assert i * base == q * base + base + (i - q - 1) * base;
    }
  }

  lemma {:induction false} ValueNonNegative(ds: string, base: Base)
    ensures Value(ds, base) >= 0
  {
    if ds != "" {
      ValueNonNegative(ds[..|ds| - 1], base);
      Scaled(Value(ds[..|ds| - 1], base), base);
    }
  }

  lemma NextValue(s: string, start: nat, k: nat, base: Base)
    requires start <= k < |s|
    ensures Value(s[start..k + 1], base) == Value(s[start..k], base) * base + DigitOf(s[k])
    ensures Value(s[start..k + 1], base) >= Value(s[start..k], base) >= 0
  {
    assert s[start..k + 1][..k - start] == s[start..k] && s[start..k + 1][k - start] == s[k];
    ValueNonNegative(s[start..k], base);
    Scaled(Value(s[start..k], base), base);
  }

  lemma NoValue(s: string, start: nat, base: Base)
    requires start <= |s|
    ensures Value(s[start..start], base) == 0
  {
  }

  /** The digit loop shared by both conversions: the accumulator stays within the range throughout, also
      after an overflow has been noticed, and the overflow flag says exactly whether the number fits. */
  method DigitLoop(s: string, start: nat, base: Base, max: int) returns (i: int, overflow: bool, end: nat)
    requires start <= |s| && max >= 0
    ensures end == RunEnd(s, start, base)
    ensures overflow <==> Value(s[start..end], base) > max
    ensures !overflow ==> i == Value(s[start..end], base)
    ensures 0 <= i <= max
  {
    hide RunEnd, Value, DigitOf;
    var cutoff, cutlim := max / base, max % base;
    overflow, i, end := false, 0, start;
    NoValue(s, start, base);
    while end < |s|
      invariant start <= end <= |s|
      invariant RunEnd(s, start, base) == RunEnd(s, end, base)
      invariant overflow <==> Value(s[start..end], base) > max
      invariant !overflow ==> i == Value(s[start..end], base)
      invariant 0 <= i <= max
    {
      var c := DigitOf(s[end]);
      RunStep(s, end, base);
      if c >= base {
        return;
      }
      NextValue(s, start, end, base);
      CutoffTest(i, c, base, max);
      if i > cutoff || (i == cutoff && c > cutlim) {
        overflow := true;
      } else {
        Scaled(i, base);
        i := i * base + c;
      }
      end := end + 1;
    }
    RunStep(s, end, base);
  }

  lemma RunStep(s: string, i: nat, base: Base)
    requires i <= |s|
    ensures RunEnd(s, i, base) == if i < |s| && DigitOf(s[i]) < base then RunEnd(s, i + 1, base) else i
  {
  }

  method SkipSpaces(s: string) returns (i: nat)
    ensures i == SkipSpace(s, 0)
  {
    i := 0;
    while i < |s| && IsSpace(s[i])
      invariant 0 <= i <= |s| && SkipSpace(s, 0) == SkipSpace(s, i)
    {
      i := i + 1;
    }
  }

  /** Convert a string to a signed result. */
  method MyAtosq(nptr: string, asked: int) returns (r: Parsed)
    requires nptr != "" && (asked == 0 || 2 <= asked <= 36)
    ensures r == Converted(nptr, asked, true)
  {
    hide SkipSpace, RunEnd, Value, HexPrefix, DigitOf, AfterPrefix, Outcome;
    var s := SkipSpaces(nptr);
    if s == |nptr| {
      return Parsed(0, 0, Unchanged);
    }
    var base := asked;
    if base == 0 {
      base := if HexPrefix(nptr, s) then 16 else 10;
    }
    var negative := false;
    if nptr[s] == '-' {
      negative, s := true, s + 1;
    } else if nptr[s] == '+' {
      s := s + 1;
    }
    r := FinishSigned(nptr, s, base, negative);
  }

  /** What follows the sign of a signed number. */
  method FinishSigned(nptr: string, after: nat, base: Base, negative: bool) returns (r: Parsed)
    requires after <= |nptr|
    ensures var start := AfterPrefix(nptr, after, base);
            var end := RunEnd(nptr, start, base);
            r == if end == start then Parsed(0, 0, Unchanged)
                 else Outcome(negative, true, Value(nptr[start..end], base), end)
  {
    hide RunEnd, Value, HexPrefix, DigitOf;
    var s := after;
    if base == 16 && HexPrefix(nptr, s) {
      s := s + 2;
    }
    var i, overflow, end := DigitLoop(nptr, s, base, INT_MAX64);
    if end == s {
      return Parsed(0, 0, Unchanged);
    }
    if overflow {
      r := Parsed(if negative then INT_MIN64 else INT_MAX64, end, OutOfRange);
    } else {
      r := Parsed(if negative then -i else i, end, Cleared);
    }
  }

  /** Convert a string to an unsigned result: there is no sign to look for. */
  method MyAtoq(nptr: string, asked: int) returns (r: Parsed)
    requires nptr != "" && (asked == 0 || 2 <= asked <= 36)
    ensures r == Converted(nptr, asked, false)
  {
    hide SkipSpace, RunEnd, Value, HexPrefix, DigitOf;
    var s := SkipSpaces(nptr);
    if s == |nptr| {
      return Parsed(0, 0, Unchanged);
    }
    var base := asked;
    if base == 0 {
      base := if HexPrefix(nptr, s) then 16 else 10;
    }
    if base == 16 && HexPrefix(nptr, s) {
      s := s + 2;
    }
    var i, overflow, end := DigitLoop(nptr, s, base, UINT_MAX64);
    if end == s {
      return Parsed(0, 0, Unchanged);
    }
    r := if overflow then Parsed(UINT_MAX64, end, OutOfRange) else Parsed(i, end, Cleared);
  }

  // ---- The printing loops -----------------------------------------------------------------------

  /** A value cut down to a signed 32-bit integer. */
  function Int32(x: int): (r: int)
    ensures -0x8000_0000 <= r < 0x8000_0000
    ensures (x - r) % 0x1_0000_0000 == 0
  {
    var low := x % 0x1_0000_0000;
    if low < 0x8000_0000 then low else low - 0x1_0000_0000
  }

  lemma Truncated(x: int, r: int)
    requires (x - r) % 0x1_0000_0000 == 0 && -0x8000_0000 <= r < 0x8000_0000
    ensures Int32(x) == r
  {
  }

  /** How many times a cut-down value has wrapped around. */
  function Wraps(x: int): (k: int)
    ensures x == Int32(x) + k * 0x1_0000_0000
  {
    (x - Int32(x)) / 0x1_0000_0000
  }

  /** The digit of a 64-bit value, computed in 32-bit arithmetic that may wrap twice, is right. */
  lemma DigitInInt(q: nat)
    ensures Int32(Int32(q) - Int32(Int32(q / 10) * 10)) == q % 10
  {
    hide Int32;
    var a, b := Int32(q), Int32(q / 10);
    var c := Int32(b * 10);
    var k1, k2, k3 := Wraps(q), Wraps(q / 10), Wraps(b * 10);
    assert a - c - q % 10 == 0x1_0000_0000 * (10 * k2 + k3 - k1);
    Truncated(a - c, q % 10);
  }

  lemma LowDigitIs(u: nat)
    ensures u % 10 == u / 2 % 5 * 2 + u % 2 && u / 10 == u / 2 / 5
    ensures DigitChar(u % 10) == ('0' as int + u % 10) as char
  {
    Tenth(u, u / 2 / 5, u / 2 % 5 * 2 + u % 2);
  }

  lemma Tenth(u: nat, q: nat, r: nat)
    requires u == 10 * q + r && r < 10
    ensures u / 10 == q && u % 10 == r
  {
  }

  /** The low digit of a 64-bit value whose high bit is set, and the value divided by ten. The argument is
      the unsigned reading of the word. */
  method LowDigit(u: int) returns (digit: char, rest: int)
    requires 0x8000_0000_0000_0000 <= u <= UINT_MAX64
    ensures digit == DigitChar(u % 10) && rest == u / 10 <= INT_MAX64
  {
    hide DigitChar;
    LowDigitIs(u);
    var lowbit := u % 2;
    var value := u / 2;
    rest := value / 5;
    digit := ('0' as int + (value % 5 * 2 + lowbit)) as char;
  }

  const MAXDIGS: nat := 22

  /** How many digits a number can need. */
  lemma {:induction false} DigitCount(v: nat, base: Base, n: nat)
    requires n >= 1 && v < Power(base, n)
    ensures |Digits(v, base)| <= n
    decreases n
  {
    if v >= base {
      Quotient(v, base);
      assert Power(base, 1) == base * Power(base, 0);
      PowerShrinks(v, base, n);
      DigitCount(v / base, base, n - 1);
    }
  }

  lemma PowerShrinks(v: nat, base: Base, n: nat)
    requires n >= 1 && base <= v < Power(base, n)
    ensures n >= 2 && v / base < Power(base, n - 1)
  {
    var p := Power(base, n - 1);
    assert Power(base, n) == p * base;
    assert Power(base, 0) == 1;
    Quotient(v, base);
    Scaled(p - v / base, base);
    assert (p - v / base) * base == p * base - v / base * base;
  }

  function Power(base: int, n: nat): int
  {
    if n == 0 then 1 else base * Power(base, n - 1)
  }

  lemma Powers()
    ensures Power(10, 20) == 100_000_000_000_000_000_000 && Power(16, 16) == UINT_MAX64 + 1
  {
    assert Power(10, 5) == 100_000;
    assert Power(10, 10) == 10_000_000_000;
    assert Power(10, 15) == 1_000_000_000_000_000;
    assert Power(16, 4) == 65536;
    assert Power(16, 8) == 0x1_0000_0000;
    assert Power(16, 12) == 0x1_0000_0000_0000;
  }

  /** A 64-bit value needs at most twenty decimal or sixteen hexadecimal digits. */
  lemma DigitsFit(v: UInt64)
    ensures |Digits(v, 10)| <= 20 && |Digits(v, 16)| <= 16
  {
    Powers();
    DigitCount(v, 10, 20);
    DigitCount(v, 16, 16);
  }

  /** The last digit stands for the remainder, the digits before it for the quotient. */
  lemma LastDigitSplit(v: nat, base: Base)
    ensures v < base ==> Digits(v, base) == [DigitChar(v)]
    ensures v >= base ==> v / base > 0 && Digits(v, base) == Digits(v / base, base) + [DigitChar(v % base)]
  {
    Quotient(v, base);
  }

  /** Develop the decimal digits of a non-negative value backwards from bp0. */
  method DecimalDigits(val: int, buf: array<char>, bp0: nat) returns (bp: nat)
    requires 0 <= val <= INT_MAX64 && |Digits(val, 10)| <= bp0 <= buf.Length
    modifies buf
    ensures bp == bp0 - |Digits(val, 10)|
    ensures buf[bp..bp0] == Digits(val, 10)
    ensures buf[bp0..] == old(buf[bp0..])
  {
    hide Int32, Digits;
    var qval := val;
    bp := bp0;
    while qval > 9
      invariant 0 <= qval && bp <= bp0
      invariant |Digits(qval, 10)| <= bp
      invariant Digits(val, 10) == Digits(qval, 10) + buf[bp..bp0]
      invariant buf[bp0..] == old(buf[bp0..])
      decreases qval
    {
      var n := Int32(qval);
      DigitInInt(qval);
      LastDigitSplit(qval, 10);
      qval := qval / 10;
      bp := bp - 1;
      ghost var tail := buf[bp + 1..bp0];
      buf[bp] := ('0' as int + Int32(n - Int32(Int32(qval) * 10))) as char;
      assert buf[bp..bp0] == [buf[bp]] + tail;
    }
    LastDigitSplit(qval, 10);
    bp := bp - 1;
    ghost var tail := buf[bp + 1..bp0];
    buf[bp] := ('0' as int + qval) as char;
    assert buf[bp..bp0] == [buf[bp]] + tail;
  }

  /** The hexadecimal digits of a value; zero has none of its own. */
  function HexText(v: nat): string
  {
    if v == 0 then "" else Digits(v, 16)
  }

  lemma NextHexDigit(v: nat)
    requires v > 0
    ensures 0 <= v / 16 < v && HexText(v) == HexText(v / 16) + [DigitChar(v % 16)]
  {
    hide Digits, DigitChar;
    LastDigitSplit(v, 16);
  }

  /** Develop hexadecimal digits the same way; zero develops none. */
  method HexDigitLoop(val: UInt64, buf: array<char>, bp0: nat) returns (bp: nat)
    requires |HexText(val)| <= bp0 <= buf.Length
    modifies buf
    ensures bp == bp0 - |HexText(val)|
    ensures buf[bp..bp0] == HexText(val)
  {
    hide HexText, DigitChar;
    var qval := val;
    bp := bp0;
    while qval != 0
      invariant 0 <= qval && |HexText(qval)| <= bp <= bp0
      invariant HexText(val) == HexText(qval) + buf[bp..bp0]
      decreases qval
    {
      NextHexDigit(qval);
      bp := bp - 1;
      ghost var tail := buf[bp + 1..bp0];
      buf[bp] := DigitChar(qval % 16);
      assert buf[bp..bp0] == [buf[bp]] + tail;
      qval := qval / 16;
    }
    NoHexText();
  }

  lemma NoHexText()
    ensures HexText(0) == ""
  {
  }

  /** Put one conversion out: blanks, prefix, zeros, digits. */
  method Emit(prefix: string, forced: nat, digits: string, width: nat, padZero: bool) returns (out: string)
    ensures out == Assembled(prefix, forced, digits, width, padZero)
  {
    out := "";
    var lzero := forced;
    var k := |digits| + |prefix| + forced;
    if width > k {
      if padZero {
        lzero := lzero + (width - k);
      } else {
        out := Pad(out, ' ', width - k);
        assert out == Blanks(width - k);
      }
    }
    out := out + prefix;
    ghost var before := out;
    out := Pad(out, '0', lzero);
    assert out == before + Zeros(lzero);
    out := out + digits;
  }

  method Pad(out: string, c: char, n: nat) returns (r: string)
    ensures r == out + seq(n, _ => c)
  {
    r := out;
    var i := 0;
    while i < n
      invariant 0 <= i <= n && r == out + seq(i, _ => c)
    {
      r := r + [c];
      i := i + 1;
    }
  }

  /** The common end of the decimal conversions: the digits of val in front of those already put. */
  method FinishDecimal(val: int, buf: array<char>, bp: nat, prefix: string, width: nat, padZero: bool)
    returns (out: string)
    requires 0 <= val <= INT_MAX64 && |Digits(val, 10)| <= bp <= MAXDIGS <= buf.Length
    modifies buf
    ensures out == Assembled(prefix, 0, Digits(val, 10) + old(buf[bp..MAXDIGS]), width, padZero)
  {
    ghost var tail := buf[bp..MAXDIGS];
    hide Digits, Assembled;
    var start := DecimalDigits(val, buf, bp);
    assert buf[bp..MAXDIGS] == buf[bp..][..MAXDIGS - bp] == tail;
    assert buf[start..MAXDIGS] == buf[start..bp] + buf[bp..MAXDIGS];
    out := Emit(prefix, 0, buf[start..MAXDIGS], width, padZero);
  }

  /** %ld: the digits stay within the 22 characters in front of the buffer's starting point. */
  method FormatSigned(arg: Int64, width: nat, padZero: bool) returns (out: string)
    ensures out == PrintSigned(arg, width, padZero)
  {
    hide Digits, DigitChar, Assembled;
    var buf := new char[MAXDIGS * 4];
    var bp, val: int := MAXDIGS, arg;
    var prefix := "";
    ghost var m := Magnitude(arg);
    DigitsFit(m);
    if val < 0 {
      prefix := "-";
      if val != INT_MIN64 {
        val := -val;
      } else {
        var u := val + (UINT_MAX64 + 1);
        LastDigitSplit(u, 10);
        var digit, rest := LowDigit(u);
        bp := bp - 1;
        buf[bp] := digit;
        val := rest;
      }
    }
    assert Digits(m, 10) == Digits(val, 10) + buf[bp..MAXDIGS];
    out := FinishDecimal(val, buf, bp, prefix, width, padZero);
  }

  /** %lu: when the high bit is set the last digit is split off first. */
  method FormatUnsigned(arg: UInt64, width: nat, padZero: bool) returns (out: string)
    ensures out == PrintUnsigned(arg, width, padZero)
  {
    hide Digits, DigitChar, Assembled;
    var buf := new char[MAXDIGS * 4];
    var bp, val: int := MAXDIGS, arg;
    DigitsFit(arg);
    if val >= 0x8000_0000_0000_0000 {
      LastDigitSplit(val, 10);
      var digit, rest := LowDigit(val);
      bp := bp - 1;
      buf[bp] := digit;
      val := rest;
    }
    assert Digits(arg, 10) == Digits(val, 10) + buf[bp..MAXDIGS];
    out := FinishDecimal(val, buf, bp, "", width, padZero);
  }

  /** %lx */
  method FormatHex(arg: UInt64, width: nat, padZero: bool) returns (out: string)
    ensures out == PrintHex(arg, width, padZero)
  {
    var buf := new char[MAXDIGS * 4];
    DigitsFit(arg);
    var start := HexDigitLoop(arg, buf, MAXDIGS);
    out := Emit("", if arg == 0 then 1 else 0, buf[start..MAXDIGS], width, padZero);
  }
}
