/**
 Numbers as text: `_format_number` of `answer_formatting.py` prints a value, and
 `numeric_token_value` of `answer.py` reads a token back. Floats are reals here;
 `"%.df" % x` rounds half to even.
 */
module NumberText {
  import opened Basics
  import opened Text
  import opened NumberScanner
  import opened AnswerText

  // ----- digits

  function Pow10(n: nat): (p: nat)
    ensures p > 0
  {
    if n == 0 then 1 else 10 * Pow10(n - 1)
  }

  function DigitChar(n: nat): (c: char)
    requires n < 10
    ensures IsDigit(c) && c as int - '0' as int == n
  {
    ('0' as int + n) as char
  }

  predicate AllDigits(s: string) { forall k :: 0 <= k < |s| ==> IsDigit(s[k]) }

  /** The natural number a digit text writes. */
  function DigitsValue(s: string): nat
    requires AllDigits(s)
  {
    if s == "" then 0
    else
      assert IsDigit(s[|s| - 1]);
      10 * DigitsValue(s[..|s| - 1]) + (s[|s| - 1] as int - '0' as int)
  }

  /** `str(n)` */
  function NatText(n: nat): (s: string)
    ensures s != "" && AllDigits(s) && DigitsValue(s) == n
  {
    if n < 10 then
      var s := [DigitChar(n)];
      assert s[..0] == "";
      s
    else
      var front := NatText(n / 10);
      var s := front + [DigitChar(n % 10)];
      assert s[..|s| - 1] == front;
      s
  }

  /** `n` with leading zeros, `width` digits in all. */
  function PaddedText(n: nat, width: nat): (s: string)
    requires n < Pow10(width)
    ensures |s| == width && AllDigits(s) && DigitsValue(s) == n
  {
    if width == 0 then ""
    else
      var front := PaddedText(n / 10, width - 1);
      var s := front + [DigitChar(n % 10)];
      assert s[..|s| - 1] == front;
      s
  }

  // ----- reading

  predicate NotComma(c: char) { c != ',' }

  predicate IsPercent(c: char) { c == '%' }

  predicate IsPoint(c: char) { c == '.' }

  predicate IsNought(c: char) { c == '0' }

  function Signed(negative: bool, x: real): real { if negative then -x else x }

  /** Digits, and optionally a point and more digits. */
  function ReadUnsigned(s: string): Option<real> {
    var w := DigitEnd(s, 0);
    if w == |s| then
      if w == 0 then None else Some(DigitsValue(s) as real)
    else if s[w] == '.' && DigitEnd(s, w + 1) == |s| && |s| > 1 then
      Some(Decimal(s[..w], s[w + 1..]))
    else None
  }

  /** The value of `whole.fraction`. */
  function Decimal(whole: string, fraction: string): real
    requires AllDigits(whole) && AllDigits(fraction)
  {
    DigitsValue(whole) as real + DigitsValue(fraction) as real / Pow10(|fraction|) as real
  }

  /** `float(s)` on plain decimal notation. */
  function ReadFloat(s: string): Option<real> {
    var t := Strip(s);
    if t != "" && IsSign(t[0]) then
      var r := ReadUnsigned(t[1..]);
      if r.None? then None else Some(Signed(t[0] == '-', r.value))
    else ReadUnsigned(t)
  }

  function WithoutCommas(s: string): string { Filter(NotComma, s) }

  function WithoutPercents(s: string): string { StripRight(IsPercent, s) }

  /** A token without commas: drop percent signs, read, and scale. */
  function ReadToken(t: string): Option<real> {
    if t == "" then None
    else
      var r := ReadFloat(WithoutPercents(t));
      if r.None? then None
      else if t[|t| - 1] == '%' then Some(r.value / 100.0) else r
  }

  /** numeric_token_value on a text. */
  function NumericTokenValue(s: string): Option<real> { ReadToken(WithoutCommas(Strip(s))) }

  // ----- printing

  /** `round` to the nearest integer, ties to even. */
  function RoundHalfEven(x: real): (q: int)
    requires x >= 0.0
    ensures q >= 0
    ensures -0.5 <= q as real - x <= 0.5
  {
    var f := x.Floor;
    var rest := x - f as real;
    if rest < 0.5 then f else if rest > 0.5 then f + 1 else if f % 2 == 0 then f else f + 1
  }

  /** The rounded value is the nearest whole number and, of two that are as near, the even one. */
  lemma RoundsExactly(x: real, q: int)
    requires x >= 0.0
    ensures RoundHalfEven(x) == q <==>
              -0.5 <= q as real - x <= 0.5 && (q as real - x == 0.5 || q as real - x == -0.5 ==> q % 2 == 0)
  {
  }

  function Scaled(x: real, p: nat): (y: real)
    ensures y >= 0.0
  {
    Abs(x) * p as real
  }

  /** The digits that `"%.df" % x` shows, as one integer. */
  function Shown(x: real, places: nat): nat { RoundHalfEven(Scaled(x, Pow10(places))) }

  function Whole(q: nat, p: nat): nat
    requires p > 0
  {
    q / p
  }

  function Rest(q: nat, p: nat): (r: nat)
    requires p > 0
    ensures r < p
    ensures q == Whole(q, p) * p + r
  {
    q % p
  }

  /** The digits in front of the point, and those behind it. */
  function WholeText(x: real, places: nat): string { NatText(Whole(Shown(x, places), Pow10(places))) }

  function RestText(x: real, places: nat): string { PaddedText(Rest(Shown(x, places), Pow10(places)), places) }

  function SignText(negative: bool): string { if negative then "-" else "" }

  /** `"%.df" % x` */
  function Fixed(x: real, places: nat): string {
    SignText(x < 0.0) + WholeText(x, places) + (if places == 0 then "" else "." + RestText(x, places))
  }

  predicate IsInteger(x: real) { x.Floor as real == x }

  /** `str(int(x))` of an integral value. */
  function IntText(x: real): string { SignText(x < 0.0) + NatText(Abs(x).Floor) }

  /** _format_number */
  function FormatNumber(x: real, places: nat): string {
    if IsInteger(x) then IntText(x)
    else StripRight(IsPoint, StripRight(IsNought, Fixed(x, places)))
  }

  /** A ratio becomes a percentage; anything larger is taken to be one. */
  function PercentOf(x: real): real { if Abs(x) <= 1.0 then x * 100.0 else x }

  /** A text as printed, also with a percent sign behind it. */
  function Suffixed(s: string, percent: bool): string { if percent then s + "%" else s }

  function FormatPercent(x: real, places: nat): string {
    Suffixed(FormatNumber(PercentOf(x), places), true)
  }

  predicate FloatClose(left: real, right: real) {
    var tolerance := if Abs(right) * 0.000001 > 0.005 then Abs(right) * 0.000001 else 0.005;
    Abs(left - right) <= tolerance
  }

  // ----- reading what was printed

  lemma {:induction false} AllDigitsEnd(s: string, i: nat)
    requires i <= |s| && forall k :: i <= k < |s| ==> IsDigit(s[k])
    ensures DigitEnd(s, i) == |s|
    decreases |s| - i
  {
    if i < |s| { AllDigitsEnd(s, i + 1); }
  }

  lemma {:induction false} DigitsUpTo(s: string, i: nat, w: nat)
    requires i <= w < |s| && !IsDigit(s[w]) && forall k :: i <= k < w ==> IsDigit(s[k])
    ensures DigitEnd(s, i) == w
    decreases w - i
  {
    if i < w { DigitsUpTo(s, i + 1, w); }
  }

  /** `whole`, or `whole.fraction` when there is a fraction. */
  function DecimalText(whole: string, fraction: string): string {
    if fraction == "" then whole else whole + "." + fraction
  }

  lemma ReadDecimal(whole: string, fraction: string)
    requires whole != "" && AllDigits(whole) && AllDigits(fraction)
    ensures ReadUnsigned(DecimalText(whole, fraction)) == Some(Decimal(whole, fraction))
  {
    var s := DecimalText(whole, fraction);
    if fraction == "" {
      AllDigitsEnd(s, 0);
    } else {
      var w := |whole|;
      assert s[w] == '.' && s[..w] == whole && s[w + 1..] == fraction;
      assert forall k :: 0 <= k < w ==> s[k] == whole[k];
      assert forall k :: w + 1 <= k < |s| ==> s[k] == fraction[k - (w + 1)];
      DigitsUpTo(s, 0, w);
      AllDigitsEnd(s, w + 1);
    }
  }

  /** Digits are read as a whole number; digits with one point among, before or behind them as a decimal; a point alone is not. */
  lemma ReadsUnsigned(whole: string, fraction: string)
    requires AllDigits(whole) && AllDigits(fraction)
    ensures ReadUnsigned(whole) == if whole == "" then None else Some(DigitsValue(whole) as real)
    ensures ReadUnsigned(whole + "." + fraction) == if whole == "" && fraction == "" then None else Some(Decimal(whole, fraction))
  {
    var s := whole + "." + fraction;
    AllDigitsEnd(whole, 0);
    DigitsUpTo(s, 0, |whole|);
    assert s[|whole|] == '.' && s[..|whole|] == whole && s[|whole| + 1..] == fraction;
    forall k | |whole| < k < |s| ensures IsDigit(s[k]) { assert s[k] == fraction[k - |whole| - 1]; }
    AllDigitsEnd(s, |whole| + 1);
  }

  lemma ReadSigned(negative: bool, whole: string, fraction: string)
    requires whole != "" && AllDigits(whole) && AllDigits(fraction)
    ensures ReadFloat(SignText(negative) + DecimalText(whole, fraction)) == Some(Signed(negative, Decimal(whole, fraction)))
  {
    var body := DecimalText(whole, fraction);
    var s := SignText(negative) + body;
    PrintedIsPlain(negative, whole, fraction);
    NumberEndsAreNotBlank(s);
    ReadDecimal(whole, fraction);
    if negative {
      assert s[0] == '-' && s[1..] == body;
    } else {
      assert s == body && IsDigit(whole[0]) && s[0] == whole[0];
    }
  }

  lemma NumberEndsAreNotBlank(s: string)
    requires s != "" && (IsDigit(s[0]) || s[0] == '-') && (IsDigit(s[|s| - 1]) || s[|s| - 1] == '%')
    ensures Strip(s) == s
  {
    TrimmedIsItsStrip(s);
  }

  lemma {:induction false} NothingFiltered(keep: char -> bool, s: string)
    requires forall k :: 0 <= k < |s| ==> keep(s[k])
    ensures Filter(keep, s) == s
  {
    if s != "" {
      NothingFiltered(keep, s[1..]);
      assert s == [s[0]] + s[1..];
    }
  }

  lemma PrintedBody(s: string, negative: bool, whole: string, fraction: string)
    requires whole != "" && AllDigits(whole) && AllDigits(fraction)
    requires s == SignText(negative) + DecimalText(whole, fraction)
    ensures IsPlain(s) && ReadFloat(s) == Some(Signed(negative, Decimal(whole, fraction)))
  {
    PrintedIsPlain(negative, whole, fraction);
    ReadSigned(negative, whole, fraction);
  }

  /** A printed decimal, with or without a percent sign, is read as its value. */
  lemma ReadPrinted(s: string, negative: bool, whole: string, fraction: string, percent: bool)
    requires whole != "" && AllDigits(whole) && AllDigits(fraction)
    requires s == SignText(negative) + DecimalText(whole, fraction)
    ensures var x := Signed(negative, Decimal(whole, fraction));
            NumericTokenValue(Suffixed(s, percent)) == Some(if percent then x / 100.0 else x)
  {
    PrintedBody(s, negative, whole, fraction);
    ReadBody(s, percent, Signed(negative, Decimal(whole, fraction)));
  }

  /** Digits, signs and points, with a digit at the end. */
  predicate IsPlain(s: string) {
    && s != "" && IsDigit(s[|s| - 1]) && (IsDigit(s[0]) || s[0] == '-')
    && forall k :: 0 <= k < |s| ==> IsDigit(s[k]) || s[k] == '-' || s[k] == '.'
  }

  lemma ReadBody(body: string, percent: bool, x: real)
    requires IsPlain(body) && ReadFloat(body) == Some(x)
    ensures NumericTokenValue(Suffixed(body, percent)) == Some(if percent then x / 100.0 else x)
  {
    var s := Suffixed(body, percent);
    SuffixedIsItself(body, percent);
    StripOnePercent(body, percent);
    assert s[|s| - 1] == if percent then '%' else body[|body| - 1];
    assert ReadToken(s) == Some(if percent then x / 100.0 else x);
  }

  lemma SuffixedIsItself(body: string, percent: bool)
    requires IsPlain(body)
    ensures WithoutCommas(Strip(Suffixed(body, percent))) == Suffixed(body, percent)
  {
    var s := Suffixed(body, percent);
    assert s[0] == body[0] && s[|s| - 1] == if percent then '%' else body[|body| - 1];
    NumberEndsAreNotBlank(s);
    NothingFiltered(NotComma, s);
  }

  lemma StripOnePercent(body: string, percent: bool)
    requires body != "" && body[|body| - 1] != '%'
    ensures WithoutPercents(Suffixed(body, percent)) == body
  {
    assert StripRight(IsPercent, body) == body;
    if percent {
      var s := body + "%";
      assert s[|s| - 1] == '%' && s[..|s| - 1] == body;
    }
  }

  lemma PrintedIsPlain(negative: bool, whole: string, fraction: string)
    requires whole != "" && AllDigits(whole) && AllDigits(fraction)
    ensures IsPlain(SignText(negative) + DecimalText(whole, fraction))
  {
    var text := DecimalText(whole, fraction);
    var body := SignText(negative) + text;
    assert text[0] == whole[0] && IsDigit(whole[0]);
    assert text[|text| - 1] == if fraction == "" then whole[|whole| - 1] else fraction[|fraction| - 1];
    assert body[|body| - 1] == text[|text| - 1];
  }

  // ----- trailing zeros

  function Zeros(n: nat): (z: string)
    ensures |z| == n && forall k :: 0 <= k < n ==> z[k] == '0'
  {
    if n == 0 then "" else Zeros(n - 1) + ['0']
  }

  /** A fraction without its trailing zeros. */
  function Trim(fraction: string): (t: string)
    requires AllDigits(fraction)
    ensures AllDigits(t) && |t| <= |fraction|
    ensures t != "" ==> t[|t| - 1] != '0'
  {
    if fraction != "" && fraction[|fraction| - 1] == '0' then Trim(fraction[..|fraction| - 1]) else fraction
  }

  lemma {:induction false} TrimKeepsValue(whole: string, fraction: string)
    requires AllDigits(whole) && AllDigits(fraction)
    ensures Decimal(whole, Trim(fraction)) == Decimal(whole, fraction)
  {
    if fraction != "" && fraction[|fraction| - 1] == '0' {
      var front := fraction[..|fraction| - 1];
      var n, p := DigitsValue(front), Pow10(|front|);
      assert DigitsValue(fraction) == 10 * n && Pow10(|fraction|) == 10 * p;
      TenCancels(n, p);
      TrimKeepsValue(whole, front);
    }
  }

  lemma TenCancels(n: nat, p: nat)
    requires p > 0
    ensures (10 * n) as real / (10 * p) as real == n as real / p as real
  {
    var a, b := n as real, p as real;
    assert (10 * n) as real == 10.0 * a && (10 * p) as real == 10.0 * b;
    assert (10.0 * a) / (10.0 * b) == a / b;
  }

  /** `rstrip("0").rstrip(".")` on a printed decimal drops the fraction's zeros and a bare point. */
  lemma {:induction false} StripZerosTrims(front: string, fraction: string)
    requires AllDigits(fraction) && front != "" && IsDigit(front[|front| - 1])
    ensures StripRight(IsPoint, StripRight(IsNought, front + "." + fraction)) == front + (if Trim(fraction) == "" then "" else "." + Trim(fraction))
    decreases |fraction|
  {
    var s := front + "." + fraction;
    if fraction == "" {
      assert s == front + "." && s[|s| - 1] == '.';
      assert s[..|s| - 1] == front;
    } else {
      assert s[|s| - 1] == fraction[|fraction| - 1];
      if fraction[|fraction| - 1] == '0' {
        assert s[..|s| - 1] == front + "." + fraction[..|fraction| - 1];
        StripZerosTrims(front, fraction[..|fraction| - 1]);
      }
    }
  }

  // ----- the round trip

  lemma DivideShown(x: real, places: nat)
    ensures Decimal(WholeText(x, places), RestText(x, places)) == Shown(x, places) as real / Pow10(places) as real
  {
    var q, p := Shown(x, places), Pow10(places);
    Recombine(q, Whole(q, p), p, Rest(q, p));
  }

  lemma Recombine(q: nat, w: nat, p: nat, f: nat)
    requires p > 0 && q == w * p + f
    ensures w as real + f as real / p as real == q as real / p as real
  {
    var a, b, c := w as real, p as real, f as real;
    assert (w * p) as real == a * b;
    assert q as real == a * b + c;
    assert (a * b + c) / b == a + c / b;
  }

  lemma RoundedQuotientIsNear(x: real, p: nat)
    requires p > 0
    ensures Abs(RoundHalfEven(Scaled(x, p)) as real / p as real - Abs(x)) <= 0.5 / p as real
  {
    NearQuotient(RoundHalfEven(Scaled(x, p)) as real, Abs(x), p as real, Scaled(x, p));
  }

  lemma ShownIsNear(x: real, places: nat)
    ensures Abs(Shown(x, places) as real / Pow10(places) as real - Abs(x)) <= 0.5 / Pow10(places) as real
  {
    RoundedQuotientIsNear(x, Pow10(places));
  }

  lemma NearQuotient(q: real, y: real, p: real, scaled: real)
    requires p > 0.0 && scaled == y * p && -0.5 <= q - scaled <= 0.5
    ensures Abs(q / p - y) <= 0.5 / p
  {
    var d := q - scaled;
    assert q / p - y == d / p;
    assert 0.5 / p - d / p == (0.5 - d) / p;
    assert 0.5 / p + d / p == (0.5 + d) / p;
  }

  /** What a non-integral number prints as, with at least one decimal. */
  lemma PrintsDecimal(x: real, places: nat)
    requires places >= 1 && !IsInteger(x)
    ensures FormatNumber(x, places) == SignText(x < 0.0) + DecimalText(WholeText(x, places), Trim(RestText(x, places)))
  {
    PrintsParts(SignText(x < 0.0), WholeText(x, places), RestText(x, places));
  }

  lemma PrintsParts(sign: string, whole: string, fraction: string)
    requires whole != "" && AllDigits(whole) && AllDigits(fraction)
    ensures StripRight(IsPoint, StripRight(IsNought, sign + whole + ("." + fraction))) == sign + DecimalText(whole, Trim(fraction))
  {
    var front, t := sign + whole, Trim(fraction);
    assert front[|front| - 1] == whole[|whole| - 1];
    StripZerosTrims(front, fraction);
    assert front + "." + fraction == front + ("." + fraction);
    assert front + "." + t == sign + (whole + "." + t);
    assert front + ("." + t) == front + "." + t;
    assert front + "" == front;
  }

  lemma IntegerText(x: real)
    requires IsInteger(x)
    ensures Decimal(NatText(Abs(x).Floor), "") == Abs(x)
  {
    var n := x.Floor;
    var m := if n < 0 then -n else n;
    assert Abs(x) == m as real;
    assert (m as real).Floor == m;
    assert Pow10(0) == 1;
  }

  /** The value printed, and what is printed: a sign, digits, and perhaps a fraction. */
  lemma Printed(x: real, places: nat) returns (whole: string, fraction: string)
    requires places >= 1 || IsInteger(x)
    ensures whole != "" && AllDigits(whole) && AllDigits(fraction)
    ensures FormatNumber(x, places) == SignText(x < 0.0) + DecimalText(whole, fraction)
    ensures Abs(Signed(x < 0.0, Decimal(whole, fraction)) - x) <= 0.5 / Pow10(places) as real
  {
    if IsInteger(x) {
      whole, fraction := NatText(Abs(x).Floor), "";
      IntegerText(x);
      HalfUnitIsPositive(Pow10(places));
    } else {
      whole, fraction := WholeText(x, places), Trim(RestText(x, places));
      PrintsDecimal(x, places);
      TrimKeepsValue(whole, RestText(x, places));
      DivideShown(x, places);
      ShownIsNear(x, places);
    }
  }

  lemma HalfUnitIsPositive(p: nat)
    requires p > 0
    ensures 0.5 / p as real > 0.0
  {}

  /** What is printed, as is or with a percent sign behind it, is read as a value within half a unit
      in the last place of the number. */
  lemma PrintedReads(x: real, places: nat, percent: bool) returns (z: real)
    requires places >= 1 || IsInteger(x)
    ensures NumericTokenValue(Suffixed(FormatNumber(x, places), percent)) == Some(if percent then z / 100.0 else z)
    ensures Abs(z - x) <= 0.5 / Pow10(places) as real
  {
    var whole, fraction := Printed(x, places);
    z := Signed(x < 0.0, Decimal(whole, fraction));
    ReadPrinted(FormatNumber(x, places), x < 0.0, whole, fraction, percent);
  }

  /** A number printed with at least one decimal is read back within half a unit in the last place. */
  lemma PrintReadRoundTrip(x: real, places: nat)
    requires places >= 1
    ensures NumericTokenValue(FormatNumber(x, places)).Some?
    ensures Abs(NumericTokenValue(FormatNumber(x, places)).value - x) <= 0.5 / Pow10(places) as real
  {
    var z := PrintedReads(x, places, false);
  }

  /** The percent form reads back as the value, within half a unit in its last place, exactly when the
      value is a ratio: a value of size over 1 is printed as it is, and read back as its hundredth. */
  lemma PercentRoundTrip(x: real, places: nat) returns (z: real)
    requires places >= 1
    ensures NumericTokenValue(FormatPercent(x, places)) == Some(z)
    ensures Abs(z - x) <= 0.005 / Pow10(places) as real <==> Abs(x) <= 1.0
    ensures Abs(x) > 1.0 ==> Abs(z - x / 100.0) <= 0.005 / Pow10(places) as real
  {
    var y := PrintedReads(PercentOf(x), places, true);
    z := y / 100.0;
    var p := Pow10(places) as real;
    if Abs(x) <= 1.0 {
      HundredthOfBound(y, x, p);
    } else {
      assert x == (x / 100.0) * 100.0;
      HundredthOfBound(y, x / 100.0, p);
      SmallBound(p);
    }
  }

  lemma SmallBound(p: real)
    requires p >= 1.0
    ensures 0.005 / p <= 0.005
  {
    assert 0.005 - 0.005 / p == 0.005 * (p - 1.0) / p;
  }

  lemma HundredthOfBound(z: real, x: real, p: real)
    requires p > 0.0 && Abs(z - x * 100.0) <= 0.5 / p
    ensures Abs(z / 100.0 - x) <= 0.005 / p
  {
    assert z / 100.0 - x == (z - x * 100.0) / 100.0;
    assert 0.005 / p == (0.5 / p) / 100.0;
  }

  /** With two decimals or more the value read back always passes the comparison of `float_close`. */
  lemma PrintedValueIsClose(x: real, places: nat)
    requires places >= 2
    ensures NumericTokenValue(FormatNumber(x, places)).Some?
    ensures FloatClose(x, NumericTokenValue(FormatNumber(x, places)).value)
  {
    PrintReadRoundTrip(x, places);
    HundredOrMore(places);
    Shrinks(Pow10(places) as real);
  }

  lemma HundredOrMore(places: nat)
    requires places >= 2
    ensures Pow10(places) >= 100
  {
    assert Pow10(places) == 100 * Pow10(places - 2);
  }

  lemma Shrinks(p: real)
    requires p >= 100.0
    ensures 0.5 / p <= 0.005
  {
    assert 0.5 / p - 0.005 == (0.5 - 0.005 * p) / p;
  }

  // ----- no decimals

  lemma {:induction false} StripDigitZeros(sign: string, w: string)
    requires AllDigits(w) && (sign == "" || sign == "-")
    ensures StripRight(IsPoint, StripRight(IsNought, sign + w)) == sign + Trim(w)
    decreases |w|
  {
    var s := sign + w;
    if w == "" {
      assert s == sign && sign + "" == sign;
    } else {
      assert s[|s| - 1] == w[|w| - 1];
      assert s[..|s| - 1] == sign + w[..|w| - 1];
      if w[|w| - 1] == '0' { StripDigitZeros(sign, w[..|w| - 1]); }
    }
  }

  lemma {:induction false} TrimShrinks(w: string)
    requires AllDigits(w) && w != "" && w[|w| - 1] == '0'
    ensures 10 * DigitsValue(Trim(w)) <= DigitsValue(w)
  {
    var front := w[..|w| - 1];
    if front != "" && front[|front| - 1] == '0' { TrimShrinks(front); }
  }

  lemma LastDigit(n: nat)
    ensures var s := NatText(n); s[|s| - 1] == '0' <==> n % 10 == 0
  {}

  lemma WholeDecimal(w: string)
    requires AllDigits(w)
    ensures Decimal(w, "") == DigitsValue(w) as real
  {
    assert Pow10(0) == 1;
  }

  /** What a non-integral number prints as with no decimals: the rounded integer, minus its trailing zeros. */
  lemma PrintsNoDecimals(x: real)
    requires !IsInteger(x)
    ensures FormatNumber(x, 0) == SignText(x < 0.0) + Trim(NatText(Shown(x, 0)))
  {
    var q := Shown(x, 0);
    assert Pow10(0) == 1 && Whole(q, 1) == q;
    assert Fixed(x, 0) == SignText(x < 0.0) + NatText(q);
    StripDigitZeros(SignText(x < 0.0), NatText(q));
  }

  lemma ReadNoDecimals(x: real)
    requires !IsInteger(x)
    ensures var digits := Trim(NatText(Shown(x, 0)));
            NumericTokenValue(FormatNumber(x, 0)) ==
            if digits == "" then None else Some(Signed(x < 0.0, DigitsValue(digits) as real))
  {
    var digits := Trim(NatText(Shown(x, 0)));
    var s := FormatNumber(x, 0);
    PrintsNoDecimals(x);
    if digits == "" {
      SignAloneIsUnread(x < 0.0);
      assert s == SignText(x < 0.0);
    } else {
      assert s == SignText(x < 0.0) + DecimalText(digits, "");
      ReadPrinted(s, x < 0.0, digits, "", false);
      WholeDecimal(digits);
    }
  }

  lemma SignAloneIsUnread(negative: bool)
    ensures NumericTokenValue(SignText(negative)) == None
  {
    var s := SignText(negative);
    TrimmedIsItsStrip(s);
    NothingFiltered(NotComma, s);
    if negative {
      assert s[1..] == "";
       assert WithoutPercents(s) == s && ReadUnsigned("") == None;
    }
  }

  lemma RoundedIsNear(x: real)
    ensures Abs(Shown(x, 0) as real - Abs(x)) <= 0.5
  {
    assert Pow10(0) == 1 && Scaled(x, 1) == Abs(x);
  }

  /** With no decimals the round trip fails for some numbers: 100.4 prints as "1". */
  lemma NoDecimalsCounterexample()
    ensures FormatNumber(100.4, 0) == "1" && NumericTokenValue(FormatNumber(100.4, 0)) == Some(1.0)
  {
    var x := 100.4;
    assert x.Floor == 100;
    assert Scaled(x, 1) == x && Shown(x, 0) == 100 by { assert Pow10(0) == 1; }
    assert NatText(10) == NatText(1) + ['0'] && NatText(100) == NatText(10) + ['0'] && NatText(1) == "1";
    assert NatText(100)[..2] == NatText(10) && NatText(10)[..1] == "1";
    PrintsNoDecimals(x);
    ReadNoDecimals(x);
    assert DigitsValue("1") == 1 by { assert NatText(1) == "1"; }
  }

  lemma NearUnlessZeroDropped(x: real, q: nat, digits: string, r: Option<real>)
    requires digits == Trim(NatText(q)) && Abs(q as real - Abs(x)) <= 0.5
    requires r == if digits == "" then None else Some(Signed(x < 0.0, DigitsValue(digits) as real))
    ensures r.Some? && Abs(r.value - x) <= 0.5 <==> q % 10 != 0
  {
    LastDigit(q);
    if q % 10 != 0 {
      assert digits == NatText(q);
    } else {
      TrimShrinks(NatText(q));
      if q == 0 { assert NatText(q) == "0" && "0"[..0] == "" && Trim("") == ""; }
    }
  }

  /** With no decimals a number that is not an integer is read back within half a unit exactly when
      its rounding does not end in a zero. */
  lemma NoDecimalsRoundTrip(x: real) returns (r: Option<real>)
    requires !IsInteger(x)
    ensures r == NumericTokenValue(FormatNumber(x, 0))
    ensures r.Some? && Abs(r.value - x) <= 0.5 <==> Shown(x, 0) % 10 != 0
  {
    r := NumericTokenValue(FormatNumber(x, 0));
    ReadNoDecimals(x);
    RoundedIsNear(x);
    NearUnlessZeroDropped(x, Shown(x, 0), Trim(NatText(Shown(x, 0))), r);
  }

  // ----- a printed number in an answer

  lemma NoLaterSeparatorNoDate(s: string)
    requires forall k :: 0 < k < |s| ==> !IsDateSeparator(s[k])
    ensures Scrub(s) == s
  {
    NoDateFrom(DateEnds(s), s, 0, 0);
  }

  lemma {:induction false} GroupOfDigits(s: string, i: nat, end: nat)
    requires i <= end <= |s| && forall k :: i <= k < end ==> IsDigit(s[k])
    requires end < |s| ==> !IsDigit(s[end]) && s[end] != ','
    ensures GroupEnd(s, i) == end
    decreases end - i
  {
    if i < end { GroupOfDigits(s, i + 1, end); }
  }

  /** `n` signs, digits up to `g`, and perhaps a point and digits. */
  predicate IsDecimalShape(s: string, n: nat, g: nat) {
    && n <= 1 && n < g <= |s| && (n == 1 ==> IsSign(s[0]))
    && (forall k :: n <= k < g ==> IsDigit(s[k]))
    && (g < |s| ==> s[g] == '.' && g + 1 < |s|)
    && (forall k :: g < k < |s| ==> IsDigit(s[k]))
  }

  lemma ShapeIsNumeral(s: string, n: nat, g: nat)
    requires IsDecimalShape(s, n, g)
    ensures IsNumeral(s)
  {
    GroupOfDigits(s, n, g);
    if g < |s| { AllDigitsEnd(s, g + 1); }
    assert IsDigit(s[n]) && FirstDigit(s, 0) == n;
  }

  lemma DecimalHasShape(negative: bool, whole: string, fraction: string)
    requires whole != "" && AllDigits(whole) && AllDigits(fraction)
    ensures IsDecimalShape(SignText(negative) + DecimalText(whole, fraction), |SignText(negative)|, |SignText(negative)| + |whole|)
  {
    var n := |SignText(negative)|;
    var s := SignText(negative) + DecimalText(whole, fraction);
    var g := n + |whole|;
    forall k | n <= k < g ensures IsDigit(s[k]) { assert s[k] == whole[k - n]; }
    forall k | g < k < |s| ensures IsDigit(s[k]) { assert s[k] == fraction[k - (g + 1)]; }
  }

  /** A number printed with at least one decimal is read from an answer as one token, the whole of it. */
  lemma PrintedIsOneToken(x: real, places: nat)
    requires places >= 1
    ensures AnswerTokens(FormatNumber(x, places)) == [FormatNumber(x, places)]
  {
    var whole, fraction := Printed(x, places);
    var s := SignText(x < 0.0) + DecimalText(whole, fraction);
    DecimalHasShape(x < 0.0, whole, fraction);
    ShapeIsNumeral(s, |SignText(x < 0.0)|, |SignText(x < 0.0)| + |whole|);
    NoLaterSeparatorNoDate(s);
    NumeralIsOneToken(s);
  }
}
