/** Decimal digits: rendering natural numbers and two-decimal fixed-point
    numbers as text, and reading them back. Digits are ASCII '0'..'9'. */
module Numerals {
  import opened Wrappers

  /** An ASCII decimal digit. */
  predicate IsDigit(c: char) {
    '0' <= c <= '9'
  }

  predicate AllDigits(s: string) {
    forall k :: 0 <= k < |s| ==> IsDigit(s[k])
  }

  function DigitValue(c: char): (d: nat)
    requires IsDigit(c)
    ensures d < 10
  {
    c as int - '0' as int
  }

  function DigitChar(d: nat): (c: char)
    requires d < 10
    ensures IsDigit(c) && DigitValue(c) == d
  {
    ('0' as int + d) as char
  }

  function Pow10(w: nat): (p: nat)
    ensures p >= 1
  {
    if w == 0 then 1 else 10 * Pow10(w - 1)
  }

  /** The value of a string of digits, most significant digit first. */
  function DigitsValue(s: string): nat
    requires AllDigits(s)
  {
    if s == [] then 0 else 10 * DigitsValue(s[..|s| - 1]) + DigitValue(s[|s| - 1])
  }

  /** The decimal rendering of n without leading zeros, as `str(n)` gives it. */
  function NatToString(n: nat): (s: string)
    ensures |s| >= 1 && AllDigits(s)
  {
    if n < 10 then [DigitChar(n)] else NatToString(n / 10) + [DigitChar(n % 10)]
  }

  /** n rendered in exactly w digits, zero-filled on the left (`%02d`, `%04d`). */
  function FixedDigits(n: nat, w: nat): (s: string)
    requires n < Pow10(w)
    ensures |s| == w && AllDigits(s)
  {
    if w == 0 then [] else FixedDigits(n / 10, w - 1) + [DigitChar(n % 10)]
  }

  lemma {:induction false} NatToStringValue(n: nat)
    ensures DigitsValue(NatToString(n)) == n
  {
    if n >= 10 {
      var s := NatToString(n);
      assert s[..|s| - 1] == NatToString(n / 10);
      NatToStringValue(n / 10);
    }
  }

  lemma {:induction false} FixedDigitsValue(n: nat, w: nat)
    requires n < Pow10(w)
    ensures DigitsValue(FixedDigits(n, w)) == n
  {
    if w > 0 {
      var s := FixedDigits(n, w);
      assert s[..|s| - 1] == FixedDigits(n / 10, w - 1);
      FixedDigitsValue(n / 10, w - 1);
    }
  }

  /** Appending a digit shifts the value one decimal place and adds the digit. */
  lemma DigitsValueSnoc(s: string, c: char)
    requires AllDigits(s) && IsDigit(c)
    ensures AllDigits(s + [c]) && DigitsValue(s + [c]) == 10 * DigitsValue(s) + DigitValue(c)
  {
    assert (s + [c])[..|s|] == s;
  }

  /** The `"%.2f"` rendering of a number given exactly in hundredths:
      an optional '-', the integer part, '.', and two fractional digits. */
  function Fixed2(hundredths: int): (s: string)
  {
    if hundredths < 0 then "-" + Unsigned2(-hundredths) else Unsigned2(hundredths)
  }

  /** The rendering of a magnitude m: the integer part, '.', and two fractional digits. */
  function Unsigned2(m: nat): (s: string)
    ensures |s| >= 4 && IsDigit(s[0])
  {
    NatToString(m / 100) + "." + FixedDigits(m % 100, 2)
  }

  /** The two characters after the point in a Fixed2 rendering. */
  function Fraction2(s: string): string
    requires |s| >= 2
  {
    s[|s| - 2..]
  }

  /** Reads `d+.dd` back as hundredths; None for any other text. */
  function ParseUnsigned2(body: string): Option<int> {
    if |body| < 4 || body[|body| - 3] != '.' then None
    else
      var whole, frac := body[..|body| - 3], body[|body| - 2..];
      if AllDigits(whole) && AllDigits(frac) then Some(100 * DigitsValue(whole) + DigitsValue(frac))
      else None
  }

  /** Reads `[-]d+.dd` back as hundredths; None for any other text. */
  function ParseFixed2(s: string): Option<int> {
    if |s| > 0 && s[0] == '-' then
      match ParseUnsigned2(s[1..])
      case Some(v) => Some(-v)
      case None => None
    else
      match ParseUnsigned2(s)
      case Some(v) => Some(v)
      case None => None
  }

  /** The pieces of an unsigned rendering: the integer part before the point and the
      two-digit fraction after it. */
  lemma Unsigned2Pieces(m: nat)
    ensures var s := Unsigned2(m);
      s[|s| - 3] == '.' && s[..|s| - 3] == NatToString(m / 100) &&
      s[|s| - 2..] == FixedDigits(m % 100, 2)
  {
  }

  /** The unsigned part of a Fixed2 rendering reads back as the magnitude. */
  lemma ParseUnsigned2Value(m: nat)
    ensures ParseUnsigned2(Unsigned2(m)) == Some(m)
  {
    var q, r := m / 100, m % 100;
    assert m == 100 * q + r;
    Unsigned2Pieces(m);
    NatToStringValue(q);
    FixedDigitsValue(r, 2);
  }

  /** Fixed2 loses nothing: every rendering reads back as the number it rendered. */
  lemma Fixed2RoundTrip(hundredths: int)
    ensures ParseFixed2(Fixed2(hundredths)) == Some(hundredths)
  {
    var m: nat := if hundredths < 0 then -hundredths else hundredths;
    ParseUnsigned2Value(m);
    ParseFixed2Sign(Unsigned2(m));
  }

  /** A rendering has at least four characters and starts with '-' exactly for a negative number. */
  lemma Fixed2Lead(hundredths: int)
    ensures |Fixed2(hundredths)| >= 4 && (Fixed2(hundredths)[0] == '-' <==> hundredths < 0)
  {
  }

  /** A sign-free body reads the same alone, and negated behind a minus sign. */
  lemma ParseFixed2Sign(body: string)
    requires |body| > 0 && body[0] != '-' && ParseUnsigned2(body).Some?
    ensures ParseFixed2(body) == ParseUnsigned2(body)
    ensures ParseFixed2("-" + body) == Some(-ParseUnsigned2(body).value)
  {
    assert ("-" + body)[1..] == body;
  }

  /** The fractional part of Fixed2 is always two digits and does not depend on the sign. */
  lemma Fixed2Fraction(hundredths: int)
    ensures |Fixed2(hundredths)| >= 4
    ensures var f := Fraction2(Fixed2(hundredths));
      |f| == 2 && AllDigits(f) &&
      DigitsValue(f) == (if hundredths < 0 then -hundredths else hundredths) % 100
    ensures Fraction2(Fixed2(hundredths)) == Fraction2(Fixed2(-hundredths))
  {
    var m: nat := if hundredths < 0 then -hundredths else hundredths;
    var r := m % 100;
    Unsigned2Pieces(m);
    FractionBehindSign(Unsigned2(m));
    assert Fraction2(Unsigned2(m)) == FixedDigits(r, 2);
    FixedDigitsValue(r, 2);
  }

  /** A leading '-' does not change the last two characters. */
  lemma FractionBehindSign(s: string)
    requires |s| >= 2
    ensures Fraction2("-" + s) == Fraction2(s)
  {
  }
}
