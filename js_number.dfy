/** The number handling the dashboard relies on: `parseFloat` on text,
    `Math.round`, and the decimal text `toString` gives a value rounded to
    hundredths. Numbers are exact reals; IEEE-754 rounding is not modelled. */
module JsNumber {
  import opened Wrappers
  import JsText

  predicate IsDigit(c: char) {
    '0' <= c <= '9'
  }

  predicate AllDigits(s: string) {
    forall k :: 0 <= k < |s| ==> IsDigit(s[k])
  }

  function DigitValue(c: char): nat
    requires IsDigit(c)
  {
    c as int - '0' as int
  }

  function DigitChar(d: nat): (c: char)
    requires d < 10
    ensures IsDigit(c) && DigitValue(c) == d
  {
    ('0' as int + d) as char
  }

  /** The value of a run of decimal digits, most significant first. */
  function DigitsValue(ds: string): nat
    requires AllDigits(ds)
  {
    if |ds| == 0 then 0 else 10 * DigitsValue(ds[..|ds| - 1]) + DigitValue(ds[|ds| - 1])
  }

  /** The value of the digits after a decimal point: `0.d1d2...`. */
  function FractionDigitsValue(ds: string): real
    requires AllDigits(ds)
  {
    if |ds| == 0 then 0.0 else (DigitValue(ds[0]) as real + FractionDigitsValue(ds[1..])) / 10.0
  }

  /** The longest prefix of `s` made of decimal digits. */
  function LeadingDigits(s: string): (r: string)
    ensures |r| <= |s| && r == s[..|r|] && AllDigits(r)
    ensures |r| == |s| || !IsDigit(s[|r|])
  {
    if |s| > 0 && IsDigit(s[0]) then [s[0]] + LeadingDigits(s[1..]) else []
  }

  /** An unsigned decimal literal at the start of `s`: digits, optionally a
      point and more digits; at least one digit on either side of the point. */
  function ParseUnsigned(s: string): Option<real> {
    var whole := LeadingDigits(s);
    var rest := s[|whole|..];
    var fraction := if |rest| > 0 && rest[0] == '.' then LeadingDigits(rest[1..]) else [];
    if |whole| == 0 && |fraction| == 0 then None
    else Some(DigitsValue(whole) as real + FractionDigitsValue(fraction))
  }

  /** `parseFloat`: skips leading white space, reads an optional sign and the
      longest decimal literal that follows, and ignores the rest; `None` is NaN. */
  function ParseFloat(s: string): Option<real> {
    var t := JsText.TrimStart(s);
    var negative := |t| > 0 && t[0] == '-';
    var literal := if |t| > 0 && (t[0] == '-' || t[0] == '+') then t[1..] else t;
    var v := ParseUnsigned(literal);
    if v.None? then None else Some(if negative then -v.value else v.value)
  }

  /** `Math.round`: the nearest integer, halves rounded up (also for negatives). */
  function Round(x: real): (k: int)
    ensures k as real - 0.5 <= x < k as real + 0.5
  {
    (x + 0.5).Floor
  }

  /** The decimal digits of `n` without leading zeros, as `toString` writes them. */
  function NatToString(n: nat): (s: string)
    ensures |s| > 0 && AllDigits(s) && (s[0] == '0' ==> n == 0)
    ensures DigitsValue(s) == n
  {
    if n < 10 then [DigitChar(n)]
    else
      var s := NatToString(n / 10) + [DigitChar(n % 10)];
      assert s[..|s| - 1] == NatToString(n / 10);
      s
  }

  /** What `toString` writes after the integer part of a number of
      hundredths: nothing, or a point and one or two digits, the last not 0. */
  predicate IsFractionText(t: string) {
    t == [] || (2 <= |t| <= 3 && t[0] == '.' && AllDigits(t[1..]) && t[|t| - 1] != '0')
  }

  /** `toString` of `k / 100`: a minus sign for a negative value, the integer
      part of the magnitude without leading zeros, then the fraction, which
      is empty exactly when the value is whole. */
  function HundredthsToString(k: int): (s: string)
    ensures |s| > 0 && (s[0] == '-' || IsDigit(s[0]))
    ensures var a: nat := if k < 0 then -k else k;
      var head := (if k < 0 then "-" else "") + NatToString(a / 100);
      && |head| <= |s| && s[..|head|] == head
      && IsFractionText(s[|head|..]) && (s[|head|..] == [] <==> a % 100 == 0)
  {
    var a: nat := if k < 0 then -k else k;
    var head := (if k < 0 then "-" else "") + NatToString(a / 100);
    var s := (if k < 0 then "-" else "") + UnsignedHundredths(a);
    assert s == head + FractionText(a % 100);
    assert s[..|head|] == head && s[|head|..] == FractionText(a % 100);
    s
  }

  /** The decimal text of `a / 100` for a non-negative `a`. */
  function UnsignedHundredths(a: nat): (s: string)
    ensures |s| > 0 && IsDigit(s[0])
  {
    NatToString(a / 100) + FractionText(a % 100)
  }

  /** The fractional part `h / 100` after its point, trailing zeros dropped. */
  function FractionText(h: nat): (t: string)
    requires h < 100
    ensures IsFractionText(t) && (t == [] <==> h == 0)
  {
    if h == 0 then ""
    else if h % 10 == 0 then [ '.', DigitChar(h / 10) ]
    else [ '.', DigitChar(h / 10), DigitChar(h % 10) ]
  }

  /** The digits of `ds` are exactly what `LeadingDigits` reads off `ds + rest`
      when `rest` does not continue with a digit. */
  lemma {:induction false} LeadingDigitsOfPrefix(ds: string, rest: string)
    requires AllDigits(ds)
    requires rest == [] || !IsDigit(rest[0])
    ensures LeadingDigits(ds + rest) == ds
  {
    if |ds| > 0 {
      assert (ds + rest)[1..] == ds[1..] + rest;
      LeadingDigitsOfPrefix(ds[1..], rest);
      assert ds == [ds[0]] + ds[1..];
    }
  }

  /** The digits after the point of `FractionText(h)` denote `h / 100`. */
  lemma FractionValue(h: nat)
    requires h < 100
    ensures var t := FractionText(h);
      t == [] || (t[0] == '.' && AllDigits(t[1..]) && LeadingDigits(t[1..]) == t[1..])
    ensures var t := FractionText(h); var f := if t == [] then [] else t[1..];
      AllDigits(f) && FractionDigitsValue(f) == h as real / 100.0
  {
    var t := FractionText(h);
    if h != 0 {
      var f := t[1..];
      LeadingDigitsOfPrefix(f, []);
      assert f + [] == f;
      assert h == 10 * (h / 10) + h % 10;
      if h % 10 == 0 {
        assert f[1..] == [];
      } else {
        assert f[1..][1..] == [];
        assert FractionDigitsValue(f[1..]) == (h % 10) as real / 10.0;
      }
    }
  }

  lemma UnsignedRoundTrip(a: nat)
    ensures ParseUnsigned(UnsignedHundredths(a)).Some?
    ensures ParseUnsigned(UnsignedHundredths(a)).value == a as real / 100.0
  {
    var whole, t := NatToString(a / 100), FractionText(a % 100);
    var s := whole + t;
    FractionValue(a % 100);
    LeadingDigitsOfPrefix(whole, t);
    assert s[|whole|..] == t;
    assert (a / 100) as real + (a % 100) as real / 100.0 == a as real / 100.0;
  }

  lemma TrimStartOfNumeral(s: string)
    requires |s| > 0 && (s[0] == '-' || IsDigit(s[0]))
    ensures JsText.TrimStart(s) == s
  {
    var c := s[0];
    assert !JsText.IsWhitespace(c) by {
      assert c as int < 0xA0 && c != '\t' && c != '\n' && c != '\U{B}' && c != '\U{C}' && c != '\r' && c != ' ';
    }
  }

  /** Text that starts with a digit is read as an unsigned literal. */
  lemma ParseFloatOfDigitStart(s: string)
    requires |s| > 0 && IsDigit(s[0])
    ensures ParseFloat(s) == ParseUnsigned(s)
  {
    TrimStartOfNumeral(s);
  }

  /** A minus sign before a digit negates the literal that follows. */
  lemma ParseFloatOfMinus(u: string)
    requires |u| > 0 && IsDigit(u[0]) && ParseUnsigned(u).Some?
    ensures ParseFloat("-" + u).Some? && ParseFloat("-" + u).value == -ParseUnsigned(u).value
  {
    var s := "-" + u;
    assert s[0] == '-' && s[1..] == u;
    TrimStartOfNumeral(s);
    assert ParseUnsigned(s[1..]) == ParseUnsigned(u);
  }

  /** A literal after an optional minus sign is read back with that sign. */
  lemma ParseSigned(s: string, u: string, negative: bool, v: real)
    requires s == (if negative then "-" else "") + u
    requires |u| > 0 && IsDigit(u[0]) && ParseUnsigned(u).Some? && ParseUnsigned(u).value == v
    ensures ParseFloat(s).Some? && ParseFloat(s).value == (if negative then -v else v)
  {
    if negative {
      ParseFloatOfMinus(u);
    } else {
      assert s == u;
      ParseFloatOfDigitStart(u);
    }
  }

  /** Reading back the text of a value rounded to hundredths gives that value. */
  lemma HundredthsRoundTrip(k: int)
    ensures ParseFloat(HundredthsToString(k)).Some?
    ensures ParseFloat(HundredthsToString(k)).value == k as real / 100.0
  {
    var a: nat := if k < 0 then -k else k;
    var v := a as real / 100.0;
    UnsignedRoundTrip(a);
    ParseSigned(HundredthsToString(k), UnsignedHundredths(a), k < 0, v);
  }

  /** A whole number of hundredths is written without a fraction. */
  lemma WholeHundredths(n: nat)
    ensures UnsignedHundredths(100 * n) == NatToString(n)
    ensures (100 * n) as real / 100.0 == n as real
  {
    var a: nat := 100 * n;
    assert a / 100 == n && a % 100 == 0;
    assert NatToString(n) + "" == NatToString(n);
  }

  /** Reading back the digits of a natural number gives that number. */
  lemma NaturalRoundTrip(n: nat)
    ensures ParseFloat(NatToString(n)).Some? && ParseFloat(NatToString(n)).value == n as real
  {
    var s := NatToString(n);
    WholeHundredths(n);
    UnsignedRoundTrip(100 * n);
    ParseFloatOfDigitStart(s);
  }
}
