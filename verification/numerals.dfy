/**
 * Money amounts. The source keeps costs as floats and prints them with `:.2f`;
 * the model keeps them as whole cents, so that printing is exact and parsing
 * a printed amount gives the amount back.
 */
module Numerals {
  import opened Wrappers
  import opened Text

  function DigitChar(d: nat): (c: char)
    requires d < 10
    ensures IsDigit(c)
  {
    ('0' as int + d) as char
  }

  function DigitValue(c: char): (d: nat)
    requires IsDigit(c)
    ensures d < 10
  {
    c as int - '0' as int
  }

  /** `str(n)` for a natural number: its decimal digits, most significant first. */
  function NatToString(n: nat): (s: string)
    ensures s != [] && All(s, IsDigit)
    decreases n
  {
    if n < 10 then [DigitChar(n)] else NatToString(n / 10) + [DigitChar(n % 10)]
  }

  /** The value of a string of decimal digits. */
  function DigitsValue(s: string): nat
    requires All(s, IsDigit)
    decreases |s|
  {
    if s == [] then 0 else DigitsValue(s[..|s| - 1]) * 10 + DigitValue(s[|s| - 1])
  }

  /** Reading back the digits that NatToString wrote gives the number. */
  lemma {:induction false} DigitsRoundTrip(n: nat)
    ensures DigitsValue(NatToString(n)) == n
    decreases n
  {
    var s := NatToString(n);
    if n >= 10 {
      assert s[..|s| - 1] == NatToString(n / 10);
      DigitsRoundTrip(n / 10);
    }
  }

  /** `f"{x:.2f}"` for an amount of c cents. */
  function FormatCents(c: int): string {
    var m: nat := if c < 0 then -c else c;
    (if c < 0 then "-" else "") + NatToString(m / 100) + "." + [DigitChar(m % 100 / 10), DigitChar(m % 10)]
  }

  /** The cents in the one or two decimals after a point ("5" is 50 cents, "05" is 5). */
  function FractionCents(f: string): (c: nat)
    requires |f| <= 2 && All(f, IsDigit)
    ensures c < 100
  {
    if |f| == 0 then 0
    else if |f| == 1 then DigitValue(f[0]) * 10
    else DigitValue(f[0]) * 10 + DigitValue(f[1])
  }

  /** An unsigned decimal amount: digits, then optionally a point and at most two digits. */
  function ParseUnsigned(s: string): Option<nat> {
    var k := Span(s, 0, IsDigit);
    if k == 0 then None
    else if k == |s| then
      SpanRun(s, 0, IsDigit);
      assert s[0..k] == s;
      Some(DigitsValue(s) * 100)
    else if s[k] == '.' && |s| - k - 1 <= 2 && All(s[k + 1..], IsDigit) then
      SpanRun(s, 0, IsDigit);
      assert s[0..k] == s[..k];
      Some(DigitsValue(s[..k]) * 100 + FractionCents(s[k + 1..]))
    else None
  }

  /**
   * `pd.to_numeric` on one cost cell, in cents; None where pandas would give NaN.
   * An optional sign, then an unsigned amount.
   */
  function ParseCents(s: string): Option<int> {
    if |s| > 0 && (s[0] == '-' || s[0] == '+') then
      match ParseUnsigned(s[1..])
      case None => None
      case Some(v) => var amount: int := v; Some(if s[0] == '-' then -amount else amount)
    else
      match ParseUnsigned(s)
      case None => None
      case Some(v) => Some(v)
  }

  /** The digit run at the front of digits-then-point ends at the point. */
  lemma SpanStopsAtPoint(whole: string, rest: string)
    requires All(whole, IsDigit) && rest != [] && rest[0] == '.'
    ensures Span(whole + rest, 0, IsDigit) == |whole|
  {
    var s := whole + rest;
    var k := Span(s, 0, IsDigit);
    SpanStops(s, 0, IsDigit);
    assert forall j :: 0 <= j < |whole| ==> s[j] == whole[j];
    assert s[|whole|] == '.';
  }

  lemma FractionOfTwoDigits(m: nat)
    ensures FractionCents([DigitChar(m % 100 / 10), DigitChar(m % 10)]) == m % 100
  {
    assert m % 100 / 10 * 10 + m % 10 == m % 100;
  }

  /** Digits, a point and at most two digits parse to the amount they spell. */
  lemma ParseDigitsPointDigits(whole: string, frac: string)
    requires whole != [] && All(whole, IsDigit) && |frac| <= 2 && All(frac, IsDigit)
    ensures ParseUnsigned(whole + "." + frac) == Some(DigitsValue(whole) * 100 + FractionCents(frac))
  {
    var s := whole + ("." + frac);
    assert whole + "." + frac == s;
    SpanStopsAtPoint(whole, "." + frac);
    var k := |whole|;
    assert s[..k] == whole;
    assert s[k + 1..] == frac;
  }

  /** The amounts FormatCents prints without a sign parse back to themselves. */
  lemma ParseFormattedUnsigned(m: nat)
    ensures ParseUnsigned(NatToString(m / 100) + "." + [DigitChar(m % 100 / 10), DigitChar(m % 10)]) == Some(m)
  {
    ParseDigitsPointDigits(NatToString(m / 100), [DigitChar(m % 100 / 10), DigitChar(m % 10)]);
    DigitsRoundTrip(m / 100);
    FractionOfTwoDigits(m);
  }

  /** A minus sign before an unsigned amount negates it. */
  lemma ParseNegated(body: string, v: nat)
    requires ParseUnsigned(body) == Some(v)
    ensures ParseCents("-" + body) == Some(-(v as int))
  {
    assert ("-" + body)[1..] == body;
  }

  /** An unsigned amount that starts with a digit parses as itself. */
  lemma ParseUnsignedAsCents(body: string, v: nat)
    requires ParseUnsigned(body) == Some(v) && body != [] && IsDigit(body[0])
    ensures ParseCents(body) == Some(v)
  {
  }

  /** Printing an amount and parsing it back is the identity: the two-decimal format loses nothing. */
  lemma FormatParseRoundTrip(c: int)
    ensures ParseCents(FormatCents(c)) == Some(c)
  {
    var m: nat := if c < 0 then -c else c;
    var body := NatToString(m / 100) + "." + [DigitChar(m % 100 / 10), DigitChar(m % 10)];
    ParseFormattedUnsigned(m);
    if c < 0 {
      assert FormatCents(c) == "-" + body;
      ParseNegated(body, m);
    } else {
      assert FormatCents(c) == body;
      ParseUnsignedAsCents(body, m);
    }
  }
}
