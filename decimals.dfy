/**
 * A modelled grammar for Python's `Decimal(str)` constructor: a finite numeral
 * without an exponent, with optional sign and surrounding whitespace. The model
 * rejects every string outside this grammar. Python also accepts exponents,
 * `NaN`, `Infinity`, underscores between digits and non-ASCII digits, which the
 * model rejects. A string holding a `NeverInNumeral` character is rejected by
 * both.
 */
module Decimals {
  import opened Wrappers
  import opened Text

  /** A finite decimal as Python keeps it: a sign, the coefficient (the digits
      written, as a number) and the number of digits after the point. The sign
      is kept apart from the coefficient, so `-0` and `0` are different values. */
  datatype Decimal = Decimal(negative: bool, coefficient: nat, places: nat)

  function Pow10(n: nat): (p: nat)
    ensures p >= 1
  {
    if n == 0 then 1 else 10 * Pow10(n - 1)
  }

  /** The number a decimal stands for. */
  function Value(d: Decimal): real {
    (if d.negative then -1.0 else 1.0) * d.coefficient as real / Pow10(d.places) as real
  }

  /** The numeral with digits `whole` before the point and `frac` after it,
      if both are digit strings and there is at least one digit in all. */
  function Numeral(negative: bool, whole: string, frac: string): (r: Option<Decimal>)
    ensures r.Some? <==> AllDigits(whole) && AllDigits(frac) && |whole| + |frac| > 0
    ensures r.Some? ==> r.value.negative == negative && r.value.places == |frac|
  {
    if AllDigits(whole) && AllDigits(frac) && |whole| + |frac| > 0 then
      Some(Decimal(negative, DigitsValue(whole + frac), |frac|))
    else
      None
  }

  /** An unsigned numeral `digits ['.' digits]`, split at its first point. */
  function ParseUnsigned(negative: bool, b: string): Option<Decimal> {
    var k := IndexOf(b, '.');
    Numeral(negative, b[..k], if k < |b| then b[k + 1..] else [])
  }

  /** `Decimal(s)` in the modelled grammar `ws* [+|-] digits ['.' digits] ws*`;
      `None` outside it, standing for `InvalidOperation`. */
  function ParseDecimal(s: string): Option<Decimal> {
    ParseSigned(Strip(s))
  }

  /** A numeral with an optional leading sign and no surrounding whitespace. */
  function ParseSigned(t: string): Option<Decimal> {
    if t != [] && (t[0] == '-' || t[0] == '+') then
      ParseUnsigned(t[0] == '-', t[1..])
    else
      ParseUnsigned(false, t)
  }

  /** The canonical numeral of a decimal: a minus sign when negative, at least
      one digit before the point, and exactly `places` digits after it. */
  function Render(d: Decimal): (s: string)
    ensures |s| >= 1 && IsDigit(s[|s| - 1])
    ensures s[0] == '-' || IsDigit(s[0])
  {
    (if d.negative then "-" else "") + RenderUnsigned(d.coefficient, d.places)
  }

  /** The digits of `n` with a point inserted before the last `places` of them. */
  function RenderUnsigned(n: nat, places: nat): (s: string)
    ensures |s| >= 1 && IsDigit(s[0]) && IsDigit(s[|s| - 1])
  {
    var ds := Digits(n, places + 1);
    var k := |ds| - places;
    ds[..k] + (if places > 0 then "." + ds[k..] else "")
  }

  /** Splitting the digits of an unsigned rendering at the point gives them back. */
  lemma ParseRenderUnsigned(negative: bool, n: nat, places: nat)
    ensures ParseUnsigned(negative, RenderUnsigned(n, places)) == Some(Decimal(negative, n, places))
  {
    var ds := Digits(n, places + 1);
    var k := |ds| - places;
    ParsePointed(negative, ds[..k], ds[k..]);
    NumeralOfSplit(negative, ds, k);
  }

  /** Digits, then a point and more digits when there are any, split back at the point. */
  lemma ParsePointed(negative: bool, whole: string, frac: string)
    requires AllDigits(whole) && AllDigits(frac)
    ensures ParseUnsigned(negative, whole + (if frac != [] then "." + frac else "")) == Numeral(negative, whole, frac)
  {
    var b := whole + (if frac != [] then "." + frac else "");
    var k := |whole|;
    assert b[..k] == whole;
    assert '.' !in whole by {
      forall j | 0 <= j < k ensures whole[j] != '.' { assert IsDigit(whole[j]); }
    }
    IndexOfIs(b, '.', k);
    if frac != [] {
      assert b[k + 1..] == frac;
    }
  }

  /** Cutting a digit string anywhere gives a numeral with the same digits. */
  lemma NumeralOfSplit(negative: bool, ds: string, k: nat)
    requires AllDigits(ds) && 1 <= k <= |ds|
    ensures Numeral(negative, ds[..k], ds[k..]) == Some(Decimal(negative, DigitsValue(ds), |ds| - k))
  {
    var whole, frac := ds[..k], ds[k..];
    assert AllDigits(whole) by {
      forall j | 0 <= j < |whole| ensures IsDigit(whole[j]) { assert whole[j] == ds[j]; }
    }
    assert AllDigits(frac) by {
      forall j | 0 <= j < |frac| ensures IsDigit(frac[j]) { assert frac[j] == ds[k + j]; }
    }
    assert whole + frac == ds;
  }

  /** Parsing the canonical numeral of a decimal gives that decimal back. */
  lemma ParseRender(d: Decimal)
    ensures ParseDecimal(Render(d)) == Some(d)
  {
    ParseTrimmed(Render(d));
    ParseSignedRender(d);
  }

  /** A numeral that neither starts nor ends with whitespace is parsed as it stands. */
  lemma ParseTrimmed(s: string)
    requires s == [] || (!IsSpace(s[0]) && !IsSpace(s[|s| - 1]))
    ensures ParseDecimal(s) == ParseSigned(s)
  {
    StripUnchanged(s);
  }

  lemma ParseSignedRender(d: Decimal)
    ensures ParseSigned(Render(d)) == Some(d)
  {
    ParseSignedPrefixed(d.negative, RenderUnsigned(d.coefficient, d.places));
    ParseRenderUnsigned(d.negative, d.coefficient, d.places);
  }

  /** A sign in front of a numeral that starts with a digit is read as its sign. */
  lemma ParseSignedPrefixed(negative: bool, body: string)
    requires body != [] && IsDigit(body[0])
    ensures ParseSigned((if negative then "-" else "") + body) == ParseUnsigned(negative, body)
  {
    var t := (if negative then "-" else "") + body;
    if negative {
      assert t == "-" + body;
      ParseSignedMinus(body);
    } else {
      assert t == body;
      ParseSignedUnsigned(body);
    }
  }

  /** A numeral that starts with a digit has no sign. */
  lemma ParseSignedUnsigned(body: string)
    requires body != [] && IsDigit(body[0])
    ensures ParseSigned(body) == ParseUnsigned(false, body)
  {
    assert body[0] != '-' && body[0] != '+';
  }

  lemma ParseSignedMinus(body: string)
    ensures ParseSigned("-" + body) == ParseUnsigned(true, body)
  {
    var t := "-" + body;
    assert t[0] == '-';
    assert t[1..] == body;
  }

  /** Whitespace around a numeral does not change what it parses to. */
  lemma ParseIgnoresSurroundingSpace(s: string)
    ensures ParseDecimal(Strip(s)) == ParseDecimal(s)
  {
    StripIdempotent(s);
  }

  /** A character no numeral can hold, in Python's `Decimal` or in the modelled
      grammar: ASCII, and neither whitespace, a digit, a letter (letters spell
      exponents, `NaN` and `Infinity`), a point, a sign nor an underscore. */
  predicate NeverInNumeral(c: char) {
    c < '\U{80}' && !IsSpace(c) && !IsDigit(c) && !('a' <= c <= 'z' || 'A' <= c <= 'Z') &&
    c != '.' && c != '-' && c != '+' && c != '_'
  }

  /** Such a character makes an unsigned numeral invalid. */
  lemma UnsignedWithStrayChar(negative: bool, b: string, c: char)
    requires c in b && NeverInNumeral(c)
    ensures ParseUnsigned(negative, b).None?
  {
    var k := IndexOf(b, '.');
    var j :| 0 <= j < |b| && b[j] == c;
    if j < k {
      assert b[..k][j] == c;
    } else {
      assert j != k;
      assert b[k + 1..][j - k - 1] == c;
    }
  }

  /** Such a character makes a signed numeral invalid. */
  lemma SignedWithStrayChar(t: string, c: char)
    requires c in t && NeverInNumeral(c)
    ensures ParseSigned(t).None?
  {
    if t[0] == '-' || t[0] == '+' {
      var j :| 0 <= j < |t| && t[j] == c;
      assert t[1..][j - 1] == c;
      UnsignedWithStrayChar(t[0] == '-', t[1..], c);
    } else {
      UnsignedWithStrayChar(false, t, c);
    }
  }

  /** `Decimal` rejects a string holding a character no numeral can hold, such
      as the slash of "N/A". */
  lemma DecimalWithStrayChar(s: string, c: char)
    requires c in s && NeverInNumeral(c)
    ensures ParseDecimal(s).None?
  {
    StripKeeps(s, c);
    SignedWithStrayChar(Strip(s), c);
  }

  /** `Decimal` rejects the empty string. */
  lemma EmptyIsNotDecimal(s: string)
    requires s == []
    ensures ParseDecimal(s).None?
  {
    assert Strip(s) == s;
    assert IndexOf(s, '.') == 0;
  }
}
