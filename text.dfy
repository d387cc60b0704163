/**
 * The string handling the importer relies on: Python's `str.strip()`,
 * `str.replace(',', '')`, locating a separator, and ASCII digit strings.
 */
module Text {

  /** The characters for which Python's `str.isspace()` holds; `str.strip()`
      and `Decimal(str)` remove exactly these at both ends. */
  predicate IsSpace(c: char) {
    if c <= ' ' then
      c == ' ' || '\t' <= c <= '\r' || '\U{1C}' <= c
    else if c < '\U{85}' then
      false
    else if c < '\U{2000}' then
      c == '\U{85}' || c == '\U{A0}' || c == '\U{1680}'
    else
      c <= '\U{200A}' || c == '\U{2028}' || c == '\U{2029}' || c == '\U{202F}' || c == '\U{205F}' || c == '\U{3000}'
  }

  predicate AllSpace(s: string) {
    forall k :: 0 <= k < |s| ==> IsSpace(s[k])
  }

  /** `s.lstrip()`: the longest suffix of `s` that does not start with whitespace. */
  function StripLeading(s: string): (r: string)
    ensures |r| <= |s| && r == s[|s| - |r|..]
    ensures r == [] || !IsSpace(r[0])
  {
    if s != [] && IsSpace(s[0]) then StripLeading(s[1..]) else s
  }

  /** What `s.lstrip()` drops is whitespace. */
  lemma {:induction false} StripLeadingDropsSpace(s: string)
    ensures AllSpace(s[..|s| - |StripLeading(s)|])
  {
    if s != [] && IsSpace(s[0]) {
      StripLeadingDropsSpace(s[1..]);
      var n := |s| - |StripLeading(s)|;
      assert s[..n] == [s[0]] + s[1..][..n - 1];
    }
  }

  /** `s.rstrip()`: the longest prefix of `s` that does not end with whitespace. */
  function StripTrailing(s: string): (r: string)
    ensures |r| <= |s| && r == s[..|r|]
    ensures r == [] || !IsSpace(r[|r| - 1])
  {
    if s != [] && IsSpace(s[|s| - 1]) then StripTrailing(s[..|s| - 1]) else s
  }

  /** What `s.rstrip()` drops is whitespace. */
  lemma {:induction false} StripTrailingDropsSpace(s: string)
    ensures AllSpace(s[|StripTrailing(s)|..])
  {
    if s != [] && IsSpace(s[|s| - 1]) {
      var p := s[..|s| - 1];
      StripTrailingDropsSpace(p);
      var n := |StripTrailing(s)|;
      assert s[n..] == p[n..] + [s[|s| - 1]];
    }
  }

  /** `s.strip()`: `s` with the whitespace at both ends removed (StripSlice
      adds that nothing else is removed). */
  function Strip(s: string): (r: string)
    ensures |r| <= |s|
    ensures r == [] || (!IsSpace(r[0]) && !IsSpace(r[|r| - 1]))
  {
    StripTrailing(StripLeading(s))
  }

  /** What `str.strip()` keeps is one slice of the input, and everything it
      drops before and after that slice is whitespace. */
  lemma StripSlice(s: string) returns (i: nat)
    ensures i + |Strip(s)| <= |s| && Strip(s) == s[i..i + |Strip(s)|]
    ensures forall k :: 0 <= k < i ==> IsSpace(s[k])
    ensures forall k :: i + |Strip(s)| <= k < |s| ==> IsSpace(s[k])
  {
    var t := StripLeading(s);
    var r := StripTrailing(t);
    i := |s| - |t|;
    StripLeadingDropsSpace(s);
    StripTrailingDropsSpace(t);
    PrefixOfSuffix(s, t, r);
    forall k | 0 <= k < i ensures IsSpace(s[k]) {
      assert s[k] == s[..i][k];
    }
    forall k | i + |r| <= k < |s| ensures IsSpace(s[k]) {
      assert s[k] == t[|r|..][k - i - |r|];
    }
  }

  /** A prefix `r` of a suffix `t` of `s` is a slice of `s`, and what follows
      `r` in `t` is what follows that slice in `s`. */
  lemma PrefixOfSuffix(s: string, t: string, r: string)
    requires |t| <= |s| && t == s[|s| - |t|..]
    requires |r| <= |t| && r == t[..|r|]
    ensures r == s[|s| - |t|..|s| - |t| + |r|]
    ensures t[|r|..] == s[|s| - |t| + |r|..]
  {
  }

  /** A string is blank for `str.strip()` exactly when every character is whitespace. */
  lemma StripEmptyIffAllSpace(s: string)
    ensures Strip(s) == [] <==> AllSpace(s)
  {
    var r := Strip(s);
    var i := StripSlice(s);
    if r != [] {
      assert r[0] == s[i];
    }
  }

  /** Stripping keeps every character that is not whitespace. */
  lemma StripKeeps(s: string, c: char)
    requires c in s && !IsSpace(c)
    ensures c in Strip(s)
  {
    var i := StripSlice(s);
    var n := |Strip(s)|;
    var k :| 0 <= k < |s| && s[k] == c;
    assert !IsSpace(s[k]);
    assert i <= k < i + n;
    assert Strip(s)[k - i] == c;
  }

  /** A string that neither starts nor ends with whitespace is left as it is. */
  lemma StripUnchanged(s: string)
    requires s == [] || (!IsSpace(s[0]) && !IsSpace(s[|s| - 1]))
    ensures Strip(s) == s
  {
  }

  /** Stripping twice is stripping once. */
  lemma StripIdempotent(s: string)
    ensures Strip(Strip(s)) == Strip(s)
  {
    StripUnchanged(Strip(s));
  }

  /** `s.replace(',', '')`: every comma deleted, everything else kept in order. */
  function RemoveCommas(s: string): (r: string)
    ensures ',' !in r
    ensures |r| <= |s|
  {
    if s == [] then [] else (if s[0] == ',' then [] else [s[0]]) + RemoveCommas(s[1..])
  }

  /** Every character other than a comma occurs as often after as before. */
  lemma {:induction false} RemoveCommasKeepsOthers(s: string, c: char)
    requires c != ','
    ensures multiset(RemoveCommas(s))[c] == multiset(s)[c]
  {
    if s != [] {
      assert s == [s[0]] + s[1..];
      RemoveCommasKeepsOthers(s[1..], c);
    }
  }

  /** Deleting commas works piecewise, which together with the contract above
      fixes the order of the kept characters. */
  lemma {:induction false} RemoveCommasAppend(a: string, b: string)
    ensures RemoveCommas(a + b) == RemoveCommas(a) + RemoveCommas(b)
  {
    if a == [] {
      assert a + b == b;
    } else {
      assert (a + b)[0] == a[0];
      assert (a + b)[1..] == a[1..] + b;
      RemoveCommasAppend(a[1..], b);
    }
  }

  /** Deleting the comma between two pieces joins what is left of them. */
  lemma RemoveCommasAround(a: string, b: string)
    ensures RemoveCommas(a + "," + b) == RemoveCommas(a) + RemoveCommas(b)
  {
    assert RemoveCommas(a + "," + b) == RemoveCommas(a + ",") + RemoveCommas(b) by {
      RemoveCommasAppend(a + ",", b);
    }
    assert RemoveCommas(a + ",") == RemoveCommas(a) by {
      RemoveCommasAppend(a, ",");
      assert RemoveCommas(",") == [];
    }
  }

  /** A string without commas is left as it is. */
  lemma {:induction false} RemoveCommasUnchanged(s: string)
    requires ',' !in s
    ensures RemoveCommas(s) == s
  {
    if s != [] {
      assert s[0] != ',';
      RemoveCommasUnchanged(s[1..]);
    }
  }

  /** Index of the first `c` in `s`, or `|s|` when there is none. */
  function IndexOf(s: string, c: char): (k: nat)
    ensures k <= |s|
    ensures c !in s[..k]
    ensures k < |s| ==> s[k] == c
  {
    if s == [] then 0
    else if s[0] == c then 0
    else
      var k := 1 + IndexOf(s[1..], c);
      assert s[..k] == [s[0]] + s[1..][..k - 1];
      k
  }

  /** The contract of IndexOf determines its result. */
  lemma {:induction false} IndexOfIs(s: string, c: char, k: nat)
    requires k <= |s| && c !in s[..k] && (k < |s| ==> s[k] == c)
    ensures IndexOf(s, c) == k
  {
  }

  predicate IsDigit(c: char) {
    '0' <= c <= '9'
  }

  predicate AllDigits(s: string) {
    forall k :: 0 <= k < |s| ==> IsDigit(s[k])
  }

  function DigitValue(c: char): (n: nat)
    requires IsDigit(c)
    ensures n < 10
  {
    c as int - '0' as int
  }

  function DigitChar(n: nat): (c: char)
    requires n < 10
    ensures IsDigit(c) && DigitValue(c) == n
  {
    ('0' as int + n) as char
  }

  /** The number a string of ASCII digits denotes (leading zeros allowed). */
  function DigitsValue(s: string): nat
    requires AllDigits(s)
  {
    if s == [] then 0 else DigitsValue(s[..|s| - 1]) * 10 + DigitValue(s[|s| - 1])
  }

  /** The decimal digits of `n`, padded with leading zeros to at least `width`. */
  function Digits(n: nat, width: nat): (s: string)
    ensures AllDigits(s) && DigitsValue(s) == n
    ensures |s| >= width && |s| >= 1
    decreases n + width
  {
    if n < 10 && width <= 1 then
      [DigitChar(n)]
    else
      var p := Digits(n / 10, if width > 0 then width - 1 else 0);
      var s := p + [DigitChar(n % 10)];
      assert s[..|s| - 1] == p;
      s
  }
}
