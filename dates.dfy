/**
 * The inception-date parsing of the importer: `datetime.strptime` under the
 * four formats `%m/%d/%Y`, `%m-%d-%Y`, `%Y-%m-%d` and `%d/%m/%Y`, tried in
 * that order, the first that yields a calendar date winning.
 */
module Dates {
  import opened Wrappers
  import opened Text

  /** A calendar date as `datetime.date` holds it. */
  datatype Date = Date(year: nat, month: nat, day: nat)

  /** Gregorian leap years. */
  predicate IsLeapYear(y: nat) {
    y % 4 == 0 && (y % 100 != 0 || y % 400 == 0)
  }

  function DaysInMonth(y: nat, m: nat): (n: nat)
    requires 1 <= m <= 12
    ensures 28 <= n <= 31
    ensures n == 29 <==> m == 2 && IsLeapYear(y)
  {
    if m == 2 then (if IsLeapYear(y) then 29 else 28)
    else if m == 4 || m == 6 || m == 9 || m == 11 then 30
    else 31
  }

  /** The dates `datetime.date` accepts: years 1 to 9999 and a day that exists in its month. */
  predicate IsValidDate(d: Date) {
    1 <= d.year <= 9999 && 1 <= d.month <= 12 && 1 <= d.day <= DaysInMonth(d.year, d.month)
  }

  /** The four formats, named by the order of their fields and their separator. */
  datatype Format = MonthDayYearSlash | MonthDayYearDash | YearMonthDayDash | DayMonthYearSlash

  /** The formats in the order the importer tries them. */
  const Formats: seq<Format> := [MonthDayYearSlash, MonthDayYearDash, YearMonthDayDash, DayMonthYearSlash]

  function Separator(f: Format): char {
    if f == MonthDayYearDash || f == YearMonthDayDash then '-' else '/'
  }

  /** `%m`, the pattern `1[0-2]|0[1-9]|[1-9]`. */
  predicate IsMonthToken(t: string)
    ensures IsMonthToken(t) ==> 1 <= TokenValue(t) <= 12
  {
    if |t| == 1 then TokenValueShort(t); '1' <= t[0] <= '9'
    else if |t| == 2 then
      TokenValueShort(t);
      (t[0] == '1' && '0' <= t[1] <= '2') || (t[0] == '0' && '1' <= t[1] <= '9')
    else false
  }

  /** `%d`, the pattern `3[01]|[12]\d|0[1-9]|[1-9]| [1-9]`. */
  predicate IsDayToken(t: string)
    ensures IsDayToken(t) ==> 1 <= TokenValue(t) <= 31
  {
    if |t| == 1 then TokenValueShort(t); '1' <= t[0] <= '9'
    else if |t| == 2 then
      TokenValueShort(t);
      (t[0] == '3' && '0' <= t[1] <= '1') ||
      ('1' <= t[0] <= '2' && IsDigit(t[1])) ||
      ((t[0] == '0' || t[0] == ' ') && '1' <= t[1] <= '9')
    else false
  }

  /** `%Y`, the pattern of four digits. */
  predicate IsYearToken(t: string)
    ensures IsYearToken(t) ==> TokenValue(t) <= 9999
  {
    if |t| == 4 then TokenValueOfFour(t); AllDigits(t) else false
  }

  /** What `int()` makes of a token; the blank a `%d` token may start with adds nothing. */
  function TokenValue(t: string): nat {
    if t == [] then 0
    else TokenValue(t[..|t| - 1]) * 10 + DigitOf(t[|t| - 1])
  }

  /** A token of one or two characters, digit by digit. */
  lemma TokenValueShort(t: string)
    requires 1 <= |t| <= 2
    ensures TokenValue(t) == if |t| == 1 then DigitOf(t[0]) else DigitOf(t[0]) * 10 + DigitOf(t[1])
  {
    assert t[..|t| - 1][..0] == [];
    if |t| == 2 {
      assert t[..1][0] == t[0];
    }
  }

  /** A token of four characters denotes at most 9999. */
  lemma TokenValueOfFour(t: string)
    requires |t| == 4
    ensures TokenValue(t) <= 9999
  {
    var hi, lo := t[..2], t[2..];
    assert hi + lo == t;
    TokenValueShort(hi);
    TokenValueShort(lo);
    TokenValueAppend2(hi, lo);
  }

  /** `s` cut at its first two occurrences of `sep`, when it has two. */
  function Fields(s: string, sep: char): (r: Option<(string, string, string)>)
    ensures r.Some? ==> sep !in r.value.0 && sep !in r.value.1
  {
    var i := IndexOf(s, sep);
    if i == |s| then None
    else
      var rest := s[i + 1..];
      var j := IndexOf(rest, sep);
      if j == |rest| then None else Some((s[..i], rest[..j], rest[j + 1..]))
  }

  /** The three fields of a format, reordered as (year, month, day). */
  function Arrange(f: Format, fields: (string, string, string)): (string, string, string) {
    var (a, b, c) := fields;
    match f
    case MonthDayYearSlash => (c, a, b)
    case MonthDayYearDash => (c, a, b)
    case YearMonthDayDash => (a, b, c)
    case DayMonthYearSlash => (c, b, a)
  }

  /** `datetime.strptime(s, f).date()`, with `None` where it raises `ValueError`:
      the whole of `s` must match the pattern of the format, and the fields must
      name a date that exists. */
  function Strptime(s: string, f: Format): (r: Option<Date>)
    ensures r.Some? ==> IsValidDate(r.value)
  {
    match Fields(s, Separator(f))
    case None => None
    case Some(fields) =>
      var (y, m, d) := Arrange(f, fields);
      if IsYearToken(y) && IsMonthToken(m) && IsDayToken(d) then
        var date := Date(TokenValue(y), TokenValue(m), TokenValue(d));
        if IsValidDate(date) then Some(date) else None
      else
        None
  }

  /** The result of the first format of `fs` under which `s` parses, if any:
      the loop over the formats that stops at the first success. */
  function FirstMatch(fs: seq<Format>, s: string): (r: Option<Date>)
    ensures r.Some? ==> IsValidDate(r.value)
  {
    if fs == [] then None
    else
      match Strptime(s, fs[0])
      case Some(d) => Some(d)
      case None => FirstMatch(fs[1..], s)
  }

  /** The inception date of a row: absent when the raw value is missing or
      blank, otherwise the first format that parses the stripped value. */
  function InceptionDate(raw: Option<string>): (r: Option<Date>)
    ensures r.Some? ==> IsValidDate(r.value)
    ensures raw.None? ==> r.None?
  {
    if raw.None? || Strip(raw.value) == [] then None else FirstMatch(Formats, Strip(raw.value))
  }

  /** The stripped value of a cell that is not blank is tried in the fixed
      order of the formats, and the first that parses gives the date. */
  lemma InceptionDateInOrder(raw: string)
    requires Strip(raw) != []
    ensures var s := Strip(raw);
            InceptionDate(Some(raw)) ==
            if Strptime(s, MonthDayYearSlash).Some? then Strptime(s, MonthDayYearSlash)
            else if Strptime(s, MonthDayYearDash).Some? then Strptime(s, MonthDayYearDash)
            else if Strptime(s, YearMonthDayDash).Some? then Strptime(s, YearMonthDayDash)
            else Strptime(s, DayMonthYearSlash)
  {
    FormatsInOrder(Strip(raw));
  }

  /** The loop over the formats tries them in their fixed order. */
  lemma FormatsInOrder(s: string)
    ensures FirstMatch(Formats, s) ==
            if Strptime(s, MonthDayYearSlash).Some? then Strptime(s, MonthDayYearSlash)
            else if Strptime(s, MonthDayYearDash).Some? then Strptime(s, MonthDayYearDash)
            else if Strptime(s, YearMonthDayDash).Some? then Strptime(s, YearMonthDayDash)
            else Strptime(s, DayMonthYearSlash)
  {
    FirstMatchOfFour(MonthDayYearSlash, MonthDayYearDash, YearMonthDayDash, DayMonthYearSlash, s);
  }

  /** The loop over four formats, unrolled. */
  lemma FirstMatchOfFour(f0: Format, f1: Format, f2: Format, f3: Format, s: string)
    ensures FirstMatch([f0, f1, f2, f3], s) ==
            if Strptime(s, f0).Some? then Strptime(s, f0)
            else if Strptime(s, f1).Some? then Strptime(s, f1)
            else if Strptime(s, f2).Some? then Strptime(s, f2)
            else Strptime(s, f3)
  {
    var fs := [f0, f1, f2, f3];
    assert fs[1..] == [f1, f2, f3];
    assert fs[1..][1..] == [f2, f3];
    assert fs[1..][1..][1..] == [f3];
    assert fs[1..][1..][1..][1..] == [];
    FirstMatchCons(fs, s);
    FirstMatchCons(fs[1..], s);
    FirstMatchCons(fs[1..][1..], s);
    FirstMatchCons(fs[1..][1..][1..], s);
  }

  /** One step of the loop over the formats: the first one, or else the rest. */
  lemma FirstMatchCons(fs: seq<Format>, s: string)
    requires fs != []
    ensures FirstMatch(fs, s) == if Strptime(s, fs[0]).Some? then Strptime(s, fs[0]) else FirstMatch(fs[1..], s)
  {
  }

  /** Whitespace around a date is ignored: the cell reads as its stripped value. */
  lemma InceptionDateIgnoresSurroundingSpace(raw: string)
    ensures InceptionDate(Some(raw)) == InceptionDate(Some(Strip(raw)))
  {
    StripIdempotent(raw);
  }

  /** A format that parses, preceded only by formats that do not, decides the result. */
  lemma {:induction false} FirstMatchPicksFirst(fs: seq<Format>, s: string, i: nat)
    requires i < |fs| && Strptime(s, fs[i]).Some?
    requires forall j :: 0 <= j < i ==> Strptime(s, fs[j]).None?
    ensures FirstMatch(fs, s) == Strptime(s, fs[i])
  {
    if i > 0 {
      var rest := fs[1..];
      assert FirstMatch(fs, s) == FirstMatch(rest, s) by {
        assert Strptime(s, fs[0]).None?;
      }
      forall j | 0 <= j < i - 1
        ensures Strptime(s, rest[j]).None?
      {
        assert rest[j] == fs[j + 1];
      }
      FirstMatchPicksFirst(rest, s, i - 1);
    }
  }

  /** Nothing is found exactly when no format parses. */
  lemma {:induction false} FirstMatchNoneIff(fs: seq<Format>, s: string)
    ensures FirstMatch(fs, s).None? <==> forall j :: 0 <= j < |fs| ==> Strptime(s, fs[j]).None?
  {
    if fs != [] {
      FirstMatchNoneIff(fs[1..], s);
      assert forall j :: 0 < j < |fs| ==> fs[j] == fs[1..][j - 1];
    }
  }

  /** A blank or whitespace-only date leaves the date absent. */
  lemma BlankDateIsAbsent(raw: string)
    requires AllSpace(raw)
    ensures InceptionDate(Some(raw)).None?
  {
    StripEmptyIffAllSpace(raw);
  }

  /** `%m` and `%d` as `strftime` writes them: two digits, zero-padded. */
  function Pad2(n: nat): (t: string)
    requires n < 100
    ensures |t| == 2 && AllDigits(t)
  {
    [DigitChar(n / 10), DigitChar(n % 10)]
  }

  /** `%Y` as `strftime` writes it for years up to 9999: four digits, zero-padded. */
  function Pad4(n: nat): (t: string)
    requires n < 10000
    ensures |t| == 4 && AllDigits(t)
  {
    Pad2(n / 100) + Pad2(n % 100)
  }

  /** The two-digit fields are the digit writer of `Text` at width 2, spelled
      out character by character so that the token proofs need no recursion. */
  lemma Pad2IsDigits(n: nat)
    requires n < 100
    ensures Pad2(n) == Digits(n, 2)
  {
    assert Digits(n / 10, 1) == [DigitChar(n / 10)];
  }

  /** The year field is the digit writer of `Text` at width 4. */
  lemma Pad4IsDigits(n: nat)
    requires n < 10000
    ensures Pad4(n) == Digits(n, 4)
  {
    var q, r := n / 100, n % 100;
    assert n / 10 == q * 10 + r / 10 && n / 10 / 10 == q;
    assert Digits(n / 10, 3) == Digits(q, 2) + [DigitChar(r / 10)];
    Pad2IsDigits(q);
  }

  /** The year, month and day fields put in the order of a format. */
  function Place(f: Format, y: string, m: string, d: string): (r: (string, string, string))
    ensures Arrange(f, r) == (y, m, d)
  {
    match f
    case MonthDayYearSlash => (m, d, y)
    case MonthDayYearDash => (m, d, y)
    case YearMonthDayDash => (y, m, d)
    case DayMonthYearSlash => (d, m, y)
  }

  /** `d.strftime(f)`: the date written in a format. */
  function FormatDate(d: Date, f: Format): string
    requires IsValidDate(d)
  {
    var (a, b, c) := Place(f, Pad4(d.year), Pad2(d.month), Pad2(d.day));
    a + [Separator(f)] + b + [Separator(f)] + c
  }

  /** Two-digit fields read back as the number written. */
  lemma Pad2Value(n: nat)
    requires n < 100
    ensures TokenValue(Pad2(n)) == n
  {
    var t := Pad2(n);
    assert t[..1] == [t[0]];
    assert TokenValue(t[..1]) == n / 10;
  }

  /** Four-digit fields read back as the number written. */
  lemma Pad4Value(n: nat)
    requires n < 10000
    ensures TokenValue(Pad4(n)) == n
  {
    var hi, lo := Pad2(n / 100), Pad2(n % 100);
    Pad2Value(n / 100);
    TokenValueAppend2(hi, lo);
    Pad2Value(n % 100);
  }

  /** A token followed by two digits: the value shifts by two places. */
  lemma TokenValueAppend2(a: string, b: string)
    requires |b| == 2
    ensures TokenValue(a + b) == TokenValue(a) * 100 + TokenValue(b)
  {
    var t := a + b;
    var u := a + [b[0]];
    assert t[..|t| - 1] == u;
    assert u[..|a|] == a;
    assert b[..1] == [b[0]];
    assert [b[0]][..0] == [];
    var x, y, z := TokenValue(a), DigitOf(b[0]), DigitOf(b[1]);
    assert TokenValue(u) == x * 10 + y;
    assert TokenValue(t) == (x * 10 + y) * 10 + z;
    assert TokenValue([b[0]]) == y;
    assert TokenValue(b) == TokenValue(b[..1]) * 10 + z;
  }

  /** The digit value a token character contributes. */
  function DigitOf(c: char): nat {
    if IsDigit(c) then DigitValue(c) else 0
  }

  /** Months 1 to 12, written with two digits, are `%m` tokens; days 1 to 31 are `%d` tokens. */
  lemma PadTokens(d: Date)
    requires IsValidDate(d)
    ensures IsYearToken(Pad4(d.year)) && IsMonthToken(Pad2(d.month)) && IsDayToken(Pad2(d.day))
  {
  }

  /** Cutting a string joined with two separators gives back its pieces. */
  lemma FieldsJoin(a: string, b: string, c: string, sep: char)
    requires sep !in a && sep !in b
    ensures Fields(a + [sep] + b + [sep] + c, sep) == Some((a, b, c))
  {
    var s := a + [sep] + b + [sep] + c;
    assert s[..|a|] == a;
    IndexOfIs(s, sep, |a|);
    var rest := s[|a| + 1..];
    assert rest == b + [sep] + c;
    assert rest[..|b|] == b;
    IndexOfIs(rest, sep, |b|);
    assert rest[|b| + 1..] == c;
  }

  /** A string without the separator has no fields. */
  lemma FieldsWithoutSeparator(s: string, sep: char)
    requires sep !in s
    ensures Fields(s, sep).None?
  {
    assert s[..|s|] == s;
    IndexOfIs(s, sep, |s|);
  }

  /** Parsing a date written in a format, under that format, gives the date back. */
  lemma StrptimeFormatDate(d: Date, f: Format)
    requires IsValidDate(d)
    ensures Strptime(FormatDate(d, f), f) == Some(d)
  {
    var y, m, dd := Pad4(d.year), Pad2(d.month), Pad2(d.day);
    var (a, b, c) := Place(f, y, m, dd);
    assert Separator(f) !in a && Separator(f) !in b by {
      assert forall k :: 0 <= k < |a| ==> IsDigit(a[k]);
      assert forall k :: 0 <= k < |b| ==> IsDigit(b[k]);
    }
    FieldsJoin(a, b, c, Separator(f));
    assert Arrange(f, (a, b, c)) == (y, m, dd);
    PadTokens(d);
    Pad4Value(d.year);
    Pad2Value(d.month);
    Pad2Value(d.day);
  }

  /** A written date holds digits and its separator only. */
  lemma FormatDateChars(d: Date, f: Format, c: char)
    requires IsValidDate(d) && !IsDigit(c) && c != Separator(f)
    ensures c !in FormatDate(d, f)
  {
    var (a, b, e) := Place(f, Pad4(d.year), Pad2(d.month), Pad2(d.day));
    assert c !in a && c !in b && c !in e by {
      assert forall k :: 0 <= k < |a| ==> IsDigit(a[k]);
      assert forall k :: 0 <= k < |b| ==> IsDigit(b[k]);
      assert forall k :: 0 <= k < |e| ==> IsDigit(e[k]);
    }
  }

  /** A written date starts and ends with a digit, so stripping leaves it as it is. */
  lemma FormatDateStripped(d: Date, f: Format)
    requires IsValidDate(d)
    ensures Strip(FormatDate(d, f)) == FormatDate(d, f) != []
  {
    var (a, b, c) := Place(f, Pad4(d.year), Pad2(d.month), Pad2(d.day));
    var s := FormatDate(d, f);
    assert s[0] == a[0] && s[|s| - 1] == c[|c| - 1];
    StripUnchanged(s);
  }

  /** A date written month first with slashes is read by the first format. */
  lemma MonthFirstDateRead(d: Date)
    requires IsValidDate(d)
    ensures InceptionDate(Some(FormatDate(d, MonthDayYearSlash))) == Some(d)
  {
    var s := FormatDate(d, MonthDayYearSlash);
    FormatDateStripped(d, MonthDayYearSlash);
    StrptimeFormatDate(d, MonthDayYearSlash);
    FirstMatchPicksFirst(Formats, s, 0);
  }

  /** An ISO date fails the two month-first formats and is read by the third. */
  lemma IsoDateRead(d: Date)
    requires IsValidDate(d)
    ensures Strptime(FormatDate(d, YearMonthDayDash), MonthDayYearSlash).None?
    ensures Strptime(FormatDate(d, YearMonthDayDash), MonthDayYearDash).None?
    ensures InceptionDate(Some(FormatDate(d, YearMonthDayDash))) == Some(d)
  {
    var s := FormatDate(d, YearMonthDayDash);
    FormatDateStripped(d, YearMonthDayDash);
    StrptimeFormatDate(d, YearMonthDayDash);
    FormatDateChars(d, YearMonthDayDash, '/');
    FieldsWithoutSeparator(s, '/');
    assert Strptime(s, MonthDayYearDash).None? by {
      FieldsJoin(Pad4(d.year), Pad2(d.month), Pad2(d.day), '-');
    }
    InceptionDateInOrder(s);
  }

  /** A day above 12 is no month: a date written day first is then read by the
      last format, and read correctly. */
  lemma DayFirstDateReadWhenDayAbove12(d: Date)
    requires IsValidDate(d) && d.day > 12
    ensures Strptime(FormatDate(d, DayMonthYearSlash), MonthDayYearSlash).None?
    ensures Strptime(FormatDate(d, DayMonthYearSlash), MonthDayYearDash).None?
    ensures Strptime(FormatDate(d, DayMonthYearSlash), YearMonthDayDash).None?
    ensures InceptionDate(Some(FormatDate(d, DayMonthYearSlash))) == Some(d)
  {
    var s := FormatDate(d, DayMonthYearSlash);
    FormatDateStripped(d, DayMonthYearSlash);
    StrptimeFormatDate(d, DayMonthYearSlash);
    assert Strptime(s, MonthDayYearSlash).None? by {
      FieldsJoin(Pad2(d.day), Pad2(d.month), Pad4(d.year), '/');
      NotMonthToken(d.day);
    }
    FormatDateChars(d, DayMonthYearSlash, '-');
    FieldsWithoutSeparator(s, '-');
    InceptionDateInOrder(s);
  }

  /** Two digits above 12 are not a `%m` token. */
  lemma NotMonthToken(n: nat)
    requires 12 < n < 100
    ensures !IsMonthToken(Pad2(n))
  {
  }

  /** A day of at most 12 is also a month: a date written day first is then read
      by the first format, with day and month swapped. */
  lemma DayFirstDateSwappedWhenDayAtMost12(d: Date)
    requires IsValidDate(d) && d.day <= 12
    ensures InceptionDate(Some(FormatDate(d, DayMonthYearSlash))) == Some(Date(d.year, d.day, d.month))
  {
    var e := Date(d.year, d.day, d.month);
    assert IsValidDate(e);
    assert FormatDate(d, DayMonthYearSlash) == FormatDate(e, MonthDayYearSlash);
    MonthFirstDateRead(e);
  }

  /** A value with neither a slash nor a dash matches none of the formats and
      leaves the date absent. */
  lemma UnseparatedDateIsAbsent(raw: string)
    requires '/' !in raw && '-' !in raw
    ensures InceptionDate(Some(raw)).None?
  {
    var s := Strip(raw);
    if s != [] {
      var i := StripSlice(raw);
      assert '/' !in s && '-' !in s;
      FieldsWithoutSeparator(s, '/');
      FieldsWithoutSeparator(s, '-');
      FirstMatchNoneIff(Formats, s);
    }
  }
}
