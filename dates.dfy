/** Dates as the exporter sees them: Python's `datetime.strptime(s, "%Y-%m-%d")`,
    the month key `strftime("%Y-%m")` and the year read back with
    `int(key.split("-")[0])`; and the `yyyy-MM-dd` text the form produces. */
module Dates {
  import opened Basics

  datatype Date = Date(year: int, month: int, day: int)

  predicate IsDigit(c: char) {
    '0' <= c <= '9'
  }

  predicate AllDigits(s: string) {
    forall i :: 0 <= i < |s| ==> IsDigit(s[i])
  }

  function DigitValue(c: char): int
    requires IsDigit(c)
  {
    (c as int) - ('0' as int)
  }

  function DigitChar(n: int): char
    requires 0 <= n < 10
  {
    (('0' as int) + n) as char
  }

  /** The decimal value of a string of digits, most significant first. */
  function DigitsValue(s: string): int
    requires AllDigits(s)
  {
    if s == [] then 0 else 10 * DigitsValue(s[..|s| - 1]) + DigitValue(s[|s| - 1])
  }

  /** Gregorian leap years, as Python's `calendar.isleap`. */
  predicate IsLeap(y: int) {
    y % 4 == 0 && (y % 100 != 0 || y % 400 == 0)
  }

  function DaysInMonth(y: int, m: int): int
    requires 1 <= m <= 12
  {
    if m == 2 then (if IsLeap(y) then 29 else 28)
    else if m == 4 || m == 6 || m == 9 || m == 11 then 30
    else 31
  }

  /** The text of `s` before its first '-', all of `s` when there is none
      (Python's `s.split("-")[0]`). */
  function BeforeDash(s: string): (r: string)
    ensures |r| <= |s| && r == s[..|r|]
    ensures '-' !in r
    ensures |r| < |s| ==> s[|r|] == '-'
  {
    if s == [] || s[0] == '-' then [] else [s[0]] + BeforeDash(s[1..])
  }

  lemma {:induction false} BeforeDashOf(a: string, b: string)
    requires '-' !in a
    ensures BeforeDash(a + "-" + b) == a
  {
    if a != [] {
      assert (a + "-" + b)[1..] == a[1..] + "-" + b;
      BeforeDashOf(a[1..], b);
      assert a == [a[0]] + a[1..];
    } else {
      assert (a + "-" + b)[0] == '-';
    }
  }

  /** The value of two digits, as `int` reads them. */
  function TwoDigits(a: char, b: char): int
    requires IsDigit(a) && IsDigit(b)
  {
    10 * DigitValue(a) + DigitValue(b)
  }

  /** The month token `s[5..e]`, which ends at the dash at `e`, is text the
      `%m` directive accepts: `1[0-2]|0[1-9]|[1-9]`. */
  predicate MonthToken(s: string, e: int)
    requires 7 < |s| && (e == 6 || e == 7)
  {
    if e == 6 then IsDigit(s[5]) && s[5] != '0'
    else IsDigit(s[5]) && IsDigit(s[6]) && 1 <= TwoDigits(s[5], s[6]) <= 12
  }

  /** The number the month token stands for. */
  function MonthValue(s: string, e: int): (r: int)
    requires 7 < |s| && (e == 6 || e == 7) && MonthToken(s, e)
    ensures 1 <= r <= 12
  {
    if e == 6 then DigitValue(s[5]) else TwoDigits(s[5], s[6])
  }

  /** The rest of `s` from index `b` is text the `%d` directive accepts, up to
      the end of the input: `3[01]|[12]\d|0[1-9]|[1-9]| [1-9]`. */
  predicate DayToken(s: string, b: nat)
    requires b <= |s|
  {
    || (|s| == b + 1 && IsDigit(s[b]) && s[b] != '0')
    || (|s| == b + 2 && IsDigit(s[b]) && IsDigit(s[b + 1]) && 1 <= TwoDigits(s[b], s[b + 1]) <= 31)
    || (|s| == b + 2 && s[b] == ' ' && IsDigit(s[b + 1]) && s[b + 1] != '0')
  }

  /** The number the day token stands for (`int` ignores a leading space). */
  function DayValue(s: string, b: nat): (r: int)
    requires b <= |s| && DayToken(s, b)
    ensures 1 <= r <= 31
  {
    if |s| == b + 1 then DigitValue(s[b])
    else if s[b] == ' ' then DigitValue(s[b + 1])
    else TwoDigits(s[b], s[b + 1])
  }

  /** The four leading characters are digits. */
  predicate YearDigits(s: string) {
    |s| >= 4 && IsDigit(s[0]) && IsDigit(s[1]) && IsDigit(s[2]) && IsDigit(s[3])
  }

  function YearValue(s: string): int
    requires YearDigits(s)
  {
    100 * TwoDigits(s[0], s[1]) + TwoDigits(s[2], s[3])
  }

  /** Where the dash after the month token of `s` must be: `%m` takes the one
      or two characters before the next '-', so the dash is at index 6 or 7. */
  function MonthEnd(s: string): int
    requires |s| >= 7
  {
    if s[6] == '-' then 6 else 7
  }

  /** `datetime.strptime(s, "%Y-%m-%d")`: four digits, '-', a month token
      followed by '-', a day token that ends the input ("unconverted data
      remains" otherwise), and then a real calendar date with a year of at
      least 1. `None` stands for the ValueError the call raises. */
  function ParseDate(s: string): (r: Option<Date>)
    ensures r.Some? ==> 1 <= r.value.year <= 9999 && 1 <= r.value.month <= 12
                        && 1 <= r.value.day <= DaysInMonth(r.value.year, r.value.month)
    ensures r.Some? ==> 8 <= |s| <= 10 && YearDigits(s) && s[4] == '-' && r.value.year == YearValue(s)
  {
    if |s| < 8 || !YearDigits(s) || s[4] != '-' then None
    else
      var e := MonthEnd(s);
      if s[e] != '-' || !MonthToken(s, e) || !DayToken(s, e + 1) then None
      else
        var y, m, d := YearValue(s), MonthValue(s, e), DayValue(s, e + 1);
        if 1 <= y && d <= DaysInMonth(y, m) then Some(Date(y, m, d)) else None
  }

  lemma DigitsValueSnoc(s: string, c: char)
    requires AllDigits(s) && IsDigit(c)
    ensures AllDigits(s + [c]) && DigitsValue(s + [c]) == 10 * DigitsValue(s) + DigitValue(c)
  {
    assert (s + [c])[..|s|] == s;
  }

  /** Two digits read as a number are their `TwoDigits` value. */
  lemma DigitsValueOfTwo(a: char, b: char)
    requires IsDigit(a) && IsDigit(b)
    ensures AllDigits([a, b]) && DigitsValue([a, b]) == TwoDigits(a, b)
  {
    DigitsValueSnoc([], a);
    DigitsValueSnoc([a], b);
    assert [a, b] == [a] + [b] && [a] == [] + [a];
  }

  /** Appending two digits shifts the value by a hundred. */
  lemma DigitsValueAppendTwo(s: string, t: string)
    requires AllDigits(s) && AllDigits(t) && |t| == 2
    ensures AllDigits(s + t) && DigitsValue(s + t) == 100 * DigitsValue(s) + DigitsValue(t)
  {
    var a, b := t[0], t[1];
    DigitsValueSnoc(s, a);
    DigitsValueSnoc(s + [a], b);
    assert s + t == (s + [a]) + [b] && t == [a, b];
    DigitsValueOfTwo(a, b);
  }

  /** Two digits, zero-padded, as `%m` prints a month. */
  function Pad2(n: int): (r: string)
    requires 0 <= n < 100
  {
    [DigitChar(n / 10), DigitChar(n % 10)]
  }

  /** Four digits, zero-padded. */
  function Pad4(n: int): (r: string)
    requires 0 <= n < 10000
  {
    Pad2(n / 100) + Pad2(n % 100)
  }

  /** `date_obj.strftime("%Y-%m")`. */
  function RenderMonth(d: Date): (r: string)
    requires 0 <= d.year < 10000 && 0 <= d.month < 100
    ensures |r| == 7 && r[4] == '-' && AllDigits(r[..4]) && AllDigits(r[5..])
  {
    Pad4(d.year) + "-" + Pad2(d.month)
  }

  /** The exporter's month key of a date, read off its text: the four year
      digits, '-', and the month token padded to two digits. For every date
      strptime accepts this is `strftime("%Y-%m")` of the parsed date
      (MonthKeyOfParsed); for any other string the export stops before a key
      is used. */
  function MonthKeyOf(date: string): string {
    if |date| < 7 then ""
    else [date[0], date[1], date[2], date[3], '-'] + (if date[6] == '-' then ['0', date[5]] else [date[5], date[6]])
  }

  /** The month key of a date strptime accepts is its rendered month. */
  lemma MonthKeyOfParsed(date: string)
    requires ParseDate(date).Some?
    ensures MonthKeyOf(date) == RenderMonth(ParseDate(date).value)
  {
    var d := ParseDate(date).value;
    Pad4OfYear(date);
    if date[6] == '-' {
      assert d.month == DigitValue(date[5]);
      assert Pad2(d.month) == ['0', date[5]];
    } else {
      assert d.month == TwoDigits(date[5], date[6]);
      Pad2OfTwoDigits(date[5], date[6]);
    }
  }

  /** Python's `int(t)` on the text before the first dash; `None` stands for the
      ValueError raised on an empty or non-numeric string. */
  function YearOfKey(key: string): Option<int> {
    var t := BeforeDash(key);
    if t != [] && AllDigits(t) then Some(DigitsValue(t)) else None
  }

  /** The calendar year of a date string strptime accepts. */
  function YearOfDate(date: string): Option<int> {
    match ParseDate(date)
    case Some(d) => Some(d.year)
    case None => None
  }

  lemma Pad2Value(n: int)
    requires 0 <= n < 100
    ensures AllDigits(Pad2(n)) && DigitsValue(Pad2(n)) == n
  {
    DigitsValueSnoc([], DigitChar(n / 10));
    DigitsValueSnoc([DigitChar(n / 10)], DigitChar(n % 10));
    assert Pad2(n) == [] + [DigitChar(n / 10)] + [DigitChar(n % 10)];
  }

  lemma Pad4Value(n: int)
    requires 0 <= n < 10000
    ensures AllDigits(Pad4(n)) && DigitsValue(Pad4(n)) == n
    ensures '-' !in Pad4(n)
  {
    Pad2Value(n / 100);
    Pad2Value(n % 100);
    DigitsValueAppendTwo(Pad2(n / 100), Pad2(n % 100));
  }

  /** The year read back from a month key is the year it was rendered from. */
  lemma YearOfRenderedMonth(d: Date)
    requires 0 <= d.year < 10000 && 0 <= d.month < 100
    ensures YearOfKey(RenderMonth(d)) == Some(d.year)
  {
    Pad4Value(d.year);
    BeforeDashOf(Pad4(d.year), Pad2(d.month));
  }

  /** For a date strptime accepts, reading the year back from its month key gives its year. */
  lemma YearOfMonthKey(date: string)
    requires ParseDate(date).Some?
    ensures YearOfKey(MonthKeyOf(date)) == YearOfDate(date)
  {
    MonthKeyOfParsed(date);
    YearOfRenderedMonth(ParseDate(date).value);
  }

  /** The form's `date().toString("yyyy-MM-dd")`: exactly ten characters
      `dddd-dd-dd` naming a real date of a year from 1 on (what
      `QDate.fromString` accepts back). */
  predicate IsIsoDate(s: string) {
    && |s| == 10 && YearDigits(s) && s[4] == '-' && IsDigit(s[5]) && IsDigit(s[6]) && s[7] == '-'
    && IsDigit(s[8]) && IsDigit(s[9])
    && 1 <= YearValue(s) && 1 <= TwoDigits(s[5], s[6]) <= 12
    && 1 <= TwoDigits(s[8], s[9]) <= DaysInMonth(YearValue(s), TwoDigits(s[5], s[6]))
  }

  /** strptime accepts every `yyyy-MM-dd` date and parses it to its own
      year, month and day. */
  lemma ParseIsoDate(s: string)
    requires IsIsoDate(s)
    ensures ParseDate(s) == Some(Date(YearValue(s), TwoDigits(s[5], s[6]), TwoDigits(s[8], s[9])))
  {
  }

  /** Conversely, a ten-character date that strptime accepts is a `yyyy-MM-dd`
      date unless its day is written with a leading space (`2024-01- 5`). */
  lemma IsoDateOfParsed(s: string)
    requires ParseDate(s).Some? && |s| == 10 && s[8] != ' '
    ensures IsIsoDate(s)
  {
  }

  lemma Pad2OfTwoDigits(a: char, b: char)
    requires IsDigit(a) && IsDigit(b)
    ensures 0 <= TwoDigits(a, b) < 100 && Pad2(TwoDigits(a, b)) == [a, b]
  {
    var n := TwoDigits(a, b);
    assert n / 10 == DigitValue(a) && n % 10 == DigitValue(b);
  }

  lemma Pad4OfYear(s: string)
    requires YearDigits(s)
    ensures 0 <= YearValue(s) < 10000 && Pad4(YearValue(s)) == [s[0], s[1], s[2], s[3]]
  {
    Pad2OfTwoDigits(s[0], s[1]);
    Pad2OfTwoDigits(s[2], s[3]);
    var n, hi, lo := YearValue(s), TwoDigits(s[0], s[1]), TwoDigits(s[2], s[3]);
    assert n / 100 == hi && n % 100 == lo;
  }

  /** For a date typed into the form, the month key is its first seven characters. */
  lemma IsoMonthKey(s: string)
    requires IsIsoDate(s)
    ensures MonthKeyOf(s) == s[..7]
  {
    assert MonthKeyOf(s) == [s[0], s[1], s[2], s[3], s[4], s[5], s[6]];
  }
}
