/** The part of Python's `datetime` the fetcher uses: a local date and time,
    `now - timedelta(days=1)`, comparison against a time of day on the same
    date, and the `strftime` directives `%d`, `%m` and `%Y`. */
module Calendar {
  import opened Wrappers

  /** A naive local `datetime` value. */
  datatype DateTime = DateTime(year: int, month: int, day: int,
                               hour: int, minute: int, second: int, microsecond: int)

  /** `datetime.MINYEAR` and `datetime.MAXYEAR`. */
  const MinYear := 1
  const MaxYear := 9999

  /** The hour from which the Paraná report of the current day is published. */
  const CutoffHour := 15

  predicate IsLeapYear(year: int)
  {
    year % 4 == 0 && (year % 100 != 0 || year % 400 == 0)
  }

  function DaysInMonth(year: int, month: int): (n: int)
    requires 1 <= month <= 12
    ensures 28 <= n <= 31
  {
    if month == 2 then (if IsLeapYear(year) then 29 else 28)
    else if month == 4 || month == 6 || month == 9 || month == 11 then 30
    else 31
  }

  /** The values a `datetime` object can hold. */
  predicate Valid(t: DateTime)
  {
    MinYear <= t.year <= MaxYear && 1 <= t.month <= 12 &&
    1 <= t.day <= DaysInMonth(t.year, t.month) &&
    0 <= t.hour < 24 && 0 <= t.minute < 60 && 0 <= t.second < 60 &&
    0 <= t.microsecond < 1000000
  }

  /** Days in the years before `year` of the proleptic Gregorian calendar. */
  function DaysBeforeYear(year: int): int
    requires year >= MinYear
  {
    var y := year - 1;
    y * 365 + y / 4 - y / 100 + y / 400
  }

  /** Days in the months before `month` of `year`. */
  function DaysBeforeMonth(year: int, month: int): int
    requires 1 <= month <= 12
  {
    [0, 31, 59, 90, 120, 151, 181, 212, 243, 273, 304, 334][month - 1] +
    (if month > 2 && IsLeapYear(year) then 1 else 0)
  }

  /** Python's `date.toordinal()`: 0001-01-01 is day 1. `timedelta`
      arithmetic on dates is arithmetic on this number. */
  function Ordinal(t: DateTime): int
    requires Valid(t)
  {
    DaysBeforeYear(t.year) + DaysBeforeMonth(t.year, t.month) + t.day
  }

  lemma MonthLength(year: int, month: int)
    requires 2 <= month <= 12
    ensures DaysBeforeMonth(year, month) == DaysBeforeMonth(year, month - 1) + DaysInMonth(year, month - 1)
  {
  }

  lemma YearLength(year: int)
    requires year >= MinYear
    ensures DaysBeforeYear(year + 1) == DaysBeforeYear(year) + DaysBeforeMonth(year, 12) + 31
  {
    assert year / 4 - (year - 1) / 4 == if year % 4 == 0 then 1 else 0;
    assert year / 100 - (year - 1) / 100 == if year % 100 == 0 then 1 else 0;
    assert year / 400 - (year - 1) / 400 == if year % 400 == 0 then 1 else 0;
  }

  /** Both values have the same time of day. */
  predicate SameTimeOfDay(a: DateTime, b: DateTime)
  {
    a.hour == b.hour && a.minute == b.minute && a.second == b.second && a.microsecond == b.microsecond
  }

  /** `t - timedelta(days=1)`: the same time of day on the previous calendar
      day, or `None` where Python raises `OverflowError` (before 0001-01-01). */
  function PrevDay(t: DateTime): (r: Option<DateTime>)
    requires Valid(t)
    ensures r.None? <==> t.year == MinYear && t.month == 1 && t.day == 1
    ensures r.Some? ==> Valid(r.value) && SameTimeOfDay(r.value, t)
    ensures r.Some? ==> Ordinal(r.value) == Ordinal(t) - 1
  {
    if t.day > 1 then
      Some(t.(day := t.day - 1))
    else if t.month > 1 then
      MonthLength(t.year, t.month);
      Some(t.(month := t.month - 1, day := DaysInMonth(t.year, t.month - 1)))
    else if t.year > MinYear then
      YearLength(t.year - 1);
      Some(t.(year := t.year - 1, month := 12, day := 31))
    else
      None
  }

  /** Python's ordering of `datetime` values: field by field, from the year
      down to the microsecond. */
  predicate NotBefore(a: DateTime, b: DateTime)
  {
    if a.year != b.year then a.year > b.year
    else if a.month != b.month then a.month > b.month
    else if a.day != b.day then a.day > b.day
    else if a.hour != b.hour then a.hour > b.hour
    else if a.minute != b.minute then a.minute > b.minute
    else if a.second != b.second then a.second > b.second
    else a.microsecond >= b.microsecond
  }

  /** The cutoff moment of the day `t` falls on:
      `t.replace(hour=15, minute=0, second=0, microsecond=0)`. */
  function CutoffOf(t: DateTime): DateTime
  {
    t.(hour := CutoffHour, minute := 0, second := 0, microsecond := 0)
  }

  /** `t >= CutoffOf(t)`. */
  predicate AtOrAfterCutoff(t: DateTime)
  {
    NotBefore(t, CutoffOf(t))
  }

  /** The cutoff comparison depends on the hour alone: 15:00:00.000000 is in,
      14:59:59.999999 is out. */
  lemma CutoffByHour(t: DateTime)
    requires Valid(t)
    ensures AtOrAfterCutoff(t) <==> t.hour >= CutoffHour
  {
  }

  /** True when every character of `s` is a decimal digit. */
  predicate IsDigits(s: string)
  {
    forall i :: 0 <= i < |s| ==> '0' <= s[i] <= '9'
  }

  /** The number a string of decimal digits denotes. */
  function Value(s: string): nat
    requires IsDigits(s)
  {
    if s == [] then 0
    else Value(s[..|s| - 1]) * 10 + (s[|s| - 1] as int - '0' as int)
  }

  /** Appending a digit multiplies the value by ten and adds the digit. */
  lemma ValueSnoc(s: string, c: char)
    requires IsDigits(s) && '0' <= c <= '9'
    ensures IsDigits(s + [c]) && Value(s + [c]) == Value(s) * 10 + (c as int - '0' as int)
  {
    assert (s + [c])[..|s|] == s;
  }

  function Digit(k: int): (c: char)
    requires 0 <= k <= 9
    ensures '0' <= c <= '9' && c as int - '0' as int == k
  {
    ('0' as int + k) as char
  }

  /** `strftime` of a two-digit field (`%d`, `%m`): zero-padded to two digits. */
  function Pad2(n: int): (s: string)
    requires 0 <= n <= 99
    ensures |s| == 2 && IsDigits(s) && Value(s) == n
  {
    var a, b := Digit(n / 10), Digit(n % 10);
    ValueSnoc([], a);
    ValueSnoc([a], b);
    assert [] + [a] == [a] && [a] + [b] == [a, b];
    [a, b]
  }

  /** `strftime('%Y')` of a year in 1..9999: zero-padded to four digits. */
  function Pad4(n: int): (s: string)
    requires 0 <= n <= 9999
    ensures |s| == 4 && IsDigits(s) && Value(s) == n
  {
    var n1 := n / 10;
    var n2 := n1 / 10;
    var a, b, c, d := Digit(n2 / 10), Digit(n2 % 10), Digit(n1 % 10), Digit(n % 10);
    ValueSnoc([], a);
    ValueSnoc([a], b);
    ValueSnoc([a, b], c);
    ValueSnoc([a, b, c], d);
    assert [] + [a] == [a] && [a] + [b] == [a, b] && [a, b] + [c] == [a, b, c] && [a, b, c] + [d] == [a, b, c, d];
    [a, b, c, d]
  }

  /** `t.strftime('%Y-%m')`: the text reads back as the year and the month. */
  function FormatYearMonth(t: DateTime): (s: string)
    requires Valid(t)
    ensures |s| == 7 && s[4] == '-'
    ensures IsDigits(s[..4]) && Value(s[..4]) == t.year
    ensures IsDigits(s[5..]) && Value(s[5..]) == t.month
    ensures '#' !in s && '/' !in s
  {
    var y, m := Pad4(t.year), Pad2(t.month);
    var s := y + "-" + m;
    assert s[..4] == y && s[5..] == m;
    assert forall i :: 0 <= i < |s| ==> '0' <= s[i] <= '9' || s[i] == '-';
    s
  }

  /** `t.strftime('%d_%m_%Y')`: the text reads back as the day, the month
      and the year. */
  function FormatDayMonthYear(t: DateTime): (s: string)
    requires Valid(t)
    ensures |s| == 10 && s[2] == '_' && s[5] == '_'
    ensures IsDigits(s[..2]) && Value(s[..2]) == t.day
    ensures IsDigits(s[3..5]) && Value(s[3..5]) == t.month
    ensures IsDigits(s[6..]) && Value(s[6..]) == t.year
    ensures '#' !in s && '/' !in s
  {
    var d, m, y := Pad2(t.day), Pad2(t.month), Pad4(t.year);
    var s := d + "_" + m + "_" + y;
    assert s[..2] == d && s[3..5] == m && s[6..] == y;
    assert forall i :: 0 <= i < |s| ==> '0' <= s[i] <= '9' || s[i] == '_';
    s
  }

  /** Two dates print the same `%d_%m_%Y` text only when they are the same
      calendar date. */
  lemma FormatDayMonthYearInjective(a: DateTime, b: DateTime)
    requires Valid(a) && Valid(b)
    requires FormatDayMonthYear(a) == FormatDayMonthYear(b)
    ensures a.year == b.year && a.month == b.month && a.day == b.day
  {
    var s := FormatDayMonthYear(a);
    assert Value(s[..2]) == a.day == b.day;
    assert Value(s[3..5]) == a.month == b.month;
    assert Value(s[6..]) == a.year == b.year;
  }
}
