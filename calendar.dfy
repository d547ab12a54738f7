/**
  Calendar dates as the worklog analysis handles them: `datetime.strptime(s, '%Y-%m-%d')`
  and `strftime('%Y-%m-%d')`, day ordinals as Python's `toordinal` counts them (0001-01-01 is
  day 1), the weekday (Monday is 0), the Monday that starts a date's week, and the range of
  dates a pandas timestamp can hold.
*/
module Calendar {
  import opened Wrappers
  import Numbers

  datatype Date = Date(year: int, month: int, day: int)

  predicate IsLeap(y: int) {
    y % 4 == 0 && (y % 100 != 0 || y % 400 == 0)
  }

  function DaysInMonth(y: int, m: int): (n: int)
    requires 1 <= m <= 12
    ensures 28 <= n <= 31
  {
    if m == 2 then (if IsLeap(y) then 29 else 28)
    else if m == 4 || m == 6 || m == 9 || m == 11 then 30
    else 31
  }

  /** A date `datetime` accepts: years 1 to 9999 of the proleptic Gregorian calendar. */
  predicate Valid(d: Date) {
    1 <= d.year <= 9999 && 1 <= d.month <= 12 && 1 <= d.day <= DaysInMonth(d.year, d.month)
  }

  // ---------------------------------------------------------------------------
  // Day ordinals

  /** Days in the years before `y`. */
  function DaysBeforeYear(y: int): int
    requires y >= 1
  {
    var p := y - 1;
    p * 365 + p / 4 - p / 100 + p / 400
  }

  /** Days in the months of year `y` before month `m`. */
  function DaysBeforeMonth(y: int, m: int): int
    requires 1 <= m <= 12
  {
    var before :=
      if m == 1 then 0 else if m == 2 then 31 else if m == 3 then 59 else if m == 4 then 90
      else if m == 5 then 120 else if m == 6 then 151 else if m == 7 then 181 else if m == 8 then 212
      else if m == 9 then 243 else if m == 10 then 273 else if m == 11 then 304 else 334;
    before + (if m > 2 && IsLeap(y) then 1 else 0)
  }

  /** `date.toordinal()`. */
  function Ordinal(d: Date): int
    requires Valid(d)
  {
    DaysBeforeYear(d.year) + DaysBeforeMonth(d.year, d.month) + d.day
  }

  /** The calendar's next day. */
  function NextDay(d: Date): Date
    requires Valid(d)
  {
    if d.day < DaysInMonth(d.year, d.month) then Date(d.year, d.month, d.day + 1)
    else if d.month < 12 then Date(d.year, d.month + 1, 1)
    else Date(d.year + 1, 1, 1)
  }

  /** Ordinals count days without gaps: the next day has the next ordinal, across months and years. */
  lemma NextDayOrdinal(d: Date)
    requires Valid(d) && d != Date(9999, 12, 31)
    ensures Valid(NextDay(d))
    ensures Ordinal(NextDay(d)) == Ordinal(d) + 1
  {
    if d.day == DaysInMonth(d.year, d.month) && d.month == 12 {
      YearLength(d.year);
    }
  }

  /** A year has 366 days when it is a leap year and 365 otherwise. */
  lemma YearLength(y: int)
    requires y >= 1
    ensures DaysBeforeYear(y + 1) == DaysBeforeYear(y) + (if IsLeap(y) then 366 else 365)
  {
    var p := y - 1;
    assert (p + 1) / 4 == p / 4 + (if y % 4 == 0 then 1 else 0);
    assert (p + 1) / 100 == p / 100 + (if y % 100 == 0 then 1 else 0);
    assert (p + 1) / 400 == p / 400 + (if y % 400 == 0 then 1 else 0);
  }

  lemma FirstDay()
    ensures Valid(Date(1, 1, 1)) && Ordinal(Date(1, 1, 1)) == 1
  {
  }

  // ---------------------------------------------------------------------------
  // Weekdays

  /** `date.weekday()`: Monday is 0 and Sunday 6; day 1 was a Monday. */
  function Weekday(ordinal: int): (w: int)
    ensures 0 <= w < 7
  {
    (ordinal + 6) % 7
  }

  /** `x - timedelta(days=x.weekday())`. */
  function WeekStart(ordinal: int): int {
    ordinal - Weekday(ordinal)
  }

  /** The week start is the Monday on or before the date, at most six days earlier, and the latest such Monday. */
  lemma WeekStartMonday(ordinal: int, monday: int)
    ensures Weekday(WeekStart(ordinal)) == 0
    ensures 0 <= ordinal - WeekStart(ordinal) <= 6
    ensures Weekday(monday) == 0 && monday <= ordinal ==> monday <= WeekStart(ordinal)
  {
    var w := WeekStart(ordinal);
    assert (w + 6) % 7 == 0 by {
      assert ordinal + 6 == 7 * ((ordinal + 6) / 7) + Weekday(ordinal);
      assert w + 6 == 7 * ((ordinal + 6) / 7);
    }
    if Weekday(monday) == 0 && monday <= ordinal {
      var k, q := (monday + 6) / 7, (ordinal + 6) / 7;
      assert monday + 6 == 7 * k;
      assert ordinal + 6 == 7 * q + Weekday(ordinal);
      assert k <= q;
    }
  }

  /** Two days share a week start exactly when they lie in the same Monday-to-Sunday week. */
  lemma SameWeek(a: int, b: int)
    ensures WeekStart(a) == WeekStart(b) <==> WeekStart(a) <= b < WeekStart(a) + 7
  {
    WeekStartMonday(a, WeekStart(b));
    WeekStartMonday(b, WeekStart(a));
  }

  // ---------------------------------------------------------------------------
  // pandas timestamps

  /** The first and last whole days a nanosecond pandas timestamp holds. */
  const MinDay: Date := Date(1677, 9, 22)
  const MaxDay: Date := Date(2262, 4, 11)

  predicate InBounds(ordinal: int) {
    Ordinal(MinDay) <= ordinal <= Ordinal(MaxDay)
  }

  /** The first representable day is a Wednesday, so its week start is not representable. */
  lemma FirstWeekOutOfBounds()
    ensures Ordinal(MinDay) == 612412 && Ordinal(MaxDay) == 825914
    ensures Weekday(Ordinal(MinDay)) == 2
    ensures !InBounds(WeekStart(Ordinal(MinDay)))
  {
  }

  // ---------------------------------------------------------------------------
  // Reading and writing '%Y-%m-%d'

  function Digit(c: char): int {
    c as int - '0' as int
  }

  /** The month token `1[0-2]|0[1-9]|[1-9]`, alternatives tried in order: its value and length. */
  function MonthToken(s: string): (r: Option<(int, nat)>)
    ensures r.Some? ==> 1 <= r.value.0 <= 12 && 1 <= r.value.1 <= |s|
  {
    if |s| >= 2 && s[0] == '1' && '0' <= s[1] <= '2' then Some((10 + Digit(s[1]), 2))
    else if |s| >= 2 && s[0] == '0' && '1' <= s[1] <= '9' then Some((Digit(s[1]), 2))
    else if |s| >= 1 && '1' <= s[0] <= '9' then Some((Digit(s[0]), 1))
    else None
  }

  /** The day token `3[01]|[12]\d|0[1-9]|[1-9]| [1-9]`, alternatives tried in order: its value and length. */
  function DayToken(s: string): (r: Option<(int, nat)>)
    ensures r.Some? ==> 1 <= r.value.0 <= 31 && 1 <= r.value.1 <= |s|
  {
    if |s| >= 2 && s[0] == '3' && (s[1] == '0' || s[1] == '1') then Some((30 + Digit(s[1]), 2))
    else if |s| >= 2 && (s[0] == '1' || s[0] == '2') && Numbers.IsDigit(s[1]) then Some((10 * Digit(s[0]) + Digit(s[1]), 2))
    else if |s| >= 2 && s[0] == '0' && '1' <= s[1] <= '9' then Some((Digit(s[1]), 2))
    else if |s| >= 1 && '1' <= s[0] <= '9' then Some((Digit(s[0]), 1))
    else if |s| >= 2 && s[0] == ' ' && '1' <= s[1] <= '9' then Some((Digit(s[1]), 2))
    else None
  }

  /**
    `datetime.strptime(text, '%Y-%m-%d')`: four digits, '-', a month token, '-', a day token
    and nothing after it, naming a valid date; anything else raises ValueError.
  */
  function ParseDate(text: string): (r: Option<Date>)
    ensures r.Some? ==> Valid(r.value)
  {
    if |text| < 5 || !Numbers.AllDigits(text[..4]) || text[4] != '-' then None
    else
      var year := 1000 * Digit(text[0]) + 100 * Digit(text[1]) + 10 * Digit(text[2]) + Digit(text[3]);
      match MonthToken(text[5..])
      case None => None
      case Some((month, monthLength)) =>
        var rest := text[5 + monthLength..];
        if |rest| == 0 || rest[0] != '-' then None
        else
          match DayToken(rest[1..])
          case None => None
          case Some((day, dayLength)) =>
            if dayLength != |rest| - 1 || !Valid(Date(year, month, day)) then None
            else Some(Date(year, month, day))
  }

  function Pad2(n: int): (s: string)
    requires 0 <= n < 100
    ensures |s| == 2
  {
    [Numbers.DigitChar(n / 10), Numbers.DigitChar(n % 10)]
  }

  function Pad4(n: int): (s: string)
    requires 0 <= n < 10000
    ensures |s| == 4
  {
    var a := n / 10;
    var b := a / 10;
    [Numbers.DigitChar(b / 10), Numbers.DigitChar(b % 10), Numbers.DigitChar(a % 10), Numbers.DigitChar(n % 10)]
  }

  /** `date.strftime('%Y-%m-%d')`, zero-padded. */
  function Format(d: Date): (s: string)
    requires Valid(d)
    ensures |s| == 10
  {
    Pad4(d.year) + "-" + Pad2(d.month) + "-" + Pad2(d.day)
  }

  /** Reading a written date gives the date back. */
  lemma ParseFormat(d: Date)
    requires Valid(d)
    ensures ParseDate(Format(d)) == Some(d)
  {
    var s := Format(d);
    var y, m, dd := Pad4(d.year), Pad2(d.month), Pad2(d.day);
    assert s == y + "-" + m + "-" + dd;
    assert s[..4] == y && s[4] == '-';
    YearDigits(d.year);
    assert s[0] == y[0] && s[1] == y[1] && s[2] == y[2] && s[3] == y[3];
    assert s[5..] == m + ("-" + dd);
    MonthPadded(d.month, "-" + dd);
    assert s[7..] == "-" + dd;
    assert ("-" + dd)[1..] == dd;
    assert dd + "" == dd;
    DayPadded(d.day, "");
  }

  lemma YearDigits(y: int)
    requires 0 <= y < 10000
    ensures Numbers.AllDigits(Pad4(y))
    ensures 1000 * Digit(Pad4(y)[0]) + 100 * Digit(Pad4(y)[1]) + 10 * Digit(Pad4(y)[2]) + Digit(Pad4(y)[3]) == y
  {
    var a := y / 10;
    var b := a / 10;
    assert b == 10 * (b / 10) + b % 10;
    assert a == 10 * b + a % 10;
    assert y == 10 * a + y % 10;
  }

  lemma MonthPadded(m: int, t: string)
    requires 1 <= m <= 12
    ensures MonthToken(Pad2(m) + t) == Some((m, 2))
  {
    var s := Pad2(m) + t;
    assert s[0] == Pad2(m)[0] && s[1] == Pad2(m)[1];
  }

  /** Single-digit months and days are accepted, and the date reads as written padded. */
  lemma ShortTokens(d: Date)
    requires Valid(d) && d.month < 10 && d.day < 10
    ensures ParseDate(Pad4(d.year) + "-" + [Numbers.DigitChar(d.month)] + "-" + [Numbers.DigitChar(d.day)]) == Some(d)
  {
    var y := Pad4(d.year);
    var s := y + "-" + [Numbers.DigitChar(d.month)] + "-" + [Numbers.DigitChar(d.day)];
    assert s[..4] == y && s[4] == '-';
    YearDigits(d.year);
    assert s[0] == y[0] && s[1] == y[1] && s[2] == y[2] && s[3] == y[3];
    assert s[5..] == [Numbers.DigitChar(d.month), '-', Numbers.DigitChar(d.day)];
    assert s[6..] == ['-', Numbers.DigitChar(d.day)];
  }

  /** Text after a two-digit day is refused. */
  lemma TrailingRefused(d: Date, t: string)
    requires Valid(d) && |t| > 0
    ensures ParseDate(Format(d) + t) == None
  {
    var s := Format(d) + t;
    var y, m, dd := Pad4(d.year), Pad2(d.month), Pad2(d.day);
    assert s == y + "-" + m + "-" + (dd + t);
    assert s[..4] == y && s[4] == '-';
    YearDigits(d.year);
    assert s[0] == y[0] && s[1] == y[1] && s[2] == y[2] && s[3] == y[3];
    assert s[5..] == m + ("-" + (dd + t));
    MonthPadded(d.month, "-" + (dd + t));
    assert s[7..] == "-" + (dd + t);
    assert ("-" + (dd + t))[1..] == dd + t;
    DayPadded(d.day, t);
  }

  /** Well-formed tokens naming a day the month does not have are refused. */
  lemma ImpossibleDayRefused(year: int, month: int, day: int)
    requires 1 <= year <= 9999 && 1 <= month <= 12 && 1 <= day <= 31
    requires !Valid(Date(year, month, day))
    ensures ParseDate(Pad4(year) + "-" + Pad2(month) + "-" + Pad2(day)) == None
  {
    var s := Pad4(year) + "-" + Pad2(month) + "-" + Pad2(day);
    var y, m, dd := Pad4(year), Pad2(month), Pad2(day);
    assert s[..4] == y && s[4] == '-';
    YearDigits(year);
    assert s[0] == y[0] && s[1] == y[1] && s[2] == y[2] && s[3] == y[3];
    assert s[5..] == m + ("-" + dd);
    MonthPadded(month, "-" + dd);
    assert s[7..] == "-" + dd;
    assert ("-" + dd)[1..] == dd;
    assert dd + "" == dd;
    DayPadded(day, "");
  }

  lemma DayPadded(d: int, t: string)
    requires 1 <= d <= 31
    ensures DayToken(Pad2(d) + t) == Some((d, 2))
  {
    var s := Pad2(d) + t;
    assert s[0] == Pad2(d)[0] && s[1] == Pad2(d)[1];
  }
}
