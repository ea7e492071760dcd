/** PHP's mktime() and date('YmdHis', ...) on the proleptic Gregorian
    calendar, with the clock taken to be UTC. */
module Calendar {
  import opened Text

  const SecondsPerDay: int := 86400

  predicate IsLeapYear(y: int) { y % 4 == 0 && (y % 100 != 0 || y % 400 == 0) }

  function YearLength(y: int): (n: int)
    ensures n == 365 || n == 366
  {
    if IsLeapYear(y) then 366 else 365
  }

  function MonthLength(y: int, m: int): (n: int)
    requires 1 <= m <= 12
    ensures 28 <= n <= 31
  {
    if m == 2 then (if IsLeapYear(y) then 29 else 28)
    else if m == 4 || m == 6 || m == 9 || m == 11 then 30
    else 31
  }

  /** Days from January 1st of year `y` to the first day of month `m`
      (m == 13 stands for the next January 1st). */
  function DaysBeforeMonth(y: int, m: int): int
    requires 1 <= m <= 13
  {
    if m == 1 then 0 else DaysBeforeMonth(y, m - 1) + MonthLength(y, m - 1)
  }

  /** Days from 1970-01-01 to January 1st of year `y` (negative before 1970). */
  function DaysBeforeYear(y: int): int
    decreases if y >= 1970 then y - 1970 else 1970 - y
  {
    if y == 1970 then 0
    else if y > 1970 then DaysBeforeYear(y - 1) + YearLength(y - 1)
    else DaysBeforeYear(y + 1) - YearLength(y)
  }

  lemma DaysBeforeYearStep(y: int)
    ensures DaysBeforeYear(y + 1) == DaysBeforeYear(y) + YearLength(y)
  {
  }

  lemma {:induction false} DaysBeforeYearMonotone(a: int, b: int)
    requires a <= b
    ensures DaysBeforeYear(a) <= DaysBeforeYear(b)
    ensures a < b ==> DaysBeforeYear(a + 1) <= DaysBeforeYear(b)
    decreases b - a
  {
    DaysBeforeYearStep(a);
    if a < b {
      DaysBeforeYearMonotone(a + 1, b);
    }
  }

  lemma DaysBeforeMonthsOfYear(y: int)
    ensures DaysBeforeMonth(y, 13) == YearLength(y)
  {
    assert DaysBeforeMonth(y, 2) == 31;
    assert DaysBeforeMonth(y, 3) == 31 + MonthLength(y, 2);
    assert DaysBeforeMonth(y, 4) == 62 + MonthLength(y, 2);
    assert DaysBeforeMonth(y, 5) == 92 + MonthLength(y, 2);
    assert DaysBeforeMonth(y, 6) == 123 + MonthLength(y, 2);
    assert DaysBeforeMonth(y, 7) == 153 + MonthLength(y, 2);
    assert DaysBeforeMonth(y, 8) == 184 + MonthLength(y, 2);
    assert DaysBeforeMonth(y, 9) == 215 + MonthLength(y, 2);
    assert DaysBeforeMonth(y, 10) == 245 + MonthLength(y, 2);
    assert DaysBeforeMonth(y, 11) == 276 + MonthLength(y, 2);
    assert DaysBeforeMonth(y, 12) == 306 + MonthLength(y, 2);
  }

  lemma {:induction false} DaysBeforeMonthMonotone(y: int, a: int, b: int)
    requires 1 <= a <= b <= 13
    ensures DaysBeforeMonth(y, a) <= DaysBeforeMonth(y, b)
    decreases b - a
  {
    if a < b {
      DaysBeforeMonthMonotone(y, a, b - 1);
    }
  }

  /** mktime($hour, $minute, $second, $month, $day, $year): years 0-69 mean
      2000-2069 and 70-100 mean 1970-2000; a month outside 1..12 carries into
      the year, and day, hour, minute and second outside their ranges carry
      into the next larger unit. */
  function MkTime(hour: int, minute: int, second: int, month: int, day: int, year: int): int
  {
    var y0 := if 0 <= year < 70 then year + 2000 else if 70 <= year <= 100 then year + 1900 else year;
    var y := y0 + (month - 1) / 12;
    var m := (month - 1) % 12 + 1;
    var days := DaysBeforeYear(y) + DaysBeforeMonth(y, m) + day - 1;
    days * SecondsPerDay + hour * 3600 + minute * 60 + second
  }

  /** _dateToTimestamp: cut YYYYMMDDHHMMSS into two-digit chunks; the first two
      chunks form the year, the rest are month, day, hour, minute and second. */
  function DateToTimestamp(date: string): int
    requires IsDate14(date)
  {
    MkTime(Number(date[8..10]), Number(date[10..12]), Number(date[12..14]),
           Number(date[4..6]), Number(date[6..8]), Number(date[0..4]))
  }

  /** A 14-digit date whose fields name a real instant, with a year mktime
      takes as written (above 100). */
  predicate IsCalendarDate(date: string)
    requires IsDate14(date)
  {
    var y, mo := Number(date[0..4]), Number(date[4..6]);
    && 101 <= y
    && 1 <= mo <= 12
    && 1 <= Number(date[6..8]) <= MonthLength(y, mo)
    && Number(date[8..10]) < 24
    && Number(date[10..12]) < 60
    && Number(date[12..14]) < 60
  }

  function YearUp(days: int, y: int): (r: int)
    requires DaysBeforeYear(y) <= days
    ensures DaysBeforeYear(r) <= days < DaysBeforeYear(r + 1)
    decreases days - DaysBeforeYear(y)
  {
    DaysBeforeYearStep(y);
    if days < DaysBeforeYear(y + 1) then y else YearUp(days, y + 1)
  }

  function YearDown(days: int, y: int): (r: int)
    requires days < DaysBeforeYear(y + 1)
    ensures DaysBeforeYear(r) <= days < DaysBeforeYear(r + 1)
    decreases DaysBeforeYear(y + 1) - days
  {
    DaysBeforeYearStep(y);
    if DaysBeforeYear(y) <= days then y else YearDown(days, y - 1)
  }

  /** The year holding the given day number (days since 1970-01-01). */
  function YearOfDay(days: int): (y: int)
    ensures DaysBeforeYear(y) <= days < DaysBeforeYear(y + 1)
  {
    if days >= 0 then YearUp(days, 1970) else YearDown(days, 1969)
  }

  /** Month and day of month of day `doy` (0-based) of year `y`, searching from month `m`. */
  function MonthOf(y: int, doy: int, m: int): (md: (int, int))
    requires 1 <= m <= 12 && DaysBeforeMonth(y, m) <= doy
    ensures m <= md.0 <= 12 && 1 <= md.1
    decreases 12 - m
  {
    if m == 12 || doy < DaysBeforeMonth(y, m + 1) then (m, doy - DaysBeforeMonth(y, m) + 1)
    else MonthOf(y, doy, m + 1)
  }

  /** Within the year, the day MonthOf finds lies inside its month. */
  lemma {:induction false} MonthOfInMonth(y: int, doy: int, m: int)
    requires 1 <= m <= 12 && DaysBeforeMonth(y, m) <= doy < DaysBeforeMonth(y, 12) + MonthLength(y, 12)
    ensures MonthOf(y, doy, m).1 <= MonthLength(y, MonthOf(y, doy, m).0)
    decreases 12 - m
  {
    if m < 12 && DaysBeforeMonth(y, m + 1) <= doy {
      MonthOfInMonth(y, doy, m + 1);
    }
  }

  /** date('Y'): at least four digits, '-' before years below zero. */
  function YearDigits(y: int): string
  {
    var n := if y < 0 then -y else y;
    var digits := if n <= 9999 then FixedDigits(n, 4) else Decimal(n);
    if y < 0 then "-" + digits else digits
  }

  /** The broken-down UTC time of a timestamp, as date() reads it. */
  datatype Instant = Instant(year: int, month: int, day: int, hour: int, minute: int, second: int)

  /** The calendar date of a day number (days since 1970-01-01). */
  function DateOfDay(days: int): (date: (int, int, int))
    ensures 1 <= date.1 <= 12 && 1 <= date.2
  {
    var y := YearOfDay(days);
    var md := MonthOf(y, days - DaysBeforeYear(y), 1);
    (y, md.0, md.1)
  }

  /** The day of the month found for a day number lies inside that month. */
  lemma DateOfDayInMonth(days: int)
    ensures var date := DateOfDay(days); date.2 <= MonthLength(date.0, date.1)
  {
    var y := YearOfDay(days);
    DaysBeforeYearStep(y);
    DaysBeforeMonthsOfYear(y);
    MonthOfInMonth(y, days - DaysBeforeYear(y), 1);
  }

  function InstantOf(ts: int): (t: Instant)
    ensures 1 <= t.month <= 12 && 1 <= t.day <= MonthLength(t.year, t.month)
    ensures 0 <= t.hour < 24 && 0 <= t.minute < 60 && 0 <= t.second < 60
  {
    DateOfDayInMonth(ts / SecondsPerDay);
    var date, secs := DateOfDay(ts / SecondsPerDay), ts % SecondsPerDay;
    Instant(date.0, date.1, date.2, secs / 3600, secs % 3600 / 60, secs % 60)
  }

  /** date('YmdHis', $ts). */
  function FormatYmdHis(ts: int): string
  {
    var t := InstantOf(ts);
    YearDigits(t.year) + FixedDigits(t.month, 2) + FixedDigits(t.day, 2)
      + FixedDigits(t.hour, 2) + FixedDigits(t.minute, 2) + FixedDigits(t.second, 2)
  }

  lemma {:induction false} MonthOfFinds(y: int, mo: int, d: int, m: int, doy: int)
    requires 1 <= m <= mo <= 12 && 1 <= d <= MonthLength(y, mo)
    requires doy == DaysBeforeMonth(y, mo) + d - 1
    ensures DaysBeforeMonth(y, m) <= doy && MonthOf(y, doy, m) == (mo, d)
    decreases mo - m
  {
    DaysBeforeMonthMonotone(y, m, mo);
    if m < mo {
      DaysBeforeMonthMonotone(y, m + 1, mo);
      MonthOfFinds(y, mo, d, m + 1, doy);
    }
  }

  lemma YearOfDayFinds(y: int, days: int)
    requires DaysBeforeYear(y) <= days < DaysBeforeYear(y) + YearLength(y)
    ensures YearOfDay(days) == y
  {
    var r := YearOfDay(days);
    DaysBeforeYearStep(y);
    if r < y {
      DaysBeforeYearMonotone(r, y);
    } else if y < r {
      DaysBeforeYearMonotone(y, r);
    }
  }

  lemma DayAndTime(days: int, h: int, mi: int, s: int)
    requires 0 <= h < 24 && 0 <= mi < 60 && 0 <= s < 60
    ensures var ts := days * SecondsPerDay + h * 3600 + mi * 60 + s;
      && ts / SecondsPerDay == days && ts % SecondsPerDay == h * 3600 + mi * 60 + s
  {
  }

  lemma ClockFields(h: int, mi: int, s: int)
    requires 0 <= h < 24 && 0 <= mi < 60 && 0 <= s < 60
    ensures var secs := h * 3600 + mi * 60 + s;
      && secs / 3600 == h && secs % 3600 / 60 == mi && secs % 60 == s
  {
  }

  /** date('YmdHis', mktime(...)) writes back the fields of a real instant
      whose year is taken as written. */
  lemma FormatMkTime(y: int, mo: int, d: int, h: int, mi: int, s: int)
    requires 101 <= y <= 9999 && 1 <= mo <= 12 && 1 <= d <= MonthLength(y, mo)
    requires 0 <= h < 24 && 0 <= mi < 60 && 0 <= s < 60
    ensures FormatYmdHis(MkTime(h, mi, s, mo, d, y))
      == FixedDigits(y, 4) + FixedDigits(mo, 2) + FixedDigits(d, 2)
         + FixedDigits(h, 2) + FixedDigits(mi, 2) + FixedDigits(s, 2)
  {
    var doy := DaysBeforeMonth(y, mo) + d - 1;
    var days := DaysBeforeYear(y) + doy;
    var secs := h * 3600 + mi * 60 + s;
    var ts := days * SecondsPerDay + secs;
    assert (mo - 1) / 12 == 0 && (mo - 1) % 12 + 1 == mo;
    assert MkTime(h, mi, s, mo, d, y) == ts;
    DayAndTime(days, h, mi, s);
    ClockFields(h, mi, s);
    DateOfDayFinds(y, mo, d, days);
    assert ts / SecondsPerDay == days && ts % SecondsPerDay == secs;
    assert InstantOf(ts) == Instant(y, mo, d, h, mi, s);
    assert YearDigits(y) == FixedDigits(y, 4);
  }

  lemma DayOfYearBounds(y: int, mo: int, d: int)
    requires 1 <= mo <= 12 && 1 <= d <= MonthLength(y, mo)
    ensures 0 <= DaysBeforeMonth(y, mo) + d - 1 < YearLength(y)
  {
    DaysBeforeMonthMonotone(y, 1, mo);
    DaysBeforeMonthMonotone(y, mo + 1, 13);
    DaysBeforeMonthsOfYear(y);
  }

  /** A real date's day number leads back to that date. */
  lemma DateOfDayFinds(y: int, mo: int, d: int, days: int)
    requires 1 <= mo <= 12 && 1 <= d <= MonthLength(y, mo)
    requires days == DaysBeforeYear(y) + DaysBeforeMonth(y, mo) + d - 1
    ensures DateOfDay(days) == (y, mo, d)
  {
    var doy := days - DaysBeforeYear(y);
    DayOfYearBounds(y, mo, d);
    YearOfDayFinds(y, days);
    MonthOfFinds(y, mo, d, 1, doy);
    DateOfDayInYear(y, days, doy);
  }

  lemma DateOfDayInYear(y: int, days: int, doy: int)
    requires YearOfDay(days) == y && doy == days - DaysBeforeYear(y)
    ensures DateOfDay(days) == (y, MonthOf(y, doy, 1).0, MonthOf(y, doy, 1).1)
  {
  }

  /** Formatting the timestamp of a calendar date with 'YmdHis' (as down does
      to find a migration's file) gives back the 14 digits it was parsed from. */
  lemma FormatInvertsDateToTimestamp(date: string)
    requires IsDate14(date) && IsCalendarDate(date)
    ensures FormatYmdHis(DateToTimestamp(date)) == date
  {
    var sy, smo, sd := date[0..4], date[4..6], date[6..8];
    var sh, smi, ss := date[8..10], date[10..12], date[12..14];
    NumberBelowPow10(sy);
    FormatMkTime(Number(sy), Number(smo), Number(sd), Number(sh), Number(smi), Number(ss));
    FixedDigitsOfNumber(sy);
    FixedDigitsOfNumber(smo);
    FixedDigitsOfNumber(sd);
    FixedDigitsOfNumber(sh);
    FixedDigitsOfNumber(smi);
    FixedDigitsOfNumber(ss);
    assert date[0..6] == sy + smo;
    assert date[0..8] == date[0..6] + sd;
    assert date[0..10] == date[0..8] + sh;
    assert date[0..12] == date[0..10] + smi;
    assert date[0..14] == date[0..12] + ss;
    assert date == date[0..14];
  }

  /** Distinct calendar dates get distinct timestamps, so a version names one
      migration date. */
  lemma DateToTimestampInjective(a: string, b: string)
    requires IsDate14(a) && IsCalendarDate(a)
    requires IsDate14(b) && IsCalendarDate(b)
    requires DateToTimestamp(a) == DateToTimestamp(b)
    ensures a == b
  {
    FormatInvertsDateToTimestamp(a);
    FormatInvertsDateToTimestamp(b);
  }
}
