/** The calendar arithmetic the connector takes from luxon, in local time: dates,
    wall-clock date-times, adding days, the start of a month, the instant a
    date-time stands for, the `toFixed(2)` rounding of a duration in hours, and
    the string forms `yyyy-MM-dd` and `String(hours)`. */
module Calendar {
  import opened Seqs
  import opened Decimal

  const MillisPerDay: nat := 86400000
  /** One hundredth of an hour. */
  const MillisPerHundredth: nat := 36000

  /** A calendar date (a Redmine `spent_on`). */
  datatype Date = Date(year: nat, month: nat, day: nat)

  /** A local wall-clock date-time: a date and the milliseconds since its midnight. */
  datatype DateTime = DateTime(date: Date, millis: nat)

  predicate IsLeapYear(y: nat)
  {
    y % 4 == 0 && (y % 100 != 0 || y % 400 == 0)
  }

  function DaysInYear(y: nat): nat
  {
    if IsLeapYear(y) then 366 else 365
  }

  function DaysInMonth(y: nat, m: nat): nat
  {
    if m == 2 then (if IsLeapYear(y) then 29 else 28)
    else if m == 4 || m == 6 || m == 9 || m == 11 then 30
    else 31
  }

  predicate ValidDate(d: Date)
  {
    1 <= d.year && 1 <= d.month <= 12 && 1 <= d.day <= DaysInMonth(d.year, d.month)
  }

  predicate ValidDateTime(t: DateTime)
  {
    ValidDate(t.date) && t.millis < MillisPerDay
  }

  /** Calendar order of dates. */
  predicate DateBefore(a: Date, b: Date)
  {
    a.year < b.year ||
    (a.year == b.year && (a.month < b.month || (a.month == b.month && a.day < b.day)))
  }

  /** Order of date-times (luxon's `<` and `>` on DateTime values). */
  predicate DateTimeBefore(a: DateTime, b: DateTime)
  {
    DateBefore(a.date, b.date) || (a.date == b.date && a.millis < b.millis)
  }

  /** The following calendar day. */
  function NextDay(d: Date): Date
  {
    if d.day < DaysInMonth(d.year, d.month) then Date(d.year, d.month, d.day + 1)
    else if d.month < 12 then Date(d.year, d.month + 1, 1)
    else Date(d.year + 1, 1, 1)
  }

  /** luxon's `plus({days: n})` on a date: `n` calendar days later. */
  function PlusDays(d: Date, n: nat): Date
    decreases n
  {
    if n == 0 then d else PlusDays(NextDay(d), n - 1)
  }

  /** luxon's `startOf('month')`: midnight of the first day of the month. */
  function StartOfMonth(t: DateTime): DateTime
  {
    DateTime(Date(t.date.year, t.date.month, 1), 0)
  }

  /** A date read as a date-time (`DateTime.fromISO("yyyy-MM-dd")`): its midnight. */
  function AtMidnight(d: Date): DateTime
  {
    DateTime(d, 0)
  }

  // ---------------------------------------------------------------------------
  // Counting days: the independent, linear view of the calendar
  // ---------------------------------------------------------------------------

  /** Days in the years before year `y`, counting from 1 January of year 1. */
  function DaysBeforeYear(y: nat): nat
  {
    if y <= 1 then 0 else DaysBeforeYear(y - 1) + DaysInYear(y - 1)
  }

  /** Days in the months of year `y` before month `m`. */
  function DaysBeforeMonth(y: nat, m: nat): nat
  {
    var leap := if IsLeapYear(y) && m > 2 then 1 else 0;
    leap + (if m <= 1 then 0 else if m == 2 then 31 else if m == 3 then 59
            else if m == 4 then 90 else if m == 5 then 120 else if m == 6 then 151
            else if m == 7 then 181 else if m == 8 then 212 else if m == 9 then 243
            else if m == 10 then 273 else if m == 11 then 304 else 334)
  }

  /** The number of days from 1 January of year 1 to `d`. */
  function DayNumber(d: Date): int
  {
    DaysBeforeYear(d.year) + DaysBeforeMonth(d.year, d.month) + d.day - 1
  }

  /** The instant a local date-time stands for, in milliseconds (luxon's `valueOf()`
      with the time zone left out). */
  function EpochMillis(t: DateTime): int
  {
    DayNumber(t.date) * MillisPerDay + t.millis
  }

  lemma MonthsAddUp(y: nat, m: nat)
    requires 1 <= m <= 12
    ensures m < 12 ==> DaysBeforeMonth(y, m + 1) == DaysBeforeMonth(y, m) + DaysInMonth(y, m)
    ensures m == 12 ==> DaysBeforeMonth(y, m) + DaysInMonth(y, m) == DaysInYear(y)
  {
  }

  /** The day after a valid date is valid and has the next day number. */
  lemma NextDayCounts(d: Date)
    requires ValidDate(d)
    ensures ValidDate(NextDay(d)) && DayNumber(NextDay(d)) == DayNumber(d) + 1
  {
    MonthsAddUp(d.year, d.month);
  }

  /** Adding `n` days moves the day number by `n`. */
  lemma {:induction false} PlusDaysCounts(d: Date, n: nat)
    requires ValidDate(d)
    ensures ValidDate(PlusDays(d, n)) && DayNumber(PlusDays(d, n)) == DayNumber(d) + n
    decreases n
  {
    if n > 0 {
      NextDayCounts(d);
      PlusDaysCounts(NextDay(d), n - 1);
    }
  }

  lemma {:induction false} YearsIncrease(a: nat, b: nat)
    requires 1 <= a <= b
    ensures DaysBeforeYear(a) + (if a < b then DaysInYear(a) else 0) <= DaysBeforeYear(b)
    decreases b - a
  {
    if a < b {
      YearsIncrease(a + 1, b);
    }
  }

  /** A valid date's day number lies inside its year. */
  lemma DayNumberInYear(d: Date)
    requires ValidDate(d)
    ensures DaysBeforeYear(d.year) <= DayNumber(d) < DaysBeforeYear(d.year) + DaysInYear(d.year)
  {
    MonthsAddUp(d.year, d.month);
    assert DaysBeforeMonth(d.year, d.month) + DaysInMonth(d.year, d.month) <= DaysInYear(d.year);
  }

  lemma MonthsIncrease(y: nat, a: nat, b: nat)
    requires 1 <= a < b <= 12
    ensures DaysBeforeMonth(y, a) + DaysInMonth(y, a) <= DaysBeforeMonth(y, b)
  {
  }

  /** Calendar order of valid dates is the order of their day numbers. */
  lemma DateBeforeIffEarlierDay(a: Date, b: Date)
    requires ValidDate(a) && ValidDate(b)
    ensures DateBefore(a, b) <==> DayNumber(a) < DayNumber(b)
  {
    DayNumberInYear(a);
    DayNumberInYear(b);
    if a.year < b.year {
      YearsIncrease(a.year, b.year);
    } else if b.year < a.year {
      YearsIncrease(b.year, a.year);
    } else if a.month < b.month {
      MonthsIncrease(a.year, a.month, b.month);
    } else if b.month < a.month {
      MonthsIncrease(a.year, b.month, a.month);
    }
  }

  /** Order of valid date-times is the order of the instants they stand for. */
  lemma DateTimeBeforeIffEarlier(a: DateTime, b: DateTime)
    requires ValidDateTime(a) && ValidDateTime(b)
    ensures DateTimeBefore(a, b) <==> EpochMillis(a) < EpochMillis(b)
  {
    DateBeforeIffEarlierDay(a.date, b.date);
    DateBeforeIffEarlierDay(b.date, a.date);
    if a.date != b.date {
      assert DateBefore(a.date, b.date) || DateBefore(b.date, a.date);
    }
  }

  // ---------------------------------------------------------------------------
  // Hours
  // ---------------------------------------------------------------------------

  /** `Number(hours.toFixed(2))` for a duration of `ms` milliseconds, in hundredths of
      an hour: the nearest hundredth, halves rounded away from zero. */
  function RoundToHundredths(ms: int): (h: int)
    ensures ms >= 0 ==> h * MillisPerHundredth - 18000 <= ms < h * MillisPerHundredth + 18000
    ensures ms < 0 ==> h * MillisPerHundredth - 18000 < ms <= h * MillisPerHundredth + 18000
  {
    if ms >= 0 then (ms + 18000) / MillisPerHundredth
    else -((18000 - ms) / MillisPerHundredth)
  }

  /** The rounding treats a negative duration as the mirror of the positive one. */
  lemma RoundingIsSymmetric(ms: int)
    ensures RoundToHundredths(-ms) == -RoundToHundredths(ms)
  {
  }

  /** The hours of a Toggl entry: the rounded length of the interval from `start` to `end`. */
  function HoursBetween(start: DateTime, end: DateTime): int
  {
    RoundToHundredths(EpochMillis(end) - EpochMillis(start))
  }

  // ---------------------------------------------------------------------------
  // String forms
  // ---------------------------------------------------------------------------

  /** luxon's `toFormat('yyyy-MM-dd')`, which is also how Redmine reports `spent_on`. */
  function FormatDate(d: Date): string
  {
    PadLeft(NatToString(d.year), 4) + "-" + PadLeft(NatToString(d.month), 2) + "-" +
    PadLeft(NatToString(d.day), 2)
  }

  /** The digits after the decimal point of `String(x)` for a number with `f`
      hundredths: none for a whole number, no trailing zero otherwise. */
  function FractionDigits(f: nat): string
    requires f < 100
  {
    if f == 0 then "" else if f % 10 == 0 then "." + [DigitChar(f / 10)]
    else "." + [DigitChar(f / 10), DigitChar(f % 10)]
  }

  /** `String(h / 100)` for an hour count of `h` hundredths: `250` gives `"2.5"`,
      `200` gives `"2"`, `-5` gives `"-0.05"`. */
  function HoursToString(h: int): string
  {
    if h < 0 then "-" + UnsignedHoursToString(-h) else UnsignedHoursToString(h)
  }

  function UnsignedHoursToString(a: nat): (r: string)
    ensures |r| > 0 && IsDigit(r[0])
  {
    NatToString(a / 100) + FractionDigits(a % 100)
  }

  lemma PaddedTwoDigits(n: nat)
    requires n < 100
    ensures |PadLeft(NatToString(n), 2)| == 2
    ensures AllDigits(PadLeft(NatToString(n), 2))
    ensures DecimalValue(PadLeft(NatToString(n), 2)) == n
  {
    ShortNumber(n);
    PaddedValue(NatToString(n), 2);
    DecimalRoundTrip(n);
  }

  lemma FormatDateParts(a: Date, b: Date)
    requires a.month < 100 && a.day < 100 && b.month < 100 && b.day < 100
    requires FormatDate(a) == FormatDate(b)
    ensures PadLeft(NatToString(a.year), 4) == PadLeft(NatToString(b.year), 4)
    ensures PadLeft(NatToString(a.month), 2) == PadLeft(NatToString(b.month), 2)
    ensures PadLeft(NatToString(a.day), 2) == PadLeft(NatToString(b.day), 2)
  {
    PaddedTwoDigits(a.month);
    PaddedTwoDigits(a.day);
    PaddedTwoDigits(b.month);
    PaddedTwoDigits(b.day);
    var ya, yb := PadLeft(NatToString(a.year), 4), PadLeft(NatToString(b.year), 4);
    var ma, mb := PadLeft(NatToString(a.month), 2), PadLeft(NatToString(b.month), 2);
    var da, db := PadLeft(NatToString(a.day), 2), PadLeft(NatToString(b.day), 2);
    ConcatCancel(ya + "-" + ma + "-", da, yb + "-" + mb + "-", db);
    ConcatCancel(ya + "-" + ma, "-", yb + "-" + mb, "-");
    ConcatCancel(ya + "-", ma, yb + "-", mb);
    ConcatCancel(ya, "-", yb, "-");
  }

  /** Dates with a two-digit month and day render differently when they differ, so
      comparing the `yyyy-MM-dd` strings compares the dates. */
  lemma FormatDateInjective(a: Date, b: Date)
    requires a.month < 100 && a.day < 100 && b.month < 100 && b.day < 100
    requires FormatDate(a) == FormatDate(b)
    ensures a == b
  {
    FormatDateParts(a, b);
    PaddedTwoDigits(a.month);
    PaddedTwoDigits(a.day);
    PaddedTwoDigits(b.month);
    PaddedTwoDigits(b.day);
    PaddedValue(NatToString(a.year), 4);
    PaddedValue(NatToString(b.year), 4);
    DecimalRoundTrip(a.year);
    DecimalRoundTrip(b.year);
  }

  lemma FractionDigitsInjective(f: nat, g: nat)
    requires f < 100 && g < 100 && FractionDigits(f) == FractionDigits(g)
    ensures f == g
  {
    var s := FractionDigits(f);
    if |s| == 2 {
      assert DigitValue(s[1]) == f / 10 == g / 10;
    } else if |s| == 3 {
      assert DigitValue(s[1]) == f / 10 == g / 10;
      assert DigitValue(s[2]) == f % 10 == g % 10;
    }
  }

  lemma UnsignedHoursInjective(a: nat, b: nat)
    requires UnsignedHoursToString(a) == UnsignedHoursToString(b)
    ensures a == b
  {
    var ia, ib := NatToString(a / 100), NatToString(b / 100);
    var fa, fb := FractionDigits(a % 100), FractionDigits(b % 100);
    DigitRunStopsAtNonDigit(ia, fa);
    DigitRunStopsAtNonDigit(ib, fb);
    DigitRunOfDigits(ia);
    DigitRunOfDigits(ib);
    ConcatCancel(ia, fa, ib, fb);
    NatToStringInjective(a / 100, b / 100);
    FractionDigitsInjective(a % 100, b % 100);
  }

  /** Different hour counts render differently, so comparing the strings compares the hours. */
  lemma HoursToStringInjective(h: int, k: int)
    requires HoursToString(h) == HoursToString(k)
    ensures h == k
  {
    var a: nat := if h < 0 then -h else h;
    var b: nat := if k < 0 then -k else k;
    var ua, ub := UnsignedHoursToString(a), UnsignedHoursToString(b);
    if h < 0 && k < 0 {
      ConcatCancel("-", ua, "-", ub);
      UnsignedHoursInjective(a, b);
    } else if h >= 0 && k >= 0 {
      UnsignedHoursInjective(a, b);
    } else {
      // a leading '-' on one side faces a digit on the other
      assert false;
    }
  }
}
