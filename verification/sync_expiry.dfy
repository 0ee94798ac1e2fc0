/** The edit freeze on last month's entries: once the current month is more than
    `lastMonthSyncExpiryDays` days old, an entry dated before the first of the
    month may no longer be created or changed. */
module SyncExpiry {
  import opened Calendar

  /** `isSpentOnViolatingLastMonthSyncExpiryDays`, with the current local time `now`
      passed in. */
  predicate IsSpentOnViolatingLastMonthSyncExpiryDays(spentOn: Date, lastMonthSyncExpiryDays: nat, now: DateTime)
  {
    var startOfMonth := StartOfMonth(now);
    var deadline := DateTime(PlusDays(startOfMonth.date, lastMonthSyncExpiryDays), startOfMonth.millis);
    DateTimeBefore(deadline, now) && DateTimeBefore(AtMidnight(spentOn), startOfMonth)
  }

  /** The first day of the month of `now`, by its day number. */
  function MonthStartDay(now: DateTime): int
  {
    DayNumber(StartOfMonth(now).date)
  }

  /** The rule on the linear time line: frozen exactly when `now` lies strictly after
      midnight `days` days past the first of the month, and `spentOn` lies on a day
      before the first of the month. */
  lemma FrozenIffDayCount(spentOn: Date, days: nat, now: DateTime)
    requires ValidDate(spentOn) && ValidDateTime(now)
    ensures IsSpentOnViolatingLastMonthSyncExpiryDays(spentOn, days, now) <==>
            (MonthStartDay(now) + days) * MillisPerDay < EpochMillis(now) &&
            DayNumber(spentOn) < MonthStartDay(now)
  {
    var som := StartOfMonth(now);
    var deadline := DateTime(PlusDays(som.date, days), 0);
    PlusDaysCounts(som.date, days);
    DateTimeBeforeIffEarlier(deadline, now);
    DateTimeBeforeIffEarlier(AtMidnight(spentOn), som);
  }

  /** A date on or after the first of the current month is never frozen. */
  lemma CurrentMonthNeverFrozen(spentOn: Date, days: nat, now: DateTime)
    requires ValidDate(spentOn) && ValidDateTime(now)
    requires MonthStartDay(now) <= DayNumber(spentOn)
    ensures !IsSpentOnViolatingLastMonthSyncExpiryDays(spentOn, days, now)
  {
    FrozenIffDayCount(spentOn, days, now);
  }

  /** Nothing is frozen while `now` is no later than `days` days after the start of
      the month. */
  lemma NothingFrozenInGracePeriod(spentOn: Date, days: nat, now: DateTime)
    requires ValidDate(spentOn) && ValidDateTime(now)
    requires EpochMillis(now) <= (MonthStartDay(now) + days) * MillisPerDay
    ensures !IsSpentOnViolatingLastMonthSyncExpiryDays(spentOn, days, now)
  {
    FrozenIffDayCount(spentOn, days, now);
  }

  /** In calendar terms: on day `d` of the month, with `d <= days`, nothing is frozen. */
  lemma NothingFrozenInFirstDays(spentOn: Date, days: nat, now: DateTime)
    requires ValidDate(spentOn) && ValidDateTime(now)
    requires now.date.day <= days
    ensures !IsSpentOnViolatingLastMonthSyncExpiryDays(spentOn, days, now)
  {
    assert DayNumber(now.date) == MonthStartDay(now) + now.date.day - 1;
    NothingFrozenInGracePeriod(spentOn, days, now);
  }

  /** Once the grace day is over (day `d` with `d > days + 1`), every date of an
      earlier month is frozen. */
  lemma EarlierMonthFrozenAfterGrace(spentOn: Date, days: nat, now: DateTime)
    requires ValidDate(spentOn) && ValidDateTime(now)
    requires now.date.day > days + 1
    requires DateBefore(spentOn, Date(now.date.year, now.date.month, 1))
    ensures IsSpentOnViolatingLastMonthSyncExpiryDays(spentOn, days, now)
  {
    assert DayNumber(now.date) == MonthStartDay(now) + now.date.day - 1;
    DateBeforeIffEarlierDay(spentOn, StartOfMonth(now).date);
    FrozenIffDayCount(spentOn, days, now);
  }

  /** The freeze only grows as time passes within a month. */
  lemma FreezeIsMonotone(spentOn: Date, days: nat, now: DateTime, later: DateTime)
    requires ValidDate(spentOn) && ValidDateTime(now) && ValidDateTime(later)
    requires StartOfMonth(now) == StartOfMonth(later) && EpochMillis(now) <= EpochMillis(later)
    requires IsSpentOnViolatingLastMonthSyncExpiryDays(spentOn, days, now)
    ensures IsSpentOnViolatingLastMonthSyncExpiryDays(spentOn, days, later)
  {
    FrozenIffDayCount(spentOn, days, now);
    FrozenIffDayCount(spentOn, days, later);
  }
}
