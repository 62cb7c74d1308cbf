/** Concrete readings in the UTC+8 zone the crate's own tests use
    (`FixedOffset::east(60 * 60 * 8)`), worked through the model.
 */
module Scenarios {
  import opened Civil
  import opened Naive
  import opened Zoned
  import opened Wrappers
  import opened DateTimeNow

  const Utc8: FixedOffset := FixedOffset(8 * 3600)

  function At(y: int, mo: int, d: int, h: int, mi: int, s: int, ns: int): DateTime {
    DateTime(NaiveDateTime(Date(y, mo, d), h, mi, s, ns), Utc8)
  }

  /** `end_of_day` in UTC+8 lands on 23:59:59 of the same local day, whatever the reading. */
  lemma EndOfDayInUtc8(t: DateTime)
    requires ValidDateTime(t) && t.offset == Utc8
    ensures var r := EndOfDay(t);
      r.local.hour == 23 && r.local.minute == 59 && r.local.second == 59
      && r.local.date == t.local.date && r.offset == Utc8
  {
  }

  /** 2023-03-15 is a Wednesday: its week runs from Monday the 13th to Sunday the 19th. */
  lemma WeekOfMarch15()
    ensures Weekday(Date(2023, 3, 15)) == 3
    ensures BeginningOfWeek(At(2023, 3, 15, 10, 30, 45, 123456789)) ==
      Ok(At(2023, 3, 13, 0, 0, 0, 0))
    ensures EndOfWeek(At(2023, 3, 15, 10, 30, 45, 123456789)) ==
      Ok(At(2023, 3, 19, 23, 59, 59, LastNano))
  {
    var t := At(2023, 3, 15, 10, 30, 45, 123456789);
    assert EpochDay(Date(2023, 3, 15)) == 19431;
    assert SubDays(Date(2023, 3, 15), 2) == Date(2023, 3, 13);
    assert AddDays(Date(2023, 3, 15), 4) == Date(2023, 3, 19);
  }

  /** December's month and quarter both end on New Year's Eve, across the year rollover. */
  lemma DecemberEnds()
    ensures EndOfMonth(At(2023, 12, 15, 0, 0, 0, 0)) == Ok(At(2023, 12, 31, 23, 59, 59, LastNano))
    ensures EndOfQuarter(At(2023, 12, 15, 0, 0, 0, 0)) == Ok(At(2023, 12, 31, 23, 59, 59, LastNano))
  {
  }

  /** February of the leap year 2024 ends on the 29th. */
  lemma LeapFebruaryEnd()
    ensures EndOfMonth(At(2024, 2, 10, 0, 0, 0, 0)) == Ok(At(2024, 2, 29, 23, 59, 59, LastNano))
  {
  }

  /** The last hour of 2023 still belongs to 2023. */
  lemma YearOfNewYearsEve()
    ensures BeginningOfYear(At(2023, 12, 31, 23, 0, 0, 0)) == At(2023, 1, 1, 0, 0, 0, 0)
    ensures EndOfYear(At(2023, 12, 31, 23, 0, 0, 0)) == At(2023, 12, 31, 23, 59, 59, LastNano)
  {
  }

  /** At the top of chrono 0.4.19's range the month and quarter ends have no next
      period to subtract from, so they report instead of panicking. */
  lemma OverflowAtMaxYear()
    ensures EndOfMonth(At(MaxYear, 12, 1, 0, 0, 0, 0)) == Err(OutOfRange)
    ensures EndOfQuarter(At(MaxYear, 11, 1, 0, 0, 0, 0)) == Err(OutOfRange)
    ensures EndOfMonth(At(MaxYear, 11, 1, 0, 0, 0, 0)).Ok?
  {
  }

  /** The first date of chrono 0.4.19, -262144-01-01, is a Tuesday: its week cannot be started. */
  lemma WeekBeforeFirstDate()
    ensures BeginningOfWeek(At(MinYear, 1, 1, 12, 0, 0, 0)) == Err(OutOfRange)
  {
    assert DaysBeforeYear(MinYear) == -95746496;
    assert EpochDay(Date(MinYear, 1, 1)) == -96465658;
    assert Weekday(Date(MinYear, 1, 1)) == 2;
  }

  /** The last date of chrono 0.4.19, 262143-12-31, is a Tuesday too: its week cannot be completed. */
  lemma WeekAfterLastDate()
    ensures EndOfWeek(At(MaxYear, 12, 31, 12, 0, 0, 0)) == Err(OutOfRange)
  {
    assert DaysBeforeYear(MaxYear) == 95745399;
    assert EpochDay(Date(MaxYear, 12, 31)) == 95026601;
    assert Weekday(Date(MaxYear, 12, 31)) == 2;
  }
}
