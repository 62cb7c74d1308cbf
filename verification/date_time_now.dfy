/** The calendar boundary calculator: the fourteen `beginning_of_*` /
    `end_of_*` operations of the `DateTimeNow` trait on a date-time in a
    fixed-offset zone (src/lib.rs:110-274).

    Each one reads the wall-clock fields, rebuilds a wall-clock reading with
    the finer fields truncated or saturated, and re-localises it in the
    input's own zone. Month and quarter ends are the first instant of the next
    period minus one nanosecond. Where chrono would panic (a date outside
    `NaiveDate`'s range) the operation returns `Err(OutOfRange)`.
 */
module DateTimeNow {
  import opened Civil
  import opened Naive
  import opened Zoned
  import opened Wrappers

  /** First month of the quarter holding month `m` (a reference definition;
      `beginning_of_quarter` and `end_of_quarter` pick it by match arms). */
  function QuarterFirstMonth(m: int): int {
    3 * ((m - 1) / 3) + 1
  }

  // ---------------------------------------------------------------------------
  // Beginnings

  function BeginningOfMinute(t: DateTime): (r: DateTime)
    requires ValidDateTime(t)
    ensures ValidDateTime(r) && r.offset == t.offset
    ensures r.local.date == t.local.date
    ensures r.local.hour == t.local.hour && r.local.minute == t.local.minute
    ensures r.local.second == 0 && r.local.nano == 0
    ensures Timestamp(r) == Timestamp(t) - (t.local.second * NanosPerSecond + t.local.nano)
  {
    var l := t.local;
    FromLocalDatetime(t.offset, NaiveDateTime(l.date, l.hour, l.minute, 0, 0))
  }

  function BeginningOfHour(t: DateTime): (r: DateTime)
    requires ValidDateTime(t)
    ensures ValidDateTime(r) && r.offset == t.offset
    ensures r.local.date == t.local.date && r.local.hour == t.local.hour
    ensures r.local.minute == 0 && r.local.second == 0 && r.local.nano == 0
    ensures Timestamp(r) == Timestamp(t) -
      (t.local.minute * NanosPerMinute + t.local.second * NanosPerSecond + t.local.nano)
  {
    var l := t.local;
    FromLocalDatetime(t.offset, NaiveDateTime(l.date, l.hour, 0, 0, 0))
  }

  function BeginningOfDay(t: DateTime): (r: DateTime)
    requires ValidDateTime(t)
    ensures ValidDateTime(r) && r.offset == t.offset
    ensures r.local == Midnight(t.local.date)
    ensures Timestamp(r) == Timestamp(t) - TimeOfDay(t.local)
  {
    FromLocalDatetime(t.offset, Midnight(t.local.date))
  }

  /** Steps back `number_from_monday - 1` days, then takes that day's midnight. */
  function BeginningOfWeek(t: DateTime): (r: Result<DateTime, Error>)
    requires ValidDateTime(t)
    ensures r.Ok? <==> EpochDay(Date(MinYear, 1, 1)) <= WeekStartDay(t.local.date)
    ensures r.Ok? ==> ValidDateTime(r.value) && r.value.offset == t.offset
    ensures r.Ok? ==> Weekday(r.value.local.date) == 1 && r.value.local == Midnight(r.value.local.date)
    ensures r.Ok? ==> EpochDay(r.value.local.date) == WeekStartDay(t.local.date)
    ensures r.Ok? ==> (Timestamp(r.value) ==
      Timestamp(t) - (Weekday(t.local.date) - 1) * NanosPerDay - TimeOfDay(t.local))
  {
    var precDay := Weekday(t.local.date) - 1;
    MondayOfWeek(t.local.date);
    match MinusDays(t, precDay)
    case Err(e) => Err(e)
    case Ok(time) => Ok(FromLocalDatetime(t.offset, Midnight(time.local.date)))
  }

  function BeginningOfMonth(t: DateTime): (r: DateTime)
    requires ValidDateTime(t)
    ensures ValidDateTime(r) && r.offset == t.offset
    ensures r.local == Midnight(Date(t.local.date.year, t.local.date.month, 1))
    ensures Timestamp(r) == Timestamp(t) - (t.local.date.day - 1) * NanosPerDay - TimeOfDay(t.local)
  {
    var l := t.local;
    FromLocalDatetime(t.offset, Midnight(Date(l.date.year, l.date.month, 1)))
  }

  function BeginningOfQuarter(t: DateTime): (r: DateTime)
    requires ValidDateTime(t)
    ensures ValidDateTime(r) && r.offset == t.offset
    ensures r.local == Midnight(Date(t.local.date.year, QuarterFirstMonth(t.local.date.month), 1))
    ensures r.local.date.month <= t.local.date.month < r.local.date.month + 3
  {
    var l := t.local;
    var month :=
      if 1 <= l.date.month <= 3 then 1
      else if 4 <= l.date.month <= 6 then 4
      else if 7 <= l.date.month <= 9 then 7
      else 10;
    FromLocalDatetime(t.offset, Midnight(Date(l.date.year, month, 1)))
  }

  function BeginningOfYear(t: DateTime): (r: DateTime)
    requires ValidDateTime(t)
    ensures ValidDateTime(r) && r.offset == t.offset
    ensures r.local == Midnight(Date(t.local.date.year, 1, 1))
    ensures Timestamp(r) == Timestamp(t) -
      (DaysBeforeMonth(t.local.date.year, t.local.date.month) + t.local.date.day - 1) * NanosPerDay
      - TimeOfDay(t.local)
  {
    var y := t.local.date.year;
    var k := DaysBeforeMonth(y, t.local.date.month) + t.local.date.day - 1;
    assert EpochDay(t.local.date) == EpochDay(Date(y, 1, 1)) + k;
    assert LocalNanos(t.local) == LocalNanos(Midnight(Date(y, 1, 1))) + k * NanosPerDay + TimeOfDay(t.local);
    FromLocalDatetime(t.offset, Midnight(Date(y, 1, 1)))
  }

  // ---------------------------------------------------------------------------
  // Ends

  function EndOfMinute(t: DateTime): (r: DateTime)
    requires ValidDateTime(t)
    ensures ValidDateTime(r) && r.offset == t.offset
    ensures r.local.date == t.local.date
    ensures r.local.hour == t.local.hour && r.local.minute == t.local.minute
    ensures r.local.second == 59 && r.local.nano == LastNano
    ensures Timestamp(r) == Timestamp(t) + (59 - t.local.second) * NanosPerSecond + (LastNano - t.local.nano)
  {
    var l := t.local;
    FromLocalDatetime(t.offset, NaiveDateTime(l.date, l.hour, l.minute, 59, LastNano))
  }

  function EndOfHour(t: DateTime): (r: DateTime)
    requires ValidDateTime(t)
    ensures ValidDateTime(r) && r.offset == t.offset
    ensures r.local.date == t.local.date && r.local.hour == t.local.hour
    ensures r.local.minute == 59 && r.local.second == 59 && r.local.nano == LastNano
    ensures Timestamp(r) == Timestamp(t) + (59 - t.local.minute) * NanosPerMinute
      + (59 - t.local.second) * NanosPerSecond + (LastNano - t.local.nano)
  {
    var l := t.local;
    FromLocalDatetime(t.offset, NaiveDateTime(l.date, l.hour, 59, 59, LastNano))
  }

  function EndOfDay(t: DateTime): (r: DateTime)
    requires ValidDateTime(t)
    ensures ValidDateTime(r) && r.offset == t.offset
    ensures r.local == LastInstant(t.local.date)
    ensures Timestamp(r) == Timestamp(t) + (NanosPerDay - 1 - TimeOfDay(t.local))
  {
    FromLocalDatetime(t.offset, LastInstant(t.local.date))
  }

  /** Steps forward `7 - number_from_monday` days, then takes that day's last nanosecond. */
  function EndOfWeek(t: DateTime): (r: Result<DateTime, Error>)
    requires ValidDateTime(t)
    ensures r.Ok? <==> WeekStartDay(t.local.date) + 6 <= EpochDay(Date(MaxYear, 12, 31))
    ensures r.Ok? ==> ValidDateTime(r.value) && r.value.offset == t.offset
    ensures r.Ok? ==> Weekday(r.value.local.date) == 7 && r.value.local == LastInstant(r.value.local.date)
    ensures r.Ok? ==> EpochDay(r.value.local.date) == WeekStartDay(t.local.date) + 6
    ensures r.Ok? ==> (Timestamp(r.value) ==
      Timestamp(t) + (7 - Weekday(t.local.date)) * NanosPerDay + (NanosPerDay - 1 - TimeOfDay(t.local)))
  {
    var succDay := 7 - Weekday(t.local.date);
    SundayOfWeek(t.local.date);
    match PlusDays(t, succDay)
    case Err(e) => Err(e)
    case Ok(time) => Ok(FromLocalDatetime(t.offset, LastInstant(time.local.date)))
  }

  /** The first instant of the next month, minus one nanosecond. */
  function EndOfMonth(t: DateTime): (r: Result<DateTime, Error>)
    requires ValidDateTime(t)
    ensures r.Ok? <==> !(t.local.date.month == 12 && t.local.date.year == MaxYear)
    ensures r.Ok? ==> ValidDateTime(r.value) && r.value.offset == t.offset
    ensures r.Ok? ==> r.value.local == LastInstant(
      Date(t.local.date.year, t.local.date.month,
           DaysInMonth(t.local.date.year, t.local.date.month)))
  {
    var l := t.local;
    var (year, month) :=
      if l.date.month == 12 then (l.date.year + 1, 1) else (l.date.year, l.date.month + 1);
    match FromYmd(year, month, 1)
    case None => Err(OutOfRange)
    case Some(d) => MinusNanosecond(FromLocalDatetime(t.offset, Midnight(d)))
  }

  /** The first instant of the next quarter, minus one nanosecond. */
  function EndOfQuarter(t: DateTime): (r: Result<DateTime, Error>)
    requires ValidDateTime(t)
    ensures r.Ok? <==> !(t.local.date.month >= 10 && t.local.date.year == MaxYear)
    ensures r.Ok? ==> ValidDateTime(r.value) && r.value.offset == t.offset
    ensures r.Ok? ==> r.value.local == LastInstant(
      Date(t.local.date.year, QuarterFirstMonth(t.local.date.month) + 2,
           DaysInMonth(t.local.date.year, QuarterFirstMonth(t.local.date.month) + 2)))
  {
    var l := t.local;
    var (year, month) :=
      if 1 <= l.date.month <= 3 then (l.date.year, 4)
      else if 4 <= l.date.month <= 6 then (l.date.year, 7)
      else if 7 <= l.date.month <= 9 then (l.date.year, 10)
      else (l.date.year + 1, 1);
    match FromYmd(year, month, 1)
    case None => Err(OutOfRange)
    case Some(d) => MinusNanosecond(FromLocalDatetime(t.offset, Midnight(d)))
  }

  function EndOfYear(t: DateTime): (r: DateTime)
    requires ValidDateTime(t)
    ensures ValidDateTime(r) && r.offset == t.offset
    ensures r.local == LastInstant(Date(t.local.date.year, 12, 31))
    ensures Timestamp(r) == Timestamp(t) +
      (DaysInYear(t.local.date.year) - DaysBeforeMonth(t.local.date.year, t.local.date.month)
       - t.local.date.day) * NanosPerDay + (NanosPerDay - 1 - TimeOfDay(t.local))
  {
    var y := t.local.date.year;
    LastMonth(y);
    var k := DaysInYear(y) - DaysBeforeMonth(y, t.local.date.month) - t.local.date.day;
    assert EpochDay(Date(y, 12, 31)) == EpochDay(t.local.date) + k;
    assert LocalNanos(LastInstant(Date(y, 12, 31))) ==
      LocalNanos(t.local) + k * NanosPerDay + (NanosPerDay - 1 - TimeOfDay(t.local));
    FromLocalDatetime(t.offset, LastInstant(Date(y, 12, 31)))
  }
}
