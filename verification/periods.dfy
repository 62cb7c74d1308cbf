/** The calculator as one (unit, edge) table, and an independent reference
    definition of "the calendar period of a given unit that contains a
    wall-clock reading", against which the table is proved correct.
 */
module Periods {
  import opened Civil
  import opened Naive
  import opened Zoned
  import opened Wrappers
  import opened DateTimeNow

  datatype Unit = Minute | Hour | Day | Week | Month | Quarter | Year

  datatype Edge = Beginning | End

  /** The inputs on which chrono panics: the boundary's date falls outside `NaiveDate`'s range. */
  predicate Overflows(u: Unit, e: Edge, t: DateTime)
    requires ValidDateTime(t)
  {
    var d := t.local.date;
    match u
    case Week =>
      if e == Beginning then WeekStartDay(d) < EpochDay(Date(MinYear, 1, 1))
      else WeekStartDay(d) + 6 > EpochDay(Date(MaxYear, 12, 31))
    case Month => e == End && d.month == 12 && d.year == MaxYear
    case Quarter => e == End && d.month >= 10 && d.year == MaxYear
    case _ => false
  }

  /** `t.beginning_of_<unit>()` / `t.end_of_<unit>()`. */
  function Boundary(u: Unit, e: Edge, t: DateTime): (r: Result<DateTime, Error>)
    requires ValidDateTime(t)
    ensures r.Ok? <==> !Overflows(u, e, t)
    ensures r.Ok? ==> ValidDateTime(r.value) && r.value.offset == t.offset
  {
    match (u, e)
    case (Minute, Beginning) => Ok(BeginningOfMinute(t))
    case (Hour, Beginning) => Ok(BeginningOfHour(t))
    case (Day, Beginning) => Ok(BeginningOfDay(t))
    case (Week, Beginning) => BeginningOfWeek(t)
    case (Month, Beginning) => Ok(BeginningOfMonth(t))
    case (Quarter, Beginning) => Ok(BeginningOfQuarter(t))
    case (Year, Beginning) => Ok(BeginningOfYear(t))
    case (Minute, End) => Ok(EndOfMinute(t))
    case (Hour, End) => Ok(EndOfHour(t))
    case (Day, End) => Ok(EndOfDay(t))
    case (Week, End) => EndOfWeek(t)
    case (Month, End) => EndOfMonth(t)
    case (Quarter, End) => EndOfQuarter(t)
    case (Year, End) => Ok(EndOfYear(t))
  }

  /** Reference definition: `a` and `b` lie in the same calendar period of unit `u`
      (ISO weeks, Monday first; quarters January-March, April-June, ...). */
  predicate SamePeriod(u: Unit, a: NaiveDateTime, b: NaiveDateTime)
    requires Valid(a) && Valid(b)
  {
    match u
    case Minute => a.date == b.date && a.hour == b.hour && a.minute == b.minute
    case Hour => a.date == b.date && a.hour == b.hour
    case Day => a.date == b.date
    case Week => WeekStartDay(a.date) == WeekStartDay(b.date)
    case Month => a.date.year == b.date.year && a.date.month == b.date.month
    case Quarter => a.date.year == b.date.year && (a.date.month - 1) / 3 == (b.date.month - 1) / 3
    case Year => a.date.year == b.date.year
  }

  /** Length in nanoseconds of the period of unit `u` that contains `b`. */
  function PeriodNanos(u: Unit, b: NaiveDateTime): int
    requires Valid(b)
  {
    var y, m := b.date.year, b.date.month;
    match u
    case Minute => NanosPerMinute
    case Hour => NanosPerHour
    case Day => NanosPerDay
    case Week => 7 * NanosPerDay
    case Month => DaysInMonth(y, m) * NanosPerDay
    case Quarter =>
      var q := QuarterFirstMonth(m);
      (DaysInMonth(y, q) + DaysInMonth(y, q + 1) + DaysInMonth(y, q + 2)) * NanosPerDay
    case Year => DaysInYear(y) * NanosPerDay
  }
}
