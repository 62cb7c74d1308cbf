# Calendar boundaries of the `now` crate, in Dafny

This project models the calendar boundary calculator of the Rust crate `now`
(Kilerd/now): the fourteen `beginning_of_*` / `end_of_*` methods that the
`DateTimeNow` trait adds to chrono's `DateTime<Tz>` (src/lib.rs:110-274).
Each method reads the local wall-clock fields (`naive_local()`), rebuilds a
wall-clock reading for one unit (minute, hour, day, ISO week, month, quarter or
year), with the finer fields zeroed for a beginning or saturated for an end, and
re-localises that reading in the input's own zone. Month and quarter ends are
"the first instant of the next period, minus one nanosecond", which covers both
the December to January rollover and the leap-year February.

Layout, one module per file:

- `wrappers.dfy` (`Wrappers`): `Option` and `Result`.

- `civil.dfy` (`Civil`): the proleptic Gregorian calendar. `EpochDay` numbers a
  date from 1970-01-01 (days from civil). `Weekday` gives chrono's
  `number_from_monday` (ISO 8601, Monday = 1). `NextDay`/`PrevDay`/`AddDays`/`SubDays`
  step the date. `FromYmd` is chrono's constructor `NaiveDate::from_ymd_opt`,
  taken as a definition over the year range -262144..262143 of chrono 0.4.19
  (`i32::MIN >> 13` to `i32::MAX >> 13`; later 0.4 releases narrow it by one
  year at each end). Every range end, "first date" and "last date" below
  refers to that release. The module also proves that `EpochDay` encodes the
  calendar order exactly, and that the year range is the day-number range
  from -262144-01-01 to 262143-12-31.
- `naive.dfy` (`Naive`): wall-clock date-times (`NaiveDateTime`), their
  nanosecond count `LocalNanos`, and the one-nanosecond and whole-day steps.
- `zoned.dfy` (`Zoned`): a date-time in a fixed-offset zone (`DateTime<FixedOffset>`)
  and its absolute `Timestamp`, in UTC nanoseconds. Also re-localisation
  (`FromLocalDatetime`) and the `Duration` arithmetic the calculator uses.
  Failures are reported as `Result`.
- `date_time_now.dfy` (`DateTimeNow`): the fourteen operations, each following
  its method in src/lib.rs branch for branch.
- `periods.dfy` (`Periods`): the operations as one `(unit, edge)` table
  (`Boundary`). Also an independent reference definition `SamePeriod` of "the
  period of a unit that contains a reading", and `PeriodNanos`, a period's length.
- `properties.dfy` (`Properties`): the theorems. Boundaries lie in their input's
  period and zone. A period is exactly the closed interval between its two
  boundaries, which gives ordering. A boundary depends only on the period, which
  gives idempotence. Each period has its exact length. The nanosecond after an
  end boundary begins the next period.
- `scenarios.dfy` (`Scenarios`): concrete readings in the UTC+8 zone of the
  crate's tests.

Where chrono would panic on a date outside `NaiveDate`'s range, the model
returns `Err(OutOfRange)` instead, so that the failing inputs appear in each
contract. That happens when `from_ymd` gets a year outside the range, or when
`DateTime ± Duration` leaves it. The model checks the range on local dates.
Away from the range ends, an operation fails in the model exactly where the
code would abort, and each operation's contract states that set of inputs.
Within one day of either range end the two can differ (see "Left out").

Time sources and zones are parameters: the input date-time is passed in, and
the zone is the `FixedOffset` it carries (the crate's tests use
`FixedOffset::east(60 * 60 * 8)`).

## Model

| member | source | states |
|---|---|---|
| DateTimeNow.BeginningOfMinute | src/lib.rs:113-122 | keeps the date, hour and minute and zeroes seconds and nanoseconds; the result is the input instant minus its sub-minute part, in the same zone |
| DateTimeNow.BeginningOfHour | src/lib.rs:124-133 | keeps the date and hour and zeroes the rest; the result is the input minus its minutes, seconds and nanoseconds |
| DateTimeNow.BeginningOfDay | src/lib.rs:135-144 | local midnight of the same date; the result is the input minus its time of day |
| DateTimeNow.BeginningOfWeek | src/lib.rs:146-157 | fails exactly when that week's Monday precedes chrono's first date; otherwise a Monday at midnight, on the week's first day, `number_from_monday - 1` days plus the time of day before the input |
| DateTimeNow.BeginningOfMonth | src/lib.rs:159-164 | the first of the same month at midnight; the input minus `day - 1` days and its time of day |
| DateTimeNow.BeginningOfQuarter | src/lib.rs:166-176 | the first day of the quarter's first month (1, 4, 7 or 10, i.e. `3*((m-1)/3)+1`) at midnight in the same year, a month at most two before the input's |
| DateTimeNow.BeginningOfYear | src/lib.rs:178-182 | January 1st of the same local year at midnight; the input minus its day of year and time of day |
| DateTimeNow.EndOfMinute | src/lib.rs:184-198 | keeps date, hour, minute; second 59 and nanosecond 999999999; the input plus what remains of its minute |
| DateTimeNow.EndOfHour | src/lib.rs:200-209 | keeps date and hour; 59:59.999999999; the input plus what remains of its hour |
| DateTimeNow.EndOfDay | src/lib.rs:211-220 | 23:59:59.999999999 of the same date; the input plus what remains of its day |
| DateTimeNow.EndOfWeek | src/lib.rs:222-233 | fails exactly when that week's Sunday is past chrono's last date; otherwise a Sunday at 23:59:59.999999999, six days after the week's Monday, `7 - number_from_monday` days plus the rest of the day after the input |
| DateTimeNow.EndOfMonth | src/lib.rs:235-251 | fails exactly for December of chrono's last year; otherwise the last nanosecond of the month's last day, the Gregorian days-in-month (29 for a leap February), December rolling over through January of the next year |
| DateTimeNow.EndOfQuarter | src/lib.rs:253-266 | fails exactly for the fourth quarter of chrono's last year; otherwise the last nanosecond of the last day of month 3, 6, 9 or 12 of the input's year |
| DateTimeNow.EndOfYear | src/lib.rs:268-273 | December 31st 23:59:59.999999999 of the same local year; the input plus the rest of its year |
| Periods.Boundary | src/lib.rs:110-274 | the fourteen methods as one (unit, edge) table: it fails exactly on the listed overflow inputs and otherwise keeps the input's zone |
| Properties.Containment | src/lib.rs:110-274 | both boundaries lie in the input's period of that unit (same minute, hour, date, ISO week, month, quarter, year) and carry the input's zone |
| Properties.PeriodIsInterval | src/lib.rs:110-274 | an instant in the input's zone lies in the input's period if and only if it lies between the beginning and the end boundary: the beginning is the period's first nanosecond and the end its last |
| Properties.WeekInterval | src/lib.rs:146-157 | same ISO week as the input if and only if between the week's Monday midnight and Sunday's last nanosecond |
| Properties.QuarterInterval | src/lib.rs:253-266 | same quarter as the input if and only if between the quarter's first instant and the end of its third month |
| Properties.Ordering | src/lib.rs:110-274 | beginning_of_X(t) <= t <= end_of_X(t) for every unit |
| Properties.SamePeriodSameBoundary | src/lib.rs:110-274 | two readings of one period in one zone get identical boundaries |
| Properties.SameWeekSameBeginning | src/lib.rs:146-157 | two readings of one ISO week in one zone get the same `beginning_of_week`, failure included |
| Properties.SameWeekSameEnd | src/lib.rs:222-233 | two readings of one ISO week in one zone get the same `end_of_week`, failure included |
| Properties.Idempotence | src/lib.rs:110-274 | applying a boundary to its own result returns it unchanged, and the other edge of a boundary is the other edge of the original period |
| Properties.PeriodLength | src/lib.rs:110-274 | end + 1 ns = beginning + the period's length (a minute, hour, day, 7 days, the month's days, the quarter's three months, the year's days) |
| Properties.WeekLength | src/lib.rs:222-233 | the week's end is exactly 7 days minus 1 ns after its beginning |
| Properties.MonthLength | src/lib.rs:235-251 | the month's end is its days-in-month whole days minus 1 ns after its beginning |
| Properties.QuarterLength | src/lib.rs:253-266 | the quarter's end is its three months' days minus 1 ns after its beginning |
| Properties.YearLength | src/lib.rs:268-273 | the year's end is 365 or 366 days minus 1 ns after its beginning |
| Properties.Adjacency | src/lib.rs:110-274 | the nanosecond after an end boundary begins the next period of that unit and lies outside the input's period |
| Properties.NextIsBeginning | src/lib.rs:110-274 | the nanosecond after an end boundary is its own beginning boundary |
| Properties.NextIsBeginningOfWeek | src/lib.rs:146-157 | the nanosecond after a week's Sunday end is a Monday midnight that is its own week beginning |
| Properties.MondayMidnightIsWeekBeginning | src/lib.rs:146-157 | `beginning_of_week` of a Monday at midnight returns its input unchanged |
| Zoned.SingleInstant | src/lib.rs:121 | under a fixed offset, the date-time that `from_local_datetime` makes of a reading is the only one of that zone denoting its instant: another date-time of the zone has the same timestamp if and only if it is that date-time |
| Zoned.MinusNanosecond | src/lib.rs:247-250 | one nanosecond earlier in the same zone; it can fail only at chrono's very first instant |
| Zoned.MinusDays | src/lib.rs:148 | `k` days earlier in the same zone; fails exactly when the date leaves chrono's range |
| Zoned.PlusDays | src/lib.rs:224 | `k` days later in the same zone; fails exactly when the date leaves chrono's range |
| Civil.FromYmdByDayNumber | src/lib.rs:246 | `NaiveDate::from_ymd` succeeds exactly for the real Gregorian dates whose day number lies between those of -262144-01-01 and 262143-12-31 |
| Civil.DaysBeforeYearSum | src/lib.rs:178-182 | the day offset of January 1st that every year boundary is placed at equals the running sum of the preceding years' lengths (366 for each Gregorian leap year), for every year including those before year 1 |
| Civil.InRangeByDayNumber | src/lib.rs:148 | a real date is in chrono's year range if and only if its day number lies between those of the first and last dates, the bound the `Duration` steps are checked against |
| Civil.Weekday | src/lib.rs:147 | `number_from_monday` lies in 1..7 |
| Civil.MondayOfWeek | src/lib.rs:147-148 | stepping back `number_from_monday - 1` days reaches a Monday of the same ISO week |
| Civil.SundayOfWeek | src/lib.rs:223-224 | stepping forward `7 - number_from_monday` days reaches the Sunday of the same ISO week, six days after its Monday |
| Civil.MondayOnOrBefore | src/lib.rs:146-148 | walking back one day at a time to the nearest Monday on or before the date lands on the date that stepping back `number_from_monday - 1` days reaches, at most six days earlier |
| Civil.SundayOnOrAfter | src/lib.rs:222-224 | walking forward one day at a time to the nearest Sunday on or after the date lands on the date that stepping forward `7 - number_from_monday` days reaches, at most six days later |
| Civil.SameWeekIffWithinSix | src/lib.rs:146-157 | two dates share an ISO week if and only if the first is within the seven days from the second's Monday |
| Civil.EpochDayOrder | src/lib.rs:235-251 | days-from-civil is injective and orders dates exactly as the calendar does, across month and year boundaries |
| Naive.SubNanosecond | src/lib.rs:250 | subtracting one nanosecond borrows through the fields into the previous day and lowers the local count by exactly one |
| Naive.NanosecondInverse | src/lib.rs:250 | subtracting and adding one nanosecond are inverse |
| Naive.LocalNanosOrder | src/lib.rs:110-274 | the nanosecond count orders wall-clock readings exactly as their fields do, coarsest first |
| Scenarios.EndOfDayInUtc8 | src/lib.rs:281-291 | in UTC+8, end_of_day is 23:59:59 of the same local date |
| Scenarios.WeekOfMarch15 | src/lib.rs:146-233 | Wednesday 2023-03-15 has its week from Monday 2023-03-13 00:00 to Sunday 2023-03-19 23:59:59.999999999 |
| Scenarios.DecemberEnds | src/lib.rs:235-266 | month and quarter ends of 2023-12-15 are both 2023-12-31 23:59:59.999999999 |
| Scenarios.LeapFebruaryEnd | src/lib.rs:235-251 | the month end of 2024-02-10 is 2024-02-29 23:59:59.999999999 |
| Scenarios.YearOfNewYearsEve | src/lib.rs:178-273 | 2023-12-31 23:00 lies in 2023: year beginning 2023-01-01, year end 2023-12-31 23:59:59.999999999 |
| Scenarios.OverflowAtMaxYear | src/lib.rs:235-266 | December and the fourth quarter of year 262143 have no representable next period |
| Scenarios.WeekBeforeFirstDate | src/lib.rs:146-157 | chrono's first date, -262144-01-01, is a Tuesday, so its week's beginning is out of range |
| Scenarios.WeekAfterLastDate | src/lib.rs:222-233 | chrono's last date, 262143-12-31, is a Tuesday, so its week's end is out of range |

## Left out

- The `TimeZoneNow` blanket implementation (src/lib.rs:43-108) is left out. It
  reads the wall clock (`Utc::now()`), converts to the zone, and forwards to the
  calculator modelled here. Callers pass the date-time in instead.
- Zones other than a fixed UTC offset are left out: chrono's timezone database
  and daylight-saving gaps and folds. Under a fixed offset, `from_local_datetime`
  always returns a single instant, so the model has no invalid-local-time error.
- Leap seconds are left out. chrono stores them as nanosecond values of one
  billion or more, and the model's readings keep nanoseconds below one second.
- chrono checks its range on the UTC reading of a `DateTime`, both in
  `from_local_datetime` and in `DateTime ± Duration`. The model checks the
  local date. The two differ only within one day of the range ends. There an
  operation can return a value, or `Ok`, where chrono panics. An example is
  `end_of_day` of 262143-12-31T12:00-08:00: its result 23:59:59.999999999-08:00
  is 262144-01-01 in UTC, outside chrono's range. `beginning_of_day` of
  -262144-01-01T12:00+08:00 fails the same way at the lower end. Each boundary
  contract, and `Periods.Overflows`, therefore describes chrono's failures
  exactly only away from the range ends.
- A `DateTime` is stored as its local wall-clock reading plus its offset. chrono
  stores the UTC reading plus the offset. Under a fixed offset each determines
  the other, and `Timestamp` derives the UTC instant. So re-localisation
  (`Zoned.FromLocalDatetime`) keeps the local reading as it is, and the
  conversion between local and UTC readings is not modelled. What the model
  states about re-localisation is `Zoned.SingleInstant`: the instant is unique.
- Year, month and day are unbounded integers in the model (`i32`/`u32` in
  chrono). chrono's year range keeps them far from overflow, and that range is
  modelled.
- Duration arithmetic is modelled only for the steps the calculator takes:
  whole days and a single nanosecond.
- `Properties.PeriodIsInterval` compares instants in the input's own zone. An
  instant shown in another zone has to be converted first, and that conversion
  is not modelled.
- The tests' `dbg!` output (src/lib.rs:293-316) and the Criterion benchmark
  (benches/my_benchmark.rs) are left out. Neither computes anything.
