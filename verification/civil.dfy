/** Proleptic Gregorian calendar arithmetic: the date layer of the calendar
    boundary calculator.

    A date is numbered by its day offset from 1970-01-01 ("days from civil").
    Every other date operation (stepping a day, the weekday, the year range
    that chrono's `NaiveDate` can represent) is stated against that number.
 */
module Civil {
  import opened Wrappers

  /** Year range of `NaiveDate` in chrono 0.4.19 (`MIN_YEAR = i32::MIN >> 13`,
      `MAX_YEAR = i32::MAX >> 13`); `NaiveDate::from_ymd` panics outside it.
      Later 0.4 releases narrow the range by one year at each end. */
  const MinYear: int := -262144
  const MaxYear: int := 262143

  /** Days from 0001-01-01 to 1970-01-01. */
  const UnixEpochDays: int := 719162

  datatype Date = Date(year: int, month: int, day: int)

  predicate IsLeapYear(y: int) {
    y % 4 == 0 && (y % 100 != 0 || y % 400 == 0)
  }

  function DaysInYear(y: int): int {
    if IsLeapYear(y) then 366 else 365
  }

  function DaysInMonth(y: int, m: int): (n: int)
    requires 1 <= m <= 12
    ensures 28 <= n <= 31
  {
    if m == 2 then (if IsLeapYear(y) then 29 else 28)
    else if m == 4 || m == 6 || m == 9 || m == 11 then 30
    else 31
  }

  /** Days of year `y` that precede the first of month `m`. */
  function DaysBeforeMonth(y: int, m: int): int
    requires 1 <= m <= 12
  {
    var common :=
      match m
      case 1 => 0   case 2 => 31  case 3 => 59   case 4 => 90
      case 5 => 120 case 6 => 151 case 7 => 181  case 8 => 212
      case 9 => 243 case 10 => 273 case 11 => 304 case _ => 334;
    common + (if m > 2 && IsLeapYear(y) then 1 else 0)
  }

  /** Days from 0001-01-01 to the first of January of year `y` (negative before year 1). */
  function DaysBeforeYear(y: int): int {
    var p := y - 1;
    365 * p + p / 4 - p / 100 + p / 400
  }

  /** Reference definition of the year offsets: the lengths of the years from
      year 1 up to `y`, added one by one (subtracted for years before 1). It
      agrees with the closed form's leap count. */
  function DaysBeforeYearSum(y: int): (r: int)
    ensures r == DaysBeforeYear(y)
    decreases if y >= 1 then y - 1 else 1 - y
  {
    if y == 1 then 0
    else if y > 1 then
      YearStep(y - 1);
      DaysBeforeYearSum(y - 1) + DaysInYear(y - 1)
    else
      YearStep(y);
      DaysBeforeYearSum(y + 1) - DaysInYear(y)
  }

  predicate ValidDate(d: Date) {
    1 <= d.month <= 12 && 1 <= d.day <= DaysInMonth(d.year, d.month)
  }

  /** The dates `NaiveDate` can hold. */
  predicate InRange(d: Date) {
    MinYear <= d.year <= MaxYear
  }

  /** Day number of `d` counted from 1970-01-01. */
  function EpochDay(d: Date): int
    requires ValidDate(d)
  {
    DaysBeforeYear(d.year) + DaysBeforeMonth(d.year, d.month) + d.day - 1 - UnixEpochDays
  }

  /** ISO 8601 weekday number, Monday = 1 .. Sunday = 7 (chrono's `number_from_monday`).
      1970-01-01 was a Thursday. */
  function Weekday(d: Date): (w: int)
    requires ValidDate(d)
    ensures 1 <= w <= 7
  {
    (EpochDay(d) + 3) % 7 + 1
  }

  /** Day number of the Monday that starts the ISO week of `d`. */
  function WeekStartDay(d: Date): int
    requires ValidDate(d)
  {
    EpochDay(d) - (Weekday(d) - 1)
  }

  /** The day after `d`. */
  function NextDay(d: Date): (r: Date)
    requires ValidDate(d)
    ensures ValidDate(r)
    ensures EpochDay(r) == EpochDay(d) + 1
  {
    if d.day < DaysInMonth(d.year, d.month) then Date(d.year, d.month, d.day + 1)
    else if d.month < 12 then
      MonthStep(d.year, d.month);
      Date(d.year, d.month + 1, 1)
    else
      YearStep(d.year);
      Date(d.year + 1, 1, 1)
  }

  /** The day before `d`. */
  function PrevDay(d: Date): (r: Date)
    requires ValidDate(d)
    ensures ValidDate(r)
    ensures EpochDay(r) == EpochDay(d) - 1
  {
    if d.day > 1 then Date(d.year, d.month, d.day - 1)
    else if d.month > 1 then
      MonthStep(d.year, d.month - 1);
      Date(d.year, d.month - 1, DaysInMonth(d.year, d.month - 1))
    else
      YearStep(d.year - 1);
      Date(d.year - 1, 12, 31)
  }

  /** `d` moved forward by `k` days. */
  function AddDays(d: Date, k: nat): (r: Date)
    requires ValidDate(d)
    ensures ValidDate(r)
    ensures EpochDay(r) == EpochDay(d) + k
    decreases k
  {
    if k == 0 then d else AddDays(NextDay(d), k - 1)
  }

  /** `d` moved back by `k` days. */
  function SubDays(d: Date, k: nat): (r: Date)
    requires ValidDate(d)
    ensures ValidDate(r)
    ensures EpochDay(r) == EpochDay(d) - k
    decreases k
  {
    if k == 0 then d else SubDays(PrevDay(d), k - 1)
  }

  /** chrono's `NaiveDate::from_ymd_opt`: the date when the fields name a
      representable Gregorian date, otherwise None (where `from_ymd` panics). */
  function FromYmd(y: int, m: int, d: int): (r: Option<Date>)
    ensures r.Some? <==> (1 <= m <= 12 && 1 <= d <= DaysInMonth(y, m) && MinYear <= y <= MaxYear)
    ensures r.Some? ==> ValidDate(r.value) && InRange(r.value)
    ensures r.Some? ==> r.value.year == y && r.value.month == m && r.value.day == d
  {
    if 1 <= m <= 12 && 1 <= d <= DaysInMonth(y, m) && MinYear <= y <= MaxYear
    then Some(Date(y, m, d)) else None
  }

  /** A real Gregorian date is in the year range exactly when its day number
      lies between those of the range's first and last dates. */
  lemma InRangeByDayNumber(d: Date)
    requires ValidDate(d)
    ensures InRange(d) <==>
      EpochDay(Date(MinYear, 1, 1)) <= EpochDay(d) <= EpochDay(Date(MaxYear, 12, 31))
  {
    EpochDayOrder(Date(MinYear, 1, 1), d);
    EpochDayOrder(d, Date(MaxYear, 12, 31));
  }

  /** `from_ymd_opt` accepts exactly the real Gregorian dates whose day number
      lies between the range's first and last dates. */
  lemma FromYmdByDayNumber(y: int, m: int, d: int)
    ensures FromYmd(y, m, d).Some? <==>
      && ValidDate(Date(y, m, d))
      && EpochDay(Date(MinYear, 1, 1)) <= EpochDay(Date(y, m, d)) <= EpochDay(Date(MaxYear, 12, 31))
  {
    if ValidDate(Date(y, m, d)) {
      InRangeByDayNumber(Date(y, m, d));
    }
  }

  /** Calendar (lexicographic) order on dates. */
  predicate DateBefore(a: Date, b: Date) {
    a.year < b.year
    || (a.year == b.year && a.month < b.month)
    || (a.year == b.year && a.month == b.month && a.day < b.day)
  }

  // ---------------------------------------------------------------------------
  // Stepping by days

  /** Stepping forward and back are inverse. */
  lemma NextPrevInverse(d: Date)
    requires ValidDate(d)
    ensures PrevDay(NextDay(d)) == d
    ensures NextDay(PrevDay(d)) == d
  {
  }

  /** The weekday advances cyclically with the day. */
  lemma WeekdayNext(d: Date)
    requires ValidDate(d)
    ensures Weekday(NextDay(d)) == Weekday(d) % 7 + 1
  {
    WeekdayShift(d, NextDay(d), 1);
  }

  /** Weekday of the date `k` days back, in terms of day numbers. */
  lemma WeekdayShift(d: Date, e: Date, k: int)
    requires ValidDate(d) && ValidDate(e)
    requires EpochDay(e) == EpochDay(d) + k
    ensures Weekday(e) == (Weekday(d) - 1 + k) % 7 + 1
  {
    var a := EpochDay(d) + 3;
    DivMod(a, 7, a / 7, a % 7);
    var b := a % 7 + k;
    DivMod(a + k, 7, a / 7 + b / 7, b % 7);
  }

  /** Stepping back `Weekday(d) - 1` days lands on the Monday of `d`'s week. */
  lemma MondayOfWeek(d: Date)
    requires ValidDate(d)
    ensures Weekday(SubDays(d, Weekday(d) - 1)) == 1
    ensures EpochDay(SubDays(d, Weekday(d) - 1)) == WeekStartDay(d)
    ensures WeekStartDay(SubDays(d, Weekday(d) - 1)) == WeekStartDay(d)
  {
    var w := Weekday(d);
    WeekdayShift(d, SubDays(d, w - 1), -(w - 1));
  }

  /** Stepping forward `7 - Weekday(d)` days lands on the Sunday of `d`'s week. */
  lemma SundayOfWeek(d: Date)
    requires ValidDate(d)
    ensures Weekday(AddDays(d, 7 - Weekday(d))) == 7
    ensures EpochDay(AddDays(d, 7 - Weekday(d))) == WeekStartDay(d) + 6
    ensures WeekStartDay(AddDays(d, 7 - Weekday(d))) == WeekStartDay(d)
  {
    var w := Weekday(d);
    WeekdayShift(d, AddDays(d, 7 - w), 7 - w);
  }

  /** Two dates share an ISO week exactly when the first falls on one of the
      seven days starting at the second's Monday. */
  lemma SameWeekIffWithinSix(a: Date, b: Date)
    requires ValidDate(a) && ValidDate(b)
    ensures WeekStartDay(a) == WeekStartDay(b) <==>
      WeekStartDay(b) <= EpochDay(a) <= WeekStartDay(b) + 6
  {
    WeekArithmetic(EpochDay(a), EpochDay(b));
  }

  /** `WeekStartDay` on bare day numbers. */
  lemma WeekArithmetic(ea: int, eb: int)
    ensures var k := eb - (eb + 3) % 7;
      ea - (ea + 3) % 7 == k <==> k <= ea <= k + 6
  {
    var k := eb - (eb + 3) % 7;
    DivMod(eb + 3, 7, (eb + 3) / 7, (eb + 3) % 7);
    assert k + 3 == 7 * ((eb + 3) / 7);
    if k <= ea <= k + 6 {
      DivMod(ea + 3, 7, (eb + 3) / 7, ea - k);
    }
  }

  /** Reference definition of a week's first day: walk back one day at a time
      until a Monday. It lands exactly where stepping back
      `number_from_monday - 1` days lands. */
  method MondayOnOrBefore(d: Date) returns (m: Date)
    requires ValidDate(d)
    ensures ValidDate(m) && Weekday(m) == 1
    ensures EpochDay(d) - 6 <= EpochDay(m) <= EpochDay(d)
    ensures m == SubDays(d, Weekday(d) - 1)
  {
    m := d;
    var back := 0;
    while Weekday(m) != 1
      invariant ValidDate(m)
      invariant 0 <= back <= Weekday(d) - 1
      invariant EpochDay(m) == EpochDay(d) - back
      invariant Weekday(m) == Weekday(d) - back
      decreases Weekday(m)
    {
      StepBack(m);
      m := PrevDay(m);
      back := back + 1;
    }
    MondayReached(d, m, back);
  }

  /** Reference definition of a week's last day: walk forward one day at a time
      until a Sunday. It lands exactly where stepping forward
      `7 - number_from_monday` days lands. */
  method SundayOnOrAfter(d: Date) returns (s: Date)
    requires ValidDate(d)
    ensures ValidDate(s) && Weekday(s) == 7
    ensures EpochDay(d) <= EpochDay(s) <= EpochDay(d) + 6
    ensures s == AddDays(d, 7 - Weekday(d))
  {
    s := d;
    var ahead := 0;
    while Weekday(s) != 7
      invariant ValidDate(s)
      invariant 0 <= ahead <= 7 - Weekday(d)
      invariant EpochDay(s) == EpochDay(d) + ahead
      invariant Weekday(s) == Weekday(d) + ahead
      decreases 7 - Weekday(s)
    {
      StepForward(s);
      s := NextDay(s);
      ahead := ahead + 1;
    }
    SundayReached(d, s, ahead);
  }

  // ---------------------------------------------------------------------------
  // The day count is the calendar order

  /** The day of the year stays inside its year. */
  lemma DayOfYearBounds(d: Date)
    requires ValidDate(d)
    ensures 0 <= DaysBeforeMonth(d.year, d.month) + d.day - 1 < DaysInYear(d.year)
  {
  }

  /** Later months of one year start after earlier months end. */
  lemma MonthsOrdered(y: int, m1: int, m2: int)
    requires 1 <= m1 < m2 <= 12
    ensures DaysBeforeMonth(y, m1) + DaysInMonth(y, m1) <= DaysBeforeMonth(y, m2)
  {
  }

  /** Later years start after earlier years end. */
  lemma {:induction false} YearsOrdered(y1: int, y2: int)
    requires y1 < y2
    ensures DaysBeforeYear(y1) + DaysInYear(y1) <= DaysBeforeYear(y2)
    decreases y2 - y1
  {
    YearStep(y1);
    if y1 + 1 < y2 {
      YearsOrdered(y1 + 1, y2);
    }
  }

  /** One step of `MondayOnOrBefore`: the day before a non-Monday is one weekday earlier. */
  lemma StepBack(m: Date)
    requires ValidDate(m) && Weekday(m) != 1
    ensures ValidDate(PrevDay(m)) && EpochDay(PrevDay(m)) == EpochDay(m) - 1
    ensures Weekday(PrevDay(m)) == Weekday(m) - 1
  {
    WeekdayShift(m, PrevDay(m), -1);
  }

  /** One step of `SundayOnOrAfter`: the day after a non-Sunday is one weekday later. */
  lemma StepForward(s: Date)
    requires ValidDate(s) && Weekday(s) != 7
    ensures ValidDate(NextDay(s)) && EpochDay(NextDay(s)) == EpochDay(s) + 1
    ensures Weekday(NextDay(s)) == Weekday(s) + 1
  {
    WeekdayNext(s);
  }

  /** The loop exits of `MondayOnOrBefore` and `SundayOnOrAfter` are the
      days `beginning_of_week` and `end_of_week` step to. */
  lemma MondayReached(d: Date, m: Date, back: int)
    requires ValidDate(d) && ValidDate(m) && Weekday(m) == 1
    requires Weekday(m) == Weekday(d) - back && EpochDay(m) == EpochDay(d) - back
    ensures m == SubDays(d, Weekday(d) - 1)
  {
    SameDayNumber(m, SubDays(d, Weekday(d) - 1));
  }

  lemma SundayReached(d: Date, s: Date, ahead: int)
    requires ValidDate(d) && ValidDate(s) && Weekday(s) == 7
    requires Weekday(s) == Weekday(d) + ahead && EpochDay(s) == EpochDay(d) + ahead
    ensures s == AddDays(d, 7 - Weekday(d))
  {
    SameDayNumber(s, AddDays(d, 7 - Weekday(d)));
  }

  /** Dates with one day number are the same date. */
  lemma SameDayNumber(a: Date, b: Date)
    requires ValidDate(a) && ValidDate(b) && EpochDay(a) == EpochDay(b)
    ensures a == b
  {
    EpochDayOrder(a, b);
  }

  /** Calendar order implies day-number order. */
  lemma EpochDayMonotone(a: Date, b: Date)
    requires ValidDate(a) && ValidDate(b) && DateBefore(a, b)
    ensures EpochDay(a) < EpochDay(b)
  {
    DayOfYearBounds(a);
    DayOfYearBounds(b);
    if a.year < b.year {
      YearsOrdered(a.year, b.year);
    } else if a.month < b.month {
      MonthsOrdered(a.year, a.month, b.month);
    }
  }

  /** The day number is a faithful encoding of the calendar order:
      it is injective and orders dates exactly as the calendar does. */
  lemma EpochDayOrder(a: Date, b: Date)
    requires ValidDate(a) && ValidDate(b)
    ensures EpochDay(a) < EpochDay(b) <==> DateBefore(a, b)
    ensures EpochDay(a) == EpochDay(b) <==> a == b
  {
    if DateBefore(a, b) {
      EpochDayMonotone(a, b);
    } else if DateBefore(b, a) {
      EpochDayMonotone(b, a);
    }
  }

  // ---------------------------------------------------------------------------
  // Lemmas about the day count

  /** Crossing a month boundary inside a year. */
  lemma MonthStep(y: int, m: int)
    requires 1 <= m < 12
    ensures DaysBeforeMonth(y, m + 1) == DaysBeforeMonth(y, m) + DaysInMonth(y, m)
  {
  }

  /** The year's last month ends where the year does. */
  lemma LastMonth(y: int)
    ensures DaysBeforeMonth(y, 12) + DaysInMonth(y, 12) == DaysInYear(y)
  {
  }

  /** Crossing a year boundary: the Gregorian leap rule is what `DaysBeforeYear` counts. */
  lemma YearStep(y: int)
    ensures DaysBeforeYear(y + 1) == DaysBeforeYear(y) + DaysInYear(y)
  {
    DivStep(y - 1, 4);
    DivStep(y - 1, 100);
    DivStep(y - 1, 400);
    LeapCount(y);
  }

  /** The Gregorian leap rule as the count of multiples of 4, less those of 100,
      plus those of 400. */
  lemma LeapCount(y: int)
    ensures (if y % 4 == 0 then 1 else 0) - (if y % 100 == 0 then 1 else 0)
      + (if y % 400 == 0 then 1 else 0) == (if IsLeapYear(y) then 1 else 0)
  {
    if y % 400 == 0 {
      DivMod(y, 100, 4 * (y / 400), 0);
    }
    if y % 100 == 0 {
      DivMod(y, 4, 25 * (y / 100), 0);
    }
  }

  /** Floor division steps by one exactly at multiples of `k`. */
  lemma DivStep(x: int, k: int)
    requires k > 0
    ensures (x + 1) / k == x / k + (if (x + 1) % k == 0 then 1 else 0)
  {
    var q, r := x / k, x % k;
    assert x == k * q + r;
    if r + 1 < k {
      DivMod(x + 1, k, q, r + 1);
    } else {
      assert x + 1 == k * (q + 1) + 0;
      DivMod(x + 1, k, q + 1, 0);
    }
  }

  /** Uniqueness of Euclidean division. */
  lemma DivMod(x: int, k: int, q: int, r: int)
    requires k > 0 && 0 <= r < k && x == k * q + r
    ensures x / k == q && x % k == r
  {
    var q', r' := x / k, x % k;
    var e := q - q';
    assert k * q == k * q' + k * e;
    assert k * e == r' - r;
    if e >= 1 {
      MulGrows(k, e);
    } else if e <= -1 {
      MulGrows(k, -e);
    }
  }

  lemma MulGrows(k: int, e: int)
    requires k > 0 && e >= 1
    ensures k * e >= k
  {
  }
}
