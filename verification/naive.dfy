/** Naive (timezone-less) local date-times: chrono's `NaiveDateTime` as read by
    `naive_local()`, numbered by nanoseconds from 1970-01-01T00:00:00 local time.
 */
module Naive {
  import opened Civil

  const NanosPerSecond: int := 1_000_000_000
  const NanosPerMinute: int := 60 * NanosPerSecond
  const NanosPerHour: int := 60 * NanosPerMinute
  const NanosPerDay: int := 24 * NanosPerHour
  /** The largest nanosecond field, used by every `end_of_*` operation. */
  const LastNano: int := 999_999_999

  datatype NaiveDateTime = NaiveDateTime(date: Date, hour: int, minute: int, second: int, nano: int)

  /** Field ranges of a naive date-time (leap-second nanosecond values are not modelled). */
  predicate Valid(t: NaiveDateTime) {
    && ValidDate(t.date)
    && 0 <= t.hour < 24
    && 0 <= t.minute < 60
    && 0 <= t.second < 60
    && 0 <= t.nano < NanosPerSecond
  }

  /** Nanoseconds since the local midnight. */
  function TimeOfDay(t: NaiveDateTime): (n: int)
    requires Valid(t)
    ensures 0 <= n < NanosPerDay
  {
    t.hour * NanosPerHour + t.minute * NanosPerMinute + t.second * NanosPerSecond + t.nano
  }

  /** Nanoseconds from 1970-01-01T00:00:00 on the same wall clock. */
  function LocalNanos(t: NaiveDateTime): int
    requires Valid(t)
  {
    EpochDay(t.date) * NanosPerDay + TimeOfDay(t)
  }

  /** The first instant of date `d` (`and_hms(0, 0, 0)`). */
  function Midnight(d: Date): NaiveDateTime {
    NaiveDateTime(d, 0, 0, 0, 0)
  }

  /** The last nanosecond of date `d` (`and_hms_nano(23, 59, 59, 999999999)`). */
  function LastInstant(d: Date): NaiveDateTime {
    NaiveDateTime(d, 23, 59, 59, LastNano)
  }

  /** Lexicographic order of the fields, coarsest first. */
  predicate NaiveBefore(a: NaiveDateTime, b: NaiveDateTime) {
    || DateBefore(a.date, b.date)
    || (a.date == b.date && a.hour < b.hour)
    || (a.date == b.date && a.hour == b.hour && a.minute < b.minute)
    || (a.date == b.date && a.hour == b.hour && a.minute == b.minute && a.second < b.second)
    || (a.date == b.date && a.hour == b.hour && a.minute == b.minute && a.second == b.second
        && a.nano < b.nano)
  }

  /** `t` minus one nanosecond (`- Duration::nanoseconds(1)`), borrowing
      through the fields and into the previous day. */
  function SubNanosecond(t: NaiveDateTime): (r: NaiveDateTime)
    requires Valid(t)
    ensures Valid(r)
    ensures LocalNanos(r) == LocalNanos(t) - 1
  {
    if t.nano > 0 then t.(nano := t.nano - 1)
    else if t.second > 0 then t.(second := t.second - 1, nano := LastNano)
    else if t.minute > 0 then t.(minute := t.minute - 1, second := 59, nano := LastNano)
    else if t.hour > 0 then t.(hour := t.hour - 1, minute := 59, second := 59, nano := LastNano)
    else LastInstant(PrevDay(t.date))
  }

  /** `t` plus one nanosecond, carrying through the fields into the next day. */
  function AddNanosecond(t: NaiveDateTime): (r: NaiveDateTime)
    requires Valid(t)
    ensures Valid(r)
    ensures LocalNanos(r) == LocalNanos(t) + 1
  {
    if t.nano < LastNano then t.(nano := t.nano + 1)
    else if t.second < 59 then t.(second := t.second + 1, nano := 0)
    else if t.minute < 59 then t.(minute := t.minute + 1, second := 0, nano := 0)
    else if t.hour < 23 then t.(hour := t.hour + 1, minute := 0, second := 0, nano := 0)
    else Midnight(NextDay(t.date))
  }

  /** `t` moved back `k` whole days: the date steps, the wall-clock time stays. */
  function SubWholeDays(t: NaiveDateTime, k: nat): (r: NaiveDateTime)
    requires Valid(t)
    ensures Valid(r)
    ensures LocalNanos(r) == LocalNanos(t) - k * NanosPerDay
  {
    t.(date := SubDays(t.date, k))
  }

  /** `t` moved forward `k` whole days. */
  function AddWholeDays(t: NaiveDateTime, k: nat): (r: NaiveDateTime)
    requires Valid(t)
    ensures Valid(r)
    ensures LocalNanos(r) == LocalNanos(t) + k * NanosPerDay
  {
    t.(date := AddDays(t.date, k))
  }

  // ---------------------------------------------------------------------------

  /** Adding and subtracting one nanosecond are inverse. */
  lemma NanosecondInverse(t: NaiveDateTime)
    requires Valid(t)
    ensures AddNanosecond(SubNanosecond(t)) == t
    ensures SubNanosecond(AddNanosecond(t)) == t
  {
    NextPrevInverse(t.date);
  }

  /** The nanosecond count is a faithful encoding of the field order:
      injective, and ordered exactly as the fields are. */
  lemma LocalNanosOrder(a: NaiveDateTime, b: NaiveDateTime)
    requires Valid(a) && Valid(b)
    ensures LocalNanos(a) < LocalNanos(b) <==> NaiveBefore(a, b)
    ensures LocalNanos(a) == LocalNanos(b) <==> a == b
  {
    EpochDayOrder(a.date, b.date);
    EpochDayOrder(b.date, a.date);
    var da, db := EpochDay(a.date), EpochDay(b.date);
    if da < db {
      DayDominates(a, b);
    } else if db < da {
      DayDominates(b, a);
    } else {
      TimeOfDayOrder(a, b);
    }
  }

  /** An earlier day wins whatever the time of day. */
  lemma DayDominates(a: NaiveDateTime, b: NaiveDateTime)
    requires Valid(a) && Valid(b) && EpochDay(a.date) < EpochDay(b.date)
    ensures LocalNanos(a) < LocalNanos(b)
  {
    var da, db := EpochDay(a.date), EpochDay(b.date);
    assert da * NanosPerDay + NanosPerDay <= db * NanosPerDay;
  }

  /** Within one day the time of day orders the clock fields lexicographically. */
  lemma TimeOfDayOrder(a: NaiveDateTime, b: NaiveDateTime)
    requires Valid(a) && Valid(b)
    ensures TimeOfDay(a) < TimeOfDay(b) <==>
      || a.hour < b.hour
      || (a.hour == b.hour && a.minute < b.minute)
      || (a.hour == b.hour && a.minute == b.minute && a.second < b.second)
      || (a.hour == b.hour && a.minute == b.minute && a.second == b.second && a.nano < b.nano)
    ensures TimeOfDay(a) == TimeOfDay(b) <==>
      a.hour == b.hour && a.minute == b.minute && a.second == b.second && a.nano == b.nano
  {
    Lex(a.second, a.nano, b.second, b.nano, NanosPerSecond);
    var a3, b3 := a.second * NanosPerSecond + a.nano, b.second * NanosPerSecond + b.nano;
    Lex(a.minute, a3, b.minute, b3, NanosPerMinute);
    var a2, b2 := a.minute * NanosPerMinute + a3, b.minute * NanosPerMinute + b3;
    Lex(a.hour, a2, b.hour, b2, NanosPerHour);
    assert TimeOfDay(a) == a.hour * NanosPerHour + a2;
    assert TimeOfDay(b) == b.hour * NanosPerHour + b2;
  }

  /** A mixed-radix digit pair `x * c + r` orders lexicographically. */
  lemma Lex(x1: int, r1: int, x2: int, r2: int, c: int)
    requires c > 0 && 0 <= r1 < c && 0 <= r2 < c
    ensures x1 * c + r1 < x2 * c + r2 <==> x1 < x2 || (x1 == x2 && r1 < r2)
    ensures x1 * c + r1 == x2 * c + r2 <==> x1 == x2 && r1 == r2
  {
    if x1 < x2 {
      MulGrows(c, x2 - x1);
      assert c * x2 == c * x1 + c * (x2 - x1);
    } else if x2 < x1 {
      MulGrows(c, x1 - x2);
      assert c * x1 == c * x2 + c * (x1 - x2);
    }
  }
}
