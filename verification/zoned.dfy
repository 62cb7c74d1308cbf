/** Timezone-aware date-times under a fixed UTC offset (chrono's
    `DateTime<FixedOffset>`), the absolute instant they denote, and the
    duration arithmetic the boundary calculator uses on them.
 */
module Zoned {
  import opened Civil
  import opened Naive
  import opened Wrappers

  const SecondsPerDay: int := 86400

  /** A zone that is a constant number of seconds east of UTC. */
  datatype FixedOffset = FixedOffset(localMinusUtc: int)

  /** chrono accepts offsets strictly inside one day. */
  predicate ValidOffset(o: FixedOffset) {
    -SecondsPerDay < o.localMinusUtc < SecondsPerDay
  }

  /** A date-time in a zone, held as the wall-clock fields the zone shows
      (what `naive_local()` returns) together with the zone. */
  datatype DateTime = DateTime(local: NaiveDateTime, offset: FixedOffset)

  predicate ValidDateTime(t: DateTime) {
    Valid(t.local) && InRange(t.local.date) && ValidOffset(t.offset)
  }

  /** The absolute instant: nanoseconds since 1970-01-01T00:00:00 UTC. */
  function Timestamp(t: DateTime): int
    requires Valid(t.local)
  {
    LocalNanos(t.local) - t.offset.localMinusUtc * NanosPerSecond
  }

  /** The failures of the calculator: where chrono panics, the model reports. */
  datatype Error =
    | OutOfRange   // a date outside `NaiveDate`'s year range

  /** `tz.from_local_datetime(&n).unwrap()`. Under a fixed offset every wall-clock
      reading names exactly one instant (`SingleInstant`). Because a `DateTime`
      is held by its local reading, re-localisation keeps that reading as it is;
      the UTC reading chrono would range-check is not derived here. */
  function FromLocalDatetime(o: FixedOffset, n: NaiveDateTime): (r: DateTime)
    requires Valid(n) && InRange(n.date) && ValidOffset(o)
    ensures ValidDateTime(r) && r.offset == o && r.local == n
    ensures Timestamp(r) + o.localMinusUtc * NanosPerSecond == LocalNanos(n)
  {
    DateTime(n, o)
  }

  /** No other date-time of zone `o` denotes the instant that `n` names:
      equal instants in one fixed-offset zone are equal readings. */
  lemma SingleInstant(o: FixedOffset, n: NaiveDateTime, t: DateTime)
    requires Valid(n) && InRange(n.date) && ValidOffset(o)
    requires ValidDateTime(t) && t.offset == o
    ensures Timestamp(t) == Timestamp(FromLocalDatetime(o, n)) <==> t == FromLocalDatetime(o, n)
  {
    LocalNanosOrder(t.local, n);
  }

  /** A shifted wall-clock reading as a date-time in zone `o`, or the
      overflow that chrono's `DateTime` arithmetic panics on. */
  function Checked(o: FixedOffset, n: NaiveDateTime): (r: Result<DateTime, Error>)
    requires Valid(n) && ValidOffset(o)
    ensures r.Ok? <==> InRange(n.date)
    ensures r.Ok? ==> ValidDateTime(r.value) && r.value.offset == o && r.value.local == n
  {
    if InRange(n.date) then Ok(DateTime(n, o)) else Err(OutOfRange)
  }

  /** `t - Duration::nanoseconds(1)`: the instant one nanosecond earlier, same zone. */
  function MinusNanosecond(t: DateTime): (r: Result<DateTime, Error>)
    requires ValidDateTime(t)
    ensures r.Ok? ==> ValidDateTime(r.value) && r.value.offset == t.offset
    ensures r.Ok? ==> Timestamp(r.value) == Timestamp(t) - 1
    ensures r.Err? ==> t.local == Midnight(Date(MinYear, 1, 1))
  {
    Checked(t.offset, SubNanosecond(t.local))
  }

  /** `t - Duration::days(k)`: the instant `k` days earlier, same zone. */
  function MinusDays(t: DateTime, k: nat): (r: Result<DateTime, Error>)
    requires ValidDateTime(t)
    ensures r.Ok? <==> EpochDay(Date(MinYear, 1, 1)) <= EpochDay(t.local.date) - k
    ensures r.Ok? ==> ValidDateTime(r.value) && r.value.offset == t.offset
    ensures r.Ok? ==> Timestamp(r.value) == Timestamp(t) - k * NanosPerDay
  {
    var n := SubWholeDays(t.local, k);
    InRangeByDayNumber(n.date);
    InRangeByDayNumber(t.local.date);
    Checked(t.offset, n)
  }

  /** `t + Duration::days(k)`: the instant `k` days later, same zone. */
  function PlusDays(t: DateTime, k: nat): (r: Result<DateTime, Error>)
    requires ValidDateTime(t)
    ensures r.Ok? <==> EpochDay(t.local.date) + k <= EpochDay(Date(MaxYear, 12, 31))
    ensures r.Ok? ==> ValidDateTime(r.value) && r.value.offset == t.offset
    ensures r.Ok? ==> Timestamp(r.value) == Timestamp(t) + k * NanosPerDay
  {
    var n := AddWholeDays(t.local, k);
    InRangeByDayNumber(n.date);
    InRangeByDayNumber(t.local.date);
    Checked(t.offset, n)
  }
}
