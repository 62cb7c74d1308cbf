/** What the calculator promises, proved for every unit and edge: each boundary
    lies in the period of its input, the period is exactly the closed interval
    between the two boundaries, a boundary depends only on the period, and
    consecutive periods meet without a gap.
 */
module Properties {
  import opened Civil
  import opened Naive
  import opened Zoned
  import opened Wrappers
  import opened DateTimeNow
  import opened Periods

  /** The boundaries of the period containing `t`, in `t`'s zone. */
  function Begin(u: Unit, t: DateTime): DateTime
    requires ValidDateTime(t) && !Overflows(u, Beginning, t)
  {
    Boundary(u, Beginning, t).value
  }

  function Finish(u: Unit, t: DateTime): DateTime
    requires ValidDateTime(t) && !Overflows(u, End, t)
  {
    Boundary(u, End, t).value
  }

  // ---------------------------------------------------------------------------
  // Containment and the interval characterisation

  /** Both boundaries lie in the period that contains `t`, in `t`'s zone. */
  lemma Containment(u: Unit, e: Edge, t: DateTime)
    requires ValidDateTime(t) && !Overflows(u, e, t)
    ensures Boundary(u, e, t).value.offset == t.offset
    ensures SamePeriod(u, Boundary(u, e, t).value.local, t.local)
  {
    var r := Boundary(u, e, t).value;
    if u == Week {
      if e == Beginning {
        MondayOfWeek(t.local.date);
        EpochDayOrder(r.local.date, SubDays(t.local.date, Weekday(t.local.date) - 1));
      } else {
        SundayOfWeek(t.local.date);
        EpochDayOrder(r.local.date, AddDays(t.local.date, 7 - Weekday(t.local.date)));
      }
    }
  }

  /** The period of unit `u` containing `t` is exactly the set of instants (in
      `t`'s zone) from the beginning boundary to the end boundary, inclusive:
      the beginning is its first nanosecond and the end its last. */
  lemma PeriodIsInterval(u: Unit, t: DateTime, s: DateTime)
    requires ValidDateTime(t) && ValidDateTime(s) && s.offset == t.offset
    requires !Overflows(u, Beginning, t) && !Overflows(u, End, t)
    ensures SamePeriod(u, s.local, t.local) <==>
      Timestamp(Begin(u, t)) <= Timestamp(s) <= Timestamp(Finish(u, t))
  {
    match u
    case Week => WeekInterval(t, s);
    case Quarter => QuarterInterval(t, s);
    case _ =>
      LocalNanosOrder(s.local, Begin(u, t).local);
      LocalNanosOrder(Finish(u, t).local, s.local);
  }

  lemma WeekInterval(t: DateTime, s: DateTime)
    requires ValidDateTime(t) && ValidDateTime(s) && s.offset == t.offset
    requires BeginningOfWeek(t).Ok? && EndOfWeek(t).Ok?
    ensures SamePeriod(Week, s.local, t.local) <==>
      Timestamp(BeginningOfWeek(t).value) <= Timestamp(s) <= Timestamp(EndOfWeek(t).value)
  {
    var k := WeekStartDay(t.local.date);
    var off := t.offset.localMinusUtc * NanosPerSecond;
    assert Timestamp(BeginningOfWeek(t).value) == k * NanosPerDay - off;
    assert Timestamp(EndOfWeek(t).value) == k * NanosPerDay + 7 * NanosPerDay - 1 - off;
    assert Timestamp(s) == EpochDay(s.local.date) * NanosPerDay + TimeOfDay(s.local) - off;
    SameWeekIffWithinSix(s.local.date, t.local.date);
    DayWindow(k, EpochDay(s.local.date), TimeOfDay(s.local));
  }

  /** An instant of day `es` lies in the seven days from day `k` exactly when `es` does. */
  lemma DayWindow(k: int, es: int, tod: int)
    requires 0 <= tod < NanosPerDay
    ensures k * NanosPerDay <= es * NanosPerDay + tod <==> k <= es
    ensures es * NanosPerDay + tod <= k * NanosPerDay + 7 * NanosPerDay - 1 <==> es <= k + 6
  {
    if es < k {
      assert es * NanosPerDay + NanosPerDay <= k * NanosPerDay;
    }
    if es > k + 6 {
      assert (k + 7) * NanosPerDay <= es * NanosPerDay;
    }
  }

  lemma QuarterInterval(t: DateTime, s: DateTime)
    requires ValidDateTime(t) && ValidDateTime(s) && s.offset == t.offset
    requires EndOfQuarter(t).Ok?
    ensures SamePeriod(Quarter, s.local, t.local) <==>
      Timestamp(BeginningOfQuarter(t)) <= Timestamp(s) <= Timestamp(EndOfQuarter(t).value)
  {
    var y, q := t.local.date.year, QuarterFirstMonth(t.local.date.month);
    var b := Midnight(Date(y, q, 1));
    var f := LastInstant(Date(y, q + 2, DaysInMonth(y, q + 2)));
    assert BeginningOfQuarter(t).local == b;
    assert EndOfQuarter(t).value.local == f;
    LocalNanosOrder(s.local, b);
    LocalNanosOrder(f, s.local);
    var d := s.local.date;
    assert SamePeriod(Quarter, s.local, t.local) <==> d.year == y && q <= d.month <= q + 2;
  }

  /** Every boundary orders around its input: beginning <= t <= end. */
  lemma Ordering(u: Unit, t: DateTime)
    requires ValidDateTime(t)
    requires !Overflows(u, Beginning, t) && !Overflows(u, End, t)
    ensures Timestamp(Begin(u, t)) <= Timestamp(t) <= Timestamp(Finish(u, t))
  {
    PeriodIsInterval(u, t, t);
  }

  // ---------------------------------------------------------------------------
  // A boundary depends only on the period

  /** Two instants of one period, in one zone, have the same boundaries. */
  lemma SamePeriodSameBoundary(u: Unit, e: Edge, s: DateTime, t: DateTime)
    requires ValidDateTime(s) && ValidDateTime(t) && s.offset == t.offset
    requires SamePeriod(u, s.local, t.local)
    ensures Boundary(u, e, s) == Boundary(u, e, t)
  {
    if u == Week {
      if e == Beginning {
        SameWeekSameBeginning(s, t);
      } else {
        SameWeekSameEnd(s, t);
      }
    }
  }

  lemma SameWeekSameBeginning(s: DateTime, t: DateTime)
    requires ValidDateTime(s) && ValidDateTime(t) && s.offset == t.offset
    requires WeekStartDay(s.local.date) == WeekStartDay(t.local.date)
    ensures BeginningOfWeek(s) == BeginningOfWeek(t)
  {
    var rs, rt := BeginningOfWeek(s), BeginningOfWeek(t);
    if rs.Ok? {
      EpochDayOrder(rs.value.local.date, rt.value.local.date);
    }
  }

  lemma SameWeekSameEnd(s: DateTime, t: DateTime)
    requires ValidDateTime(s) && ValidDateTime(t) && s.offset == t.offset
    requires WeekStartDay(s.local.date) == WeekStartDay(t.local.date)
    ensures EndOfWeek(s) == EndOfWeek(t)
  {
    var rs, rt := EndOfWeek(s), EndOfWeek(t);
    if rs.Ok? {
      EpochDayOrder(rs.value.local.date, rt.value.local.date);
    }
  }

  /** Applying a boundary to its own result changes nothing, and the other
      edge of a boundary is the other edge of the original period. */
  lemma Idempotence(u: Unit, e: Edge, t: DateTime, e': Edge)
    requires ValidDateTime(t) && !Overflows(u, e, t)
    ensures Boundary(u, e, Boundary(u, e, t).value) == Boundary(u, e, t)
    ensures Boundary(u, e', Boundary(u, e, t).value) == Boundary(u, e', t)
  {
    var r := Boundary(u, e, t).value;
    Containment(u, e, t);
    SamePeriodSameBoundary(u, e, r, t);
    SamePeriodSameBoundary(u, e', r, t);
  }

  // ---------------------------------------------------------------------------
  // Period lengths and adjacency

  /** The end is the beginning plus the period's length, minus one nanosecond:
      a minute, an hour, a day, seven days, the month's days, the quarter's
      three months, the year's days. */
  lemma PeriodLength(u: Unit, t: DateTime)
    requires ValidDateTime(t)
    requires !Overflows(u, Beginning, t) && !Overflows(u, End, t)
    ensures Timestamp(Finish(u, t)) + 1 == Timestamp(Begin(u, t)) + PeriodNanos(u, Begin(u, t).local)
  {
    match u
    case Minute =>
    case Hour =>
    case Day =>
    case Week => WeekLength(t);
    case Month => MonthLength(t);
    case Quarter =>
      var q := QuarterFirstMonth(t.local.date.month);
      assert Begin(Quarter, t).local.date == Date(t.local.date.year, q, 1);
      assert QuarterFirstMonth(q) == q;
      QuarterLength(t);
    case Year => YearLength(t);
  }

  lemma WeekLength(t: DateTime)
    requires ValidDateTime(t)
    requires !Overflows(Week, Beginning, t) && !Overflows(Week, End, t)
    ensures Timestamp(Finish(Week, t)) + 1 == Timestamp(Begin(Week, t)) + 7 * NanosPerDay
  {
    DaysLength(Begin(Week, t).local, Finish(Week, t).local, 7);
  }

  lemma MonthLength(t: DateTime)
    requires ValidDateTime(t) && !Overflows(Month, End, t)
    ensures Timestamp(Finish(Month, t)) + 1 ==
      Timestamp(Begin(Month, t)) + DaysInMonth(t.local.date.year, t.local.date.month) * NanosPerDay
  {
    DaysLength(Begin(Month, t).local, Finish(Month, t).local,
      DaysInMonth(t.local.date.year, t.local.date.month));
  }

  lemma QuarterLength(t: DateTime)
    requires ValidDateTime(t) && !Overflows(Quarter, End, t)
    ensures var y, q := t.local.date.year, QuarterFirstMonth(t.local.date.month);
      Timestamp(Finish(Quarter, t)) + 1 == Timestamp(Begin(Quarter, t))
        + (DaysInMonth(y, q) + DaysInMonth(y, q + 1) + DaysInMonth(y, q + 2)) * NanosPerDay
  {
    var y, q := t.local.date.year, QuarterFirstMonth(t.local.date.month);
    MonthStep(y, q);
    MonthStep(y, q + 1);
    DaysLength(Begin(Quarter, t).local, Finish(Quarter, t).local,
      DaysInMonth(y, q) + DaysInMonth(y, q + 1) + DaysInMonth(y, q + 2));
  }

  lemma YearLength(t: DateTime)
    requires ValidDateTime(t)
    ensures Timestamp(Finish(Year, t)) + 1 ==
      Timestamp(Begin(Year, t)) + DaysInYear(t.local.date.year) * NanosPerDay
  {
    LastMonth(t.local.date.year);
    DaysLength(Begin(Year, t).local, Finish(Year, t).local, DaysInYear(t.local.date.year));
  }

  /** A run of `days` whole days from a midnight to a last nanosecond. */
  lemma DaysLength(b: NaiveDateTime, f: NaiveDateTime, days: int)
    requires Valid(b) && Valid(f) && b == Midnight(b.date) && f == LastInstant(f.date)
    requires EpochDay(f.date) == EpochDay(b.date) + days - 1
    ensures LocalNanos(f) + 1 == LocalNanos(b) + days * NanosPerDay
  {
  }

  /** The nanosecond after an end boundary (when it is still representable)
      is the beginning of the next period of that unit, outside `t`'s period. */
  lemma Adjacency(u: Unit, t: DateTime)
    requires ValidDateTime(t) && !Overflows(u, End, t)
    requires InRange(AddNanosecond(Finish(u, t).local).date)
    ensures var s := DateTime(AddNanosecond(Finish(u, t).local), t.offset);
      && ValidDateTime(s)
      && Timestamp(s) == Timestamp(Finish(u, t)) + 1
      && !Overflows(u, Beginning, s) && Begin(u, s) == s
      && !SamePeriod(u, s.local, t.local)
  {
    var f := Finish(u, t);
    var s := DateTime(AddNanosecond(f.local), t.offset);
    NextIsBeginning(u, t);
    if SamePeriod(u, s.local, t.local) {
      SamePeriodSameBoundary(u, End, s, t);
      Ordering(u, s);
      assert false;
    }
  }

  /** Helper of `Adjacency`: the successor of an end boundary is a beginning. */
  lemma NextIsBeginning(u: Unit, t: DateTime)
    requires ValidDateTime(t) && !Overflows(u, End, t)
    requires InRange(AddNanosecond(Finish(u, t).local).date)
    ensures var s := DateTime(AddNanosecond(Finish(u, t).local), t.offset);
      ValidDateTime(s) && !Overflows(u, Beginning, s) && Begin(u, s) == s
  {
    if u == Week {
      NextIsBeginningOfWeek(t);
    }
  }

  /** The nanosecond after a Sunday's last one is a Monday midnight. */
  lemma NextIsBeginningOfWeek(t: DateTime)
    requires ValidDateTime(t) && !Overflows(Week, End, t)
    requires InRange(AddNanosecond(Finish(Week, t).local).date)
    ensures var s := DateTime(AddNanosecond(Finish(Week, t).local), t.offset);
      ValidDateTime(s) && !Overflows(Week, Beginning, s) && Begin(Week, s) == s
  {
    var f := Finish(Week, t);
    var n := AddNanosecond(f.local);
    assert n == Midnight(NextDay(f.local.date));
    WeekdayNext(f.local.date);
    EpochDayOrder(Date(MinYear, 1, 1), n.date);
    MondayMidnightIsWeekBeginning(DateTime(n, t.offset));
  }

  /** `beginning_of_week` of a Monday midnight steps back zero days and
      returns its input. */
  lemma MondayMidnightIsWeekBeginning(s: DateTime)
    requires ValidDateTime(s) && Weekday(s.local.date) == 1
    requires s.local == Midnight(s.local.date)
    ensures BeginningOfWeek(s) == Ok(s)
  {
    assert SubWholeDays(s.local, 0) == s.local;
    assert MinusDays(s, 0) == Ok(s);
  }
}
