/** Properties of src/moment.c that relate several operations: what each component
    setter and each unit of arithmetic does, inverses and round trips, the order the
    comparisons define, and the edges of the supported range. */
module MomentLaws {
  import opened CInt
  import opened MomentTypes
  import opened MomentOps
  import Calendar

  // ---------------------------------------------------------------------------
  // Identity of moments

  /** A moment is fixed by its local day, second of day, fraction and offset. */
  lemma SameLocalDay(a: Moment, b: Moment)
    requires Valid(a) && Valid(b)
    requires LocalRd(a) == LocalRd(b) && MomentOps.SecondOfDay(a) == MomentOps.SecondOfDay(b)
    requires a.nsec == b.nsec && a.offset == b.offset
    ensures a == b
  {
  }

  // ---------------------------------------------------------------------------
  // Replacing components

  /** The components that name a part of the date. */
  predicate IsDateComponent(c: Component) {
    match c
    case Year | MonthOfYear | WeekOfYear | DayOfYear | DayOfQuarter | DayOfMonth | DayOfWeek => true
    case _ => false
  }

  /** Setting a date component refuses a value outside its range, reads the value back
      on success and keeps the time of day. */
  lemma WithDateComponent(mt: Moment, c: Component, v: int64)
    requires Valid(mt) && IsDateComponent(c)
    ensures var r := WithComponent(mt, c, v);
      && (!ComponentInRange(c, v) ==> r == Err(InvalidComponent))
      && (r.Ok? ==> ComponentOf(r.value, c) == v && SameTimeOfDay(r.value, mt))
  {
  }

  /** Setting a time component refuses a value outside its range and reads the value
      back on success; only 86_400_000 milliseconds of day leave the local day, and read
      back as 0. */
  lemma WithTimeComponent(mt: Moment, c: Component, v: int64)
    requires Valid(mt) && !IsDateComponent(c)
    ensures var r := WithComponent(mt, c, v);
      && (!ComponentInRange(c, v) ==> r == Err(InvalidComponent))
      && (r.Ok? ==> ComponentOf(r.value, c) == (if c == MilliOfDay && v == 86400000 then 0 else v))
      && (r.Ok? && !(c == MilliOfDay && v == 86400000) ==> LocalRd(r.value) == LocalRd(mt))
  {
  }

  /** The civil-date setters given the moment's own year, month or day of month. */
  lemma OwnCivilDate(mt: Moment)
    requires Valid(mt)
    ensures WithYear(mt, MomentOps.Year(mt)) == Ok(mt)
    ensures WithMonth(mt, Month(mt)) == Ok(mt)
    ensures WithDayOfMonth(mt, MomentOps.DayOfMonth(mt)) == Ok(mt)
  {
    SameLocalDay(WithYear(mt, MomentOps.Year(mt)).value, mt);
    SameLocalDay(WithMonth(mt, Month(mt)).value, mt);
    SameLocalDay(WithDayOfMonth(mt, MomentOps.DayOfMonth(mt)).value, mt);
  }

  /** The ISO week setters given the moment's own week or day of week. */
  lemma OwnWeekDate(mt: Moment)
    requires Valid(mt)
    ensures WithWeek(mt, Week(mt)) == Ok(mt)
    ensures WithDayOfWeek(mt, MomentOps.DayOfWeek(mt)) == Ok(mt)
  {
    SameLocalDay(WithWeek(mt, Week(mt)).value, mt);
    SameLocalDay(WithDayOfWeek(mt, MomentOps.DayOfWeek(mt)).value, mt);
  }

  /** The ordinal and quarter setters given the moment's own value. */
  lemma OwnOrdinalDate(mt: Moment)
    requires Valid(mt)
    ensures WithDayOfYear(mt, MomentOps.DayOfYear(mt)) == Ok(mt)
    ensures WithDayOfQuarter(mt, MomentOps.DayOfQuarter(mt)) == Ok(mt)
  {
    SameLocalDay(WithDayOfYear(mt, MomentOps.DayOfYear(mt)).value, mt);
    SameLocalDay(WithDayOfQuarter(mt, MomentOps.DayOfQuarter(mt)).value, mt);
  }

  /** The hour, minute and second setters given the moment's own value. */
  lemma OwnTimeOfDay(mt: Moment)
    requires Valid(mt)
    ensures WithHour(mt, Hour(mt)) == Ok(mt)
    ensures WithMinute(mt, Minute(mt)) == Ok(mt)
    ensures WithMinuteOfDay(mt, MomentOps.MinuteOfDay(mt)) == Ok(mt)
  {
    LocalFields(mt);
    LocalFields(WithHour(mt, Hour(mt)).value);
    LocalFields(WithMinute(mt, Minute(mt)).value);
    LocalFields(WithMinuteOfDay(mt, MomentOps.MinuteOfDay(mt)).value);
  }

  lemma OwnSeconds(mt: Moment)
    requires Valid(mt)
    ensures WithSecond(mt, Second(mt)) == Ok(mt)
    ensures WithSecondOfDay(mt, MomentOps.SecondOfDay(mt)) == Ok(mt)
    ensures WithNanosecond(mt, Nanosecond(mt)) == Ok(mt)
  {
    LocalFields(mt);
    LocalFields(WithSecond(mt, Second(mt)).value);
  }

  /** Setting a date component to the value it has gives back the same moment. */
  lemma WithOwnDateComponent(mt: Moment, c: Component)
    requires Valid(mt) && IsDateComponent(c)
    ensures WithComponent(mt, c, ComponentOf(mt, c)) == Ok(mt)
  {
    OwnCivilDate(mt);
    OwnWeekDate(mt);
    OwnOrdinalDate(mt);
  }

  /** Setting a time component other than a millisecond or microsecond to the value it
      has gives back the same moment. */
  lemma WithOwnTimeComponent(mt: Moment, c: Component)
    requires Valid(mt) && !IsDateComponent(c)
    requires c != MilliOfSecond && c != MilliOfDay && c != MicroOfSecond
    ensures WithComponent(mt, c, ComponentOf(mt, c)) == Ok(mt)
  {
    OwnTimeOfDay(mt);
    OwnSeconds(mt);
  }

  /** The millisecond and microsecond setters replace the whole fraction of the second,
      so setting them to their own value is the identity exactly when the digits below
      them are zero. */
  lemma WithOwnSubsecond(mt: Moment)
    requires Valid(mt)
    ensures WithComponent(mt, MilliOfSecond, Millisecond(mt)) == Ok(mt) <==> mt.nsec % 1000000 == 0
    ensures WithComponent(mt, MicroOfSecond, Microsecond(mt)) == Ok(mt) <==> mt.nsec % 1000 == 0
    ensures WithComponent(mt, MilliOfDay, MillisecondOfDay(mt)) == Ok(mt) <==> mt.nsec % 1000000 == 0
  {
    var ms, us := Millisecond(mt), Microsecond(mt);
    DivModUnique(mt.nsec, 1000000, ms, mt.nsec - ms * 1000000);
    DivModUnique(mt.nsec, 1000, us, mt.nsec - us * 1000);
    var n := WithComponent(mt, MilliOfDay, MillisecondOfDay(mt)).value;
    DivModUnique(n.nsec, 1000000, Millisecond(n), n.nsec - Millisecond(n) * 1000000);
  }

  /** `THX_moment_with_day_of_week` stays in the same ISO 8601 week. */
  lemma WithDayOfWeekSameWeek(mt: Moment, v: int64)
    requires Valid(mt) && WithDayOfWeek(mt, v).Ok?
    ensures var wd := WeekDateOf(mt);
      WeekDateOf(WithDayOfWeek(mt, v).value) == Calendar.WeekDate(wd.year, wd.week, v)
  {
    var n := WithDayOfWeek(mt, v).value;
    var wd := WeekDateOf(mt);
    assert wd.day == MomentOps.DayOfWeek(mt);
    assert Calendar.FromYwd(wd.year, wd.week, v) == LocalDt(n);
    Calendar.ToYwdFromYwd(wd.year, wd.week, v);
  }

  // ---------------------------------------------------------------------------
  // Arithmetic by unit

  /** Units shorter than a second. */
  predicate IsSubsecondUnit(u: Unit) {
    u == Millis || u == Micros || u == Nanos
  }

  /** A shift by whole days fits when the shifted local day is in range. */
  lemma DayShift(mt: Moment, k: int)
    requires Valid(mt)
    ensures ShiftFits(mt, k * 86400 * NANOS_PER_SEC) <==> 1 <= LocalRd(mt) + k <= 3652059
  {
    ShiftWhole(mt, k * 86400);
    assert k * 86400 * NANOS_PER_SEC == (k * 86400) * NANOS_PER_SEC;
  }

  /** C's quotient and remainder of an amount of subunits, each scaled to nanoseconds,
      add up to the amount in nanoseconds. */
  lemma SplitFraction(v: int, per: int, unit: int)
    requires per > 0 && per * unit == NANOS_PER_SEC
    ensures CDiv(v, per) * NANOS_PER_SEC + CMod(v, per) * unit == v * unit
  {
    assert v * unit == (per * CDiv(v, per) + CMod(v, per)) * unit;
  }

  /** `PlusTime` moves the instant by the signed sum of its parts. */
  lemma PartsShift(mt: Moment, sec: int64, nsec: int64, sign: int64)
    requires Valid(mt) && (sign == 1 || sign == -1) && MIN_UNIT_SECONDS <= sec <= MAX_UNIT_SECONDS
    ensures var r := PlusTime(mt, sec, nsec, sign); var d := sign * (sec * NANOS_PER_SEC + nsec);
      && (r.Ok? <==> ShiftFits(mt, d))
      && (r.Err? ==> r.error == OutOfRange)
      && (r.Ok? ==> TotalNanos(r.value) == TotalNanos(mt) + d)
  {
  }

  /** What plus/minus promise for an exact unit `u` and amount `v` whose result `r`
      should lie `d` nanoseconds from `mt`: it succeeds exactly when `v` is within the
      unit's bound and the moved local time is in range; past the bound it reports an
      overflow and otherwise out of range; a result is `d` nanoseconds away on the
      time line, at the same offset. */
  predicate ShiftsBy(mt: Moment, u: Unit, v: int, r: Result<Moment>, d: int)
    requires Valid(mt)
  {
    && (r.Ok? <==> UnitInRange(u, v) && ShiftFits(mt, d))
    && (r.Err? ==> r.error == (if UnitInRange(u, v) then OutOfRange else Overflow))
    && (r.Ok? ==> Valid(r.value) && TotalNanos(r.value) == TotalNanos(mt) + d && r.value.offset == mt.offset)
  }

  /** Weeks move the local day by seven days each. */
  lemma PlusUnitWeeks(mt: Moment, v: int64)
    requires Valid(mt)
    ensures ShiftsBy(mt, Weeks, v, PlusUnit(mt, Weeks, v), v * UnitNanos(Weeks))
  {
    DayShift(mt, (v as int) * 7);
    assert v * UnitNanos(Weeks) == ((v as int) * 7) * 86400 * NANOS_PER_SEC;
    if UnitInRange(Weeks, v) {
      assert UnitInRange(Days, (v as int) * 7) && UnitInRange(Days, -(v as int) * 7);
    }
  }

  lemma MinusUnitWeeks(mt: Moment, v: int64)
    requires Valid(mt)
    ensures ShiftsBy(mt, Weeks, v, MinusUnit(mt, Weeks, v), -(v * UnitNanos(Weeks)))
  {
    DayShift(mt, -(v as int) * 7);
    assert -(v * UnitNanos(Weeks)) == (-(v as int) * 7) * 86400 * NANOS_PER_SEC;
    if UnitInRange(Weeks, v) {
      assert UnitInRange(Days, (v as int) * 7) && UnitInRange(Days, -(v as int) * 7);
    }
  }

  /** Days move the local day; the time of day and offset stay. */
  lemma PlusUnitDays(mt: Moment, v: int64)
    requires Valid(mt)
    ensures ShiftsBy(mt, Days, v, PlusUnit(mt, Days, v), v * UnitNanos(Days))
  {
    DayShift(mt, v as int);
    assert v * UnitNanos(Days) == v * 86400 * NANOS_PER_SEC;
  }

  lemma MinusUnitDays(mt: Moment, v: int64)
    requires Valid(mt)
    ensures ShiftsBy(mt, Days, v, MinusUnit(mt, Days, v), -(v * UnitNanos(Days)))
  {
    DayShift(mt, -(v as int));
    assert -(v * UnitNanos(Days)) == (-(v as int)) * 86400 * NANOS_PER_SEC;
  }

  /** Hours move the instant by 3600 seconds each. */
  lemma PlusUnitHours(mt: Moment, v: int64)
    requires Valid(mt)
    ensures ShiftsBy(mt, Hours, v, PlusUnit(mt, Hours, v), v * UnitNanos(Hours))
  {
    ShiftWhole(mt, (v as int) * 3600);
    assert v * UnitNanos(Hours) == (v * 3600) * NANOS_PER_SEC;
  }

  lemma MinusUnitHours(mt: Moment, v: int64)
    requires Valid(mt)
    ensures ShiftsBy(mt, Hours, v, MinusUnit(mt, Hours, v), -(v * UnitNanos(Hours)))
  {
    ShiftWhole(mt, -(v as int) * 3600);
    assert -(v * UnitNanos(Hours)) == (-(v as int) * 3600) * NANOS_PER_SEC;
  }

  /** Minutes move the instant by 60 seconds each. */
  lemma PlusUnitMinutes(mt: Moment, v: int64)
    requires Valid(mt)
    ensures ShiftsBy(mt, Minutes, v, PlusUnit(mt, Minutes, v), v * UnitNanos(Minutes))
  {
    ShiftWhole(mt, (v as int) * 60);
    assert v * UnitNanos(Minutes) == (v * 60) * NANOS_PER_SEC;
  }

  lemma MinusUnitMinutes(mt: Moment, v: int64)
    requires Valid(mt)
    ensures ShiftsBy(mt, Minutes, v, MinusUnit(mt, Minutes, v), -(v * UnitNanos(Minutes)))
  {
    ShiftWhole(mt, -(v as int) * 60);
    assert -(v * UnitNanos(Minutes)) == (-(v as int) * 60) * NANOS_PER_SEC;
  }

  /** Seconds move the instant. */
  lemma PlusUnitSeconds(mt: Moment, v: int64)
    requires Valid(mt)
    ensures ShiftsBy(mt, Seconds, v, PlusUnit(mt, Seconds, v), v * UnitNanos(Seconds))
  {
    ShiftWhole(mt, v as int);
    assert v * UnitNanos(Seconds) == v * NANOS_PER_SEC;
  }

  lemma MinusUnitSeconds(mt: Moment, v: int64)
    requires Valid(mt)
    ensures ShiftsBy(mt, Seconds, v, MinusUnit(mt, Seconds, v), -(v * UnitNanos(Seconds)))
  {
    ShiftWhole(mt, -(v as int));
    assert -(v * UnitNanos(Seconds)) == (-(v as int)) * NANOS_PER_SEC;
  }

  /** Milliseconds are split, as in C, into whole seconds and a signed remainder; the split loses nothing. */
  lemma PlusUnitMillis(mt: Moment, v: int64)
    requires Valid(mt)
    ensures ShiftsBy(mt, Millis, v, PlusUnit(mt, Millis, v), v * UnitNanos(Millis))
  {
    if UnitInRange(Millis, v) {
      var q, f := CDiv(v, 1000), CMod(v, 1000) * 1000000;
      SplitFraction(v, 1000, 1000000);
      PartsShift(mt, q, f, 1);
      assert v * UnitNanos(Millis) == 1 * (q * NANOS_PER_SEC + f);
    }
  }

  lemma MinusUnitMillis(mt: Moment, v: int64)
    requires Valid(mt)
    ensures ShiftsBy(mt, Millis, v, MinusUnit(mt, Millis, v), -(v * UnitNanos(Millis)))
  {
    if UnitInRange(Millis, v) {
      var q, f := CDiv(v, 1000), CMod(v, 1000) * 1000000;
      SplitFraction(v, 1000, 1000000);
      PartsShift(mt, q, f, -1);
      assert -(v * UnitNanos(Millis)) == -1 * (q * NANOS_PER_SEC + f);
    }
  }

  /** Microseconds are split like milliseconds. */
  lemma PlusUnitMicros(mt: Moment, v: int64)
    requires Valid(mt)
    ensures ShiftsBy(mt, Micros, v, PlusUnit(mt, Micros, v), v * UnitNanos(Micros))
  {
    if UnitInRange(Micros, v) {
      var q, f := CDiv(v, 1000000), CMod(v, 1000000) * 1000;
      SplitFraction(v, 1000000, 1000);
      PartsShift(mt, q, f, 1);
      assert v * UnitNanos(Micros) == 1 * (q * NANOS_PER_SEC + f);
    }
  }

  lemma MinusUnitMicros(mt: Moment, v: int64)
    requires Valid(mt)
    ensures ShiftsBy(mt, Micros, v, MinusUnit(mt, Micros, v), -(v * UnitNanos(Micros)))
  {
    if UnitInRange(Micros, v) {
      var q, f := CDiv(v, 1000000), CMod(v, 1000000) * 1000;
      SplitFraction(v, 1000000, 1000);
      PartsShift(mt, q, f, -1);
      assert -(v * UnitNanos(Micros)) == -1 * (q * NANOS_PER_SEC + f);
    }
  }

  /** Nanoseconds have no bound; only the range can refuse them. */
  lemma PlusUnitNanos(mt: Moment, v: int64)
    requires Valid(mt)
    ensures ShiftsBy(mt, Nanos, v, PlusUnit(mt, Nanos, v), v * UnitNanos(Nanos))
  {
    PartsShift(mt, 0, v, 1);
    assert v * UnitNanos(Nanos) == 1 * (0 * NANOS_PER_SEC + v);
  }

  lemma MinusUnitNanos(mt: Moment, v: int64)
    requires Valid(mt)
    ensures ShiftsBy(mt, Nanos, v, MinusUnit(mt, Nanos, v), -(v * UnitNanos(Nanos)))
  {
    PartsShift(mt, 0, v, -1);
    assert -(v * UnitNanos(Nanos)) == -1 * (0 * NANOS_PER_SEC + v);
  }

  lemma PlusDayUnits(mt: Moment, u: Unit, v: int64)
    requires Valid(mt) && (u == Weeks || u == Days)
    ensures ShiftsBy(mt, u, v, PlusUnit(mt, u, v), v * UnitNanos(u))
  {
    if u == Weeks { PlusUnitWeeks(mt, v); } else { PlusUnitDays(mt, v); }
  }

  lemma PlusClockUnits(mt: Moment, u: Unit, v: int64)
    requires Valid(mt) && (u == Hours || u == Minutes || u == Seconds)
    ensures ShiftsBy(mt, u, v, PlusUnit(mt, u, v), v * UnitNanos(u))
  {
    if u == Hours { PlusUnitHours(mt, v); }
    else if u == Minutes { PlusUnitMinutes(mt, v); }
    else { PlusUnitSeconds(mt, v); }
  }

  lemma PlusSubsecondUnits(mt: Moment, u: Unit, v: int64)
    requires Valid(mt) && IsSubsecondUnit(u)
    ensures ShiftsBy(mt, u, v, PlusUnit(mt, u, v), v * UnitNanos(u))
  {
    if u == Millis { PlusUnitMillis(mt, v); }
    else if u == Micros { PlusUnitMicros(mt, v); }
    else { PlusUnitNanos(mt, v); }
  }

  lemma MinusDayUnits(mt: Moment, u: Unit, v: int64)
    requires Valid(mt) && (u == Weeks || u == Days)
    ensures ShiftsBy(mt, u, v, MinusUnit(mt, u, v), -(v * UnitNanos(u)))
  {
    if u == Weeks { MinusUnitWeeks(mt, v); } else { MinusUnitDays(mt, v); }
  }

  lemma MinusClockUnits(mt: Moment, u: Unit, v: int64)
    requires Valid(mt) && (u == Hours || u == Minutes || u == Seconds)
    ensures ShiftsBy(mt, u, v, MinusUnit(mt, u, v), -(v * UnitNanos(u)))
  {
    if u == Hours { MinusUnitHours(mt, v); }
    else if u == Minutes { MinusUnitMinutes(mt, v); }
    else { MinusUnitSeconds(mt, v); }
  }

  lemma MinusSubsecondUnits(mt: Moment, u: Unit, v: int64)
    requires Valid(mt) && IsSubsecondUnit(u)
    ensures ShiftsBy(mt, u, v, MinusUnit(mt, u, v), -(v * UnitNanos(u)))
  {
    if u == Millis { MinusUnitMillis(mt, v); }
    else if u == Micros { MinusUnitMicros(mt, v); }
    else { MinusUnitNanos(mt, v); }
  }

  /** Every exact unit moves the instant forward by the amount times the unit's length. */
  lemma PlusExact(mt: Moment, u: Unit, v: int64)
    requires Valid(mt) && IsExact(u)
    ensures ShiftsBy(mt, u, v, PlusUnit(mt, u, v), v * UnitNanos(u))
  {
    if u == Weeks || u == Days { PlusDayUnits(mt, u, v); }
    else if u == Hours || u == Minutes || u == Seconds { PlusClockUnits(mt, u, v); }
    else { PlusSubsecondUnits(mt, u, v); }
  }

  /** Every exact unit moves the instant back by the amount times the unit's length. */
  lemma MinusExact(mt: Moment, u: Unit, v: int64)
    requires Valid(mt) && IsExact(u)
    ensures ShiftsBy(mt, u, v, MinusUnit(mt, u, v), -(v * UnitNanos(u)))
  {
    if u == Weeks || u == Days { MinusDayUnits(mt, u, v); }
    else if u == Hours || u == Minutes || u == Seconds { MinusClockUnits(mt, u, v); }
    else { MinusSubsecondUnits(mt, u, v); }
  }

  /** What plus/minus promise for years or months when the month count should move by
      `k`: success exactly when the amount is within its bound and the target month is
      in years 1..9999; past the bound an overflow and otherwise out of range; a result
      has the target month count, the day of month clamped to the target month's
      length, the same time of day and the same offset. */
  predicate MovesMonthsBy(mt: Moment, u: Unit, v: int, r: Result<Moment>, k: int)
    requires Valid(mt)
  {
    && (r.Ok? <==> UnitInRange(u, v) && 13 <= MonthCount(mt) + k <= 9999 * 12 + 12)
    && (r.Err? ==> r.error == (if UnitInRange(u, v) then OutOfRange else Overflow))
    && (r.Ok? ==> && Valid(r.value) && MonthCount(r.value) == MonthCount(mt) + k
                  && DateOf(r.value).day
                     == Calendar.Min(DateOf(mt).day, Calendar.DaysInMonth(DateOf(r.value).year, DateOf(r.value).month))
                  && SameTimeOfDay(r.value, mt) && r.value.offset == mt.offset)
  }

  /** Years are twelve months each. */
  lemma PlusUnitYears(mt: Moment, v: int64)
    requires Valid(mt)
    ensures MovesMonthsBy(mt, Years, v, PlusUnit(mt, Years, v), v * 12)
  {
  }

  lemma MinusUnitYears(mt: Moment, v: int64)
    requires Valid(mt)
    ensures MovesMonthsBy(mt, Years, v, MinusUnit(mt, Years, v), -(v * 12))
  {
  }

  lemma PlusUnitMonths(mt: Moment, v: int64)
    requires Valid(mt)
    ensures MovesMonthsBy(mt, Months, v, PlusUnit(mt, Months, v), v as int)
  {
  }

  lemma MinusUnitMonths(mt: Moment, v: int64)
    requires Valid(mt)
    ensures MovesMonthsBy(mt, Months, v, MinusUnit(mt, Months, v), -(v as int))
  {
  }

  /** Years and months move the month count forward by the amount times the unit's months. */
  lemma PlusCalendar(mt: Moment, u: Unit, v: int64)
    requires Valid(mt) && !IsExact(u)
    ensures MovesMonthsBy(mt, u, v, PlusUnit(mt, u, v), v * MonthsPerUnit(u))
  {
    if u == Years { PlusUnitYears(mt, v); } else { PlusUnitMonths(mt, v); }
  }

  /** Years and months move the month count back. */
  lemma MinusCalendar(mt: Moment, u: Unit, v: int64)
    requires Valid(mt) && !IsExact(u)
    ensures MovesMonthsBy(mt, u, v, MinusUnit(mt, u, v), -(v * MonthsPerUnit(u)))
  {
    if u == Years { MinusUnitYears(mt, v); } else { MinusUnitMonths(mt, v); }
  }

  /** The unit bounds never reject an amount whose result would be representable: an
      amount out of bounds would also have left the range, so the bound decides only
      which error is reported. */
  lemma UnitBoundNeverCuts(mt: Moment, u: Unit, v: int)
    requires Valid(mt) && !UnitInRange(u, v)
    ensures IsExact(u) ==> !ShiftFits(mt, v * UnitNanos(u)) && !ShiftFits(mt, -(v * UnitNanos(u)))
    ensures !IsExact(u) ==> !(13 <= MonthCount(mt) + v * MonthsPerUnit(u) <= 9999 * 12 + 12)
    ensures !IsExact(u) ==> !(13 <= MonthCount(mt) - v * MonthsPerUnit(u) <= 9999 * 12 + 12)
  {
    var t := TotalNanos(mt);
    assert (MIN_RANGE - 1080 * 60) * NANOS_PER_SEC <= t < (MAX_RANGE + 1080 * 60 + 1) * NANOS_PER_SEC;
    if IsExact(u) {
      var lo := MAX_UNIT_SECONDS * NANOS_PER_SEC;
      assert v * UnitNanos(u) > lo || v * UnitNanos(u) < -lo by {
        match u
        case Weeks =>
        case Days =>
        case Hours =>
        case Minutes =>
        case Seconds =>
        case Millis =>
        case Micros =>
      }
    }
  }

  // ---------------------------------------------------------------------------
  // Inverses

  /** Subtracting what was added gives back the moment, for every exact unit. */
  lemma PlusThenMinus(mt: Moment, u: Unit, v: int64)
    requires Valid(mt) && IsExact(u) && PlusUnit(mt, u, v).Ok?
    ensures MinusUnit(PlusUnit(mt, u, v).value, u, v) == Ok(mt)
  {
    var n := PlusUnit(mt, u, v).value;
    PlusExact(mt, u, v);
    MinusExact(n, u, v);
    DivModUnique(TotalNanos(mt), NANOS_PER_SEC, InstantRdSeconds(mt), mt.nsec);
    TotalNanosInjective(MinusUnit(n, u, v).value, mt);
  }

  /** Adding what was subtracted gives back the moment, for every exact unit. */
  lemma MinusThenPlus(mt: Moment, u: Unit, v: int64)
    requires Valid(mt) && IsExact(u) && MinusUnit(mt, u, v).Ok?
    ensures PlusUnit(MinusUnit(mt, u, v).value, u, v) == Ok(mt)
  {
    var n := MinusUnit(mt, u, v).value;
    MinusExact(mt, u, v);
    PlusExact(n, u, v);
    DivModUnique(TotalNanos(mt), NANOS_PER_SEC, InstantRdSeconds(mt), mt.nsec);
    TotalNanosInjective(PlusUnit(n, u, v).value, mt);
  }

  /** Years and months are undone by subtracting them when the day of month was kept;
      when it was clamped the original day is lost. */
  lemma PlusThenMinusMonths(mt: Moment, u: Unit, v: int64)
    requires Valid(mt) && !IsExact(u) && PlusUnit(mt, u, v).Ok?
    requires DateOf(PlusUnit(mt, u, v).value).day == DateOf(mt).day
    ensures MinusUnit(PlusUnit(mt, u, v).value, u, v) == Ok(mt)
  {
    var n := PlusUnit(mt, u, v).value;
    PlusCalendar(mt, u, v);
    MinusCalendar(n, u, v);
    var m := MinusUnit(n, u, v).value;
    var d, e := DateOf(mt), DateOf(m);
    Calendar.MonthCountUnique(d.year, d.month, e.year, e.month);
    assert e == d;
    SameLocalDay(m, mt);
  }

  /** The day of month is clamped, so the inverse fails: one month after January 31 is
      the last day of February, and one month before that is not January 31. */
  lemma MonthEndClamps(mt: Moment)
    requires Valid(mt) && DateOf(mt).month == 1 && DateOf(mt).day == 31
    ensures var y := DateOf(mt).year; var r := PlusUnit(mt, Months, 1);
      && r.Ok? && DateOf(r.value) == Calendar.Date(y, 2, Calendar.DaysInMonth(y, 2))
      && MinusUnit(r.value, Months, 1).Ok?
      && DateOf(MinusUnit(r.value, Months, 1).value) == Calendar.Date(y, 1, Calendar.DaysInMonth(y, 2))
      && MinusUnit(r.value, Months, 1) != Ok(mt)
  {
    var y := DateOf(mt).year;
    PlusUnitMonths(mt, 1);
    var n := PlusUnit(mt, Months, 1).value;
    Calendar.MonthCountUnique(DateOf(n).year, DateOf(n).month, y, 2);
    MinusUnitMonths(n, 1);
    var m := MinusUnit(n, Months, 1).value;
    Calendar.MonthCountUnique(DateOf(m).year, DateOf(m).month, y, 1);
  }

  // ---------------------------------------------------------------------------
  // Comparison and equality

  /** Instants compare by UTC seconds first and nanoseconds second. */
  lemma CompareInstantLexicographic(a: Moment, b: Moment)
    requires Valid(a) && Valid(b)
    ensures CompareInstant(a, b) == 0 <==> InstantRdSeconds(a) == InstantRdSeconds(b) && a.nsec == b.nsec
    ensures CompareInstant(a, b) < 0 <==>
      InstantRdSeconds(a) < InstantRdSeconds(b) || (InstantRdSeconds(a) == InstantRdSeconds(b) && a.nsec < b.nsec)
  {
    if TotalNanos(a) == TotalNanos(b) {
      DivModUnique(TotalNanos(a), NANOS_PER_SEC, InstantRdSeconds(a), a.nsec);
      DivModUnique(TotalNanos(a), NANOS_PER_SEC, InstantRdSeconds(b), b.nsec);
    }
  }

  /** Local times compare by local seconds first and nanoseconds second. */
  lemma CompareLocalLexicographic(a: Moment, b: Moment)
    requires Valid(a) && Valid(b)
    ensures CompareLocal(a, b) == 0 <==> a.sec == b.sec && a.nsec == b.nsec
    ensures CompareLocal(a, b) < 0 <==> a.sec < b.sec || (a.sec == b.sec && a.nsec < b.nsec)
  {
    if LocalNanos(a) == LocalNanos(b) {
      DivModUnique(LocalNanos(a), NANOS_PER_SEC, a.sec, a.nsec);
      DivModUnique(LocalNanos(a), NANOS_PER_SEC, b.sec, b.nsec);
    }
  }

  /** `moment_compare_instant` is a total order: antisymmetric and transitive. */
  lemma CompareInstantOrder(a: Moment, b: Moment, c: Moment)
    requires Valid(a) && Valid(b) && Valid(c)
    ensures CompareInstant(a, b) == -CompareInstant(b, a)
    ensures CompareInstant(a, b) <= 0 && CompareInstant(b, c) <= 0 ==> CompareInstant(a, c) <= 0
    ensures CompareInstant(a, b) < 0 && CompareInstant(b, c) <= 0 ==> CompareInstant(a, c) < 0
  {
  }

  /** `moment_compare_local` is a total order as well. */
  lemma CompareLocalOrder(a: Moment, b: Moment, c: Moment)
    requires Valid(a) && Valid(b) && Valid(c)
    ensures CompareLocal(a, b) == -CompareLocal(b, a)
    ensures CompareLocal(a, b) <= 0 && CompareLocal(b, c) <= 0 ==> CompareLocal(a, c) <= 0
    ensures CompareLocal(a, b) < 0 && CompareLocal(b, c) <= 0 ==> CompareLocal(a, c) < 0
  {
  }

  /** At one offset the two orders agree. */
  lemma SameOffsetOrdersAgree(a: Moment, b: Moment)
    requires Valid(a) && Valid(b) && a.offset == b.offset
    ensures CompareInstant(a, b) == CompareLocal(a, b)
  {
  }

  /** Equal moments are the same instant and the same local time; the converse fails:
      10:00+01:00 and 09:00Z on the same day are the same instant but not equal. */
  lemma EqualsAndCompare(a: Moment, b: Moment)
    requires Valid(a) && Valid(b)
    ensures Equals(a, b) ==> CompareInstant(a, b) == 0 && CompareLocal(a, b) == 0
    ensures Equals(a, b) <==> CompareInstant(a, b) == 0 && a.offset == b.offset
  {
    if CompareInstant(a, b) == 0 && a.offset == b.offset {
      TotalNanosInjective(a, b);
    }
  }

  lemma SameInstantNotEqual()
    ensures var a, b := Moment(86400 + 36000, 0, 60), Moment(86400 + 32400, 0, 0);
      && Valid(a) && Valid(b) && CompareInstant(a, b) == 0 && !Equals(a, b) && CompareLocal(a, b) == 1
  {
  }

  /** The same holds for every moment and every other offset: the moment moved to it
      is the same instant, is not equal, and its local time is later exactly when the
      new offset is east of the old one. */
  lemma OtherOffsetNotEqual(mt: Moment, offset: int64)
    requires Valid(mt) && offset != mt.offset && WithOffsetSameInstant(mt, offset).Ok?
    ensures var n := WithOffsetSameInstant(mt, offset).value;
      && CompareInstant(n, mt) == 0 && !Equals(n, mt)
      && (CompareLocal(n, mt) > 0 <==> offset > mt.offset)
      && CompareLocal(n, mt) != 0
  {
    var n := WithOffsetSameInstant(mt, offset).value;
    NanosSplit(n);
    NanosSplit(mt);
  }

  // ---------------------------------------------------------------------------
  // Offsets

  /** Moving to another offset keeps the instant, and moving back restores the moment. */
  lemma OffsetSameInstantRoundTrip(mt: Moment, offset: int64)
    requires Valid(mt) && WithOffsetSameInstant(mt, offset).Ok?
    ensures var n := WithOffsetSameInstant(mt, offset).value;
      && CompareInstant(n, mt) == 0 && n.offset == offset
      && WithOffsetSameInstant(n, mt.offset) == Ok(mt)
  {
    var n := WithOffsetSameInstant(mt, offset).value;
    TotalNanosInjective(WithOffsetSameInstant(n, mt.offset).value, mt);
  }

  /** Relabelling the offset keeps the local time, and relabelling back restores it. */
  lemma OffsetSameLocalRoundTrip(mt: Moment, offset: int64)
    requires Valid(mt) && ValidOffset(offset)
    ensures var n := WithOffsetSameLocal(mt, offset).value;
      && CompareLocal(n, mt) == 0 && n.offset == offset
      && InstantRdSeconds(n) == InstantRdSeconds(mt) + (mt.offset - offset) * 60
      && WithOffsetSameLocal(n, mt.offset) == Ok(mt)
  {
  }

  /** `THX_moment_at_utc` fails exactly for moments whose UTC time is outside the range,
      and is idempotent. */
  lemma AtUtcIdempotent(mt: Moment)
    requires Valid(mt) && AtUtc(mt).Ok?
    ensures AtUtc(AtUtc(mt).value) == AtUtc(mt)
  {
  }

  // ---------------------------------------------------------------------------
  // Round trips through the constructors

  /** A moment rebuilt from its own fields is the same moment. */
  lemma NewRoundTrip(mt: Moment)
    requires Valid(mt)
    ensures New(MomentOps.Year(mt), Month(mt), MomentOps.DayOfMonth(mt), Hour(mt), Minute(mt), Second(mt), mt.nsec, mt.offset)
         == Ok(mt)
  {
    LocalFields(mt);
    var n := New(MomentOps.Year(mt), Month(mt), MomentOps.DayOfMonth(mt), Hour(mt), Minute(mt), Second(mt), mt.nsec, mt.offset).value;
    assert DateOf(n) == DateOf(mt);
    LocalFields(n);
  }

  /** A moment rebuilt from its epoch seconds is the same moment exactly when its UTC
      time is in range: near the ends of the range a moment with an offset can have a
      UTC time that epoch seconds cannot express. */
  lemma EpochRoundTrip(mt: Moment)
    requires Valid(mt)
    ensures FromEpoch(Epoch(mt), mt.nsec, mt.offset) == Ok(mt) <==> InRange(InstantRdSeconds(mt))
  {
  }

  /** The raw constructors rebuild a moment from its local or its UTC seconds. */
  lemma RawRoundTrip(mt: Moment)
    requires Valid(mt)
    ensures FromLocal(LocalRdSeconds(mt), mt.nsec, mt.offset) == Ok(mt)
    ensures FromInstant(InstantRdSeconds(mt), mt.nsec, mt.offset) == Ok(mt)
    ensures ToLocalRdValues(mt) == (LocalRd(mt) as int64, MomentOps.SecondOfDay(mt) as int64, mt.nsec as int64)
  {
  }

  // ---------------------------------------------------------------------------
  // Snapping is idempotent

  lemma AtMidnightIdempotent(mt: Moment)
    requires Valid(mt)
    ensures AtMidnight(AtMidnight(mt).value) == AtMidnight(mt)
  {
  }

  lemma AtNoonIdempotent(mt: Moment)
    requires Valid(mt)
    ensures AtNoon(AtNoon(mt).value) == AtNoon(mt)
  {
  }

  lemma AtLastDayOfYearIdempotent(mt: Moment)
    requires Valid(mt)
    ensures AtLastDayOfYear(AtLastDayOfYear(mt).value) == AtLastDayOfYear(mt)
  {
    var n := AtLastDayOfYear(mt).value;
    SameLocalDay(AtLastDayOfYear(n).value, n);
  }

  lemma AtLastDayOfQuarterIdempotent(mt: Moment)
    requires Valid(mt)
    ensures AtLastDayOfQuarter(AtLastDayOfQuarter(mt).value) == AtLastDayOfQuarter(mt)
  {
    var n := AtLastDayOfQuarter(mt).value;
    SameLocalDay(AtLastDayOfQuarter(n).value, n);
  }

  lemma AtLastDayOfMonthIdempotent(mt: Moment)
    requires Valid(mt)
    ensures AtLastDayOfMonth(AtLastDayOfMonth(mt).value) == AtLastDayOfMonth(mt)
  {
    var n := AtLastDayOfMonth(mt).value;
    SameLocalDay(AtLastDayOfMonth(n).value, n);
  }

  // ---------------------------------------------------------------------------
  // The edges of the range

  /** The local date of a moment whose day number is that of a given date. */
  lemma DateOfDay(mt: Moment, y: int, m: int, d: int)
    requires Valid(mt) && Calendar.ValidDate(y, m, d) && LocalDt(mt) == Calendar.FromYmd(y, m, d)
    ensures DateOf(mt) == Calendar.Date(y, m, d)
  {
    Calendar.ToYmdFromYmd(y, m, d);
  }

  /** The first local second of the range is 0001-01-01T00:00:00. */
  lemma FirstSecondOfRange(mt: Moment)
    requires Valid(mt) && mt.sec == MIN_RANGE
    ensures DateOf(mt) == Calendar.Date(1, 1, 1) && MomentOps.SecondOfDay(mt) == 0
  {
    RangeConstants();
    DateOfDay(mt, 1, 1, 1);
  }

  /** The last local second of the range is 9999-12-31T23:59:59. */
  lemma LastSecondOfRange(mt: Moment)
    requires Valid(mt) && mt.sec == MAX_RANGE
    ensures DateOf(mt) == Calendar.Date(9999, 12, 31) && MomentOps.SecondOfDay(mt) == 86399
  {
    RangeConstants();
    DateOfDay(mt, 9999, 12, 31);
  }

  /** February 29 of a common year is an invalid component, whatever the other fields. */
  lemma NewRejectsFebruary29(y: int64, h: int64, mi: int64, s: int64, nsec: int64, offset: int64)
    requires 1 <= y <= 9999 && !Calendar.IsLeapYear(y)
    ensures New(y, 2, 29, h, mi, s, nsec, offset) == Err(InvalidComponent)
  {
    assert Calendar.DaysInMonth(y, 2) == 28;
  }

  /** Gregorian leap years: divisible by 4, except centuries not divisible by 400. */
  lemma FebruaryLengths()
    ensures Calendar.DaysInMonth(2000, 2) == 29 && Calendar.DaysInMonth(2012, 2) == 29
    ensures Calendar.DaysInMonth(2016, 2) == 29
    ensures Calendar.DaysInMonth(1900, 2) == 28 && Calendar.DaysInMonth(2001, 2) == 28
    ensures Calendar.DaysInMonth(2100, 2) == 28
  {
  }

  /** No moment is 10000 years or more from another: the bound itself is refused as out
      of range and anything past it as an overflow, in either direction. */
  lemma TenThousandYears(mt: Moment, v: int64)
    requires Valid(mt) && (v >= 10000 || v <= -10000)
    ensures PlusUnit(mt, Years, v) == Err(if v == 10000 || v == -10000 then OutOfRange else Overflow)
    ensures MinusUnit(mt, Years, v) == Err(if v == 10000 || v == -10000 then OutOfRange else Overflow)
  {
    PlusUnitYears(mt, v);
    MinusUnitYears(mt, v);
  }
}
