/** The operations of src/moment.c. Every one takes `moment_t` values that satisfy
    `Valid` (the invariant every constructor establishes) and returns a new value or
    the error it would `croak` with. */
module MomentOps {
  import opened CInt
  import opened MomentTypes
  import Calendar

  // ---------------------------------------------------------------------------
  // The range check and the two raw constructors

  /** `THX_moment_check_self`: local seconds from 0001-01-01T00:00:00 to 9999-12-31T23:59:59. */
  predicate InRange(sec: int) {
    MIN_RANGE <= sec <= MAX_RANGE
  }

  /** `THX_moment_from_local`: store local seconds as given. */
  function FromLocal(sec: int64, nsec: int64, offset: int64): (r: Result<Moment>)
    requires 0 <= nsec < NANOS_PER_SEC && -1080 <= offset <= 1080
    ensures r.Ok? <==> InRange(sec)
    ensures r.Ok? ==> Valid(r.value) && r.value == Moment(sec, nsec, offset)
    ensures r.Err? ==> r.error == OutOfRange
  {
    var m := Moment(sec, nsec, offset);
    if InRange(m.sec) then Ok(m) else Err(OutOfRange)
  }

  /** `THX_moment_from_instant`: store UTC seconds shifted by the offset, so that the
      instant seconds of the result are the ones given. */
  function FromInstant(sec: int64, nsec: int64, offset: int64): (r: Result<Moment>)
    requires 0 <= nsec < NANOS_PER_SEC && -1080 <= offset <= 1080
    requires INT64_MIN <= sec + offset * 60 <= INT64_MAX
    ensures r.Ok? <==> InRange(sec + offset * 60)
    ensures r.Ok? ==> Valid(r.value) && InstantRdSeconds(r.value) == sec
    ensures r.Ok? ==> r.value.nsec == nsec && r.value.offset == offset
    ensures r.Err? ==> r.error == OutOfRange
  {
    var local: int64 := sec + offset * 60;
    FromLocal(local, nsec, offset)
  }

  // ---------------------------------------------------------------------------
  // Rata Die seconds and days

  /** `moment_instant_rd_seconds`: UTC Rata Die seconds. */
  function InstantRdSeconds(mt: Moment): (s: int64)
    requires Valid(mt)
    ensures MIN_RANGE - 1080 * 60 <= s <= MAX_RANGE + 1080 * 60
  {
    var shift: int32 := mt.offset * 60;
    mt.sec - shift
  }

  /** `moment_instant_rd`: the UTC day number. */
  function InstantRd(mt: Moment): (rd: int32)
    requires Valid(mt)
    ensures rd * SECS_PER_DAY <= InstantRdSeconds(mt) < rd * SECS_PER_DAY + SECS_PER_DAY
  {
    CDiv(InstantRdSeconds(mt), SECS_PER_DAY)
  }

  /** `moment_to_instant_rd_values`: day number, second of day and nanosecond of the
      UTC instant (the three out-parameters). */
  function ToInstantRdValues(mt: Moment): (r: (int64, int64, int64))
    requires Valid(mt)
    ensures r.0 * SECS_PER_DAY + r.1 == InstantRdSeconds(mt) && 0 <= r.1 < SECS_PER_DAY
    ensures r.2 == mt.nsec
  {
    var sec := InstantRdSeconds(mt);
    (CDiv(sec, SECS_PER_DAY), CMod(sec, SECS_PER_DAY), mt.nsec)
  }

  /** `moment_local_rd_seconds`: the local seconds, which are the UTC seconds moved
      forward by the offset and, for a moment that keeps its invariant, in range. */
  function LocalRdSeconds(mt: Moment): (s: int64)
    ensures Valid(mt) ==> InRange(s) && s == InstantRdSeconds(mt) + mt.offset * 60
  {
    mt.sec
  }

  /** `moment_local_rd`: the local day number, which always lies in 1..3652059. */
  function LocalRd(mt: Moment): (rd: int32)
    requires Valid(mt)
    ensures 1 <= rd <= 3652059
    ensures rd * SECS_PER_DAY <= mt.sec < rd * SECS_PER_DAY + SECS_PER_DAY
  {
    CDiv(LocalRdSeconds(mt), SECS_PER_DAY)
  }

  /** `moment_local_dt`: the local date as a calendar day number (`dt_from_rdn`). */
  function LocalDt(mt: Moment): (dt: int32)
    requires Valid(mt)
    ensures 1 <= dt <= 3652059 && 1 <= Calendar.ToYmd(dt).year <= 9999
  {
    Calendar.YearRange(LocalRd(mt));
    LocalRd(mt)
  }

  /** `moment_to_local_rd_values`. */
  function ToLocalRdValues(mt: Moment): (r: (int64, int64, int64))
    requires Valid(mt)
    ensures r.0 * SECS_PER_DAY + r.1 == mt.sec && 1 <= r.0 <= 3652059 && 0 <= r.1 < SECS_PER_DAY
    ensures r.2 == mt.nsec
  {
    var sec := LocalRdSeconds(mt);
    (CDiv(sec, SECS_PER_DAY), CMod(sec, SECS_PER_DAY), mt.nsec)
  }

  // ---------------------------------------------------------------------------
  // Integer accessors

  function Hour(mt: Moment): (h: int)
    requires Valid(mt)
    ensures 0 <= h <= 23
  {
    CMod(CDiv(LocalRdSeconds(mt), 3600), 24)
  }

  function Minute(mt: Moment): (m: int)
    requires Valid(mt)
    ensures 0 <= m <= 59
  {
    CMod(CDiv(LocalRdSeconds(mt), 60), 60)
  }

  function MinuteOfDay(mt: Moment): (m: int)
    requires Valid(mt)
    ensures 0 <= m <= 1439
  {
    CMod(CDiv(LocalRdSeconds(mt), 60), 1440)
  }

  function Second(mt: Moment): (s: int)
    requires Valid(mt)
    ensures 0 <= s <= 59
  {
    CMod(LocalRdSeconds(mt), 60)
  }

  function SecondOfDay(mt: Moment): (s: int)
    requires Valid(mt)
    ensures 0 <= s <= 86399
    ensures mt.sec == LocalRd(mt) * SECS_PER_DAY + s
  {
    CMod(LocalRdSeconds(mt), SECS_PER_DAY)
  }

  function Millisecond(mt: Moment): (ms: int)
    requires Valid(mt)
    ensures 0 <= ms <= 999
    ensures ms * 1000000 <= mt.nsec < ms * 1000000 + 1000000
  {
    CDiv(mt.nsec, 1000000)
  }

  function MillisecondOfDay(mt: Moment): (ms: int)
    requires Valid(mt)
    ensures 0 <= ms <= 86399999
  {
    SecondOfDay(mt) * 1000 + Millisecond(mt)
  }

  function Microsecond(mt: Moment): (us: int)
    requires Valid(mt)
    ensures 0 <= us <= 999999
    ensures us * 1000 <= mt.nsec < us * 1000 + 1000
  {
    CDiv(mt.nsec, 1000)
  }

  function Nanosecond(mt: Moment): (ns: int)
    requires Valid(mt)
    ensures 0 <= ns <= 999999999
  {
    mt.nsec
  }

  function Offset(mt: Moment): (off: int)
    requires Valid(mt)
    ensures -1080 <= off <= 1080
  {
    mt.offset
  }

  /** `moment_epoch`: seconds since 1970-01-01T00:00:00Z. */
  function Epoch(mt: Moment): (e: int64)
    requires Valid(mt)
    ensures MIN_EPOCH_SEC - 1080 * 60 <= e <= MAX_EPOCH_SEC + 1080 * 60
  {
    InstantRdSeconds(mt) - UNIX_EPOCH
  }

  function Year(mt: Moment): (y: int)
    requires Valid(mt)
    ensures 1 <= y <= 9999
  {
    Calendar.ToYmd(LocalDt(mt)).year
  }

  function Month(mt: Moment): (m: int)
    requires Valid(mt)
    ensures 1 <= m <= 12
  {
    Calendar.ToYmd(LocalDt(mt)).month
  }

  function DayOfMonth(mt: Moment): (d: int)
    requires Valid(mt)
    ensures 1 <= d <= Calendar.DaysInMonth(Year(mt), Month(mt))
  {
    Calendar.ToYmd(LocalDt(mt)).day
  }

  function Quarter(mt: Moment): (q: int)
    requires Valid(mt)
    ensures 1 <= q <= 4 && q == (Month(mt) + 2) / 3
  {
    Calendar.ToYqd(LocalDt(mt)).quarter
  }

  function DayOfQuarter(mt: Moment): (d: int)
    requires Valid(mt)
    ensures 1 <= d <= Calendar.DaysInQuarter(Year(mt), Quarter(mt))
  {
    Calendar.ToYqd(LocalDt(mt)).day
  }

  function DayOfYear(mt: Moment): (d: int)
    requires Valid(mt)
    ensures 1 <= d <= Calendar.DaysInYear(Year(mt))
    ensures d == Calendar.DaysBeforeMonth(Year(mt), Month(mt)) + DayOfMonth(mt)
  {
    Calendar.ToYd(LocalDt(mt)).1
  }

  /** ISO 8601 day of week, 1 = Monday ... 7 = Sunday. */
  function DayOfWeek(mt: Moment): (d: int)
    requires Valid(mt)
    ensures 1 <= d <= 7
  {
    Calendar.DayOfWeek(LocalDt(mt))
  }

  /** The calendar date of the local day. */
  function DateOf(mt: Moment): Calendar.Date
    requires Valid(mt)
  {
    Calendar.ToYmd(LocalDt(mt))
  }

  /** The quarter date of the local day. */
  function QuarterDateOf(mt: Moment): Calendar.QuarterDate
    requires Valid(mt)
  {
    Calendar.ToYqd(LocalDt(mt))
  }

  /** The ordinal date (year, day of year) of the local day. */
  function OrdinalDateOf(mt: Moment): (int, int)
    requires Valid(mt)
  {
    Calendar.ToYd(LocalDt(mt))
  }

  /** The ISO 8601 week date of the local day. */
  function WeekDateOf(mt: Moment): Calendar.WeekDate
    requires Valid(mt)
  {
    Calendar.ToYwd(LocalDt(mt))
  }

  /** `moment_week`: the ISO 8601 week of the week-numbering year. */
  function Week(mt: Moment): (w: int)
    requires Valid(mt)
    ensures 1 <= w <= Calendar.WeeksInYear(WeekDateOf(mt).year) <= 53
  {
    Calendar.ToYwd(LocalDt(mt)).week
  }

  function LengthOfYear(mt: Moment): (n: int)
    requires Valid(mt)
    ensures n == 365 || n == 366
    ensures n == 366 <==> Calendar.IsLeapYear(Year(mt))
  {
    Calendar.DaysInYear(Calendar.ToYmd(LocalDt(mt)).year)
  }

  function LengthOfQuarter(mt: Moment): (n: int)
    requires Valid(mt)
    ensures 90 <= n <= 92
  {
    var qd := Calendar.ToYqd(LocalDt(mt));
    Calendar.DaysInQuarter(qd.year, qd.quarter)
  }

  function LengthOfMonth(mt: Moment): (n: int)
    requires Valid(mt)
    ensures 28 <= n <= 31 && DayOfMonth(mt) <= n
  {
    var dt := Calendar.ToYmd(LocalDt(mt));
    Calendar.DaysInMonth(dt.year, dt.month)
  }

  /** `moment_length_of_week_year`: weeks in the ISO week-numbering year. */
  function LengthOfWeekYear(mt: Moment): (n: int)
    requires Valid(mt)
    ensures n == 52 || n == 53
    ensures Week(mt) <= n
  {
    Calendar.WeeksInYear(Calendar.ToYwd(LocalDt(mt)).year)
  }

  // ---------------------------------------------------------------------------
  // The wall-clock fields of local seconds

  /** Local seconds made of a day, an hour, a minute and a second determine all the
      time-of-day accessors. */
  lemma LocalFieldsOf(mt: Moment, rd: int, h: int, mi: int, s: int)
    requires Valid(mt) && mt.sec == rd * 86400 + h * 3600 + mi * 60 + s
    requires 0 <= h <= 23 && 0 <= mi <= 59 && 0 <= s <= 59
    ensures LocalRd(mt) == rd && SecondOfDay(mt) == h * 3600 + mi * 60 + s
    ensures Hour(mt) == h && Minute(mt) == mi && Second(mt) == s
    ensures MinuteOfDay(mt) == h * 60 + mi
  {
    var sec := mt.sec;
    DivModUnique(sec, 86400, rd, h * 3600 + mi * 60 + s);
    DivModUnique(sec, 3600, rd * 24 + h, mi * 60 + s);
    DivModUnique(rd * 24 + h, 24, rd, h);
    DivModUnique(sec, 60, rd * 1440 + h * 60 + mi, s);
    DivModUnique(rd * 1440 + h * 60 + mi, 60, rd * 24 + h, mi);
    DivModUnique(rd * 1440 + h * 60 + mi, 1440, rd, h * 60 + mi);
  }

  /** Every moment's local seconds are made of its day, hour, minute and second. */
  lemma LocalFields(mt: Moment)
    requires Valid(mt)
    ensures mt.sec == LocalRd(mt) * 86400 + Hour(mt) * 3600 + Minute(mt) * 60 + Second(mt)
    ensures SecondOfDay(mt) == Hour(mt) * 3600 + Minute(mt) * 60 + Second(mt)
    ensures MinuteOfDay(mt) == Hour(mt) * 60 + Minute(mt)
  {
    var sod := SecondOfDay(mt);
    var h, rest := sod / 3600, sod % 3600;
    LocalFieldsOf(mt, LocalRd(mt), h, rest / 60, rest % 60);
  }

  /** The wall-clock time of day, including the fraction of the second, agrees. */
  predicate SameTimeOfDay(a: Moment, b: Moment)
    requires Valid(a) && Valid(b)
  {
    && SecondOfDay(a) == SecondOfDay(b)
    && Hour(a) == Hour(b) && Minute(a) == Minute(b) && Second(a) == Second(b)
    && MinuteOfDay(a) == MinuteOfDay(b)
    && a.nsec == b.nsec
  }

  /** The same second of day means the same hour, minute and second. */
  lemma SecondOfDayDetermines(a: Moment, b: Moment)
    requires Valid(a) && Valid(b) && SecondOfDay(a) == SecondOfDay(b) && a.nsec == b.nsec
    ensures SameTimeOfDay(a, b)
  {
    LocalFields(a);
    LocalFieldsOf(b, LocalRd(b), Hour(a), Minute(a), Second(a));
  }

  // ---------------------------------------------------------------------------
  // Field checks (`THX_check_*`): each accepts exactly its closed range.

  predicate ValidYear(v: int) { 1 <= v <= 9999 }
  predicate ValidMonth(v: int) { 1 <= v <= 12 }
  predicate ValidWeek(v: int) { 1 <= v <= 53 }
  predicate ValidDayOfYear(v: int) { 1 <= v <= 366 }
  predicate ValidDayOfQuarter(v: int) { 1 <= v <= 92 }
  predicate ValidDayOfMonth(v: int) { 1 <= v <= 31 }
  predicate ValidDayOfWeek(v: int) { 1 <= v <= 7 }
  predicate ValidHour(v: int) { 0 <= v <= 23 }
  predicate ValidMinute(v: int) { 0 <= v <= 59 }
  predicate ValidMinuteOfDay(v: int) { 0 <= v <= 1439 }
  predicate ValidSecond(v: int) { 0 <= v <= 59 }
  predicate ValidSecondOfDay(v: int) { 0 <= v <= 86399 }
  predicate ValidMillisecond(v: int) { 0 <= v <= 999 }
  /** Note the upper bound: 86_400_000 is accepted and means the next midnight. */
  predicate ValidMillisecondOfDay(v: int) { 0 <= v <= 86400000 }
  predicate ValidMicrosecond(v: int) { 0 <= v <= 999999 }
  predicate ValidNanosecond(v: int) { 0 <= v <= 999999999 }
  predicate ValidOffset(v: int) { -1080 <= v <= 1080 }

  /** Every component a valid moment reports passes the check of the setter for that
      component, so a moment can always be rebuilt from its own fields. */
  lemma ChecksAcceptAccessors(mt: Moment)
    requires Valid(mt)
    ensures ValidYear(Year(mt)) && ValidMonth(Month(mt)) && ValidWeek(Week(mt))
    ensures ValidDayOfYear(DayOfYear(mt)) && ValidDayOfQuarter(DayOfQuarter(mt))
    ensures ValidDayOfMonth(DayOfMonth(mt)) && ValidDayOfWeek(DayOfWeek(mt))
    ensures ValidHour(Hour(mt)) && ValidMinute(Minute(mt)) && ValidMinuteOfDay(MinuteOfDay(mt))
    ensures ValidSecond(Second(mt)) && ValidSecondOfDay(SecondOfDay(mt))
    ensures ValidMillisecond(Millisecond(mt)) && ValidMillisecondOfDay(MillisecondOfDay(mt))
    ensures ValidMicrosecond(Microsecond(mt)) && ValidNanosecond(Nanosecond(mt))
    ensures ValidOffset(Offset(mt))
  {
  }

  // ---------------------------------------------------------------------------
  // Constructors

  /** `dt_rdn(dt_from_ymd(y, m, d))` for a valid date of years 1..9999. */
  function RdOfDate(y: int, m: int, d: int): (rd: int32)
    requires ValidYear(y) && Calendar.ValidDate(y, m, d)
    ensures 1 <= rd <= 3652059 && Calendar.ToYmd(rd) == Calendar.Date(y, m, d)
  {
    Calendar.FromYmdBounds(y, m, d, 1, 9999);
    assert Calendar.DaysBeforeYear(1) == 0 && Calendar.DaysBeforeYear(10000) == 3652059;
    Calendar.ToYmdFromYmd(y, m, d);
    Calendar.FromYmd(y, m, d)
  }

  /** The field values `THX_moment_new` accepts. */
  predicate FieldsValid(y: int, m: int, d: int, h: int, mi: int, s: int, nsec: int) {
    && ValidYear(y) && Calendar.ValidDate(y, m, d)
    && ValidHour(h) && ValidMinute(mi) && ValidSecond(s) && ValidNanosecond(nsec)
  }

  /** `THX_moment_new`: a moment from local date and time fields. Every accepted
      combination of fields is representable, so it never fails with OutOfRange. */
  function New(y: int64, m: int64, d: int64, h: int64, mi: int64, s: int64, nsec: int64, offset: int64)
    : (r: Result<Moment>)
    ensures r.Ok? ==> Valid(r.value)
    ensures r.Ok? <==> FieldsValid(y, m, d, h, mi, s, nsec) && ValidOffset(offset)
    ensures r.Err? ==> r.error == (if FieldsValid(y, m, d, h, mi, s, nsec) then InvalidOffset else InvalidComponent)
    ensures r.Ok? ==> var n := r.value;
      && Year(n) == y && Month(n) == m && DayOfMonth(n) == d
      && Hour(n) == h && Minute(n) == mi && Second(n) == s
      && n.nsec == nsec && n.offset == offset
  {
    if !ValidYear(y) || !ValidMonth(m) || !ValidDayOfMonth(d) then Err(InvalidComponent)
    else if d > 28 && d > Calendar.DaysInMonth(y, m) then Err(InvalidComponent)
    else if !ValidHour(h) || !ValidMinute(mi) || !ValidSecond(s) || !ValidNanosecond(nsec) then Err(InvalidComponent)
    else if !ValidOffset(offset) then Err(InvalidOffset)
    else
      var rdn: int64 := RdOfDate(y, m, d);
      var sec: int64 := ((rdn * 24 + h) * 60 + mi) * 60 + s;
      LocalFieldsOf(Moment(sec, nsec, offset), rdn, h, mi, s);
      FromLocal(sec, nsec, offset)
  }

  /** `THX_moment_from_epoch`: a moment from seconds since 1970-01-01T00:00:00Z. */
  function FromEpoch(sec: int64, nsec: int64, offset: int64): (r: Result<Moment>)
    ensures r.Ok? ==> Valid(r.value)
    ensures r.Ok? <==> && ValidEpochSec(sec) && ValidNanosecond(nsec) && ValidOffset(offset)
                       && InRange(sec + UNIX_EPOCH + offset * 60)
    ensures r.Err? ==> r.error == (if !ValidEpochSec(sec) then OutOfRange
                                   else if !ValidNanosecond(nsec) then InvalidComponent
                                   else if !ValidOffset(offset) then InvalidOffset
                                   else OutOfRange)
    ensures r.Ok? ==> Epoch(r.value) == sec && r.value.nsec == nsec && r.value.offset == offset
  {
    if !ValidEpochSec(sec) then Err(OutOfRange)
    else if !ValidNanosecond(nsec) then Err(InvalidComponent)
    else if !ValidOffset(offset) then Err(InvalidOffset)
    else
      var rd: int64 := sec + UNIX_EPOCH;
      FromInstant(rd, nsec, offset)
  }

  // ---------------------------------------------------------------------------
  // Replacing the date

  /** `THX_moment_with_local_dt`: move to another local day keeping the time of day. */
  function WithLocalDt(mt: Moment, dt: int32): (r: Result<Moment>)
    requires Valid(mt)
    ensures r.Ok? ==> Valid(r.value)
    ensures r.Ok? <==> 1 <= dt <= 3652059
    ensures r.Err? ==> r.error == OutOfRange
    ensures r.Ok? ==> var n := r.value;
      LocalRd(n) == dt && SameTimeOfDay(n, mt) && n.offset == mt.offset
  {
    var sec: int64 := dt * 86400 + SecondOfDay(mt);
    var r := FromLocal(sec, mt.nsec, mt.offset);
    if r.Ok? then
      SecondOfDayDetermines(r.value, mt);
      r
    else r
  }

  /** The year and month of the local date as one count of months. */
  function MonthCount(mt: Moment): int
    requires Valid(mt)
  {
    DateOf(mt).year * 12 + DateOf(mt).month
  }

  /** `THX_moment_with_year`: same month and day, the day clamped to the month's length. */
  function WithYear(mt: Moment, v: int64): (r: Result<Moment>)
    requires Valid(mt)
    ensures r.Ok? ==> Valid(r.value)
    ensures r.Ok? <==> ValidYear(v)
    ensures r.Err? ==> r.error == InvalidComponent
    ensures r.Ok? ==> var n := r.value; var d := DateOf(mt);
      && DateOf(n) == Calendar.Date(v, d.month, Calendar.Min(d.day, Calendar.DaysInMonth(v, d.month)))
      && SameTimeOfDay(n, mt) && n.offset == mt.offset
  {
    if !ValidYear(v) then Err(InvalidComponent)
    else
      var dt := Calendar.ToYmd(LocalDt(mt));
      var d := if dt.day > 28 && dt.day > Calendar.DaysInMonth(v, dt.month)
               then Calendar.DaysInMonth(v, dt.month) else dt.day;
      WithLocalDt(mt, RdOfDate(v, dt.month, d))
  }

  /** `THX_moment_with_month`: same year and day, the day clamped to the month's length. */
  function WithMonth(mt: Moment, v: int64): (r: Result<Moment>)
    requires Valid(mt)
    ensures r.Ok? ==> Valid(r.value)
    ensures r.Ok? <==> ValidMonth(v)
    ensures r.Err? ==> r.error == InvalidComponent
    ensures r.Ok? ==> var n := r.value; var d := DateOf(mt);
      && DateOf(n) == Calendar.Date(d.year, v, Calendar.Min(d.day, Calendar.DaysInMonth(d.year, v)))
      && SameTimeOfDay(n, mt) && n.offset == mt.offset
  {
    if !ValidMonth(v) then Err(InvalidComponent)
    else
      var dt := Calendar.ToYmd(LocalDt(mt));
      var d := if dt.day > 28 && dt.day > Calendar.DaysInMonth(dt.year, v)
               then Calendar.DaysInMonth(dt.year, v) else dt.day;
      WithLocalDt(mt, RdOfDate(dt.year, v, d))
  }

  /** `THX_moment_with_week`: same ISO week-numbering year and day of week. Week 53
      is refused in a 52-week year; the new day can leave the range at either end. */
  function WithWeek(mt: Moment, v: int64): (r: Result<Moment>)
    requires Valid(mt)
    ensures r.Ok? ==> Valid(r.value)
    ensures var wd := WeekDateOf(mt);
      r.Ok? <==> && ValidWeek(v) && v <= Calendar.WeeksInYear(wd.year)
                 && 1 <= LocalRd(mt) + 7 * (v - wd.week) <= 3652059
    ensures var wd := WeekDateOf(mt);
      r.Err? ==> r.error == (if ValidWeek(v) && v <= Calendar.WeeksInYear(wd.year) then OutOfRange
                             else InvalidComponent)
    ensures r.Ok? ==> var n := r.value; var wd := WeekDateOf(mt);
      && WeekDateOf(n) == Calendar.WeekDate(wd.year, v, wd.day)
      && SameTimeOfDay(n, mt) && n.offset == mt.offset
  {
    if !ValidWeek(v) then Err(InvalidComponent)
    else
      var wd := Calendar.ToYwd(LocalDt(mt));
      if v > 52 && v > Calendar.WeeksInYear(wd.year) then Err(InvalidComponent)
      else
        Calendar.ToYwdFromYwd(wd.year, v, wd.day);
        var dt: int32 := Calendar.FromYwd(wd.year, v, wd.day);
        WithLocalDt(mt, dt)
  }

  /** `THX_moment_with_day_of_month`: a day past the month's length is refused. */
  function WithDayOfMonth(mt: Moment, v: int64): (r: Result<Moment>)
    requires Valid(mt)
    ensures r.Ok? ==> Valid(r.value)
    ensures r.Ok? <==> 1 <= v <= Calendar.DaysInMonth(DateOf(mt).year, DateOf(mt).month)
    ensures r.Err? ==> r.error == InvalidComponent
    ensures r.Ok? ==> var n := r.value; var d := DateOf(mt);
      && DateOf(n) == Calendar.Date(d.year, d.month, v)
      && SameTimeOfDay(n, mt) && n.offset == mt.offset
  {
    if !ValidDayOfMonth(v) then Err(InvalidComponent)
    else
      var dt := Calendar.ToYmd(LocalDt(mt));
      if v > 28 && v > Calendar.DaysInMonth(dt.year, dt.month) then Err(InvalidComponent)
      else WithLocalDt(mt, RdOfDate(dt.year, dt.month, v))
  }

  /** `THX_moment_with_day_of_quarter`: a day past the quarter's length is refused. */
  function WithDayOfQuarter(mt: Moment, v: int64): (r: Result<Moment>)
    requires Valid(mt)
    ensures r.Ok? ==> Valid(r.value)
    ensures r.Ok? <==> 1 <= v <= Calendar.DaysInQuarter(QuarterDateOf(mt).year, QuarterDateOf(mt).quarter)
    ensures r.Err? ==> r.error == InvalidComponent
    ensures r.Ok? ==> var n := r.value; var q := QuarterDateOf(mt);
      && QuarterDateOf(n) == Calendar.QuarterDate(q.year, q.quarter, v)
      && SameTimeOfDay(n, mt) && n.offset == mt.offset
  {
    if !ValidDayOfQuarter(v) then Err(InvalidComponent)
    else
      var qd := Calendar.ToYqd(LocalDt(mt));
      if v > 90 && v > Calendar.DaysInQuarter(qd.year, qd.quarter) then Err(InvalidComponent)
      else
        var dt := Calendar.FromYqd(qd.year, qd.quarter, v);
        Calendar.ToYqdFromYqd(qd.year, qd.quarter, v);
        DateInYears(dt);
        WithLocalDt(mt, dt)
  }

  /** A day whose year is one of 1..9999 is a valid day number. */
  lemma DateInYears(rd: int)
    requires 1 <= Calendar.ToYmd(rd).year <= 9999
    ensures 1 <= rd <= 3652059
  {
    Calendar.YearRange(rd);
  }

  /** `THX_moment_with_day_of_year`: a day past the year's length is refused. */
  function WithDayOfYear(mt: Moment, v: int64): (r: Result<Moment>)
    requires Valid(mt)
    ensures r.Ok? ==> Valid(r.value)
    ensures r.Ok? <==> 1 <= v <= Calendar.DaysInYear(OrdinalDateOf(mt).0)
    ensures r.Err? ==> r.error == InvalidComponent
    ensures r.Ok? ==> var n := r.value;
      && OrdinalDateOf(n) == (OrdinalDateOf(mt).0, v as int)
      && SameTimeOfDay(n, mt) && n.offset == mt.offset
  {
    if !ValidDayOfYear(v) then Err(InvalidComponent)
    else
      var yd := Calendar.ToYd(LocalDt(mt));
      if v > 365 && v > Calendar.DaysInYear(yd.0) then Err(InvalidComponent)
      else
        var dt := Calendar.FromYd(yd.0, v);
        Calendar.ToYdFromYd(yd.0, v);
        assert Calendar.ToYmd(dt).year == yd.0;
        DateInYears(dt);
        WithLocalDt(mt, dt)
  }

  /** `THX_moment_with_day_of_week`: the given day of the same Monday-based week. */
  function WithDayOfWeek(mt: Moment, v: int64): (r: Result<Moment>)
    requires Valid(mt)
    ensures r.Ok? ==> Valid(r.value)
    ensures r.Ok? <==> ValidDayOfWeek(v) && 1 <= LocalRd(mt) + (v - DayOfWeek(mt)) <= 3652059
    ensures r.Err? ==> r.error == (if ValidDayOfWeek(v) then OutOfRange else InvalidComponent)
    ensures r.Ok? ==> var n := r.value;
      && DayOfWeek(n) == v && LocalRd(n) - DayOfWeek(n) == LocalRd(mt) - DayOfWeek(mt)
      && SameTimeOfDay(n, mt) && n.offset == mt.offset
  {
    if !ValidDayOfWeek(v) then Err(InvalidComponent)
    else
      var dt := LocalDt(mt);
      var target: int32 := dt - (Calendar.DayOfWeek(dt) - v);
      Calendar.DayOfWeekWithin(dt, v);
      WithLocalDt(mt, target)
  }

  // ---------------------------------------------------------------------------
  // Replacing the time of day

  /** `THX_moment_with_hour`. */
  function WithHour(mt: Moment, v: int64): (r: Result<Moment>)
    requires Valid(mt)
    ensures r.Ok? ==> Valid(r.value)
    ensures r.Ok? <==> ValidHour(v)
    ensures r.Err? ==> r.error == InvalidComponent
    ensures r.Ok? ==> var n := r.value;
      && Hour(n) == v && Minute(n) == Minute(mt) && Second(n) == Second(mt)
      && LocalRd(n) == LocalRd(mt) && n.nsec == mt.nsec && n.offset == mt.offset
  {
    if !ValidHour(v) then Err(InvalidComponent)
    else
      var sec: int64 := LocalRdSeconds(mt) + (v - Hour(mt)) * 3600;
      LocalFields(mt);
      LocalFieldsOf(Moment(sec, mt.nsec, mt.offset), LocalRd(mt), v, Minute(mt), Second(mt));
      FromLocal(sec, mt.nsec, mt.offset)
  }

  /** `THX_moment_with_minute`. */
  function WithMinute(mt: Moment, v: int64): (r: Result<Moment>)
    requires Valid(mt)
    ensures r.Ok? ==> Valid(r.value)
    ensures r.Ok? <==> ValidMinute(v)
    ensures r.Err? ==> r.error == InvalidComponent
    ensures r.Ok? ==> var n := r.value;
      && Hour(n) == Hour(mt) && Minute(n) == v && Second(n) == Second(mt)
      && LocalRd(n) == LocalRd(mt) && n.nsec == mt.nsec && n.offset == mt.offset
  {
    if !ValidMinute(v) then Err(InvalidComponent)
    else
      var sec: int64 := LocalRdSeconds(mt) + (v - Minute(mt)) * 60;
      LocalFields(mt);
      LocalFieldsOf(Moment(sec, mt.nsec, mt.offset), LocalRd(mt), Hour(mt), v, Second(mt));
      FromLocal(sec, mt.nsec, mt.offset)
  }

  /** `THX_moment_with_minute_of_day`. */
  function WithMinuteOfDay(mt: Moment, v: int64): (r: Result<Moment>)
    requires Valid(mt)
    ensures r.Ok? ==> Valid(r.value)
    ensures r.Ok? <==> ValidMinuteOfDay(v)
    ensures r.Err? ==> r.error == InvalidComponent
    ensures r.Ok? ==> var n := r.value;
      && MinuteOfDay(n) == v && Hour(n) == v / 60 && Minute(n) == v % 60 && Second(n) == Second(mt)
      && LocalRd(n) == LocalRd(mt) && n.nsec == mt.nsec && n.offset == mt.offset
  {
    if !ValidMinuteOfDay(v) then Err(InvalidComponent)
    else
      var sec: int64 := LocalRdSeconds(mt) + (v - MinuteOfDay(mt)) * 60;
      LocalFields(mt);
      LocalFieldsOf(Moment(sec, mt.nsec, mt.offset), LocalRd(mt), v / 60, v % 60, Second(mt));
      FromLocal(sec, mt.nsec, mt.offset)
  }

  /** `THX_moment_with_second`. */
  function WithSecond(mt: Moment, v: int64): (r: Result<Moment>)
    requires Valid(mt)
    ensures r.Ok? ==> Valid(r.value)
    ensures r.Ok? <==> ValidSecond(v)
    ensures r.Err? ==> r.error == InvalidComponent
    ensures r.Ok? ==> var n := r.value;
      && Hour(n) == Hour(mt) && Minute(n) == Minute(mt) && Second(n) == v
      && LocalRd(n) == LocalRd(mt) && n.nsec == mt.nsec && n.offset == mt.offset
  {
    if !ValidSecond(v) then Err(InvalidComponent)
    else
      var sec: int64 := LocalRdSeconds(mt) + (v - Second(mt));
      LocalFields(mt);
      LocalFieldsOf(Moment(sec, mt.nsec, mt.offset), LocalRd(mt), Hour(mt), Minute(mt), v);
      FromLocal(sec, mt.nsec, mt.offset)
  }

  /** `THX_moment_with_second_of_day`. */
  function WithSecondOfDay(mt: Moment, v: int64): (r: Result<Moment>)
    requires Valid(mt)
    ensures r.Ok? ==> Valid(r.value)
    ensures r.Ok? <==> ValidSecondOfDay(v)
    ensures r.Err? ==> r.error == InvalidComponent
    ensures r.Ok? ==> var n := r.value;
      && SecondOfDay(n) == v && LocalRd(n) == LocalRd(mt) && n.nsec == mt.nsec && n.offset == mt.offset
  {
    if !ValidSecondOfDay(v) then Err(InvalidComponent)
    else
      var sec: int64 := LocalRdSeconds(mt) + (v - SecondOfDay(mt));
      FromLocal(sec, mt.nsec, mt.offset)
  }

  /** `THX_moment_with_millisecond`: the whole fraction becomes `v` milliseconds, so
      any sub-millisecond digits are cleared. */
  function WithMillisecond(mt: Moment, v: int64): (r: Result<Moment>)
    requires Valid(mt)
    ensures r.Ok? ==> Valid(r.value)
    ensures r.Ok? <==> ValidMillisecond(v)
    ensures r.Err? ==> r.error == InvalidComponent
    ensures r.Ok? ==> var n := r.value;
      && Millisecond(n) == v && n.nsec % 1000000 == 0
      && n.sec == mt.sec && n.offset == mt.offset
  {
    if !ValidMillisecond(v) then Err(InvalidComponent)
    else
      var nsec: int64 := v * 1000000;
      FromLocal(LocalRdSeconds(mt), nsec, mt.offset)
  }

  /** `THX_moment_with_millisecond_of_day`: replaces the second of day and the fraction.
      The check admits 86_400_000, which lands on midnight of the next day, and so can
      leave the range on the last day. */
  function WithMillisecondOfDay(mt: Moment, v: int64): (r: Result<Moment>)
    requires Valid(mt)
    ensures r.Ok? ==> Valid(r.value)
    ensures r.Ok? <==> ValidMillisecondOfDay(v) && (v < 86400000 || LocalRd(mt) < 3652059)
    ensures r.Err? ==> r.error == (if ValidMillisecondOfDay(v) then OutOfRange else InvalidComponent)
    ensures r.Ok? && v < 86400000 ==> var n := r.value;
      LocalRd(n) == LocalRd(mt) && MillisecondOfDay(n) == v && n.nsec % 1000000 == 0
    ensures r.Ok? && v == 86400000 ==> var n := r.value;
      LocalRd(n) == LocalRd(mt) + 1 && SecondOfDay(n) == 0 && n.nsec == 0
    ensures r.Ok? ==> r.value.offset == mt.offset
  {
    if !ValidMillisecondOfDay(v) then Err(InvalidComponent)
    else
      var sec: int64 := LocalRdSeconds(mt) + (CDiv(v, 1000) - SecondOfDay(mt));
      var nsec: int64 := CMod(v, 1000) * 1000000;
      FromLocal(sec, nsec, mt.offset)
  }

  /** `THX_moment_with_microsecond`: sub-microsecond digits are cleared. */
  function WithMicrosecond(mt: Moment, v: int64): (r: Result<Moment>)
    requires Valid(mt)
    ensures r.Ok? ==> Valid(r.value)
    ensures r.Ok? <==> ValidMicrosecond(v)
    ensures r.Err? ==> r.error == InvalidComponent
    ensures r.Ok? ==> var n := r.value;
      && Microsecond(n) == v && n.nsec % 1000 == 0
      && n.sec == mt.sec && n.offset == mt.offset
  {
    if !ValidMicrosecond(v) then Err(InvalidComponent)
    else
      var nsec: int64 := v * 1000;
      FromLocal(LocalRdSeconds(mt), nsec, mt.offset)
  }

  /** `THX_moment_with_nanosecond`. */
  function WithNanosecond(mt: Moment, v: int64): (r: Result<Moment>)
    requires Valid(mt)
    ensures r.Ok? ==> Valid(r.value)
    ensures r.Ok? <==> ValidNanosecond(v)
    ensures r.Err? ==> r.error == InvalidComponent
    ensures r.Ok? ==> var n := r.value;
      n.nsec == v && n.sec == mt.sec && n.offset == mt.offset
  {
    if !ValidNanosecond(v) then Err(InvalidComponent)
    else FromLocal(LocalRdSeconds(mt), v, mt.offset)
  }

  // ---------------------------------------------------------------------------
  // Replacing a component by name

  /** The value range the component's `THX_check_*` accepts. */
  predicate ComponentInRange(c: Component, v: int) {
    match c
    case Year => ValidYear(v)
    case MonthOfYear => ValidMonth(v)
    case WeekOfYear => ValidWeek(v)
    case DayOfYear => ValidDayOfYear(v)
    case DayOfQuarter => ValidDayOfQuarter(v)
    case DayOfMonth => ValidDayOfMonth(v)
    case DayOfWeek => ValidDayOfWeek(v)
    case HourOfDay => ValidHour(v)
    case MinuteOfHour => ValidMinute(v)
    case MinuteOfDay => ValidMinuteOfDay(v)
    case SecondOfMinute => ValidSecond(v)
    case SecondOfDay => ValidSecondOfDay(v)
    case MilliOfSecond => ValidMillisecond(v)
    case MilliOfDay => ValidMillisecondOfDay(v)
    case MicroOfSecond => ValidMicrosecond(v)
    case NanoOfSecond => ValidNanosecond(v)
  }

  /** The accessor that reads a component back. */
  function ComponentOf(mt: Moment, c: Component): int
    requires Valid(mt)
  {
    match c
    case Year => Year(mt)
    case MonthOfYear => Month(mt)
    case WeekOfYear => Week(mt)
    case DayOfYear => DayOfYear(mt)
    case DayOfQuarter => DayOfQuarter(mt)
    case DayOfMonth => DayOfMonth(mt)
    case DayOfWeek => DayOfWeek(mt)
    case HourOfDay => Hour(mt)
    case MinuteOfHour => Minute(mt)
    case MinuteOfDay => MinuteOfDay(mt)
    case SecondOfMinute => Second(mt)
    case SecondOfDay => SecondOfDay(mt)
    case MilliOfSecond => Millisecond(mt)
    case MilliOfDay => MillisecondOfDay(mt)
    case MicroOfSecond => Microsecond(mt)
    case NanoOfSecond => Nanosecond(mt)
  }

  /** `THX_moment_with_component`: dispatch to the setter of the component. That a
      value outside the component's range is refused and that a result reads the value
      back is stated by the lemmas of module MomentLaws. */
  function WithComponent(mt: Moment, c: Component, v: int64): (r: Result<Moment>)
    requires Valid(mt)
    ensures r.Ok? ==> Valid(r.value)
    ensures r.Err? ==> r.error == InvalidComponent || r.error == OutOfRange
    ensures r.Ok? ==> r.value.offset == mt.offset
  {
    match c
    case Year => WithYear(mt, v)
    case MonthOfYear => WithMonth(mt, v)
    case WeekOfYear => WithWeek(mt, v)
    case DayOfMonth => WithDayOfMonth(mt, v)
    case DayOfQuarter => WithDayOfQuarter(mt, v)
    case DayOfYear => WithDayOfYear(mt, v)
    case DayOfWeek => WithDayOfWeek(mt, v)
    case HourOfDay => WithHour(mt, v)
    case MinuteOfHour => WithMinute(mt, v)
    case MinuteOfDay => WithMinuteOfDay(mt, v)
    case SecondOfMinute => WithSecond(mt, v)
    case SecondOfDay => WithSecondOfDay(mt, v)
    case MilliOfSecond => WithMillisecond(mt, v)
    case MilliOfDay => WithMillisecondOfDay(mt, v)
    case MicroOfSecond => WithMicrosecond(mt, v)
    case NanoOfSecond => WithNanosecond(mt, v)
  }

  // ---------------------------------------------------------------------------
  // Arithmetic

  /** The instant as a count of nanoseconds on the UTC Rata Die time line. */
  function TotalNanos(mt: Moment): int
    requires Valid(mt)
  {
    InstantRdSeconds(mt) * NANOS_PER_SEC + mt.nsec
  }

  /** The local date and time as a count of nanoseconds on the local time line. */
  function LocalNanos(mt: Moment): int
    requires Valid(mt)
  {
    mt.sec * NANOS_PER_SEC + mt.nsec
  }

  /** Moving the instant by `d` nanoseconds keeps the local time in range. */
  predicate ShiftFits(mt: Moment, d: int)
    requires Valid(mt)
  {
    InRange((TotalNanos(mt) + d) / NANOS_PER_SEC + mt.offset * 60)
  }

  /** The nanosecond counts split back into their seconds and nanoseconds, and the local
      count is the instant count moved forward by the offset. */
  lemma NanosSplit(mt: Moment)
    requires Valid(mt)
    ensures TotalNanos(mt) / NANOS_PER_SEC == InstantRdSeconds(mt) && TotalNanos(mt) % NANOS_PER_SEC == mt.nsec
    ensures LocalNanos(mt) / NANOS_PER_SEC == mt.sec && LocalNanos(mt) % NANOS_PER_SEC == mt.nsec
    ensures LocalNanos(mt) == TotalNanos(mt) + mt.offset * 60 * NANOS_PER_SEC
  {
    DivModUnique(TotalNanos(mt), NANOS_PER_SEC, InstantRdSeconds(mt), mt.nsec);
    DivModUnique(LocalNanos(mt), NANOS_PER_SEC, mt.sec, mt.nsec);
  }

  /** A shift by whole seconds fits when the shifted local seconds are in range. */
  lemma ShiftWhole(mt: Moment, s: int)
    requires Valid(mt)
    ensures ShiftFits(mt, s * NANOS_PER_SEC) <==> InRange(mt.sec + s)
  {
    DivModUnique(TotalNanos(mt) + s * NANOS_PER_SEC, NANOS_PER_SEC, InstantRdSeconds(mt) + s, mt.nsec);
  }

  /** A moment is determined by its offset and its instant in nanoseconds. */
  lemma TotalNanosInjective(a: Moment, b: Moment)
    requires Valid(a) && Valid(b) && a.offset == b.offset && TotalNanos(a) == TotalNanos(b)
    ensures a == b
  {
    DivModUnique(TotalNanos(a), NANOS_PER_SEC, InstantRdSeconds(a), a.nsec);
    DivModUnique(TotalNanos(a), NANOS_PER_SEC, InstantRdSeconds(b), b.nsec);
  }

  /** A day number reached by adding months to a date of years 1..9999 fits a C `int`,
      and is in range exactly when the month count of the target is. */
  lemma AddMonthsFits(rd: int, v: int)
    requires 1 <= Calendar.ToYmd(rd).year <= 9999 && MIN_UNIT_MONTHS <= v <= MAX_UNIT_MONTHS
    ensures var r := Calendar.AddMonths(rd, v); var dt := Calendar.ToYmd(rd);
      && INT32_MIN <= r <= INT32_MAX
      && (1 <= r <= 3652059 <==> 13 <= dt.year * 12 + dt.month + v <= 9999 * 12 + 12)
  {
    var r := Calendar.AddMonths(rd, v);
    var t := Calendar.ToYmd(r);
    Calendar.YearRange(r);
    Calendar.FromYmdBounds(t.year, t.month, t.day, -10000, 20000);
    assert Calendar.DaysBeforeYear(-10000) == -3652791;
    assert Calendar.DaysBeforeYear(20001) == 7304850;
  }

  /** `THX_moment_plus_months`: move a number of months, the day clamped to the
      length of the target month (`dt_add_months` with `DT_LIMIT`). */
  function PlusMonths(mt: Moment, v: int64): (r: Result<Moment>)
    requires Valid(mt)
    ensures r.Ok? ==> Valid(r.value)
    ensures r.Ok? <==> && MIN_UNIT_MONTHS <= v <= MAX_UNIT_MONTHS
                       && 13 <= MonthCount(mt) + v <= 9999 * 12 + 12
    ensures r.Err? ==> r.error == (if MIN_UNIT_MONTHS <= v <= MAX_UNIT_MONTHS then OutOfRange else Overflow)
    ensures r.Ok? ==> var n := r.value; var d, e := DateOf(mt), DateOf(n);
      && MonthCount(n) == MonthCount(mt) + v
      && e.day == Calendar.Min(d.day, Calendar.DaysInMonth(e.year, e.month))
      && SameTimeOfDay(n, mt) && n.offset == mt.offset
  {
    if !(MIN_UNIT_MONTHS <= v <= MAX_UNIT_MONTHS) then Err(Overflow)
    else
      AddMonthsFits(LocalDt(mt), v);
      var dt: int32 := Calendar.AddMonths(LocalDt(mt), v);
      WithLocalDt(mt, dt)
  }

  /** `THX_moment_plus_days`: move the local date, keeping the local time of day. */
  function PlusDays(mt: Moment, v: int64): (r: Result<Moment>)
    requires Valid(mt)
    ensures r.Ok? ==> Valid(r.value)
    ensures r.Ok? <==> UnitInRange(Days, v) && 1 <= LocalRd(mt) + v <= 3652059
    ensures r.Err? ==> r.error == (if UnitInRange(Days, v) then OutOfRange else Overflow)
    ensures r.Ok? ==> var n := r.value;
      && LocalRd(n) == LocalRd(mt) + v && SameTimeOfDay(n, mt) && n.offset == mt.offset
      && TotalNanos(n) == TotalNanos(mt) + v * 86400 * NANOS_PER_SEC
  {
    if !UnitInRange(Days, v) then Err(Overflow)
    else
      var sec: int64 := LocalRdSeconds(mt) + v * 86400;
      var r := FromLocal(sec, mt.nsec, mt.offset);
      if r.Ok? then
        SecondOfDayDetermines(r.value, mt);
        r
      else r
  }

  /** `THX_moment_plus_seconds`: move the instant by whole seconds. */
  function PlusSeconds(mt: Moment, v: int64): (r: Result<Moment>)
    requires Valid(mt)
    ensures r.Ok? ==> Valid(r.value)
    ensures r.Ok? <==> UnitInRange(Seconds, v) && InRange(mt.sec + v)
    ensures r.Err? ==> r.error == (if UnitInRange(Seconds, v) then OutOfRange else Overflow)
    ensures r.Ok? ==> var n := r.value;
      && InstantRdSeconds(n) == InstantRdSeconds(mt) + v && n.nsec == mt.nsec && n.offset == mt.offset
      && TotalNanos(n) == TotalNanos(mt) + v * NANOS_PER_SEC
  {
    if !UnitInRange(Seconds, v) then Err(Overflow)
    else
      var sec: int64 := InstantRdSeconds(mt) + v;
      FromInstant(sec, mt.nsec, mt.offset)
  }

  lemma SignMul(x: int, sign: int)
    requires sign == 1 || sign == -1
    ensures x * sign == (if sign == 1 then x else -x)
  {
  }

  /** The carry arithmetic of `THX_moment_plus_time`: instant seconds and nanosecond
      moved by `sign * (sec + nsec / 10^9)` seconds, the nanosecond normalised. */
  function PlusTimeCarry(instant: int64, nanos: int64, sec: int64, nsec: int64, sign: int64): (r: (int64, int64))
    requires MIN_RANGE - 1080 * 60 <= instant <= MAX_RANGE + 1080 * 60 && 0 <= nanos < NANOS_PER_SEC
    requires (sign == 1 || sign == -1) && MIN_UNIT_SECONDS <= sec <= MAX_UNIT_SECONDS
    ensures 0 <= r.1 < NANOS_PER_SEC
    ensures r.0 * NANOS_PER_SEC + r.1 == instant * NANOS_PER_SEC + nanos + sign * (sec * NANOS_PER_SEC + nsec)
    ensures -0x1000_0000_0000_0000 <= r.0 <= 0x1000_0000_0000_0000
  {
    var q, m := CDiv(nsec, NANOS_PER_SEC), CMod(nsec, NANOS_PER_SEC);
    assert -10_000_000_000 <= q <= 10_000_000_000 && -NANOS_PER_SEC < m < NANOS_PER_SEC;
    var s1: int64 := sec + q;
    var n1: int64 := m;
    SignMul(s1, sign);
    SignMul(n1, sign);
    SignMul(sec * NANOS_PER_SEC + nsec, sign);
    assert sec * NANOS_PER_SEC + nsec == s1 * NANOS_PER_SEC + n1;
    var s2: int64 := instant + s1 * sign;
    var n2: int64 := nanos + n1 * sign;
    assert s2 * NANOS_PER_SEC + n2 == instant * NANOS_PER_SEC + nanos + sign * (sec * NANOS_PER_SEC + nsec);
    if n2 < 0 then (s2 - 1, n2 + NANOS_PER_SEC)
    else if n2 >= NANOS_PER_SEC then (s2 + 1, n2 - NANOS_PER_SEC)
    else (s2, n2)
  }

  /** `THX_moment_plus_time`: move the instant by `sign * (sec + nsec / 10^9)` seconds,
      carrying the nanoseconds into the seconds. */
  function PlusTime(mt: Moment, sec: int64, nsec: int64, sign: int64): (r: Result<Moment>)
    requires Valid(mt) && (sign == 1 || sign == -1)
    requires MIN_UNIT_SECONDS <= sec <= MAX_UNIT_SECONDS
    ensures r.Ok? ==> Valid(r.value)
    ensures r.Ok? <==> ShiftFits(mt, sign * (sec * NANOS_PER_SEC + nsec))
    ensures r.Err? ==> r.error == OutOfRange
    ensures r.Ok? ==> var n := r.value;
      TotalNanos(n) == TotalNanos(mt) + sign * (sec * NANOS_PER_SEC + nsec) && n.offset == mt.offset
  {
    var c := PlusTimeCarry(InstantRdSeconds(mt), mt.nsec, sec, nsec, sign);
    DivModUnique(TotalNanos(mt) + sign * (sec * NANOS_PER_SEC + nsec), NANOS_PER_SEC, c.0, c.1);
    FromInstant(c.0, c.1, mt.offset)
  }

  /** Months in one calendrical unit. */
  function MonthsPerUnit(u: Unit): int
    requires !IsExact(u)
  {
    if u == Years then 12 else 1
  }

  /** `THX_moment_plus_unit`: an amount outside the unit's bounds is an overflow. What
      each unit does, and that every other failure is a result out of range, is stated
      by the lemmas of module MomentLaws. */
  function PlusUnit(mt: Moment, u: Unit, v: int64): (r: Result<Moment>)
    requires Valid(mt)
    ensures r.Ok? ==> Valid(r.value) && r.value.offset == mt.offset
    ensures !UnitInRange(u, v) ==> r == Err(Overflow)
  {
    match u
    case Years => if !UnitInRange(Years, v) then Err(Overflow) else PlusMonths(mt, v * 12)
    case Months => if !UnitInRange(Months, v) then Err(Overflow) else PlusMonths(mt, v)
    case Weeks =>
      if !UnitInRange(Weeks, v) then Err(Overflow)
      else PlusDays(mt, v * 7)
    case Days =>
      if !UnitInRange(Days, v) then Err(Overflow)
      else PlusDays(mt, v)
    case Hours =>
      if !UnitInRange(Hours, v) then Err(Overflow)
      else PlusSeconds(mt, v * 3600)
    case Minutes =>
      if !UnitInRange(Minutes, v) then Err(Overflow)
      else PlusSeconds(mt, v * 60)
    case Seconds =>
      if !UnitInRange(Seconds, v) then Err(Overflow)
      else PlusSeconds(mt, v)
    case Millis =>
      if !UnitInRange(Millis, v) then Err(Overflow)
      else PlusTime(mt, CDiv(v, 1000), CMod(v, 1000) * 1000000, 1)
    case Micros =>
      if !UnitInRange(Micros, v) then Err(Overflow)
      else PlusTime(mt, CDiv(v, 1000000), CMod(v, 1000000) * 1000, 1)
    case Nanos => PlusTime(mt, 0, v, 1)
  }

  /** `THX_moment_minus_unit`: `PlusUnit` with the amount negated; the bound check is
      on the amount as given, the bounds being symmetric. */
  function MinusUnit(mt: Moment, u: Unit, v: int64): (r: Result<Moment>)
    requires Valid(mt)
    ensures r.Ok? ==> Valid(r.value) && r.value.offset == mt.offset
    ensures !UnitInRange(u, v) ==> r == Err(Overflow)
  {
    match u
    case Years => if !UnitInRange(Years, v) then Err(Overflow) else PlusMonths(mt, -v * 12)
    case Months => if !UnitInRange(Months, v) then Err(Overflow) else PlusMonths(mt, -v)
    case Weeks =>
      if !UnitInRange(Weeks, v) then Err(Overflow)
      else PlusDays(mt, -v * 7)
    case Days =>
      if !UnitInRange(Days, v) then Err(Overflow)
      else PlusDays(mt, -v)
    case Hours =>
      if !UnitInRange(Hours, v) then Err(Overflow)
      else PlusSeconds(mt, -v * 3600)
    case Minutes =>
      if !UnitInRange(Minutes, v) then Err(Overflow)
      else PlusSeconds(mt, -v * 60)
    case Seconds =>
      if !UnitInRange(Seconds, v) then Err(Overflow)
      else PlusSeconds(mt, -v)
    case Millis =>
      if !UnitInRange(Millis, v) then Err(Overflow)
      else PlusTime(mt, CDiv(v, 1000), CMod(v, 1000) * 1000000, -1)
    case Micros =>
      if !UnitInRange(Micros, v) then Err(Overflow)
      else PlusTime(mt, CDiv(v, 1000000), CMod(v, 1000000) * 1000, -1)
    case Nanos => PlusTime(mt, 0, v, -1)
  }

  // ---------------------------------------------------------------------------
  // Offsets

  /** `THX_moment_with_offset_same_instant`: the same instant seen at another offset. */
  function WithOffsetSameInstant(mt: Moment, offset: int64): (r: Result<Moment>)
    requires Valid(mt)
    ensures r.Ok? ==> Valid(r.value)
    ensures r.Ok? <==> ValidOffset(offset) && InRange(InstantRdSeconds(mt) + offset * 60)
    ensures r.Err? ==> r.error == (if ValidOffset(offset) then OutOfRange else InvalidOffset)
    ensures r.Ok? ==> TotalNanos(r.value) == TotalNanos(mt) && r.value.offset == offset
  {
    if !ValidOffset(offset) then Err(InvalidOffset)
    else FromInstant(InstantRdSeconds(mt), mt.nsec, offset)
  }

  /** `THX_moment_with_offset_same_local`: the same local time at another offset. */
  function WithOffsetSameLocal(mt: Moment, offset: int64): (r: Result<Moment>)
    requires Valid(mt)
    ensures r.Ok? ==> Valid(r.value)
    ensures r.Ok? <==> ValidOffset(offset)
    ensures r.Err? ==> r.error == InvalidOffset
    ensures r.Ok? ==> LocalNanos(r.value) == LocalNanos(mt) && r.value.offset == offset
  {
    if !ValidOffset(offset) then Err(InvalidOffset)
    else FromLocal(LocalRdSeconds(mt), mt.nsec, offset)
  }

  /** `THX_moment_at_utc`: the same instant at offset zero, whose local time is then
      the UTC time. */
  function AtUtc(mt: Moment): (r: Result<Moment>)
    requires Valid(mt)
    ensures r.Ok? ==> Valid(r.value)
    ensures r.Ok? <==> InRange(InstantRdSeconds(mt))
    ensures r.Err? ==> r.error == OutOfRange
    ensures r.Ok? ==> var n := r.value;
      n.offset == 0 && TotalNanos(n) == TotalNanos(mt) && LocalNanos(n) == TotalNanos(mt)
  {
    WithOffsetSameInstant(mt, 0)
  }

  // ---------------------------------------------------------------------------
  // Snapping to the start, middle or end of a period

  /** `THX_moment_at_midnight`: the start of the local day. */
  function AtMidnight(mt: Moment): (r: Result<Moment>)
    requires Valid(mt)
    ensures r.Ok? && Valid(r.value)
    ensures var n := r.value;
      && LocalRd(n) == LocalRd(mt) && SecondOfDay(n) == 0 && n.nsec == 0 && n.offset == mt.offset
  {
    WithMillisecondOfDay(mt, 0)
  }

  /** `THX_moment_at_noon`: 12:00:00 of the local day. */
  function AtNoon(mt: Moment): (r: Result<Moment>)
    requires Valid(mt)
    ensures r.Ok? && Valid(r.value)
    ensures var n := r.value;
      && LocalRd(n) == LocalRd(mt) && SecondOfDay(n) == 43200 && n.nsec == 0 && n.offset == mt.offset
      && Hour(n) == 12 && Minute(n) == 0 && Second(n) == 0
  {
    var r := WithMillisecondOfDay(mt, 12 * 60 * 60 * 1000);
    LocalFields(r.value);
    r
  }

  /** `THX_moment_at_last_day_of_year`: December 31 of the same year (day 0 of the
      next year), at the same time of day. */
  function AtLastDayOfYear(mt: Moment): (r: Result<Moment>)
    requires Valid(mt)
    ensures r.Ok? && Valid(r.value)
    ensures var n := r.value;
      && DateOf(n) == Calendar.Date(DateOf(mt).year, 12, 31)
      && SameTimeOfDay(n, mt) && n.offset == mt.offset
  {
    var y := Calendar.ToYd(LocalDt(mt)).0;
    Calendar.FromYdZero(y);
    Calendar.ToYmdFromYmd(y, 12, 31);
    var dt := Calendar.FromYd(y + 1, 0);
    DateInYears(dt);
    WithLocalDt(mt, dt)
  }

  /** `THX_moment_at_last_day_of_quarter`: the last day of the same quarter (day 0 of
      the next quarter), at the same time of day. */
  function AtLastDayOfQuarter(mt: Moment): (r: Result<Moment>)
    requires Valid(mt)
    ensures r.Ok? && Valid(r.value)
    ensures var n := r.value; var q := QuarterDateOf(mt);
      && QuarterDateOf(n) == Calendar.QuarterDate(q.year, q.quarter, Calendar.DaysInQuarter(q.year, q.quarter))
      && SameTimeOfDay(n, mt) && n.offset == mt.offset
  {
    var qd := Calendar.ToYqd(LocalDt(mt));
    var diq := Calendar.DaysInQuarter(qd.year, qd.quarter);
    Calendar.FromYqdDayZero(qd.year, qd.quarter);
    Calendar.ToYqdFromYqd(qd.year, qd.quarter, diq);
    var last := Calendar.FromYqd(qd.year, qd.quarter, diq);
    DateInYears(last);
    var dt := Calendar.FromYqd(qd.year, qd.quarter + 1, 0);
    assert dt == last;
    WithLocalDt(mt, dt)
  }

  /** `THX_moment_at_last_day_of_month`: the last day of the same month (day 0 of the
      next month), at the same time of day. */
  function AtLastDayOfMonth(mt: Moment): (r: Result<Moment>)
    requires Valid(mt)
    ensures r.Ok? && Valid(r.value)
    ensures var n := r.value; var d := DateOf(mt);
      && DateOf(n) == Calendar.Date(d.year, d.month, Calendar.DaysInMonth(d.year, d.month))
      && SameTimeOfDay(n, mt) && n.offset == mt.offset
  {
    var dt := Calendar.ToYmd(LocalDt(mt));
    var dim := Calendar.DaysInMonth(dt.year, dt.month);
    Calendar.FromYmdDayZero(dt.year, dt.month);
    Calendar.ToYmdFromYmd(dt.year, dt.month, dim);
    var last := Calendar.FromYmd(dt.year, dt.month, dim);
    DateInYears(last);
    var next := Calendar.FromYmd(dt.year, dt.month + 1, 0);
    assert next == last;
    WithLocalDt(mt, next)
  }

  // ---------------------------------------------------------------------------
  // Comparison

  /** C's `(a > b) - (a < b)`. */
  function Cmp(a: int, b: int): (r: int)
    ensures r == -1 || r == 0 || r == 1
    ensures r < 0 <==> a < b
    ensures r > 0 <==> a > b
  {
    (if a > b then 1 else 0) - (if a < b then 1 else 0)
  }

  /** `moment_compare_instant`: seconds first, then nanoseconds; the order of the
      instants on the UTC time line. */
  function CompareInstant(a: Moment, b: Moment): (r: int)
    requires Valid(a) && Valid(b)
    ensures r == -1 || r == 0 || r == 1
    ensures r < 0 <==> TotalNanos(a) < TotalNanos(b)
    ensures r == 0 <==> TotalNanos(a) == TotalNanos(b)
    ensures r > 0 <==> TotalNanos(a) > TotalNanos(b)
  {
    var s1, s2 := InstantRdSeconds(a), InstantRdSeconds(b);
    var r := Cmp(s1, s2);
    if r == 0 then Cmp(a.nsec, b.nsec) else r
  }

  /** `moment_compare_local`: the order of the local date-times, ignoring offsets. */
  function CompareLocal(a: Moment, b: Moment): (r: int)
    requires Valid(a) && Valid(b)
    ensures r == -1 || r == 0 || r == 1
    ensures r < 0 <==> LocalNanos(a) < LocalNanos(b)
    ensures r == 0 <==> LocalNanos(a) == LocalNanos(b)
    ensures r > 0 <==> LocalNanos(a) > LocalNanos(b)
  {
    var s1, s2 := LocalRdSeconds(a), LocalRdSeconds(b);
    var r := Cmp(s1, s2);
    if r == 0 then Cmp(a.nsec, b.nsec) else r
  }

  /** `moment_equals`: `memcmp` over the whole record, which has no padding: all three
      fields agree. */
  function Equals(a: Moment, b: Moment): (r: bool)
    ensures r <==> a == b
  {
    a.sec == b.sec && a.nsec == b.nsec && a.offset == b.offset
  }
}
