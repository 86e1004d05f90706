/** The declarations of src/moment.h: range and epoch constants, the per-unit bounds
    on arithmetic amounts, the `moment_t` record and the unit and component enums. */
module MomentTypes {
  import opened CInt
  import Calendar

  const SECS_PER_DAY: int := 86400
  const NANOS_PER_SEC: int := 1_000_000_000

  // Bounds on the amount accepted by plus/minus for each unit.
  const MIN_UNIT_YEARS: int := -10000
  const MAX_UNIT_YEARS: int := 10000
  const MIN_UNIT_MONTHS: int := -120000
  const MAX_UNIT_MONTHS: int := 120000
  const MIN_UNIT_WEEKS: int := -521775
  const MAX_UNIT_WEEKS: int := 521775
  const MIN_UNIT_DAYS: int := -3652425
  const MAX_UNIT_DAYS: int := 3652425
  const MIN_UNIT_HOURS: int := -87658200
  const MAX_UNIT_HOURS: int := 87658200
  const MIN_UNIT_MINUTES: int := -5259492000
  const MAX_UNIT_MINUTES: int := 5259492000
  const MIN_UNIT_SECONDS: int := -315569520000
  const MAX_UNIT_SECONDS: int := 315569520000
  const MIN_UNIT_MILLIS: int := -315569520000000
  const MAX_UNIT_MILLIS: int := 315569520000000
  const MIN_UNIT_MICROS: int := -315569520000000000
  const MAX_UNIT_MICROS: int := 315569520000000000

  /** Local Rata Die seconds of 0001-01-01T00:00:00 and of 9999-12-31T23:59:59. */
  const MIN_RANGE: int := 86400
  const MAX_RANGE: int := 315537983999
  /** Rata Die seconds of 1970-01-01T00:00:00. */
  const UNIX_EPOCH: int := 62135683200
  const MIN_EPOCH_SEC: int := -62135596800
  const MAX_EPOCH_SEC: int := 253402300799

  /** `VALID_EPOCH_SEC(s)`. */
  predicate ValidEpochSec(s: int) {
    MIN_EPOCH_SEC <= s <= MAX_EPOCH_SEC
  }

  /** `moment_t`: local Rata Die seconds, nanosecond of second, UTC offset in minutes. */
  datatype Moment = Moment(sec: int64, nsec: int32, offset: int32)

  /** `moment_unit_t`. */
  datatype Unit = Years | Months | Weeks | Days | Hours | Minutes | Seconds | Millis | Micros | Nanos

  /** `moment_component_t`. */
  datatype Component =
    | Year | MonthOfYear | WeekOfYear | DayOfYear | DayOfQuarter | DayOfMonth | DayOfWeek
    | HourOfDay | MinuteOfHour | MinuteOfDay | SecondOfMinute | SecondOfDay
    | MilliOfSecond | MilliOfDay | MicroOfSecond | NanoOfSecond

  /** The ways an operation can `croak`. */
  datatype Error =
    | InvalidComponent  // a field or component value outside its own range
    | InvalidOffset     // an offset outside [-1080, 1080]
    | OutOfRange        // a result outside 0001-01-01T00:00:00 .. 9999-12-31T23:59:59 local
    | Overflow          // an arithmetic amount outside its unit's bounds

  datatype Result<T> = Ok(value: T) | Err(error: Error)

  /** The invariant of every moment the constructors hand out. */
  predicate Valid(mt: Moment) {
    && MIN_RANGE <= mt.sec <= MAX_RANGE
    && 0 <= mt.nsec < NANOS_PER_SEC
    && -1080 <= mt.offset <= 1080
  }

  /** The lower and upper bound on a unit's amount (`MIN_UNIT_*`, `MAX_UNIT_*`);
      nanoseconds have none. */
  function UnitMin(u: Unit): int
    requires u != Nanos
  {
    match u
    case Years => MIN_UNIT_YEARS
    case Months => MIN_UNIT_MONTHS
    case Weeks => MIN_UNIT_WEEKS
    case Days => MIN_UNIT_DAYS
    case Hours => MIN_UNIT_HOURS
    case Minutes => MIN_UNIT_MINUTES
    case Seconds => MIN_UNIT_SECONDS
    case Millis => MIN_UNIT_MILLIS
    case Micros => MIN_UNIT_MICROS
  }

  function UnitMax(u: Unit): int
    requires u != Nanos
  {
    match u
    case Years => MAX_UNIT_YEARS
    case Months => MAX_UNIT_MONTHS
    case Weeks => MAX_UNIT_WEEKS
    case Days => MAX_UNIT_DAYS
    case Hours => MAX_UNIT_HOURS
    case Minutes => MAX_UNIT_MINUTES
    case Seconds => MAX_UNIT_SECONDS
    case Millis => MAX_UNIT_MILLIS
    case Micros => MAX_UNIT_MICROS
  }

  /** The `THX_check_unit_*` test for a unit's amount. */
  predicate UnitInRange(u: Unit, v: int) {
    u == Nanos || UnitMin(u) <= v <= UnitMax(u)
  }

  /** Units of elapsed time, as opposed to the calendrical years and months. */
  predicate IsExact(u: Unit) {
    u != Years && u != Months
  }

  /** The length of one exact unit in nanoseconds. */
  function UnitNanos(u: Unit): (n: int)
    requires IsExact(u)
    ensures n > 0
  {
    match u
    case Weeks => 7 * 86400 * NANOS_PER_SEC
    case Days => 86400 * NANOS_PER_SEC
    case Hours => 3600 * NANOS_PER_SEC
    case Minutes => 60 * NANOS_PER_SEC
    case Seconds => NANOS_PER_SEC
    case Millis => 1000000
    case Micros => 1000
    case Nanos => 1
  }

  // ---------------------------------------------------------------------------
  // What the constants mean

  /** The range constants are the first and last second of the days 1..3652059, and
      those days are exactly the dates of years 1 through 9999. */
  lemma RangeConstants()
    ensures MIN_RANGE == Calendar.FromYmd(1, 1, 1) * SECS_PER_DAY
    ensures MAX_RANGE == Calendar.FromYmd(9999, 12, 31) * SECS_PER_DAY + 86399
    ensures MIN_RANGE == 1 * SECS_PER_DAY && MAX_RANGE == 3652059 * SECS_PER_DAY + 86399
    ensures UNIX_EPOCH == Calendar.FromYmd(1970, 1, 1) * SECS_PER_DAY
    ensures UNIX_EPOCH == 719163 * SECS_PER_DAY
    ensures MIN_EPOCH_SEC == MIN_RANGE - UNIX_EPOCH && MAX_EPOCH_SEC == MAX_RANGE - UNIX_EPOCH
  {
  }

  /** Local seconds are in range exactly when their day falls in years 1 through 9999. */
  lemma RangeIsYears(s: int)
    requires s >= 0
    ensures MIN_RANGE <= s <= MAX_RANGE <==> 1 <= Calendar.ToYmd(s / SECS_PER_DAY).year <= 9999
  {
    Calendar.YearRange(s / SECS_PER_DAY);
  }

  /** `VALID_EPOCH_SEC(s)` holds exactly for the epoch seconds whose UTC Rata Die
      seconds are in range. */
  lemma ValidEpochSecIsRange(s: int)
    ensures ValidEpochSec(s) <==> MIN_RANGE <= s + UNIX_EPOCH <= MAX_RANGE
  {
  }

  /** The unit-bound table is one chain: each bound is the previous one times the
      ratio of the units, and each lower bound is the negated upper bound. */
  lemma UnitTableChained()
    ensures MAX_UNIT_MONTHS == 12 * MAX_UNIT_YEARS
    ensures MAX_UNIT_DAYS == 7 * MAX_UNIT_WEEKS
    ensures MAX_UNIT_HOURS == 24 * MAX_UNIT_DAYS
    ensures MAX_UNIT_MINUTES == 60 * MAX_UNIT_HOURS
    ensures MAX_UNIT_SECONDS == 60 * MAX_UNIT_MINUTES
    ensures MAX_UNIT_MILLIS == 1000 * MAX_UNIT_SECONDS
    ensures MAX_UNIT_MICROS == 1000 * MAX_UNIT_MILLIS
    ensures forall u: Unit | u != Nanos :: UnitMin(u) == -UnitMax(u)
  {
  }

  /** Each bound covers the whole representable range: two moments are never further
      apart than a unit's bound, so the bound check rejects only amounts that could
      not give a result in range. MAX_UNIT_DAYS is 10000 Gregorian years of days. */
  lemma UnitBoundsCoverRange()
    ensures MAX_UNIT_DAYS * 400 == 10000 * 146097
    ensures 12 * MAX_UNIT_YEARS > 12 * 9999 + 11 && MAX_UNIT_YEARS > 9999 - 1
    ensures MAX_UNIT_MONTHS > 12 * 9999 + 11
    ensures 7 * MAX_UNIT_WEEKS > 3652059 - 1
    ensures MAX_UNIT_DAYS > 3652059 - 1
    ensures 3600 * MAX_UNIT_HOURS > (MAX_RANGE + 1080 * 60) - (MIN_RANGE - 1080 * 60)
    ensures 60 * MAX_UNIT_MINUTES > (MAX_RANGE + 1080 * 60) - (MIN_RANGE - 1080 * 60)
    ensures MAX_UNIT_SECONDS > (MAX_RANGE + 1080 * 60) - (MIN_RANGE - 1080 * 60)
    ensures MAX_UNIT_MILLIS > 1000 * ((MAX_RANGE + 1080 * 60) - (MIN_RANGE - 1080 * 60))
    ensures MAX_UNIT_MICROS > 1000000 * ((MAX_RANGE + 1080 * 60) - (MIN_RANGE - 1080 * 60))
  {
  }

  /** For each bounded unit, scaling an amount within the bound by the factor the
      plus/minus code multiplies it with (12 for years; 7 * 86400 for weeks; 86400
      for days; 3600 for hours; 60 for minutes; 1 for months, seconds, milliseconds
      and microseconds, whose amounts are used unscaled), and adding the largest
      in-range seconds value, stays inside `int64_t`. */
  lemma UnitScalingFitsInt64(u: Unit, v: int)
    requires u != Nanos && UnitMin(u) <= v <= UnitMax(u)
    ensures var scale := match u
        case Years => 12 case Months => 1 case Weeks => 7 * 86400 case Days => 86400
        case Hours => 3600 case Minutes => 60 case Seconds => 1 case Millis => 1
        case Micros => 1;
      INT64_MIN <= v * scale - MAX_RANGE - 1080 * 60 && v * scale + MAX_RANGE + 1080 * 60 <= INT64_MAX
  {
  }
}
