/** The proleptic Gregorian calendar over Rata Die day numbers, standing in for the
    `dt_*` calendar library that src/moment.c calls (`dt_from_ymd`, `dt_to_ymd`,
    `dt_days_in_month`, `dt_dow`, `dt_add_months`, ...). A `dt_t` is a day number:
    day 1 is Monday 0001-01-01. Every conversion is proved against its inverse. */
module Calendar {
  import opened CInt

  /** A civil date: year, month of year, day of month. */
  datatype Date = Date(year: int, month: int, day: int)

  /** A quarter date: year, quarter of year, day of quarter. */
  datatype QuarterDate = QuarterDate(year: int, quarter: int, day: int)

  /** An ISO 8601 week date: week-numbering year, week of year, day of week. */
  datatype WeekDate = WeekDate(year: int, week: int, day: int)

  // ---------------------------------------------------------------------------
  // Lengths

  predicate IsLeapYear(y: int) {
    y % 4 == 0 && (y % 100 != 0 || y % 400 == 0)
  }

  function DaysInYear(y: int): int {
    if IsLeapYear(y) then 366 else 365
  }

  function DaysInMonth(y: int, m: int): (n: int)
    requires 1 <= m <= 12
    ensures 28 <= n <= 31
    ensures n == 29 <==> m == 2 && IsLeapYear(y)
    ensures n == 28 <==> m == 2 && !IsLeapYear(y)
  {
    if m == 2 then (if IsLeapYear(y) then 29 else 28)
    else if m == 4 || m == 6 || m == 9 || m == 11 then 30
    else 31
  }

  predicate ValidDate(y: int, m: int, d: int) {
    1 <= m <= 12 && 1 <= d <= DaysInMonth(y, m)
  }

  /** Days of year `y` that precede the first of month `m`; month 13 stands for the
      first of the next year. */
  function DaysBeforeMonth(y: int, m: int): (n: int)
    requires 1 <= m <= 13
    ensures m == 1 ==> n == 0
    ensures m == 13 ==> n == DaysInYear(y)
  {
    var leap := if m > 2 && IsLeapYear(y) then 1 else 0;
    leap + (
      if m == 1 then 0 else if m == 2 then 31 else if m == 3 then 59
      else if m == 4 then 90 else if m == 5 then 120 else if m == 6 then 151
      else if m == 7 then 181 else if m == 8 then 212 else if m == 9 then 243
      else if m == 10 then 273 else if m == 11 then 304 else if m == 12 then 334
      else 365)
  }

  /** The first of each month follows the previous month's last day. */
  lemma DaysBeforeMonthStep(y: int, m: int)
    requires 1 <= m <= 12
    ensures DaysBeforeMonth(y, m + 1) == DaysBeforeMonth(y, m) + DaysInMonth(y, m)
  {
  }

  /** Reference definition of the days before a month: the lengths of months 1 .. m-1
      of year `y`, added one month at a time. */
  function MonthLengthsBefore(y: int, m: int): (n: int)
    requires 1 <= m <= 13
    ensures 28 * (m - 1) <= n <= 31 * (m - 1)
    decreases m
  {
    if m == 1 then 0 else MonthLengthsBefore(y, m - 1) + DaysInMonth(y, m - 1)
  }

  /** The cumulative month table agrees with adding up the month lengths. */
  lemma {:induction false} DaysBeforeMonthIsSum(y: int, m: int)
    requires 1 <= m <= 13
    ensures DaysBeforeMonth(y, m) == MonthLengthsBefore(y, m)
    decreases m
  {
    if m > 1 {
      DaysBeforeMonthIsSum(y, m - 1);
      DaysBeforeMonthStep(y, m - 1);
    }
  }

  /** Days of the proleptic calendar that precede January 1 of year `y`. */
  function DaysBeforeYear(y: int): int {
    var k := y - 1;
    365 * k + k / 4 - k / 100 + k / 400
  }

  lemma FloorStep(k: int, d: int)
    requires d > 0
    ensures (k + 1) / d == k / d + (if (k + 1) % d == 0 then 1 else 0)
  {
    var q, r := k / d, k % d;
    assert k == d * q + r;
    if r == d - 1 {
      DivModUnique(k + 1, d, q + 1, 0);
    } else {
      DivModUnique(k + 1, d, q, r + 1);
    }
  }

  /** Consecutive years are a year's length apart. */
  lemma DaysBeforeYearStep(y: int)
    ensures DaysBeforeYear(y + 1) == DaysBeforeYear(y) + DaysInYear(y)
  {
    FloorStep(y - 1, 4);
    FloorStep(y - 1, 100);
    FloorStep(y - 1, 400);
  }

  /** Reference definition of the days before a year: the lengths of years 1 .. y-1,
      added one year at a time. */
  function YearLengthsBefore(y: int): (n: int)
    requires y >= 1
    ensures 365 * (y - 1) <= n <= 366 * (y - 1)
    decreases y
  {
    if y == 1 then 0 else YearLengthsBefore(y - 1) + DaysInYear(y - 1)
  }

  /** The closed form with its leap-day corrections agrees with adding up the year
      lengths from year 1. */
  lemma {:induction false} DaysBeforeYearIsSum(y: int)
    requires y >= 1
    ensures DaysBeforeYear(y) == YearLengthsBefore(y)
    decreases y
  {
    if y > 1 {
      DaysBeforeYearIsSum(y - 1);
      DaysBeforeYearStep(y - 1);
    }
  }

  /** The start of every later year lies at or after the end of an earlier one. */
  lemma {:induction false} DaysBeforeYearMonotone(a: int, b: int)
    requires a < b
    ensures DaysBeforeYear(a) + DaysInYear(a) <= DaysBeforeYear(b)
    decreases b - a
  {
    DaysBeforeYearStep(a);
    if a + 1 < b {
      DaysBeforeYearMonotone(a + 1, b);
    }
  }

  /** The closed form at a position inside the 400/100/4/1-year cycles. */
  lemma DaysBeforeYearCycle(a: int, b: int, c: int, e: int)
    requires 0 <= b <= 3 && 0 <= c <= 24 && 0 <= e <= 3
    ensures DaysBeforeYear(400 * a + 100 * b + 4 * c + e + 1)
         == 146097 * a + 36524 * b + 1461 * c + 365 * e
  {
    var k := 400 * a + 100 * b + 4 * c + e;
    DivModUnique(k, 4, 100 * a + 25 * b + c, e);
    DivModUnique(k, 100, 4 * a + b, 4 * c + e);
    DivModUnique(k, 400, a, 100 * b + 4 * c + e);
  }

  /** The year that contains day `rd`, found through the 400-, 100-, 4- and 1-year
      cycles of the calendar. */
  function YearOf(rd: int): (y: int)
    ensures DaysBeforeYear(y) < rd <= DaysBeforeYear(y) + DaysInYear(y)
  {
    var n := rd - 1;
    var a := n / 146097;
    var d1 := n % 146097;
    var b := d1 / 36524;
    var d2 := d1 % 36524;
    var c := d2 / 1461;
    var d3 := d2 % 1461;
    var e := d3 / 365;
    if b == 4 then
      // the last day of a 400-year cycle: December 31 of its 400th, leap, year
      DaysBeforeYearCycle(a, 3, 24, 3);
      DivModUnique(400 * a + 400, 4, 100 * a + 100, 0);
      DivModUnique(400 * a + 400, 400, a + 1, 0);
      400 * a + 400
    else if e == 4 then
      // December 31 of the fourth, leap, year of a 4-year cycle
      assert c <= 23;
      DaysBeforeYearCycle(a, b, c, 3);
      DivModUnique(400 * a + 100 * b + 4 * c + 4, 4, 100 * a + 25 * b + c + 1, 0);
      DivModUnique(400 * a + 100 * b + 4 * c + 4, 100, 4 * a + b, 4 * c + 4);
      400 * a + 100 * b + 4 * c + 4
    else
      DaysBeforeYearCycle(a, b, c, e);
      400 * a + 100 * b + 4 * c + e + 1
  }

  /** A day belongs to exactly one year. */
  lemma YearOfUnique(rd: int, y: int)
    requires DaysBeforeYear(y) < rd <= DaysBeforeYear(y) + DaysInYear(y)
    ensures YearOf(rd) == y
  {
    var y0 := YearOf(rd);
    if y0 < y {
      DaysBeforeYearMonotone(y0, y);
    } else if y < y0 {
      DaysBeforeYearMonotone(y, y0);
    }
  }

  // ---------------------------------------------------------------------------
  // Year and day of year (dt_to_yd, dt_from_yd)

  function FromYd(y: int, d: int): int {
    DaysBeforeYear(y) + d
  }

  function ToYd(rd: int): (r: (int, int))
    ensures 1 <= r.1 <= DaysInYear(r.0) && FromYd(r.0, r.1) == rd
  {
    var y := YearOf(rd);
    (y, rd - DaysBeforeYear(y))
  }

  /** Day 0 of the next year is December 31: `dt_from_yd(y + 1, 0)`. */
  lemma FromYdZero(y: int)
    ensures FromYd(y + 1, 0) == FromYmd(y, 12, 31)
  {
    DaysBeforeYearStep(y);
  }

  /** Day-of-year numbering round-trips inside a year. */
  lemma ToYdFromYd(y: int, d: int)
    requires 1 <= d <= DaysInYear(y)
    ensures ToYd(FromYd(y, d)) == (y, d)
  {
    YearOfUnique(FromYd(y, d), y);
  }

  // ---------------------------------------------------------------------------
  // Civil dates (dt_from_ymd, dt_to_ymd)

  /** The day number of a civil date; a month outside 1..12 carries into the year and
      day 0 is the last day of the previous month, as `dt_from_ymd(y, m + 1, 0)` uses. */
  function FromYmd(y: int, m: int, d: int): int {
    if 1 <= m <= 12 then DaysBeforeYear(y) + DaysBeforeMonth(y, m) + d
    else
      var y1 := y + (m - 1) / 12;
      var m1 := (m - 1) % 12 + 1;
      DaysBeforeYear(y1) + DaysBeforeMonth(y1, m1) + d
  }

  /** The month of year `y` that holds day-of-year `doy`. */
  function MonthOfDay(y: int, doy: int): (m: int)
    requires 1 <= doy <= DaysInYear(y)
    ensures 1 <= m <= 12
    ensures DaysBeforeMonth(y, m) < doy <= DaysBeforeMonth(y, m) + DaysInMonth(y, m)
  {
    if doy <= DaysBeforeMonth(y, 2) then 1
    else if doy <= DaysBeforeMonth(y, 3) then 2
    else if doy <= DaysBeforeMonth(y, 4) then 3
    else if doy <= DaysBeforeMonth(y, 5) then 4
    else if doy <= DaysBeforeMonth(y, 6) then 5
    else if doy <= DaysBeforeMonth(y, 7) then 6
    else if doy <= DaysBeforeMonth(y, 8) then 7
    else if doy <= DaysBeforeMonth(y, 9) then 8
    else if doy <= DaysBeforeMonth(y, 10) then 9
    else if doy <= DaysBeforeMonth(y, 11) then 10
    else if doy <= DaysBeforeMonth(y, 12) then 11
    else 12
  }

  /** `dt_to_ymd`: the civil date of a day number; its inverse is `FromYmd`. */
  function ToYmd(rd: int): (dt: Date)
    ensures ValidDate(dt.year, dt.month, dt.day)
    ensures FromYmd(dt.year, dt.month, dt.day) == rd
    ensures dt.year == ToYd(rd).0
    ensures DaysBeforeMonth(dt.year, dt.month) + dt.day == ToYd(rd).1
  {
    var (y, doy) := ToYd(rd);
    var m := MonthOfDay(y, doy);
    Date(y, m, doy - DaysBeforeMonth(y, m))
  }

  lemma DaysBeforeMonthFits(y: int, m: int)
    requires 1 <= m <= 12
    ensures DaysBeforeMonth(y, m) + DaysInMonth(y, m) <= DaysInYear(y)
  {
  }

  /** Every valid civil date round-trips through its day number. */
  lemma ToYmdFromYmd(y: int, m: int, d: int)
    requires ValidDate(y, m, d)
    ensures ToYmd(FromYmd(y, m, d)) == Date(y, m, d)
  {
    var doy := DaysBeforeMonth(y, m) + d;
    var rd := FromYmd(y, m, d);
    DaysBeforeMonthFits(y, m);
    assert rd == FromYd(y, doy);
    ToYdFromYd(y, doy);
    MonthOfDayUnique(y, doy, m);
  }

  /** A day of the year belongs to exactly one month. */
  lemma MonthOfDayUnique(y: int, doy: int, m: int)
    requires 1 <= m <= 12 && DaysBeforeMonth(y, m) < doy <= DaysBeforeMonth(y, m) + DaysInMonth(y, m)
    requires doy <= DaysInYear(y)
    ensures MonthOfDay(y, doy) == m
  {
  }

  /** Distinct valid dates have distinct day numbers. */
  lemma FromYmdInjective(y1: int, m1: int, d1: int, y2: int, m2: int, d2: int)
    requires ValidDate(y1, m1, d1) && ValidDate(y2, m2, d2)
    requires FromYmd(y1, m1, d1) == FromYmd(y2, m2, d2)
    ensures y1 == y2 && m1 == m2 && d1 == d2
  {
    ToYmdFromYmd(y1, m1, d1);
    ToYmdFromYmd(y2, m2, d2);
  }

  /** Day 0 of the following month is the last day of the month (`dt_from_ymd(y, m + 1, 0)`). */
  lemma FromYmdDayZero(y: int, m: int)
    requires 1 <= m <= 12
    ensures FromYmd(y, m + 1, 0) == FromYmd(y, m, DaysInMonth(y, m))
  {
    if m == 12 {
      DaysBeforeYearStep(y);
    }
  }

  /** Valid dates of years `lo..hi` have day numbers after the start of `lo` and no
      later than the end of `hi`. */
  lemma FromYmdBounds(y: int, m: int, d: int, lo: int, hi: int)
    requires ValidDate(y, m, d) && lo <= y <= hi
    ensures DaysBeforeYear(lo) < FromYmd(y, m, d) <= DaysBeforeYear(hi + 1)
  {
    DaysBeforeMonthFits(y, m);
    if lo < y {
      DaysBeforeYearMonotone(lo, y);
    }
    DaysBeforeYearMonotone(y, hi + 1);
  }

  /** The day numbers 1..3652059 are exactly the dates of years 1..9999. */
  lemma YearRange(rd: int)
    ensures 1 <= rd <= 3652059 <==> 1 <= ToYmd(rd).year <= 9999
  {
    var y := ToYmd(rd).year;
    assert DaysBeforeYear(1) == 0 && DaysBeforeYear(10000) == 3652059;
    if y < 1 {
      DaysBeforeYearMonotone(y, 1);
    } else if y > 10000 {
      DaysBeforeYearMonotone(10000, y);
    } else {
      if 1 < y {
        DaysBeforeYearMonotone(1, y);
      }
      if y < 10000 {
        DaysBeforeYearMonotone(y, 10000);
      }
    }
  }

  // ---------------------------------------------------------------------------
  // Quarters (dt_to_yqd, dt_from_yqd, dt_days_in_quarter)

  function DaysBeforeQuarter(y: int, q: int): int
    requires 1 <= q <= 4
  {
    DaysBeforeMonth(y, 3 * q - 2)
  }

  function DaysInQuarter(y: int, q: int): (n: int)
    requires 1 <= q <= 4
    ensures 90 <= n <= 92
    ensures n == DaysInMonth(y, 3 * q - 2) + DaysInMonth(y, 3 * q - 1) + DaysInMonth(y, 3 * q)
  {
    DaysBeforeMonth(y, 3 * q + 1) - DaysBeforeMonth(y, 3 * q - 2)
  }

  /** The day number of a quarter date; a quarter outside 1..4 carries into the year
      and day 0 is the last day of the previous quarter. */
  function FromYqd(y: int, q: int, d: int): int {
    if 1 <= q <= 4 then DaysBeforeYear(y) + DaysBeforeQuarter(y, q) + d
    else
      var y1 := y + (q - 1) / 4;
      var q1 := (q - 1) % 4 + 1;
      DaysBeforeYear(y1) + DaysBeforeQuarter(y1, q1) + d
  }

  /** `dt_to_yqd`: quarter 1 is January to March, and so on. */
  function ToYqd(rd: int): (r: QuarterDate)
    ensures 1 <= r.quarter <= 4 && 1 <= r.day <= DaysInQuarter(r.year, r.quarter)
    ensures FromYqd(r.year, r.quarter, r.day) == rd
    ensures r.year == ToYmd(rd).year && r.quarter == (ToYmd(rd).month + 2) / 3
  {
    var dt := ToYmd(rd);
    var q := (dt.month + 2) / 3;
    QuarterOfMonth(dt.year, dt.month);
    QuarterDate(dt.year, q, ToYd(rd).1 - DaysBeforeQuarter(dt.year, q))
  }

  /** Month `m` lies inside quarter `(m + 2) / 3`. */
  lemma QuarterOfMonth(y: int, m: int)
    requires 1 <= m <= 12
    ensures var q := (m + 2) / 3;
      && 1 <= q <= 4
      && DaysBeforeQuarter(y, q) <= DaysBeforeMonth(y, m)
      && DaysBeforeMonth(y, m) + DaysInMonth(y, m) <= DaysBeforeQuarter(y, q) + DaysInQuarter(y, q)
  {
    DaysBeforeMonthStep(y, m);
    if m <= 3 {
      assert (m + 2) / 3 == 1;
    } else if m <= 6 {
      assert (m + 2) / 3 == 2;
    } else if m <= 9 {
      assert (m + 2) / 3 == 3;
    } else {
      assert (m + 2) / 3 == 4;
    }
  }

  /** Every valid quarter date round-trips through its day number. */
  lemma ToYqdFromYqd(y: int, q: int, d: int)
    requires 1 <= q <= 4 && 1 <= d <= DaysInQuarter(y, q)
    ensures ToYqd(FromYqd(y, q, d)) == QuarterDate(y, q, d)
  {
    var doy := DaysBeforeQuarter(y, q) + d;
    var rd := FromYqd(y, q, d);
    DaysBeforeMonthFits(y, 3 * q);
    assert rd == FromYd(y, doy);
    ToYdFromYd(y, doy);
    assert ToYmd(rd).year == y && ToYmd(rd).month == MonthOfDay(y, doy);
    MonthInQuarter(y, doy, q);
  }

  /** A day inside quarter `q` lies in one of its three months. */
  lemma MonthInQuarter(y: int, doy: int, q: int)
    requires 1 <= q <= 4 && DaysBeforeQuarter(y, q) < doy <= DaysBeforeQuarter(y, q) + DaysInQuarter(y, q)
    requires doy <= DaysInYear(y)
    ensures (MonthOfDay(y, doy) + 2) / 3 == q
  {
    var m := MonthOfDay(y, doy);
    DaysBeforeMonthStep(y, m);
    if q == 1 {
      assert m <= 3;
    } else if q == 2 {
      assert 4 <= m <= 6;
    } else if q == 3 {
      assert 7 <= m <= 9;
    } else {
      assert 10 <= m;
    }
  }

  /** Day 0 of the following quarter is the last day of the quarter. */
  lemma FromYqdDayZero(y: int, q: int)
    requires 1 <= q <= 4
    ensures FromYqd(y, q + 1, 0) == FromYqd(y, q, DaysInQuarter(y, q))
  {
    if q == 4 {
      DaysBeforeYearStep(y);
    }
  }

  // ---------------------------------------------------------------------------
  // Day of week and ISO 8601 week dates (dt_dow, dt_to_ywd, dt_from_ywd, dt_weeks_in_year)

  /** ISO day of week, 1 = Monday ... 7 = Sunday; day 1 (0001-01-01) is a Monday. */
  function DayOfWeek(rd: int): (d: int)
    ensures 1 <= d <= 7 && (rd - d) % 7 == 0
  {
    var r := rd % 7;
    if r == 0 then 7 else r
  }

  /** Two days fall on the same weekday exactly when they are whole weeks apart. */
  lemma DayOfWeekCongruent(a: int, b: int)
    ensures DayOfWeek(a) == DayOfWeek(b) <==> (a - b) % 7 == 0
  {
    var da, db := DayOfWeek(a), DayOfWeek(b);
    var p, q := (a - da) / 7, (b - db) / 7;
    assert a == 7 * p + da && b == 7 * q + db;
    if (a - b) % 7 == 0 {
      var s := (a - b) / 7;
      assert a - b == 7 * s;
      DivModUnique(da - db + 7, 7, s - p + q + 1, 0);
    } else if da == db {
      DivModUnique(a - b, 7, p - q, 0);
    }
  }

  /** Moving `k` days forward moves the weekday `k` steps round the week. */
  lemma DayOfWeekShift(rd: int, k: int)
    ensures DayOfWeek(rd + k) == (DayOfWeek(rd) - 1 + k) % 7 + 1
  {
    var e := (DayOfWeek(rd) - 1 + k) % 7 + 1;
    var t := (DayOfWeek(rd) - 1 + k) / 7;
    assert DayOfWeek(rd) - 1 + k == 7 * t + (e - 1);
    var p := (rd - DayOfWeek(rd)) / 7;
    DivModUnique(rd + k - e, 7, p + t, 0);
    assert DayOfWeek(e) == e;
    DayOfWeekCongruent(rd + k, e);
  }

  /** Moving by the difference of days of week lands on the wanted day of the same
      Monday-based week. */
  lemma DayOfWeekWithin(rd: int, v: int)
    requires 1 <= v <= 7
    ensures DayOfWeek(rd - (DayOfWeek(rd) - v)) == v
  {
    DayOfWeekShift(rd, v - DayOfWeek(rd));
    assert (v - 1) % 7 == v - 1;
  }

  /** The Monday of ISO week 1: the Monday on or before January 4. */
  function WeekOneMonday(y: int): (rd: int)
    ensures DayOfWeek(rd) == 1
    ensures DaysBeforeYear(y) - 2 <= rd <= DaysBeforeYear(y) + 4
  {
    var jan4 := FromYmd(y, 1, 4);
    DayOfWeekShift(jan4, 1 - DayOfWeek(jan4));
    jan4 - DayOfWeek(jan4) + 1
  }

  /** An ISO year has 53 weeks when it starts on a Thursday, or on a Wednesday in a
      leap year; otherwise 52. */
  function WeeksInYear(y: int): (n: int)
    ensures n == 52 || n == 53
  {
    var jan1 := DayOfWeek(FromYmd(y, 1, 1));
    if jan1 == 4 || (jan1 == 3 && IsLeapYear(y)) then 53 else 52
  }

  function FromYwd(y: int, w: int, d: int): int {
    WeekOneMonday(y) + 7 * (w - 1) + (d - 1)
  }

  /** The Thursday of ISO week 1 is the first Thursday of January: it falls on
      January 1 exactly when the year starts on a Thursday and on January 2 exactly
      when it starts on a Wednesday. */
  lemma FirstThursday(y: int)
    ensures var t := WeekOneMonday(y) + 3;
      && DaysBeforeYear(y) + 1 <= t <= DaysBeforeYear(y) + 7
      && DayOfWeek(t) == 4
      && (t == DaysBeforeYear(y) + 1 <==> DayOfWeek(FromYmd(y, 1, 1)) == 4)
      && (t == DaysBeforeYear(y) + 2 <==> DayOfWeek(FromYmd(y, 1, 1)) == 3)
  {
    var jan1 := FromYmd(y, 1, 1);
    var jan4 := FromYmd(y, 1, 4);
    assert jan1 == DaysBeforeYear(y) + 1 && jan4 == jan1 + 3;
    DayOfWeekShift(jan1, 3);
    DayOfWeekShift(WeekOneMonday(y), 3);
  }

  /** `dt_to_ywd`: the week-numbering year is the year of the week's Thursday. */
  function ToYwd(rd: int): (r: WeekDate)
    ensures 1 <= r.week <= WeeksInYear(r.year) && 1 <= r.day <= 7
    ensures r.day == DayOfWeek(rd)
    ensures FromYwd(r.year, r.week, r.day) == rd
  {
    var d := DayOfWeek(rd);
    var th := rd - d + 4;
    var y := YearOf(th);
    var w := (th - DaysBeforeYear(y) - 1) / 7 + 1;
    ToYwdCorrect(rd, d, th, y, w);
    WeekDate(y, w, d)
  }

  lemma ToYwdCorrect(rd: int, d: int, th: int, y: int, w: int)
    requires d == DayOfWeek(rd) && th == rd - d + 4 && y == YearOf(th)
    requires w == (th - DaysBeforeYear(y) - 1) / 7 + 1
    ensures 1 <= w <= WeeksInYear(y) && WeekOneMonday(y) + 7 * (w - 1) + (d - 1) == rd
  {
    var t1 := WeekOneMonday(y) + 3;
    FirstThursday(y);
    DayOfWeekShift(rd, 4 - d);
    assert rd + (4 - d) == th && (d - 1 + (4 - d)) % 7 + 1 == 4;
    var p, q := (th - 4) / 7, (t1 - 4) / 7;
    assert th == 7 * p + 4 && t1 == 7 * q + 4;
    var j := p - q;
    DivModUnique(th - DaysBeforeYear(y) - 1, 7, j, t1 - DaysBeforeYear(y) - 1);
  }

  /** Every valid ISO week date round-trips through its day number. */
  lemma ToYwdFromYwd(y: int, w: int, d: int)
    requires 1 <= w <= WeeksInYear(y) && 1 <= d <= 7
    ensures ToYwd(FromYwd(y, w, d)) == WeekDate(y, w, d)
  {
    var rd := FromYwd(y, w, d);
    FromYwdDayOfWeek(y, w, d);
    var t1 := WeekOneMonday(y) + 3;
    var th := rd - d + 4;
    assert th == t1 + 7 * (w - 1);
    ThursdayInYear(y, w);
    YearOfUnique(th, y);
    FirstThursday(y);
    DivModUnique(th - DaysBeforeYear(y) - 1, 7, w - 1, t1 - DaysBeforeYear(y) - 1);
  }

  lemma FromYwdDayOfWeek(y: int, w: int, d: int)
    requires 1 <= d <= 7
    ensures DayOfWeek(FromYwd(y, w, d)) == d
  {
    DayOfWeekShift(WeekOneMonday(y), 7 * (w - 1) + (d - 1));
    DivModUnique(7 * (w - 1) + (d - 1), 7, w - 1, d - 1);
  }

  /** The Thursday of every week of an ISO year lies in the calendar year. */
  lemma ThursdayInYear(y: int, w: int)
    requires 1 <= w <= WeeksInYear(y)
    ensures var th := WeekOneMonday(y) + 3 + 7 * (w - 1);
      DaysBeforeYear(y) < th <= DaysBeforeYear(y) + DaysInYear(y)
  {
    FirstThursday(y);
  }

  /** A week-numbering year spans exactly its number of weeks. */
  lemma WeeksInYearSpan(y: int)
    ensures WeekOneMonday(y + 1) - WeekOneMonday(y) == 7 * WeeksInYear(y)
  {
    var t1, t2 := WeekOneMonday(y) + 3, WeekOneMonday(y + 1) + 3;
    FirstThursday(y);
    FirstThursday(y + 1);
    DaysBeforeYearStep(y);
    DayOfWeekCongruent(t2, t1);
    var j := (t2 - t1) / 7;
    assert t2 - t1 == 7 * j;
    assert DaysBeforeYear(y + 1) == DaysBeforeYear(y) + DaysInYear(y);
    DayOfWeekShift(DaysBeforeYear(y) + 1, DaysInYear(y));
  }

  // ---------------------------------------------------------------------------
  // Month arithmetic (dt_add_months with DT_LIMIT)

  function Min(a: int, b: int): int {
    if a <= b then a else b
  }

  /** `dt_add_months(dt, delta, DT_LIMIT)`: move `delta` months and clamp the day of
      month down to the length of the target month. */
  function AddMonths(rd: int, delta: int): (r: int)
    ensures ToYmd(r).year * 12 + ToYmd(r).month == ToYmd(rd).year * 12 + ToYmd(rd).month + delta
    ensures ToYmd(r).day == Min(ToYmd(rd).day, DaysInMonth(ToYmd(r).year, ToYmd(r).month))
  {
    var dt := ToYmd(rd);
    var t := dt.year * 12 + (dt.month - 1) + delta;
    var y := t / 12;
    var m := t % 12 + 1;
    var d := Min(dt.day, DaysInMonth(y, m));
    ToYmdFromYmd(y, m, d);
    FromYmd(y, m, d)
  }

  /** A month count `12 * year + month` determines the year and the month. */
  lemma MonthCountUnique(y1: int, m1: int, y2: int, m2: int)
    requires 1 <= m1 <= 12 && 1 <= m2 <= 12 && y1 * 12 + m1 == y2 * 12 + m2
    ensures y1 == y2 && m1 == m2
  {
    DivModUnique(y1 * 12 + m1 - 1, 12, y1, m1 - 1);
    DivModUnique(y2 * 12 + m2 - 1, 12, y2, m2 - 1);
  }

  /** Going back the same number of months restores a date whose day was not clamped. */
  lemma AddMonthsInverse(rd: int, delta: int)
    requires ToYmd(rd).day <= DaysInMonth(ToYmd(AddMonths(rd, delta)).year, ToYmd(AddMonths(rd, delta)).month)
    ensures AddMonths(AddMonths(rd, delta), -delta) == rd
  {
    var a := ToYmd(rd);
    var r1 := AddMonths(rd, delta);
    var r2 := AddMonths(r1, -delta);
    var c := ToYmd(r2);
    MonthCountUnique(c.year, c.month, a.year, a.month);
    assert c == a;
  }
}
