# Time::Moment instant engine, modelled in Dafny

This project models the core of Time::Moment's C engine (`src/moment.c`, `src/moment.h`):
the `moment_t` value, and every integer operation on it.

A moment is three fields:
- `sec`: the **local** time as Rata Die seconds, where day 1 is 0001-01-01;
- `nsec`: the nanosecond of the second;
- `offset`: the UTC offset in minutes.

The instant is derived from these as `sec - offset * 60`. Every operation checks its
arguments and either returns a fresh moment or fails (`croak`).

| module | file | what it holds |
|---|---|---|
| `CInt` | `cint.dfy` | The C types `int32_t` and `int64_t` as subset types. `CDiv`/`CMod` model C's truncating `/` and `%`. |
| `Calendar` | `calendar.dfy` | The `dt_*` day-number library used by `moment.c`, written as a concrete proleptic Gregorian calendar. It converts day numbers to and from civil, ordinal, quarter and ISO-week dates, and implements clamped month addition. Each conversion is paired with its inverse by a lemma. |
| `MomentTypes` | `moment_types.dfy` | The declarations of `moment.h` and what they mean: the range, epoch and unit-bound constants, `VALID_EPOCH_SEC`, `moment_t`, the unit and component enums, and the error kinds. |
| `MomentOps` | `moment.dfy` | The operations of `moment.c`: construction, accessors, setters, unit arithmetic, offset changes, the `at_*` functions and the comparisons. Each has a contract saying when it succeeds, which error it raises otherwise, and what the result's fields are. |
| `MomentLaws` | `moment_laws.dfy` | Laws relating several operations: setter round trips, per-unit shift contracts of `plus_unit`/`minus_unit`, inverses, total orders, offset round trips and idempotence of the `at_*` functions. |

How the model is built:
- **Errors.** `croak` becomes `Err(e)`, where `e` is one of:
  - `InvalidComponent`: a field outside its range;
  - `InvalidOffset`;
  - `OutOfRange`: the result is outside 0001-01-01T00:00:00 .. 9999-12-31T23:59:59 local;
  - `Overflow`: an arithmetic amount is outside its unit's bound.
- **The invariant.** `Valid(mt)`, which is `moment_check_self` plus the nanosecond and offset ranges, is required of every moment argument and ensured of every result.
- **Integer widths.** The fields are typed `int64`/`int32`/`int32`, and the C locals that the model keeps by name are declared with the C type. Accessor results are unbounded integers whose contracts bound them to their field ranges. Every intermediate the C code stores in `int64_t` or `int` is therefore proved to fit its C type, so none of them overflows.

## Model

| member | source | states |
|---|---|---|
| CInt.CDiv | src/moment.c:601-618 | C division by a positive divisor rounds toward zero: for non-negative dividends it is floor division; for negative ones the remainder lies in (-b, 0]. |
| CInt.CMod | src/moment.c:621-654 | `a == b * CDiv(a, b) + CMod(a, b)`, and the remainder takes the dividend's sign. |
| Calendar.IsLeapYear | src/moment.c:329-334 | Definition of the Gregorian leap rule: divisible by 4, and not by 100 unless by 400. Its partners are the DaysInMonth ensures (February has 29 days exactly in leap years) and MomentOps.LengthOfYear. |
| Calendar.DaysInYear | src/moment.c:437 | Definition: 366 days in a leap year and 365 otherwise, as `dt_days_in_year` and `dt_length_of_year` (src/moment.c:896) give. Its partners are DaysBeforeYearStep and MomentOps.LengthOfYear. |
| Calendar.DaysInMonth | src/moment.c:329-334 | Months have 28..31 days; only February has 28 or 29, with 29 exactly in Gregorian leap years. |
| Calendar.ValidDate | src/moment.c:328-334 | Definition of a valid civil date: month 1..12 and day 1..DaysInMonth. This is the day check `THX_moment_new` adds after check_day_of_month. Its partners are ToYmd, ToYmdFromYmd and MomentLaws.NewRejectsFebruary29. |
| Calendar.DaysBeforeMonth | src/moment.c:430-442 | No days precede January; all the days of the year precede "month 13". |
| Calendar.MonthLengthsBefore | src/moment.c:429-442 | Reference definition of the days before month m: the lengths of the earlier months added one at a time. Its contract bounds the sum to 28..31 days per earlier month, proved through the recursive calls. |
| Calendar.DaysBeforeMonthIsSum | src/moment.c:429-442 | The cumulative month table equals the sum of the lengths of the earlier months of the same year. |
| Calendar.DaysBeforeYear | src/moment.c:340-342 | Definition: the closed form `365k + k/4 - k/100 + k/400` with k = y-1, the days before January 1 of year y. Its partner DaysBeforeYearIsSum equates it with the reference sum. |
| Calendar.YearLengthsBefore | src/moment.c:340-342 | Reference definition of the days before year y: the lengths of years 1..y-1 added one at a time. Its contract bounds the sum to 365..366 days per earlier year, proved through the recursive calls. |
| Calendar.DaysBeforeYearIsSum | src/moment.c:340-342 | The closed form `365k + k/4 - k/100 + k/400` equals the sum of the lengths of years 1..y-1, so day numbers count every day since 0001-01-01. |
| Calendar.FromYd | src/moment.c:441 | Definition: day d of year y is the days before year y plus d, so day 0 is the last day of the previous year. Its partners are ToYdFromYd and FromYdZero. |
| Calendar.ToYd | src/moment.c:434 | The ordinal date of a day number is valid and maps back to the same day number. |
| Calendar.ToYdFromYd | src/moment.c:430-442 | Converting a valid ordinal date to a day number and back gives the same date. |
| Calendar.FromYdZero | src/moment.c:726-731 | Day 0 of year y+1 is December 31 of year y. |
| Calendar.FromYmd | src/moment.c:341 | Definition: days before the year, plus days before the month, plus d. A month outside 1..12 first carries into the year, rounding down, so month 13 is January of the next year. Its partners are ToYmdFromYmd, FromYmdInjective and FromYmdDayZero. |
| Calendar.ToYmd | src/moment.c:359 | The civil date of a day number is a valid date, maps back to the same day number and agrees with the ordinal date. |
| Calendar.ToYmdFromYmd | src/moment.c:341 | Converting a valid civil date to a day number and back gives the same date. |
| Calendar.FromYmdInjective | src/moment.c:341 | Distinct valid civil dates have distinct day numbers. |
| Calendar.FromYmdDayZero | src/moment.c:742-747 | Day 0 of month m+1 is the last day of month m, including across a year end. |
| Calendar.YearRange | src/moment.h:46-47 | Day numbers 1..3652059 are exactly the days of years 1..9999. |
| Calendar.DaysInQuarter | src/moment.c:422 | A quarter has 90..92 days, the sum of the lengths of its three months. |
| Calendar.FromYqd | src/moment.c:426 | Definition: days before the year, plus days before the quarter, plus d. A quarter outside 1..4 first carries into the year. Its partners are ToYqdFromYqd and FromYqdDayZero. |
| Calendar.ToYqd | src/moment.c:419 | The quarter date of a day number is valid, maps back to it, and its quarter is the quarter of its civil month. |
| Calendar.ToYqdFromYqd | src/moment.c:415-427 | Converting a valid quarter date to a day number and back gives the same date. |
| Calendar.FromYqdDayZero | src/moment.c:734-739 | Day 0 of quarter q+1 is the last day of quarter q. |
| Calendar.DayOfWeek | src/moment.c:819-821 | The weekday lies in 1..7 (Monday is 1) and is congruent to the day number modulo 7. |
| Calendar.DayOfWeekWithin | src/moment.c:445-451 | Moving back by the weekday minus v lands on weekday v. |
| Calendar.WeeksInYear | src/moment.c:392 | An ISO week-numbering year has 52 or 53 weeks. |
| Calendar.WeeksInYearSpan | src/moment.c:392 | The Monday of week 1 of year y+1 comes exactly 7 × WeeksInYear(y) days after that of year y, so every day falls in exactly one week-numbering year. |
| Calendar.WeekOneMonday | src/moment.c:396 | The Monday of ISO week 1 of year y, the Monday on or before January 4, is a Monday from December 29 of the previous year through January 4. |
| Calendar.FromYwd | src/moment.c:396 | Definition: the Monday of ISO week 1 of year y, plus 7(w-1), plus d-1. Its partners are ToYwdFromYwd and FromYwdDayOfWeek. |
| Calendar.ToYwd | src/moment.c:389 | The ISO week date of a day number has a week within its year's week count and the day's own weekday, and maps back to the day number. |
| Calendar.ToYwdFromYwd | src/moment.c:385-397 | Converting a valid ISO week date to a day number and back gives the same date. |
| Calendar.FromYwdDayOfWeek | src/moment.c:396 | The day built from ISO week date (y, w, d) falls on weekday d. |
| Calendar.AddMonths | src/moment.c:578 | Adding delta months moves the month count by exactly delta and clamps the day to the target month's length. |
| Calendar.AddMonthsInverse | src/moment.c:574-580 | When no clamp was needed, subtracting the same months returns the original day. |
| MomentTypes.ValidEpochSec | src/moment.h:52-53 | Definition: epoch seconds lie between MIN_EPOCH_SEC and MAX_EPOCH_SEC. Its partner is ValidEpochSecIsRange. |
| MomentTypes.Valid | src/moment.c:8-12 | The moment invariant: local seconds in range, nsec in 0..999999999, offset in -1080..1080. Every constructor and operation requires it of its arguments and ensures it of every Ok result. |
| MomentTypes.UnitMin | src/moment.h:27-44 | Definition: the MIN_UNIT_* constant of each bounded unit. Its partner UnitTableChained shows every MIN is -MAX. |
| MomentTypes.UnitMax | src/moment.h:27-44 | Definition: the MAX_UNIT_* constant of each bounded unit. Its partners are UnitTableChained and UnitBoundsCoverRange. |
| MomentTypes.UnitInRange | src/moment.c:185-237 | Definition of the `check_unit_*` tests: nanoseconds are unbounded, and every other unit accepts exactly [MIN_UNIT_*, MAX_UNIT_*]. Its partners are UnitBoundsCoverRange and MomentLaws.UnitBoundNeverCuts. |
| MomentTypes.UnitNanos | src/moment.h:61-72 | Each exact unit has a positive length in nanoseconds. |
| MomentTypes.RangeConstants | src/moment.h:46-50 | MIN_RANGE is the first second of 0001-01-01 (day 1). MAX_RANGE is the last second of 9999-12-31 (day 3652059). UNIX_EPOCH is day 719163 (1970-01-01). The epoch bounds are the range bounds less UNIX_EPOCH. |
| MomentTypes.RangeIsYears | src/moment.h:46-47 | Local seconds are in range exactly when their day falls in years 1..9999. |
| MomentTypes.ValidEpochSecIsRange | src/moment.h:49-53 | `VALID_EPOCH_SEC(s)` holds exactly when `s + UNIX_EPOCH` is within [MIN_RANGE, MAX_RANGE]. |
| MomentTypes.UnitTableChained | src/moment.h:27-44 | Each unit bound is the previous bound times the unit ratio (12, 7, 24, 60, 60, 1000, 1000), and every MIN is -MAX. |
| MomentTypes.UnitBoundsCoverRange | src/moment.h:27-47 | Every unit bound, scaled to its unit, is wider than the representable range. Years and months are wider than the month span of years 1..9999. Weeks (times 7) and days are wider than the 3652058-day span. Hours, minutes, seconds, milliseconds and microseconds, scaled to seconds, are wider than the instant span widened by the largest offsets. MAX_UNIT_DAYS is exactly 10000 Gregorian years. The per-moment consequence is MomentLaws.UnitBoundNeverCuts. |
| MomentTypes.UnitScalingFitsInt64 | src/moment.c:621-654 | For every bounded unit and in-range amount, the amount times its scale factor, plus or minus any in-range seconds value, fits in int64. |
| MomentOps.InRange | src/moment.c:8-12 | Definition of `moment_check_self`: local seconds within [MIN_RANGE, MAX_RANGE]. Its partner RangeIsYears shows these are exactly the seconds of years 1..9999. |
| MomentOps.FromLocal | src/moment.c:14-23 | Succeeds exactly when the local seconds are in range, storing the three fields unchanged; otherwise fails with OutOfRange. |
| MomentOps.FromInstant | src/moment.c:25-34 | Succeeds exactly when `sec + offset*60` is in range. On success the instant seconds read back as `sec`, and nsec and offset are stored unchanged. |
| MomentOps.InstantRdSeconds | src/moment.c:36-39 | The instant seconds lie within the local range widened by the largest offset. |
| MomentOps.InstantRd | src/moment.c:41-44 | The instant day number is the floor of the instant seconds over 86400. |
| MomentOps.ToInstantRdValues | src/moment.c:46-52 | Splits the instant seconds into day and second-of-day, with `rd*86400 + sod` equal to the instant seconds and sod in 0..86399, and returns nsec. |
| MomentOps.LocalRdSeconds | src/moment.c:54-57 | For a valid moment, the local seconds are in range and equal the instant seconds plus offset × 60. |
| MomentOps.LocalRd | src/moment.c:59-62 | The local day number lies in 1..3652059 and is the floor of sec over 86400. |
| MomentOps.LocalDt | src/moment.c:64-67 | The local date is a day of years 1..9999. |
| MomentOps.ToLocalRdValues | src/moment.c:69-75 | Splits the local seconds into day (1..3652059) and second-of-day (0..86399), with `rd*86400 + sod == sec`, and returns nsec. |
| MomentOps.Hour | src/moment.c:823-826 | The hour lies in 0..23. |
| MomentOps.Minute | src/moment.c:828-831 | The minute lies in 0..59. |
| MomentOps.MinuteOfDay | src/moment.c:833-836 | The minute of day lies in 0..1439. |
| MomentOps.Second | src/moment.c:838-841 | The second lies in 0..59. |
| MomentOps.SecondOfDay | src/moment.c:843-846 | The second of day lies in 0..86399, and `sec == LocalRd*86400 + SecondOfDay`. |
| MomentOps.Millisecond | src/moment.c:848-851 | The millisecond lies in 0..999 and is the millisecond that contains nsec. |
| MomentOps.MillisecondOfDay | src/moment.c:853-856 | The millisecond of day lies in 0..86399999. |
| MomentOps.Microsecond | src/moment.c:858-861 | The microsecond lies in 0..999999 and is the microsecond that contains nsec. |
| MomentOps.Nanosecond | src/moment.c:863-866 | The nanosecond lies in 0..999999999. |
| MomentOps.Offset | src/moment.c:889-892 | The offset lies in -1080..1080 minutes. |
| MomentOps.Epoch | src/moment.c:778-781 | The epoch seconds lie within the epoch bounds widened by the largest offset. |
| MomentOps.Year | src/moment.c:783-786 | The year lies in 1..9999. |
| MomentOps.Month | src/moment.c:788-791 | The month lies in 1..12. |
| MomentOps.DayOfMonth | src/moment.c:813-816 | The day of month lies within the length of the moment's month. |
| MomentOps.Quarter | src/moment.c:793-796 | The quarter lies in 1..4 and is the quarter that holds the month. |
| MomentOps.DayOfQuarter | src/moment.c:808-811 | The day of quarter lies within the length of the moment's quarter. |
| MomentOps.DayOfYear | src/moment.c:803-806 | The day of year lies within the year's length and equals the days before the month plus the day of month. |
| MomentOps.DayOfWeek | src/moment.c:818-821 | The weekday lies in 1..7. |
| MomentOps.Week | src/moment.c:798-801 | The ISO week lies within its week-numbering year's count, which is at most 53. |
| MomentOps.LengthOfYear | src/moment.c:894-897 | The year has 366 days exactly when it is a leap year, and 365 otherwise. |
| MomentOps.LengthOfQuarter | src/moment.c:899-902 | The quarter has 90..92 days. |
| MomentOps.LengthOfMonth | src/moment.c:904-907 | The month has 28..31 days, and at least as many as the day of month. |
| MomentOps.LengthOfWeekYear | src/moment.c:909-912 | The week-numbering year has 52 or 53 weeks, and at least as many as the moment's week. |
| MomentOps.LocalFieldsOf | src/moment.c:823-846 | If sec is built from a day and an hour, minute and second, the accessors read those back. |
| MomentOps.LocalFields | src/moment.c:823-846 | The local seconds decompose into day, hour, minute and second, and second-of-day and minute-of-day agree with that decomposition. |
| MomentOps.SecondOfDayDetermines | src/moment.c:346-352 | Equal second-of-day and nsec mean the same time of day. |
| MomentOps.RdOfDate | src/moment.c:341 | A valid date of years 1..9999 has a day number in 1..3652059 whose civil date is that date. |
| MomentOps.FieldsValid | src/moment.c:327-339 | Definition of the fields `THX_moment_new` accepts: year 1..9999, a valid civil date in it, hour 0..23, minute 0..59, second 0..59 and nsec 0..999999999. Its partners are New's if-and-only-if ensures and MomentLaws.NewRoundTrip. |
| MomentOps.New | src/moment.c:323-344 | Succeeds exactly when the fields form a valid date of years 1..9999, a valid time and a valid offset; it never fails OutOfRange. Invalid fields fail InvalidComponent, and a bad offset alone fails InvalidOffset. On success every field reads back. |
| MomentOps.FromEpoch | src/moment.c:239-248 | Succeeds exactly when the epoch seconds are valid, nsec and offset are in range, and the local result is in range. Errors come in check order. `Epoch` reads back the argument, and nsec and offset are kept. |
| MomentOps.WithLocalDt | src/moment.c:346-352 | Moves to day dt, keeping the time of day and the offset; fails OutOfRange outside days 1..3652059. |
| MomentOps.WithYear | src/moment.c:354-367 | Rejects years outside 1..9999. Otherwise sets the year, keeps the month, and clamps the day to the new month length, keeping the time of day and the offset. |
| MomentOps.WithMonth | src/moment.c:369-382 | Rejects months outside 1..12. Otherwise sets the month and clamps the day to its length, keeping the year, the time of day and the offset. |
| MomentOps.WithWeek | src/moment.c:384-397 | Succeeds exactly when the week is within the week-numbering year and the result is in range. It rejects a week beyond the count with InvalidComponent. The result has the same week-year and weekday, the new week, the same time of day and the same offset. |
| MomentOps.WithDayOfMonth | src/moment.c:399-412 | Succeeds exactly when the day is within the month's length, keeping year, month, time and offset; a longer day fails InvalidComponent. |
| MomentOps.WithDayOfQuarter | src/moment.c:414-427 | Succeeds exactly when the day is within the quarter's length, keeping year, quarter, time and offset. |
| MomentOps.DateInYears | src/moment.c:346-352 | A day whose year is in 1..9999 lies in 1..3652059. |
| MomentOps.WithDayOfYear | src/moment.c:429-442 | Succeeds exactly when the day is within the year's length, keeping year, time and offset. |
| MomentOps.WithDayOfWeek | src/moment.c:444-451 | Succeeds exactly when v is a weekday and the result is in range. The result is in the same Monday-based week, on weekday v, at the same time of day and offset. |
| MomentOps.WithHour | src/moment.c:453-460 | Rejects hours outside 0..23. Otherwise sets the hour, keeping day, minute, second, nsec and offset. |
| MomentOps.WithMinute | src/moment.c:462-469 | Rejects minutes outside 0..59. Otherwise sets the minute, keeping day, hour, second, nsec and offset. |
| MomentOps.WithMinuteOfDay | src/moment.c:471-478 | Rejects values outside 0..1439. Otherwise hour and minute become v/60 and v%60, keeping day, second, nsec and offset. |
| MomentOps.WithSecond | src/moment.c:480-487 | Rejects seconds outside 0..59. Otherwise sets the second, keeping day, hour, minute, nsec and offset. |
| MomentOps.WithSecondOfDay | src/moment.c:489-496 | Rejects values outside 0..86399. Otherwise sets the second of day, keeping day, nsec and offset. |
| MomentOps.WithMillisecond | src/moment.c:498-505 | Rejects values outside 0..999. Otherwise the millisecond reads back, the sub-millisecond digits become zero, and sec and offset are kept. |
| MomentOps.WithMillisecondOfDay | src/moment.c:507-514 | Accepts 0..86400000, and 86400000 means the next midnight, which fails OutOfRange on the last day. Otherwise the millisecond of day reads back on the same day with sub-millisecond digits zero. |
| MomentOps.WithMicrosecond | src/moment.c:516-523 | Rejects values outside 0..999999. Otherwise the microsecond reads back, the sub-microsecond digits become zero, and sec and offset are kept. |
| MomentOps.WithNanosecond | src/moment.c:525-532 | Rejects values outside 0..999999999. Otherwise sets nsec, keeping sec and offset. |
| MomentOps.ComponentInRange | src/moment.c:534-571 | Definition of the range each component's `THX_check_*` accepts inside with_component. Its partners are MomentLaws.WithDateComponent, MomentLaws.WithTimeComponent and ChecksAcceptAccessors. |
| MomentOps.WithComponent | src/moment.c:534-571 | The dispatcher yields a valid moment with the same offset, or fails with InvalidComponent or OutOfRange. |
| MomentOps.ShiftWhole | src/moment.c:582-598 | A shift by whole seconds fits exactly when the shifted local seconds are in range. |
| MomentOps.ValidYear | src/moment.c:78-81 | Definition: accepts exactly 1..9999. Its partner is ChecksAcceptAccessors. |
| MomentOps.ValidMonth | src/moment.c:84-87 | Definition: accepts exactly 1..12. Its partner is ChecksAcceptAccessors. |
| MomentOps.ValidWeek | src/moment.c:90-93 | Definition: accepts exactly 1..53. Its partner is ChecksAcceptAccessors. |
| MomentOps.ValidDayOfYear | src/moment.c:96-99 | Definition: accepts exactly 1..366. Its partner is ChecksAcceptAccessors. |
| MomentOps.ValidDayOfQuarter | src/moment.c:102-105 | Definition: accepts exactly 1..92. Its partner is ChecksAcceptAccessors. |
| MomentOps.ValidDayOfMonth | src/moment.c:108-111 | Definition: accepts exactly 1..31. Its partner is ChecksAcceptAccessors. |
| MomentOps.ValidDayOfWeek | src/moment.c:114-117 | Definition: accepts exactly 1..7. Its partner is ChecksAcceptAccessors. |
| MomentOps.ValidHour | src/moment.c:120-123 | Definition: accepts exactly 0..23. Its partner is ChecksAcceptAccessors. |
| MomentOps.ValidMinute | src/moment.c:126-129 | Definition: accepts exactly 0..59. Its partner is ChecksAcceptAccessors. |
| MomentOps.ValidMinuteOfDay | src/moment.c:132-135 | Definition: accepts exactly 0..1439. Its partner is ChecksAcceptAccessors. |
| MomentOps.ValidSecond | src/moment.c:138-141 | Definition: accepts exactly 0..59. Its partner is ChecksAcceptAccessors. |
| MomentOps.ValidSecondOfDay | src/moment.c:144-147 | Definition: accepts exactly 0..86399. Its partner is ChecksAcceptAccessors. |
| MomentOps.ValidMillisecond | src/moment.c:150-153 | Definition: accepts exactly 0..999. Its partner is ChecksAcceptAccessors. |
| MomentOps.ValidMillisecondOfDay | src/moment.c:156-159 | Definition: accepts exactly 0..86400000, the top value meaning the next midnight. Its partner is ChecksAcceptAccessors. |
| MomentOps.ValidMicrosecond | src/moment.c:162-165 | Definition: accepts exactly 0..999999. Its partner is ChecksAcceptAccessors. |
| MomentOps.ValidNanosecond | src/moment.c:168-171 | Definition: accepts exactly 0..999999999. Its partner is ChecksAcceptAccessors. |
| MomentOps.ValidOffset | src/moment.c:174-177 | Definition: accepts exactly -1080..1080 minutes. Its partner is ChecksAcceptAccessors. |
| MomentOps.ChecksAcceptAccessors | src/moment.c:77-177 | Every component a valid moment reports (year, month, week, the days of year, quarter, month and week, the times of day, the sub-second fields and the offset) passes its own field check, so no setter rejects a value read from a moment. |
| MomentOps.TotalNanos | src/moment.c:749-759 | Definition: the instant as nanoseconds, instant seconds × 10^9 + nsec. Its partners are NanosSplit and CompareInstantLexicographic. |
| MomentOps.LocalNanos | src/moment.c:761-771 | Definition: the local time as nanoseconds, local seconds × 10^9 + nsec. Its partners are NanosSplit and CompareLocalLexicographic. |
| MomentOps.NanosSplit | src/moment.c:749-771 | Both nanosecond counts split back under division by 10^9 into their seconds and nsec. The local count is the instant count plus offset × 60 × 10^9. |
| MomentOps.TotalNanosInjective | src/moment.c:749-759 | Two valid moments with the same offset and the same instant in nanoseconds are equal. |
| MomentOps.AddMonthsFits | src/moment.c:573-580 | The clamped month addition stays in int and lands in 1..3652059 exactly when the target month is in 0001-01 .. 9999-12. |
| MomentOps.PlusMonths | src/moment.c:573-580 | Overflow if the amount is outside the month bound. Otherwise it succeeds exactly when the target month is in range: the month count moves by v, the day is clamped, and the time of day and offset are kept. |
| MomentOps.PlusDays | src/moment.c:582-589 | Overflow if outside the day bound. Otherwise it succeeds exactly when the shifted day is in range, moving the day by v with the same time of day and offset. |
| MomentOps.PlusSeconds | src/moment.c:591-598 | Overflow if outside the second bound. Otherwise it succeeds exactly when the shifted seconds are in range, moving the instant by v seconds with the same nsec and offset. |
| MomentOps.PlusTimeCarry | src/moment.c:600-615 | The normalised (seconds, nanoseconds) pair has nsec in 0..999999999, and its total is the original instant plus `sign*(sec*1e9 + nsec)`. |
| MomentOps.PlusTime | src/moment.c:600-618 | Succeeds exactly when the shifted instant is in range: the total nanoseconds change by exactly `sign*(sec*1e9 + nsec)`, and the offset is kept. |
| MomentOps.PlusUnit | src/moment.c:620-654 | Any result is valid with the same offset, and an amount outside the unit's bound fails Overflow. The full per-unit contract is in MomentLaws. |
| MomentOps.MinusUnit | src/moment.c:656-690 | Any result is valid with the same offset, and an amount outside the unit's bound fails Overflow. The full per-unit contract is in MomentLaws. |
| MomentOps.WithOffsetSameInstant | src/moment.c:692-699 | Rejects bad offsets with InvalidOffset. Otherwise it succeeds exactly when the new local time is in range, keeping the instant to the nanosecond. |
| MomentOps.WithOffsetSameLocal | src/moment.c:701-708 | Rejects bad offsets with InvalidOffset; otherwise always succeeds, keeping the local time to the nanosecond. |
| MomentOps.AtUtc | src/moment.c:710-713 | Succeeds exactly when the instant seconds are in the local range, giving offset 0 with the same instant, whose local time is the instant. |
| MomentOps.AtMidnight | src/moment.c:715-718 | Always succeeds: the same day at second 0, nsec 0, same offset. |
| MomentOps.AtNoon | src/moment.c:720-723 | Always succeeds: the same day at 12:00:00.000000000, same offset. |
| MomentOps.AtLastDayOfYear | src/moment.c:725-731 | Always succeeds: December 31 of the same year, same time of day and offset. |
| MomentOps.AtLastDayOfQuarter | src/moment.c:733-739 | Always succeeds: the last day of the same quarter, same time of day and offset. |
| MomentOps.AtLastDayOfMonth | src/moment.c:741-747 | Always succeeds: the last day of the same month, same time of day and offset. |
| MomentOps.Cmp | src/moment.c:753-756 | `(a > b) - (a < b)` is the sign of a - b. |
| MomentOps.CompareInstant | src/moment.c:749-759 | Returns -1, 0 or 1, following the order of the instants in nanoseconds. |
| MomentOps.CompareLocal | src/moment.c:761-771 | Returns -1, 0 or 1, following the order of the local times in nanoseconds. |
| MomentOps.Equals | src/moment.c:773-776 | True exactly for the same three fields. |
| MomentLaws.SameLocalDay | src/moment.c:346-352 | Same day, second of day, nsec and offset mean the same moment. |
| MomentLaws.WithDateComponent | src/moment.c:534-571 | A date component outside its range fails InvalidComponent. On success the component reads back and the time of day is kept. |
| MomentLaws.WithTimeComponent | src/moment.c:534-571 | A time component outside its range fails InvalidComponent. On success it reads back (86400000 ms of day reads back as 0 on the next day), and otherwise the day is kept. |
| MomentLaws.OwnCivilDate | src/moment.c:354-412 | Setting year, month or day of month to its current value returns the same moment. |
| MomentLaws.OwnWeekDate | src/moment.c:384-397 | Setting the ISO week or the weekday to its current value returns the same moment. |
| MomentLaws.OwnOrdinalDate | src/moment.c:414-442 | Setting day of year or day of quarter to its current value returns the same moment. |
| MomentLaws.OwnTimeOfDay | src/moment.c:453-478 | Setting hour, minute or minute of day to its current value returns the same moment. |
| MomentLaws.OwnSeconds | src/moment.c:480-496 | Setting second, second of day or nanosecond to its current value returns the same moment. |
| MomentLaws.WithOwnDateComponent | src/moment.c:534-571 | Setting any date component to its own value is the identity. |
| MomentLaws.WithOwnTimeComponent | src/moment.c:534-571 | Setting any time component other than milli and micro to its own value is the identity. |
| MomentLaws.WithOwnSubsecond | src/moment.c:498-523 | Setting the millisecond (or millisecond of day) to its own value is the identity exactly when nsec is a whole number of milliseconds; likewise for microseconds. |
| MomentLaws.WithDayOfWeekSameWeek | src/moment.c:444-451 | Setting the weekday keeps the ISO week-year and week. |
| MomentLaws.DayShift | src/moment.c:582-589 | A shift by whole days fits exactly when the shifted local day is in 1..3652059. |
| MomentLaws.SplitFraction | src/moment.c:644-649 | Splitting v into whole seconds and a remainder with C division preserves its length in nanoseconds. |
| MomentLaws.PartsShift | src/moment.c:600-618 | plus_time succeeds exactly when the shift fits, fails OutOfRange otherwise, and shifts the total nanoseconds by exactly the amount. |
| MomentLaws.PlusUnitWeeks | src/moment.c:629-631 | Adding weeks fails Overflow outside the bound and OutOfRange if the result leaves the range. Otherwise it shifts the instant by v weeks, keeping the offset. |
| MomentLaws.MinusUnitWeeks | src/moment.c:665-667 | Subtracting weeks shifts the instant back by v weeks under the same error rules. |
| MomentLaws.PlusUnitDays | src/moment.c:632-634 | Adding days shifts the instant by v days, with Overflow and OutOfRange as for weeks. |
| MomentLaws.MinusUnitDays | src/moment.c:668-670 | Subtracting days shifts the instant back by v days. |
| MomentLaws.PlusUnitHours | src/moment.c:635-637 | Adding hours shifts the instant by v hours, with Overflow and OutOfRange as for weeks. |
| MomentLaws.MinusUnitHours | src/moment.c:671-673 | Subtracting hours shifts the instant back by v hours. |
| MomentLaws.PlusUnitMinutes | src/moment.c:638-640 | Adding minutes shifts the instant by v minutes. |
| MomentLaws.MinusUnitMinutes | src/moment.c:674-676 | Subtracting minutes shifts the instant back by v minutes. |
| MomentLaws.PlusUnitSeconds | src/moment.c:641-643 | Adding seconds shifts the instant by v seconds. |
| MomentLaws.MinusUnitSeconds | src/moment.c:677-679 | Subtracting seconds shifts the instant back by v seconds. |
| MomentLaws.PlusUnitMillis | src/moment.c:644-646 | Adding milliseconds shifts the instant by exactly v ms, including for negative v under C division. |
| MomentLaws.MinusUnitMillis | src/moment.c:680-682 | Subtracting milliseconds shifts the instant back by exactly v ms. |
| MomentLaws.PlusUnitMicros | src/moment.c:647-649 | Adding microseconds shifts the instant by exactly v µs. |
| MomentLaws.MinusUnitMicros | src/moment.c:683-685 | Subtracting microseconds shifts the instant back by exactly v µs. |
| MomentLaws.PlusUnitNanos | src/moment.c:650-651 | Adding nanoseconds has no bound check. It shifts the instant by exactly v ns and fails only OutOfRange. |
| MomentLaws.MinusUnitNanos | src/moment.c:686-687 | Subtracting nanoseconds shifts the instant back by exactly v ns. |
| MomentLaws.PlusDayUnits | src/moment.c:629-634 | The week and day cases of plus_unit shift by the unit's length. |
| MomentLaws.PlusClockUnits | src/moment.c:635-643 | The hour, minute and second cases of plus_unit shift by the unit's length. |
| MomentLaws.PlusSubsecondUnits | src/moment.c:644-651 | The milli, micro and nano cases of plus_unit shift by the unit's length. |
| MomentLaws.MinusDayUnits | src/moment.c:665-670 | The week and day cases of minus_unit shift back by the unit's length. |
| MomentLaws.MinusClockUnits | src/moment.c:671-679 | The hour, minute and second cases of minus_unit shift back by the unit's length. |
| MomentLaws.MinusSubsecondUnits | src/moment.c:680-687 | The milli, micro and nano cases of minus_unit shift back by the unit's length. |
| MomentLaws.PlusExact | src/moment.c:620-654 | For every exact unit, plus_unit succeeds exactly when the amount is within the unit's bound and the shifted instant is in range. It then moves the instant by v units to the nanosecond, keeping the offset; otherwise it fails Overflow or OutOfRange. |
| MomentLaws.MinusExact | src/moment.c:656-690 | The same contract as PlusExact for minus_unit, with the instant moved back by v units. |
| MomentLaws.PlusUnitYears | src/moment.c:623-625 | Adding years is adding 12v months. It fails Overflow outside the year bound and OutOfRange if the target month leaves 0001-01..9999-12. It clamps the day and keeps the time of day and offset. |
| MomentLaws.MinusUnitYears | src/moment.c:659-661 | Subtracting years moves the month count by -12v under the same rules. |
| MomentLaws.PlusUnitMonths | src/moment.c:626-628 | Adding months moves the month count by v, clamping the day. |
| MomentLaws.MinusUnitMonths | src/moment.c:662-664 | Subtracting months moves the month count by -v, clamping the day. |
| MomentLaws.PlusCalendar | src/moment.c:623-628 | The year and month cases of plus_unit move the month count by v times the unit's months. |
| MomentLaws.MinusCalendar | src/moment.c:659-664 | The year and month cases of minus_unit move the month count back by v times the unit's months. |
| MomentLaws.UnitBoundNeverCuts | src/moment.h:27-44 | An amount outside a unit's bound could never give an in-range result, so the Overflow check rejects nothing that would have succeeded. |
| MomentLaws.PlusThenMinus | src/moment.c:620-690 | For exact units, subtracting v after a successful addition of v restores the original moment. |
| MomentLaws.MinusThenPlus | src/moment.c:620-690 | For exact units, adding v after a successful subtraction of v restores the original moment. |
| MomentLaws.PlusThenMinusMonths | src/moment.c:573-580 | For years and months, subtracting after adding restores the original when the day was not clamped. |
| MomentLaws.MonthEndClamps | src/moment.c:578 | January 31 plus one month is the last day of February. Subtracting one month again gives January 28 or 29, not the original. |
| MomentLaws.CompareInstantLexicographic | src/moment.c:749-759 | compare_instant orders by instant seconds first and nsec second. |
| MomentLaws.CompareLocalLexicographic | src/moment.c:761-771 | compare_local orders by local seconds first and nsec second. |
| MomentLaws.CompareInstantOrder | src/moment.c:749-759 | compare_instant is antisymmetric and transitive, for both ≤ and <. |
| MomentLaws.CompareLocalOrder | src/moment.c:761-771 | compare_local is antisymmetric and transitive, for both ≤ and <. |
| MomentLaws.SameOffsetOrdersAgree | src/moment.c:749-771 | For moments with the same offset, the two comparisons agree. |
| MomentLaws.EqualsAndCompare | src/moment.c:773-776 | Equal moments compare 0 both ways. Equality is the same instant plus the same offset. |
| MomentLaws.SameInstantNotEqual | src/moment.c:749-776 | Worked example of the law OtherOffsetNotEqual: 10:00+01:00 and 09:00Z on one day compare 0 as instants but are neither equal nor equal as local times. |
| MomentLaws.OtherOffsetNotEqual | src/moment.c:692-776 | For any valid moment and any other accepted offset, the moved moment is the same instant but not equal. Its local time compares greater exactly when the new offset is east of the old one, and never compares equal. |
| MomentLaws.OffsetSameInstantRoundTrip | src/moment.c:692-699 | Changing the offset keeping the instant compares 0 against the original, and changing it back gives the original. |
| MomentLaws.OffsetSameLocalRoundTrip | src/moment.c:701-708 | Changing the offset keeping the local time compares 0 locally, moves the instant by the offset difference, and changing it back gives the original. |
| MomentLaws.AtUtcIdempotent | src/moment.c:710-713 | at_utc applied twice equals at_utc once. |
| MomentLaws.NewRoundTrip | src/moment.c:323-344 | Building a moment from its own fields returns it. |
| MomentLaws.EpochRoundTrip | src/moment.c:239-248 | Building from a moment's own epoch, nsec and offset returns it exactly when its instant seconds are within the local range. |
| MomentLaws.RawRoundTrip | src/moment.c:14-75 | from_local of the local seconds and from_instant of the instant seconds both return the moment. The local rd values are its day, second of day and nsec. |
| MomentLaws.AtMidnightIdempotent | src/moment.c:715-718 | at_midnight applied twice equals once. |
| MomentLaws.AtNoonIdempotent | src/moment.c:720-723 | at_noon applied twice equals once. |
| MomentLaws.AtLastDayOfYearIdempotent | src/moment.c:725-731 | at_last_day_of_year applied twice equals once. |
| MomentLaws.AtLastDayOfQuarterIdempotent | src/moment.c:733-739 | at_last_day_of_quarter applied twice equals once. |
| MomentLaws.AtLastDayOfMonthIdempotent | src/moment.c:741-747 | at_last_day_of_month applied twice equals once. |
| MomentLaws.FirstSecondOfRange | src/moment.h:46 | The first representable local second is 0001-01-01T00:00:00. |
| MomentLaws.LastSecondOfRange | src/moment.h:47 | The last representable local second is 9999-12-31T23:59:59. |
| MomentLaws.NewRejectsFebruary29 | src/moment.c:329-334 | February 29 of a common year fails InvalidComponent. |
| MomentLaws.FebruaryLengths | src/moment.c:331 | Worked example of the leap rule, whose all-years form is the DaysInMonth ensures: February has 29 days in 2000, 2012 and 2016, and 28 in 1900, 2001 and 2100. |
| MomentLaws.TenThousandYears | src/moment.c:623-625 | Adding or subtracting ±10000 years fails OutOfRange; any larger amount fails Overflow. |

## Left out

- `THX_moment_from_epoch_nv`, `THX_moment_from_jd`, `moment_jd`, `moment_mjd`, `moment_rd` (src/moment.c:250-321, 868-887): floating point (`NV`, `fmod`, `floor`, `pow`), which has no faithful model over unbounded integers.
- The `dt_*` library (`dt_core.h`, `dt_accessor.h`, `dt_arithmetic.h`, `dt_util.h`, `dt_length.h`) is not part of this model as written. Module `Calendar` replaces it with a concrete proleptic Gregorian calendar with the same day numbering (day 1 is 0001-01-01, a Monday) and ISO weeks. Its conversions are proved to invert each other instead of being copied from that library.
- `croak` message texts: the model keeps only the error kind. An example is the hour message quoting "[1, 23]" while accepting 0.
- The Perl interpreter plumbing (`pTHX`/`aTHX`, `IV`, `NV`) and the MSVC typedefs (src/moment.h:3-22). `IV` is modelled as `int64`, as on a 64-bit build.
- The clock-reading constructors, string formatting and parsing, and the adjusters: none of these are in `src/moment.c` or `src/moment.h`.
- The "panic: unknown unit/component" croaks (src/moment.c:570, 653, 689): the Dafny enums are closed, so those branches cannot be reached.
- MomentOps.PlusUnit: its own ensures states only validity, the offset and the Overflow case. The exact per-unit behaviour is stated by MomentLaws.PlusExact and MomentLaws.PlusCalendar, because one contract over all ten units is too costly to prove in a single obligation.
- MomentOps.MinusUnit: its own ensures is limited the same way; MomentLaws.MinusExact and MomentLaws.MinusCalendar state the rest.
- MomentOps.WithComponent: its own ensures states only validity, the error kinds and the offset. MomentLaws.WithDateComponent, MomentLaws.WithTimeComponent and each setter's own contract state the rest.

## Notes on the code as written

- Year 10000 given to `new` is rejected by the year check (src/moment.c:78-81), so it fails InvalidComponent rather than OutOfRange; the model follows the code.
- `with_millisecond_of_day` accepts 86400000 (src/moment.c:156-159), which moves to midnight of the next day. The model states this case separately.
- `with_millisecond` and `with_microsecond` replace nsec by the given value scaled, so digits below the set unit become zero (src/moment.c:498-523). MomentLaws.WithOwnSubsecond states when setting a sub-second component to its own value is still the identity.
