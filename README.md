# Date and TimeOfDay value types

This project models the two immutable calendar value types of `System.DateAndTime`:

- `Date` is a whole date in the proleptic Gregorian calendar from 0001-01-01 to 9999-12-31. It is stored as a day number, the count of days since 0001-01-01.
- `TimeOfDay` is a clock reading from 00:00:00 to 23:59:59.9999999. It is stored as a count of 100-nanosecond ticks since midnight.

Both types are pure, so the model is made of datatypes, functions and lemmas. Every operation that throws `ArgumentOutOfRangeException` or `OverflowException` returns a `Result` whose `Err` case names the exception.

The modules are:

- `Primitives`: the 32- and 64-bit integer ranges, C#'s truncating `/` and `%`, unchecked 32-bit negation, and the `Result` type.
- `Calendar`: the calendar arithmetic that `Date` delegates to the host `DateTime` type:
  - the leap-year rule;
  - the days before a year;
  - the cumulative month tables;
  - the conversion of a day number into year, month and day by peeling off 400-, 100-, 4- and 1-year blocks.
- `TimeOfDays`: `TimeOfDay.cs` and the `TimeSpan` constructors it calls.
- `Dates`: `Date.cs`, with the host's `AddYears`, `AddMonths` and `AddDays` written out, range checks included.
- `DateTimes`: the members that produce or consume a host `DateTime` instant: `TimeOfDay.On`, the implicit `DateTime` to `Date` conversion, and the detour through an instant that `TimeOfDay.Add` takes.

The host `DateTime` and `TimeSpan` types are not part of this model's sources. Their behaviour is written out as follows:

- `AddMonths` fails when the count is beyond ±120000. It splits the month index with truncating division, using a separate formula for negative indices, and clamps the day to the target month's length.
- `AddYears` fails beyond ±10000 years and otherwise adds twelve months a year.
- `AddDays` goes through milliseconds (±315537897600000) and then ticks (0 to 3155378975999999999).
- `new TimeSpan(d, h, m, s, ms)` fails when the total milliseconds exceed 922337203685477 either way.
- `new TimeSpan(h, m, s)` fails when the total seconds exceed 922337203685 either way.
- `TimeSpan.Negate` of `long.MinValue` throws `OverflowException`.

## Model

| member | source | states |
|---|---|---|
| Primitives.Neg32 | System.DateAndTime/Date.cs:146-159 | `-x` in an unchecked 32-bit context: the negation, except that int.MinValue stays itself; in both cases r + x is 0 modulo 2^32 |
| Primitives.TruncDiv | System.DateAndTime/Date.cs:130-136 | C#'s `/`, truncating toward zero: the Euclidean quotient for a non-negative dividend, the negated quotient of the negation otherwise; TruncRem's division identity is its partner |
| Primitives.TruncRem | System.DateAndTime/Date.cs:130-136 | C#'s `%`: a == TruncDiv(a, b) * b + r, with r in 0..b-1 for a non-negative dividend and in -(b-1)..0 for a negative one |
| Calendar.IsLeapYear | System.DateAndTime/Date.cs:26-30 | the Gregorian leap-year rule the host checks days against; LeapFromBlocks shows it agrees with the leap flag of the block decomposition |
| Calendar.MonthTable | System.DateAndTime/Date.cs:26-57 | the host's cumulative month table of a leap or common year: 13 entries from 0 to the year's length, strictly increasing by MonthTableIncreasing |
| Calendar.DaysToMonth | System.DateAndTime/Date.cs:26-57 | the month table of a given year, whose last entry is the year's length |
| Calendar.DaysInMonth | System.DateAndTime/Date.cs:26-30 | a month has 28 to 31 days; February has 29 exactly in leap years; other months have at least 30, as in the common-year table |
| Calendar.MonthTableIncreasing | System.DateAndTime/Date.cs:26-57 | the cumulative month tables strictly increase |
| Calendar.DaysBeforeYear | System.DateAndTime/Date.cs:26-30 | the days before a year's January 1; DaysBeforeNextYear and DaysBeforeYearMonotone show consecutive years follow each other without gap or overlap |
| Calendar.DayNumberOf | System.DateAndTime/Date.cs:26-30 | the host's conversion of a (year, month, day) to a day number; CivilOf is its inverse (CivilOfDayNumberOf, DayNumberOfCivilOf) |
| Calendar.YearDayOf | System.DateAndTime/Date.cs:32-39 | block decomposition of a day number: a year of at least 1, whose leap flag agrees with the leap-year rule, a day of year within that year, and n = days before the year + day of year |
| Calendar.CappedBlocks | System.DateAndTime/Date.cs:32-39 | the capped block count is 0..3, and what remains is under one block unless the cap was hit, in which case it is at most one block |
| Calendar.DaysBeforeNextYear | System.DateAndTime/Date.cs:26-30 | the days before year y+1 are those before y plus y's length |
| Calendar.DaysBeforeYearMonotone | System.DateAndTime/Date.cs:32-39 | every year starts after the whole of every earlier year |
| Calendar.YearIsUnique | System.DateAndTime/Date.cs:32-39 | a day number lies in at most one year (YearDayOf supplies one) |
| Calendar.DaysBeforeBlocks | System.DateAndTime/Date.cs:32-39 | the days before the year after a, b, c, e blocks of 400, 100, 4 and 1 years are those blocks' days |
| Calendar.LeapFromBlocks | System.DateAndTime/Date.cs:32-39 | the leap-year rule read off the block counts: leap exactly when three 1-year blocks precede it and the 4-year block is not the short one at the end of a century |
| Calendar.DayOfYearInRange | System.DateAndTime/Date.cs:26-30 | a valid (year, month, day) falls inside its own year |
| Calendar.MonthSearch | System.DateAndTime/Date.cs:41-48 | the month search from m stops at a month in m..12 whose start is at most the day (when it moved) and whose end is beyond it (unless it reached December) |
| Calendar.CivilOf | System.DateAndTime/Date.cs:32-57 | the host's conversion of a day number to (year, month, day): year at least 1, month 1..12, day at least 1; inverse of DayNumberOf (CivilOfDayNumberOf, DayNumberOfCivilOf) |
| Calendar.MonthSearchFinds | System.DateAndTime/Date.cs:41-48 | the month search returns the month whose span holds the day |
| Calendar.MonthEstimateAgrees | System.DateAndTime/Date.cs:41-48 | the month search started at the estimate d / 32 + 1 lies in 1..12 and finds the same month as the search from January |
| Calendar.MonthOfDay | System.DateAndTime/Date.cs:41-48 | every day of a year lies in some month of the table |
| Calendar.CivilOfDayNumberOf | System.DateAndTime/Date.cs:26-57 | converting a valid (year, month, day) to a day number and back gives it again |
| Calendar.DayNumberOfCivilOf | System.DateAndTime/Date.cs:32-57 | every day number 0..3652058 converts to a valid (year, month, day) that converts back to it |
| Calendar.YearDayOfInRange | System.DateAndTime/Date.cs:11-24 | a day number up to 3652058 (Date.MaxValue) falls in a year no later than 9999 |
| Calendar.CivilOfLocates | System.DateAndTime/Date.cs:32-57 | the conversion keeps the year found by block peeling and picks the month whose cumulative span holds the day of year, the day being the offset into that month plus one |
| Calendar.DayNumberOfMonotone | System.DateAndTime/Date.cs:166-171 | an earlier (year, month, day) has a smaller day number |
| Calendar.DaysBeforeMaxYear | System.DateAndTime/Date.cs:11-12 | 9999-12-31 is day 3652058 |
| Dates.FromDayNumber | System.DateAndTime/Date.cs:17-24 | succeeds exactly for 0..3652058 and then keeps the day number; fails with ArgumentOutOfRange otherwise |
| Dates.DayNumberBounds | System.DateAndTime/Date.cs:11-12 | every valid (year, month, day) has a day number within 0..3652058 |
| Dates.FromParts | System.DateAndTime/Date.cs:26-30 | succeeds exactly for a valid year/month/day, and then Year, Month and Day read the arguments back; fails with ArgumentOutOfRange otherwise |
| Dates.Civil | System.DateAndTime/Date.cs:32-57 | the fields of a date are a valid (year, month, day) whose day number is the date's |
| Dates.Year | System.DateAndTime/Date.cs:32-39 | the year lies in 1..9999 |
| Dates.Month | System.DateAndTime/Date.cs:41-48 | the month lies in 1..12 |
| Dates.Day | System.DateAndTime/Date.cs:50-57 | the day lies within the month's length |
| Dates.FieldsLocateDay | System.DateAndTime/Date.cs:32-57 | the year's span and the month's span hold the day number, and the day number is rebuilt from Year, Month and Day |
| Dates.DayOfYear | System.DateAndTime/Date.cs:59-66 | 1..365, or 1..366 in a leap year, equal to the days before the month plus the day |
| Dates.WeekdayIndex | System.DateAndTime/Date.cs:68-75 | the host's numbering of DayOfWeek, Sunday 0 to Saturday 6, in 0..6 |
| Dates.DayOfWeekOf | System.DateAndTime/Date.cs:68-75 | the weekday index is (day number + 1) mod 7, Sunday = 0, so 0001-01-01 is a Monday |
| Dates.CivilInjective | System.DateAndTime/Date.cs:32-57 | two dates have the same fields exactly when they are equal |
| Dates.FromPartsOfParts | System.DateAndTime/Date.cs:26-57 | every date is rebuilt by the (y, m, d) constructor from its own fields |
| Dates.AddDays | System.DateAndTime/Date.cs:138-144 | succeeds exactly when day number + days stays within 0..3652058, and gives that day number; fails with ArgumentOutOfRange otherwise |
| Dates.SubtractDays | System.DateAndTime/Date.cs:156-159 | the day number minus the count, within range, and AddDays of the negated count whenever that negation does not wrap; a failure is ArgumentOutOfRange |
| Dates.DayOfWeekAdvances | System.DateAndTime/Date.cs:68-75 | k days later the weekday index has advanced by k mod 7 |
| Dates.AddMonths | System.DateAndTime/Date.cs:130-136 | fails beyond ±120000 months or outside years 1..9999; otherwise year and month carry by floor division of the month index, and the day is clamped to the target month's length |
| Dates.MonthSplitIsFloor | System.DateAndTime/Date.cs:130-136 | the host's two truncating formulas, for non-negative and negative month indices, are both floor division and floor modulus by 12 |
| Dates.AddMonthsShiftsMonthCount | System.DateAndTime/Date.cs:130-136 | year * 12 + month grows by exactly the month count |
| Dates.AddMonthsKeepsExistingDay | System.DateAndTime/Date.cs:130-136 | a day that exists in the target month is kept |
| Dates.MonthsBackToStart | System.DateAndTime/Date.cs:130-154 | adding k months and then -k months succeeds and returns to the start year and month, whatever the day |
| Dates.AddMonthsThenBack | System.DateAndTime/Date.cs:130-154 | for a day of at most 28, adding k months and then -k months gives the start date back |
| Dates.SubtractMonths | System.DateAndTime/Date.cs:151-154 | AddMonths of the negated count; the count int.MinValue, which negation leaves unchanged, fails; a failure is ArgumentOutOfRange |
| Dates.AddYears | System.DateAndTime/Date.cs:122-128 | fails beyond ±10000 years or outside 1..9999; otherwise the year moves by the count, the month is kept and the day is clamped |
| Dates.WholeYearsOfMonths | System.DateAndTime/Date.cs:122-128 | twelve months a year move the year by the count and keep the month |
| Dates.AddYearsKeepsDayOrLeapDay | System.DateAndTime/Date.cs:122-128 | the day is kept, except that February 29 becomes February 28 in a common year |
| Dates.SubtractYears | System.DateAndTime/Date.cs:146-149 | AddYears of the negated count; the count int.MinValue fails; a failure is ArgumentOutOfRange |
| Dates.Equals | System.DateAndTime/Date.cs:161-164 | equality of day numbers is equality of dates |
| Dates.DayOrderIsCalendarOrder | System.DateAndTime/Date.cs:166-171 | a smaller day number is exactly an earlier (year, month, day) |
| Dates.Compare | System.DateAndTime/Date.cs:166-176 | -1, 0 or 1: 0 exactly for equal dates, -1 exactly when the first is earlier in the calendar, 1 exactly when it is later |
| Dates.CompareAntisymmetric | System.DateAndTime/Date.cs:166-171 | swapping the arguments negates the result |
| Dates.OperatorsAgreeWithCompare | System.DateAndTime/Date.cs:218-246 | `<`, `<=`, `>`, `>=`, `==` and `!=` agree with Compare |
| Dates.At | System.DateAndTime/Date.cs:92-96 | a valid instant whose quotient by the ticks of a day is the day number and whose remainder is the time's ticks |
| Dates.AtInjective | System.DateAndTime/Date.cs:92-96 | two instants are equal exactly when both dates and both times are |
| Dates.ToDateTimeAtMidnight | System.DateAndTime/Date.cs:98-101 | the instant of the date at 00:00 |
| Dates.ExampleMaxValue | System.DateAndTime.Tests/DateTests.cs:28-32 | 9999-12-31 is MaxValue, day 3652058 |
| Dates.ExampleMinValue | System.DateAndTime.Tests/DateTests.cs:14-18 | 0001-01-01 is MinValue, day 0, the default date |
| Dates.ExampleOutOfRange | System.DateAndTime/Date.cs:17-30 | day numbers 3652059 and -1, 2015-02-29, year 0 and month 13 are rejected |
| Dates.ExampleWeekday | System.DateAndTime.Tests/DateTests.cs:56-60 | 2015-12-31 is a Thursday |
| Dates.ExampleDayOfYearCommon | System.DateAndTime.Tests/DateTests.cs:63-67 | 2015-12-31 is day 365 of its year |
| Dates.ExampleDayOfYearLeap | System.DateAndTime.Tests/DateTests.cs:70-74 | 2000-12-31 is day 366 of its year |
| Dates.ExampleAddMonthsClampsLeap | System.DateAndTime.Tests/DateMathTests.cs:188-194 | 2000-01-31 plus a month is 2000-02-29 |
| Dates.ExampleAddMonthsClampsCommon | System.DateAndTime.Tests/DateMathTests.cs:206-212 | 2001-01-31 plus a month is 2001-02-28 |
| Dates.ExampleAddMonthsCarryForward | System.DateAndTime.Tests/DateMathTests.cs:224-230 | 1999-11-30 plus three months is 2000-02-29 |
| Dates.ExampleAddMonthsCarryBack | System.DateAndTime.Tests/DateMathTests.cs:116-122 | 2000-01-01 minus a month is 1999-12-01 |
| Dates.ExampleAddYearsLeapDay | System.DateAndTime.Tests/DateMathTests.cs:71-104 | 2000-02-29 plus a year is 2001-02-28, and minus four years is 1996-02-29 |
| Dates.ExampleDaysPastEnds | System.DateAndTime.Tests/DateMathTests.cs:287-303 | a day after MaxValue and a day before MinValue fail |
| TimeOfDays.FromTicks | System.DateAndTime/TimeOfDay.cs:17-24 | succeeds exactly for 0..863999999999 and keeps the ticks; fails with ArgumentOutOfRange otherwise |
| TimeOfDays.Hours24 | System.DateAndTime/TimeOfDay.cs:65-72 | 0..23: the hour whose span of ticks holds the time |
| TimeOfDays.Minutes | System.DateAndTime/TimeOfDay.cs:93-100 | 0..59 |
| TimeOfDays.Seconds | System.DateAndTime/TimeOfDay.cs:102-109 | 0..59 |
| TimeOfDays.Milliseconds | System.DateAndTime/TimeOfDay.cs:111-118 | 0..999 |
| TimeOfDays.Hours12 | System.DateAndTime/TimeOfDay.cs:74-82 | 1..12, congruent to the 24-hour hour modulo 12, so hours 0 and 12 read 12 |
| TimeOfDays.MeridiemOf | System.DateAndTime/TimeOfDay.cs:84-91 | AM exactly before noon |
| TimeOfDays.ComponentsMakeTicks | System.DateAndTime/TimeOfDay.cs:65-118 | hours, minutes, seconds and milliseconds, weighted, plus the sub-millisecond rest give the ticks back |
| TimeOfDays.SpanTicks | System.DateAndTime/TimeOfDay.cs:52-63 | the span's ticks are the weighted sum of the fields; it succeeds exactly when that sum fits a 64-bit integer, and fails with ArgumentOutOfRange otherwise |
| TimeOfDays.HmsSpanTicks | System.DateAndTime/TimeOfDay.cs:26-50 | the (h, m, s) span, checked in seconds, is the five-field span with no days and no milliseconds |
| TimeOfDays.ConstructorsAsWrittenLeaveRange | System.DateAndTime/TimeOfDay.cs:26-56 | the unchecked constructors store a whole day of ticks for 24:00 and a negative count for 0:-1; 12:75 equals 13:15; only spans too large for a 64-bit count fail |
| TimeOfDays.ClockFieldsRoundTrip | System.DateAndTime/TimeOfDay.cs:52-118 | ticks built from in-range fields are in range and read the same fields back |
| TimeOfDays.FromClock24 | System.DateAndTime/TimeOfDay.cs:26-56 | corrected 24-hour constructors: succeed exactly for in-range fields, and then the ticks are the weighted sum and the accessors return the fields |
| TimeOfDays.FromClock24OfComponents | System.DateAndTime/TimeOfDay.cs:52-118 | every time, truncated to the millisecond, is built from its own fields |
| TimeOfDays.Hours12To24 | System.DateAndTime/TimeOfDay.cs:289-302 | succeeds exactly for hours 1..12; the result is 0..23, before noon exactly for AM, and congruent to the 12-hour value modulo 12 |
| TimeOfDays.Hours12To24RoundTrip | System.DateAndTime/TimeOfDay.cs:74-91 | a time's own 12-hour reading converts back to its hour, and every converted hour reads back as the same 12-hour reading and meridiem |
| TimeOfDays.FromClock12 | System.DateAndTime/TimeOfDay.cs:32-63 | corrected 12-hour constructors: succeed exactly for hours 1..12 and in-range fields, and then Hours12, the meridiem, the minutes, the seconds and the milliseconds read the arguments back |
| TimeOfDays.FromClock12Is24 | System.DateAndTime/TimeOfDay.cs:32-63 | the 12-hour form is the 24-hour form at the converted hour |
| TimeOfDays.Clock12TicksAsWritten | System.DateAndTime/TimeOfDay.cs:32-63 | the as-written 12-hour constructors reject hours outside 1..12 and otherwise store the unchecked span at the converted hour |
| TimeOfDays.ConstructorsAgreeOnValidFields | System.DateAndTime/TimeOfDay.cs:26-63 | on in-range fields the as-written and the checked constructors give the same ticks |
| TimeOfDays.Add | System.DateAndTime/TimeOfDay.cs:160-189 | corrected Add and AddTicks: a valid time that differs from ticks + span by a whole number of days |
| TimeOfDays.SameTimeModuloDay | System.DateAndTime/TimeOfDay.cs:11-12 | two times of day a whole number of days apart are equal |
| TimeOfDays.AddZero | System.DateAndTime/TimeOfDay.cs:160-164 | adding an empty span leaves the time unchanged |
| TimeOfDays.AddIsUnique | System.DateAndTime/TimeOfDay.cs:160-164 | Add gives the only time of day a whole number of days from ticks + span |
| TimeOfDays.AddAdd | System.DateAndTime/TimeOfDay.cs:160-164 | adding two spans in turn is adding their sum |
| TimeOfDays.AddWholeDays | System.DateAndTime/TimeOfDay.cs:160-164 | adding whole days leaves the time unchanged |
| TimeOfDays.Subtract | System.DateAndTime/TimeOfDay.cs:191-219 | corrected Subtract and SubtractTicks: Overflow exactly for long.MinValue, otherwise the time differing from ticks - span by whole days |
| TimeOfDays.SubtractUndoesAdd | System.DateAndTime/TimeOfDay.cs:191-194 | subtracting a span undoes adding it |
| TimeOfDays.CalculateDuration | System.DateAndTime.Tests/TimeOfDayTests.cs:215-232 | the forward duration: under a day, leading from start to end by Add, and 0 exactly when the times are equal |
| TimeOfDays.CalculateDurationUnique | System.DateAndTime.Tests/TimeOfDayMathTests.cs:8-25 | the duration is the only span under a day that leads from start to end |
| TimeOfDays.DurationCases | System.DateAndTime.Tests/TimeOfDayTests.cs:215-232 | end - start when the end is not earlier, otherwise through midnight |
| TimeOfDays.IsBetween | System.DateAndTime.Tests/TimeOfDayTests.cs:149-212 | inside exactly when the duration from start is less than the range's duration: start inclusive, end exclusive, wrapping over midnight |
| TimeOfDays.IsBetweenEnds | System.DateAndTime.Tests/TimeOfDayComparisonTests.cs:8-71 | the start of a non-empty range is inside it; the end never is |
| TimeOfDays.FromTimeSpan | System.DateAndTime/TimeOfDay.cs:277-287 | the implicit conversion from a span succeeds exactly for 0 <= ticks < one day and keeps the ticks |
| TimeOfDays.Equals | System.DateAndTime/TimeOfDay.cs:231-275 | equality of ticks is equality of times |
| TimeOfDays.ExampleValues | System.DateAndTime.Tests/TimeOfDayTests.cs:8-252 | MaxValue; 11:59 PM is 23:59; the 12-hour readings of 00:00, 12:00 and 13:00; 12:00 ± 13 h; the 23:00 to 01:00 duration; the tests' start, before and end points of the ranges 10:00 to 12:00 and 23:00 to 01:00 |
| DateTimes.On | System.DateAndTime/TimeOfDay.cs:135-139 | the same instant as Date.At; its quotient by a day is the day number and its remainder the time's ticks |
| DateTimes.FromDateTime | System.DateAndTime/Date.cs:248-253 | the date holding the instant; that date at the instant's time of day is the instant |
| DateTimes.FromDateTimeOfAt | System.DateAndTime/Date.cs:248-253 | a date's instant at any time, or at midnight, converts back to that date |
| DateTimes.AddSpan | System.DateAndTime/TimeOfDay.cs:162 | the host instant plus a span: succeeds exactly within the host range |
| DateTimes.TimeOfDayPart | System.DateAndTime/TimeOfDay.cs:163 | the time of day of an instant, a whole number of days before it |
| DateTimes.AddVia | System.DateAndTime/TimeOfDay.cs:160-164 | the detour through an anchor date succeeds exactly when the sum stays in the host range, and then equals the corrected Add |
| DateTimes.AddAsWritten | System.DateAndTime/TimeOfDay.cs:160-164 | as written, Add always fails with ArgumentOutOfRange |
| DateTimes.MidYearAnchor | System.DateAndTime/TimeOfDay.cs:162 | 5000-01-01 is day 1825847 |
| DateTimes.AddViaMidYearAnchor | System.DateAndTime/TimeOfDay.cs:160-164 | with 5000-01-01 as the anchor, every span within about 5000 years gives the corrected Add |
| DateTimes.SubtractAsWritten | System.DateAndTime/TimeOfDay.cs:191-194 | as written, Subtract always fails: Overflow for long.MinValue, otherwise ArgumentOutOfRange |
| DateTimes.ExampleOnDate | System.DateAndTime.Tests/TimeOfDayTests.cs:138-146 | 23:59:59 on 2000-12-31 is the instant 2000-12-31T23:59:59 |

## Left out

- Clock reads and time zones are left out: `Today`, `TodayLocal`, `TodayUtc`, `Now`, `NowLocal`, `NowUtc`, the `NowInTimeZone` extensions, `TimeZoneInfoEx` and `TimeZoneOffsetResolvers`. They read the system clock and the host's time-zone database.
- Formatting is left out: the `ToString` overloads delegate to the host's culture-dependent formatting.
- `AddHours`, `AddMinutes`, `AddSeconds`, `AddMilliseconds` and their `Subtract` counterparts are left out. They take a `double` and convert it with the host's floating-point `TimeSpan.From*`. `AddTicks` and `SubtractTicks` go through `TimeSpan.FromTicks`, which is exact, so they are `TimeOfDays.Add` and `TimeOfDays.Subtract`.
- The UmAlQura calendar tests are left out: they use a constructor that is not in `Date.cs`.
- The `Date(this DateTime)` and `TimeOfDay(this DateTime)` extension methods are left out as thin adapters. The implicit `DateTime` to `Date` conversion is modelled, as `DateTimes.FromDateTime`.
- `GetHashCode`, `Equals(object)` and `CompareTo(object)` are left out. They belong to the runtime's object model: type tests and boxing.
- Hours12To24's `Enum.IsDefined` check is left out: the two-valued `Meridiem` datatype cannot hold an undefined value.
- Exceptions carry no parameter name; only their type is modelled.
- The host DateTime may start its month search at an estimate that never passes the month, d / 32 + 1. `Calendar.CivilOf` searches from month 1; `Calendar.MonthEstimateAgrees` proves that both starts find the same month.
- The host calendar is modelled from its documented behaviour: the DateTime type is not part of this model's sources.
- TimeOfDays.Add: wraps for every span. The detour through 5000-01-01 would fail for spans of more than about 5000 years, where the host instant leaves its range (`DateTimes.AddViaMidYearAnchor` states the range in which the two agree).
- The instant (`Dates.DateTime`) is only its tick count. A host DateTime's `Kind` bits are not modelled.
- The month-addition and past-the-end test vectors for `AddYears`, `AddMonths` and `AddDays` are covered by the `Ok?`/`Err?` conditions of those functions. Only the clamping, carry and leap-day vectors are restated as examples.

## Findings

| source | as written | input that shows it | evidently intended | confidence | as-written member | corrected member |
|---|---|---|---|---|---|---|
| System.DateAndTime/TimeOfDay.cs:160-164 | `Add` anchors the time on `new Date(5000, 0, 0)`, and month 0 makes that constructor throw ArgumentOutOfRangeException; `Subtract`, `AddTicks`, `SubtractTicks`, `+` and `-` all go through it | any time and span, e.g. 12:00 plus 13 hours | the time `span` ticks later, wrapping around midnight (12:00 + 13 h = 01:00), as the tests expect | not executed | DateTimes.AddAsWritten | TimeOfDays.Add |
| System.DateAndTime/TimeOfDay.cs:26-56 | the 24-hour constructors store the span's ticks without checking the fields, so the tick count can leave 0..863999999999 | `new TimeOfDay(24, 0)` stores 864000000000 ticks; `new TimeOfDay(0, -1)` stores -600000000 | reject fields outside 0..23, 0..59, 0..59 and 0..999 with ArgumentOutOfRange, keeping the documented range 00:00:00 to 23:59:59.9999999 | not executed | TimeOfDays.ConstructorsAsWrittenLeaveRange | TimeOfDays.FromClock24 |

Finding 1 also covers `Subtract`, whose as-written form is `DateTimes.SubtractAsWritten`. Its corrected form is `TimeOfDays.Subtract`.

Finding 2 also covers the 12-hour constructors, which check the hour but not the other fields. Their as-written form is `TimeOfDays.Clock12TicksAsWritten`, and their corrected form is `TimeOfDays.FromClock12`.

The evidence for the intended behaviour comes from the source itself. The type documents its range as 00:00:00 to 23:59:59.9999999 (System.DateAndTime/TimeOfDay.cs:6, with the constants at lines 11-12). The ticks constructor enforces that range (lines 17-24). The tests expect 12:00 plus or minus 13 hours to wrap around midnight (System.DateAndTime.Tests/TimeOfDayTests.cs:234-252). The as-written members `DateTimes.AddAsWritten`, `DateTimes.SubtractAsWritten`, `TimeOfDays.ConstructorsAsWrittenLeaveRange` and `TimeOfDays.Clock12TicksAsWritten` follow the code. The rest of the model uses the corrected members `TimeOfDays.Add`, `TimeOfDays.Subtract`, `TimeOfDays.FromClock24` and `TimeOfDays.FromClock12`. Rejecting out-of-range fields one by one is one reading of the intent. A single range test on the whole tick count would also keep the documented range.
