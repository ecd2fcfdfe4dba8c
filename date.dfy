/** A whole date in the proleptic Gregorian calendar, 0001-01-01 to 9999-12-31, stored as
    its day number: the count of whole days since 0001-01-01. Year, month, day, day of
    year and day of week are derived from it, and the calendar arithmetic (adding days,
    months and years) returns a new value or fails with ArgumentOutOfRange. */
module Dates {
  import opened Primitives
  import C = Calendar
  import T = TimeOfDays

  const MinDayNumber: int := 0

  type DayNumber = n: int | MinDayNumber <= n <= C.MaxDayNumber

  /** Equality of two values is equality of their (only) field, the day number. */
  datatype Date = Date(dayNumber: DayNumber)

  /** 0001-01-01, also the value of `new Date()`. */
  const MinValue: Date := Date(MinDayNumber)
  /** 9999-12-31 */
  const MaxValue: Date := Date(C.MaxDayNumber)

  datatype DayOfWeek = Sunday | Monday | Tuesday | Wednesday | Thursday | Friday | Saturday

  /** The host's numbering of the days of the week, Sunday being 0. */
  function WeekdayIndex(w: DayOfWeek): (i: int)
    ensures 0 <= i < 7
  {
    match w
    case Sunday => 0
    case Monday => 1
    case Tuesday => 2
    case Wednesday => 3
    case Thursday => 4
    case Friday => 5
    case Saturday => 6
  }

  /** An instant of the host DateTime type: ticks since 0001-01-01T00:00:00. */
  datatype DateTime = DateTime(ticks: int)

  /** The last tick of 9999-12-31, the host DateTime's largest value. */
  const MaxDateTimeTicks: int := 3_155_378_975_999_999_999

  /** `new Date(int dayNumber)`. */
  function FromDayNumber(dayNumber: int): (r: Result<Date>)
    ensures r.Ok? <==> MinDayNumber <= dayNumber <= C.MaxDayNumber
    ensures r.Ok? ==> r.value.dayNumber == dayNumber
    ensures r.Err? ==> r.error == ArgumentOutOfRange
  {
    if dayNumber < MinDayNumber || dayNumber > C.MaxDayNumber then Err(ArgumentOutOfRange)
    else Ok(Date(dayNumber))
  }

  /** Every valid (year, month, day) has a day number in the range of Date. */
  lemma DayNumberBounds(c: C.CivilDate)
    requires C.ValidCivil(c)
    ensures MinDayNumber <= C.DayNumberOf(c) <= C.MaxDayNumber
  {
    var last := C.CivilDate(9999, 12, 31);
    if c != last {
      C.DayNumberOfMonotone(c, last);
    }
  }

  /** `new Date(int year, int month, int day)`, which the host DateTime constructor checks. */
  function FromParts(year: int, month: int, day: int): (r: Result<Date>)
    ensures r.Ok? <==> C.ValidYearMonthDay(year, month, day)
    ensures r.Err? ==> r.error == ArgumentOutOfRange
    ensures r.Ok? ==> Year(r.value) == year && Month(r.value) == month && Day(r.value) == day
  {
    if !C.ValidYearMonthDay(year, month, day) then Err(ArgumentOutOfRange)
    else
      var c := C.CivilDate(year, month, day);
      DayNumberBounds(c);
      C.CivilOfDayNumberOf(c);
      Ok(Date(C.DayNumberOf(c)))
  }

  /** The (year, month, day) of a date. */
  function Civil(d: Date): (c: C.CivilDate)
    ensures C.ValidCivil(c) && C.DayNumberOf(c) == d.dayNumber
  {
    C.DayNumberOfCivilOf(d.dayNumber);
    C.CivilOf(d.dayNumber)
  }

  /** The year that contains the date. */
  function Year(d: Date): (y: int)
    ensures C.MinYear <= y <= C.MaxYear
  {
    Civil(d).year
  }

  /** The month that contains the date, within its year. */
  function Month(d: Date): (m: int)
    ensures 1 <= m <= 12
  {
    Civil(d).month
  }

  /** The day of the month. */
  function Day(d: Date): (day: int)
    ensures 1 <= day <= C.DaysInMonth(Year(d), Month(d))
  {
    Civil(d).day
  }

  /** The year, month and day are the ones whose day ranges hold the day number. */
  lemma FieldsLocateDay(d: Date)
    ensures C.DaysBeforeYear(Year(d)) <= d.dayNumber < C.DaysBeforeYear(Year(d)) + C.DaysInYear(Year(d))
    ensures C.DaysToMonth(Year(d))[Month(d) - 1] <= d.dayNumber - C.DaysBeforeYear(Year(d))
                                                < C.DaysToMonth(Year(d))[Month(d)]
    ensures d.dayNumber == C.DayNumberOf(C.CivilDate(Year(d), Month(d), Day(d)))
  {
    C.DayOfYearInRange(Civil(d));
  }

  /** The day of the year, counted from 1 on January 1. */
  function DayOfYear(d: Date): (r: int)
    ensures 1 <= r <= C.DaysInYear(Year(d))
    ensures r == C.DaysToMonth(Year(d))[Month(d) - 1] + Day(d)
  {
    FieldsLocateDay(d);
    C.YearIsUnique(d.dayNumber, C.YearDayOf(d.dayNumber).year, Year(d));
    C.YearDayOf(d.dayNumber).dayOfYear0 + 1
  }

  /** The day of the week: day 0 (0001-01-01) is a Monday. */
  function DayOfWeekOf(d: Date): (w: DayOfWeek)
    ensures WeekdayIndex(w) == (d.dayNumber + 1) % 7
  {
    match (d.dayNumber + 1) % 7
    case 0 => Sunday
    case 1 => Monday
    case 2 => Tuesday
    case 3 => Wednesday
    case 4 => Thursday
    case 5 => Friday
    case _ => Saturday
  }

  /** Civil is determined by, and determines, the date. */
  lemma CivilInjective(a: Date, b: Date)
    ensures Civil(a) == Civil(b) <==> a == b
  {
  }

  /** Every valid date is rebuilt from its own year, month and day. */
  lemma FromPartsOfParts(d: Date)
    ensures FromParts(Year(d), Month(d), Day(d)) == Ok(d)
  {
  }

  // ---------------------------------------------------------------------------------
  // Arithmetic

  /** `AddDays(int days)`: the host adds the days as milliseconds, then as ticks, and
      fails when either leaves its range. */
  function AddDays(d: Date, days: Int32): (r: Result<Date>)
    ensures r.Ok? <==> MinDayNumber <= d.dayNumber + days <= C.MaxDayNumber
    ensures r.Err? ==> r.error == ArgumentOutOfRange
    ensures r.Ok? ==> r.value.dayNumber == d.dayNumber + days
  {
    var millis := days * 86_400_000;
    if millis <= -315_537_897_600_000 || millis >= 315_537_897_600_000 then Err(ArgumentOutOfRange)
    else
      var ticks := d.dayNumber * T.TicksPerDay + millis * 10_000;
      if ticks < 0 || ticks > MaxDateTimeTicks then Err(ArgumentOutOfRange)
      else FromDayNumber(ticks / T.TicksPerDay)
  }

  /** `SubtractDays(int days)`: AddDays of the negated count, negated in 32 bits. */
  function SubtractDays(d: Date, days: Int32): (r: Result<Date>)
    ensures r.Ok? <==> MinDayNumber <= d.dayNumber - days <= C.MaxDayNumber
    ensures r.Ok? ==> r.value.dayNumber == d.dayNumber - days
    ensures r.Err? ==> r.error == ArgumentOutOfRange
    ensures days != Int32Min ==> r == AddDays(d, -days)
  {
    AddDays(d, Neg32(days))
  }

  /** Each day later is the next day of the week. */
  lemma DayOfWeekAdvances(d: Date, days: Int32)
    requires AddDays(d, days).Ok?
    ensures WeekdayIndex(DayOfWeekOf(AddDays(d, days).value))
         == (WeekdayIndex(DayOfWeekOf(d)) + days) % 7
  {
    WeekShift(d.dayNumber, days);
  }

  lemma WeekShift(n: int, k: int)
    ensures (n + k + 1) % 7 == ((n + 1) % 7 + k) % 7
  {
  }

  function Min(a: int, b: int): int
  {
    if a <= b then a else b
  }

  /** `AddMonths(int months)`, as the host computes it: the month index is split with C#'s
      truncating `/` and `%`, by separate formulas for a negative index; the day is
      clamped to the last day of the target month. */
  function AddMonths(d: Date, months: Int32): (r: Result<Date>)
    ensures var i := Month(d) - 1 + months;
      r.Ok? <==> -120000 <= months <= 120000 && C.MinYear <= Year(d) + i / 12 <= C.MaxYear
    ensures r.Err? ==> r.error == ArgumentOutOfRange
    ensures r.Ok? ==> var i := Month(d) - 1 + months;
      && Year(r.value) == Year(d) + i / 12
      && Month(r.value) == i % 12 + 1
      && Day(r.value) == Min(Day(d), C.DaysInMonth(Year(r.value), Month(r.value)))
  {
    if months < -120000 || months > 120000 then Err(ArgumentOutOfRange)
    else
      var c := Civil(d);
      var i := c.month - 1 + months;
      var month := if i >= 0 then TruncRem(i, 12) + 1 else 12 + TruncRem(i + 1, 12);
      var year := if i >= 0 then c.year + TruncDiv(i, 12) else c.year + TruncDiv(i - 11, 12);
      MonthSplitIsFloor(i);
      if year < C.MinYear || year > C.MaxYear then Err(ArgumentOutOfRange)
      else
        var target := C.CivilDate(year, month, Min(c.day, C.DaysInMonth(year, month)));
        DayNumberBounds(target);
        C.CivilOfDayNumberOf(target);
        FromDayNumber(C.DayNumberOf(target))
  }

  /** The host's two branches both split a month index by floor division. */
  lemma MonthSplitIsFloor(i: int)
    ensures i >= 0 ==> TruncRem(i, 12) + 1 == i % 12 + 1 && TruncDiv(i, 12) == i / 12
    ensures i < 0 ==> 12 + TruncRem(i + 1, 12) == i % 12 + 1 && TruncDiv(i - 11, 12) == i / 12
  {
    if i < 0 {
      var q := (-(i + 1)) / 12;
      assert TruncDiv(i + 1, 12) == -q;
      assert TruncDiv(i - 11, 12) == -q - 1;
      assert i == (-q - 1) * 12 + (11 - (-(i + 1)) % 12);
    }
  }

  /** AddMonths moves the absolute month count (year * 12 + month) by exactly `months`. */
  lemma AddMonthsShiftsMonthCount(d: Date, months: Int32)
    requires AddMonths(d, months).Ok?
    ensures var r := AddMonths(d, months).value;
      Year(r) * 12 + Month(r) == Year(d) * 12 + Month(d) + months
  {
  }

  /** A day that exists in the target month is kept. */
  lemma AddMonthsKeepsExistingDay(d: Date, months: Int32)
    requires AddMonths(d, months).Ok?
    requires var r := AddMonths(d, months).value; Day(d) <= C.DaysInMonth(Year(r), Month(r))
    ensures Day(AddMonths(d, months).value) == Day(d)
  {
  }

  /** Splitting a month index moved forward and then back by the same count. */
  lemma MonthIndexBack(m0: int, months: int)
    requires 0 <= m0 < 12
    ensures var i := m0 + months;
      (i % 12 - months) / 12 == -(i / 12) && (i % 12 - months) % 12 == m0
  {
    var i := m0 + months;
    var q := i / 12;
    assert i % 12 - months == m0 - q * 12;
  }

  /** Moving forward by some months and back by as many returns to the start date when
      the day was not clamped. */
  lemma AddMonthsThenBack(d: Date, months: Int32)
    requires months != Int32Min && AddMonths(d, months).Ok?
    requires Day(d) <= 28
    ensures AddMonths(AddMonths(d, months).value, -months) == Ok(d)
  {
    var r := AddMonths(d, months).value;
    MonthsBackToStart(d, months);
    var b := AddMonths(r, -months).value;
    assert Civil(b) == Civil(d) by {
      assert Day(b) == Min(Day(r), C.DaysInMonth(Year(b), Month(b)));
    }
    CivilInjective(b, d);
  }

  /** Moving back by the months just added reaches the start year and month. */
  lemma MonthsBackToStart(d: Date, months: Int32)
    requires months != Int32Min && AddMonths(d, months).Ok?
    ensures var r := AddMonths(d, months).value;
      AddMonths(r, -months).Ok?
      && Year(AddMonths(r, -months).value) == Year(d)
      && Month(AddMonths(r, -months).value) == Month(d)
  {
    var r := AddMonths(d, months).value;
    MonthIndexBack(Month(d) - 1, months);
    assert Year(r) + (Month(r) - 1 - months) / 12 == Year(d);
    assert (Month(r) - 1 - months) % 12 + 1 == Month(d);
  }

  /** `SubtractMonths(int months)`: AddMonths of the count negated in 32 bits. */
  function SubtractMonths(d: Date, months: Int32): (r: Result<Date>)
    ensures months != Int32Min ==> r == AddMonths(d, -months)
    ensures months == Int32Min ==> r.Err?
    ensures r.Err? ==> r.error == ArgumentOutOfRange
  {
    AddMonths(d, Neg32(months))
  }

  /** `AddYears(int years)`: at most 10000 years either way, then twelve months a year. */
  function AddYears(d: Date, years: Int32): (r: Result<Date>)
    ensures r.Ok? <==> -10000 <= years <= 10000 && C.MinYear <= Year(d) + years <= C.MaxYear
    ensures r.Err? ==> r.error == ArgumentOutOfRange
    ensures r.Ok? ==>
      && Year(r.value) == Year(d) + years
      && Month(r.value) == Month(d)
      && Day(r.value) == Min(Day(d), C.DaysInMonth(Year(r.value), Month(r.value)))
  {
    if years < -10000 || years > 10000 then Err(ArgumentOutOfRange)
    else
      WholeYearsOfMonths(Month(d) - 1, years);
      AddMonths(d, years * 12)
  }

  lemma WholeYearsOfMonths(m0: int, years: int)
    requires 0 <= m0 < 12
    ensures (m0 + years * 12) / 12 == years && (m0 + years * 12) % 12 == m0
  {
  }

  /** A year later the month and day are kept, except that February 29 becomes
      February 28 in a common year. */
  lemma AddYearsKeepsDayOrLeapDay(d: Date, years: Int32)
    requires AddYears(d, years).Ok?
    ensures var r := AddYears(d, years).value;
      || Day(r) == Day(d)
      || (Month(d) == 2 && Day(d) == 29 && Day(r) == 28 && !C.IsLeapYear(Year(r)))
  {
    var r := AddYears(d, years).value;
    var target := C.DaysInMonth(Year(r), Month(r));
    assert Day(r) == Min(Day(d), target);
    if Day(d) > target {
      assert Month(r) == Month(d);
      assert C.DaysInMonth(Year(d), Month(d)) > target;
      assert Month(d) == 2;
      assert target == 28 && Day(d) == 29;
      assert !C.IsLeapYear(Year(r));
    }
  }

  /** `SubtractYears(int years)`: AddYears of the count negated in 32 bits. */
  function SubtractYears(d: Date, years: Int32): (r: Result<Date>)
    ensures years != Int32Min ==> r == AddYears(d, -years)
    ensures years == Int32Min ==> r.Err?
    ensures r.Err? ==> r.error == ArgumentOutOfRange
  {
    AddYears(d, Neg32(years))
  }

  // ---------------------------------------------------------------------------------
  // Equality and order

  /** `Equals(Date)` and the `==` operator; `!=` is its negation. */
  predicate Equals(a: Date, b: Date)
    ensures Equals(a, b) <==> a == b
  {
    a.dayNumber == b.dayNumber
  }

  /** Day-number order is calendar order. */
  lemma DayOrderIsCalendarOrder(a: Date, b: Date)
    ensures a.dayNumber < b.dayNumber <==> C.CivilBefore(Civil(a), Civil(b))
  {
    var ca, cb := Civil(a), Civil(b);
    if C.CivilBefore(ca, cb) {
      C.DayNumberOfMonotone(ca, cb);
    } else if C.CivilBefore(cb, ca) {
      C.DayNumberOfMonotone(cb, ca);
    } else {
      assert ca == cb;
    }
  }

  /** `Compare(Date, Date)` (and `CompareTo(Date)`): the sign of the calendar order. */
  function Compare(d1: Date, d2: Date): (r: int)
    ensures -1 <= r <= 1
    ensures r == 0 <==> d1 == d2
    ensures r < 0 <==> C.CivilBefore(Civil(d1), Civil(d2))
    ensures r > 0 <==> C.CivilBefore(Civil(d2), Civil(d1))
  {
    DayOrderIsCalendarOrder(d1, d2);
    DayOrderIsCalendarOrder(d2, d1);
    if d1.dayNumber > d2.dayNumber then 1
    else if d1.dayNumber < d2.dayNumber then -1
    else 0
  }

  lemma CompareAntisymmetric(a: Date, b: Date)
    ensures Compare(a, b) == -Compare(b, a)
  {
  }

  predicate Less(a: Date, b: Date) { a.dayNumber < b.dayNumber }
  predicate LessOrEqual(a: Date, b: Date) { a.dayNumber <= b.dayNumber }
  predicate Greater(a: Date, b: Date) { a.dayNumber > b.dayNumber }
  predicate GreaterOrEqual(a: Date, b: Date) { a.dayNumber >= b.dayNumber }

  /** The operators `<`, `<=`, `>`, `>=`, `==` and `!=` agree with Compare. */
  lemma OperatorsAgreeWithCompare(a: Date, b: Date)
    ensures Less(a, b) <==> Compare(a, b) == -1
    ensures LessOrEqual(a, b) <==> Compare(a, b) != 1
    ensures Greater(a, b) <==> Compare(a, b) == 1
    ensures GreaterOrEqual(a, b) <==> Compare(a, b) != -1
    ensures Equals(a, b) <==> Compare(a, b) == 0
    ensures !Equals(a, b) <==> Compare(a, b) != 0
  {
  }

  // ---------------------------------------------------------------------------------
  // Combining with a time of day

  /** `At(TimeOfDay)`: the host instant of that time on this date. */
  function At(d: Date, time: T.TimeOfDay): (r: DateTime)
    ensures 0 <= r.ticks <= MaxDateTimeTicks
    ensures r.ticks / T.TicksPerDay == d.dayNumber && r.ticks % T.TicksPerDay == time.ticks
  {
    DateTime(d.dayNumber * T.TicksPerDay + time.ticks)
  }

  /** Different dates or times give different instants. */
  lemma AtInjective(d1: Date, t1: T.TimeOfDay, d2: Date, t2: T.TimeOfDay)
    ensures At(d1, t1) == At(d2, t2) <==> d1 == d2 && t1 == t2
  {
  }

  /** `ToDateTimeAtMidnight()`. */
  function ToDateTimeAtMidnight(d: Date): (r: DateTime)
    ensures r == At(d, T.MinValue)
  {
    DateTime(d.dayNumber * T.TicksPerDay)
  }

  // ---------------------------------------------------------------------------------
  // The values the tests pin down

  lemma ExampleMaxValue()
    ensures FromParts(9999, 12, 31) == Ok(MaxValue)
  {
    assert C.DayNumberOf(C.CivilDate(9999, 12, 31)) == C.MaxDayNumber;
  }

  lemma ExampleMinValue()
    ensures FromParts(1, 1, 1) == Ok(MinValue)
  {
    assert C.DayNumberOf(C.CivilDate(1, 1, 1)) == MinDayNumber;
  }

  lemma ExampleOutOfRange()
    ensures FromDayNumber(C.MaxDayNumber + 1).Err? && FromDayNumber(MinDayNumber - 1).Err?
    ensures FromParts(2015, 2, 29).Err? && FromParts(0, 1, 1).Err? && FromParts(2015, 13, 1).Err?
  {
  }

  lemma ExampleWeekday()
    ensures DayOfWeekOf(FromParts(2015, 12, 31).value) == Thursday
  {
    assert C.DayNumberOf(C.CivilDate(2015, 12, 31)) == 735962;
    assert FromParts(2015, 12, 31) == Ok(Date(735962));
    assert (735962 + 1) % 7 == 4;
  }

  lemma ExampleDayOfYearCommon()
    ensures DayOfYear(FromParts(2015, 12, 31).value) == 365
  {
    assert C.DayNumberOf(C.CivilDate(2015, 12, 31)) == 735962;
    assert FromParts(2015, 12, 31) == Ok(Date(735962));
  }

  lemma ExampleDayOfYearLeap()
    ensures DayOfYear(FromParts(2000, 12, 31).value) == 366
  {
    assert C.DayNumberOf(C.CivilDate(2000, 12, 31)) == 730484;
    assert FromParts(2000, 12, 31) == Ok(Date(730484));
  }

  /** The fields of a date: `Fields(d, 2000, 1, 31)` says d is 2000-01-31. */
  predicate Fields(d: Date, year: int, month: int, day: int)
  {
    Year(d) == year && Month(d) == month && Day(d) == day
  }

  /** The last days of months are clamped: January 31 plus a month is February 29 in 2000
      and February 28 in 2001. */
  lemma ExampleAddMonthsClampsLeap(d: Date)
    requires Fields(d, 2000, 1, 31)
    ensures AddMonths(d, 1).Ok? && Fields(AddMonths(d, 1).value, 2000, 2, 29)
  {
  }

  lemma ExampleAddMonthsClampsCommon(d: Date)
    requires Fields(d, 2001, 1, 31)
    ensures AddMonths(d, 1).Ok? && Fields(AddMonths(d, 1).value, 2001, 2, 28)
  {
  }

  /** Months carry into the year in both directions. */
  lemma ExampleAddMonthsCarryForward(d: Date)
    requires Fields(d, 1999, 11, 30)
    ensures AddMonths(d, 3).Ok? && Fields(AddMonths(d, 3).value, 2000, 2, 29)
  {
  }

  lemma ExampleAddMonthsCarryBack(d: Date)
    requires Fields(d, 2000, 1, 1)
    ensures AddMonths(d, -1).Ok? && Fields(AddMonths(d, -1).value, 1999, 12, 1)
  {
  }

  /** February 29 becomes February 28 a year later and stays February 29 four years earlier. */
  lemma ExampleAddYearsLeapDay(d: Date)
    requires Fields(d, 2000, 2, 29)
    ensures AddYears(d, 1).Ok? && Fields(AddYears(d, 1).value, 2001, 2, 28)
    ensures AddYears(d, -4).Ok? && Fields(AddYears(d, -4).value, 1996, 2, 29)
  {
  }

  /** Moving past either end of the range fails. */
  lemma ExampleDaysPastEnds()
    ensures AddDays(MaxValue, 1).Err? && AddDays(MinValue, -1).Err?
  {
  }
}
