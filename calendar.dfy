/** The proleptic Gregorian calendar over years 1 to 9999, counted in whole days from
    0001-01-01 (day 0). This is the arithmetic Date delegates to the host DateTime type:
    the leap-year rule, the days before a year, the cumulative month tables, and the
    conversion of a day number back into year, month and day by peeling off whole
    400-, 100-, 4- and 1-year blocks. */
module Calendar {

  const DaysPerYear: int := 365
  const DaysPer4Years: int := 1461      // 4 * 365 + 1
  const DaysPer100Years: int := 36524   // 25 * 1461 - 1
  const DaysPer400Years: int := 146097  // 4 * 36524 + 1

  const MinYear: int := 1
  const MaxYear: int := 9999
  /** Day number of 9999-12-31. */
  const MaxDayNumber: int := 3652058

  /** Days before the first of each month, and (last entry) in the whole year. */
  const DaysToMonth365: seq<int> := [0, 31, 59, 90, 120, 151, 181, 212, 243, 273, 304, 334, 365]
  const DaysToMonth366: seq<int> := [0, 31, 60, 91, 121, 152, 182, 213, 244, 274, 305, 335, 366]

  /** A (year, month, day) triple. */
  datatype CivilDate = CivilDate(year: int, month: int, day: int)

  predicate IsLeapYear(year: int)
  {
    year % 4 == 0 && (year % 100 != 0 || year % 400 == 0)
  }

  function DaysInYear(year: int): int
  {
    if IsLeapYear(year) then 366 else 365
  }

  /** The cumulative month table of a leap or a common year. */
  function MonthTable(leap: bool): (t: seq<int>)
    ensures |t| == 13 && t[0] == 0 && t[12] == (if leap then 366 else 365)
  {
    if leap then DaysToMonth366 else DaysToMonth365
  }

  ghost predicate Increasing(t: seq<int>)
  {
    forall i, j :: 0 <= i < j < |t| ==> t[i] < t[j]
  }

  lemma MonthTableIncreasing(leap: bool)
    ensures Increasing(MonthTable(leap))
  {
  }

  function DaysToMonth(year: int): (t: seq<int>)
    ensures |t| == 13 && t[12] == DaysInYear(year)
  {
    MonthTable(IsLeapYear(year))
  }

  function DaysInMonth(year: int, month: int): (r: int)
    requires 1 <= month <= 12
    ensures 28 <= r <= 31
    ensures month == 2 ==> r == if IsLeapYear(year) then 29 else 28
    ensures month != 2 ==> r == DaysToMonth365[month] - DaysToMonth365[month - 1] >= 30
  {
    DaysToMonth(year)[month] - DaysToMonth(year)[month - 1]
  }

  predicate ValidYearMonthDay(year: int, month: int, day: int)
  {
    MinYear <= year <= MaxYear && 1 <= month <= 12 && 1 <= day <= DaysInMonth(year, month)
  }

  predicate ValidCivil(c: CivilDate)
  {
    ValidYearMonthDay(c.year, c.month, c.day)
  }

  /** Days from 0001-01-01 to the first day of `year`. */
  function DaysBeforeYear(year: int): int
    requires year >= 1
  {
    var y := year - 1;
    y * 365 + y / 4 - y / 100 + y / 400
  }

  /** The day number of a valid (year, month, day). */
  function DayNumberOf(c: CivilDate): int
    requires ValidCivil(c)
  {
    DaysBeforeYear(c.year) + DaysToMonth(c.year)[c.month - 1] + c.day - 1
  }

  /** Year, zero-based day of year, and leap flag of a day number. */
  datatype YearDay = YearDay(year: int, dayOfYear0: int, leap: bool)

  /** Peels whole 400-, 100-, 4- and 1-year blocks off a day number. The 100-year and the
      1-year counts are capped at 3: a fourth full block can only be reached by the extra
      leap day at the end of the enclosing block. The leap flag of the final year comes
      from the block counts, not from IsLeapYear. */
  function YearDayOf(n: int): (yd: YearDay)
    requires n >= 0
    ensures yd.year >= 1
    ensures yd.leap == IsLeapYear(yd.year)
    ensures 0 <= yd.dayOfYear0 < DaysInYear(yd.year)
    ensures n == DaysBeforeYear(yd.year) + yd.dayOfYear0
  {
    var y400 := n / 146097;
    var n1 := n - y400 * 146097;
    var y100 := CappedBlocks(n1, 36524);
    var n2 := n1 - y100 * 36524;
    var y4 := n2 / 1461;
    var n3 := n2 - y4 * 1461;
    var y1 := CappedBlocks(n3, 365);
    var n4 := n3 - y1 * 365;
    assert 0 <= y4 <= 24 && 0 <= n3 < 1461 && (y4 == 24 && y100 < 3 ==> n3 < 1460);
    DaysBeforeBlocks(y400, y100, y4, y1);
    LeapFromBlocks(y400, y100, y4, y1);
    YearDay(y400 * 400 + y100 * 100 + y4 * 4 + y1 + 1, n4, y1 == 3 && (y4 != 24 || y100 == 3))
  }

  /** The number of whole blocks of `size` days in `n` days, capped at 3: in a span of
      four such blocks plus one day, the extra day belongs to the last block. */
  function CappedBlocks(n: int, size: int): (k: int)
    requires 0 <= n <= 4 * size && size > 0
    ensures 0 <= k <= 3
    ensures 0 <= n - k * size <= size
    ensures k < 3 ==> n - k * size < size
  {
    // On 0..4 * size this is the host's `n / size` with 4 capped to 3.
    if n < size then 0 else if n < 2 * size then 1 else if n < 3 * size then 2 else 3
  }

  /** The first month, from `m` on, whose end lies beyond zero-based day `d`. */
  function MonthSearch(t: seq<int>, d: int, m: int): (r: int)
    requires |t| == 13 && 1 <= m <= 12
    ensures m <= r <= 12
    ensures m < r ==> t[r - 1] <= d
    ensures r < 12 ==> d < t[r]
    decreases 12 - m
  {
    if m < 12 && d >= t[m] then MonthSearch(t, d, m + 1) else m
  }

  /** The (year, month, day) of a day number. */
  function CivilOf(n: int): (c: CivilDate)
    requires n >= 0
    ensures c.year >= 1 && 1 <= c.month <= 12 && c.day >= 1
  {
    var yd := YearDayOf(n);
    var t := MonthTable(yd.leap);
    var m := MonthSearch(t, yd.dayOfYear0, 1);
    CivilDate(yd.year, m, yd.dayOfYear0 - t[m - 1] + 1)
  }

  // ---------------------------------------------------------------------------------
  // Lemmas

  /** The days before year y+1 are those before y plus the days of y. */
  lemma DaysBeforeNextYear(year: int)
    requires year >= 1
    ensures DaysBeforeYear(year + 1) == DaysBeforeYear(year) + DaysInYear(year)
  {
    var y := year - 1;
    NextQuotient(y, 4);
    NextQuotient(y, 100);
    NextQuotient(y, 400);
    Multiple400(year);
    Multiple100(year);
  }

  /** Counting one more year adds one to a quotient exactly when the new year divides. */
  lemma NextQuotient(y: int, k: int)
    requires y >= 0 && (k == 4 || k == 100 || k == 400)
    ensures (y + 1) / k == if (y + 1) % k == 0 then y / k + 1 else y / k
  {
  }

  /** A multiple of 400 is a multiple of 100. */
  lemma Multiple400(x: int)
    ensures x % 400 == 0 ==> x % 100 == 0
  {
    if x % 400 == 0 {
      var q := x / 400;
      assert x == 100 * (4 * q);
    }
  }

  /** A multiple of 100 is a multiple of 4. */
  lemma Multiple100(x: int)
    ensures x % 100 == 0 ==> x % 4 == 0
  {
    if x % 100 == 0 {
      var q := x / 100;
      assert x == 4 * (25 * q);
    }
  }

  /** Later years start later: each year starts after the whole of every earlier year. */
  lemma {:induction false} DaysBeforeYearMonotone(y1: int, y2: int)
    requires 1 <= y1 < y2
    ensures DaysBeforeYear(y1) + DaysInYear(y1) <= DaysBeforeYear(y2)
    decreases y2 - y1
  {
    DaysBeforeNextYear(y1);
    if y1 + 1 < y2 {
      DaysBeforeYearMonotone(y1 + 1, y2);
    }
  }

  /** A day number lies in at most one year. */
  lemma YearIsUnique(n: int, y1: int, y2: int)
    requires y1 >= 1 && DaysBeforeYear(y1) <= n < DaysBeforeYear(y1) + DaysInYear(y1)
    requires y2 >= 1 && DaysBeforeYear(y2) <= n < DaysBeforeYear(y2) + DaysInYear(y2)
    ensures y1 == y2
  {
    if y1 < y2 {
      DaysBeforeYearMonotone(y1, y2);
    } else if y2 < y1 {
      DaysBeforeYearMonotone(y2, y1);
    }
  }

  /** The days before the year that begins after a 400-year, b 100-year, c 4-year and e
      1-year blocks (b and e at most 3, c at most 24) are exactly those blocks' days. */
  lemma DaysBeforeBlocks(a: int, b: int, c: int, e: int)
    requires 0 <= a && 0 <= b <= 3 && 0 <= c <= 24 && 0 <= e <= 3
    ensures DaysBeforeYear(a * 400 + b * 100 + c * 4 + e + 1)
         == a * 146097 + b * 36524 + c * 1461 + e * 365
  {
    var y := a * 400 + b * 100 + c * 4 + e;
    assert y / 4 == a * 100 + b * 25 + c;
    assert y / 100 == a * 4 + b;
    assert y / 400 == a;
  }

  /** The leap-year rule, read off the block counts of the year's first day. */
  lemma LeapFromBlocks(a: int, b: int, c: int, e: int)
    requires 0 <= a && 0 <= b <= 3 && 0 <= c <= 24 && 0 <= e <= 3
    ensures IsLeapYear(a * 400 + b * 100 + c * 4 + e + 1) == (e == 3 && (c != 24 || b == 3))
  {
    var year := a * 400 + b * 100 + c * 4 + e + 1;
    if e == 3 {
      assert year % 4 == 0 by {
        assert year == (a * 100 + b * 25 + c + 1) * 4;
      }
      if c == 24 {
        assert year == (a * 4 + b + 1) * 100;
        assert year % 100 == 0;
        assert year % 400 == 0 <==> b == 3 by {
          if b == 3 {
            assert year == (a + 1) * 400;
          } else {
            assert year / 400 == a;
          }
        }
      } else {
        assert year / 100 == a * 4 + b;
        assert year % 100 != 0;
      }
    } else {
      assert year / 4 == a * 100 + b * 25 + c;
      assert year % 4 != 0;
    }
  }

  /** A valid (year, month, day) lies within its year. */
  lemma DayOfYearInRange(c: CivilDate)
    requires ValidCivil(c)
    ensures 0 <= DaysToMonth(c.year)[c.month - 1] + c.day - 1 < DaysInYear(c.year)
    ensures DaysBeforeYear(c.year) <= DayNumberOf(c) < DaysBeforeYear(c.year) + DaysInYear(c.year)
  {
    MonthTableIncreasing(IsLeapYear(c.year));
    var t := DaysToMonth(c.year);
    if c.month < 12 {
      assert t[c.month] < t[12];
    }
  }

  /** The month search finds the month whose span holds the day. */
  lemma {:induction false} MonthSearchFinds(t: seq<int>, d: int, m: int, target: int)
    requires |t| == 13 && Increasing(t)
    requires 1 <= m <= target <= 12 && t[target - 1] <= d < t[target]
    ensures MonthSearch(t, d, m) == target
    decreases 12 - m
  {
    if m < target {
      assert t[m] <= t[target - 1];
      MonthSearchFinds(t, d, m + 1, target);
    } else {
      assert m == target;
    }
  }

  /** The host may start the month search at an estimate, d / 32 + 1, rather than at
      January. Month m ends by day 31 * m, so the estimate never passes the month holding
      the day, and the search from it finds the same month. */
  lemma MonthEstimateAgrees(leap: bool, d: int)
    requires 0 <= d < MonthTable(leap)[12]
    ensures 1 <= d / 32 + 1 <= 12
    ensures MonthSearch(MonthTable(leap), d, d / 32 + 1) == MonthSearch(MonthTable(leap), d, 1)
  {
    var t := MonthTable(leap);
    MonthTableIncreasing(leap);
    var m := MonthOfDay(t, d);
    assert t[m] <= 31 * m;
    MonthSearchFinds(t, d, d / 32 + 1, m);
    MonthSearchFinds(t, d, 1, m);
  }

  /** Every zero-based day of a year lies in some month of the table. */
  lemma MonthOfDay(t: seq<int>, d: int) returns (m: int)
    requires |t| == 13 && t[0] == 0 && Increasing(t)
    requires 0 <= d < t[12]
    ensures 1 <= m <= 12 && t[m - 1] <= d < t[m]
  {
    m := 1;
    while d >= t[m]
      invariant 1 <= m <= 12 && t[m - 1] <= d
      decreases 12 - m
    {
      m := m + 1;
    }
  }

  /** Converting a valid (year, month, day) to a day number and back gives it again. */
  lemma CivilOfDayNumberOf(c: CivilDate)
    requires ValidCivil(c)
    ensures DayNumberOf(c) >= 0 && CivilOf(DayNumberOf(c)) == c
  {
    var n := DayNumberOf(c);
    var t := DaysToMonth(c.year);
    DayOfYearInRange(c);
    var yd := YearDayOf(n);
    YearIsUnique(n, yd.year, c.year);
    CivilOfLocates(n);
    MonthTableIncreasing(yd.leap);
    MonthSearchFinds(t, yd.dayOfYear0, 1, c.month);
  }

  /** A day number up to MaxDayNumber falls in a year up to MaxYear. */
  lemma YearDayOfInRange(n: int)
    requires 0 <= n <= MaxDayNumber
    ensures YearDayOf(n).year <= MaxYear
  {
    var yd := YearDayOf(n);
    if yd.year > MaxYear {
      DaysBeforeMaxYear();
      DaysBeforeYearMonotone(MaxYear, yd.year);
    }
  }

  /** CivilOf keeps the year of YearDayOf and picks the month whose span holds the day. */
  lemma CivilOfLocates(n: int)
    requires n >= 0
    ensures var yd, c := YearDayOf(n), CivilOf(n);
      var t := MonthTable(yd.leap);
      c.year == yd.year && c.month == MonthSearch(t, yd.dayOfYear0, 1)
      && t[c.month - 1] <= yd.dayOfYear0 < t[c.month]
      && c.day == yd.dayOfYear0 - t[c.month - 1] + 1
  {
    var yd := YearDayOf(n);
    var t := MonthTable(yd.leap);
    MonthTableIncreasing(yd.leap);
    var m := MonthOfDay(t, yd.dayOfYear0);
    MonthSearchFinds(t, yd.dayOfYear0, 1, m);
  }

  /** Every day number from 0 to MaxDayNumber is a valid date that converts back to it. */
  lemma DayNumberOfCivilOf(n: int)
    requires 0 <= n <= MaxDayNumber
    ensures ValidCivil(CivilOf(n)) && DayNumberOf(CivilOf(n)) == n
  {
    YearDayOfInRange(n);
    CivilOfLocates(n);
  }

  /** Day numbers follow the calendar order of (year, month, day). */
  predicate CivilBefore(a: CivilDate, b: CivilDate)
  {
    a.year < b.year
    || (a.year == b.year && a.month < b.month)
    || (a.year == b.year && a.month == b.month && a.day < b.day)
  }

  lemma DayNumberOfMonotone(a: CivilDate, b: CivilDate)
    requires ValidCivil(a) && ValidCivil(b) && CivilBefore(a, b)
    ensures DayNumberOf(a) < DayNumberOf(b)
  {
    DayOfYearInRange(a);
    DayOfYearInRange(b);
    if a.year < b.year {
      DaysBeforeYearMonotone(a.year, b.year);
    } else {
      var t := DaysToMonth(a.year);
      MonthTableIncreasing(IsLeapYear(a.year));
      if a.month < b.month {
        assert t[a.month] <= t[b.month - 1];
      }
    }
  }

  lemma DaysBeforeMaxYear()
    ensures DaysBeforeYear(MaxYear) + DaysInYear(MaxYear) == MaxDayNumber + 1
  {
  }
}
