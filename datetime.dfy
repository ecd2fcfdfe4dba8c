/** The members of either value type that produce or consume an instant of the host
    DateTime type: a time of day placed on a date, and the detour through such an instant
    that TimeOfDay's Add takes. */
module DateTimes {
  import opened Primitives
  import D = Dates
  import T = TimeOfDays
  import C = Calendar

  /** `TimeOfDay.On(Date)`: the same instant as `Date.At(TimeOfDay)`. */
  function On(time: T.TimeOfDay, date: D.Date): (r: D.DateTime)
    ensures r == D.At(date, time)
    ensures r.ticks / T.TicksPerDay == date.dayNumber && r.ticks % T.TicksPerDay == time.ticks
  {
    D.DateTime(date.dayNumber * T.TicksPerDay + time.ticks)
  }

  /** The implicit conversion from a host DateTime: the date of the instant's midnight. A
      host DateTime is always within 0 .. MaxDateTimeTicks. */
  function FromDateTime(dt: D.DateTime): (r: D.Date)
    requires 0 <= dt.ticks <= D.MaxDateTimeTicks
    ensures r.dayNumber == dt.ticks / T.TicksPerDay
    ensures D.At(r, TimeOfDayPart(dt)) == dt
  {
    var midnight := dt.ticks - dt.ticks % T.TicksPerDay;
    assert midnight == dt.ticks / T.TicksPerDay * T.TicksPerDay;
    D.Date(midnight / T.TicksPerDay)
  }

  /** Converting an instant placed on a date back gives that date. */
  lemma FromDateTimeOfAt(d: D.Date, t: T.TimeOfDay)
    ensures FromDateTime(D.At(d, t)) == d
    ensures FromDateTime(D.ToDateTimeAtMidnight(d)) == d
  {
  }

  /** `DateTime.Add(TimeSpan)`: the host fails when the sum leaves its range. */
  function AddSpan(dt: D.DateTime, span: Int64): (r: Result<D.DateTime>)
    ensures r.Ok? <==> 0 <= dt.ticks + span <= D.MaxDateTimeTicks
    ensures r.Ok? ==> r.value.ticks == dt.ticks + span
    ensures r.Err? ==> r.error == ArgumentOutOfRange
  {
    var sum := dt.ticks + span;
    if sum < 0 || sum > D.MaxDateTimeTicks then Err(ArgumentOutOfRange) else Ok(D.DateTime(sum))
  }

  /** `DateTime.TimeOfDay`: the ticks elapsed since the instant's midnight. */
  function TimeOfDayPart(dt: D.DateTime): (r: T.TimeOfDay)
    requires 0 <= dt.ticks
    ensures 0 <= dt.ticks - r.ticks && (dt.ticks - r.ticks) % T.TicksPerDay == 0
  {
    T.TimeOfDay(dt.ticks % T.TicksPerDay)
  }

  /** Adding a span to a time of day by placing it on `anchor`, adding the span to the
      instant, and reading back the time of day. */
  function AddVia(anchor: D.Date, t: T.TimeOfDay, span: Int64): (r: Result<T.TimeOfDay>)
    ensures r.Ok? <==> 0 <= D.At(anchor, t).ticks + span <= D.MaxDateTimeTicks
    ensures r.Ok? ==> r.value == T.Add(t, span)
    ensures r.Err? ==> r.error == ArgumentOutOfRange
  {
    var dt :- AddSpan(D.At(anchor, t), span);
    var back := TimeOfDayPart(dt);
    T.SameTimeModuloDay(back, T.Add(t, span));
    Ok(back)
  }

  /** `TimeOfDay.Add(TimeSpan)` as written: the anchor is `new Date(5000, 0, 0)`, whose
      month 0 the Date constructor rejects, so every call fails. */
  function AddAsWritten(t: T.TimeOfDay, span: Int64): (r: Result<T.TimeOfDay>)
    ensures r == Err(ArgumentOutOfRange)
  {
    match D.FromParts(5000, 0, 0)
    case Err(e) => Err(e)
    case Ok(anchor) => AddVia(anchor, t, span)
  }

  /** The evidently intended anchor, 5000-01-01, is day 1825847. */
  lemma MidYearAnchor()
    ensures D.FromParts(5000, 1, 1) == Ok(D.Date(1825847))
  {
    assert C.DayNumberOf(C.CivilDate(5000, 1, 1)) == 1825847;
  }

  /** With that anchor the detour gives the wrapped sum for every span of at most
      1,577,000,000,000,000,000 ticks (about 5000 years) either way; larger spans would
      make the host instant leave its range. */
  lemma AddViaMidYearAnchor(t: T.TimeOfDay, span: Int64)
    requires -1_577_000_000_000_000_000 <= span <= 1_577_000_000_000_000_000
    ensures AddVia(D.Date(1825847), t, span) == Ok(T.Add(t, span))
  {
    assert 0 <= D.At(D.Date(1825847), t).ticks + span <= D.MaxDateTimeTicks;
  }

  /** `TimeOfDay.Subtract(TimeSpan)` as written: Add of the negated span, so it fails too,
      with OverflowException when the span cannot be negated. */
  function SubtractAsWritten(t: T.TimeOfDay, span: Int64): (r: Result<T.TimeOfDay>)
    ensures r.Err?
    ensures r.error == (if span == Int64Min then Overflow else ArgumentOutOfRange)
  {
    if span == Int64Min then Err(Overflow) else AddAsWritten(t, -span)
  }

  /** 23:59:59 on 2000-12-31 is the instant 2000-12-31T23:59:59. */
  lemma ExampleOnDate()
    ensures D.FromParts(2000, 12, 31).Ok? && T.FromClock24(23, 59, 59, 0).Ok?
    ensures On(T.FromClock24(23, 59, 59, 0).value, D.FromParts(2000, 12, 31).value).ticks
         == 730484 * T.TicksPerDay + 23 * T.TicksPerHour + 59 * T.TicksPerMinute + 59 * T.TicksPerSecond
  {
    assert C.DayNumberOf(C.CivilDate(2000, 12, 31)) == 730484;
    assert D.FromParts(2000, 12, 31) == Ok(D.Date(730484));
  }
}
