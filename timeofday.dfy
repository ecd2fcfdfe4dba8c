/** A time of day as read from a clock, from 00:00:00 to 23:59:59.9999999, stored as the
    number of 100-nanosecond ticks since midnight. Accessors give the 24-hour and 12-hour
    readings; adding a span wraps around midnight. */
module TimeOfDays {
  import opened Primitives

  const TicksPerMillisecond: int := 10_000
  const TicksPerSecond: int := 10_000_000
  const TicksPerMinute: int := 600_000_000
  const TicksPerHour: int := 36_000_000_000
  const TicksPerDay: int := 864_000_000_000

  const MinTicks: int := 0
  const MaxTicks: int := 863_999_999_999

  type TickCount = t: int | MinTicks <= t <= MaxTicks

  datatype Meridiem = AM | PM

  /** Equality of two values is equality of their (only) field, the tick count. */
  datatype TimeOfDay = TimeOfDay(ticks: TickCount)

  /** 00:00:00, also the value of `new TimeOfDay()`. */
  const MinValue: TimeOfDay := TimeOfDay(MinTicks)
  /** 23:59:59.9999999 */
  const MaxValue: TimeOfDay := TimeOfDay(MaxTicks)

  /** `new TimeOfDay(long ticks)`. */
  function FromTicks(ticks: int): (r: Result<TimeOfDay>)
    ensures r.Ok? <==> MinTicks <= ticks <= MaxTicks
    ensures r.Ok? ==> r.value.ticks == ticks
    ensures r.Err? ==> r.error == ArgumentOutOfRange
  {
    if ticks < MinTicks || ticks > MaxTicks then Err(ArgumentOutOfRange) else Ok(TimeOfDay(ticks))
  }

  // ---------------------------------------------------------------------------------
  // Accessors, as TimeSpan derives them from the tick count

  function Hours24(t: TimeOfDay): (h: int)
    ensures 0 <= h <= 23
    ensures h * TicksPerHour <= t.ticks < (h + 1) * TicksPerHour
  {
    (t.ticks / TicksPerHour) % 24
  }

  function Minutes(t: TimeOfDay): (m: int)
    ensures 0 <= m <= 59
  {
    (t.ticks / TicksPerMinute) % 60
  }

  function Seconds(t: TimeOfDay): (s: int)
    ensures 0 <= s <= 59
  {
    (t.ticks / TicksPerSecond) % 60
  }

  function Milliseconds(t: TimeOfDay): (ms: int)
    ensures 0 <= ms <= 999
  {
    (t.ticks / TicksPerMillisecond) % 1000
  }

  /** The hour on a 12-hour clock face: midnight and noon read 12. */
  function Hours12(t: TimeOfDay): (h: int)
    ensures 1 <= h <= 12
    ensures h % 12 == Hours24(t) % 12
  {
    var hour := Hours24(t) % 12;
    if hour == 0 then 12 else hour
  }

  function MeridiemOf(t: TimeOfDay): (m: Meridiem)
    ensures m == AM <==> t.ticks < 12 * TicksPerHour
  {
    if Hours24(t) < 12 then AM else PM
  }

  /** The components read back the tick count, down to the sub-millisecond remainder. */
  lemma ComponentsMakeTicks(t: TimeOfDay)
    ensures t.ticks == Hours24(t) * TicksPerHour + Minutes(t) * TicksPerMinute
                       + Seconds(t) * TicksPerSecond + Milliseconds(t) * TicksPerMillisecond
                       + t.ticks % TicksPerMillisecond
  {
    var x := t.ticks;
    var q := x / TicksPerMillisecond;
    assert x == q * 10_000 + x % 10_000;
    assert Milliseconds(t) == q % 1000;
    var qs := q / 1000;
    assert x / TicksPerSecond == qs;
    assert Seconds(t) == qs % 60;
    var qm := qs / 60;
    assert x / TicksPerMinute == qm;
    assert Minutes(t) == qm % 60;
    var qh := qm / 60;
    assert x / TicksPerHour == qh;
    assert Hours24(t) == qh;
  }

  // ---------------------------------------------------------------------------------
  // Construction from clock fields

  /** The ranges a 24-hour clock reading's fields are meant to have. */
  predicate ClockFieldsValid(hours24: int, minutes: int, seconds: int, milliseconds: int)
  {
    0 <= hours24 <= 23 && 0 <= minutes <= 59 && 0 <= seconds <= 59 && 0 <= milliseconds <= 999
  }

  /** The tick count of a span of hours, minutes, seconds and milliseconds. */
  function FieldTicks(hours: int, minutes: int, seconds: int, milliseconds: int): int
  {
    ((hours * 3600 + minutes * 60 + seconds) * 1000 + milliseconds) * TicksPerMillisecond
  }

  /** `new TimeSpan(days, hours, minutes, seconds, milliseconds)`: the total is taken in
      milliseconds, and the host fails when it exceeds long.MaxValue / TicksPerMillisecond
      either way, which is exactly when its tick count would not fit a 64-bit integer. */
  function SpanTicks(days: Int32, hours: Int32, minutes: Int32, seconds: Int32, milliseconds: Int32)
    : (r: Result<int>)
    ensures r.Ok? <==> Int64Min <= FieldTicks(days * 24 + hours, minutes, seconds, milliseconds) <= Int64Max
    ensures r.Ok? ==> r.value == FieldTicks(days * 24 + hours, minutes, seconds, milliseconds)
    ensures r.Err? ==> r.error == ArgumentOutOfRange
  {
    var totalMilliseconds := (days * 3600 * 24 + hours * 3600 + minutes * 60 + seconds) * 1000 + milliseconds;
    if totalMilliseconds > 922_337_203_685_477 || totalMilliseconds < -922_337_203_685_477 then
      Err(ArgumentOutOfRange)
    else
      Ok(totalMilliseconds * TicksPerMillisecond)
  }

  /** `new TimeSpan(hours, minutes, seconds)`: the total is taken in seconds and checked
      against long.MaxValue / TicksPerSecond. */
  function HmsSpanTicks(hours: Int32, minutes: Int32, seconds: Int32): (r: Result<int>)
    ensures r == SpanTicks(0, hours, minutes, seconds, 0)
  {
    var totalSeconds := hours * 3600 + minutes * 60 + seconds;
    if totalSeconds > 922_337_203_685 || totalSeconds < -922_337_203_685 then
      Err(ArgumentOutOfRange)
    else
      Ok(totalSeconds * TicksPerSecond)
  }

  /** The 24-hour constructors as written store the span's ticks unchecked:
      `new TimeOfDay(hours24, minutes[, seconds])` is HmsSpanTicks and
      `new TimeOfDay(hours24, minutes, seconds, milliseconds)` is SpanTicks with no days.
      So `new TimeOfDay(24, 0)` holds a whole day of ticks, `new TimeOfDay(0, -1)` a
      negative count, 12:75 is 13:15, and only an hour count too large for a span fails. */
  lemma ConstructorsAsWrittenLeaveRange()
    ensures HmsSpanTicks(24, 0, 0) == Ok(TicksPerDay) && TicksPerDay > MaxTicks
    ensures HmsSpanTicks(0, -1, 0) == Ok(-TicksPerMinute) && -TicksPerMinute < MinTicks
    ensures HmsSpanTicks(12, 75, 0) == HmsSpanTicks(13, 15, 0)
    ensures SpanTicks(0, 0, 0, 0, 1000) == Ok(TicksPerSecond)
    ensures HmsSpanTicks(Int32Max, 0, 0).Err?
  {
  }

  /** Reading a tick count built from in-range fields gives the fields back. */
  lemma ClockFieldsRoundTrip(h: int, m: int, s: int, ms: int)
    requires ClockFieldsValid(h, m, s, ms)
    ensures 0 <= FieldTicks(h, m, s, ms) <= MaxTicks
    ensures FieldTicks(h, m, s, ms) % TicksPerMillisecond == 0
    ensures var t := TimeOfDay(FieldTicks(h, m, s, ms));
      Hours24(t) == h && Minutes(t) == m && Seconds(t) == s && Milliseconds(t) == ms
  {
    var q := (h * 3600 + m * 60 + s) * 1000 + ms;
    var x := FieldTicks(h, m, s, ms);
    assert x == q * 10_000;
    assert 0 <= q < 86_400_000;
    assert x / TicksPerMillisecond == q;
    assert q % 1000 == ms && q / 1000 == h * 3600 + m * 60 + s;
    var qs := h * 3600 + m * 60 + s;
    assert x / TicksPerSecond == qs;
    assert qs % 60 == s && qs / 60 == h * 60 + m;
    assert x / TicksPerMinute == h * 60 + m;
    assert (h * 60 + m) % 60 == m;
    assert x / TicksPerHour == h;
  }

  /** The 24-hour constructors with every field range-checked, as the type's documented
      range requires: `new TimeOfDay(hours24, minutes[, seconds[, milliseconds]])`, the
      omitted fields being 0. */
  function FromClock24(hours24: int, minutes: int, seconds: int, milliseconds: int): (r: Result<TimeOfDay>)
    ensures r.Ok? <==> ClockFieldsValid(hours24, minutes, seconds, milliseconds)
    ensures r.Err? ==> r.error == ArgumentOutOfRange
    ensures r.Ok? ==> var t := r.value;
      && t.ticks == hours24 * TicksPerHour + minutes * TicksPerMinute
                    + seconds * TicksPerSecond + milliseconds * TicksPerMillisecond
      && Hours24(t) == hours24 && Minutes(t) == minutes
      && Seconds(t) == seconds && Milliseconds(t) == milliseconds
  {
    if !ClockFieldsValid(hours24, minutes, seconds, milliseconds) then
      Err(ArgumentOutOfRange)
    else
      ClockFieldsRoundTrip(hours24, minutes, seconds, milliseconds);
      Ok(TimeOfDay(FieldTicks(hours24, minutes, seconds, milliseconds)))
  }

  /** Every time of day, truncated to the millisecond, is built from its own fields. */
  lemma FromClock24OfComponents(t: TimeOfDay)
    ensures FromClock24(Hours24(t), Minutes(t), Seconds(t), Milliseconds(t))
         == Ok(TimeOfDay(t.ticks - t.ticks % TicksPerMillisecond))
  {
    ComponentsMakeTicks(t);
  }

  /** `Hours12To24`: the 24-hour hour of a 12-hour reading. */
  function Hours12To24(hours12: int, meridiem: Meridiem): (r: Result<int>)
    ensures r.Ok? <==> 1 <= hours12 <= 12
    ensures r.Err? ==> r.error == ArgumentOutOfRange
    ensures r.Ok? ==> 0 <= r.value <= 23
    ensures r.Ok? ==> (r.value < 12 <==> meridiem == AM)
    ensures r.Ok? ==> r.value % 12 == hours12 % 12
  {
    if hours12 < 1 || hours12 > 12 then
      Err(ArgumentOutOfRange)
    else
      Ok(if meridiem == AM then (if hours12 == 12 then 0 else hours12)
         else (if hours12 == 12 then 12 else hours12 + 12))
  }

  /** A time's own 12-hour reading converts back to its 24-hour hour, and every valid
      12-hour reading is the reading of the hour it converts to. */
  lemma Hours12To24RoundTrip(t: TimeOfDay, hours12: int, meridiem: Meridiem)
    ensures Hours12To24(Hours12(t), MeridiemOf(t)) == Ok(Hours24(t))
    ensures Hours12To24(hours12, meridiem).Ok? ==>
      var h := Hours12To24(hours12, meridiem).value;
      (if h % 12 == 0 then 12 else h % 12) == hours12 && (h < 12 <==> meridiem == AM)
  {
  }

  /** The 12-hour constructors `new TimeOfDay(hours12, minutes[, seconds[, milliseconds]],
      meridiem)`, with every field range-checked. */
  function FromClock12(hours12: int, minutes: int, seconds: int, milliseconds: int, meridiem: Meridiem)
    : (r: Result<TimeOfDay>)
    ensures r.Ok? <==> 1 <= hours12 <= 12 && ClockFieldsValid(0, minutes, seconds, milliseconds)
    ensures r.Err? ==> r.error == ArgumentOutOfRange
    ensures r.Ok? ==>
      && Hours12(r.value) == hours12 && MeridiemOf(r.value) == meridiem
      && Minutes(r.value) == minutes && Seconds(r.value) == seconds
      && Milliseconds(r.value) == milliseconds
  {
    var hours24 :- Hours12To24(hours12, meridiem);
    FromClock24(hours24, minutes, seconds, milliseconds)
  }

  /** The 12-hour form is the 24-hour form at the converted hour: 11:59 PM is 23:59. */
  lemma FromClock12Is24(hours12: int, minutes: int, seconds: int, milliseconds: int, meridiem: Meridiem)
    requires 1 <= hours12 <= 12
    ensures var h := if meridiem == AM then hours12 % 12 else hours12 % 12 + 12;
      FromClock12(hours12, minutes, seconds, milliseconds, meridiem)
      == FromClock24(h, minutes, seconds, milliseconds)
  {
  }

  /** The as-written 12-hour constructors: the hour is checked by Hours12To24, the other
      fields go into the span unchecked, as in the 24-hour constructors. */
  function Clock12TicksAsWritten(hours12: Int32, minutes: Int32, seconds: Int32, milliseconds: Int32,
                                 meridiem: Meridiem): (r: Result<int>)
    ensures !(1 <= hours12 <= 12) ==> r == Err(ArgumentOutOfRange)
    ensures 1 <= hours12 <= 12 ==>
      var h := if meridiem == AM then hours12 % 12 else hours12 % 12 + 12;
      r == SpanTicks(0, h, minutes, seconds, milliseconds)
  {
    var hours24 :- Hours12To24(hours12, meridiem);
    SpanTicks(0, hours24, minutes, seconds, milliseconds)
  }

  /** On in-range fields the as-written constructors and the checked ones agree. */
  lemma ConstructorsAgreeOnValidFields(h: Int32, m: Int32, s: Int32, ms: Int32)
    requires ClockFieldsValid(h, m, s, ms)
    ensures FromClock24(h, m, s, ms).Ok?
    ensures SpanTicks(0, h, m, s, ms) == Ok(FromClock24(h, m, s, ms).value.ticks)
    ensures HmsSpanTicks(h, m, s) == Ok(FromClock24(h, m, s, 0).value.ticks)
  {
    ClockFieldsRoundTrip(h, m, s, ms);
    ClockFieldsRoundTrip(h, m, s, 0);
  }

  // ---------------------------------------------------------------------------------
  // Arithmetic around the clock face

  /** `Add(TimeSpan)` as evidently intended (and as AddTicks and the `+` operator use it):
      the time `span` ticks later, wrapping around midnight in either direction. */
  function Add(t: TimeOfDay, span: Int64): (r: TimeOfDay)
    ensures (r.ticks - t.ticks - span) % TicksPerDay == 0
  {
    TimeOfDay((t.ticks + span) % TicksPerDay)
  }

  /** Two times of day that differ by a whole number of days are the same time. */
  lemma SameTimeModuloDay(a: TimeOfDay, b: TimeOfDay)
    requires (a.ticks - b.ticks) % TicksPerDay == 0
    ensures a == b
  {
    var k := (a.ticks - b.ticks) / TicksPerDay;
    assert a.ticks - b.ticks == k * TicksPerDay;
    assert -TicksPerDay < a.ticks - b.ticks < TicksPerDay;
  }

  /** Whole numbers of days added or taken away are whole numbers of days. */
  lemma WholeDaysSum(p: int, q: int)
    requires p % TicksPerDay == 0 && q % TicksPerDay == 0
    ensures (p + q) % TicksPerDay == 0 && (p - q) % TicksPerDay == 0
  {
    var i, j := p / TicksPerDay, q / TicksPerDay;
    assert p == i * TicksPerDay && q == j * TicksPerDay;
    assert p + q == (i + j) * TicksPerDay;
    assert p - q == (i - j) * TicksPerDay;
  }

  /** Add gives the only time of day a whole number of days from the plain sum. */
  lemma AddIsUnique(t: TimeOfDay, span: Int64, r: TimeOfDay)
    requires (r.ticks - t.ticks - span) % TicksPerDay == 0
    ensures Add(t, span) == r
  {
    var x := Add(t, span);
    WholeDaysSum(x.ticks - t.ticks - span, r.ticks - t.ticks - span);
    SameTimeModuloDay(x, r);
  }

  lemma AddZero(t: TimeOfDay)
    ensures Add(t, 0) == t
  {
  }

  /** Adding two spans one after the other is adding their sum. */
  lemma AddAdd(t: TimeOfDay, a: Int64, b: Int64)
    requires Int64Min <= a + b <= Int64Max
    ensures Add(Add(t, a), b) == Add(t, a + b)
  {
    var x := Add(t, a);
    var r := Add(x, b);
    WholeDaysSum(r.ticks - x.ticks - b, x.ticks - t.ticks - a);
    AddIsUnique(t, a + b, r);
  }

  /** A whole day later is the same time. */
  lemma AddWholeDays(t: TimeOfDay, days: int)
    requires Int64Min <= days * TicksPerDay <= Int64Max
    ensures Add(t, days * TicksPerDay) == t
  {
    assert (t.ticks - t.ticks - days * TicksPerDay) % TicksPerDay == 0;
    AddIsUnique(t, days * TicksPerDay, t);
  }

  /** `Subtract(TimeSpan)` (and SubtractTicks and the `-` operator): Add of the negated span.
      Negating `TimeSpan.MinValue` throws. */
  function Subtract(t: TimeOfDay, span: Int64): (r: Result<TimeOfDay>)
    ensures r.Ok? <==> span != Int64Min
    ensures r.Err? ==> r.error == Overflow
    ensures r.Ok? ==> (r.value.ticks - t.ticks + span) % TicksPerDay == 0
  {
    if span == Int64Min then Err(Overflow) else Ok(Add(t, -span))
  }

  /** Subtracting a span undoes adding it. */
  lemma SubtractUndoesAdd(t: TimeOfDay, span: Int64)
    requires span != Int64Min
    ensures Subtract(Add(t, span), span) == Ok(t)
  {
    var x := Add(t, span);
    assert (t.ticks - x.ticks + span) % TicksPerDay == 0 by {
      WholeDaysSum(0, x.ticks - t.ticks - span);
    }
    AddIsUnique(x, -span, t);
  }

  /** The forward duration from `start` to `end`, going through midnight when `end` is
      earlier on the clock (a member the tests call as `CalculateDuration(start, end)` and
      as `end - start`). */
  function CalculateDuration(start: TimeOfDay, end: TimeOfDay): (d: int)
    ensures 0 <= d < TicksPerDay
    ensures Add(start, d) == end
    ensures d == 0 <==> start == end
  {
    (end.ticks - start.ticks + TicksPerDay) % TicksPerDay
  }

  /** The duration is the only span below a day that leads from start to end. */
  lemma CalculateDurationUnique(start: TimeOfDay, end: TimeOfDay, d: int)
    requires 0 <= d < TicksPerDay && Add(start, d) == end
    ensures d == CalculateDuration(start, end)
  {
    var e := CalculateDuration(start, end);
    WholeDaysSum(end.ticks - start.ticks - e, end.ticks - start.ticks - d);
    var k := (d - e) / TicksPerDay;
    assert d - e == k * TicksPerDay;
  }

  /** The duration without wrapping when `end` is not earlier, and through midnight
      otherwise. */
  lemma DurationCases(start: TimeOfDay, end: TimeOfDay)
    ensures start.ticks <= end.ticks ==> CalculateDuration(start, end) == end.ticks - start.ticks
    ensures end.ticks < start.ticks ==>
      CalculateDuration(start, end) == end.ticks - start.ticks + TicksPerDay
  {
  }

  /** Whether `t` falls in the range from `start` (inclusive) to `end` (exclusive), the range
      crossing midnight when `end` is earlier than `start` (a member the tests call
      `IsBetween`). A range whose ends are equal is empty. */
  predicate IsBetween(t: TimeOfDay, start: TimeOfDay, end: TimeOfDay)
    ensures IsBetween(t, start, end) <==> CalculateDuration(start, t) < CalculateDuration(start, end)
  {
    DurationCases(start, t);
    DurationCases(start, end);
    if start.ticks <= end.ticks then start.ticks <= t.ticks < end.ticks
    else t.ticks >= start.ticks || t.ticks < end.ticks
  }

  /** The start of a non-empty range is inside it; its end never is. */
  lemma IsBetweenEnds(start: TimeOfDay, end: TimeOfDay)
    ensures IsBetween(start, start, end) <==> start != end
    ensures !IsBetween(end, start, end)
  {
  }

  /** `operator TimeOfDay(TimeSpan)`: a span of less than a day, not negative. */
  function FromTimeSpan(span: Int64): (r: Result<TimeOfDay>)
    ensures r.Ok? <==> 0 <= span < TicksPerDay
    ensures r.Err? ==> r.error == ArgumentOutOfRange
    ensures r.Ok? ==> r.value.ticks == span
    ensures r == FromTicks(span)
  {
    if span < 0 || span >= TicksPerDay then Err(ArgumentOutOfRange) else FromTicks(span)
  }

  /** `Equals(TimeOfDay)` and the `==` operator; `!=` is its negation. */
  predicate Equals(a: TimeOfDay, b: TimeOfDay)
    ensures Equals(a, b) <==> a == b
  {
    a.ticks == b.ticks
  }

  // ---------------------------------------------------------------------------------
  // The values the tests pin down

  lemma ExampleValues()
    ensures MaxValue == FromTicks(863_999_999_999).value
    ensures FromClock24(23, 59, 0, 0).value.ticks == 23 * TicksPerHour + 59 * TicksPerMinute
    ensures FromClock12(11, 59, 0, 0, PM) == FromClock24(23, 59, 0, 0)
    ensures FromClock12(11, 59, 59, 59, PM) == FromClock24(23, 59, 59, 59)
    ensures var t := FromClock24(0, 0, 0, 0).value; Hours12(t) == 12 && MeridiemOf(t) == AM
    ensures var t := FromClock24(12, 0, 0, 0).value; Hours12(t) == 12 && MeridiemOf(t) == PM
    ensures var t := FromClock24(13, 0, 0, 0).value; Hours12(t) == 1 && MeridiemOf(t) == PM
    ensures Add(FromClock24(12, 0, 0, 0).value, 13 * TicksPerHour) == FromClock24(1, 0, 0, 0).value
    ensures Add(FromClock24(12, 0, 0, 0).value, -13 * TicksPerHour) == FromClock24(23, 0, 0, 0).value
    ensures CalculateDuration(FromClock24(23, 0, 0, 0).value, FromClock24(1, 0, 0, 0).value) == 2 * TicksPerHour
    ensures var ten, noon := FromClock24(10, 0, 0, 0).value, FromClock24(12, 0, 0, 0).value;
      IsBetween(ten, ten, noon) && !IsBetween(FromClock24(9, 0, 0, 0).value, ten, noon) && !IsBetween(noon, ten, noon)
    ensures var eleven, one := FromClock24(23, 0, 0, 0).value, FromClock24(1, 0, 0, 0).value;
      IsBetween(eleven, eleven, one) && !IsBetween(FromClock24(22, 0, 0, 0).value, eleven, one) && !IsBetween(one, eleven, one)
  {
    FromClock12Is24(11, 59, 0, 0, PM);
    FromClock12Is24(11, 59, 59, 59, PM);
  }
}
