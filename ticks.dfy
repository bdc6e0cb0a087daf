/** The .NET DateTime/TimeSpan representation shared by every part of the library:
    a DateTime is a count of 100-nanosecond ticks since 0001-01-01T00:00:00
    (proleptic Gregorian calendar), a TimeSpan a signed 64-bit tick count. */
module Ticks {

  const TicksPerSecond: int := 10_000_000
  const TicksPerMinute: int := 600_000_000
  const TicksPerHour: int := 36_000_000_000
  const TicksPerDay: int := 864_000_000_000

  /** DateTime.MaxValue.Ticks: the last tick of 9999-12-31. */
  const MaxTicks: int := 3_155_378_975_999_999_999
  /** The first tick of 9999-12-31, the last day a DateTime can hold. */
  const LastDayTicks: int := MaxTicks + 1 - TicksPerDay

  const MinLong: int := -0x8000_0000_0000_0000
  const MaxLong: int := 0x7FFF_FFFF_FFFF_FFFF

  type DateTime = t: int | 0 <= t <= MaxTicks
  type TimeSpan = t: int | MinLong <= t <= MaxLong

  /** The exceptions the library lets escape to its callers. */
  datatype Error =
    | ArgumentError        // ArgumentException: null or empty input string
    | FormatError          // FormatException from double.Parse
    | ArgumentOutOfRange   // ArgumentOutOfRangeException: a DateTime outside 0001..9999

  datatype Result<T> = Success(value: T) | Failure(error: Error)

  datatype Option<T> = None | Some(value: T)

  /** C#'s integer division, which truncates toward zero (Dafny's `/` is Euclidean). */
  function TruncDiv(a: int, b: int): (q: int)
    requires b > 0
    ensures 0 <= a ==> 0 <= q && q * b <= a < q * b + b
    ensures a < 0 ==> q <= 0 && q * b - b < a <= q * b
  {
    if a >= 0 then a / b else -((-a) / b)
  }

  /** C#'s remainder operator: the sign follows the dividend. */
  function TruncRem(a: int, b: int): (r: int)
    requires b > 0
    ensures a == TruncDiv(a, b) * b + r
    ensures 0 <= a ==> 0 <= r < b
    ensures a < 0 ==> -b < r <= 0
  {
    a - TruncDiv(a, b) * b
  }

  /** TimeSpan.Days: whole days, truncated toward zero. */
  function SpanDays(ts: int): int {
    TruncDiv(ts, TicksPerDay)
  }

  /** TimeSpan.Hours: (ticks / TicksPerHour) % 24 with C# operators. */
  function SpanHours(ts: int): int {
    TruncRem(TruncDiv(ts, TicksPerHour), 24)
  }

  /** TimeSpan.Minutes: (ticks / TicksPerMinute) % 60 with C# operators. */
  function SpanMinutes(ts: int): int {
    TruncRem(TruncDiv(ts, TicksPerMinute), 60)
  }

  /** The components of a span recompose it: 25 hours is 1 day and 1 hour, and a negative
      span has non-positive components whose magnitudes are those of its negation. */
  lemma SpanComponents(ts: int)
    ensures var rest := ts - SpanDays(ts) * TicksPerDay - SpanHours(ts) * TicksPerHour
                           - SpanMinutes(ts) * TicksPerMinute;
      && (0 <= ts ==> 0 <= SpanDays(ts) && 0 <= SpanHours(ts) < 24
                      && 0 <= SpanMinutes(ts) < 60 && 0 <= rest < TicksPerMinute)
      && (ts < 0 ==> SpanDays(ts) <= 0 && -24 < SpanHours(ts) <= 0
                     && -60 < SpanMinutes(ts) <= 0 && -TicksPerMinute < rest <= 0)
  {
    var h := TruncDiv(ts, TicksPerHour);
    var m := TruncDiv(ts, TicksPerMinute);
    if ts >= 0 {
      assert h == ts / TicksPerHour && m == ts / TicksPerMinute;
      SpanStepNonNegative(ts);
    } else {
      assert h == -((-ts) / TicksPerHour) && m == -((-ts) / TicksPerMinute);
      SpanStepNonNegative(-ts);
    }
  }

  /** The day/hour/minute split of a non-negative tick count. */
  lemma SpanStepNonNegative(x: int)
    requires 0 <= x
    ensures x / TicksPerHour / 24 == x / TicksPerDay
    ensures x / TicksPerMinute / 60 == x / TicksPerHour
    ensures x == (x / TicksPerDay) * TicksPerDay + (x / TicksPerHour % 24) * TicksPerHour
                 + (x / TicksPerMinute % 60) * TicksPerMinute + x % TicksPerMinute
  {
    var mm := x / TicksPerMinute;
    var hh := mm / 60;
    var dd := hh / 24;
    assert x == mm * TicksPerMinute + x % TicksPerMinute;
    assert mm == hh * 60 + mm % 60;
    assert hh == dd * 24 + hh % 24;
    assert x == dd * TicksPerDay + (hh % 24) * TicksPerHour + (mm % 60) * TicksPerMinute + x % TicksPerMinute;
    assert x / TicksPerHour == hh;
    assert x / TicksPerDay == dd;
  }

  /** DateTime.Date: the midnight that starts the instant's day. */
  function Date(t: DateTime): (d: DateTime)
    ensures d <= t < d + TicksPerDay && d % TicksPerDay == 0
  {
    t - t % TicksPerDay
  }

  predicate IsMidnight(t: int) {
    t % TicksPerDay == 0
  }

  /** DateTime.AddDays with a whole number of days: throws ArgumentOutOfRangeException when
      the result leaves the representable range. */
  function AddDays(t: DateTime, days: int): (r: Result<DateTime>)
    ensures r.Success? <==> 0 <= t + days * TicksPerDay <= MaxTicks
    ensures r.Success? ==> r.value - t == days * TicksPerDay
  {
    var u := t + days * TicksPerDay;
    if 0 <= u <= MaxTicks then Success(u) else Failure(ArgumentOutOfRange)
  }

  /** DateTime - DateTime, guarded the way the relative-time formatter guards it: a TimeSpan
      holds a 64-bit tick count, so a difference outside that range would be the only failure. */
  function TrySubtract(a: int, b: int): Option<TimeSpan> {
    if MinLong <= a - b <= MaxLong then Some(a - b) else None
  }

  /** Subtracting two DateTimes never leaves the TimeSpan range, so the formatter's
      fallback to the reverse subtraction is unreachable. */
  lemma SubtractNeverFails(a: DateTime, b: DateTime)
    ensures TrySubtract(a, b) == Some(a - b)
  {
  }
}
