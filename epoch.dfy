/** Unix time: whole seconds since 1970-01-01T00:00:00 UTC, every day counted as exactly
    86400 seconds (no leap seconds), as in section 4.16 of the POSIX.1-2017 Base Definitions. */
module Epoch {
  import opened Ticks
  import opened Calendar
  import opened Text
  import opened Binary64

  /** Ticks of 1970-01-01T00:00:00, the library's `unixStart`. */
  const UnixEpochTicks: int := 621_355_968_000_000_000

  /** The whole seconds, relative to the epoch, of the first and last whole second a
      DateTime can hold (0001-01-01T00:00:00 and 9999-12-31T23:59:59). */
  const MinUnixSeconds: int := -62_135_596_800
  const MaxUnixSeconds: int := 253_402_300_799

  lemma UnixEpochIs1970()
    ensures Compose(DateParts(1970, 1, 1, 0, 0, 0, 0)) == UnixEpochTicks
    ensures Decompose(UnixEpochTicks) == DateParts(1970, 1, 1, 0, 0, 0, 0)
  {
    DecomposeCompose(DateParts(1970, 1, 1, 0, 0, 0, 0));
  }

  /** The largest second count whose tick count n * 10^7 = (n * 78125) * 2^7 a binary64 value
      holds exactly, that is, with n * 78125 below 2^53. It falls in the year 5623. */
  const ExactSecondsBound: int := 115_292_150_460

  /** The tick count of a whole number of seconds as the library computes it: the seconds
      (a double) times TicksPerSecond in binary64 arithmetic, rounded to nearest, then cast to a
      64-bit integer. The rounded product is already whole, so the cast changes nothing within
      the DateTime range; outside it every outcome of the cast, and of the 64-bit sum after it,
      is refused by the DateTime constructor just as the unbounded value here is. */
  function DoubleTicks(seconds: int): (t: int)
    ensures seconds < 0 ==> t <= 0
    ensures 0 <= seconds ==> 0 <= t
  {
    var magnitude: nat := if seconds < 0 then -seconds else seconds;
    var rounded: int := RoundToDouble(magnitude * TicksPerSecond);
    if seconds < 0 then -rounded else rounded
  }

  /** Up to ExactSecondsBound either way the binary64 product is exact. */
  lemma DoubleTicksExact(n: int)
    requires -ExactSecondsBound <= n <= ExactSecondsBound
    ensures DoubleTicks(n) == n * TicksPerSecond
  {
    Pow2Values();
    var m := if n < 0 then -n else n;
    assert m * TicksPerSecond == (m * 78125) * 128;
    DivModUnique(m * TicksPerSecond, 128, m * 78125, 0);
    ExactWhenMultiple(m * TicksPerSecond, 7);
  }

  /** Up to the last second a DateTime holds, the product is off by at most 256 ticks. */
  lemma DoubleTicksNear(n: int)
    requires 0 <= n <= MaxUnixSeconds
    ensures -256 <= DoubleTicks(n) - n * TicksPerSecond <= 256
  {
    Pow2Values();
    RoundNear(n * TicksPerSecond, 9);
  }

  /** One second past the last second a DateTime holds, and every count beyond it, stays
      past the end of the range after rounding. */
  lemma DoubleTicksBeyondMax(n: int)
    requires MaxUnixSeconds < n
    ensures MaxTicks < UnixEpochTicks + DoubleTicks(n)
  {
    Pow2Values();
    var x := n * TicksPerSecond;
    if n == MaxUnixSeconds + 1 {
      DivModUnique(x, 512, 4_949_263_687_500_000, 0);
      ExactWhenMultiple(x, 9);
    } else {
      RoundRelative(x);
      BeyondByRelativeError(x, RoundToDouble(x), MaxTicks - UnixEpochTicks, (MaxUnixSeconds + 2) * TicksPerSecond);
    }
  }

  /** One second before the first second a DateTime holds, and every count below it, stays
      before the start of the range after rounding. */
  lemma DoubleTicksBeforeMin(n: int)
    requires n < MinUnixSeconds
    ensures UnixEpochTicks + DoubleTicks(n) < 0
  {
    var x := -n * TicksPerSecond;
    RoundRelative(x);
    BeyondByRelativeError(x, RoundToDouble(x), UnixEpochTicks, (-MinUnixSeconds + 1) * TicksPerSecond);
  }

  /** A value at least `low` moved by at most 1 / 2^53 of itself stays above `limit` when
      `low` exceeds `limit` by more than that share. */
  lemma BeyondByRelativeError(x: int, r: int, limit: int, low: int)
    requires 0 <= limit && limit + 1_000_000 <= low <= x
    requires low <= limit * 2 && limit < 0x4000_0000_0000_0000
    requires (x - r) * SignificandLimit <= x
    ensures limit < r
  {
    var k := SignificandLimit;
    assert limit * k < low * (k - 1);
    assert low * (k - 1) <= x * (k - 1);
    assert x * (k - 1) == x * k - x;
    assert x * k - x <= x * k - (x - r) * k == r * k;
    assert limit * k < r * k;
  }

  /** The conversion as the library writes it: the seconds times 10^7 rounded to binary64 and
      cut to a whole number of ticks, added to the epoch, then made a DateTime, which throws ArgumentOutOfRangeException outside the
      range. It succeeds for exactly the counts a DateTime can hold; the result is within 256
      ticks of the exact instant, and is exactly it up to ExactSecondsBound. */
  function FromDoubleSeconds(seconds: int): (r: Result<DateTime>)
    ensures r.Success? <==> MinUnixSeconds <= seconds <= MaxUnixSeconds
    ensures r.Failure? ==> r.error == ArgumentOutOfRange
    ensures r.Success? ==> -256 <= r.value - (UnixEpochTicks + seconds * TicksPerSecond) <= 256
    ensures r.Success? && seconds <= ExactSecondsBound ==> r.value == UnixEpochTicks + seconds * TicksPerSecond
  {
    var ticks := UnixEpochTicks + DoubleTicks(seconds);
    if seconds < MinUnixSeconds then
      DoubleTicksBeforeMin(seconds);
      Failure(ArgumentOutOfRange)
    else if MaxUnixSeconds < seconds then
      DoubleTicksBeyondMax(seconds);
      Failure(ArgumentOutOfRange)
    else if seconds <= ExactSecondsBound then
      DoubleTicksExact(seconds);
      Success(ticks)
    else
      DoubleTicksNear(seconds);
      Success(ticks)
  }

  /** The conversion the library evidently intends: exactly `seconds` whole seconds after the
      epoch, or ArgumentOutOfRangeException when no DateTime lies there. */
  function FromUnixSeconds(seconds: int): (r: Result<DateTime>)
    ensures r.Success? <==> MinUnixSeconds <= seconds <= MaxUnixSeconds
    ensures r.Failure? ==> r.error == ArgumentOutOfRange
    ensures r.Success? ==> r.value % TicksPerSecond == 0
  {
    var ticks := UnixEpochTicks + seconds * TicksPerSecond;
    if 0 <= ticks <= MaxTicks then Success(ticks) else Failure(ArgumentOutOfRange)
  }

  /** Whole seconds since the epoch, truncated toward zero by the 64-bit division, so
      instants before the epoch round up. */
  function UnixSeconds(t: DateTime): (s: int)
    ensures UnixEpochTicks <= t ==> 0 <= t - UnixEpochTicks - s * TicksPerSecond < TicksPerSecond
    ensures t < UnixEpochTicks ==> -TicksPerSecond < t - UnixEpochTicks - s * TicksPerSecond <= 0
    ensures MinUnixSeconds <= s <= MaxUnixSeconds
  {
    TruncDiv(t - UnixEpochTicks, TicksPerSecond)
  }

  /** With the exact conversion, converting n seconds to a DateTime and back gives n, for
      every n a DateTime can hold. */
  lemma SecondsRoundTrip(n: int)
    requires MinUnixSeconds <= n <= MaxUnixSeconds
    ensures FromUnixSeconds(n).Success? && UnixSeconds(FromUnixSeconds(n).value) == n
  {
    var t := UnixEpochTicks + n * TicksPerSecond;
    var s := UnixSeconds(t);
    if t >= UnixEpochTicks {
      assert 0 <= (n - s) * TicksPerSecond < TicksPerSecond;
    } else {
      assert -TicksPerSecond < (n - s) * TicksPerSecond <= 0;
    }
  }

  /** With the exact conversion, a DateTime on a whole second survives the trip through
      Unix seconds unchanged. */
  lemma InstantRoundTrip(t: DateTime)
    requires t % TicksPerSecond == 0
    ensures FromUnixSeconds(UnixSeconds(t)) == Success(t)
  {
    var s := UnixSeconds(t);
    var d := t - UnixEpochTicks - s * TicksPerSecond;
    assert d % TicksPerSecond == 0;
  }

  /** The two conversions agree up to ExactSecondsBound. */
  lemma DoubleAgreesWithExact(n: int)
    requires n <= ExactSecondsBound
    ensures FromDoubleSeconds(n) == FromUnixSeconds(n)
  {
  }

  /** As the library writes it, a DateTime on a whole second survives the trip through Unix
      seconds within 256 ticks, and unchanged up to ExactSecondsBound seconds after the epoch. */
  lemma InstantDoubleRoundTrip(t: DateTime)
    requires t % TicksPerSecond == 0
    ensures FromDoubleSeconds(UnixSeconds(t)).Success?
    ensures -256 <= FromDoubleSeconds(UnixSeconds(t)).value - t <= 256
    ensures t <= UnixEpochTicks + ExactSecondsBound * TicksPerSecond ==> FromDoubleSeconds(UnixSeconds(t)) == Success(t)
  {
    InstantRoundTrip(t);
    if t <= UnixEpochTicks + ExactSecondsBound * TicksPerSecond {
      DoubleAgreesWithExact(UnixSeconds(t));
    }
  }

  /** As the library writes it, converting n seconds to a DateTime and back gives n up to
      ExactSecondsBound; beyond it, n exactly when the binary64 product did not round down,
      and n - 1 otherwise. */
  lemma DoubleSecondsRoundTrip(n: int)
    requires MinUnixSeconds <= n <= MaxUnixSeconds
    ensures FromDoubleSeconds(n).Success?
    ensures var s := UnixSeconds(FromDoubleSeconds(n).value);
      && (s == n <==> n * TicksPerSecond <= DoubleTicks(n))
      && (s == n || s == n - 1)
      && (n <= ExactSecondsBound ==> s == n)
  {
    if n <= ExactSecondsBound {
      DoubleAgreesWithExact(n);
      SecondsRoundTrip(n);
      DoubleTicksExact(n);
    } else {
      DoubleTicksNear(n);
      var d := DoubleTicks(n);
      var s := UnixSeconds(UnixEpochTicks + d);
      assert 0 <= d - s * TicksPerSecond < TicksPerSecond;
      if n * TicksPerSecond <= d {
        assert 0 <= (n - s) * TicksPerSecond < TicksPerSecond;
      } else {
        assert 0 < (n - s) * TicksPerSecond < 2 * TicksPerSecond;
        assert (n - s - 1) * TicksPerSecond < TicksPerSecond;
      }
    }
  }

  /** The first count past ExactSecondsBound loses a second: its product with 10^7 lies
      exactly halfway between two binary64 values 256 apart and rounds to the even one below,
      128 ticks early, which reads back as the second before. */
  lemma DoubleProductLosesSecond()
    ensures DoubleTicks(ExactSecondsBound + 1) == (ExactSecondsBound + 1) * TicksPerSecond - 128
    ensures FromDoubleSeconds(ExactSecondsBound + 1).Success?
    ensures UnixSeconds(FromDoubleSeconds(ExactSecondsBound + 1).value) == ExactSecondsBound
  {
    Pow2Values();
    var x := (ExactSecondsBound + 1) * TicksPerSecond;
    SpacingBelow(x, 8);
    SpacingAbove(x, 7);
    assert Spacing(x) == 256;
    DivModUnique(x, 256, 4_503_599_627_382_812, 128);
    DoubleSecondsRoundTrip(ExactSecondsBound + 1);
  }

  /** Half a second before the epoch is second 0, not -1: the division truncates toward zero. */
  lemma HalfSecondBeforeEpoch()
    ensures UnixSeconds(UnixEpochTicks - TicksPerSecond / 2) == 0
    ensures UnixSeconds(UnixEpochTicks - 3 * TicksPerSecond / 2) == -1
  {
  }

  /** The string overloads: the empty string is refused by the caller's own check, text
      that is not a number makes double.Parse throw a FormatException, and a number goes
      through the conversion as the library writes it. */
  function ParseUnixSeconds(text: string): (r: Result<DateTime>)
    ensures text == "" ==> r == Failure(ArgumentError)
    ensures text != "" && ParseInteger(text).None? ==> r == Failure(FormatError)
    ensures ParseInteger(text).Some? ==> r == FromDoubleSeconds(ParseInteger(text).value)
  {
    if text == "" then Failure(ArgumentError)
    else match ParseInteger(text)
      case None => Failure(FormatError)
      case Some(n) => FromDoubleSeconds(n)
  }

  /** The decimal text of the Unix seconds of an instant. */
  function UnixTimestampText(t: DateTime): (s: string)
    ensures ParseInteger(s) == Some(UnixSeconds(t))
  {
    ParseIntToString(UnixSeconds(t));
    IntToString(UnixSeconds(t))
  }

  /** The instant n seconds after the epoch renders as the text of n, and that text parses
      back to the library's conversion of n, which is the same instant up to
      ExactSecondsBound. */
  lemma TextRoundTrip(n: int)
    requires MinUnixSeconds <= n <= MaxUnixSeconds
    ensures FromUnixSeconds(n).Success?
    ensures UnixTimestampText(FromUnixSeconds(n).value) == IntToString(n)
    ensures ParseUnixSeconds(IntToString(n)) == FromDoubleSeconds(n)
    ensures n <= ExactSecondsBound ==> ParseUnixSeconds(IntToString(n)) == FromUnixSeconds(n)
  {
    SecondsRoundTrip(n);
    ParseIntToString(n);
    if n <= ExactSecondsBound {
      DoubleAgreesWithExact(n);
    }
  }
}
