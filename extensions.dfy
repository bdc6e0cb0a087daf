/** The DateTimeExtensions extension methods of the desktop library: Unix-time parsing and
    rendering on a DateTime receiver, and the relative-time formatter. */
module DateTimeExtensions {
  import opened Ticks
  import opened Text
  import opened Epoch
  import RelativeTime

  /** Parse(this DateTime dt, double) for a whole number of seconds, with the binary64
      product of the source. The receiver `dt` is not read: the answer is an instant within
      256 ticks of that many seconds after the epoch, exactly it up to ExactSecondsBound, or
      ArgumentOutOfRangeException. */
  function Parse(dt: DateTime, unixTimeStamp: int): (r: Result<DateTime>)
    ensures r.Success? <==> MinUnixSeconds <= unixTimeStamp <= MaxUnixSeconds
    ensures r.Failure? ==> r.error == ArgumentOutOfRange
    ensures r.Success? ==> -256 <= r.value - (UnixEpochTicks + unixTimeStamp * TicksPerSecond) <= 256
    ensures r.Success? && unixTimeStamp <= ExactSecondsBound ==>
      r.value % TicksPerSecond == 0 && UnixSeconds(r.value) == unixTimeStamp
  {
    if MinUnixSeconds <= unixTimeStamp <= ExactSecondsBound then
      DoubleAgreesWithExact(unixTimeStamp);
      SecondsRoundTrip(unixTimeStamp);
      FromDoubleSeconds(unixTimeStamp)
    else FromDoubleSeconds(unixTimeStamp)
  }

  /** The receiver plays no part in Parse. */
  lemma ParseIgnoresReceiver(dt1: DateTime, dt2: DateTime, unixTimeStamp: int)
    ensures Parse(dt1, unixTimeStamp) == Parse(dt2, unixTimeStamp)
  {
  }

  /** Parse(this DateTime dt, string): ArgumentException for an empty string, then
      double.Parse (FormatException for text that is not a number), then Parse(double). */
  function ParseText(dt: DateTime, unixTimeStamp: string): (r: Result<DateTime>)
    ensures unixTimeStamp == "" ==> r == Failure(ArgumentError)
    ensures unixTimeStamp != "" && ParseInteger(unixTimeStamp).None? ==> r == Failure(FormatError)
    ensures ParseInteger(unixTimeStamp).Some? ==> r == Parse(dt, ParseInteger(unixTimeStamp).value)
  {
    if unixTimeStamp == "" then Failure(ArgumentError)
    else match ParseInteger(unixTimeStamp)
      case None => Failure(FormatError)
      case Some(n) => Parse(dt, n)
  }

  /** ToUnixTimeStamp: the whole seconds since the epoch, truncated toward zero, as text. */
  function ToUnixTimeStamp(dateTime: DateTime): (s: string)
    ensures ParseInteger(s) == Some(UnixSeconds(dateTime))
  {
    UnixTimestampText(dateTime)
  }

  /** A DateTime on a whole second, rendered by ToUnixTimeStamp and parsed back on any
      receiver, comes back within 256 ticks, and unchanged up to ExactSecondsBound seconds
      after the epoch. */
  lemma ParseToUnixTimeStamp(dt: DateTime, dateTime: DateTime)
    requires dateTime % TicksPerSecond == 0
    ensures ParseText(dt, ToUnixTimeStamp(dateTime)).Success?
    ensures -256 <= ParseText(dt, ToUnixTimeStamp(dateTime)).value - dateTime <= 256
    ensures dateTime <= UnixEpochTicks + ExactSecondsBound * TicksPerSecond ==>
      ParseText(dt, ToUnixTimeStamp(dateTime)) == Success(dateTime)
  {
    InstantDoubleRoundTrip(dateTime);
    assert ToUnixTimeStamp(dateTime) != "";
  }

  /** ToFormatedDateTimeString with DateTime.UtcNow read as `now`: the shared relative-time
      text, never the catch block's "". */
  function ToFormatedDateTimeString(now: DateTime, dateTime: DateTime): (r: string)
    ensures r == RelativeTime.Format(now, dateTime) && r != ""
  {
    RelativeTime.Format(now, dateTime)
  }
}
