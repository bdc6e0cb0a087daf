/** The DateTimeHelper static class: Unix-time conversions, the difference between two
    dates as text, the days of a date range, and the relative-time formatter with the
    clock reading passed in as `now`. */
module DateTimeHelper {
  import opened Ticks
  import opened Text
  import opened Epoch
  import RelativeTime

  /** UnixTimeStampToDateTime for a whole number of seconds, with the binary64 product of the
      source: ArgumentOutOfRangeException outside the DateTime range, otherwise an instant
      that reads back as the same count up to ExactSecondsBound and at most one second less
      beyond it. */
  function UnixTimeStampToDateTime(seconds: int): (r: Result<DateTime>)
    ensures r.Success? <==> MinUnixSeconds <= seconds <= MaxUnixSeconds
    ensures r.Failure? ==> r.error == ArgumentOutOfRange
    ensures r.Success? ==> -256 <= r.value - (UnixEpochTicks + seconds * TicksPerSecond) <= 256
    ensures r.Success? ==> UnixSeconds(r.value) == seconds || UnixSeconds(r.value) == seconds - 1
    ensures r.Success? && seconds <= ExactSecondsBound ==> UnixSeconds(r.value) == seconds
  {
    if MinUnixSeconds <= seconds <= MaxUnixSeconds then
      DoubleSecondsRoundTrip(seconds);
      FromDoubleSeconds(seconds)
    else FromDoubleSeconds(seconds)
  }

  /** DateTimeToUnixTimeStamp: the whole seconds since the epoch, truncated toward zero,
      as invariant-culture decimal text. */
  function DateTimeToUnixTimeStamp(dateTime: DateTime): (s: string)
    ensures ParseInteger(s) == Some(UnixSeconds(dateTime))
  {
    UnixTimestampText(dateTime)
  }

  /** Converting n seconds to a DateTime and back to text yields the decimal text of n up to
      ExactSecondsBound, and beyond it the text of n or of n - 1. */
  lemma UnixTimeStampRoundTrip(n: int)
    requires MinUnixSeconds <= n <= MaxUnixSeconds
    ensures UnixTimeStampToDateTime(n).Success?
    ensures var text := DateTimeToUnixTimeStamp(UnixTimeStampToDateTime(n).value);
      && (text == IntToString(n) || text == IntToString(n - 1))
      && (n <= ExactSecondsBound ==> text == IntToString(n))
  {
    DoubleSecondsRoundTrip(n);
  }

  /** The first count past ExactSecondsBound comes back one second short. */
  lemma UnixTimeStampLosesSecond()
    ensures UnixTimeStampToDateTime(ExactSecondsBound + 1).Success?
    ensures DateTimeToUnixTimeStamp(UnixTimeStampToDateTime(ExactSecondsBound + 1).value)
            == IntToString(ExactSecondsBound)
  {
    DoubleProductLosesSecond();
  }

  /** Sub-second ticks are dropped toward zero: half a second before the epoch is "0",
      one and a half seconds before it "-1". */
  lemma UnixTimeStampTruncates()
    ensures DateTimeToUnixTimeStamp(UnixEpochTicks - TicksPerSecond / 2) == "0"
    ensures DateTimeToUnixTimeStamp(UnixEpochTicks - 3 * TicksPerSecond / 2) == "-1"
  {
    HalfSecondBeforeEpoch();
    assert NatToString(0) == [DigitChar(0)] && NatToString(1) == [DigitChar(1)];
  }

  /** GetDifferenceBetweenDates: "Unknown" exactly when date1 is earlier; otherwise the span
      date1 - date2 as "<m>  minutes" (two spaces) when its hour component is 0, as
      "<h> hours, <m> minutes" under a day, and as "<d> days" beyond. */
  function GetDifferenceBetweenDates(date1: DateTime, date2: DateTime): (r: string)
    ensures r == "Unknown" <==> date1 < date2
  {
    if date1 >= date2 then
      var ts := date1 - date2;
      var text :=
        if SpanDays(ts) == 0 then
          if SpanHours(ts) == 0 then IntToString(SpanMinutes(ts)) + "  minutes"
          else IntToString(SpanHours(ts)) + " hours, " + IntToString(SpanMinutes(ts)) + " minutes"
        else if SpanHours(ts) == 0 then IntToString(SpanMinutes(ts)) + "  minutes"
        else IntToString(SpanDays(ts)) + " days";
      assert text[|text| - 1] == 's';
      text
    else "Unknown"
  }

  /** Under an hour: the whole minutes elapsed, "<m>  minutes". */
  lemma DifferenceWithinHour(date1: DateTime, date2: DateTime)
    requires 0 <= date1 - date2 < TicksPerHour
    ensures GetDifferenceBetweenDates(date1, date2) ==
      IntToString((date1 - date2) / TicksPerMinute) + "  minutes"
  {
    SpanStepNonNegative(date1 - date2);
  }

  /** From one hour to under a day: the whole hours and the remaining whole minutes. */
  lemma DifferenceWithinDay(date1: DateTime, date2: DateTime)
    requires TicksPerHour <= date1 - date2 < TicksPerDay
    ensures var ts := date1 - date2;
      GetDifferenceBetweenDates(date1, date2) ==
        IntToString(ts / TicksPerHour) + " hours, " + IntToString(ts / TicksPerMinute % 60) + " minutes"
  {
    SpanStepNonNegative(date1 - date2);
  }

  /** A day or more: the whole days, except that a span whose hour component is 0 is
      reported by its minute component alone (two days and five minutes reads "5  minutes"). */
  lemma DifferenceBeyondDay(date1: DateTime, date2: DateTime)
    requires TicksPerDay <= date1 - date2
    ensures var ts := date1 - date2;
      GetDifferenceBetweenDates(date1, date2) ==
        if ts / TicksPerHour % 24 == 0 then IntToString(ts / TicksPerMinute % 60) + "  minutes"
        else IntToString(ts / TicksPerDay) + " days"
  {
    SpanStepNonNegative(date1 - date2);
  }

  /** The number of days EachDay yields: the whole days from startDate's midnight through
      endDate's, none when endDate falls on an earlier day. */
  function DayCount(startDate: DateTime, endDate: DateTime): nat {
    if Date(endDate) < Date(startDate) then 0
    else (Date(endDate) - Date(startDate)) / TicksPerDay + 1
  }

  /** EachDay, enumerated to the end: starting from the midnight of startDate, it yields each
      day and steps one day on, for as long as the day's date is not after endDate's date.
      `raised` tells whether the enumeration ends by throwing: once 9999-12-31 is yielded, the
      step of one day raises ArgumentOutOfRangeException. */
  method EachDay(startDate: DateTime, endDate: DateTime) returns (days: seq<DateTime>, raised: bool)
    ensures |days| == DayCount(startDate, endDate)
    ensures forall k :: 0 <= k < |days| ==> days[k] == Date(startDate) + k * TicksPerDay
    ensures forall k :: 0 <= k < |days| ==> IsMidnight(days[k])
    ensures forall k :: 0 < k < |days| ==> days[k] - days[k - 1] == TicksPerDay
    ensures |days| == 0 <==> Date(endDate) < Date(startDate)
    ensures |days| > 0 ==> days[0] == Date(startDate) && days[|days| - 1] == Date(endDate)
    ensures raised <==> |days| > 0 && Date(endDate) == LastDayTicks
  {
    days := [];
    raised := false;
    var day: DateTime := Date(startDate);
    while Date(day) <= Date(endDate)
      invariant Date(startDate) <= day && IsMidnight(day)
      invariant days != [] ==> day <= Date(endDate) + TicksPerDay
      invariant |days| * TicksPerDay == day - Date(startDate)
      invariant forall k :: 0 <= k < |days| ==> days[k] == Date(startDate) + k * TicksPerDay
      invariant !raised
      decreases Date(endDate) - day
    {
      days := days + [day];
      match AddDays(day, 1)
      case Failure(_) =>
        raised := true;
        return;
      case Success(next) =>
        day := next;
    }
  }

  /** GetFormatedDateTimeString(DateTime) with DateTime.UtcNow read as `now`: the shared
      relative-time text, never the catch block's "". */
  function GetFormatedDateTimeString(now: DateTime, dateTime: DateTime): (r: string)
    ensures r == RelativeTime.Format(now, dateTime) && r != ""
  {
    RelativeTime.Format(now, dateTime)
  }

  /** GetFormatedDateTimeString(string): the null-or-empty check and the parse sit outside
      the try/catch, so their exceptions escape instead of becoming "". */
  function GetFormatedDateTimeStringOfText(now: DateTime, unixTimestamp: string): (r: Result<string>)
    ensures unixTimestamp == "" ==> r == Failure(ArgumentError)
    ensures unixTimestamp != "" && ParseInteger(unixTimestamp).None? ==> r == Failure(FormatError)
    ensures r.Success? <==>
      ParseInteger(unixTimestamp).Some?
      && MinUnixSeconds <= ParseInteger(unixTimestamp).value <= MaxUnixSeconds
    ensures r.Success? ==>
      r.value == GetFormatedDateTimeString(now, UnixTimeStampToDateTime(ParseInteger(unixTimestamp).value).value)
  {
    match ParseUnixSeconds(unixTimestamp)
    case Failure(e) => Failure(e)
    case Success(t) => Success(GetFormatedDateTimeString(now, t))
  }
}
