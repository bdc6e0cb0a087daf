/** The relative-time formatter ("3 hrs 12 mins ago", "October 05 ", "October 05 2016").
    The library carries three token-for-token identical copies of it
    (DateTimeHelper.GetFormatedDateTimeString and the two ToFormatedDateTimeString extension
    methods); this module models that body once, with the clock reading passed in as `now`.
    The double-valued TotalDays/TotalHours/TotalMinutes tests are exact tick comparisons here. */
module RelativeTime {
  import opened Ticks
  import opened Calendar
  import opened Text

  /** The two strings the formatter fills before assembling its answer. */
  datatype Buckets = Buckets(days: string, hour: string)

  /** The elapsed time now - instant, with the source's fallback to instant - now should the
      first subtraction throw; that fallback is unreachable, since the difference of two
      DateTimes always fits a TimeSpan. */
  function Elapsed(now: DateTime, instant: DateTime): (r: Option<TimeSpan>)
    ensures r == Some(now - instant)
  {
    SubtractNeverFails(now, instant);
    match TrySubtract(now, instant)
    case Some(ts) => Some(ts)
    case None => TrySubtract(instant, now)
  }

  /** dateTime.ToString("MMMM dd") of an instant in the given month and day. */
  function MonthDay(month: int, day: int): string
    requires 1 <= month <= 12 && 1 <= day <= 31
  {
    MonthName(month) + " " + FixedDigits(day, 2)
  }

  /** The calendar months from the instant's month to now's month, ignoring the days. */
  function MonthsBetween(now: DateTime, instant: DateTime): int {
    (Year(now) - Year(instant)) * 12 + Month(now) - Month(instant)
  }

  /** The days bucket of the first block (run when TotalDays <= 1): "<h> hr " strictly between
      one and two hours, "<h> hrs " above that, nothing up to an hour. */
  function HoursText(ts: int): (r: string)
    ensures r == "" <==> ts <= TicksPerHour
    ensures r != "" ==> HasMarker(r)
  {
    if TicksPerHour < ts then
      UnitMarked(SpanHours(ts), if ts < 2 * TicksPerHour then " hr " else " hrs ");
      IntToString(SpanHours(ts)) + (if ts < 2 * TicksPerHour then " hr " else " hrs ")
    else ""
  }

  /** The hour bucket of the first block: " min " when the minute component is at most 1 or
      TotalMinutes lies strictly between 1 and 2, " mins " otherwise. The second test never
      changes the unit, and the text never carries a marker. */
  function MinutesText(ts: int): (r: string)
    ensures r == IntToString(SpanMinutes(ts)) + (if SpanMinutes(ts) <= 1 then " min " else " mins ")
    ensures !HasMarker(r)
  {
    DeadMinuteBranch(ts);
    UnitUnmarked(SpanMinutes(ts), if SpanMinutes(ts) <= 1 then " min " else " mins ");
    IntToString(SpanMinutes(ts))
    + (if SpanMinutes(ts) <= 1 || TicksPerMinute < ts < 2 * TicksPerMinute then " min " else " mins ")
  }

  /** The days bucket of the second block beyond seven days, for an instant in the given
      month, day and year lying `months` calendar months before now: "MMMM dd " while fewer
      than 12 months separate the two, "MMMM dd yyyy" after that. It starts with the month
      and day, carries no marker and never ends in "ago". */
  function CalendarText(month: int, day: int, year: int, months: int): (r: string)
    requires 1 <= month <= 12 && 1 <= day <= 31 && 1 <= year <= 9999
    ensures |MonthDay(month, day)| < |r| && r[..|MonthDay(month, day)|] == MonthDay(month, day)
    ensures !HasMarker(r)
    ensures !EndsWith(r, "ago")
  {
    var md := MonthDay(month, day);
    if months < 12 then
      ShortCalendarTextUnmarked(month, day);
      TextEndNoAgo(md, " ");
      PrefixOfConcat(md, " ");
      md + " "
    else
      LongCalendarTextUnmarked(month, day, year);
      var y := FixedDigits(year, 4);
      assert IsDigit(y[3]);
      TextEndNoAgo(md + " ", y);
      PrefixOfConcat(md, " " + y);
      assert md + " " + y == md + (" " + y);
      md + " " + y
  }

  lemma PrefixOfConcat(a: string, b: string)
    ensures (a + b)[..|a|] == a
  {
  }

  /** The calendar text of an instant as seen from now. */
  function CalendarTextOf(now: DateTime, instant: DateTime): string {
    CalendarText(Month(instant), Day(instant), Year(instant), MonthsBetween(now, instant))
  }

  /** The days bucket of the second block within seven days: "Days" above one day component,
      "Day" otherwise, since the source's second test is the negation of its first. It always
      carries a marker. */
  function DaysText(ts: int): (r: string)
    ensures HasMarker(r)
  {
    UnitMarked(SpanDays(ts), if SpanDays(ts) > 1 then " Days " else " Day ");
    IntToString(SpanDays(ts)) + (if SpanDays(ts) > 1 then " Days " else " Day ")
  }

  /** The hour bucket of the second block within seven days: the hours when the hour
      component exceeds 1, the minutes otherwise; it carries a marker exactly in the first case. */
  function DayHoursText(ts: int): (r: string)
    ensures HasMarker(r) <==> SpanHours(ts) > 1
  {
    if SpanHours(ts) > 1 then
      UnitMarked(SpanHours(ts), " hrs ");
      IntToString(SpanHours(ts)) + " hrs "
    else
      UnitUnmarked(SpanMinutes(ts), if ts <= TicksPerMinute then " min " else " mins ");
      IntToString(SpanMinutes(ts)) + (if ts <= TicksPerMinute then " min " else " mins ")
  }

  /** The two bucket-filling blocks, in source order: the first runs when TotalDays <= 1,
      the second when TotalDays > 1 (and then the hour bucket keeps the first block's "",
      or is overwritten within a week). The days bucket is empty exactly up to an hour and
      carries a marker exactly from an hour to a week; beyond a week the hour bucket is empty. */
  function FillBuckets(now: DateTime, instant: DateTime, ts: int): (b: Buckets)
    ensures b.days == "" <==> ts <= TicksPerHour
    ensures HasMarker(b.days) <==> TicksPerHour < ts <= 7 * TicksPerDay
    ensures 7 * TicksPerDay < ts ==> b.hour == "" && !EndsWith(b.days, "ago")
  {
    assert !HasMarker("");
    if ts <= TicksPerDay then Buckets(HoursText(ts), MinutesText(ts))
    else if 7 * TicksPerDay < ts then Buckets(CalendarTextOf(now, instant), "")
    else Buckets(DaysText(ts), DayHoursText(ts))
  }

  predicate HasMarker(s: string) {
    Contains(s, "Day") || Contains(s, "hr")
  }

  /** The assembly: both buckets and "ago" when either mentions "Day" or "hr", otherwise the
      days bucket alone when it is non-empty, otherwise the hour bucket and "ago". */
  function Assemble(b: Buckets): (r: string)
    ensures r != ""
    ensures |b.days| <= |r| && r[..|b.days|] == b.days
    ensures HasMarker(b.days) || HasMarker(b.hour) || b.days == "" ==> EndsWith(r, "ago")
    ensures !HasMarker(b.days) && !HasMarker(b.hour) && b.days != "" ==> r == b.days
  {
    if HasMarker(b.days) || HasMarker(b.hour) then b.days + b.hour + "ago"
    else if b.days != "" then b.days
    else b.hour + "ago"
  }

  /** The whole formatter; the outer catch would turn any exception into "", but none is
      raised. The answer ends in "ago" exactly when at most a week has elapsed. */
  function Format(now: DateTime, instant: DateTime): (r: string)
    ensures r != ""
    ensures EndsWith(r, "ago") <==> now - instant <= 7 * TicksPerDay
  {
    match Elapsed(now, instant)
    case None => ""
    case Some(ts) => Assemble(FillBuckets(now, instant, ts))
  }

  predicate EndsWith(s: string, suffix: string) {
    |suffix| <= |s| && s[|s| - |suffix|..] == suffix
  }

  // ---------------------------------------------------------------------------
  // Which bucket texts carry a marker

  lemma UnitMarked(n: int, unit: string)
    requires unit in {" hr ", " hrs ", " Day ", " Days "}
    ensures HasMarker(IntToString(n) + unit)
  {
    var s := IntToString(n) + unit;
    var k := |IntToString(n)|;
    if unit == " hr " || unit == " hrs " {
      assert OccursAt(s, "hr", k + 1);
    } else {
      assert OccursAt(s, "Day", k + 1);
    }
  }

  lemma UnitUnmarked(n: int, unit: string)
    requires unit in {" min ", " mins "}
    ensures !HasMarker(IntToString(n) + unit)
  {
    var s := IntToString(n) + unit;
    assert !HasPair(s, 'h', 'r') && !HasPair(s, 'D', 'a') by {
      forall i | 0 <= i < |s| ensures s[i] != 'h' && s[i] != 'D' {
        if i >= |IntToString(n)| {
          assert s[i] == unit[i - |IntToString(n)|];
        }
      }
    }
    PairFreeUnmarked(s);
  }

  /** A text without the pairs "Da" and "hr" carries no marker. */
  lemma PairFreeUnmarked(s: string)
    requires !HasPair(s, 'h', 'r') && !HasPair(s, 'D', 'a')
    ensures !HasMarker(s)
  {
    if Contains(s, "hr") { ContainsHasPair(s, "hr"); }
    if Contains(s, "Day") { ContainsHasPair(s, "Day"); }
  }

  predicate DigitsOrSpaces(s: string) {
    forall i :: 0 <= i < |s| ==> IsDigit(s[i]) || s[i] == ' '
  }

  lemma DigitsOrSpacesConcat(a: string, b: string)
    requires DigitsOrSpaces(a) && DigitsOrSpaces(b)
    ensures DigitsOrSpaces(a + b)
  {
    forall i | 0 <= i < |a + b| ensures IsDigit((a + b)[i]) || (a + b)[i] == ' ' {
      if i >= |a| { assert (a + b)[i] == b[i - |a|]; }
    }
  }

  /** Joining two texts free of the pairs "hr" and "Da" at a space keeps them free. */
  lemma PairFreeJoin(a: string, b: string)
    requires !HasPair(a, 'h', 'r') && !HasPair(a, 'D', 'a')
    requires !HasPair(b, 'h', 'r') && !HasPair(b, 'D', 'a')
    requires |b| > 0 && b[0] == ' '
    ensures !HasPair(a + b, 'h', 'r') && !HasPair(a + b, 'D', 'a')
  {
    if HasPair(a + b, 'h', 'r') { HasPairConcat(a, b, 'h', 'r'); }
    if HasPair(a + b, 'D', 'a') { HasPairConcat(a, b, 'D', 'a'); }
  }

  /** No month name contains "Day" or "hr", so neither does the month/day text, whatever
      digits and spaces follow it. */
  lemma MonthTextUnmarked(month: int, day: int, rest: string)
    requires 1 <= month <= 12 && 1 <= day <= 31
    requires DigitsOrSpaces(rest)
    ensures !HasMarker(MonthDay(month, day) + " " + rest)
  {
    var name := MonthName(month);
    var digits := FixedDigits(day, 2);
    var tail := " " + digits + " " + rest;
    assert DigitsOrSpaces(tail) by {
      assert DigitsOrSpaces(digits);
      DigitsOrSpacesConcat(" ", digits);
      DigitsOrSpacesConcat(" " + digits, " ");
      DigitsOrSpacesConcat(" " + digits + " ", rest);
    }
    assert !HasPair(tail, 'h', 'r') && !HasPair(tail, 'D', 'a');
    MonthNameUnmarked(month);
    PairFreeJoin(name, tail);
    assert MonthDay(month, day) + " " + rest == name + tail;
    PairFreeUnmarked(name + tail);
  }

  lemma ShortCalendarTextUnmarked(month: int, day: int)
    requires 1 <= month <= 12 && 1 <= day <= 31
    ensures !HasMarker(MonthDay(month, day) + " ")
  {
    MonthTextUnmarked(month, day, "");
    assert MonthDay(month, day) + " " + "" == MonthDay(month, day) + " ";
  }

  lemma LongCalendarTextUnmarked(month: int, day: int, year: int)
    requires 1 <= month <= 12 && 1 <= day <= 31 && 1 <= year <= 9999
    ensures !HasMarker(MonthDay(month, day) + " " + FixedDigits(year, 4))
  {
    var y := FixedDigits(year, 4);
    assert DigitsOrSpaces(y);
    MonthTextUnmarked(month, day, y);
  }

  lemma MonthNameUnmarked(month: int)
    requires 1 <= month <= 12
    ensures !HasPair(MonthName(month), 'h', 'r') && !HasPair(MonthName(month), 'D', 'a')
  {
  }

  // ---------------------------------------------------------------------------
  // The guards that can never fire

  /** The test for TotalMinutes strictly between 1 and 2 is dead: it is only tried when the
      minute component exceeds 1, but strictly between one and two minutes that component is 1. */
  lemma DeadMinuteBranch(ts: int)
    ensures TicksPerMinute < ts < 2 * TicksPerMinute ==> SpanMinutes(ts) == 1
  {
    if TicksPerMinute < ts < 2 * TicksPerMinute {
      assert TruncDiv(ts, TicksPerMinute) == 1;
    }
  }

  // ---------------------------------------------------------------------------
  // The answer in each range of elapsed time

  /** Up to an hour the hours text is empty and the minutes text carries no marker, so the
      answer is the minutes text and "ago". */
  lemma AssembleFirstBlockUnmarked(ts: int)
    requires ts <= TicksPerHour
    ensures Assemble(Buckets(HoursText(ts), MinutesText(ts))) == MinutesText(ts) + "ago"
  {
    var m := SpanMinutes(ts);
    UnitUnmarked(m, if m <= 1 then " min " else " mins ");
    assert !HasMarker("");
  }

  /** Above an hour the hours text carries "hr", so both texts and "ago" are kept. */
  lemma AssembleFirstBlockMarked(ts: int)
    requires TicksPerHour < ts
    ensures Assemble(Buckets(HoursText(ts), MinutesText(ts))) == HoursText(ts) + MinutesText(ts) + "ago"
  {
    UnitMarked(SpanHours(ts), if ts < 2 * TicksPerHour then " hr " else " hrs ");
  }

  /** An instant in the future (negative elapsed time) always reads "<m> min ago", with m
      the truncated, non-positive minute component. */
  lemma FormatFuture(now: DateTime, instant: DateTime)
    requires now < instant
    ensures var m := SpanMinutes(now - instant);
      -60 < m <= 0 && Format(now, instant) == (IntToString(m) + " min ") + "ago"
  {
    var ts := now - instant;
    SpanComponents(ts);
    AssembleFirstBlockUnmarked(ts);
  }

  /** Up to one hour: "<m> min ago" for a minute component of at most 1, else "<m> mins ago". */
  lemma FormatWithinHour(now: DateTime, instant: DateTime)
    requires 0 <= now - instant <= TicksPerHour
    ensures var m := SpanMinutes(now - instant);
      Format(now, instant) == (IntToString(m) + (if m <= 1 then " min " else " mins ")) + "ago"
  {
    var ts := now - instant;
    AssembleFirstBlockUnmarked(ts);
  }

  /** Strictly between one and two hours the hour component is 1. */
  lemma HoursTextOneToTwo(ts: int)
    requires TicksPerHour < ts < 2 * TicksPerHour
    ensures HoursText(ts) == "1 hr "
  {
    assert TruncDiv(ts, TicksPerHour) == 1;
    assert SpanHours(ts) == 1;
    assert NatToString(1) == [DigitChar(1)];
    assert DigitChar(1) == '1';
  }

  /** Between one and two hours: "1 hr " and the minutes, e.g. 90 minutes is "1 hr 30 mins ago". */
  lemma FormatOneToTwoHours(now: DateTime, instant: DateTime)
    requires TicksPerHour < now - instant < 2 * TicksPerHour
    ensures var m := SpanMinutes(now - instant);
      Format(now, instant) == "1 hr " + (IntToString(m) + (if m <= 1 then " min " else " mins ")) + "ago"
  {
    var ts := now - instant;
    HoursTextOneToTwo(ts);
    AssembleFirstBlockMarked(ts);
  }

  /** From two hours up to one day: "<h> hrs " with the hour component and the minutes. */
  lemma FormatTwoHoursToDay(now: DateTime, instant: DateTime)
    requires 2 * TicksPerHour <= now - instant <= TicksPerDay
    ensures var h, m := SpanHours(now - instant), SpanMinutes(now - instant);
      Format(now, instant) ==
        (IntToString(h) + " hrs ") + (IntToString(m) + (if m <= 1 then " min " else " mins ")) + "ago"
  {
    var ts := now - instant;
    AssembleFirstBlockMarked(ts);
  }

  /** Exactly 24 hours: the hour component wraps to 0, giving "0 hrs 0 min ago". */
  lemma FormatExactlyOneDay(now: DateTime, instant: DateTime)
    requires now - instant == TicksPerDay
    ensures Format(now, instant) == "0 hrs 0 min ago"
  {
    FormatTwoHoursToDay(now, instant);
    assert SpanHours(TicksPerDay) == 0 && SpanMinutes(TicksPerDay) == 0;
    assert NatToString(0) == [DigitChar(0)];
    assert DigitChar(0) == '0';
  }

  /** More than one day and at most a week: "<d> Day(s) " and then "<h> hrs " when the hour
      component exceeds 1, else "<m> mins " (never "min": the elapsed time exceeds a minute). */
  lemma FormatWithinWeek(now: DateTime, instant: DateTime)
    requires TicksPerDay < now - instant <= 7 * TicksPerDay
    ensures var d, h, m := SpanDays(now - instant), SpanHours(now - instant), SpanMinutes(now - instant);
      && 1 <= d <= 7
      && Format(now, instant) ==
           (IntToString(d) + (if d > 1 then " Days " else " Day "))
           + (if h > 1 then IntToString(h) + " hrs " else IntToString(m) + " mins ") + "ago"
  {
    var ts := now - instant;
    UnitMarked(SpanDays(ts), if SpanDays(ts) > 1 then " Days " else " Day ");
  }

  /** More than a week: only the month and day of the instant, with a trailing space and no
      "ago" while fewer than 12 calendar months separate the two, else with the year; the
      hour bucket is discarded. */
  lemma FormatBeyondWeek(now: DateTime, instant: DateTime)
    requires 7 * TicksPerDay < now - instant
    ensures Format(now, instant) ==
      CalendarText(Month(instant), Day(instant), Year(instant), MonthsBetween(now, instant))
  {
    AssembleCalendar(Month(instant), Day(instant), Year(instant), MonthsBetween(now, instant));
  }

  /** Beyond a week the assembly passes the calendar text through on its own. */
  lemma AssembleCalendar(month: int, day: int, year: int, months: int)
    requires 1 <= month <= 12 && 1 <= day <= 31 && 1 <= year <= 9999
    ensures var text := CalendarText(month, day, year, months);
      Assemble(Buckets(text, "")) == text
  {
    assert !HasMarker("");
  }

  /** A text ending in a digit or a space does not end in "ago". */
  lemma TextEndNoAgo(a: string, b: string)
    requires |b| > 0 && (IsDigit(b[|b| - 1]) || b[|b| - 1] == ' ')
    ensures !EndsWith(a + b, "ago")
  {
    LastOfConcat(a, b);
    NotEndsWithLast(a + b, "ago");
  }

  lemma LastOfConcat(a: string, b: string)
    requires |b| > 0
    ensures (a + b)[|a + b| - 1] == b[|b| - 1]
  {
  }

  /** A text whose last character differs from the suffix's does not end with it. */
  lemma NotEndsWithLast(s: string, suffix: string)
    requires |s| > 0 && |suffix| > 0 && s[|s| - 1] != suffix[|suffix| - 1]
    ensures !EndsWith(s, suffix)
  {
    if |suffix| <= |s| {
      assert s[|s| - |suffix|..][|suffix| - 1] == s[|s| - 1];
    }
  }


  // ---------------------------------------------------------------------------
  // Worked examples

  /** Ninety seconds ago reads "1 min ago". */
  lemma NinetySecondsAgo(instant: DateTime)
    requires instant + 90 * TicksPerSecond <= MaxTicks
    ensures Format(instant + 90 * TicksPerSecond, instant) == "1 min ago"
  {
    assert SpanMinutes(90 * TicksPerSecond) == 1;
    ExampleTexts();
    FormatWithinHour(instant + 90 * TicksPerSecond, instant);
  }

  /** Ninety minutes ago reads "1 hr 30 mins ago". */
  lemma NinetyMinutesAgo(instant: DateTime)
    requires instant + 90 * TicksPerMinute <= MaxTicks
    ensures Format(instant + 90 * TicksPerMinute, instant) == "1 hr 30 mins ago"
  {
    assert SpanMinutes(90 * TicksPerMinute) == 30;
    ExampleTexts();
    FormatOneToTwoHours(instant + 90 * TicksPerMinute, instant);
  }

  /** Exactly three days ago reads "3 Days 0 mins ago": the hour component 0 is not above 1,
      so the minutes text follows, always with "mins". */
  lemma ThreeDaysAgo(instant: DateTime)
    requires instant + 3 * TicksPerDay <= MaxTicks
    ensures Format(instant + 3 * TicksPerDay, instant) == "3 Days 0 mins ago"
  {
    assert SpanDays(3 * TicksPerDay) == 3;
    assert SpanHours(3 * TicksPerDay) == 0 && SpanMinutes(3 * TicksPerDay) == 0;
    ExampleTexts();
    FormatWithinWeek(instant + 3 * TicksPerDay, instant);
  }

  /** The pieces of the worked examples, joined. */
  lemma ExampleTexts()
    ensures (IntToString(1) + " min ") + "ago" == "1 min ago"
    ensures "1 hr " + (IntToString(30) + " mins ") + "ago" == "1 hr 30 mins ago"
    ensures (IntToString(3) + " Days ") + (IntToString(0) + " mins ") + "ago" == "3 Days 0 mins ago"
  {
    assert NatToString(0) == [DigitChar(0)] && NatToString(1) == [DigitChar(1)];
    assert NatToString(3) == [DigitChar(3)];
    assert NatToString(30) == NatToString(3) + [DigitChar(0)];
  }

  /** 2017-10-12 12:10:01 seen ten days later, on 2017-10-22, reads "October 12 ". */
  lemma TenDaysLater(now: DateTime, instant: DateTime)
    requires Decompose(instant) == DateParts(2017, 10, 12, 12, 10, 1, 0)
    requires Decompose(now) == DateParts(2017, 10, 22, 12, 10, 1, 0)
    ensures now - instant == 10 * TicksPerDay
    ensures Format(now, instant) == "October 12 "
  {
    ComposeDecompose(instant);
    ComposeDecompose(now);
    CalendarExampleTexts();
    FormatBeyondWeek(now, instant);
  }

  /** The same instant seen 400 days later, on 2018-11-16, 13 calendar months on, reads
      "October 12 2017". */
  lemma FourHundredDaysLater(now: DateTime, instant: DateTime)
    requires Decompose(instant) == DateParts(2017, 10, 12, 12, 10, 1, 0)
    requires Decompose(now) == DateParts(2018, 11, 16, 12, 10, 1, 0)
    ensures now - instant == 400 * TicksPerDay
    ensures Format(now, instant) == "October 12 2017"
  {
    ComposeDecompose(instant);
    ComposeDecompose(now);
    CalendarExampleTexts();
    FormatBeyondWeek(now, instant);
  }

  lemma CalendarExampleTexts()
    ensures CalendarText(10, 12, 2017, 0) == "October 12 "
    ensures CalendarText(10, 12, 2017, 13) == "October 12 2017"
  {
    ExampleDigits();
  }

  lemma ExampleDigits()
    ensures FixedDigits(12, 2) == "12" && FixedDigits(2017, 4) == "2017"
  {
    assert FixedDigits(12, 2) == FixedDigits(1, 1) + [DigitChar(2)];
    assert FixedDigits(1, 1) == FixedDigits(0, 0) + [DigitChar(1)];
    assert FixedDigits(2017, 4) == FixedDigits(201, 3) + [DigitChar(7)];
    assert FixedDigits(201, 3) == FixedDigits(20, 2) + [DigitChar(1)];
    assert FixedDigits(20, 2) == FixedDigits(2, 1) + [DigitChar(0)];
    assert FixedDigits(2, 1) == FixedDigits(0, 0) + [DigitChar(2)];
  }
}
