/** The DateTimeExtensions extension methods of the portable library: Unix time, the
    "yyyy-MM-dd HH:mm:ss" rendering, the first and last day of a month and of a week,
    and the relative-time formatter. */
module PortableExtensions {
  import opened Ticks
  import opened Calendar
  import opened Text
  import opened Epoch
  import RelativeTime
  import DateTimeHelper
  import DateTimeExtensions

  /** A System.DayOfWeek value: Sunday = 0 through Saturday = 6. */
  type Weekday = w: int | 0 <= w < 7

  /** ToUnixTimeStamp: the whole seconds since the epoch, truncated toward zero, as text. */
  function ToUnixTimeStamp(dateTime: DateTime): (s: string)
    ensures ParseInteger(s) == Some(UnixSeconds(dateTime))
  {
    UnixTimestampText(dateTime)
  }

  /** A DateTime on a whole second, through ToUnixTimeStamp and UnixTimeStampToDateTime,
      comes back within 256 ticks, and unchanged up to ExactSecondsBound seconds after the
      epoch. */
  lemma UnixTimeStampOfWholeSecond(dateTime: DateTime)
    requires dateTime % TicksPerSecond == 0
    ensures var back := DateTimeHelper.UnixTimeStampToDateTime(ParseInteger(ToUnixTimeStamp(dateTime)).value);
      && back.Success? && -256 <= back.value - dateTime <= 256
      && (dateTime <= UnixEpochTicks + ExactSecondsBound * TicksPerSecond ==> back == Success(dateTime))
  {
    InstantDoubleRoundTrip(dateTime);
  }

  // ---------------------------------------------------------------------------
  // ToStringIso

  /** Three fields joined by a one-character separator, as "yyyy-MM-dd" and "HH:mm:ss". */
  function Block(a: string, sep: char, b: string, c: string): string {
    a + [sep] + b + [sep] + c
  }

  /** The custom format "yyyy-MM-dd HH:mm:ss" applied to a set of fields. */
  function IsoText(year: int, month: int, day: int, hour: int, minute: int, second: int): string
    requires 1 <= year <= 9999 && 1 <= month <= 12 && 1 <= day <= 31
    requires 0 <= hour < 24 && 0 <= minute < 60 && 0 <= second < 60
  {
    Block(FixedDigits(year, 4), '-', FixedDigits(month, 2), FixedDigits(day, 2))
    + " " + Block(FixedDigits(hour, 2), ':', FixedDigits(minute, 2), FixedDigits(second, 2))
  }

  /** Where the fields of a block sit. */
  lemma BlockFields(a: string, sep: char, b: string, c: string)
    requires |b| == 2 && |c| == 2
    ensures var s := Block(a, sep, b, c);
      && |s| == |a| + 6 && s[|a|] == sep && s[|a| + 3] == sep
      && s[..|a|] == a && s[|a| + 1..|a| + 3] == b && s[|a| + 4..] == c
  {
  }

  lemma SliceInLeft(x: string, y: string, i: int, j: int)
    requires 0 <= i <= j <= |x|
    ensures (x + y)[i..j] == x[i..j]
  {
  }

  lemma SliceInRight(x: string, y: string, i: int, j: int)
    requires 0 <= i <= j <= |y|
    ensures (x + y)[|x| + i..|x| + j] == y[i..j]
  {
  }

  /** The layout of two blocks joined by a space, for any field texts of the right widths. */
  lemma IsoLayout(y: string, mo: string, d: string, h: string, mi: string, sec: string)
    requires |y| == 4 && |mo| == 2 && |d| == 2 && |h| == 2 && |mi| == 2 && |sec| == 2
    ensures var s := Block(y, '-', mo, d) + " " + Block(h, ':', mi, sec);
      && |s| == 19
      && s[4] == '-' && s[7] == '-' && s[10] == ' ' && s[13] == ':' && s[16] == ':'
      && s[0..4] == y && s[5..7] == mo && s[8..10] == d
      && s[11..13] == h && s[14..16] == mi && s[17..19] == sec
  {
    var date := Block(y, '-', mo, d);
    var time := Block(h, ':', mi, sec);
    BlockFields(y, '-', mo, d);
    BlockFields(h, ':', mi, sec);
    SliceInLeft(date + " ", time, 0, 4);
    SliceInLeft(date, " ", 0, 4);
    SliceInLeft(date + " ", time, 5, 7);
    SliceInLeft(date, " ", 5, 7);
    SliceInLeft(date + " ", time, 8, 10);
    SliceInLeft(date, " ", 8, 10);
    SliceInRight(date + " ", time, 0, 2);
    SliceInRight(date + " ", time, 3, 5);
    SliceInRight(date + " ", time, 6, 8);
  }

  /** ToStringIso: date.ToString("yyyy-MM-dd HH:mm:ss"): 19 characters holding the
      instant's own calendar fields and time of day, each zero-padded to its width, at fixed
      places between fixed separators; the sub-second ticks are dropped. */
  function ToStringIso(date: DateTime): (s: string)
    ensures |s| == 19
    ensures s[4] == '-' && s[7] == '-' && s[10] == ' ' && s[13] == ':' && s[16] == ':'
    ensures s[0..4] == FixedDigits(Year(date), 4) && s[5..7] == FixedDigits(Month(date), 2)
    ensures s[8..10] == FixedDigits(Day(date), 2)
    ensures s[11..13] == FixedDigits(date / TicksPerHour % 24, 2)
    ensures s[14..16] == FixedDigits(date / TicksPerMinute % 60, 2)
    ensures s[17..19] == FixedDigits(date / TicksPerSecond % 60, 2)
  {
    var hour, minute, second := date / TicksPerHour % 24, date / TicksPerMinute % 60, date / TicksPerSecond % 60;
    IsoLayout(FixedDigits(Year(date), 4), FixedDigits(Month(date), 2), FixedDigits(Day(date), 2),
      FixedDigits(hour, 2), FixedDigits(minute, 2), FixedDigits(second, 2));
    IsoText(Year(date), Month(date), Day(date), hour, minute, second)
  }

  // ---------------------------------------------------------------------------
  // The first and last day of the month

  /** GetFirstDayOfTheMonth: midnight of the first day of the month and year holding `date`. */
  function GetFirstDayOfTheMonth(date: DateTime): (r: DateTime)
    ensures Decompose(r) == DateParts(Year(date), Month(date), 1, 0, 0, 0, 0)
  {
    var p := DateParts(Year(date), Month(date), 1, 0, 0, 0, 0);
    DecomposeCompose(p);
    Compose(p)
  }

  /** The first day of the month is the midnight that starts the month holding `date`. */
  lemma FirstDayOfTheMonthBounds(date: DateTime)
    ensures var r := GetFirstDayOfTheMonth(date);
      IsMidnight(r) && r <= date && date - r < DaysInMonth(Year(date), Month(date)) * TicksPerDay
  {
    var q := Decompose(date);
    ComposeDecompose(date);
    assert date == DayNumberOf(q.year, q.month, q.day) * TicksPerDay
      + (q.hour * TicksPerHour + q.minute * TicksPerMinute + q.second * TicksPerSecond + q.fraction);
  }

  /** GetLastDayOfTheMonth: midnight of the last day of the month and year holding `date`. */
  function GetLastDayOfTheMonth(date: DateTime): (r: DateTime)
    ensures Decompose(r) == DateParts(Year(date), Month(date), DaysInMonth(Year(date), Month(date)), 0, 0, 0, 0)
  {
    var p := DateParts(Year(date), Month(date), DaysInMonth(Year(date), Month(date)), 0, 0, 0, 0);
    DaysInMonthRule(Year(date), Month(date));
    DecomposeCompose(p);
    Compose(p)
  }

  /** The last day of the month is a midnight of the month holding `date`, on or after its day. */
  lemma LastDayOfTheMonthBounds(date: DateTime)
    ensures var r := GetLastDayOfTheMonth(date);
      IsMidnight(r) && Date(date) <= r && r - Date(date) < DaysInMonth(Year(date), Month(date)) * TicksPerDay
  {
    var q := Decompose(date);
    ComposeDecompose(date);
    assert date == DayNumberOf(q.year, q.month, q.day) * TicksPerDay
      + (q.hour * TicksPerHour + q.minute * TicksPerMinute + q.second * TicksPerSecond + q.fraction);
  }

  /** The day after the last day of the month is the first day of the next month. */
  lemma LastDayOfTheMonthIsLast(date: DateTime)
    requires GetLastDayOfTheMonth(date) + TicksPerDay <= MaxTicks
    ensures var next := GetLastDayOfTheMonth(date) + TicksPerDay;
      Day(next) == 1 && Month(next) == Month(date) % 12 + 1
  {
    var y, m := Year(date), Month(date);
    var next: DateTime := GetLastDayOfTheMonth(date) + TicksPerDay;
    assert next == DayNumberOf(y, m, DaysInMonth(y, m)) * TicksPerDay + TicksPerDay;
    DayAfterMonthEnd(y, m, next);
    assert Month(next) == if m < 12 then m + 1 else 1;
    NextMonthNumber(m);
  }

  lemma NextMonthNumber(month: int)
    requires 1 <= month <= 12
    ensures month % 12 + 1 == if month < 12 then month + 1 else 1
  {
    if month < 12 {
      DivMod12(month, 0, month);
    } else {
      DivMod12(month, 1, 0);
    }
  }

  lemma DivMod12(x: int, q: int, r: int)
    requires x == 12 * q + r && 0 <= r < 12
    ensures x % 12 == r
  {
  }

  /** The instant one day after the midnight that starts the last day of a month is the
      midnight that starts the next month. */
  lemma DayAfterMonthEnd(year: int, month: int, next: DateTime)
    requires 1 <= year <= 9999 && 1 <= month <= 12
    requires next == DayNumberOf(year, month, DaysInMonth(year, month)) * TicksPerDay + TicksPerDay
    ensures Decompose(next) == if month < 12 then DateParts(year, month + 1, 1, 0, 0, 0, 0)
                               else DateParts(year + 1, 1, 1, 0, 0, 0, 0)
  {
    var q: DateParts;
    if month < 12 {
      q := DateParts(year, month + 1, 1, 0, 0, 0, 0);
      NextMonthDayNumber(year, month);
      DaysInMonthRule(year, month + 1);
    } else {
      if year == 9999 {
        LastDayNumber();
        assert false;
      }
      q := DateParts(year + 1, 1, 1, 0, 0, 0, 0);
      NextYearDayNumber(year);
      DaysInMonthRule(year + 1, 1);
    }
    assert Compose(q) == next;
    DecomposeCompose(q);
  }

  /** 9999-12-31 is the last day a DateTime can hold. */
  lemma LastDayNumber()
    ensures DayNumberOf(9999, 12, DaysInMonth(9999, 12)) * TicksPerDay == LastDayTicks
  {
  }

  /** Within a year, the first day of the next month follows the last day of this one. */
  lemma NextMonthDayNumber(year: int, month: int)
    requires 1 <= year && 1 <= month < 12
    ensures DayNumberOf(year, month + 1, 1) == DayNumberOf(year, month, DaysInMonth(year, month)) + 1
  {
  }

  /** New Year's Day follows 31 December. */
  lemma NextYearDayNumber(year: int)
    requires 1 <= year
    ensures DayNumberOf(year + 1, 1, 1) == DayNumberOf(year, 12, DaysInMonth(year, 12)) + 1
  {
    DaysBeforeYearStep(year);
  }

  // ---------------------------------------------------------------------------
  // The first and last day of the week

  /** GetFirstDayOfWeek: step back (date.DayOfWeek - startOfWeek) mod 7 days with AddDays,
      which throws ArgumentOutOfRangeException before 0001-01-01, then take the date. */
  function GetFirstDayOfWeek(date: DateTime, startOfWeek: Weekday): (r: Result<DateTime>)
    ensures r.Success? ==>
      && IsMidnight(r.value) && DayOfWeek(r.value) == startOfWeek
      && r.value <= Date(date) < r.value + 7 * TicksPerDay
    ensures r.Failure? ==> r.error == ArgumentOutOfRange && Date(date) < 6 * TicksPerDay
  {
    var diff := DayOfWeek(date) - startOfWeek;
    var back := if diff < 0 then diff + 7 else diff;
    WeekStart(date / TicksPerDay, startOfWeek, back);
    match AddDays(date, -1 * back)
    case Failure(e) => Failure(e)
    case Success(d) => Success(Date(d))
  }

  /** Stepping back `back` days from day number n lands on weekday `startOfWeek`. */
  lemma WeekStart(n: int, startOfWeek: Weekday, back: int)
    requires 0 <= n
    requires back == if (n + 1) % 7 < startOfWeek then (n + 1) % 7 - startOfWeek + 7 else (n + 1) % 7 - startOfWeek
    ensures 0 <= back < 7 && (n - back + 1) % 7 == startOfWeek
  {
    var w := (n + 1) % 7;
    assert n + 1 == 7 * ((n + 1) / 7) + w;
    assert n - back + 1 == 7 * ((n + 1) / 7) + (w - back);
    assert w - back == startOfWeek || w - back == startOfWeek - 7;
    if w - back == startOfWeek - 7 {
      assert n - back + 1 == 7 * ((n + 1) / 7 - 1) + startOfWeek;
    }
  }

  /** The first day of the week is the only midnight with that weekday among the seven days
      ending with date's day: whenever such a midnight exists, it is the answer. */
  lemma FirstDayOfWeekUnique(date: DateTime, startOfWeek: Weekday, m: DateTime)
    requires IsMidnight(m) && DayOfWeek(m) == startOfWeek
    requires m <= Date(date) < m + 7 * TicksPerDay
    ensures GetFirstDayOfWeek(date, startOfWeek) == Success(m)
  {
    var k := (Date(date) - m) / TicksPerDay;
    assert Date(date) == m + k * TicksPerDay && 0 <= k < 7;
    assert date / TicksPerDay == m / TicksPerDay + k;
    var diff := DayOfWeek(date) - startOfWeek;
    var back := if diff < 0 then diff + 7 else diff;
    WeekStart(date / TicksPerDay, startOfWeek, back);
    SameWeekday(m / TicksPerDay, k, back);
  }

  /** Two offsets below 7 from the same day number with the same weekday are equal. */
  lemma SameWeekday(n: int, k: int, back: int)
    requires 0 <= n && 0 <= k < 7 && 0 <= back < 7
    requires (n + k - back + 1) % 7 == (n + 1) % 7
    ensures k == back
  {
    var a := n + 1;
    assert a == 7 * (a / 7) + a % 7;
    assert a + k - back == 7 * ((a + k - back) / 7) + a % 7;
    assert k - back == 7 * ((a + k - back) / 7 - a / 7);
  }

  /** GetLastDayOfWeek: six days after the first day of the week, by AddDays, which throws
      past 9999-12-31. */
  function GetLastDayOfWeek(date: DateTime, startOfWeek: Weekday): (r: Result<DateTime>)
    ensures r.Success? ==>
      && GetFirstDayOfWeek(date, startOfWeek).Success?
      && r.value == GetFirstDayOfWeek(date, startOfWeek).value + 6 * TicksPerDay
      && IsMidnight(r.value) && DayOfWeek(r.value) == (startOfWeek + 6) % 7
      && r.value - 7 * TicksPerDay < Date(date) <= r.value
    ensures r.Failure? ==>
      r.error == ArgumentOutOfRange && (Date(date) < 6 * TicksPerDay || LastDayTicks - 6 * TicksPerDay < Date(date))
  {
    match GetFirstDayOfWeek(date, startOfWeek)
    case Failure(e) => Failure(e)
    case Success(first) =>
      match AddDays(first, 6)
      case Failure(e) => Failure(e)
      case Success(d) =>
        WeekdayAfter(first / TicksPerDay, 6);
        Success(Date(d))
  }

  /** When the week has a first day, the last day is six days after it unless that passes
      9999-12-31. */
  lemma LastDayFollowsFirst(date: DateTime, startOfWeek: Weekday, first: DateTime)
    requires GetFirstDayOfWeek(date, startOfWeek) == Success(first)
    requires first + 6 * TicksPerDay <= MaxTicks
    ensures GetLastDayOfWeek(date, startOfWeek) == Success(first + 6 * TicksPerDay)
  {
  }

  /** k days after day number n the weekday has moved on by k, modulo 7. */
  lemma WeekdayAfter(n: int, k: int)
    requires 0 <= n && 0 <= k
    ensures (n + k + 1) % 7 == ((n + 1) % 7 + k) % 7
  {
    var a := n + 1;
    assert a == 7 * (a / 7) + a % 7;
    assert a + k == 7 * (a / 7) + (a % 7 + k);
  }

  // ---------------------------------------------------------------------------
  // The formatter

  /** ToFormatedDateTimeString with DateTime.UtcNow read as `now`: the shared relative-time
      text, never the catch block's "". */
  function ToFormatedDateTimeString(now: DateTime, dateTime: DateTime): (r: string)
    ensures r == RelativeTime.Format(now, dateTime) && r != ""
  {
    RelativeTime.Format(now, dateTime)
  }

  /** The three copies of the formatter give the same text for every clock reading and
      instant. */
  lemma FormatterCopiesAgree(now: DateTime, dateTime: DateTime)
    ensures ToFormatedDateTimeString(now, dateTime) == DateTimeExtensions.ToFormatedDateTimeString(now, dateTime)
    ensures ToFormatedDateTimeString(now, dateTime) == DateTimeHelper.GetFormatedDateTimeString(now, dateTime)
  {
  }

  // ---------------------------------------------------------------------------
  // The unit tests' instant, 2017-10-12 12:10:01

  function TestInstant(): DateTime {
    Compose(DateParts(2017, 10, 12, 12, 10, 1, 0))
  }

  /** Midnight at the start of a calendar day. */
  function Midnight(year: int, month: int, day: int): DateTime
    requires ValidDate(year, month, day)
  {
    Compose(DateParts(year, month, day, 0, 0, 0, 0))
  }

  /** The midnight of a calendar day is its day number in whole days. */
  lemma MidnightDayNumber(year: int, month: int, day: int)
    requires ValidDate(year, month, day)
    ensures Midnight(year, month, day) == DayNumberOf(year, month, day) * TicksPerDay
  {
  }

  lemma OctoberDays()
    ensures DaysInMonth(2017, 10) == 31
  {
    DaysInMonthRule(2017, 10);
  }

  lemma TestInstantFields()
    ensures Decompose(TestInstant()) == DateParts(2017, 10, 12, 12, 10, 1, 0)
    ensures Date(TestInstant()) == DayNumberOf(2017, 10, 12) * TicksPerDay
  {
    OctoberDays();
    DecomposeCompose(DateParts(2017, 10, 12, 12, 10, 1, 0));
  }

  /** ToStringIsoTest. */
  lemma ToStringIsoOfTestInstant()
    ensures ToStringIso(TestInstant()) == "2017-10-12 12:10:01"
  {
    TestInstantFields();
    IsoTextOfTestFields();
  }

  lemma IsoTextOfTestFields()
    ensures IsoText(2017, 10, 12, 12, 10, 1) == "2017-10-12 12:10:01"
  {
    TestDigits();
    TestIsoLiteral();
  }

  lemma TestIsoLiteral()
    ensures Block("2017", '-', "10", "12") + " " + Block("12", ':', "10", "01") == "2017-10-12 12:10:01"
  {
    assert Block("2017", '-', "10", "12") == "2017-10-12";
    assert Block("12", ':', "10", "01") == "12:10:01";
  }

  lemma TestDigits()
    ensures FixedDigits(2017, 4) == "2017" && FixedDigits(12, 2) == "12"
    ensures FixedDigits(10, 2) == "10" && FixedDigits(1, 2) == "01"
  {
    RelativeTime.ExampleDigits();
    assert FixedDigits(10, 2) == FixedDigits(1, 1) + [DigitChar(0)];
    assert FixedDigits(1, 2) == FixedDigits(0, 1) + [DigitChar(1)];
    assert FixedDigits(1, 1) == FixedDigits(0, 0) + [DigitChar(1)];
    assert FixedDigits(0, 1) == FixedDigits(0, 0) + [DigitChar(0)];
  }

  /** GetFirstDayOfTheMonthTest. */
  lemma FirstDayOfTheMonthOfTestInstant()
    ensures GetFirstDayOfTheMonth(TestInstant()) == Midnight(2017, 10, 1)
  {
    TestInstantFields();
    ComposeDecompose(GetFirstDayOfTheMonth(TestInstant()));
  }

  /** GetLastDayOfTheMonthTest. */
  lemma LastDayOfTheMonthOfTestInstant()
    ensures GetLastDayOfTheMonth(TestInstant()) == Midnight(2017, 10, 31)
  {
    OctoberDays();
    TestInstantFields();
    ComposeDecompose(GetLastDayOfTheMonth(TestInstant()));
  }

  /** 2017-10-09 is a Monday and 2017-10-08 a Sunday. */
  lemma TestWeekDays()
    ensures Midnight(2017, 10, 9) == DayNumberOf(2017, 10, 9) * TicksPerDay
    ensures Midnight(2017, 10, 8) == DayNumberOf(2017, 10, 8) * TicksPerDay
    ensures DayNumberOf(2017, 10, 9) == DayNumberOf(2017, 10, 12) - 3
    ensures DayNumberOf(2017, 10, 8) == DayNumberOf(2017, 10, 12) - 4
    ensures DayOfWeek(Midnight(2017, 10, 9)) == 1 && DayOfWeek(Midnight(2017, 10, 8)) == 0
  {
    OctoberDays();
    MidnightDayNumber(2017, 10, 9);
    MidnightDayNumber(2017, 10, 8);
  }

  /** GetStartDayOfWeekTest1 and GetStartDayOfWeekTest2 (the tests call the method
      GetStartDayOfWeek; the library names it GetFirstDayOfWeek). */
  lemma FirstDayOfWeekOfTestInstant()
    ensures GetFirstDayOfWeek(TestInstant(), 1) == Success(Midnight(2017, 10, 9))
    ensures GetFirstDayOfWeek(TestInstant(), 0) == Success(Midnight(2017, 10, 8))
  {
    TestInstantFields();
    TestWeekDays();
    FirstDayOfWeekUnique(TestInstant(), 1, Midnight(2017, 10, 9));
    FirstDayOfWeekUnique(TestInstant(), 0, Midnight(2017, 10, 8));
  }

  /** GetLastDayOfWeekTest1: the week starting on Monday ends on Sunday 2017-10-15. */
  lemma LastDayOfMondayWeekOfTestInstant()
    ensures GetLastDayOfWeek(TestInstant(), 1) == Success(Midnight(2017, 10, 15))
  {
    OctoberDays();
    FirstDayOfWeekOfTestInstant();
    MidnightDayNumber(2017, 10, 9);
    MidnightDayNumber(2017, 10, 15);
    LastDayFollowsFirst(TestInstant(), 1, Midnight(2017, 10, 9));
  }


  /** GetLastDayOfWeekTest2: the week starting on Sunday ends on Saturday 2017-10-14. */
  lemma LastDayOfSundayWeekOfTestInstant()
    ensures GetLastDayOfWeek(TestInstant(), 0) == Success(Midnight(2017, 10, 14))
  {
    OctoberDays();
    FirstDayOfWeekOfTestInstant();
    MidnightDayNumber(2017, 10, 8);
    MidnightDayNumber(2017, 10, 14);
    LastDayFollowsFirst(TestInstant(), 0, Midnight(2017, 10, 8));
  }


  /** ToUnixTimeStampTest1: the test instant, well before ExactSecondsBound, survives
      ToUnixTimeStamp followed by UnixTimeStampToDateTime. */
  lemma UnixTimeStampOfTestInstant()
    ensures DateTimeHelper.UnixTimeStampToDateTime(ParseInteger(ToUnixTimeStamp(TestInstant())).value)
            == Success(TestInstant())
  {
    TestInstantFields();
    assert DayNumberOf(2017, 10, 12) == 736613;
    UnixTimeStampOfWholeSecond(TestInstant());
  }
}
