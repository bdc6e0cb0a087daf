/** The proleptic Gregorian calendar as .NET's DateTime computes it: tick counts composed
    from and decomposed into year, month, day, hour, minute, second and sub-second ticks. */
module Calendar {
  import opened Ticks

  const DaysPerYear: int := 365
  const DaysPer4Years: int := 1461
  const DaysPer100Years: int := 36524
  const DaysPer400Years: int := 146097

  /** Cumulative days before each month, for common and leap years (index 0..12). */
  const DaysToMonth365: seq<int> := [0, 31, 59, 90, 120, 151, 181, 212, 243, 273, 304, 334, 365]
  const DaysToMonth366: seq<int> := [0, 31, 60, 91, 121, 152, 182, 213, 244, 274, 305, 335, 366]

  predicate IsLeapYear(year: int) {
    year % 4 == 0 && (year % 100 != 0 || year % 400 == 0)
  }

  function DaysInYear(year: int): int {
    if IsLeapYear(year) then 366 else 365
  }

  function DaysToMonth(year: int): (table: seq<int>)
    ensures |table| == 13 && table[0] == 0 && table[12] == DaysInYear(year)
  {
    if IsLeapYear(year) then DaysToMonth366 else DaysToMonth365
  }

  /** DateTime.DaysInMonth: the difference of two adjacent cumulative table entries. */
  function DaysInMonth(year: int, month: int): int
    requires 1 <= month <= 12
  {
    DaysToMonth(year)[month] - DaysToMonth(year)[month - 1]
  }

  /** The tables encode the familiar rule: thirty days have September, April, June and
      November; February has 29 days exactly in a leap year; all the rest have 31. */
  lemma DaysInMonthRule(year: int, month: int)
    requires 1 <= month <= 12
    ensures month == 2 ==> (DaysInMonth(year, month) == 29 <==> IsLeapYear(year))
    ensures month == 2 ==> (DaysInMonth(year, month) == 28 <==> !IsLeapYear(year))
    ensures month in {4, 6, 9, 11} ==> DaysInMonth(year, month) == 30
    ensures month in {1, 3, 5, 7, 8, 10, 12} ==> DaysInMonth(year, month) == 31
  {
  }

  /** Days from 0001-01-01 to the first day of `year`. */
  function DaysBeforeYear(year: int): int
    requires 1 <= year
  {
    var y := year - 1;
    y * 365 + y / 4 - y / 100 + y / 400
  }

  lemma DaysBeforeYearStep(year: int)
    requires 1 <= year
    ensures DaysBeforeYear(year + 1) == DaysBeforeYear(year) + DaysInYear(year)
  {
    QuotientStep4(year);
    QuotientStep100(year);
    QuotientStep400(year);
  }

  lemma QuotientStep4(year: int)
    requires 1 <= year
    ensures year / 4 == (year - 1) / 4 + (if year % 4 == 0 then 1 else 0)
  {
  }

  lemma QuotientStep100(year: int)
    requires 1 <= year
    ensures year / 100 == (year - 1) / 100 + (if year % 100 == 0 then 1 else 0)
  {
  }

  lemma QuotientStep400(year: int)
    requires 1 <= year
    ensures year / 400 == (year - 1) / 400 + (if year % 400 == 0 then 1 else 0)
  {
  }

  lemma {:induction false} DaysBeforeYearMonotone(y1: int, y2: int)
    requires 1 <= y1 <= y2
    ensures DaysBeforeYear(y1) + 365 * (y2 - y1) <= DaysBeforeYear(y2)
    decreases y2 - y1
  {
    if y1 < y2 {
      DaysBeforeYearStep(y1);
      DaysBeforeYearMonotone(y1 + 1, y2);
    }
  }

  /** Quotient and remainder by 4, 100 and 400 are determined by any split of x into a
      multiple and a remainder in range. */
  lemma DivMod4(x: int, q: int, r: int)
    requires x == 4 * q + r && 0 <= r < 4
    ensures x / 4 == q && x % 4 == r
  {
  }

  lemma DivMod100(x: int, q: int, r: int)
    requires x == 100 * q + r && 0 <= r < 100
    ensures x / 100 == q && x % 100 == r
  {
  }

  lemma DivMod400(x: int, q: int, r: int)
    requires x == 400 * q + r && 0 <= r < 400
    ensures x / 400 == q && x % 400 == r
  {
  }

  /** DaysBeforeYear of the year whose predecessor has 400/100/4/1-year cycle digits
      a, b, c, d, and whether that year is a leap year. */
  lemma DaysBeforeYearCycles(year: int, a: int, b: int, c: int, d: int)
    requires 0 <= a && 0 <= b < 4 && 0 <= c < 25 && 0 <= d < 4
    requires year == 400 * a + 100 * b + 4 * c + d + 1
    ensures DaysBeforeYear(year) == DaysPer400Years * a + DaysPer100Years * b + DaysPer4Years * c + DaysPerYear * d
    ensures DaysInYear(year) == if d == 3 && (c != 24 || b == 3) then 366 else 365
  {
    var y := year - 1;
    DivMod400(y, a, 100 * b + 4 * c + d);
    DivMod100(y, 4 * a + b, 4 * c + d);
    DivMod4(y, 100 * a + 25 * b + c, d);
    LeapYearCycles(a, b, c, d);
  }

  lemma LeapYearCycles(a: int, b: int, c: int, d: int)
    requires 0 <= a && 0 <= b < 4 && 0 <= c < 25 && 0 <= d < 4
    ensures IsLeapYear(400 * a + 100 * b + 4 * c + d + 1) <==> d == 3 && (c != 24 || b == 3)
  {
    var year := 400 * a + 100 * b + 4 * c + d + 1;
    if d == 3 {
      DivMod4(year, 100 * a + 25 * b + c + 1, 0);
    } else {
      DivMod4(year, 100 * a + 25 * b + c, d + 1);
    }
    if c == 24 && d == 3 {
      DivMod100(year, 4 * a + b + 1, 0);
    } else {
      DivMod100(year, 4 * a + b, 4 * c + d + 1);
    }
    if b == 3 && c == 24 && d == 3 {
      DivMod400(year, a + 1, 0);
    } else {
      DivMod400(year, a, 100 * b + 4 * c + d + 1);
    }
  }

  /** A day number split into a year and a zero-based day of that year. */
  datatype YearDay = YearDay(year: int, dayOfYear: int)

  /** The year part of DateTime.GetDatePart: peel off whole 400-, 100-, 4- and 1-year
      cycles, clipping the last 100-year and 1-year cycles, which are one day longer. */
  function SplitDayNumber(n: int): YearDay
    requires 0 <= n
  {
    var y400 := n / DaysPer400Years;
    var n1 := n - y400 * DaysPer400Years;
    var y100 := if n1 / DaysPer100Years == 4 then 3 else n1 / DaysPer100Years;
    var n2 := n1 - y100 * DaysPer100Years;
    var y4 := n2 / DaysPer4Years;
    var n3 := n2 - y4 * DaysPer4Years;
    var y1 := if n3 / DaysPerYear == 4 then 3 else n3 / DaysPerYear;
    YearDay(y400 * 400 + y100 * 100 + y4 * 4 + y1 + 1, n3 - y1 * DaysPerYear)
  }

  /** The split lands inside a year: the year's first day number plus the day of the year
      gives the day number back. */
  lemma SplitDayNumberCorrect(n: int)
    requires 0 <= n
    ensures var r := SplitDayNumber(n);
      1 <= r.year && 0 <= r.dayOfYear < DaysInYear(r.year) && n == DaysBeforeYear(r.year) + r.dayOfYear
  {
    var y400 := n / DaysPer400Years;
    var n1 := n - y400 * DaysPer400Years;
    var y100 := if n1 / DaysPer100Years == 4 then 3 else n1 / DaysPer100Years;
    var n2 := n1 - y100 * DaysPer100Years;
    var y4 := n2 / DaysPer4Years;
    var n3 := n2 - y4 * DaysPer4Years;
    var y1 := if n3 / DaysPerYear == 4 then 3 else n3 / DaysPerYear;
    var year := y400 * 400 + y100 * 100 + y4 * 4 + y1 + 1;
    assert SplitDayNumber(n) == YearDay(year, n3 - y1 * DaysPerYear);
    CenturyOfCycle(n1);
    QuadOfCentury(n2);
    YearOfQuad(n3);
    DaysBeforeYearCycles(year, y400, y100, y4, y1);
  }

  /** The 100-year step of the split: a clipped count of centuries and a remainder of at
      most a century, a whole century only in the fourth. */
  lemma CenturyOfCycle(n1: int)
    requires 0 <= n1 < DaysPer400Years
    ensures var y100 := if n1 / DaysPer100Years == 4 then 3 else n1 / DaysPer100Years;
      var n2 := n1 - y100 * DaysPer100Years;
      0 <= y100 < 4 && 0 <= n2 <= DaysPer100Years && (n2 == DaysPer100Years ==> y100 == 3)
  {
  }

  /** The 4-year step: the last day of the 25th 4-year cycle is reached only when the
      remainder is a whole century. */
  lemma QuadOfCentury(n2: int)
    requires 0 <= n2 <= DaysPer100Years
    ensures var y4 := n2 / DaysPer4Years;
      var n3 := n2 - y4 * DaysPer4Years;
      0 <= y4 < 25 && 0 <= n3 < DaysPer4Years
      && (y4 == 24 && n3 == DaysPer4Years - 1 ==> n2 == DaysPer100Years)
  {
  }

  /** The 1-year step: a clipped count of years and a day of the year that reaches 365 only
      in the fourth year. */
  lemma YearOfQuad(n3: int)
    requires 0 <= n3 < DaysPer4Years
    ensures var y1 := if n3 / DaysPerYear == 4 then 3 else n3 / DaysPerYear;
      var doy := n3 - y1 * DaysPerYear;
      0 <= y1 < 4 && 0 <= doy <= DaysPerYear && (doy == DaysPerYear ==> y1 == 3)
      && (y1 == 3 && doy == DaysPerYear ==> n3 == DaysPer4Years - 1)
  {
  }

  /** The year whose span of day numbers contains a day number is unique. */
  lemma {:induction false} YearDayUnique(y1: int, d1: int, y2: int, d2: int)
    requires 1 <= y1 && 0 <= d1 < DaysInYear(y1)
    requires 1 <= y2 && 0 <= d2 < DaysInYear(y2)
    requires DaysBeforeYear(y1) + d1 == DaysBeforeYear(y2) + d2
    ensures y1 == y2 && d1 == d2
  {
    if y1 < y2 {
      DaysBeforeYearStep(y1);
      DaysBeforeYearMonotone(y1 + 1, y2);
    } else if y2 < y1 {
      DaysBeforeYearStep(y2);
      DaysBeforeYearMonotone(y2 + 1, y1);
    }
  }

  /** Splitting is the inverse of DaysBeforeYear(year) + dayOfYear. */
  lemma SplitComposedDayNumber(year: int, dayOfYear: int)
    requires 1 <= year && 0 <= dayOfYear < DaysInYear(year)
    ensures SplitDayNumber(DaysBeforeYear(year) + dayOfYear) == YearDay(year, dayOfYear)
  {
    var r := SplitDayNumber(DaysBeforeYear(year) + dayOfYear);
    SplitDayNumberCorrect(DaysBeforeYear(year) + dayOfYear);
    YearDayUnique(r.year, r.dayOfYear, year, dayOfYear);
  }

  /** Day number (days since 0001-01-01) of a calendar date. */
  function DayNumberOf(year: int, month: int, day: int): int
    requires 1 <= year && 1 <= month <= 12
  {
    DaysBeforeYear(year) + DaysToMonth(year)[month - 1] + day - 1
  }

  /** The month part of DateTime.GetDatePart: the first month whose cumulative total
      exceeds the zero-based day of the year. */
  function MonthSearch(year: int, dayOfYear: int, month: int): (m: int)
    requires 1 <= month <= 12
    requires DaysToMonth(year)[month - 1] <= dayOfYear < DaysInYear(year)
    ensures month <= m <= 12
    ensures DaysToMonth(year)[m - 1] <= dayOfYear < DaysToMonth(year)[m]
    decreases 12 - month
  {
    if month == 12 || dayOfYear < DaysToMonth(year)[month] then month
    else MonthSearch(year, dayOfYear, month + 1)
  }

  lemma {:induction false} MonthSearchFinds(year: int, dayOfYear: int, start: int, month: int)
    requires 1 <= start <= month <= 12
    requires DaysToMonth(year)[month - 1] <= dayOfYear < DaysToMonth(year)[month]
    ensures MonthSearch(year, dayOfYear, start) == month
    decreases month - start
  {
    if start < month {
      assert DaysToMonth(year)[start] <= DaysToMonth(year)[month - 1];
      MonthSearchFinds(year, dayOfYear, start + 1, month);
    }
  }

  /** The broken-down fields of a DateTime; `fraction` holds the ticks below one second. */
  datatype DateParts = DateParts(year: int, month: int, day: int,
                                 hour: int, minute: int, second: int, fraction: int)

  predicate ValidDate(year: int, month: int, day: int) {
    1 <= year <= 9999 && 1 <= month <= 12 && 1 <= day <= DaysInMonth(year, month)
  }

  predicate ValidParts(p: DateParts) {
    && ValidDate(p.year, p.month, p.day)
    && 0 <= p.hour < 24 && 0 <= p.minute < 60 && 0 <= p.second < 60
    && 0 <= p.fraction < TicksPerSecond
  }

  /** The DateTime(year, month, day, hour, minute, second) constructor, plus sub-second ticks. */
  function Compose(p: DateParts): (t: DateTime)
    requires ValidParts(p)
    ensures t / TicksPerDay == DayNumberOf(p.year, p.month, p.day)
  {
    var n := DayNumberOf(p.year, p.month, p.day);
    DayNumberRange(p.year, p.month, p.day);
    var tod := p.hour * TicksPerHour + p.minute * TicksPerMinute + p.second * TicksPerSecond + p.fraction;
    assert 0 <= tod < TicksPerDay;
    n * TicksPerDay + tod
  }

  /** The month and day GetDatePart finds for a zero-based day of the year form a valid
      date whose day of the year is the one searched for. */
  lemma MonthSearchDay(year: int, dayOfYear: int)
    requires 1 <= year <= 9999 && 0 <= dayOfYear < DaysInYear(year)
    ensures var m := MonthSearch(year, dayOfYear, 1);
      var day := dayOfYear - DaysToMonth(year)[m - 1] + 1;
      ValidDate(year, m, day) && DaysToMonth(year)[m - 1] + day - 1 == dayOfYear
  {
  }

  /** Every day number of a DateTime falls in year 9999 or earlier. */
  lemma SplitYearBound(n: int)
    requires 0 <= n <= MaxTicks / TicksPerDay
    ensures SplitDayNumber(n).year <= 9999
  {
    var r := SplitDayNumber(n);
    SplitDayNumberCorrect(n);
    if r.year >= 10000 {
      DaysBeforeYearMonotone(10000, r.year);
    }
  }

  /** The day number of a valid date is one a DateTime can hold. */
  lemma DayNumberRange(year: int, month: int, day: int)
    requires ValidDate(year, month, day)
    ensures 0 <= DayNumberOf(year, month, day) <= MaxTicks / TicksPerDay
  {
    var doy := DayOfYearInMonth(year, month, day);
    DaysBeforeYearStep(year);
    DaysBeforeYearMonotone(year + 1, 10000);
  }

  /** DateTime.Year/Month/Day/Hour/Minute/Second and the sub-second ticks of an instant. */
  function Decompose(t: DateTime): (p: DateParts)
    ensures ValidParts(p)
  {
    var n := t / TicksPerDay;
    var yd := SplitDayNumber(n);
    SplitDayNumberCorrect(n);
    SplitYearBound(n);
    MonthSearchDay(yd.year, yd.dayOfYear);
    var month := MonthSearch(yd.year, yd.dayOfYear, 1);
    var day := yd.dayOfYear - DaysToMonth(yd.year)[month - 1] + 1;
    DateParts(yd.year, month, day, t / TicksPerHour % 24, t / TicksPerMinute % 60,
              t / TicksPerSecond % 60, t % TicksPerSecond)
  }

  /** Composing the fields of an instant gives the instant back. */
  lemma ComposeDecompose(t: DateTime)
    ensures Compose(Decompose(t)) == t
  {
    DecomposeDayNumber(t);
    ComposeFields(Decompose(t), t);
  }

  /** The fields of an instant name the day it falls on. */
  lemma DecomposeDayNumber(t: DateTime)
    ensures var p := Decompose(t); DayNumberOf(p.year, p.month, p.day) == t / TicksPerDay
  {
    var n := t / TicksPerDay;
    var yd := SplitDayNumber(n);
    SplitDayNumberCorrect(n);
    SplitYearBound(n);
    MonthSearchDay(yd.year, yd.dayOfYear);
  }

  /** Fields holding the day number and the time of day of `t` compose back to `t`. */
  lemma ComposeFields(p: DateParts, t: DateTime)
    requires ValidParts(p) && DayNumberOf(p.year, p.month, p.day) == t / TicksPerDay
    requires p.hour == t / TicksPerHour % 24 && p.minute == t / TicksPerMinute % 60
    requires p.second == t / TicksPerSecond % 60 && p.fraction == t % TicksPerSecond
    ensures Compose(p) == t
  {
    TimeOfDaySplit(t);
  }

  lemma TimeOfDaySplit(t: int)
    requires 0 <= t
    ensures t == (t / TicksPerDay) * TicksPerDay + (t / TicksPerHour % 24) * TicksPerHour
                 + (t / TicksPerMinute % 60) * TicksPerMinute
                 + (t / TicksPerSecond % 60) * TicksPerSecond + t % TicksPerSecond
  {
    var s := t / TicksPerSecond;
    assert t == s * TicksPerSecond + t % TicksPerSecond;
    assert t / TicksPerMinute == s / 60;
    SpanStepNonNegative(t);
  }

  /** Decomposing a composed instant gives back its fields: Compose is injective on valid
      fields, because day numbers split uniquely and the month tables are increasing. */
  lemma DecomposeCompose(p: DateParts)
    requires ValidParts(p)
    ensures Decompose(Compose(p)) == p
  {
    var t := Compose(p);
    var q := Decompose(t);
    ComposeDecompose(t);
    SameDayNumberSameDate(p, q);
    assert q.hour == p.hour && q.minute == p.minute && q.second == p.second && q.fraction == p.fraction by {
      TimeOfDayFields(t / TicksPerDay, p.hour, p.minute, p.second, p.fraction);
      TimeOfDayFields(t / TicksPerDay, q.hour, q.minute, q.second, q.fraction);
    }
  }

  lemma SameDayNumberSameDate(p: DateParts, q: DateParts)
    requires ValidParts(p) && ValidParts(q)
    requires DayNumberOf(p.year, p.month, p.day) == DayNumberOf(q.year, q.month, q.day)
    ensures p.year == q.year && p.month == q.month && p.day == q.day
  {
    var doyP := DayOfYearInMonth(p.year, p.month, p.day);
    var doyQ := DayOfYearInMonth(q.year, q.month, q.day);
    YearDayUnique(p.year, doyP, q.year, doyQ);
    MonthDayUnique(p.year, p.month, p.day, q.month, q.day);
  }

  /** Within one year, a zero-based day of the year determines the month and the day. */
  lemma MonthDayUnique(year: int, m1: int, d1: int, m2: int, d2: int)
    requires ValidDate(year, m1, d1) && ValidDate(year, m2, d2)
    requires DaysToMonth(year)[m1 - 1] + d1 == DaysToMonth(year)[m2 - 1] + d2
    ensures m1 == m2 && d1 == d2
  {
    var doy := DayOfYearInMonth(year, m1, d1);
    var doy2 := DayOfYearInMonth(year, m2, d2);
    MonthSearchFinds(year, doy, 1, m1);
    MonthSearchFinds(year, doy, 1, m2);
  }

  /** The zero-based day of the year of a valid date lies within its month's entries, and the
      date's day number is that many days after the start of its year. */
  lemma DayOfYearInMonth(year: int, month: int, day: int) returns (doy: int)
    requires ValidDate(year, month, day)
    ensures doy == DaysToMonth(year)[month - 1] + day - 1
    ensures DaysToMonth(year)[month - 1] <= doy < DaysToMonth(year)[month] && 0 <= doy < DaysInYear(year)
    ensures DayNumberOf(year, month, day) == DaysBeforeYear(year) + doy
  {
    doy := DaysToMonth(year)[month - 1] + day - 1;
  }

  lemma TimeOfDayFields(n: int, hour: int, minute: int, second: int, fraction: int)
    requires 0 <= n && 0 <= hour < 24 && 0 <= minute < 60 && 0 <= second < 60
    requires 0 <= fraction < TicksPerSecond
    ensures var t := n * TicksPerDay + hour * TicksPerHour + minute * TicksPerMinute
                     + second * TicksPerSecond + fraction;
      && t / TicksPerHour % 24 == hour && t / TicksPerMinute % 60 == minute
      && t / TicksPerSecond % 60 == second && t % TicksPerSecond == fraction
  {
    var t := n * TicksPerDay + hour * TicksPerHour + minute * TicksPerMinute + second * TicksPerSecond + fraction;
    assert t / TicksPerSecond == n * 86400 + hour * 3600 + minute * 60 + second;
    assert t / TicksPerMinute == n * 1440 + hour * 60 + minute;
    assert t / TicksPerHour == n * 24 + hour;
  }

  function Year(t: DateTime): (y: int)
    ensures 1 <= y <= 9999
  {
    Decompose(t).year
  }

  function Month(t: DateTime): (m: int)
    ensures 1 <= m <= 12
  {
    Decompose(t).month
  }

  function Day(t: DateTime): (d: int)
    ensures 1 <= d <= DaysInMonth(Year(t), Month(t)) <= 31
  {
    DaysInMonthRule(Year(t), Month(t));
    Decompose(t).day
  }

  /** DateTime.DayOfWeek with Sunday = 0: 0001-01-01 (day number 0) was a Monday. */
  function DayOfWeek(t: DateTime): (w: int)
    ensures 0 <= w < 7
  {
    (t / TicksPerDay + 1) % 7
  }
}
