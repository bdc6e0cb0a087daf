# DateTimeHelper in Dafny

A model of the DateTimeHelper C# library: a static helper class `DateTimeHelper` and two
`DateTimeExtensions` classes, one for the desktop framework and one for the portable one.
The library converts between `DateTime` and Unix timestamps, renders an instant as
relative-time text ("3 hrs 12 mins ago", "October 05 ", "October 05 2016"), finds the first
and last day of an instant's month and week, lists the days of a range, and describes the
difference between two dates.

The model is built in layers:

- `Ticks`: a .NET `DateTime` as its tick count, 0 through 3155378975999999999, where one
  tick is 100 ns. A `TimeSpan` is a signed tick count. Its `Days`, `Hours` and `Minutes`
  components truncate toward zero, as .NET does. `Date` and `AddDays` work on tick counts,
  and `AddDays` reports `ArgumentOutOfRangeException` past either end of the range.
- `Calendar`: the proleptic Gregorian calendar as .NET computes it. A day number splits
  into 400-, 100- and 4-year cycles and the day-before-month tables. `Compose` and
  `Decompose` are proved inverse to each other.
- `Text`: decimal rendering and parsing, zero-padded fields and English month names.
- `Binary64`: rounding a whole number to the nearest IEEE 754 binary64 value, ties to even
  (section 4.3.1 of IEEE 754-2008). The library multiplies a `double` count of seconds by
  10^7 before truncating it to ticks, and this is that product.
- `Epoch`: Unix time in whole seconds since 1970-01-01T00:00:00 UTC, with no leap seconds,
  as in section 4.16 of the POSIX.1-2017 Base Definitions. A count of seconds becomes a
  `DateTime` in two ways: `FromDoubleSeconds` rounds the product as the library does, and
  `FromUnixSeconds` is exact. A `DateTime` becomes seconds truncated toward zero.
- `RelativeTime`: the relative-time formatter. The library holds three token-for-token
  identical copies of it. Here it is one function, with the clock reading `DateTime.UtcNow`
  passed in as `now`.
- `DateTimeHelper`, `DateTimeExtensions`, `PortableExtensions`: the three library classes.
  Their operations are written over the layers above, and each formatter copy is the
  shared function.

Exceptions are values of a `Result` type:

| exception | when |
|---|---|
| `ArgumentError` | an empty timestamp string |
| `FormatError` | text that is not a number |
| `ArgumentOutOfRange` | a `DateTime` outside its range |

`EachDay` is a method with the loop of the source. It returns the days it yields and
whether the enumeration ends by throwing: after 9999-12-31 is yielded, `AddDays(1)` raises.

Behaviour of the code worth knowing:

- Exactly three days ago reads "3 Days 0 mins ago". The hour component 0 is not above 1, so
  the minutes text is used.
- Beyond a week and within twelve calendar months, the text is "MMMM dd " with a trailing
  space and no "ago".
- An empty timestamp string raises `ArgumentException`, while text that is not a number
  raises `FormatException`.
- A second count outside the `DateTime` range raises `ArgumentOutOfRangeException`.
- `EachDay` compares dates, not instants. A start later than the end on the same day still
  yields that day.
- The product of the seconds and 10^7 is exact up to 115292150460 seconds after the epoch
  (`ExactSecondsBound`, in the year 5623). Beyond it the product can round down, and the
  instant then reads back one second short. Before the epoch every count is exact.

## Model

| member | source | states |
|---|---|---|
| Ticks.SpanComponents | DateTimeHelper/DateTimeHelper.cs:44-54 | the Days, Hours and Minutes components of a span rebuild it up to a sub-minute rest; all take the span's sign, with hours under 24 and minutes under 60 in magnitude |
| Ticks.SpanStepNonNegative | DateTimeHelper/DateTimeHelper.cs:44-54 | for a non-negative span, the components are plain floor divisions, one unit below the next |
| Ticks.Date | DateTimeHelper/DateTimeHelper.cs:67 | `.Date` is the midnight at or before the instant, less than a day before it |
| Ticks.AddDays | DateTimeHelper/DateTimeHelper.cs:67 | AddDays succeeds exactly when the result is in range, and then moves the instant by that many whole days |
| Ticks.SubtractNeverFails | DateTimeHelper/DateTimeHelper.cs:82-89 | subtracting two DateTimes never throws, so the fallback subtraction is never taken |
| Calendar.DaysInMonthRule | DateTimeHelper.Portable/DateTimeExtensions.cs:51 | February has 29 days exactly in leap years and 28 otherwise; April, June, September and November have 30 |
| Calendar.LeapYearCycles | DateTimeHelper.Portable/DateTimeExtensions.cs:51 | a year is a leap year exactly when it ends a 4-year cycle that is not the last of a century, unless the century ends a 400-year cycle |
| Calendar.SplitDayNumberCorrect | DateTimeHelper.Portable/DateTimeExtensions.cs:41 | splitting a day number gives a year and a day of that year whose day number is the input |
| Calendar.YearDayUnique | DateTimeHelper.Portable/DateTimeExtensions.cs:41 | a day number has only one year and day-of-year |
| Calendar.MonthSearchFinds | DateTimeHelper.Portable/DateTimeExtensions.cs:41 | searching from any earlier month finds the month whose table range holds the day of the year |
| Calendar.Compose | DateTimeHelper.Portable/DateTimeExtensions.cs:41 | `new DateTime(y, m, d, ...)` lands on the day number of its date |
| Calendar.Decompose | DateTimeHelper.Portable/DateTimeExtensions.cs:41 | the Year, Month, Day, Hour, Minute, Second fields of an instant form a valid date and time |
| Calendar.DecomposeCompose | DateTimeHelper.Portable/DateTimeExtensions.cs:41 | reading the fields of `new DateTime(fields)` gives back those fields |
| Calendar.ComposeDecompose | DateTimeHelper.Portable/DateTimeExtensions.cs:51 | rebuilding an instant from its fields gives back the instant |
| Calendar.SameDayNumberSameDate | DateTimeHelper.Portable/DateTimeExtensions.cs:41 | two valid dates with the same day number are the same date |
| Calendar.Day | DateTimeHelper.Portable/DateTimeExtensions.cs:51 | the day of the month lies between 1 and the month's length |
| Calendar.DayOfWeek | DateTimeHelper.Portable/DateTimeExtensions.cs:62 | the weekday is in Sunday = 0 .. Saturday = 6 |
| Text.NatToStringValue | DateTimeHelper/DateTimeHelper.cs:31 | the decimal text of a natural number reads back as that number |
| Text.ParseIntToString | DateTimeHelper/DateTimeHelper.cs:31 | parsing the invariant-culture decimal text of any integer gives the integer back |
| Text.FixedDigits | DateTimeHelper.Portable/DateTimeExtensions.cs:31 | a zero-padded field has exactly its width, only digits, and reads back as the value |
| Binary64.RoundToMultiple | DateTimeHelper/DateTimeHelper.cs:17 | the nearest multiple of the spacing, at most half a spacing away, the even one on a tie, and the input itself when it is a multiple |
| Binary64.RoundToDouble | DateTimeHelper/DateTimeHelper.cs:17 | the product rounded to binary64: a multiple of the spacing at its magnitude, at most half a spacing away, exact when representable |
| Binary64.ExactWhenMultiple | DateTimeHelper/DateTimeHelper.cs:17 | a multiple of 2^k below 2^53 * 2^k is a binary64 value and is not rounded |
| Binary64.RoundNear | DateTimeHelper/DateTimeHelper.cs:17 | below 2^53 * 2^k the rounding moves the product by at most 2^(k-1) |
| Binary64.RoundRelative | DateTimeHelper/DateTimeHelper.cs:17 | from 2^53 on the rounding moves the product by at most 1/2^53 of itself |
| Epoch.UnixEpochIs1970 | DateTimeHelper/DateTimeHelper.cs:16 | the epoch tick count is 1970-01-01T00:00:00, both ways round |
| Epoch.DoubleTicksExact | DateTimeHelper/DateTimeHelper.cs:17 | the product of up to ExactSecondsBound seconds, either sign, and 10^7 is exact |
| Epoch.DoubleTicksNear | DateTimeHelper/DateTimeHelper.cs:17 | for any in-range count the product is at most 256 ticks from the exact one |
| Epoch.DoubleTicksBeyondMax | DateTimeHelper/DateTimeHelper.cs:17-18 | a count above the last second still lands past the last tick after rounding |
| Epoch.DoubleTicksBeforeMin | DateTimeHelper/DateTimeHelper.cs:17-18 | a count below the first second still lands before tick 0 after rounding |
| Epoch.FromDoubleSeconds | DateTimeHelper/DateTimeHelper.cs:16-18 | the conversion as written succeeds exactly for in-range counts (else ArgumentOutOfRangeException), within 256 ticks of the exact instant, and exact up to ExactSecondsBound |
| Epoch.DoubleAgreesWithExact | DateTimeHelper/DateTimeHelper.cs:17 | up to ExactSecondsBound the conversion as written and the exact one agree, errors included |
| Epoch.DoubleSecondsRoundTrip | DateTimeHelper/DateTimeHelper.cs:14-32 | as written, an in-range count reads back as itself or one less; as itself exactly when the product did not round down, and always up to ExactSecondsBound |
| Epoch.DoubleProductLosesSecond | DateTimeHelper/DateTimeHelper.cs:17 | 115292150461 seconds become 128 ticks early and read back as 115292150460 |
| Epoch.FromUnixSeconds | DateTimeHelper/DateTimeHelper.cs:16-18 | the exact conversion the library intends: a DateTime on a whole second exactly when the seconds are in range, else ArgumentOutOfRangeException |
| Epoch.UnixSeconds | DateTimeHelper/DateTimeHelper.cs:28-30 | the seconds since the epoch, truncated toward zero, and within the representable range |
| Epoch.SecondsRoundTrip | DateTimeHelper/DateTimeHelper.cs:14-32 | with the exact conversion, every in-range second count survives the trip to a DateTime and back |
| Epoch.InstantRoundTrip | DateTimeHelper/DateTimeHelper.cs:14-32 | with the exact conversion, every DateTime on a whole second survives the trip to seconds and back |
| Epoch.InstantDoubleRoundTrip | DateTimeHelper/DateTimeHelper.cs:14-32 | as written, a DateTime on a whole second comes back within 256 ticks, and unchanged up to ExactSecondsBound |
| Epoch.HalfSecondBeforeEpoch | DateTimeHelper/DateTimeHelper.cs:29-30 | half a second before the epoch is second 0 and one and a half seconds before it is -1 |
| Epoch.ParseUnixSeconds | DateTimeHelper/DateTimeHelper.cs:176-179 | an empty string is an ArgumentException, non-numeric text a FormatException, and a number is converted as written |
| Epoch.UnixTimestampText | DateTimeHelper/DateTimeHelper.cs:28-31 | the timestamp text parses back to the truncated seconds |
| Epoch.TextRoundTrip | DateTimeHelper/DateTimeHelper.cs:14-32 | an in-range count's exact DateTime renders as the count's text; that text parses to the conversion as written, which is the exact one up to ExactSecondsBound |
| RelativeTime.Elapsed | DateTimeHelper/DateTimeHelper.cs:81-89 | the elapsed time is always now - instant; the fallback subtraction is never taken |
| RelativeTime.HoursText | DateTimeHelper/DateTimeHelper.cs:94-101 | the first block's days text is empty exactly up to an hour, and otherwise carries "hr" |
| RelativeTime.MinutesText | DateTimeHelper/DateTimeHelper.cs:102-113 | the first block's minutes text is "min" for a minute component of at most 1 and "mins" otherwise, and never carries "Day" or "hr" |
| RelativeTime.CalendarText | DateTimeHelper/DateTimeHelper.cs:117-127 | beyond a week the days text starts with the month and day, carries no "Day" or "hr", and never ends in "ago" |
| RelativeTime.DaysText | DateTimeHelper/DateTimeHelper.cs:131-138 | within a week the days text always carries "Day" |
| RelativeTime.DayHoursText | DateTimeHelper/DateTimeHelper.cs:139-150 | within a week the hour text carries "hr" exactly when the hour component exceeds 1 |
| RelativeTime.FillBuckets | DateTimeHelper/DateTimeHelper.cs:90-152 | the days text is empty exactly up to an hour and carries a marker exactly from an hour to a week; beyond a week the hour text is empty |
| RelativeTime.Assemble | DateTimeHelper/DateTimeHelper.cs:153-160 | the answer is never empty and starts with the days text; it ends in "ago" when a marker is present or the days text is empty, and is the days text alone otherwise |
| RelativeTime.Format | DateTimeHelper/DateTimeHelper.cs:78-165 | the answer is never the catch block's "", and ends in "ago" exactly when at most a week has elapsed |
| RelativeTime.DeadMinuteBranch | DateTimeHelper/DateTimeHelper.cs:102-109 | strictly between one and two minutes the minute component is 1, so the middle minute branch is never taken |
| RelativeTime.UnitMarked | DateTimeHelper/DateTimeHelper.cs:154 | a number followed by a unit containing "Day" or "hr" carries the marker the assembly looks for |
| RelativeTime.UnitUnmarked | DateTimeHelper/DateTimeHelper.cs:154 | a number followed by "min"/"mins" carries no marker |
| RelativeTime.AssembleFirstBlockUnmarked | DateTimeHelper/DateTimeHelper.cs:153-159 | up to an hour the answer is the minutes text followed by "ago" |
| RelativeTime.AssembleFirstBlockMarked | DateTimeHelper/DateTimeHelper.cs:153-155 | above an hour the hours text, the minutes text and "ago" are all kept |
| RelativeTime.AssembleCalendar | DateTimeHelper/DateTimeHelper.cs:153-157 | beyond a week the calendar text is the whole answer |
| RelativeTime.HoursTextOneToTwo | DateTimeHelper/DateTimeHelper.cs:94-97 | strictly between one and two hours the hours text is "1 hr " |
| RelativeTime.FormatFuture | DateTimeHelper/DateTimeHelper.cs:92-113 | an instant in the future reads "<m> min ago" with the non-positive minute component m |
| RelativeTime.FormatWithinHour | DateTimeHelper/DateTimeHelper.cs:92-113 | up to an hour: "<m> min ago" or "<m> mins ago" |
| RelativeTime.FormatOneToTwoHours | DateTimeHelper/DateTimeHelper.cs:94-113 | between one and two hours: "1 hr " then the minutes then "ago" |
| RelativeTime.FormatTwoHoursToDay | DateTimeHelper/DateTimeHelper.cs:98-113 | from two hours to a day: "<h> hrs " then the minutes then "ago" |
| RelativeTime.FormatExactlyOneDay | DateTimeHelper/DateTimeHelper.cs:92-113 | exactly 24 hours reads "0 hrs 0 min ago" |
| RelativeTime.FormatWithinWeek | DateTimeHelper/DateTimeHelper.cs:129-159 | more than a day and up to a week: "<d> Day(s) ", then "<h> hrs " or "<m> mins ", then "ago" |
| RelativeTime.FormatBeyondWeek | DateTimeHelper/DateTimeHelper.cs:115-127 | beyond a week: "MMMM dd " within twelve calendar months, else "MMMM dd yyyy" |
| RelativeTime.NinetySecondsAgo | DateTimeHelper/DateTimeHelper.cs:102-104 | ninety seconds ago reads "1 min ago" |
| RelativeTime.NinetyMinutesAgo | DateTimeHelper/DateTimeHelper.cs:94-113 | ninety minutes ago reads "1 hr 30 mins ago" |
| RelativeTime.ThreeDaysAgo | DateTimeHelper/DateTimeHelper.cs:129-150 | exactly three days ago reads "3 Days 0 mins ago" |
| RelativeTime.TenDaysLater | DateTimeHelper/DateTimeHelper.cs:117-123 | 2017-10-12 12:10:01 seen on 2017-10-22 reads "October 12 " |
| RelativeTime.FourHundredDaysLater | DateTimeHelper/DateTimeHelper.cs:117-127 | the same instant seen on 2018-11-16 reads "October 12 2017" |
| DateTimeHelper.UnixTimeStampToDateTime | DateTimeHelper/DateTimeHelper.cs:14-19 | an in-range count gives an instant within 256 ticks of the exact one, reading back as the count up to ExactSecondsBound and as it or one less beyond; otherwise ArgumentOutOfRangeException |
| DateTimeHelper.DateTimeToUnixTimeStamp | DateTimeHelper/DateTimeHelper.cs:26-32 | the text parses to the whole seconds since the epoch, truncated toward zero |
| DateTimeHelper.UnixTimeStampRoundTrip | DateTimeHelper/DateTimeHelper.cs:14-32 | converting n seconds to a DateTime and back to text gives the text of n up to ExactSecondsBound, and of n or n - 1 beyond |
| DateTimeHelper.UnixTimeStampLosesSecond | DateTimeHelper/DateTimeHelper.cs:14-32 | 115292150461 comes back as "115292150460" |
| DateTimeHelper.UnixTimeStampTruncates | DateTimeHelper/DateTimeHelper.cs:29-31 | sub-second ticks are dropped toward zero: "0" half a second before the epoch, "-1" one and a half seconds before it |
| DateTimeHelper.GetDifferenceBetweenDates | DateTimeHelper/DateTimeHelper.cs:40-57 | the answer is "Unknown" exactly when date1 is earlier than date2 |
| DateTimeHelper.DifferenceWithinHour | DateTimeHelper/DateTimeHelper.cs:45-48 | under an hour: the whole minutes and "  minutes" |
| DateTimeHelper.DifferenceWithinDay | DateTimeHelper/DateTimeHelper.cs:45-50 | from an hour to a day: the whole hours, then the remaining minutes |
| DateTimeHelper.DifferenceBeyondDay | DateTimeHelper/DateTimeHelper.cs:52-54 | a day or more: the whole days, except that a zero hour component reports the minutes alone |
| DateTimeHelper.EachDay | DateTimeHelper/DateTimeHelper.cs:65-69 | the consecutive midnights from start's date through end's date, none when end's date is earlier, and a throw exactly after yielding 9999-12-31 |
| DateTimeHelper.GetFormatedDateTimeString | DateTimeHelper/DateTimeHelper.cs:76-166 | the shared relative-time text, never "" |
| DateTimeHelper.GetFormatedDateTimeStringOfText | DateTimeHelper/DateTimeHelper.cs:174-181 | the empty and non-numeric errors escape; an in-range number is formatted, and an out-of-range one throws |
| DateTimeExtensions.Parse | DateTimeHelper/DateTimeExtensions.cs:16-21 | an in-range count gives an instant within 256 ticks of the exact one, on that whole second up to ExactSecondsBound; otherwise ArgumentOutOfRangeException |
| DateTimeExtensions.ParseIgnoresReceiver | DateTimeHelper/DateTimeExtensions.cs:16-21 | the receiver is not read, so it plays no part in the answer |
| DateTimeExtensions.ParseText | DateTimeHelper/DateTimeExtensions.cs:30-36 | an empty string is an ArgumentException, non-numeric text a FormatException, and a number is parsed |
| DateTimeExtensions.ToUnixTimeStamp | DateTimeHelper/DateTimeExtensions.cs:43-49 | the text parses to the truncated Unix seconds |
| DateTimeExtensions.ParseToUnixTimeStamp | DateTimeHelper/DateTimeExtensions.cs:30-49 | a DateTime on a whole second, rendered and parsed back on any receiver, comes back within 256 ticks, and unchanged up to ExactSecondsBound |
| DateTimeExtensions.ToFormatedDateTimeString | DateTimeHelper/DateTimeExtensions.cs:56-146 | the shared relative-time text, never "" |
| PortableExtensions.ToUnixTimeStamp | DateTimeHelper.Portable/DateTimeExtensions.cs:16-22 | the text parses to the truncated Unix seconds |
| PortableExtensions.UnixTimeStampOfWholeSecond | DateTimeHelper.Portable/DateTimeExtensions.cs:16-22 | a DateTime on a whole second, through ToUnixTimeStamp and UnixTimeStampToDateTime, comes back within 256 ticks, and unchanged up to ExactSecondsBound |
| PortableExtensions.IsoLayout | DateTimeHelper.Portable/DateTimeExtensions.cs:31 | "yyyy-MM-dd HH:mm:ss" puts its six fields at fixed places between fixed separators |
| PortableExtensions.ToStringIso | DateTimeHelper.Portable/DateTimeExtensions.cs:29-32 | 19 characters: the zero-padded year, month, day, hour, minute and second of the instant between '-', ' ' and ':' |
| PortableExtensions.GetFirstDayOfTheMonth | DateTimeHelper.Portable/DateTimeExtensions.cs:39-42 | the result's fields are day 1 of the instant's year and month, at midnight |
| PortableExtensions.FirstDayOfTheMonthBounds | DateTimeHelper.Portable/DateTimeExtensions.cs:39-42 | the first day is a midnight at or before the instant and less than a month before it |
| PortableExtensions.GetLastDayOfTheMonth | DateTimeHelper.Portable/DateTimeExtensions.cs:49-52 | the result's fields are the last day of the instant's year and month, at midnight |
| PortableExtensions.LastDayOfTheMonthBounds | DateTimeHelper.Portable/DateTimeExtensions.cs:49-52 | the last day is a midnight on or after the instant's date and less than a month after it |
| PortableExtensions.LastDayOfTheMonthIsLast | DateTimeHelper.Portable/DateTimeExtensions.cs:49-52 | the day after the last day of the month is day 1 of the next month |
| PortableExtensions.DayAfterMonthEnd | DateTimeHelper.Portable/DateTimeExtensions.cs:51 | one day after a month's last midnight is the first midnight of the next month, or of next January |
| PortableExtensions.GetFirstDayOfWeek | DateTimeHelper.Portable/DateTimeExtensions.cs:60-68 | a midnight with the requested weekday, among the seven days ending with the instant's date; ArgumentOutOfRangeException only in the first six days |
| PortableExtensions.WeekStart | DateTimeHelper.Portable/DateTimeExtensions.cs:62-67 | the adjusted difference lies in 0..6 and stepping back by it lands on the requested weekday |
| PortableExtensions.FirstDayOfWeekUnique | DateTimeHelper.Portable/DateTimeExtensions.cs:60-68 | any midnight with the requested weekday among those seven days is the answer |
| PortableExtensions.GetLastDayOfWeek | DateTimeHelper.Portable/DateTimeExtensions.cs:76-79 | six days after the first day of the week, the weekday before the start, in the seven days from the instant's date; ArgumentOutOfRangeException only near either end of the range |
| PortableExtensions.LastDayFollowsFirst | DateTimeHelper.Portable/DateTimeExtensions.cs:76-79 | whenever the first day exists and six more days fit, the last day is six days after it |
| PortableExtensions.ToFormatedDateTimeString | DateTimeHelper.Portable/DateTimeExtensions.cs:86-176 | the shared relative-time text, never "" |
| PortableExtensions.FormatterCopiesAgree | DateTimeHelper.Portable/DateTimeExtensions.cs:86-176 | the three copies of the formatter give the same text for every clock reading and instant, since each is the shared function |
| PortableExtensions.UnixTimeStampOfTestInstant | DateTimeHelper.Tests/DateTimeExtensionsUnitTests.cs:12-17 | the test instant survives ToUnixTimeStamp followed by UnixTimeStampToDateTime |
| PortableExtensions.ToStringIsoOfTestInstant | DateTimeHelper.Tests/DateTimeExtensionsUnitTests.cs:20-24 | 2017-10-12 12:10:01 renders as "2017-10-12 12:10:01" |
| PortableExtensions.FirstDayOfTheMonthOfTestInstant | DateTimeHelper.Tests/DateTimeExtensionsUnitTests.cs:27-32 | the first day of the test instant's month is 2017-10-01 |
| PortableExtensions.LastDayOfTheMonthOfTestInstant | DateTimeHelper.Tests/DateTimeExtensionsUnitTests.cs:35-40 | the last day of the test instant's month is 2017-10-31 |
| PortableExtensions.FirstDayOfWeekOfTestInstant | DateTimeHelper.Tests/DateTimeExtensionsUnitTests.cs:43-56 | the week starting on Monday begins 2017-10-09, the week starting on Sunday 2017-10-08 |
| PortableExtensions.LastDayOfMondayWeekOfTestInstant | DateTimeHelper.Tests/DateTimeExtensionsUnitTests.cs:59-64 | the week starting on Monday ends 2017-10-15 |
| PortableExtensions.LastDayOfSundayWeekOfTestInstant | DateTimeHelper.Tests/DateTimeExtensionsUnitTests.cs:67-72 | the week starting on Sunday ends 2017-10-14 |

## Left out

- Time zones: `ConvertDateTimeInTimeZone` and the `ToTimeZone` overloads of both extension classes depend on the host's time-zone database.
- The clock: `DateTime.UtcNow` is the parameter `now` of every formatter.
- DateTimeHelper.UnixTimeStampToDateTime: takes whole seconds only. The `double` parameter also admits fractional seconds, which are not modelled; the rounding of the product is.
- DateTimeExtensions.Parse: takes whole seconds only, as UnixTimeStampToDateTime does.
- Binary64.RoundToDouble: the product is rounded once to binary64, with ties to even. Intermediate results held at the 80-bit x87 precision of some 32-bit runtimes are not modelled.
- Epoch.ParseUnixSeconds: accepts an optional '-' followed by decimal digits. The rest of `double.Parse`'s grammar is not modelled: "+5", " 5", "1.5", "1e3", and culture-specific signs and separators. Neither is the `OverflowException` of older frameworks.
- DateTimeExtensions.ParseText: parses only the grammar of Epoch.ParseUnixSeconds, so text such as "1.5", " 5", "+5" or "1e3" is a FormatException here, while the source accepts it.
- DateTimeHelper.GetFormatedDateTimeStringOfText: parses only the grammar of Epoch.ParseUnixSeconds, as ParseText does.
- Floating point in the formatter: `TotalDays`, `TotalHours` and `TotalMinutes` comparisons are exact tick comparisons. The doubles may round a span within a fraction of a tick of a boundary the other way.
- Culture: "MMMM" is the English month name, and the date and time separators are '-' and ':'.
- DateTimeExtensions.ToUnixTimeStamp: the source renders the seconds in the current culture; the model always uses '-' as the negative sign, as the invariant culture does.
- PortableExtensions.ToUnixTimeStamp: renders in the current culture, like DateTimeExtensions.ToUnixTimeStamp; the model uses '-'.
- RelativeTime.Format: the numbers joined into the text are rendered in the current culture; the model uses '-' for the negative minute component of a future instant ("-1 min ago").
- `null` strings are not modelled apart from the empty string; both raise the same `ArgumentException`.
- DateTimeHelper.EachDay: returns the whole enumeration as a sequence, not lazily, and a flag for the final throw.
- `DateTimeKind` is not modelled: only tick counts matter to every modelled operation.
- PortableExtensions.GetFirstDayOfWeek: `startOfWeek` is limited to the named weekdays 0..6; other integer values cast to `DayOfWeek` are not modelled.
- PortableExtensions.GetLastDayOfWeek: `startOfWeek` is limited to 0..6, as for GetFirstDayOfWeek.
- The `ToTimeZoneTest` unit tests are not modelled, since they need time zones.

## Findings

| source | as written | input that shows it | evidently intended | confidence | as-written member | corrected member |
|---|---|---|---|---|---|---|
| DateTimeHelper/DateTimeHelper.cs:17 | the seconds are multiplied by 10^7 as a `double` and truncated to ticks, so above 115292150460 seconds the product can round down | 115292150461 seconds: the product rounds to 128 ticks early, and the instant reads back as 115292150460 | every in-range whole second count converts to exactly that second, so it reads back unchanged | not executed; assumes binary64 round-to-nearest-even as on x64 | Epoch.DoubleProductLosesSecond | Epoch.SecondsRoundTrip |

The same product appears in DateTimeHelper/DateTimeExtensions.cs:19. The library's
operations keep the product as written, so their round-trip contracts are exact only up to
`ExactSecondsBound`. `Epoch.FromUnixSeconds` is the corrected conversion, and
`Epoch.DoubleAgreesWithExact` shows the two agree up to that bound.
