# Working-day calendar and date utilities, modelled in Dafny

This project models the date utilities of a Gantt-chart scheduling library, `src/utils/date_utils.ts`.
It also models the two functions that exist only in the compiled copy, `temp/src/utils/date_utils.js`:
`calculateAdjustedEndDate` and `countWorkingDaysInPeriod`. The model covers:

- the Gregorian leap-year rule and month lengths (`isLeapYear`, `getDaysInMonth`, `getMonthDaysArray`);
- the working calendar: a weekly pattern of working weekdays plus a list of holidays that may recur
  yearly (`isWorkingDay`, `isHoliday`, `isNonWorkingDay`, `DEFAULT_WORKING_DAYS`);
- the day-by-day loops over that calendar (`countNonWorkingDays`, `countWorkingDaysInPeriod`,
  `addWorkingDays`, `calculateAdjustedEndDate`);
- the display window of the chart (`getMinDate`, `getMaxDate`);
- the text side: the pattern tokenizer `parseDateFormatStr`, the renderer `formatDateStr`, the parser
  `parseDateStr` and the ISO week number `getIsoWeek`.

## Modules

| file | module | what it holds |
|---|---|---|
| `gregorian.dfy` | `Gregorian` | leap years, month lengths, day counts before a month and before a year, `Math.ceil` of a quotient |
| `local_time.dfy` | `LocalTime` | the slice of JavaScript's `Date` the utilities use: getters, the constructor and setters |
| `working_calendar.dfy` | `WorkingCalendar` | weekday flags, holidays, the counting loops, `addWorkingDays`, `calculateAdjustedEndDate` |
| `display_window.dfy` | `DisplayWindow` | `getMinDate` and `getMaxDate`: the scan over task records and the widening to a boundary |
| `decimal_text.dfy` | `DecimalText` | decimal text of integers, `Number` on digit runs, `substring`, ASCII `toLowerCase` |
| `iso_week.dfy` | `IsoWeek` | `getIsoWeek` beside a reference definition of ISO 8601 week numbers |
| `format_pattern.dfy` | `FormatPattern` | `parseDateFormatStr` and the unique split of a pattern |
| `date_format.dfy` | `DateFormat` | `formatDateStr`, token by token |
| `date_parse.dfy` | `DateParse` | `parseDateStr` |
| `round_trip.dfy` | `RoundTrip` | dates written by `formatDateStr` and read back by `parseDateStr` |
| `option.dfy` | `Optional` | the `Option` datatype |

## How JavaScript's Date is modelled

- **Instants.** An instant is an integer count of local wall-clock seconds since 1970-01-01 00:00:00
  (`LocalTime.Time`).
  - The calendar date comes from the day number by the Gregorian rules. It is computed by a search
    that is proved to invert the day-number function (`LocalTime.CivilRoundTrip`).
  - `getDay()` is `(day + 4) % 7`, because 1 January 1970 was a Thursday.
- **Constructor and setters.** The `Date` constructor and the setters `setDate`, `setHours`,
  `setMinutes` and `setFullYear` are functions following ECMAScript's MakeDay. Overflowing fields
  carry into the next month or year, and `new Date(y, ...)` reads a year 0 .. 99 as 1900 .. 1999.
- **Loop steps.** Each loop step of the source, for example `date.setDate(date.getDate() + 1)`, is a
  method call. Its contract says the step moves the instant by exactly one day (or one hour), so the
  loops become whole-day or whole-hour arithmetic.
- **The current moment.** `new Date()` (the current moment) is a parameter `now`.
- **Invalid Date.** An Invalid Date that `parseDateStr` returns is `None` of an `Option`. It comes from the
  date-and-time format without seconds, or from the constructor's TimeClip: a time value more than
  8.64e15 ms (100 000 000 days) from 1970 is an Invalid Date (`LocalTime.InTimeRange`).
- **Locale table.** The locale table of `formatDateStr` is a `map<string, string>`. A missing entry
  reads as JavaScript's `undefined`, which string concatenation writes as the text `"undefined"`.

## Behaviour worth noting

The model follows the code in each case below.

- **`addWorkingDays` from Wednesday 24 April 2024.** `test/holiday-system.test.ts:139-147` expects
  that adding five working days to Wednesday 24 April 2024 under Monday-to-Friday lands on
  Tuesday 30 April.
  - The loop advances first and then counts, so the five working days are Thursday 25, Friday 26,
    Monday 29, Tuesday 30 and Wednesday 1 May. The code returns Wednesday 1 May.
  - `WorkingCalendar.AddFiveWorkingDaysFrom24April2024` proves the result is 1 May and not 30 April.
  - `calculateAdjustedEndDate` passes `expectedWorkingDays - 1` for the same reason. So the code, not
    the test, matches the rest of the library.
- **The separator class of `parseDateFormatStr`** (`src/utils/date_utils.ts:421`).
  - The string literal `'[\/\\ -.,\'":]'` unescapes to the class `[/\ -.,'":]`. In that class `\ `
    is an escaped space that opens the range from space to `.`; it is not a backslash.
  - So the class holds `/`, `:` and every character from space to `.`, which takes in `!`, `#`, `$`,
    `%`, `&`, `(`, `)`, `*` and `+` as well as `'`, `"`, `,`, `-` and `.`. A backslash is not a separator.
  - `FormatPattern.IsSeparator` states this class.
- **Time of day in `getMaxDate`.** `getMinDate` zeroes the time of day after snapping
  (`src/utils/date_utils.ts:228-229`; minutes and seconds only for `hour`). `getMaxDate` (`src/utils/date_utils.ts:247-280`) has no such step,
  so its result keeps the time of day of the latest instant.
- **`getMaxDate` in the `month` format** (`src/utils/date_utils.ts:258-262`). The loop moves forward
  until the date is a first of the month, then `setDate(getDate() - 1)` steps back one day. When the
  latest instant already falls on a first, the loop does not move it, so the window ends the day
  before that instant rather than on the last day of its month, as the code's own comment at
  `src/utils/date_utils.ts:259` intends (`DisplayWindow.MonthWindowEndsBeforeFirst`).
- **`parseDateStr` with the `yyyy-mm-dd HH:MI:SS` format** (`src/utils/date_utils.ts:310-311`). Padding
  stops at five parts, so when the text has fewer than six numeric parts the constructor receives
  `undefined` seconds and the result is an Invalid Date (`DateParse.ParseFallback`).

## Model

| member | source | states |
|---|---|---|
| Gregorian.GetDaysInMonth | src/utils/date_utils.ts:46-55 | every month has 28 to 31 days |
| Gregorian.DaysInMonthTable | src/utils/date_utils.ts:46-55 | the length is 29 for February of a leap year, the table's entry otherwise |
| Gregorian.DaysInMonthRule | test/leap-year.test.ts:30-58 | February has 29 days exactly in a leap year and 28 exactly in a common year; April, June, September and November have 30; the other seven months have 31 |
| Gregorian.GetMonthDaysArray | src/utils/date_utils.ts:62-71 | the result is a fresh twelve-element array whose entry for each month is that month's length in the given year |
| Gregorian.CeilDiv | temp/src/utils/date_utils.js:17 | `Math.ceil(a / b)` for a positive divisor is the least q with a <= b * q, for negative a too; `getIsoWeek` (src/utils/date_utils.ts:462) rounds up the same way |
| LocalTime.SetDateShift | src/utils/date_utils.ts:146 | `setDate(getDate() + k)` moves the instant by exactly k whole days, across month and year ends |
| LocalTime.MoveDays | src/utils/date_utils.ts:146 | the day step of every day-by-day loop yields the instant k days later |
| LocalTime.SetHoursShift | src/utils/date_utils.ts:225 | `setHours(getHours() + k)` moves the instant by exactly k hours, across day ends |
| LocalTime.MoveHours | src/utils/date_utils.ts:225 | the hour step of the hour loops yields the instant k hours later |
| LocalTime.MoveToMidnight | src/utils/date_utils.ts:230 | `setHours(0, 0, 0)` gives midnight of the same day |
| LocalTime.MoveToHourStart | src/utils/date_utils.ts:229 | `setMinutes(0, 0)` keeps the hour and zeroes minutes and seconds |
| LocalTime.MoveToCalendarDate | src/utils/date_utils.ts:216 | `setFullYear(y, m, d)` on an existing calendar day gives that year, month and day at the same time of day |
| LocalTime.CivilRoundTrip | src/utils/date_utils.ts:109-111 | reading the calendar date of a valid date's day number gives that date back, so the getters invert the constructor |
| LocalTime.FourDigitYearInRange | src/utils/date_utils.ts:307-311 | an instant with a year 1000 .. 9999, and the midnight of its day, are inside the range of a time value, so the constructor does not clip them |
| LocalTime.FarYearOutOfRange | src/utils/date_utils.ts:307-308 | the constructor on a year from 300000 on, a month 0 .. 11, a day past 0 and non-negative time fields lies more than 100 000 000 days from 1970, beyond the range of a time value |
| WorkingCalendar.IsWorkingDayReadsFlag | src/utils/date_utils.ts:79-92 | a date is a working day exactly when the flag of its weekday (0 = Sunday) is set |
| WorkingCalendar.DefaultWorkingDaysAreMondayToFriday | src/utils/date_utils.ts:178-186 | under the default configuration a date is a working day exactly from Monday to Friday |
| WorkingCalendar.IsHolidayIffSomeCovers | src/utils/date_utils.ts:100-117 | `isHoliday` holds exactly when some holiday of the list covers the exact instant |
| WorkingCalendar.HolidayOverridesWorkingDay | src/utils/date_utils.ts:126-128 | a date covered by a holiday is non-working even on a working weekday |
| WorkingCalendar.WorkingPlusNonWorking | src/utils/date_utils.ts:126-128 | over any run of days, working and non-working days add up to the number of days |
| WorkingCalendar.DaysBefore | src/utils/date_utils.ts:142 | the number of days `while (current < end)` visits is the least n with start + n days at or after end |
| WorkingCalendar.DaysThrough | temp/src/utils/date_utils.js:48 | the number of days `while (current <= end)` visits is the least n with start + n days after end |
| WorkingCalendar.CountNonWorkingDays | src/utils/date_utils.ts:138-150 | the count is the number of non-working days among the days visited in [start, end); it is 0 when end is not after start |
| WorkingCalendar.CountWorkingDaysInPeriod | temp/src/utils/date_utils.js:45-55 | the count is the number of working days among the days visited in [start, end], both ends included; it is 0 when end is before start |
| WorkingCalendar.RangeAsymmetry | temp/src/utils/date_utils.js:48 | for an end k days after the start the inclusive count visits k + 1 days and the half-open one k |
| WorkingCalendar.AddWorkingDays | src/utils/date_utils.ts:160-173 | for n <= 0 the start is returned; otherwise the result lies whole days after the start, is a working day, and exactly n working days lie in (start, result] |
| WorkingCalendar.LandsOnNthWorkingDayUnique | src/utils/date_utils.ts:164-170 | only one date meets that promise, so the result is determined by the inputs |
| WorkingCalendar.AddWorkingDaysTerminates | src/utils/date_utils.ts:164-170 | the loop ends whenever some weekday is flagged and no holiday recurs |
| WorkingCalendar.CalculateAdjustedEndDate | temp/src/utils/date_utils.js:15-33 | with no flagged day in the original span the original end comes back; with one, the start; otherwise the day by which a span from the start, holidays skipped and the first day counted, holds as many working days, no earlier than the start |
| WorkingCalendar.RecurringHolidayEveryYear | src/utils/date_utils.ts:108-115 | a one-day recurring holiday covers midnight of its month and day in every year outside 0 .. 99 in which that day exists |
| WorkingCalendar.RecurringAcrossYearEndNeverMatches | src/utils/date_utils.ts:108-115 | a recurring holiday whose end month and day come before its start month and day covers no date |
| WorkingCalendar.LeapDayOverflows | src/utils/date_utils.ts:110-111 | in a common year `new Date(y, 1, 29)` is 1 March |
| WorkingCalendar.LeapDayHolidayInCommonYear | src/utils/date_utils.ts:108-112 | a recurring 29 February holiday covers 1 March in a common year |
| WorkingCalendar.DefaultNonWorkingDay | test/holiday-system.test.ts:102-105 | with no holidays the default configuration makes exactly Saturday and Sunday non-working |
| WorkingCalendar.FiveWorkingDaysFromWednesday | test/holiday-system.test.ts:139-147 | five working days from any Wednesday end on the next Wednesday |
| WorkingCalendar.AddFiveWorkingDaysFrom24April2024 | test/holiday-system.test.ts:139-147 | five working days from Wednesday 24 April 2024 end on Wednesday 1 May, not Tuesday 30 April |
| WorkingCalendar.WeekendsInOneWeek | test/holiday-system.test.ts:118-125 | from a Monday to the next Monday, end excluded, there are two non-working days |
| WorkingCalendar.ThreeDayTaskFromMonday | test/manual-task-adjustment-test.ts:66-72 | a Monday-to-Wednesday task spans three flagged days |
| WorkingCalendar.SecondWorkingDayPastHolidayTuesday | test/manual-task-adjustment-test.ts:66-72 | from a Monday whose Tuesday is a holiday, the second working day is Thursday |
| WorkingCalendar.TaskStretchedOverHoliday | test/manual-task-adjustment-test.ts:66-72 | a Monday-to-Wednesday task whose Tuesday is a holiday is stretched to end on Thursday |
| DisplayWindow.EarliestIsMinimum | src/utils/date_utils.ts:194-198 | the scan's result is no later than the seed, every start and every planned start that is set, and it is one of them |
| DisplayWindow.LatestIsMaximum | src/utils/date_utils.ts:241-245 | the scan's result is no earlier than the seed, every end and every planned end that is set, and it is one of them |
| DisplayWindow.RewindToMonday | src/utils/date_utils.ts:201-208 | the result is the Monday one to seven days back, at the same time of day |
| DisplayWindow.RewindToMonthStart | src/utils/date_utils.ts:211 | the result is the first of the same month, at the same time of day |
| DisplayWindow.FirstOfQuarter | src/utils/date_utils.ts:213-222 | the result is the first day of the first month of the date's quarter, at the same time of day |
| DisplayWindow.RewindToSixHourMark | src/utils/date_utils.ts:224-227 | the result is the hour one to six hours back whose hour of the day is a multiple of six, minutes and seconds kept |
| DisplayWindow.SnapDown | src/utils/date_utils.ts:200-231 | the start is moved back to the boundary of its format and its time is zeroed, only minutes and seconds for 'hour' |
| DisplayWindow.GetMinDate | src/utils/date_utils.ts:188-232 | an empty list gives the bound, or now when there is none; otherwise the earliest instant of the scan, seeded by a bound other than 0 or by the first start, snapped down |
| DisplayWindow.WindowStartBefore | src/utils/date_utils.ts:200-231 | the snapped start is never after the earliest instant, and strictly before it for the five known formats |
| DisplayWindow.WindowStartDetermined | src/utils/date_utils.ts:200-231 | the snapped start is determined by the earliest instant and the format |
| DisplayWindow.WindowStartsBeforeEveryTask | src/utils/date_utils.ts:188-232 | for a non-empty list the window starts no later than every start, every planned start and a bound other than 0 |
| DisplayWindow.ForwardToSunday | src/utils/date_utils.ts:248-257 | the result is the Sunday one to seven days ahead, at the same time of day |
| DisplayWindow.ForwardToMonthStart | src/utils/date_utils.ts:260 | the result is the date itself on a first, otherwise the first of the next month, at the same time of day |
| DisplayWindow.ForwardToMonthEnd | src/utils/date_utils.ts:258-262 | the result is the last day of the date's month, or the day before when the date is a first |
| DisplayWindow.LastOfQuarter | src/utils/date_utils.ts:263-273 | the result is the last day of the date's quarter, at the same time of day |
| DisplayWindow.ForwardToSixHourEnd | src/utils/date_utils.ts:274-279 | the result is one to six hours ahead, counted from the next day when the hour is 0, with hour 5, 11, 17 or 23 |
| DisplayWindow.GetMaxDate | src/utils/date_utils.ts:234-281 | an empty list gives the bound, or now when there is none; otherwise the latest instant of the scan, seeded by a bound other than 0 or by the first end, snapped up |
| DisplayWindow.WindowEndAfter | src/utils/date_utils.ts:247-280 | the snapped end is never before the latest instant, unless a month window meets a first, and strictly after it for 'day', 'week' and 'hour' |
| DisplayWindow.MonthWindowEndsBeforeFirst | src/utils/date_utils.ts:258-262 | a month window whose latest instant falls on a first ends the day before it |
| DisplayWindow.WindowEndDetermined | src/utils/date_utils.ts:247-280 | the snapped end is determined by the latest instant and the format |
| DisplayWindow.WindowEndsAfterEveryTask | src/utils/date_utils.ts:234-281 | for a non-empty list the window ends no earlier than every end, every planned end and a bound other than 0, unless a month window meets a first |
| DecimalText.NatToString | src/utils/date_utils.ts:337 | the decimal text of a number is digits only, one digit exactly below ten, with no leading zero |
| DecimalText.IntToString | src/utils/date_utils.ts:357 | a negative number is written as a minus sign before the digits of its magnitude |
| DecimalText.DecimalRoundTrip | src/utils/date_utils.ts:296 | `Number` of the decimal text of a number is that number |
| DecimalText.NatToStringInjective | src/utils/date_utils.ts:337 | distinct numbers have distinct texts |
| DecimalText.PadTwoDigits | src/utils/date_utils.ts:334-338 | the padded form of a number below 100 has two digits that read back as the number, and starts with '0' exactly below ten |
| DecimalText.ToLower | src/utils/date_utils.ts:410 | lower-casing keeps the length and maps each ASCII capital to its small letter |
| DecimalText.ToLowerIdempotent | src/utils/date_utils.ts:410 | lower-cased text holds no ASCII capital, and lower-casing it again changes nothing |
| IsoWeek.GetIsoWeek | src/utils/date_utils.ts:449-467 | the week number is between 1 and 53 |
| IsoWeek.GetIsoWeekStep | src/utils/date_utils.ts:464 | a first estimate of 0 or less defers to 31 December of the year before |
| IsoWeek.LastDayHasPositiveWeek | src/utils/date_utils.ts:464 | 31 December has a first estimate of at least 52, so the recursion stops after one step |
| IsoWeek.GetIsoWeekPositive | src/utils/date_utils.ts:462-465 | a positive first estimate is the answer, except that 53 becomes 1 when neither 1 January nor 31 December is a Thursday |
| IsoWeek.IsoWeekBounds | src/utils/date_utils.ts:449-467 | ISO week numbers run from 1 to 53, and a day's week-numbering year is its own calendar year or a neighbour |
| IsoWeek.WeekFiftyThree | src/utils/date_utils.ts:465 | week 53 exists only in a week-numbering year that starts or ends on a Thursday |
| IsoWeek.LastWeekOfYear | src/utils/date_utils.ts:465 | 28 December is in week 53 exactly when 1 January or 31 December is a Thursday, and in week 52 otherwise |
| IsoWeek.EarlyDays | src/utils/date_utils.ts:451-456 | the days of a year before the Monday of the week holding 4 January belong to the last week of the year before |
| IsoWeek.PositiveEstimate | src/utils/date_utils.ts:462-465 | where the first estimate is positive, getIsoWeek is the ISO week number of the day |
| IsoWeek.NonPositiveEstimate | src/utils/date_utils.ts:464 | where the first estimate is not positive, getIsoWeek is the ISO week number of the day, and the day belongs to the previous week-numbering year |
| IsoWeek.GetIsoWeekIsIsoWeek | src/utils/date_utils.ts:449-467 | getIsoWeek is the ISO 8601 week number of the day, and the recursion is taken exactly for days of the previous week-numbering year |
| IsoWeek.WeekYearFromCalendar | src/utils/date_utils.ts:403-404 | the week-numbering year is the year before for a January day in week 52 or 53, the year after for a December day in week 1, and the day's own year otherwise |
| FormatPattern.ParseDateFormatStr | src/utils/date_utils.ts:418-442 | the tokens written out give the pattern back; separator-free components and single separators alternate; the list never ends in an empty component |
| FormatPattern.ShortSplit | src/utils/date_utils.ts:426-433 | a split of at most one token comes from a pattern without separators; a longer one has a separator right after its first component |
| FormatPattern.WellSplitUnique | src/utils/date_utils.ts:418-442 | a pattern has only one such split, so the tokens are determined by the pattern |
| FormatPattern.DatePatternSplit | src/utils/date_utils.ts:418-442 | "yyyy-mm-dd" splits into "yyyy", "-", "mm", "-", "dd" |
| FormatPattern.DateTimePatternSplit | src/utils/date_utils.ts:418-442 | "yyyy-mm-dd HH:MI:SS" splits into its six components and five separators |
| DateFormat.Hour12 | src/utils/date_utils.ts:368-370 | the twelve-hour reading is between 1 and 12 |
| DateFormat.Hour12Back | src/utils/date_utils.ts:368-370 | the hour of the day is the twelve-hour reading modulo 12, plus 12 in the afternoon; 0 and 12 read as 12 |
| DateFormat.FormatDateStr | src/utils/date_utils.ts:318-416 | an absent date gives no value; otherwise the texts of the tokens are appended one by one |
| DateFormat.RenderConcat | src/utils/date_utils.ts:332-414 | the output is the texts of the tokens, each a function of its token alone, written one after the other |
| DateFormat.RenderJoin | src/utils/date_utils.ts:332-414 | the output for two token lists one after the other is the two outputs one after the other |
| DateFormat.PaddedField | src/utils/date_utils.ts:334-398 | a padded token writes '0' before its unpadded partner exactly when the value is below ten, giving two digits that read back as the value |
| DateFormat.TwelveHourClock | src/utils/date_utils.ts:367-393 | 'h' writes a number from 1 to 12; 'pm' writes "am" exactly before noon and 'PM' the capitals; 'h' and 'pm' together give back the hour of the day |
| DateFormat.QuarterToken | src/utils/date_utils.ts:362-366 | 'q' writes the quarter from 1 to 4 whose months hold the date's month; 'qq' writes the 'qtr' entry before it |
| DateFormat.YearTokens | src/utils/date_utils.ts:356-361 | 'yyyy' reads back as a non-negative year; for a four-digit year 'yy' is two digits that read as the year modulo 100 |
| DateFormat.MayNames | src/utils/date_utils.ts:327-329 | May's long name is the 'maylong' entry and its short name the 'may' entry, with "undefined" for a missing entry |
| DateFormat.WeekDayIsIso | src/utils/date_utils.ts:402 | the weekday the 'week' token writes is the day's distance from its week's Monday, plus one |
| DateFormat.WeekYearIsIso | src/utils/date_utils.ts:403-404 | the year the 'week' token writes is the ISO 8601 week-numbering year |
| DateFormat.WeekToken | src/utils/date_utils.ts:399-408 | 'week' writes the ISO 8601 week date: week-numbering year, "-W", week number, "-", weekday from Monday = 1 |
| DateFormat.VerbatimTokens | src/utils/date_utils.ts:409-411 | tokens that name no case and have no non-empty locale entry are written as they stand |
| DateParse.ParseDateStr | src/utils/date_utils.ts:294-316 | the result is the current moment, an Invalid Date, or the constructor on the numeric parts in the order the format names, clipped to the range of a time value |
| DateParse.NumberPartsOfRun | src/utils/date_utils.ts:296 | a run of digits is a single part, read in decimal |
| DateParse.NumberPartsJoin | src/utils/date_utils.ts:296 | a non-digit character cuts the text in two, and the parts of the two halves follow each other |
| DateParse.ParseFallback | src/utils/date_utils.ts:295-314 | the current moment comes back for text under ten characters, for fewer than three parts and for an unknown format; an Invalid Date comes back exactly from the date-and-time format with three to five parts and from a constructor call whose time value is out of range; otherwise the result is the constructor's instant |
| DateParse.FarYearIsInvalid | src/utils/date_utils.ts:300-312 | a constructor call on a year from 300000 on, with a month 1 .. 12 and a day past 0, gives an Invalid Date |
| DateParse.Year300000IsInvalid | src/utils/date_utils.ts:307-308 | "300000-01-01" under 'yyyy-mm-dd' gives an Invalid Date |
| DateParse.DayMonthSwap | src/utils/date_utils.ts:301-306 | 'dd/mm/yyyy' and 'mm/dd/yyyy' read the same instant from texts whose first two runs of digits trade places |
| RoundTrip.ParseRenderedDate | src/utils/date_utils.ts:307-308 | a date written with 'yyyy-mm-dd' is read back as the constructor on its year, month and day at midnight |
| RoundTrip.ParseRenderedDateTime | src/utils/date_utils.ts:310-311 | a date written with 'yyyy-mm-dd HH:MI:SS' is read back as the constructor on all six of its fields |
| RoundTrip.FormatParseDate | src/utils/date_utils.ts:294-316 | tokenizing 'yyyy-mm-dd', writing an instant with it and parsing the text gives midnight of the instant's day |
| RoundTrip.FormatParseDateTime | src/utils/date_utils.ts:294-316 | tokenizing 'yyyy-mm-dd HH:MI:SS', writing an instant with it and parsing the text gives the same instant |

## Left out

- `coerceDate` (`src/utils/date_utils.ts:283-292`) is not modelled. It branches on `instanceof Date`
  and on `new Date(value)` of an arbitrary value, and the model has no run-time types or string-to-date parsing.
- Milliseconds, time zones and daylight-saving changes are not modelled: an instant is a whole number of
  local seconds, so every day has 86400 seconds and `getTime()` order is instant order.
- Object identity is not modelled: dates are values. The copies the source makes (`new Date(startDate.getTime())`) and
  the case where `calculateAdjustedEndDate` hands back the caller's own `originalEndDate` object are the same
  values in the model.
- Date fields that are NaN are not modelled, and the range limit of a time value is modelled only where `parseDateStr` calls the
  constructor. The setters in the day and hour loops, the constructor in `isHoliday` and the arithmetic of `getMinDate` and
  `getMaxDate` never yield an Invalid Date in the model, even for instants near the edge of the range.
- `toLowerCase` is modelled on ASCII letters only; other letters are kept as they are.
- Keys inherited by a JavaScript object (such as `constructor` in a locale table) are not modelled: a locale is a plain map.
- The `id`, `name` and `description` fields of a holiday are left out; no operation reads them.
- `parseDateStr` reads numeric parts as unbounded naturals; very long digit runs that JavaScript reads as rounded floating-point numbers are not modelled.
- WorkingCalendar.AddWorkingDays: requires that enough working days lie ahead, since the source loops forever otherwise; `AddWorkingDaysTerminates` shows this holds whenever a weekday is flagged and no holiday recurs.
- WorkingCalendar.AddWorkingDays: the count `workingDaysToAdd` is a whole number. JavaScript accepts any number there, and a fractional count c behaves as its ceiling, because the loop runs while the whole count reached so far is below c.
- WorkingCalendar.CalculateAdjustedEndDate: requires the same of its call to `addWorkingDays`.
- LocalTime.MoveToCalendarDate: states the result only for a calendar day that exists; `setFullYear` with a day past the month's end carries into the next month, which the function it calls models but the contract does not state.
- IsoWeek.GetIsoWeekIsIsoWeek: proved for years outside 0 .. 100 only. The constructor reads years 0 .. 99 as 1900 .. 1999, so there `getIsoWeek` looks at another year; year 100 recurses into year 99.
- DateFormat.WeekYearIsIso and DateFormat.WeekToken: proved for years outside 0 .. 100 only, for the same reason.
- RoundTrip.FormatParseDate: proved for four-digit years 1000 .. 9999 only, and for locales without a non-empty entry under '-', which would replace the separator.
- RoundTrip.FormatParseDateTime: proved for four-digit years 1000 .. 9999 only, and for locales without a non-empty entry under '-', ' ' or ':'.
- DateParse.ParseDateStr: the length test and the split on non-digits count Unicode characters, not JavaScript's UTF-16 code units. A character outside the Basic Multilingual Plane, such as an emoji, is one non-digit in the model and two in JavaScript, so such text can pass or fail the 10-character test differently and, inside the text, adds an empty part in JavaScript only.
- DateFormat.YearTokens: states the 'yyyy' read-back for non-negative years only; a negative year is written with a minus sign, which `parseDateStr` reads as a separator.
