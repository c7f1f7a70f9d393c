/** The part of JavaScript's Date that the date utilities rely on, as plain integers:
    an instant is a count of local wall-clock seconds, a calendar date is recovered
    from its day number by the Gregorian rules of module Gregorian, and the Date
    constructor and setters are functions from instants to instants. */
module LocalTime {
  import opened Gregorian

  /** A local wall-clock instant: seconds since 1970-01-01 00:00:00, ordered as getTime() orders them. */
  type Time = int

  const SecondsPerDay: int := 86400
  const SecondsPerHour: int := 3600

  /** The day number of an instant (floor division: instants before 1970 get negative days). */
  function Day(t: Time): int {
    t / SecondsPerDay
  }

  function TimeWithinDay(t: Time): (s: int)
    ensures 0 <= s < SecondsPerDay
  {
    t % SecondsPerDay
  }

  /** A calendar date: month 0 (January) .. 11, date 1 .. length of the month. */
  datatype Civil = Civil(year: int, month: int, date: int)

  predicate ValidCivil(c: Civil) {
    0 <= c.month < 12 && 1 <= c.date <= GetDaysInMonth(c.month, c.year)
  }

  /** ECMAScript MakeDay: the month carries into the year by floor division, the date
      may run past either end of the month and then lands in a neighbouring one. */
  function MakeDay(year: int, month: int, date: int): int {
    var y := year + month / 12;
    var m := month % 12;
    DaysBeforeYear(y) + DaysBeforeMonth(m, y) + date - 1
  }

  lemma MakeDayInYear(year: int, month: int, date: int)
    requires 0 <= month < 12
    ensures MakeDay(year, month, date) == DaysBeforeYear(year) + DaysBeforeMonth(month, year) + date - 1
  {
    DivModUnique(month, 12, 0, month);
  }

  function YearDistance(n: int, year: int): nat {
    if n < DaysBeforeYear(year) then DaysBeforeYear(year) - n
    else if DaysBeforeYear(year + 1) <= n then n - DaysBeforeYear(year)
    else 0
  }

  /** The month containing the given day of the year, searched upward from `month`. */
  function MonthSearch(dayOfYear: int, year: int, month: int): (m: int)
    requires 0 <= month < 12
    requires DaysBeforeMonth(month, year) <= dayOfYear < YearLength(year)
    ensures month <= m < 12
    ensures DaysBeforeMonth(m, year) <= dayOfYear < DaysBeforeMonth(m + 1, year)
    decreases 12 - month
  {
    if month == 11 || dayOfYear < DaysBeforeMonth(month + 1, year) then month
    else MonthSearch(dayOfYear, year, month + 1)
  }

  /** The day number of a calendar date within its year: MakeDay without the month carry. */
  function DayNumber(c: Civil): int
    requires 0 <= c.month < 12
  {
    DaysBeforeYear(c.year) + DaysBeforeMonth(c.month, c.year) + c.date - 1
  }

  /** The calendar date of day number n, found by stepping year by year outward from the guess
      `year` and then month by month through the year. */
  function CivilSearch(n: int, year: int): (c: Civil)
    ensures ValidCivil(c) && DayNumber(c) == n
    decreases YearDistance(n, year)
  {
    DaysBeforeYearStep(year - 1);
    DaysBeforeYearStep(year);
    DaysBeforeYearStep(year + 1);
    if n < DaysBeforeYear(year) then CivilSearch(n, year - 1)
    else if DaysBeforeYear(year + 1) <= n then CivilSearch(n, year + 1)
    else
      var month := MonthSearch(n - DaysBeforeYear(year), year, 0);
      DaysBeforeMonthStep(month, year);
      Civil(year, month, n - DaysBeforeYear(year) - DaysBeforeMonth(month, year) + 1)
  }

  /** Civil-from-days: the calendar date of a day number. */
  function CivilFromDays(n: int): (c: Civil)
    ensures ValidCivil(c) && DayNumber(c) == n
  {
    CivilSearch(n, 1970)
  }

  lemma YearUnique(n: int, y1: int, y2: int)
    requires DaysBeforeYear(y1) <= n < DaysBeforeYear(y1 + 1)
    requires DaysBeforeYear(y2) <= n < DaysBeforeYear(y2 + 1)
    ensures y1 == y2
  {
    if y1 < y2 {
      DaysBeforeYearMonotone(y1 + 1, y2);
    } else if y2 < y1 {
      DaysBeforeYearMonotone(y2 + 1, y1);
    }
  }

  /** Where a valid calendar date's day number lies within its year and month. */
  lemma CivilDayBounds(c: Civil)
    requires ValidCivil(c)
    ensures var n := DayNumber(c);
      && DaysBeforeYear(c.year) + DaysBeforeMonth(c.month, c.year) <= n
      && n < DaysBeforeYear(c.year) + DaysBeforeMonth(c.month + 1, c.year)
      && DaysBeforeYear(c.year) <= n < DaysBeforeYear(c.year + 1)
  {
    DaysBeforeMonthStep(c.month, c.year);
    DaysBeforeMonthBounds(c.month + 1, c.year);
    DaysBeforeMonthBounds(c.month, c.year);
    DaysBeforeYearStep(c.year);
  }

  /** Distinct valid calendar dates have distinct day numbers. */
  lemma MonthUnique(dayOfYear: int, year: int, m1: int, m2: int)
    requires 0 <= m1 < 12 && DaysBeforeMonth(m1, year) <= dayOfYear < DaysBeforeMonth(m1 + 1, year)
    requires 0 <= m2 < 12 && DaysBeforeMonth(m2, year) <= dayOfYear < DaysBeforeMonth(m2 + 1, year)
    ensures m1 == m2
  {
    if m1 < m2 {
      DaysBeforeMonthMonotone(m1 + 1, m2, year);
    } else if m2 < m1 {
      DaysBeforeMonthMonotone(m2 + 1, m1, year);
    }
  }

  lemma CivilUnique(c1: Civil, c2: Civil)
    requires ValidCivil(c1) && ValidCivil(c2)
    requires DayNumber(c1) == DayNumber(c2)
    ensures c1 == c2
  {
    var n := DayNumber(c1);
    CivilDayBounds(c1);
    CivilDayBounds(c2);
    YearUnique(n, c1.year, c2.year);
    MonthUnique(n - DaysBeforeYear(c1.year), c1.year, c1.month, c2.month);
  }

  /** A valid calendar date has exactly one day number: days-from-civil then civil-from-days is the identity. */
  lemma CivilRoundTrip(c: Civil)
    requires ValidCivil(c)
    ensures CivilFromDays(DayNumber(c)) == c
  {
    var c' := CivilFromDays(DayNumber(c));
    CivilUnique(c, c');
  }

  /** The calendar date of a midnight day number names that day. */
  lemma CivilFromMakeDay(year: int, month: int, date: int)
    requires ValidCivil(Civil(year, month, date))
    ensures CivilFromDays(MakeDay(year, month, date)) == Civil(year, month, date)
  {
    MakeDayInYear(year, month, date);
    CivilRoundTrip(Civil(year, month, date));
  }

  /** Moving k days inside a month keeps year and month and moves the date by k. */
  lemma ShiftWithinMonth(n: int, k: int)
    requires var c := CivilFromDays(n); 1 <= c.date + k <= GetDaysInMonth(c.month, c.year)
    ensures var c := CivilFromDays(n); CivilFromDays(n + k) == Civil(c.year, c.month, c.date + k)
  {
    var c := CivilFromDays(n);
    var moved := Civil(c.year, c.month, c.date + k);
    assert ValidCivil(moved) && DayNumber(moved) == n + k;
    CivilRoundTrip(moved);
  }

  /** The first day of the month after that of c (January of the next year after December). */
  function NextMonthStart(c: Civil): Civil {
    if c.month < 11 then Civil(c.year, c.month + 1, 1) else Civil(c.year + 1, 0, 1)
  }

  /** The first of the next month is numbered right after the last day of a month. */
  lemma NextMonthStartFollowsMonthEnd(c: Civil)
    requires ValidCivil(c) && c.date == GetDaysInMonth(c.month, c.year)
    ensures ValidCivil(NextMonthStart(c)) && DayNumber(NextMonthStart(c)) == DayNumber(c) + 1
  {
    DaysBeforeMonthStep(c.month, c.year);
    if c.month == 11 {
      DaysBeforeMonthBounds(12, c.year);
      DaysBeforeYearStep(c.year);
    }
  }

  /** The day after the last of a month is the first of the next month (or of January next year). */
  lemma NextDayAfterMonthEnd(n: int)
    requires var c := CivilFromDays(n); c.date == GetDaysInMonth(c.month, c.year)
    ensures CivilFromDays(n + 1) == NextMonthStart(CivilFromDays(n))
  {
    var c := CivilFromDays(n);
    NextMonthStartFollowsMonthEnd(c);
    CivilRoundTrip(NextMonthStart(c));
  }

  /** The first of a month follows the last day of the previous month. */
  lemma PreviousDayOfMonthStart(n: int)
    requires CivilFromDays(n).date == 1
    ensures var p := CivilFromDays(n - 1); p.date == GetDaysInMonth(p.month, p.year)
  {
    var p := CivilFromDays(n - 1);
    if p.date < GetDaysInMonth(p.month, p.year) {
      ShiftWithinMonth(n - 1, 1);
    }
  }

  // ---- Date getters (local time) ----

  function FullYear(t: Time): int {
    CivilFromDays(Day(t)).year
  }

  function Month(t: Time): (m: int)
    ensures 0 <= m < 12
  {
    CivilFromDays(Day(t)).month
  }

  /** getDate */
  function DayOfMonth(t: Time): (d: int)
    ensures 1 <= d <= GetDaysInMonth(Month(t), FullYear(t))
  {
    CivilFromDays(Day(t)).date
  }

  /** getDay: 0 = Sunday .. 6 = Saturday; 1 January 1970 was a Thursday. */
  function WeekDay(t: Time): (w: int)
    ensures 0 <= w < 7
  {
    (Day(t) + 4) % 7
  }

  function Hours(t: Time): (h: int)
    ensures 0 <= h < 24
  {
    TimeWithinDay(t) / SecondsPerHour
  }

  function Minutes(t: Time): (m: int)
    ensures 0 <= m < 60
  {
    TimeWithinDay(t) % SecondsPerHour / 60
  }

  function Seconds(t: Time): (s: int)
    ensures 0 <= s < 60
  {
    TimeWithinDay(t) % 60
  }

  // ---- Date constructor and setters ----

  function MakeTime(hours: int, minutes: int, seconds: int): int {
    hours * SecondsPerHour + minutes * 60 + seconds
  }

  function MakeDate(day: int, time: int): Time {
    day * SecondsPerDay + time
  }

  /** `new Date(y, m, ...)` reads a year 0 .. 99 as 1900 .. 1999. */
  function ConstructorYear(year: int): int {
    if 0 <= year <= 99 then 1900 + year else year
  }

  /** new Date(year, month, date, hours, minutes, seconds), with the constructor's normalisation of overflowing fields. */
  function NewDate(year: int, month: int, date: int, hours: int, minutes: int, seconds: int): Time {
    MakeDate(MakeDay(ConstructorYear(year), month, date), MakeTime(hours, minutes, seconds))
  }

  /** date.setDate(d): keeps year, month and time of day. */
  function SetDate(t: Time, date: int): Time {
    MakeDate(MakeDay(FullYear(t), Month(t), date), TimeWithinDay(t))
  }

  /** date.setHours(h): keeps minutes and seconds; an hour outside 0 .. 23 rolls over into another day. */
  function SetHours(t: Time, hours: int): Time {
    MakeDate(Day(t), MakeTime(hours, Minutes(t), Seconds(t)))
  }

  /** date.setHours(h, m, s) */
  function SetHoursMinutesSeconds(t: Time, hours: int, minutes: int, seconds: int): Time {
    MakeDate(Day(t), MakeTime(hours, minutes, seconds))
  }

  /** date.setMinutes(m, s) */
  function SetMinutesSeconds(t: Time, minutes: int, seconds: int): Time {
    MakeDate(Day(t), MakeTime(Hours(t), minutes, seconds))
  }

  /** date.setFullYear(y, m, d): keeps the time of day, and unlike the constructor does not remap years 0 .. 99. */
  function SetFullYear(t: Time, year: int, month: int, date: int): Time {
    MakeDate(MakeDay(year, month, date), TimeWithinDay(t))
  }

  // ---- The range of a time value ----

  /** A Date's time value lies within 8.64e15 milliseconds (100 000 000 days) of 1970; the
      constructor's TimeClip turns anything beyond into an Invalid Date. In seconds: */
  const MaxTime: int := 8_640_000_000_000

  predicate InTimeRange(t: Time) {
    -MaxTime <= t <= MaxTime
  }

  /** An instant with a four-digit year, and the midnight of its day, are inside the range. */
  lemma FourDigitYearInRange(t: Time)
    requires 1000 <= FullYear(t) <= 9999
    ensures InTimeRange(t) && InTimeRange(MakeDate(Day(t), 0))
  {
    var c := CivilFromDays(Day(t));
    CivilDayBounds(c);
    DaysBeforeYearMonotone(1000, c.year);
    DaysBeforeYearAtMost(1000, 1970);
    DaysBeforeYearMonotone(c.year + 1, 10000);
    DaysBeforeYearAtMost(1970, 10000);
    assert -355020 <= Day(t) < 2938980;
    TimeParts(t);
  }

  /** The constructor on a year from 300000 on, with a month 0 .. 11 and non-negative other
      fields, lies beyond the range. */
  lemma FarYearOutOfRange(year: int, month: int, date: int, hours: nat, minutes: nat, seconds: nat)
    requires year >= 300000 && 0 <= month < 12 && date >= 1
    ensures !InTimeRange(NewDate(year, month, date, hours, minutes, seconds))
  {
    MakeDayInYear(year, month, date);
    DaysBeforeMonthBounds(month, year);
    DaysBeforeYearMonotone(1970, year);
    assert MakeDay(ConstructorYear(year), month, date) >= 365 * (300000 - 1970);
  }

  // ---- Arithmetic facts about instants ----

  lemma TimeParts(t: Time)
    ensures t == Day(t) * SecondsPerDay + TimeWithinDay(t)
    ensures TimeWithinDay(t) == Hours(t) * SecondsPerHour + Minutes(t) * 60 + Seconds(t)
  {
  }

  lemma DayOfMakeDate(day: int, time: int)
    requires 0 <= time < SecondsPerDay
    ensures Day(MakeDate(day, time)) == day && TimeWithinDay(MakeDate(day, time)) == time
  {
    DivModUnique(MakeDate(day, time), SecondsPerDay, day, time);
  }

  lemma ShiftDays(t: Time, k: int)
    ensures Day(t + k * SecondsPerDay) == Day(t) + k
    ensures TimeWithinDay(t + k * SecondsPerDay) == TimeWithinDay(t)
    ensures Hours(t + k * SecondsPerDay) == Hours(t)
    ensures WeekDay(t + k * SecondsPerDay) == (WeekDay(t) + k) % 7
  {
    TimeParts(t);
    DayOfMakeDate(Day(t) + k, TimeWithinDay(t));
  }

  /** setDate(getDate() + k) moves the instant by exactly k whole days. */
  lemma SetDateShift(t: Time, k: int)
    ensures SetDate(t, DayOfMonth(t) + k) == t + k * SecondsPerDay
  {
    var c := CivilFromDays(Day(t));
    MakeDayInYear(c.year, c.month, c.date + k);
    MakeDayInYear(c.year, c.month, c.date);
    TimeParts(t);
  }

  /** setDate(getDate() + 1): the next day at the same time of day. */
  lemma SetDateNextDay(t: Time)
    ensures SetDate(t, DayOfMonth(t) + 1) == t + SecondsPerDay
  {
    SetDateShift(t, 1);
  }

  /** date.setDate(date.getDate() + k), the step of every day-by-day loop of the utilities. */
  method MoveDays(date: Time, k: int) returns (moved: Time)
    ensures moved == date + k * SecondsPerDay
  {
    moved := SetDate(date, DayOfMonth(date) + k);
    SetDateShift(date, k);
  }

  /** setHours(getHours() + k) moves the instant by exactly k hours. */
  lemma SetHoursShift(t: Time, k: int)
    ensures SetHours(t, Hours(t) + k) == t + k * SecondsPerHour
  {
    TimeParts(t);
  }

  /** date.setHours(date.getHours() + k), the step of the hour-by-hour loops. */
  method MoveHours(date: Time, k: int) returns (moved: Time)
    ensures moved == date + k * SecondsPerHour
  {
    moved := SetHours(date, Hours(date) + k);
    SetHoursShift(date, k);
  }

  /** Whole hours since the epoch; getHours() is this index modulo 24. */
  function HourIndex(t: Time): int {
    t / SecondsPerHour
  }

  lemma HoursOfHourIndex(t: Time)
    ensures HourIndex(t) == Day(t) * 24 + Hours(t)
    ensures Hours(t) == HourIndex(t) % 24 && Hours(t) % 6 == HourIndex(t) % 6
    ensures t == HourIndex(t) * SecondsPerHour + Minutes(t) * 60 + Seconds(t)
  {
    TimeParts(t);
    var h := Hours(t);
    var rest := Minutes(t) * 60 + Seconds(t);
    DivModUnique(t, SecondsPerHour, Day(t) * 24 + h, rest);
    DivModUnique(Day(t) * 24 + h, 24, Day(t), h);
    DivModUnique(Day(t) * 24 + h, 6, Day(t) * 4 + h / 6, h % 6);
  }

  /** Moving by whole hours keeps minutes and seconds and moves the hour index. */
  lemma ShiftHours(t: Time, k: int)
    ensures HourIndex(t + k * SecondsPerHour) == HourIndex(t) + k
    ensures Minutes(t + k * SecondsPerHour) == Minutes(t) && Seconds(t + k * SecondsPerHour) == Seconds(t)
  {
    var u := t + k * SecondsPerHour;
    HoursOfHourIndex(t);
    HoursOfHourIndex(u);
    var rest := Minutes(t) * 60 + Seconds(t);
    DivModUnique(u, SecondsPerHour, HourIndex(t) + k, rest);
    DivModUnique(rest, 60, Minutes(t), Seconds(t));
    DivModUnique(Minutes(u) * 60 + Seconds(u), 60, Minutes(u), Seconds(u));
  }

  /** An instant is determined by its day and its time of day. */
  lemma SameInstant(t1: Time, t2: Time)
    requires Day(t1) == Day(t2) && TimeWithinDay(t1) == TimeWithinDay(t2)
    ensures t1 == t2
  {
    TimeParts(t1);
    TimeParts(t2);
  }

  /** Instants are ordered by day, then by time of day. */
  lemma InstantOrder(t1: Time, t2: Time)
    ensures Day(t1) < Day(t2) ==> t1 < t2
    ensures Day(t1) == Day(t2) && TimeWithinDay(t1) <= TimeWithinDay(t2) ==> t1 <= t2
  {
    TimeParts(t1);
    TimeParts(t2);
  }

  /** Within one year, days are ordered by month, then by date. */
  lemma CalendarOrder(t1: Time, t2: Time)
    requires FullYear(t1) == FullYear(t2)
    ensures Month(t1) < Month(t2) ==> Day(t1) < Day(t2)
    ensures Month(t1) == Month(t2) ==> Day(t2) - Day(t1) == DayOfMonth(t2) - DayOfMonth(t1)
  {
    var c1, c2 := CivilFromDays(Day(t1)), CivilFromDays(Day(t2));
    if c1.month < c2.month {
      DaysBeforeMonthMonotone(c1.month, c2.month, c1.year);
    }
  }

  /** setHours(0, 0, 0): midnight of the same day. */
  lemma SetMidnight(t: Time)
    ensures var u := SetHoursMinutesSeconds(t, 0, 0, 0); Day(u) == Day(t) && TimeWithinDay(u) == 0
  {
    DayOfMakeDate(Day(t), 0);
  }

  /** setMinutes(0, 0): the start of the same hour. */
  lemma SetHourStart(t: Time)
    ensures var u := SetMinutesSeconds(t, 0, 0);
      HourIndex(u) == HourIndex(t) && Minutes(u) == 0 && Seconds(u) == 0
  {
    var u := SetMinutesSeconds(t, 0, 0);
    var h := Hours(t);
    DayOfMakeDate(Day(t), h * SecondsPerHour);
    DivModUnique(h * SecondsPerHour, SecondsPerHour, h, 0);
    DivModUnique(h * SecondsPerHour, 60, h * 60, 0);
    assert Day(u) == Day(t) && Hours(u) == h;
    HoursOfHourIndex(t);
    HoursOfHourIndex(u);
  }

  /** date.setHours(0, 0, 0) */
  method MoveToMidnight(date: Time) returns (moved: Time)
    ensures Day(moved) == Day(date) && TimeWithinDay(moved) == 0
  {
    moved := SetHoursMinutesSeconds(date, 0, 0, 0);
    SetMidnight(date);
  }

  /** date.setMinutes(0, 0) */
  method MoveToHourStart(date: Time) returns (moved: Time)
    ensures HourIndex(moved) == HourIndex(date) && Hours(moved) == Hours(date)
    ensures Minutes(moved) == 0 && Seconds(moved) == 0
  {
    moved := SetMinutesSeconds(date, 0, 0);
    SetHourStart(date);
    HoursOfHourIndex(date);
    HoursOfHourIndex(moved);
  }

  /** date.setFullYear(year, month, day) with a day that exists in that month: that day, same time of day. */
  method MoveToCalendarDate(date: Time, year: int, month: int, day: int) returns (moved: Time)
    ensures ValidCivil(Civil(year, month, day)) ==>
      FullYear(moved) == year && Month(moved) == month && DayOfMonth(moved) == day
      && TimeWithinDay(moved) == TimeWithinDay(date)
  {
    moved := SetFullYear(date, year, month, day);
    if ValidCivil(Civil(year, month, day)) {
      FieldsOfMakeDate(Civil(year, month, day), TimeWithinDay(date));
    }
  }

  /** The calendar fields of a date-and-time built from a valid calendar date. */
  lemma FieldsOfMakeDate(c: Civil, time: int)
    requires ValidCivil(c) && 0 <= time < SecondsPerDay
    ensures var t := MakeDate(MakeDay(c.year, c.month, c.date), time);
      FullYear(t) == c.year && Month(t) == c.month && DayOfMonth(t) == c.date && TimeWithinDay(t) == time
  {
    MakeDayInYear(c.year, c.month, c.date);
    DayOfMakeDate(DayNumber(c), time);
    CivilRoundTrip(c);
    var t := MakeDate(MakeDay(c.year, c.month, c.date), time);
    assert Day(t) == DayNumber(c);
    assert CivilFromDays(Day(t)) == c;
  }
}
