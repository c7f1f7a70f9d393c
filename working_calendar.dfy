/** The working calendar: which days count as working days under a weekly pattern and a
    holiday list, counting them over a range, walking forward a number of working days,
    and re-deriving a task's end date so that it keeps its count of working days. */
module WorkingCalendar {
  import opened Gregorian
  import opened LocalTime

  /** WorkingDaysConfig: one independent flag per weekday; all-false is allowed. */
  datatype WorkingDaysConfig = WorkingDaysConfig(
    monday: bool, tuesday: bool, wednesday: bool, thursday: bool,
    friday: bool, saturday: bool, sunday: bool)

  /** Holiday: the closed interval [startDate, endDate]; a recurring holiday is re-anchored to
      the year of the date under test. An absent `recurring` flag reads as false. The id, name
      and description fields are never read by these operations. */
  datatype Holiday = Holiday(startDate: Time, endDate: Time, recurring: bool)

  /** DEFAULT_WORKING_DAYS: Monday to Friday. */
  const DefaultWorkingDays: WorkingDaysConfig := WorkingDaysConfig(true, true, true, true, true, false, false)

  /** The flags indexed by getDay() numbering, 0 = Sunday; a reference for IsWorkingDay. */
  function WeekFlags(workingDays: WorkingDaysConfig): seq<bool> {
    [workingDays.sunday, workingDays.monday, workingDays.tuesday, workingDays.wednesday,
     workingDays.thursday, workingDays.friday, workingDays.saturday]
  }

  /** isWorkingDay: the switch on getDay(). */
  predicate IsWorkingDay(date: Time, workingDays: WorkingDaysConfig) {
    match WeekDay(date)
    case 0 => workingDays.sunday
    case 1 => workingDays.monday
    case 2 => workingDays.tuesday
    case 3 => workingDays.wednesday
    case 4 => workingDays.thursday
    case 5 => workingDays.friday
    case 6 => workingDays.saturday
    case _ => false
  }

  lemma IsWorkingDayReadsFlag(date: Time, workingDays: WorkingDaysConfig)
    ensures IsWorkingDay(date, workingDays) == WeekFlags(workingDays)[WeekDay(date)]
  {
  }

  lemma DefaultWorkingDaysAreMondayToFriday(date: Time)
    ensures IsWorkingDay(date, DefaultWorkingDays) <==> 1 <= WeekDay(date) <= 5
  {
  }

  /** The test that `holidays.some(...)` applies to one holiday: the exact instant lies in the
      interval, whose ends are, for a recurring holiday, `new Date(currentYear, month, date)`. */
  predicate HolidayCovers(holiday: Holiday, date: Time) {
    if holiday.recurring then
      var currentYear := FullYear(date);
      var startDate := NewDate(currentYear, Month(holiday.startDate), DayOfMonth(holiday.startDate), 0, 0, 0);
      var endDate := NewDate(currentYear, Month(holiday.endDate), DayOfMonth(holiday.endDate), 0, 0, 0);
      startDate <= date <= endDate
    else
      holiday.startDate <= date <= holiday.endDate
  }

  /** isHoliday: `holidays.some(...)`, scanning the list from the front. */
  predicate IsHoliday(date: Time, holidays: seq<Holiday>) {
    if holidays == [] then false
    else HolidayCovers(holidays[0], date) || IsHoliday(date, holidays[1..])
  }

  /** isHoliday holds exactly when some holiday of the list covers the date. */
  lemma {:induction false} IsHolidayIffSomeCovers(date: Time, holidays: seq<Holiday>)
    ensures IsHoliday(date, holidays) <==> exists i :: 0 <= i < |holidays| && HolidayCovers(holidays[i], date)
  {
    if holidays != [] {
      IsHolidayIffSomeCovers(date, holidays[1..]);
      assert forall i :: 1 <= i < |holidays| ==> holidays[i] == holidays[1..][i - 1];
    }
  }

  /** isNonWorkingDay */
  predicate IsNonWorkingDay(date: Time, workingDays: WorkingDaysConfig, holidays: seq<Holiday>) {
    !IsWorkingDay(date, workingDays) || IsHoliday(date, holidays)
  }

  /** A holiday is a non-working day even on a working weekday. */
  lemma HolidayOverridesWorkingDay(date: Time, workingDays: WorkingDaysConfig, holidays: seq<Holiday>, i: int)
    requires 0 <= i < |holidays| && HolidayCovers(holidays[i], date)
    ensures IsNonWorkingDay(date, workingDays, holidays)
  {
    IsHolidayIffSomeCovers(date, holidays);
  }

  // ---- Counting days visited one calendar day at a time ----

  /** How many days `while (current < end)` visits from start, a day at a time: the least n
      with start + n days >= end. */
  function DaysBefore(start: Time, end: Time): (n: nat)
    ensures start + n * SecondsPerDay >= end
    ensures n > 0 ==> start + (n - 1) * SecondsPerDay < end
  {
    if end <= start then 0 else (end - start + SecondsPerDay - 1) / SecondsPerDay
  }

  /** How many days `while (current <= end)` visits from start: the least n with start + n days > end. */
  function DaysThrough(start: Time, end: Time): (n: nat)
    ensures start + n * SecondsPerDay > end
    ensures n > 0 ==> start + (n - 1) * SecondsPerDay <= end
  {
    if end < start then 0 else (end - start) / SecondsPerDay + 1
  }

  /** The loop over [start, end) continues exactly while fewer than DaysBefore days were visited. */
  lemma DaysBeforeVisit(start: Time, end: Time, v: nat)
    ensures start + v * SecondsPerDay < end ==> v < DaysBefore(start, end)
    ensures v <= DaysBefore(start, end) && start + v * SecondsPerDay >= end ==> v == DaysBefore(start, end)
  {
    var n: int := DaysBefore(start, end);
    MulMonotone(n, v, SecondsPerDay);
    MulMonotone(v, n - 1, SecondsPerDay);
  }

  /** The loop over [start, end] continues exactly while fewer than DaysThrough days were visited. */
  lemma DaysThroughVisit(start: Time, end: Time, v: nat)
    ensures start + v * SecondsPerDay <= end ==> v < DaysThrough(start, end)
    ensures v <= DaysThrough(start, end) && start + v * SecondsPerDay > end ==> v == DaysThrough(start, end)
  {
    var n: int := DaysThrough(start, end);
    MulMonotone(n, v, SecondsPerDay);
    MulMonotone(v, n - 1, SecondsPerDay);
  }

  /** How many of the n days first, first + 1 day, ..., first + (n - 1) days pass `test`. */
  function DaysPassing(first: Time, n: nat, test: Time -> bool): (count: nat)
    ensures count <= n
  {
    if n == 0 then 0
    else DaysPassing(first, n - 1, test) + (if test(first + (n - 1) * SecondsPerDay) then 1 else 0)
  }

  /** One more day counted: the day `n` days after first. */
  lemma DaysPassingNext(first: Time, n: nat, test: Time -> bool)
    ensures DaysPassing(first, n + 1, test)
         == DaysPassing(first, n, test) + (if test(first + n * SecondsPerDay) then 1 else 0)
  {
  }

  lemma {:induction false} DaysPassingMonotone(first: Time, a: nat, b: nat, test: Time -> bool)
    requires a <= b
    ensures DaysPassing(first, a, test) <= DaysPassing(first, b, test)
    decreases b - a
  {
    if a < b {
      DaysPassingMonotone(first, a, b - 1, test);
    }
  }

  /** A passing day at index j within [k, m) makes the count over m days exceed the count over k. */
  lemma DaysPassingHit(first: Time, k: nat, j: nat, m: nat, test: Time -> bool)
    requires k <= j < m && test(first + j * SecondsPerDay)
    ensures DaysPassing(first, m, test) >= DaysPassing(first, k, test) + 1
  {
    DaysPassingMonotone(first, k, j, test);
    DaysPassingNext(first, j, test);
    DaysPassingMonotone(first, j + 1, m, test);
  }

  /** Two prefixes that both end on a passing day and hold as many passing days are the same prefix. */
  lemma {:induction false} DaysPassingUnique(first: Time, k1: nat, k2: nat, test: Time -> bool)
    requires 0 < k1 && 0 < k2
    requires test(first + (k1 - 1) * SecondsPerDay) && test(first + (k2 - 1) * SecondsPerDay)
    requires DaysPassing(first, k1, test) == DaysPassing(first, k2, test)
    ensures k1 == k2
  {
    if k1 < k2 {
      DaysPassingMonotone(first, k1, k2 - 1, test);
    } else if k2 < k1 {
      DaysPassingMonotone(first, k2, k1 - 1, test);
    }
  }

  /** The tests the counts apply to a day. */
  function NonWorkingDate(workingDays: WorkingDaysConfig, holidays: seq<Holiday>): Time -> bool {
    date => IsNonWorkingDay(date, workingDays, holidays)
  }

  function WorkingDate(workingDays: WorkingDaysConfig, holidays: seq<Holiday>): Time -> bool {
    date => !IsNonWorkingDay(date, workingDays, holidays)
  }

  function FlaggedDate(workingDays: WorkingDaysConfig): Time -> bool {
    date => IsWorkingDay(date, workingDays)
  }

  /** Non-working days among first, first + 1 day, ..., first + (n - 1) days. */
  function NonWorkingDaysAmong(first: Time, n: nat, workingDays: WorkingDaysConfig, holidays: seq<Holiday>): nat {
    DaysPassing(first, n, NonWorkingDate(workingDays, holidays))
  }

  /** Working days (flagged weekday, no holiday) among first, first + 1 day, ..., first + (n - 1) days. */
  function WorkingDaysAmong(first: Time, n: nat, workingDays: WorkingDaysConfig, holidays: seq<Holiday>): nat {
    DaysPassing(first, n, WorkingDate(workingDays, holidays))
  }

  /** Days whose weekday flag is set, holidays ignored, among the first n days from first (none when n <= 0). */
  function FlaggedDaysAmong(first: Time, n: int, workingDays: WorkingDaysConfig): nat {
    if n <= 0 then 0 else DaysPassing(first, n, FlaggedDate(workingDays))
  }

  /** Every visited day is either working or non-working. */
  lemma {:induction false} WorkingPlusNonWorking(first: Time, n: nat, workingDays: WorkingDaysConfig, holidays: seq<Holiday>)
    ensures WorkingDaysAmong(first, n, workingDays, holidays) + NonWorkingDaysAmong(first, n, workingDays, holidays) == n
  {
    if n > 0 {
      WorkingPlusNonWorking(first, n - 1, workingDays, holidays);
    }
  }

  /** countNonWorkingDays: the half-open range [startDate, endDate). */
  method CountNonWorkingDays(startDate: Time, endDate: Time, workingDays: WorkingDaysConfig, holidays: seq<Holiday>)
    returns (count: nat)
    ensures count == NonWorkingDaysAmong(startDate, DaysBefore(startDate, endDate), workingDays, holidays)
    ensures count <= DaysBefore(startDate, endDate)
    ensures endDate <= startDate ==> count == 0
  {
    count := 0;
    var currentDate := startDate;
    ghost var visited: nat := 0;
    while currentDate < endDate
      invariant currentDate == startDate + visited * SecondsPerDay
      invariant visited <= DaysBefore(startDate, endDate)
      invariant count == NonWorkingDaysAmong(startDate, visited, workingDays, holidays)
      decreases endDate - currentDate
    {
      DaysBeforeVisit(startDate, endDate, visited);
      DaysPassingNext(startDate, visited, NonWorkingDate(workingDays, holidays));
      if IsNonWorkingDay(currentDate, workingDays, holidays) {
        count := count + 1;
      }
      currentDate := MoveDays(currentDate, 1);
      visited := visited + 1;
    }
    DaysBeforeVisit(startDate, endDate, visited);
  }

  /** countWorkingDaysInPeriod (compiled copy only): the closed range [startDate, endDate]. */
  method CountWorkingDaysInPeriod(startDate: Time, endDate: Time, workingDays: WorkingDaysConfig, holidays: seq<Holiday>)
    returns (count: nat)
    ensures count == WorkingDaysAmong(startDate, DaysThrough(startDate, endDate), workingDays, holidays)
    ensures count <= DaysThrough(startDate, endDate)
    ensures endDate < startDate ==> count == 0
  {
    count := 0;
    var currentDate := startDate;
    ghost var visited: nat := 0;
    while currentDate <= endDate
      invariant currentDate == startDate + visited * SecondsPerDay
      invariant visited <= DaysThrough(startDate, endDate)
      invariant count == WorkingDaysAmong(startDate, visited, workingDays, holidays)
      decreases endDate - currentDate
    {
      DaysThroughVisit(startDate, endDate, visited);
      DaysPassingNext(startDate, visited, WorkingDate(workingDays, holidays));
      if !IsNonWorkingDay(currentDate, workingDays, holidays) {
        count := count + 1;
      }
      currentDate := MoveDays(currentDate, 1);
      visited := visited + 1;
    }
    DaysThroughVisit(startDate, endDate, visited);
  }

  /** The two counts visit different ranges: for endDate = startDate + k days the closed range
      has k + 1 days and the half-open one k, so working days of [s, s + k days] and non-working
      days of [s, s + k + 1 days) add up to k + 1. */
  lemma RangeAsymmetry(start: Time, k: nat, workingDays: WorkingDaysConfig, holidays: seq<Holiday>)
    ensures DaysThrough(start, start + k * SecondsPerDay) == k + 1
    ensures DaysBefore(start, start + k * SecondsPerDay) == k
    ensures WorkingDaysAmong(start, DaysThrough(start, start + k * SecondsPerDay), workingDays, holidays)
          + NonWorkingDaysAmong(start, DaysBefore(start, start + (k + 1) * SecondsPerDay), workingDays, holidays)
         == k + 1
  {
    DivModUnique(k * SecondsPerDay, SecondsPerDay, k, 0);
    DivModUnique(k * SecondsPerDay + SecondsPerDay - 1, SecondsPerDay, k, SecondsPerDay - 1);
    DivModUnique((k + 1) * SecondsPerDay + SecondsPerDay - 1, SecondsPerDay, k + 1, SecondsPerDay - 1);
    WorkingPlusNonWorking(start, k + 1, workingDays, holidays);
  }

  // ---- addWorkingDays ----

  /** `result` lies a whole number k >= 1 of days after start, is itself a working day, and
      exactly n working days lie in (start, result]. */
  ghost predicate LandsOnNthWorkingDay(start: Time, n: int, workingDays: WorkingDaysConfig, holidays: seq<Holiday>, result: Time) {
    && result > start
    && (result - start) % SecondsPerDay == 0
    && !IsNonWorkingDay(result, workingDays, holidays)
    && WorkingDaysAmong(start + SecondsPerDay, (result - start) / SecondsPerDay, workingDays, holidays) == n
  }

  /** The loop of addWorkingDays ends exactly when some number of days from `first` (the day
      after its start) holds the required count of working days. */
  ghost predicate WorkingDaysAhead(first: Time, n: int, workingDays: WorkingDaysConfig, holidays: seq<Holiday>) {
    exists k: nat :: WorkingDaysAmong(first, k, workingDays, holidays) >= n
  }

  lemma WorkingDaysIndexBound(first: Time, a: nat, b: nat, workingDays: WorkingDaysConfig, holidays: seq<Holiday>)
    requires WorkingDaysAmong(first, a, workingDays, holidays) < WorkingDaysAmong(first, b, workingDays, holidays)
    ensures a < b
  {
    if b <= a {
      DaysPassingMonotone(first, b, a, WorkingDate(workingDays, holidays));
    }
  }

  lemma WorkingDaysAmongNext(first: Time, n: nat, workingDays: WorkingDaysConfig, holidays: seq<Holiday>)
    ensures WorkingDaysAmong(first, n + 1, workingDays, holidays)
         == WorkingDaysAmong(first, n, workingDays, holidays)
            + (if IsNonWorkingDay(first + n * SecondsPerDay, workingDays, holidays) then 0 else 1)
  {
    DaysPassingNext(first, n, WorkingDate(workingDays, holidays));
  }

  /** Landing `steps` whole days after start, on a working day, with n working days counted. */
  lemma LandsAfterSteps(start: Time, steps: int, n: int, workingDays: WorkingDaysConfig, holidays: seq<Holiday>)
    requires steps > 0
    requires !IsNonWorkingDay(start + steps * SecondsPerDay, workingDays, holidays)
    requires WorkingDaysAmong(start + SecondsPerDay, steps, workingDays, holidays) == n
    ensures LandsOnNthWorkingDay(start, n, workingDays, holidays, start + steps * SecondsPerDay)
  {
    DivModUnique(steps * SecondsPerDay, SecondsPerDay, steps, 0);
  }

  /** addWorkingDays */
  method AddWorkingDays(startDate: Time, workingDaysToAdd: int, workingDays: WorkingDaysConfig, holidays: seq<Holiday>)
    returns (result: Time)
    requires WorkingDaysAhead(startDate + SecondsPerDay, workingDaysToAdd, workingDays, holidays)
    ensures workingDaysToAdd <= 0 ==> result == startDate
    ensures workingDaysToAdd > 0 ==> LandsOnNthWorkingDay(startDate, workingDaysToAdd, workingDays, holidays, result)
  {
    result := startDate;
    var daysAdded := 0;
    ghost var first := startDate + SecondsPerDay;
    ghost var steps: nat := 0;
    ghost var bound: nat :| WorkingDaysAmong(first, bound, workingDays, holidays) >= workingDaysToAdd;
    while daysAdded < workingDaysToAdd
      invariant result + SecondsPerDay == first + steps * SecondsPerDay
      invariant daysAdded == WorkingDaysAmong(first, steps, workingDays, holidays)
      invariant steps <= bound
      invariant steps > 0 ==> daysAdded <= workingDaysToAdd
      invariant steps > 0 && daysAdded == workingDaysToAdd ==> !IsNonWorkingDay(result, workingDays, holidays)
      decreases bound - steps
    {
      WorkingDaysIndexBound(first, steps, bound, workingDays, holidays);
      WorkingDaysAmongNext(first, steps, workingDays, holidays);
      result := MoveDays(result, 1);
      if !IsNonWorkingDay(result, workingDays, holidays) {
        daysAdded := daysAdded + 1;
      }
      assert daysAdded == WorkingDaysAmong(first, steps + 1, workingDays, holidays);
      steps := steps + 1;
    }
    if workingDaysToAdd > 0 {
      LandsAfterSteps(startDate, steps, workingDaysToAdd, workingDays, holidays);
    }
  }

  /** The date addWorkingDays promises is unique: the loop's result is determined by its inputs. */
  lemma LandsOnNthWorkingDayUnique(start: Time, n: int, workingDays: WorkingDaysConfig, holidays: seq<Holiday>, r1: Time, r2: Time)
    requires LandsOnNthWorkingDay(start, n, workingDays, holidays, r1)
    requires LandsOnNthWorkingDay(start, n, workingDays, holidays, r2)
    ensures r1 == r2
  {
    var first := start + SecondsPerDay;
    var k1, k2 := (r1 - start) / SecondsPerDay, (r2 - start) / SecondsPerDay;
    assert r1 == first + (k1 - 1) * SecondsPerDay && r2 == first + (k2 - 1) * SecondsPerDay;
    DaysPassingUnique(first, k1, k2, WorkingDate(workingDays, holidays));
  }

  // ---- When addWorkingDays terminates ----

  predicate SomeWorkingWeekday(workingDays: WorkingDaysConfig) {
    workingDays.monday || workingDays.tuesday || workingDays.wednesday || workingDays.thursday
    || workingDays.friday || workingDays.saturday || workingDays.sunday
  }

  /** The first weekday (0 = Sunday) whose flag is set. */
  function FlaggedWeekday(workingDays: WorkingDaysConfig): (w: int)
    requires SomeWorkingWeekday(workingDays)
    ensures 0 <= w < 7 && WeekFlags(workingDays)[w]
  {
    if workingDays.sunday then 0
    else if workingDays.monday then 1
    else if workingDays.tuesday then 2
    else if workingDays.wednesday then 3
    else if workingDays.thursday then 4
    else if workingDays.friday then 5
    else 6
  }

  /** A holiday list is bounded when no holiday recurs and all of them end before `limit`. */
  predicate HolidaysEndBefore(holidays: seq<Holiday>, limit: Time) {
    forall i :: 0 <= i < |holidays| ==> !holidays[i].recurring && holidays[i].endDate < limit
  }

  function LatestEnd(holidays: seq<Holiday>, floor: Time): (latest: Time)
    ensures latest >= floor
    ensures forall i :: 0 <= i < |holidays| ==> holidays[i].endDate <= latest
  {
    if holidays == [] then floor
    else
      var rest := LatestEnd(holidays[1..], floor);
      assert forall i :: 1 <= i < |holidays| ==> holidays[i] == holidays[1..][i - 1];
      if holidays[0].endDate > rest then holidays[0].endDate else rest
  }

  /** No holiday of a bounded list covers a day at or after its bound. */
  lemma NoHolidayAfter(date: Time, holidays: seq<Holiday>, limit: Time)
    requires HolidaysEndBefore(holidays, limit) && limit <= date
    ensures !IsHoliday(date, holidays)
  {
    IsHolidayIffSomeCovers(date, holidays);
  }

  /** Within the seven days from any date lies each weekday. */
  lemma WeekdayWithinWeek(base: Time, w: int)
    requires 0 <= w < 7
    ensures var offset := (w - WeekDay(base)) % 7;
      0 <= offset < 7 && WeekDay(base + offset * SecondsPerDay) == w
  {
    ShiftDays(base, (w - WeekDay(base)) % 7);
  }

  lemma DayOffset(first: Time, k: int, offset: int)
    ensures first + (k + offset) * SecondsPerDay == (first + k * SecondsPerDay) + offset * SecondsPerDay
  {
  }

  /** Past the last holiday, every seven consecutive days hold a working day. */
  lemma WeekAfterHolidaysHasWorkingDay(first: Time, k: nat, workingDays: WorkingDaysConfig, holidays: seq<Holiday>)
    requires SomeWorkingWeekday(workingDays)
    requires HolidaysEndBefore(holidays, first + k * SecondsPerDay)
    ensures WorkingDaysAmong(first, k + 7, workingDays, holidays) >= WorkingDaysAmong(first, k, workingDays, holidays) + 1
  {
    var w := FlaggedWeekday(workingDays);
    var base := first + k * SecondsPerDay;
    WeekdayWithinWeek(base, w);
    var offset := (w - WeekDay(base)) % 7;
    var j := k + offset;
    DayOffset(first, k, offset);
    var day := first + j * SecondsPerDay;
    IsWorkingDayReadsFlag(day, workingDays);
    NoHolidayAfter(day, holidays, base);
    assert WorkingDate(workingDays, holidays)(day);
    DaysPassingHit(first, k, j, k + 7, WorkingDate(workingDays, holidays));
  }

  lemma {:induction false} WorkingDaysGrowWeekly(first: Time, k0: nat, m: nat, workingDays: WorkingDaysConfig, holidays: seq<Holiday>)
    requires SomeWorkingWeekday(workingDays)
    requires HolidaysEndBefore(holidays, first + k0 * SecondsPerDay)
    ensures WorkingDaysAmong(first, k0 + 7 * m, workingDays, holidays) >= m
  {
    if m > 0 {
      WorkingDaysGrowWeekly(first, k0, m - 1, workingDays, holidays);
      var k := k0 + 7 * (m - 1);
      assert HolidaysEndBefore(holidays, first + k * SecondsPerDay);
      WeekAfterHolidaysHasWorkingDay(first, k, workingDays, holidays);
    }
  }

  /** addWorkingDays terminates whenever some weekday is a working day and no holiday recurs. */
  lemma AddWorkingDaysTerminates(start: Time, n: int, workingDays: WorkingDaysConfig, holidays: seq<Holiday>)
    requires SomeWorkingWeekday(workingDays)
    requires forall i :: 0 <= i < |holidays| ==> !holidays[i].recurring
    ensures WorkingDaysAhead(start + SecondsPerDay, n, workingDays, holidays)
  {
    var first := start + SecondsPerDay;
    var latest := LatestEnd(holidays, first);
    var k0 := DaysThrough(first, latest);
    assert HolidaysEndBefore(holidays, first + k0 * SecondsPerDay);
    var m: nat := if n < 0 then 0 else n;
    WorkingDaysGrowWeekly(first, k0, m, workingDays, holidays);
  }

  // ---- calculateAdjustedEndDate ----

  /** The calendar days of a task, both ends counted: Math.ceil((end - start) / one day) + 1. */
  function TotalDaysOriginal(startDate: Time, originalEndDate: Time): int {
    CeilDiv(originalEndDate - startDate, SecondsPerDay) + 1
  }

  /** The working days a task should span were there no holidays: flagged weekdays among its calendar days. */
  function ExpectedWorkingDays(startDate: Time, originalEndDate: Time, workingDays: WorkingDaysConfig): nat {
    FlaggedDaysAmong(startDate, TotalDaysOriginal(startDate, originalEndDate), workingDays)
  }

  /** What calculateAdjustedEndDate returns: the original end when no working day is expected, else
      the day by which a span from the start, holidays skipped and the first day counted, holds as many working days. */
  ghost predicate IsAdjustedEndDate(startDate: Time, originalEndDate: Time, workingDays: WorkingDaysConfig,
                                    holidays: seq<Holiday>, adjusted: Time) {
    var expected := ExpectedWorkingDays(startDate, originalEndDate, workingDays);
    && (expected == 0 ==> adjusted == originalEndDate)
    && (expected == 1 ==> adjusted == startDate)
    && (expected > 1 ==> LandsOnNthWorkingDay(startDate, expected - 1, workingDays, holidays, adjusted))
  }

  /** calculateAdjustedEndDate (compiled copy only). */
  method CalculateAdjustedEndDate(startDate: Time, originalEndDate: Time, workingDays: WorkingDaysConfig, holidays: seq<Holiday>)
    returns (adjusted: Time)
    requires WorkingDaysAhead(startDate + SecondsPerDay, ExpectedWorkingDays(startDate, originalEndDate, workingDays) - 1, workingDays, holidays)
    ensures IsAdjustedEndDate(startDate, originalEndDate, workingDays, holidays, adjusted)
    ensures ExpectedWorkingDays(startDate, originalEndDate, workingDays) > 0 ==> adjusted >= startDate
  {
    var totalDaysOriginal := CeilDiv(originalEndDate - startDate, SecondsPerDay) + 1;
    var expectedWorkingDays := 0;
    var tempDate := startDate;
    var i := 0;
    while i < totalDaysOriginal
      invariant 0 <= i && (i <= totalDaysOriginal || i == 0)
      invariant tempDate == startDate + i * SecondsPerDay
      invariant expectedWorkingDays == FlaggedDaysAmong(startDate, i, workingDays)
    {
      DaysPassingNext(startDate, i, FlaggedDate(workingDays));
      if IsWorkingDay(tempDate, workingDays) {
        expectedWorkingDays := expectedWorkingDays + 1;
      }
      tempDate := MoveDays(tempDate, 1);
      i := i + 1;
    }
    assert expectedWorkingDays == ExpectedWorkingDays(startDate, originalEndDate, workingDays);
    if expectedWorkingDays <= 0 {
      return originalEndDate;
    }
    adjusted := AddWorkingDays(startDate, expectedWorkingDays - 1, workingDays, holidays);
  }

  // ---- Recurring holidays ----

  /** A one-day recurring holiday is a holiday at midnight of its month and day in every other year
      (years 0 .. 99 excepted: there `new Date` re-anchors to 1900 .. 1999). */
  lemma RecurringHolidayEveryYear(holiday: Holiday, year: int)
    requires holiday.recurring
    requires Month(holiday.startDate) == Month(holiday.endDate)
    requires DayOfMonth(holiday.startDate) == DayOfMonth(holiday.endDate)
    requires !(0 <= year <= 99)
    requires DayOfMonth(holiday.startDate) <= GetDaysInMonth(Month(holiday.startDate), year)
    ensures HolidayCovers(holiday, NewDate(year, Month(holiday.startDate), DayOfMonth(holiday.startDate), 0, 0, 0))
  {
    var c := Civil(year, Month(holiday.startDate), DayOfMonth(holiday.startDate));
    FieldsOfMakeDate(c, 0);
  }

  /** A recurring holiday whose end month and day come before its start month and day never
      matches: both ends are re-anchored to the same year, so the interval is empty. (The end's
      day must exist in that year; a 29 February end re-anchors to 1 March in a common year.) */
  lemma RecurringAcrossYearEndNeverMatches(holiday: Holiday, date: Time)
    requires holiday.recurring
    requires Month(holiday.endDate) < Month(holiday.startDate)
             || (Month(holiday.endDate) == Month(holiday.startDate) && DayOfMonth(holiday.endDate) < DayOfMonth(holiday.startDate))
    requires DayOfMonth(holiday.endDate) <= GetDaysInMonth(Month(holiday.endDate), ConstructorYear(FullYear(date)))
    ensures !HolidayCovers(holiday, date)
  {
    var y := ConstructorYear(FullYear(date));
    var ms, ds := Month(holiday.startDate), DayOfMonth(holiday.startDate);
    var me, de := Month(holiday.endDate), DayOfMonth(holiday.endDate);
    MakeDayInYear(y, ms, ds);
    MakeDayInYear(y, me, de);
    if me < ms {
      DaysBeforeMonthMonotone(me, ms, y);
    }
    assert MakeDay(y, me, de) < MakeDay(y, ms, ds);
  }

  /** In a common year, 29 February overflows to 1 March. */
  lemma LeapDayOverflows(year: int)
    requires !IsLeapYear(year)
    ensures MakeDay(year, 1, 29) == MakeDay(year, 2, 1)
  {
    MakeDayInYear(year, 1, 29);
    MakeDayInYear(year, 2, 1);
  }

  /** A recurring 29 February holiday falls on 1 March in a common year: `new Date(y, 1, 29)`
      overflows into March. */
  lemma LeapDayHolidayInCommonYear(holiday: Holiday, year: int)
    requires holiday.recurring
    requires Month(holiday.startDate) == 1 && DayOfMonth(holiday.startDate) == 29
    requires Month(holiday.endDate) == 1 && DayOfMonth(holiday.endDate) == 29
    requires !IsLeapYear(year) && !(0 <= year <= 99)
    ensures HolidayCovers(holiday, NewDate(year, 2, 1, 0, 0, 0))
  {
    FieldsOfMakeDate(Civil(year, 2, 1), 0);
    LeapDayOverflows(year);
  }

  // ---- Scenarios from the test suites ----

  /** Under Monday to Friday with no holidays, a day is non-working exactly on a weekend. */
  lemma DefaultNonWorkingDay(t: Time)
    ensures IsNonWorkingDay(t, DefaultWorkingDays, []) <==> WeekDay(t) == 0 || WeekDay(t) == 6
  {
  }

  /** The seven days from a Thursday hold five working days, and the seventh is one. */
  lemma WorkingWeekFromThursday(first: Time)
    requires WeekDay(first) == 4
    ensures WorkingDaysAmong(first, 7, DefaultWorkingDays, []) == 5
    ensures !IsNonWorkingDay(first + 6 * SecondsPerDay, DefaultWorkingDays, [])
  {
    for n := 0 to 7
      invariant WorkingDaysAmong(first, n, DefaultWorkingDays, []) == [0, 1, 2, 2, 2, 3, 4, 5][n]
    {
      ShiftDays(first, n);
      DefaultNonWorkingDay(first + n * SecondsPerDay);
    }
    ShiftDays(first, 6);
  }

  /** From any Wednesday, five working days (Monday to Friday, no holidays) end on the next Wednesday. */
  lemma FiveWorkingDaysFromWednesday(start: Time)
    requires WeekDay(start) == 3
    ensures LandsOnNthWorkingDay(start, 5, DefaultWorkingDays, [], start + 7 * SecondsPerDay)
  {
    ShiftDays(start, 1);
    WorkingWeekFromThursday(start + SecondsPerDay);
    assert start + SecondsPerDay + 6 * SecondsPerDay == start + 7 * SecondsPerDay;
    DivModUnique(7 * SecondsPerDay, SecondsPerDay, 7, 0);
  }

  /** The day numbers of 24 April, 30 April and 1 May 2024. */
  lemma April2024Days()
    ensures NewDate(2024, 3, 24, 0, 0, 0) == 19837 * SecondsPerDay
    ensures NewDate(2024, 3, 30, 0, 0, 0) == 19843 * SecondsPerDay
    ensures NewDate(2024, 4, 1, 0, 0, 0) == 19844 * SecondsPerDay
  {
    DaysBefore2024();
    assert IsLeapYear(2024);
    assert ConstructorYear(2024) == 2024;
    MakeDayInYear(2024, 3, 24);
    assert MakeDay(2024, 3, 24) == 19837;
    MakeDayInYear(2024, 3, 30);
    assert MakeDay(2024, 3, 30) == 19843;
    MakeDayInYear(2024, 4, 1);
    assert MakeDay(2024, 4, 1) == 19844;
  }

  /** Wednesday 24 April 2024 plus five working days is Wednesday 1 May 2024, not Tuesday 30 April 2024. */
  lemma AddFiveWorkingDaysFrom24April2024(result: Time)
    requires LandsOnNthWorkingDay(NewDate(2024, 3, 24, 0, 0, 0), 5, DefaultWorkingDays, [], result)
    ensures result == NewDate(2024, 4, 1, 0, 0, 0) && result != NewDate(2024, 3, 30, 0, 0, 0)
  {
    April2024Days();
    AddFiveWorkingDaysFromDay19837(result);
  }

  /** The same in day numbers: day 19837 is a Wednesday, and five working days later is day 19844. */
  lemma AddFiveWorkingDaysFromDay19837(result: Time)
    requires LandsOnNthWorkingDay(19837 * SecondsPerDay, 5, DefaultWorkingDays, [], result)
    ensures result == 19844 * SecondsPerDay
  {
    var start := 19837 * SecondsPerDay;
    assert WeekDay(start) == 3;
    FiveWorkingDaysFromWednesday(start);
    LandsOnNthWorkingDayUnique(start, 5, DefaultWorkingDays, [], result, start + 7 * SecondsPerDay);
  }

  /** A week from a Monday to the next Monday (end excluded) holds two non-working days, the weekend;
      for instance Monday 22 to Monday 29 April 2024. */
  lemma WeekendsInOneWeek(start: Time)
    requires WeekDay(start) == 1
    ensures NonWorkingDaysAmong(start, DaysBefore(start, start + 7 * SecondsPerDay), DefaultWorkingDays, []) == 2
  {
    DivModUnique(7 * SecondsPerDay + SecondsPerDay - 1, SecondsPerDay, 7, SecondsPerDay - 1);
    for n := 0 to 7
      invariant NonWorkingDaysAmong(start, n, DefaultWorkingDays, []) == [0, 0, 0, 0, 0, 0, 1, 2][n]
    {
      ShiftDays(start, n);
      DefaultNonWorkingDay(start + n * SecondsPerDay);
    }
  }

  /** A Monday-to-Wednesday task spans three flagged days under Monday to Friday. */
  lemma ThreeDayTaskFromMonday(start: Time)
    requires WeekDay(start) == 1
    ensures ExpectedWorkingDays(start, start + 2 * SecondsPerDay, DefaultWorkingDays) == 3
  {
    DivModUnique(-2 * SecondsPerDay, SecondsPerDay, -2, 0);
    assert TotalDaysOriginal(start, start + 2 * SecondsPerDay) == 3;
    forall i | 0 <= i < 3
      ensures IsWorkingDay(start + i * SecondsPerDay, DefaultWorkingDays)
    {
      ShiftDays(start, i);
    }
    var flagged := FlaggedDate(DefaultWorkingDays);
    DaysPassingNext(start, 0, flagged);
    DaysPassingNext(start, 1, flagged);
    DaysPassingNext(start, 2, flagged);
  }

  /** From a Monday whose Tuesday is a one-day holiday, the second working day after it is Thursday. */
  lemma SecondWorkingDayPastHolidayTuesday(start: Time)
    requires WeekDay(start) == 1
    ensures var tuesday := start + SecondsPerDay;
      LandsOnNthWorkingDay(start, 2, DefaultWorkingDays, [Holiday(tuesday, tuesday, false)], start + 3 * SecondsPerDay)
  {
    var tuesday := start + SecondsPerDay;
    var holidays := [Holiday(tuesday, tuesday, false)];
    ShiftDays(start, 2);
    ShiftDays(start, 3);
    assert holidays[1..] == [];
    assert !IsHoliday(start + 2 * SecondsPerDay, holidays);
    assert !IsHoliday(start + 3 * SecondsPerDay, holidays);
    var working := WorkingDate(DefaultWorkingDays, holidays);
    assert !working(tuesday);
    assert working(start + 2 * SecondsPerDay);
    assert working(start + 3 * SecondsPerDay);
    DaysPassingNext(tuesday, 0, working);
    DaysPassingNext(tuesday, 1, working);
    DaysPassingNext(tuesday, 2, working);
    DivModUnique(3 * SecondsPerDay, SecondsPerDay, 3, 0);
  }

  /** A Monday-to-Wednesday task whose Tuesday is a one-day holiday is stretched to Thursday;
      for instance Monday 15 to Wednesday 17 April 2024 with Tuesday 16 a holiday ends on Thursday 18. */
  lemma TaskStretchedOverHoliday(start: Time, adjusted: Time)
    requires WeekDay(start) == 1
    requires var tuesday := start + SecondsPerDay;
      IsAdjustedEndDate(start, start + 2 * SecondsPerDay, DefaultWorkingDays, [Holiday(tuesday, tuesday, false)], adjusted)
    ensures adjusted == start + 3 * SecondsPerDay
  {
    var tuesday := start + SecondsPerDay;
    ThreeDayTaskFromMonday(start);
    SecondWorkingDayPastHolidayTuesday(start);
    LandsOnNthWorkingDayUnique(start, 2, DefaultWorkingDays, [Holiday(tuesday, tuesday, false)], adjusted, start + 3 * SecondsPerDay);
  }
}
