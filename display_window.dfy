/** The display window of a chart: getMinDate and getMaxDate scan a list of task records for
    the earliest start and the latest end, then widen the window outward to a boundary that
    depends on the display format ('day', 'week', 'month', 'quarter' or 'hour'). */
module DisplayWindow {
  import opened Gregorian
  import opened LocalTime
  import opened Optional

  /** A task record as the scan reads it: start and end, and the planned start and end when set. */
  datatype Item = Item(start: Time, end: Time, planStart: Option<Time>, planEnd: Option<Time>)

  /** `(bound && bound.getTime()) || first`: a bound at the instant 0 counts as absent. */
  function Seed(bound: Option<Time>, first: Time): Time {
    if bound.Some? && bound.value != 0 then bound.value else first
  }

  // ---- The scan ----

  /** One step of the minimum scan: the start, then the planned start when set, replace the running value if earlier. */
  function EarlierOf(current: Time, item: Item): Time {
    var afterStart := if item.start < current then item.start else current;
    if item.planStart.Some? && item.planStart.value < afterStart then item.planStart.value else afterStart
  }

  /** The running value after scanning all of items, from the front, for the earliest instant. */
  function Earliest(seed: Time, items: seq<Item>): Time {
    if items == [] then seed else EarlierOf(Earliest(seed, items[..|items| - 1]), items[|items| - 1])
  }

  /** The scan finds the minimum of the seed, every start and every planned start that is set. */
  lemma {:induction false} EarliestIsMinimum(seed: Time, items: seq<Item>)
    ensures Earliest(seed, items) <= seed
    ensures forall i :: 0 <= i < |items| ==> Earliest(seed, items) <= items[i].start
    ensures forall i :: 0 <= i < |items| && items[i].planStart.Some? ==> Earliest(seed, items) <= items[i].planStart.value
    ensures Earliest(seed, items) == seed
         || exists i :: 0 <= i < |items| && (items[i].start == Earliest(seed, items) || items[i].planStart == Some(Earliest(seed, items)))
  {
    if items != [] {
      var init, last := items[..|items| - 1], items[|items| - 1];
      EarliestIsMinimum(seed, init);
      assert forall i :: 0 <= i < |init| ==> init[i] == items[i];
      var before, after := Earliest(seed, init), Earliest(seed, items);
      if after != before {
        assert last.start == after || last.planStart == Some(after);
      } else if before != seed {
        var i :| 0 <= i < |init| && (init[i].start == before || init[i].planStart == Some(before));
        assert items[i] == init[i];
      }
    }
  }

  /** One step of the maximum scan: the end, then the planned end when set, replace the running value if later. */
  function LaterOf(current: Time, item: Item): Time {
    var afterEnd := if item.end > current then item.end else current;
    if item.planEnd.Some? && item.planEnd.value > afterEnd then item.planEnd.value else afterEnd
  }

  function Latest(seed: Time, items: seq<Item>): Time {
    if items == [] then seed else LaterOf(Latest(seed, items[..|items| - 1]), items[|items| - 1])
  }

  /** The scan finds the maximum of the seed, every end and every planned end that is set. */
  lemma {:induction false} LatestIsMaximum(seed: Time, items: seq<Item>)
    ensures Latest(seed, items) >= seed
    ensures forall i :: 0 <= i < |items| ==> Latest(seed, items) >= items[i].end
    ensures forall i :: 0 <= i < |items| && items[i].planEnd.Some? ==> Latest(seed, items) >= items[i].planEnd.value
    ensures Latest(seed, items) == seed
         || exists i :: 0 <= i < |items| && (items[i].end == Latest(seed, items) || items[i].planEnd == Some(Latest(seed, items)))
  {
    if items != [] {
      var init, last := items[..|items| - 1], items[|items| - 1];
      LatestIsMaximum(seed, init);
      assert forall i :: 0 <= i < |init| ==> init[i] == items[i];
      var before, after := Latest(seed, init), Latest(seed, items);
      if after != before {
        assert last.end == after || last.planEnd == Some(after);
      } else if before != seed {
        var i :| 0 <= i < |init| && (init[i].end == before || init[i].planEnd == Some(before));
        assert items[i] == init[i];
      }
    }
  }

  // ---- Widening the start of the window ----

  /** 'day' and 'week': `setDate(getDate() - 1)`, then again until getDay() is Monday. */
  method RewindToMonday(from: Time) returns (date: Time)
    ensures WeekDay(date) == 1 && Day(from) - 7 <= Day(date) < Day(from)
    ensures TimeWithinDay(date) == TimeWithinDay(from)
  {
    ShiftDays(from, -1);
    date := MoveDays(from, -1);
    ghost var last := Day(from) - 1;
    ghost var target := last - (last + 3) % 7;
    DivModUnique(target + 4, 7, (last + 3) / 7, 1);
    while WeekDay(date) % 7 != 1
      invariant target <= Day(date) <= last
      invariant TimeWithinDay(date) == TimeWithinDay(from)
      decreases Day(date) - target
    {
      ShiftDays(date, -1);
      date := MoveDays(date, -1);
    }
    OnlyOneInWindow(Day(date) + 4, target + 4, 7);
  }

  /** 'month': `while (getDate() > 1) setDate(getDate() - 1)`, back to the first of the same month. */
  method RewindToMonthStart(from: Time) returns (date: Time)
    ensures FullYear(date) == FullYear(from) && Month(date) == Month(from) && DayOfMonth(date) == 1
    ensures TimeWithinDay(date) == TimeWithinDay(from)
  {
    date := from;
    ghost var c := CivilFromDays(Day(from));
    ghost var k := 0;
    while DayOfMonth(date) > 1
      invariant 0 <= k < c.date
      invariant Day(date) == Day(from) - k && TimeWithinDay(date) == TimeWithinDay(from)
      invariant CivilFromDays(Day(date)) == Civil(c.year, c.month, c.date - k)
      decreases c.date - k
    {
      ShiftDays(date, -1);
      ShiftWithinMonth(Day(from), -(k + 1));
      date := MoveDays(date, -1);
      k := k + 1;
    }
  }

  /** 'quarter': `setFullYear(getFullYear(), m, 1)` with m the first month of the date's quarter. */
  method FirstOfQuarter(from: Time) returns (date: Time)
    ensures FullYear(date) == FullYear(from) && Month(date) == 3 * (Month(from) / 3) && DayOfMonth(date) == 1
    ensures TimeWithinDay(date) == TimeWithinDay(from)
  {
    var month := Month(from);
    QuarterOfMonth(month);
    if month == 0 || month == 1 || month == 2 {
      date := MoveToCalendarDate(from, FullYear(from), 0, 1);
    } else if month == 3 || month == 4 || month == 5 {
      date := MoveToCalendarDate(from, FullYear(from), 3, 1);
    } else if month == 6 || month == 7 || month == 8 {
      date := MoveToCalendarDate(from, FullYear(from), 6, 1);
    } else {
      // getMonth() is 9, 10 or 11 here: the last test of the chain always holds
      date := MoveToCalendarDate(from, FullYear(from), 9, 1);
    }
  }

  /** 'hour': `setHours(getHours() - 1)`, then again until the hour is a multiple of six. */
  method RewindToSixHourMark(from: Time) returns (date: Time)
    ensures Hours(date) % 6 == 0 && HourIndex(from) - 6 <= HourIndex(date) < HourIndex(from)
    ensures Minutes(date) == Minutes(from) && Seconds(date) == Seconds(from)
  {
    ShiftHours(from, -1);
    date := MoveHours(from, -1);
    ghost var last := HourIndex(from) - 1;
    ghost var target := last - last % 6;
    DivModUnique(target, 6, last / 6, 0);
    while Hours(date) % 6 != 0
      invariant target <= HourIndex(date) <= last
      invariant Minutes(date) == Minutes(from) && Seconds(date) == Seconds(from)
      decreases HourIndex(date) - target
    {
      HoursOfHourIndex(date);
      ShiftHours(date, -1);
      date := MoveHours(date, -1);
    }
    HoursOfHourIndex(date);
    OnlyOneInWindow(HourIndex(date), target, 6);
  }

  /** Where getMinDate puts the start of the window, given the earliest instant of the scan. */
  predicate SnappedDown(low: Time, format: string, date: Time) {
    if format == "day" || format == "week" then
      // the Monday one to seven days before, at midnight
      WeekDay(date) == 1 && Day(low) - 7 <= Day(date) < Day(low) && TimeWithinDay(date) == 0
    else if format == "month" then
      // midnight of the first of the month fifteen days before
      var from := low - 15 * SecondsPerDay;
      FullYear(date) == FullYear(from) && Month(date) == Month(from) && DayOfMonth(date) == 1 && TimeWithinDay(date) == 0
    else if format == "quarter" then
      // midnight of the first day of the quarter thirty-one days before
      var from := low - 31 * SecondsPerDay;
      FullYear(date) == FullYear(from) && Month(date) == 3 * (Month(from) / 3)
      && DayOfMonth(date) == 1 && TimeWithinDay(date) == 0
    else if format == "hour" then
      // the hour one to six hours before that is a multiple of six, minutes and seconds zeroed
      Hours(date) % 6 == 0 && HourIndex(low) - 6 <= HourIndex(date) < HourIndex(low) && Minutes(date) == 0 && Seconds(date) == 0
    else
      Day(date) == Day(low) && TimeWithinDay(date) == 0
  }

  /** getMinDate, with `new Date()` passed in as now. */
  method GetMinDate(list: seq<Item>, format: string, minDate: Option<Time>, now: Time) returns (date: Time)
    ensures list == [] ==> date == if minDate.Some? then minDate.value else now
    ensures list != [] ==> SnappedDown(Earliest(Seed(minDate, list[0].start), list), format, date)
  {
    date := now;
    if |list| <= 0 {
      // `pMinDate || vDate`: an absent bound yields now
      return if minDate.Some? then minDate.value else now;
    }
    date := Seed(minDate, list[0].start);
    ghost var seed := date;
    for i := 0 to |list|
      invariant date == Earliest(seed, list[..i])
    {
      if list[i].start < date {
        date := list[i].start;
      }
      if list[i].planStart.Some? && list[i].planStart.value < date {
        date := list[i].planStart.value;
      }
      assert list[..i + 1][..i] == list[..i];
    }
    assert list[..|list|] == list;
    date := SnapDown(date, format);
  }

  /** The format-dependent part of getMinDate: move back to the boundary, then zero the time
      (minutes and seconds only, for 'hour'). */
  method SnapDown(low: Time, format: string) returns (date: Time)
    ensures SnappedDown(low, format, date)
  {
    date := low;
    if format == "day" {
      date := RewindToMonday(date);
    } else if format == "week" {
      date := RewindToMonday(date);
    } else if format == "month" {
      date := MoveDays(date, -15);
      date := RewindToMonthStart(date);
    } else if format == "quarter" {
      date := MoveDays(date, -31);
      date := FirstOfQuarter(date);
    } else if format == "hour" {
      date := RewindToSixHourMark(date);
    }
    if format == "hour" {
      date := MoveToHourStart(date);
    } else {
      date := MoveToMidnight(date);
    }
  }

  /** The start of the window is never after the earliest instant, and strictly before it for the
      five formats the chart knows. */
  lemma {:induction false} WindowStartBefore(low: Time, format: string, date: Time)
    requires SnappedDown(low, format, date)
    ensures date <= low
    ensures format == "day" || format == "week" || format == "month" || format == "quarter" || format == "hour" ==> date < low
  {
    if format == "day" || format == "week" {
      InstantOrder(date, low);
    } else if format == "month" {
      FirstOfMonthBefore(date, low, 15);
    } else if format == "quarter" {
      FirstOfMonthBefore(date, low, 31);
    } else if format == "hour" {
      HoursOfHourIndex(date);
      HoursOfHourIndex(low);
    } else {
      InstantOrder(date, low);
    }
  }

  /** A first of a month, at midnight, no later in its year than the day k days before low, is before low. */
  lemma FirstOfMonthBefore(date: Time, low: Time, k: int)
    requires var from := low - k * SecondsPerDay;
      FullYear(date) == FullYear(from) && Month(date) <= Month(from) && DayOfMonth(date) == 1
    requires TimeWithinDay(date) == 0 && k > 0
    ensures date < low
  {
    var from := low - k * SecondsPerDay;
    ShiftDays(low, -k);
    CalendarOrder(date, from);
    assert Day(date) <= Day(from) < Day(low);
    InstantOrder(date, low);
  }

  /** The start of the window is determined by the earliest instant and the format. */
  lemma {:induction false} WindowStartDetermined(low: Time, format: string, d1: Time, d2: Time)
    requires SnappedDown(low, format, d1) && SnappedDown(low, format, d2)
    ensures d1 == d2
  {
    if format == "day" || format == "week" {
      if Day(d1) <= Day(d2) {
        OnlyOneInWindow(Day(d2) + 4, Day(d1) + 4, 7);
      } else {
        OnlyOneInWindow(Day(d1) + 4, Day(d2) + 4, 7);
      }
      SameInstant(d1, d2);
    } else if format == "month" || format == "quarter" {
      CalendarOrder(d1, d2);
      SameInstant(d1, d2);
    } else if format == "hour" {
      HoursOfHourIndex(d1);
      HoursOfHourIndex(d2);
      if HourIndex(d1) <= HourIndex(d2) {
        OnlyOneInWindow(HourIndex(d2), HourIndex(d1), 6);
      } else {
        OnlyOneInWindow(HourIndex(d1), HourIndex(d2), 6);
      }
    } else {
      SameInstant(d1, d2);
    }
  }

  /** getMinDate's promise to the chart: with a non-empty list, the window starts no later than
      every start and every planned start, and no later than the bound when one is given. */
  lemma WindowStartsBeforeEveryTask(list: seq<Item>, format: string, minDate: Option<Time>, date: Time)
    requires list != [] && SnappedDown(Earliest(Seed(minDate, list[0].start), list), format, date)
    ensures forall i :: 0 <= i < |list| ==> date <= list[i].start
    ensures forall i :: 0 <= i < |list| && list[i].planStart.Some? ==> date <= list[i].planStart.value
    ensures minDate.Some? && minDate.value != 0 ==> date <= minDate.value
  {
    var low := Earliest(Seed(minDate, list[0].start), list);
    EarliestIsMinimum(Seed(minDate, list[0].start), list);
    WindowStartBefore(low, format, date);
  }

  // ---- Widening the end of the window ----

  /** 'day' and 'week': `setDate(getDate() + 1)`, then again until getDay() is Sunday. */
  method ForwardToSunday(from: Time) returns (date: Time)
    ensures WeekDay(date) == 0 && Day(from) < Day(date) <= Day(from) + 7
    ensures TimeWithinDay(date) == TimeWithinDay(from)
  {
    ShiftDays(from, 1);
    date := MoveDays(from, 1);
    ghost var first := Day(from) + 1;
    ghost var target := first + (3 - first) % 7;
    DivModUnique(target + 4, 7, 1 - (3 - first) / 7, 0);
    while WeekDay(date) % 7 != 0
      invariant first <= Day(date) <= target
      invariant TimeWithinDay(date) == TimeWithinDay(from)
      decreases target - Day(date)
    {
      ShiftDays(date, 1);
      date := MoveDays(date, 1);
    }
    OnlyOneInWindow(target + 4, Day(date) + 4, 7);
  }

  /** Stepping one day forward from k days past the day numbered n: still in n's month, or on the
      first of the next month after its last day. */
  lemma StepThroughMonth(n: int, k: int)
    requires var c := CivilFromDays(n); 0 <= k <= GetDaysInMonth(c.month, c.year) - c.date
    ensures var c := CivilFromDays(n);
      && (k < GetDaysInMonth(c.month, c.year) - c.date ==> CivilFromDays(n + k + 1) == Civil(c.year, c.month, c.date + k + 1))
      && (k == GetDaysInMonth(c.month, c.year) - c.date ==> CivilFromDays(n + k + 1).date == 1)
  {
    var c := CivilFromDays(n);
    if k < GetDaysInMonth(c.month, c.year) - c.date {
      ShiftWithinMonth(n, k + 1);
    } else {
      ShiftWithinMonth(n, k);
      NextDayAfterMonthEnd(n + k);
    }
  }

  /** `while (getDate() > 1) setDate(getDate() + 1)`: on to the first of the next month, unless
      already on a first. */
  method ForwardToMonthStart(from: Time) returns (date: Time)
    ensures DayOfMonth(date) == 1 && TimeWithinDay(date) == TimeWithinDay(from)
    ensures DayOfMonth(from) == 1 ==> date == from
    ensures DayOfMonth(from) > 1 ==> Day(date) == Day(from) + GetDaysInMonth(Month(from), FullYear(from)) - DayOfMonth(from) + 1
  {
    ghost var c := CivilFromDays(Day(from));
    ghost var rest := GetDaysInMonth(c.month, c.year) - c.date;
    ghost var k := 0;
    date := from;
    while DayOfMonth(date) > 1
      invariant 0 <= k <= rest + 1 && (k == 0 || c.date > 1)
      invariant Day(date) == Day(from) + k && TimeWithinDay(date) == TimeWithinDay(from)
      invariant k <= rest ==> CivilFromDays(Day(date)) == Civil(c.year, c.month, c.date + k)
      invariant k == rest + 1 ==> DayOfMonth(date) == 1
      decreases rest + 1 - k
    {
      StepThroughMonth(Day(from), k);
      ShiftDays(date, 1);
      date := MoveDays(date, 1);
      k := k + 1;
    }
  }

  /** 'month': on to the next first of a month, then `setDate(getDate() - 1)`: the last day of the
      month, or of the previous month when the date is a first. */
  method ForwardToMonthEnd(from: Time) returns (date: Time)
    ensures DayOfMonth(from) == 1 ==> date == from - SecondsPerDay
    ensures DayOfMonth(from) > 1 ==> FullYear(date) == FullYear(from) && Month(date) == Month(from)
    ensures DayOfMonth(date) == GetDaysInMonth(Month(date), FullYear(date))
    ensures TimeWithinDay(date) == TimeWithinDay(from)
  {
    var first := ForwardToMonthStart(from);
    ShiftDays(first, -1);
    date := MoveDays(first, -1);
    assert Day(date) == Day(first) - 1 && TimeWithinDay(date) == TimeWithinDay(from);
    if DayOfMonth(from) == 1 {
      PreviousDayOfMonthStart(Day(from));
    } else {
      ghost var c := CivilFromDays(Day(from));
      ShiftWithinMonth(Day(from), GetDaysInMonth(c.month, c.year) - c.date);
      assert CivilFromDays(Day(date)) == Civil(c.year, c.month, GetDaysInMonth(c.month, c.year));
    }
  }

  /** 'quarter': `setFullYear(getFullYear(), m, d)` with m/d the last day of the date's quarter. */
  method LastOfQuarter(from: Time) returns (date: Time)
    ensures FullYear(date) == FullYear(from) && Month(date) == 3 * (Month(from) / 3) + 2
    ensures DayOfMonth(date) == GetDaysInMonth(Month(date), FullYear(date))
    ensures TimeWithinDay(date) == TimeWithinDay(from)
  {
    var month := Month(from);
    var year := FullYear(from);
    QuarterOfMonth(month);
    if month == 0 || month == 1 || month == 2 {
      assert ValidCivil(Civil(year, 2, 31)) && 3 * (month / 3) + 2 == 2;
      date := MoveToCalendarDate(from, year, 2, 31);
    } else if month == 3 || month == 4 || month == 5 {
      assert ValidCivil(Civil(year, 5, 30)) && 3 * (month / 3) + 2 == 5;
      date := MoveToCalendarDate(from, year, 5, 30);
    } else if month == 6 || month == 7 || month == 8 {
      assert ValidCivil(Civil(year, 8, 30)) && 3 * (month / 3) + 2 == 8;
      date := MoveToCalendarDate(from, year, 8, 30);
    } else {
      // getMonth() is 9, 10 or 11 here: the last test of the chain always holds
      assert ValidCivil(Civil(year, 11, 31)) && 3 * (month / 3) + 2 == 11;
      date := MoveToCalendarDate(from, year, 11, 31);
    }
  }

  /** 'hour': a whole day forward when the hour is 0, then `setHours(getHours() + 1)` until the
      hour is 5, 11, 17 or 23. */
  method ForwardToSixHourEnd(from: Time) returns (date: Time)
    ensures var base := if Hours(from) == 0 then from + SecondsPerDay else from;
      Hours(date) % 6 == 5 && HourIndex(base) < HourIndex(date) <= HourIndex(base) + 6
    ensures Minutes(date) == Minutes(from) && Seconds(date) == Seconds(from)
  {
    date := from;
    if Hours(date) == 0 {
      ShiftHours(from, 24);
      date := MoveDays(date, 1);
    }
    ghost var base := date;
    ShiftHours(date, 1);
    date := MoveHours(date, 1);
    ghost var first := HourIndex(base) + 1;
    ghost var target := first + (5 - first) % 6;
    DivModUnique(target, 6, -((5 - first) / 6), 5);
    while Hours(date) % 6 != 5
      invariant first <= HourIndex(date) <= target
      invariant Minutes(date) == Minutes(from) && Seconds(date) == Seconds(from)
      decreases target - HourIndex(date)
    {
      HoursOfHourIndex(date);
      ShiftHours(date, 1);
      date := MoveHours(date, 1);
    }
    HoursOfHourIndex(date);
    OnlyOneInWindow(target, HourIndex(date), 6);
  }

  /** Where getMaxDate puts the end of the window, given the latest instant of the scan. The time of
      day is kept throughout. */
  predicate SnappedUp(high: Time, format: string, date: Time) {
    if format == "day" || format == "week" then
      // the Sunday one to seven days after
      WeekDay(date) == 0 && Day(high) < Day(date) <= Day(high) + 7 && TimeWithinDay(date) == TimeWithinDay(high)
    else if format == "month" then
      // the last day of the month, or of the previous month when high falls on the first
      && DayOfMonth(date) == GetDaysInMonth(Month(date), FullYear(date))
      && TimeWithinDay(date) == TimeWithinDay(high)
      && if DayOfMonth(high) == 1 then Day(date) == Day(high) - 1
         else FullYear(date) == FullYear(high) && Month(date) == Month(high)
    else if format == "quarter" then
      // the last day of the quarter
      && FullYear(date) == FullYear(high) && Month(date) == 3 * (Month(high) / 3) + 2
      && DayOfMonth(date) == GetDaysInMonth(Month(date), FullYear(date))
      && TimeWithinDay(date) == TimeWithinDay(high)
    else if format == "hour" then
      // one to six hours after (counted from the next day when the hour is 0), at hour 5, 11, 17 or 23
      var base := if Hours(high) == 0 then high + SecondsPerDay else high;
      && Hours(date) % 6 == 5 && HourIndex(base) < HourIndex(date) <= HourIndex(base) + 6
      && Minutes(date) == Minutes(high) && Seconds(date) == Seconds(high)
    else
      date == high
  }

  /** getMaxDate, with `new Date()` passed in as now. */
  method GetMaxDate(list: seq<Item>, format: string, maxDate: Option<Time>, now: Time) returns (date: Time)
    ensures list == [] ==> date == if maxDate.Some? then maxDate.value else now
    ensures list != [] ==> SnappedUp(Latest(Seed(maxDate, list[0].end), list), format, date)
  {
    date := now;
    if |list| <= 0 {
      return if maxDate.Some? then maxDate.value else now;
    }
    date := Seed(maxDate, list[0].end);
    ghost var seed := date;
    for i := 0 to |list|
      invariant date == Latest(seed, list[..i])
    {
      if list[i].end > date {
        date := list[i].end;
      }
      if list[i].planEnd.Some? && list[i].planEnd.value > date {
        date := list[i].planEnd.value;
      }
      assert list[..i + 1][..i] == list[..i];
    }
    assert list[..|list|] == list;
    if format == "day" {
      date := ForwardToSunday(date);
    } else if format == "week" {
      date := ForwardToSunday(date);
    } else if format == "month" {
      date := ForwardToMonthEnd(date);
    } else if format == "quarter" {
      date := LastOfQuarter(date);
    } else if format == "hour" {
      date := ForwardToSixHourEnd(date);
    }
  }

  /** The end of the window is never before the latest instant, and strictly after it for 'day',
      'week' and 'hour' -- except in the month format when that instant falls on a first. */
  lemma {:induction false} WindowEndAfter(high: Time, format: string, date: Time)
    requires SnappedUp(high, format, date)
    requires !(format == "month" && DayOfMonth(high) == 1)
    ensures date >= high
    ensures format == "day" || format == "week" || format == "hour" ==> date > high
  {
    InstantOrder(high, date);
    if format == "day" || format == "week" {
    } else if format == "month" || format == "quarter" {
      CalendarOrder(high, date);
    } else if format == "hour" {
      ShiftHours(high, 24);
      HoursOfHourIndex(date);
      HoursOfHourIndex(high);
    }
  }

  /** In the month format the window ends the day before a latest instant that falls on a first:
      the last task then ends after the window. */
  lemma MonthWindowEndsBeforeFirst(high: Time, date: Time)
    requires SnappedUp(high, "month", date) && DayOfMonth(high) == 1
    ensures date == high - SecondsPerDay && date < high
  {
    ShiftDays(high, -1);
    SameInstant(date, high - SecondsPerDay);
  }

  /** The end of the window is determined by the latest instant and the format. */
  lemma {:induction false} WindowEndDetermined(high: Time, format: string, d1: Time, d2: Time)
    requires SnappedUp(high, format, d1) && SnappedUp(high, format, d2)
    ensures d1 == d2
  {
    if format == "day" || format == "week" {
      if Day(d1) <= Day(d2) {
        OnlyOneInWindow(Day(d2) + 4, Day(d1) + 4, 7);
      } else {
        OnlyOneInWindow(Day(d1) + 4, Day(d2) + 4, 7);
      }
      SameInstant(d1, d2);
    } else if format == "month" || format == "quarter" {
      CalendarOrder(d1, d2);
      SameInstant(d1, d2);
    } else if format == "hour" {
      HoursOfHourIndex(d1);
      HoursOfHourIndex(d2);
      if HourIndex(d1) <= HourIndex(d2) {
        OnlyOneInWindow(HourIndex(d2), HourIndex(d1), 6);
      } else {
        OnlyOneInWindow(HourIndex(d1), HourIndex(d2), 6);
      }
    }
  }

  /** getMaxDate's promise to the chart: with a non-empty list, the window ends no earlier than
      every end and every planned end, unless the month format meets a latest instant on a first. */
  lemma WindowEndsAfterEveryTask(list: seq<Item>, format: string, maxDate: Option<Time>, date: Time)
    requires list != [] && SnappedUp(Latest(Seed(maxDate, list[0].end), list), format, date)
    requires !(format == "month" && DayOfMonth(Latest(Seed(maxDate, list[0].end), list)) == 1)
    ensures forall i :: 0 <= i < |list| ==> date >= list[i].end
    ensures forall i :: 0 <= i < |list| && list[i].planEnd.Some? ==> date >= list[i].planEnd.value
    ensures maxDate.Some? && maxDate.value != 0 ==> date >= maxDate.value
  {
    var high := Latest(Seed(maxDate, list[0].end), list);
    LatestIsMaximum(Seed(maxDate, list[0].end), list);
    WindowEndAfter(high, format, date);
  }
}
