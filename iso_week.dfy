/** getIsoWeek: week numbers of ISO 8601:2004 section 4.1.4 (weeks start on Monday, week 1 is
    the week holding 4 January), computed the way the utilities compute them, beside a
    reference definition that reads the week number off the week's Thursday. */
module IsoWeek {
  import opened Gregorian
  import opened LocalTime

  /** The first estimate of getIsoWeek: whole weeks from the Monday on or before 4 January of
      the date's year, plus one. Both instants are midnights, so their difference is a whole
      number of days and Math.round leaves it as it is. */
  function RawWeek(t: Time): int {
    var keyDay := NewDate(FullYear(t), 0, 4, 0, 0, 0);
    var keyDayOfWeek := if WeekDay(keyDay) == 0 then 6 else WeekDay(keyDay) - 1;
    var firstMondayYearTime := keyDay - keyDayOfWeek * SecondsPerDay;
    var thisTime := NewDate(FullYear(t), Month(t), DayOfMonth(t), 0, 0, 0);
    var daysFromFirstMonday := (thisTime - firstMondayYearTime) / SecondsPerDay;
    CeilDiv(daysFromFirstMonday + 1, 7)
  }

  /** getIsoWeek. A date before the Monday of week 1 takes the week of 31 December of the year
      before; a week 53 in a year whose 1 January and 31 December are both not Thursdays is
      week 1 of the next year. */
  function GetIsoWeek(t: Time): (week: int)
    ensures 1 <= week <= 53
    decreases if RawWeek(t) <= 0 then 1 else 0
  {
    var year := FullYear(t);
    var thisWeek := RawWeek(t);
    RawWeekBounds(t);
    if thisWeek <= 0 then
      var lastDay := NewDate(year - 1, 11, 31, 0, 0, 0);
      LastDayHasPositiveWeek(year - 1);
      GetIsoWeek(lastDay)
    else if thisWeek == 53 && WeekDay(NewDate(year, 0, 1, 0, 0, 0)) != 4
      && WeekDay(NewDate(year, 11, 31, 0, 0, 0)) != 4 then 1
    else thisWeek
  }

  // ---- Reference definition ----

  /** Day n falls on a Thursday (day 0, 1 January 1970, did). */
  predicate IsThursday(n: int) {
    (n + 4) % 7 == 4
  }

  /** The Monday on or before day n. */
  function MondayOf(n: int): (m: int)
    ensures m <= n < m + 7 && (m + 3) % 7 == 0
  {
    n - (n + 3) % 7
  }

  /** The ISO week-numbering year of day n: the calendar year of its week's Thursday. */
  function IsoWeekYear(n: int): int {
    CivilFromDays(MondayOf(n) + 3).year
  }

  /** The ISO week number of day n: whole weeks from 1 January of the week-numbering year to
      the week's Thursday, plus one. */
  function IsoWeekNumber(n: int): int {
    (MondayOf(n) + 3 - DaysBeforeYear(IsoWeekYear(n))) / 7 + 1
  }

  // ---- Facts about the reference definition ----

  /** A day whose number lies in a year's range belongs to that year. */
  lemma YearOfDay(n: int, year: int)
    requires DaysBeforeYear(year) <= n < DaysBeforeYear(year + 1)
    ensures CivilFromDays(n).year == year
  {
    var c := CivilFromDays(n);
    CivilDayBounds(c);
    YearUnique(n, c.year, year);
  }

  /** The week's Thursday lies in the week-numbering year. */
  lemma ThursdayInYear(n: int)
    ensures var y := IsoWeekYear(n);
      DaysBeforeYear(y) <= MondayOf(n) + 3 < DaysBeforeYear(y + 1)
  {
    CivilDayBounds(CivilFromDays(MondayOf(n) + 3));
  }

  /** Week numbers run from 1 to 53. */
  lemma IsoWeekNumberBounds(n: int)
    ensures 1 <= IsoWeekNumber(n) <= 53
  {
    var y := IsoWeekYear(n);
    ThursdayInYear(n);
    DaysBeforeYearStep(y);
  }

  /** Two days at most three apart lie in the same year or in neighbouring years. */
  lemma NearbyYears(d1: int, y1: int, d2: int, y2: int)
    requires DaysBeforeYear(y1) <= d1 < DaysBeforeYear(y1 + 1)
    requires DaysBeforeYear(y2) <= d2 < DaysBeforeYear(y2 + 1)
    requires d2 - 3 <= d1 <= d2 + 3
    ensures y2 - 1 <= y1 <= y2 + 1
  {
    if y1 < y2 - 1 {
      DaysBeforeYearMonotone(y1 + 1, y2 - 1);
      DaysBeforeYearStep(y2 - 1);
    } else if y1 > y2 + 1 {
      DaysBeforeYearMonotone(y2 + 1, y1 - 1);
      DaysBeforeYearStep(y2 + 1);
    }
  }

  /** The week-numbering year of a day of year c is c or a neighbour of it. */
  lemma IsoWeekYearNear(n: int, c: int)
    requires DaysBeforeYear(c) <= n < DaysBeforeYear(c + 1)
    ensures c - 1 <= IsoWeekYear(n) <= c + 1
  {
    var y := IsoWeekYear(n);
    assert DaysBeforeYear(y) <= MondayOf(n) + 3 < DaysBeforeYear(y + 1) by {
      ThursdayInYear(n);
    }
    NearbyYears(MondayOf(n) + 3, y, n, c);
  }

  /** Week numbers run from 1 to 53, and the week-numbering year is the calendar year of the day
      or a neighbour of it. */
  lemma IsoWeekBounds(n: int)
    ensures 1 <= IsoWeekNumber(n) <= 53
    ensures var c := CivilFromDays(n).year; c - 1 <= IsoWeekYear(n) <= c + 1
  {
    IsoWeekNumberBounds(n);
    CivilDayBounds(CivilFromDays(n));
    IsoWeekYearNear(n, CivilFromDays(n).year);
  }

  /** Days of one Monday-to-Sunday week share their week number and year. */
  lemma SameWeek(n1: int, n2: int)
    requires MondayOf(n1) == MondayOf(n2)
    ensures IsoWeekNumber(n1) == IsoWeekNumber(n2) && IsoWeekYear(n1) == IsoWeekYear(n2)
  {
  }

  /** The Monday of the week a day falls in, counted in whole weeks from a known Monday. */
  lemma MondayByWeeks(n: int, monday: int)
    requires (monday + 3) % 7 == 0
    ensures MondayOf(n) == monday + 7 * ((n - monday) / 7)
  {
    var j, r := (n - monday) / 7, (n - monday) % 7;
    var s := (monday + 3) / 7;
    DivModUnique(n + 3, 7, s + j, r);
  }

  /** A day is a Thursday exactly when it lies a whole number of weeks from a known Thursday. */
  lemma ThursdayOffset(d: int, thursday: int)
    requires thursday % 7 == 0
    ensures IsThursday(d) <==> (thursday - d) % 7 == 0
  {
    var s := thursday / 7;
    var k, r := (thursday - d) / 7, (thursday - d) % 7;
    if r <= 4 {
      DivModUnique(d + 4, 7, s - k, 4 - r);
    } else {
      DivModUnique(d + 4, 7, s - k - 1, 11 - r);
    }
  }

  /** The Thursday of the week of day n. */
  lemma ThursdayOfWeek(n: int)
    ensures (MondayOf(n) + 3) % 7 == 0 && IsThursday(MondayOf(n) + 3)
  {
    ThursdayOffset(MondayOf(n) + 3, MondayOf(n) + 3);
  }

  /** Week 53 exists only in a week-numbering year that starts or ends on a Thursday. */
  lemma WeekFiftyThree(n: int)
    requires IsoWeekNumber(n) == 53
    ensures var y := IsoWeekYear(n);
      IsThursday(DaysBeforeYear(y)) || IsThursday(DaysBeforeYear(y + 1) - 1)
  {
    var y := IsoWeekYear(n);
    var thursday := MondayOf(n) + 3;
    ThursdayInYear(n);
    ThursdayOfWeek(n);
    DaysBeforeYearStep(y);
    var offset := thursday - DaysBeforeYear(y);
    assert 364 <= offset <= 365;
    ThursdayOffset(DaysBeforeYear(y), thursday);
    ThursdayOffset(DaysBeforeYear(y + 1) - 1, thursday);
    if offset == 364 {
      DivModUnique(offset, 7, 52, 0);
    } else {
      assert thursday == DaysBeforeYear(y + 1) - 1;
    }
  }

  /** 28 December always lies in the last week of its year; that week is week 53 exactly when
      1 January or 31 December of the year is a Thursday, and week 52 otherwise. */
  lemma LastWeekOfYear(y: int)
    ensures var dec28 := DaysBeforeYear(y + 1) - 4;
      && IsoWeekYear(dec28) == y
      && (IsoWeekNumber(dec28) == 53 <==> IsThursday(DaysBeforeYear(y)) || IsThursday(DaysBeforeYear(y + 1) - 1))
      && (IsoWeekNumber(dec28) == 52 <==> !IsThursday(DaysBeforeYear(y)) && !IsThursday(DaysBeforeYear(y + 1) - 1))
  {
    var dec28 := DaysBeforeYear(y + 1) - 4;
    var thursday := MondayOf(dec28) + 3;
    DaysBeforeYearStep(y);
    YearOfDay(thursday, y);
    ThursdayOfWeek(dec28);
    var offset := thursday - DaysBeforeYear(y);
    var len := YearLength(y);
    assert len - 7 <= offset < len;
    ThursdayOffset(DaysBeforeYear(y), thursday);
    ThursdayOffset(DaysBeforeYear(y + 1) - 1, thursday);
    var k, r := offset / 7, offset % 7;
    assert k == 51 || k == 52;
    DivModUnique(offset - len + 1 + 7, 7, (offset - len + 8) / 7, (offset - len + 8) % 7);
  }

  // ---- The source's computation, in day numbers ----

  /** getDay() of a midnight. */
  lemma WeekDayOfMidnight(n: int)
    ensures WeekDay(MakeDate(n, 0)) == (n + 4) % 7 && Day(MakeDate(n, 0)) == n
  {
    DayOfMakeDate(n, 0);
  }

  /** The source's "Monday is 0" weekday of a day is its distance from the Monday of its week. */
  lemma MondayBasedWeekDay(n: int)
    ensures (if (n + 4) % 7 == 0 then 6 else (n + 4) % 7 - 1) == n - MondayOf(n)
  {
    var q, r := (n + 3) / 7, (n + 3) % 7;
    if r == 6 {
      DivModUnique(n + 4, 7, q + 1, 0);
    } else {
      DivModUnique(n + 4, 7, q, r + 1);
    }
  }

  /** Math.ceil((d + 1) / 7) is one more than the floor of d / 7. */
  lemma CeilStep(d: int)
    ensures CeilDiv(d + 1, 7) == d / 7 + 1
  {
    var q, r := d / 7, d % 7;
    DivModUnique(-(d + 1), 7, -q - 1, 6 - r);
  }

  /** Whole days between two midnights. */
  lemma MidnightArithmetic(a: int, b: int)
    ensures MakeDate(a, 0) - (a - b) * SecondsPerDay == MakeDate(b, 0)
    ensures (MakeDate(a, 0) - MakeDate(b, 0)) / SecondsPerDay == a - b
  {
    DivModUnique((a - b) * SecondsPerDay, SecondsPerDay, a - b, 0);
  }

  /** The first estimate in day numbers: whole weeks from the Monday on or before 4 January of
      the (constructor-remapped) year, plus one. */
  lemma RawWeekDays(t: Time)
    ensures var year := ConstructorYear(FullYear(t));
      RawWeek(t) == (MakeDay(year, Month(t), DayOfMonth(t)) - MondayOf(DaysBeforeYear(year) + 3)) / 7 + 1
  {
    var year := ConstructorYear(FullYear(t));
    var key := DaysBeforeYear(year) + 3;
    MakeDayInYear(year, 0, 4);
    var keyDay := NewDate(FullYear(t), 0, 4, 0, 0, 0);
    assert keyDay == MakeDate(key, 0);
    WeekDayOfMidnight(key);
    MondayBasedWeekDay(key);
    var keyDayOfWeek := if WeekDay(keyDay) == 0 then 6 else WeekDay(keyDay) - 1;
    assert keyDayOfWeek == key - MondayOf(key);
    var monday := MondayOf(key);
    MidnightArithmetic(key, monday);
    var firstMondayYearTime := keyDay - keyDayOfWeek * SecondsPerDay;
    assert firstMondayYearTime == MakeDate(monday, 0);
    var p := MakeDay(year, Month(t), DayOfMonth(t));
    var thisTime := NewDate(FullYear(t), Month(t), DayOfMonth(t), 0, 0, 0);
    assert thisTime == MakeDate(p, 0);
    MidnightArithmetic(p, monday);
    CeilStep(p - monday);
  }

  /** The day RawWeek looks at lies in the (remapped) year. */
  lemma ThisDayInYear(t: Time)
    ensures var year := ConstructorYear(FullYear(t));
      DaysBeforeYear(year) <= MakeDay(year, Month(t), DayOfMonth(t)) < DaysBeforeYear(year + 1)
  {
    var year := ConstructorYear(FullYear(t));
    var m := Month(t);
    MakeDayInYear(year, m, DayOfMonth(t));
    DaysBeforeMonthStep(m, year);
    DaysBeforeMonthBounds(m + 1, year);
    DaysBeforeMonthBounds(m, year);
    DaysBeforeYearStep(year);
  }

  lemma RawWeekBounds(t: Time)
    ensures 0 <= RawWeek(t) <= 53
  {
    RawWeekDays(t);
    ThisDayInYear(t);
    DaysBeforeYearStep(ConstructorYear(FullYear(t)));
  }

  /** The fields of new Date(year, 11, 31, 0, 0, 0). */
  lemma LastDayFields(year: int)
    ensures var t := NewDate(year, 11, 31, 0, 0, 0);
      FullYear(t) == ConstructorYear(year) && Month(t) == 11 && DayOfMonth(t) == 31
  {
    FieldsOfMakeDate(Civil(ConstructorYear(year), 11, 31), 0);
  }

  /** 31 December is the last day of its year. */
  lemma LastDayNumber(t: Time)
    requires Month(t) == 11 && DayOfMonth(t) == 31
    ensures Day(t) == DaysBeforeYear(FullYear(t) + 1) - 1
  {
    DaysBeforeYearStep(FullYear(t));
  }

  /** 31 December is at least in week 52 by the first estimate. */
  lemma LastDayEstimate(t: Time)
    requires Month(t) == 11 && DayOfMonth(t) == 31
    ensures RawWeek(t) >= 52
  {
    var y := ConstructorYear(FullYear(t));
    RawWeekDays(t);
    MakeDayInYear(y, 11, 31);
    DaysBeforeYearStep(y);
  }

  /** So the recursion of getIsoWeek stops after one step. */
  lemma LastDayHasPositiveWeek(year: int)
    ensures RawWeek(NewDate(year, 11, 31, 0, 0, 0)) >= 52
  {
    LastDayFields(year);
    LastDayEstimate(NewDate(year, 11, 31, 0, 0, 0));
  }

  /** A date of an unremapped year, in day numbers: the day is the one RawWeek looks at. */
  lemma UnremappedDay(t: Time)
    requires !(0 <= FullYear(t) <= 99)
    ensures MakeDay(FullYear(t), Month(t), DayOfMonth(t)) == Day(t)
  {
    var c := CivilFromDays(Day(t));
    MakeDayInYear(c.year, c.month, c.date);
  }

  /** The Thursday of week 1 of a year lies `a` = 0 .. 6 days after 1 January, and `a` is 0
      exactly when 1 January is a Thursday. */
  lemma FirstThursday(jan1: int)
    ensures var a := MondayOf(jan1 + 3) + 3 - jan1;
      0 <= a < 7 && (IsThursday(jan1) <==> a == 0)
  {
    var m := MondayOf(jan1 + 3);
    ThursdayOfWeek(jan1 + 3);
    ThursdayOffset(jan1, m + 3);
    DivModUnique(m + 3 - jan1, 7, 0, m + 3 - jan1);
  }

  /** The reference week of a day whose week's Thursday lies in year y (`jan1` is the day number
      of 1 January of y). */
  lemma WeekInYear(n: int, y: int, jan1: int)
    requires jan1 == DaysBeforeYear(y) && jan1 <= MondayOf(n) + 3 < DaysBeforeYear(y + 1)
    ensures IsoWeekYear(n) == y && IsoWeekNumber(n) == (MondayOf(n) + 3 - jan1) / 7 + 1
  {
    YearOfDay(MondayOf(n) + 3, y);
  }

  /** A day whose week's Thursday is in the same year gets the first estimate as its week; such
      a week 53 always holds 31 December as its Thursday. */
  lemma EstimateSameYear(n: int, jan1: int, next: int, j: int)
    requires var m := MondayOf(jan1 + 3); m <= n && j == (n - m) / 7 && MondayOf(n) == m + 7 * j
    requires jan1 + 365 <= next <= jan1 + 366 && MondayOf(n) + 3 < next
    ensures (MondayOf(n) + 3 - jan1) / 7 + 1 == j + 1
    ensures j == 52 && !IsThursday(jan1) ==> IsThursday(next - 1)
  {
    var m := MondayOf(jan1 + 3);
    var a := m + 3 - jan1;
    FirstThursday(jan1);
    DivModUnique(a + 7 * j, 7, j, a);
    if j == 52 && !IsThursday(jan1) {
      ThursdayOfWeek(n);
      assert MondayOf(n) + 3 == next - 1;
    }
  }

  /** A day whose week's Thursday is in the next year is in that year's week 1, and its first
      estimate is 53 in a year that neither starts nor ends on a Thursday. */
  lemma EstimateNextYear(n: int, jan1: int, next: int, j: int)
    requires var m := MondayOf(jan1 + 3); m <= n < next && j == (n - m) / 7 && MondayOf(n) == m + 7 * j
    requires jan1 + 365 <= next <= jan1 + 366 && next <= MondayOf(n) + 3
    ensures (MondayOf(n) + 3 - next) / 7 + 1 == 1
    ensures j == 52 && !IsThursday(jan1) && !IsThursday(next - 1)
  {
    var m := MondayOf(jan1 + 3);
    var a := m + 3 - jan1;
    var thursday := MondayOf(n) + 3;
    FirstThursday(jan1);
    DivModUnique(thursday - next, 7, 0, thursday - next);
    ThursdayOfWeek(n);
    ThursdayOffset(next - 1, thursday);
    DivModUnique(thursday - next + 1, 7, 0, thursday - next + 1);
  }

  /** From its first estimate the source finds the reference week number whenever that estimate
      is positive: a day with a Thursday in the next year is the next year's week 1 (`jan1` and
      `next` are the day numbers of 1 January of year y and of the year after). */
  lemma EstimateGivesWeek(n: int, y: int, jan1: int, next: int)
    requires jan1 == DaysBeforeYear(y) && next == DaysBeforeYear(y + 1)
    requires jan1 <= n < next && n >= MondayOf(jan1 + 3)
    ensures var raw := (n - MondayOf(jan1 + 3)) / 7 + 1;
      IsoWeekNumber(n) == if raw == 53 && !IsThursday(jan1) && !IsThursday(next - 1) then 1 else raw
    ensures IsoWeekYear(n) == y || IsoWeekYear(n) == y + 1
  {
    var m := MondayOf(jan1 + 3);
    var j := (n - m) / 7;
    MondayByWeeks(n, m);
    DaysBeforeYearStep(y);
    if MondayOf(n) + 3 < next {
      WeekInYear(n, y, jan1);
      EstimateSameYear(n, jan1, next, j);
    } else {
      DaysBeforeYearStep(y + 1);
      WeekInYear(n, y + 1, next);
      EstimateNextYear(n, jan1, next, j);
    }
  }

  /** The source's test for a Thursday on 1 January, in day numbers (`jan1` is the day number of
      1 January). */
  lemma NewYearWeekDay(y: int, jan1: int)
    requires !(0 <= y <= 99) && jan1 == DaysBeforeYear(y)
    ensures WeekDay(NewDate(y, 0, 1, 0, 0, 0)) == 4 <==> IsThursday(jan1)
  {
    assert NewDate(y, 0, 1, 0, 0, 0) == MakeDate(jan1, 0) by {
      MakeDayInYear(y, 0, 1);
    }
    WeekDayOfMidnight(jan1);
  }

  /** The source's test for a Thursday on 31 December, in day numbers (`next` is the day number of
      1 January of the year after). */
  lemma YearEndWeekDay(y: int, next: int)
    requires !(0 <= y <= 99) && next == DaysBeforeYear(y + 1)
    ensures WeekDay(NewDate(y, 11, 31, 0, 0, 0)) == 4 <==> IsThursday(next - 1)
  {
    assert NewDate(y, 11, 31, 0, 0, 0) == MakeDate(next - 1, 0) by {
      MakeDayInYear(y, 11, 31);
      DaysBeforeYearStep(y);
    }
    WeekDayOfMidnight(next - 1);
  }

  /** One step of getIsoWeek: a first estimate of 0 defers to 31 December of the year before. */
  lemma GetIsoWeekStep(t: Time)
    ensures RawWeek(t) <= 0 ==> GetIsoWeek(t) == GetIsoWeek(NewDate(FullYear(t) - 1, 11, 31, 0, 0, 0))
  {
  }

  /** A positive first estimate is the answer, except that week 53 of a year that neither starts
      nor ends on a Thursday becomes week 1. */
  lemma GetIsoWeekPositive(t: Time, jan1: int, next: int)
    requires !(0 <= FullYear(t) <= 99) && RawWeek(t) > 0
    requires jan1 == DaysBeforeYear(FullYear(t)) && next == DaysBeforeYear(FullYear(t) + 1)
    ensures GetIsoWeek(t) == if RawWeek(t) == 53 && !IsThursday(jan1) && !IsThursday(next - 1) then 1 else RawWeek(t)
  {
    NewYearWeekDay(FullYear(t), jan1);
    YearEndWeekDay(FullYear(t), next);
  }

  /** The day of an instant lies in the instant's year. */
  lemma DayInYear(t: Time)
    ensures DaysBeforeYear(FullYear(t)) <= Day(t) < DaysBeforeYear(FullYear(t) + 1)
  {
    CivilDayBounds(CivilFromDays(Day(t)));
  }

  /** The first estimate for a date of an unremapped year, in that date's own day number. */
  lemma RawWeekOfDay(t: Time)
    requires !(0 <= FullYear(t) <= 99)
    ensures RawWeek(t) == (Day(t) - MondayOf(DaysBeforeYear(FullYear(t)) + 3)) / 7 + 1
  {
    RawWeekDays(t);
    UnremappedDay(t);
    assert ConstructorYear(FullYear(t)) == FullYear(t);
  }

  /** The reference week of a date whose first estimate is positive, read off that estimate
      (`jan1` and `next` are the day numbers of 1 January of the date's year and of the next). */
  lemma EstimateOfDay(t: Time, jan1: int, next: int)
    requires !(0 <= FullYear(t) <= 99) && RawWeek(t) > 0
    requires jan1 == DaysBeforeYear(FullYear(t)) && next == DaysBeforeYear(FullYear(t) + 1)
    ensures IsoWeekNumber(Day(t)) == if RawWeek(t) == 53 && !IsThursday(jan1) && !IsThursday(next - 1) then 1 else RawWeek(t)
    ensures IsoWeekYear(Day(t)) == FullYear(t) || IsoWeekYear(Day(t)) == FullYear(t) + 1
  {
    RawWeekOfDay(t);
    DayInYear(t);
    EstimateGivesWeek(Day(t), FullYear(t), jan1, next);
  }

  /** Where the first estimate is positive the source's week is the reference week. */
  lemma PositiveEstimate(t: Time)
    requires !(0 <= FullYear(t) <= 99) && RawWeek(t) > 0
    ensures GetIsoWeek(t) == IsoWeekNumber(Day(t))
    ensures IsoWeekYear(Day(t)) == FullYear(t) || IsoWeekYear(Day(t)) == FullYear(t) + 1
  {
    var jan1, next := DaysBeforeYear(FullYear(t)), DaysBeforeYear(FullYear(t) + 1);
    GetIsoWeekPositive(t, jan1, next);
    EstimateOfDay(t, jan1, next);
  }

  /** Days of a year before the Monday of its week 1 are in the week of 31 December before,
      the last week of the previous week-numbering year. */
  lemma EarlyDays(n: int, y: int)
    requires DaysBeforeYear(y) <= n < MondayOf(DaysBeforeYear(y) + 3)
    ensures MondayOf(n) == MondayOf(DaysBeforeYear(y) - 1) && IsoWeekYear(n) == y - 1
  {
    var m := MondayOf(DaysBeforeYear(y) + 3);
    var previous := DaysBeforeYear(y) - 1;
    assert -7 <= n - m < 0 && -7 <= previous - m < 0;
    assert MondayOf(n) == m - 7 by {
      MondayByWeeks(n, m);
      DivModUnique(n - m, 7, -1, n - m + 7);
    }
    assert MondayOf(previous) == m - 7 by {
      MondayByWeeks(previous, m);
      DivModUnique(previous - m, 7, -1, previous - m + 7);
    }
    DaysBeforeYearStep(y - 1);
    YearOfDay(m - 4, y - 1);
  }

  /** On 31 December getIsoWeek answers with the reference week. */
  lemma LastDayWeek(t: Time)
    requires !(0 <= FullYear(t) <= 99) && Month(t) == 11 && DayOfMonth(t) == 31
    ensures GetIsoWeek(t) == IsoWeekNumber(DaysBeforeYear(FullYear(t) + 1) - 1)
  {
    var y := FullYear(t);
    LastDayEstimate(t);
    LastDayNumber(t);
    PositiveEstimate(t);
  }

  /** 31 December of the year before answers with the reference week of that day. */
  lemma PreviousYearEnd(y: int)
    requires !(0 <= y - 1 <= 99)
    ensures GetIsoWeek(NewDate(y - 1, 11, 31, 0, 0, 0)) == IsoWeekNumber(DaysBeforeYear(y) - 1)
  {
    var lastDay := NewDate(y - 1, 11, 31, 0, 0, 0);
    LastDayFields(y - 1);
    assert FullYear(lastDay) + 1 == y;
    LastDayWeek(lastDay);
  }

  /** A first estimate of 0 makes getIsoWeek answer the reference week of 31 December of the
      year before. */
  lemma NonPositiveStep(t: Time)
    requires !(0 <= FullYear(t) <= 100) && RawWeek(t) <= 0
    ensures GetIsoWeek(t) == IsoWeekNumber(DaysBeforeYear(FullYear(t)) - 1)
  {
    GetIsoWeekStep(t);
    PreviousYearEnd(FullYear(t));
  }

  /** A first estimate of 0 means the day comes before the Monday of week 1, in the week of
      31 December of the year before. */
  lemma NonPositiveDay(t: Time)
    requires !(0 <= FullYear(t) <= 99) && RawWeek(t) <= 0
    ensures var previous := DaysBeforeYear(FullYear(t)) - 1;
      IsoWeekNumber(Day(t)) == IsoWeekNumber(previous) && IsoWeekYear(Day(t)) == FullYear(t) - 1
  {
    var y := FullYear(t);
    var n := Day(t);
    RawWeekOfDay(t);
    DayInYear(t);
    EarlyDays(n, y);
    SameWeek(n, DaysBeforeYear(y) - 1);
  }

  /** Where the first estimate is not positive the source's week is the reference week, and the
      day belongs to the previous week-numbering year. */
  lemma NonPositiveEstimate(t: Time)
    requires !(0 <= FullYear(t) <= 100) && RawWeek(t) <= 0
    ensures GetIsoWeek(t) == IsoWeekNumber(Day(t)) && IsoWeekYear(Day(t)) == FullYear(t) - 1
  {
    NonPositiveStep(t);
    NonPositiveDay(t);
  }

  /** getIsoWeek computes the ISO 8601 week number of the day (for years the Date constructor
      does not remap, and the year after them): days before the Monday of week 1 are exactly
      those of the previous week-numbering year. */
  lemma GetIsoWeekIsIsoWeek(t: Time)
    requires !(0 <= FullYear(t) <= 100)
    ensures GetIsoWeek(t) == IsoWeekNumber(Day(t))
    ensures RawWeek(t) <= 0 <==> IsoWeekYear(Day(t)) == FullYear(t) - 1
  {
    if RawWeek(t) > 0 {
      PositiveEstimate(t);
    } else {
      NonPositiveEstimate(t);
    }
  }

  /** A day of year y in the previous week-numbering year lies in the first days of January and
      in week 52 or 53. */
  lemma WeekYearBefore(n: int, y: int, jan1: int)
    requires jan1 == DaysBeforeYear(y) && jan1 <= n && IsoWeekYear(n) == y - 1
    ensures IsoWeekNumber(n) >= 52 && n < jan1 + 31
  {
    ThursdayInYear(n);
    DaysBeforeYearStep(y - 1);
  }

  /** A day of year y in the next week-numbering year lies in the last days of December and in
      week 1. */
  lemma WeekYearAfter(n: int, y: int, next: int)
    requires next == DaysBeforeYear(y + 1) && n < next && IsoWeekYear(n) == y + 1
    ensures IsoWeekNumber(n) == 1 && n >= next - 31
  {
    ThursdayInYear(n);
  }

  /** A day in its own week-numbering year is neither a January day of week 52 or 53 nor a
      December day of week 1. */
  lemma WeekYearOwn(n: int, y: int, jan1: int, next: int)
    requires jan1 == DaysBeforeYear(y) && next == DaysBeforeYear(y + 1) && jan1 <= n < next
    requires IsoWeekYear(n) == y
    ensures !(IsoWeekNumber(n) >= 52 && n < jan1 + 31) && !(IsoWeekNumber(n) == 1 && n >= next - 31)
  {
    ThursdayInYear(n);
    DaysBeforeYearStep(y);
  }

  /** The week-numbering year read off the calendar: January days in week 52 or 53 belong to the
      previous year, December days in week 1 to the next, all other days to their own year
      (`jan1` and `next` are the day numbers of 1 January of year y and of the year after). */
  lemma WeekYearFromCalendar(n: int, y: int, jan1: int, next: int)
    requires jan1 == DaysBeforeYear(y) && next == DaysBeforeYear(y + 1) && jan1 <= n < next
    ensures IsoWeekYear(n) ==
      if IsoWeekNumber(n) >= 52 && n < jan1 + 31 then y - 1
      else if IsoWeekNumber(n) == 1 && n >= next - 31 then y + 1
      else y
  {
    IsoWeekYearNear(n, y);
    if IsoWeekYear(n) == y - 1 {
      WeekYearBefore(n, y, jan1);
    } else if IsoWeekYear(n) == y + 1 {
      WeekYearAfter(n, y, next);
    } else {
      WeekYearOwn(n, y, jan1, next);
    }
  }
}
