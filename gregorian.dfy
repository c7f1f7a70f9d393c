/** Calendar basics of the date utilities: the proleptic Gregorian leap-year rule,
    month lengths, and the day counts that the local-time model is built on. */
module Gregorian {

  /** isLeapYear. The source uses JavaScript's truncating `%`; a remainder is zero
      under truncation exactly when it is zero under Dafny's Euclidean `%`, so the
      test reads the same for negative years. */
  predicate IsLeapYear(year: int) {
    (year % 4 == 0 && year % 100 != 0) || year % 400 == 0
  }

  /** The fixed month-length table of getDaysInMonth and getMonthDaysArray. */
  const MonthDays: seq<int> := [31, 28, 31, 30, 31, 30, 31, 31, 30, 31, 30, 31]

  /** getDaysInMonth, for a month 0 (January) .. 11 (December): the table above read month by
      month, February patched in a leap year. */
  function GetDaysInMonth(month: int, year: int): (days: int)
    requires 0 <= month < 12
    ensures 28 <= days <= 31
  {
    if month == 1 then (if IsLeapYear(year) then 29 else 28)
    else if month == 3 || month == 5 || month == 8 || month == 10 then 30
    else 31
  }

  /** The lookup of getDaysInMonth: 29 for February of a leap year, the table's entry otherwise. */
  lemma DaysInMonthTable(month: int, year: int)
    requires 0 <= month < 12
    ensures GetDaysInMonth(month, year) == if month == 1 && IsLeapYear(year) then 29 else MonthDays[month]
  {
  }

  /** February has 29 days exactly in a leap year and 28 otherwise; "thirty days hath September,
      April, June and November; all the rest have thirty-one". */
  lemma DaysInMonthRule(month: int, year: int)
    requires 0 <= month < 12
    ensures var days := GetDaysInMonth(month, year);
      && (month == 1 ==> (days == 29 <==> IsLeapYear(year)) && (days == 28 <==> !IsLeapYear(year)))
      && (days == 30 <==> month == 3 || month == 5 || month == 8 || month == 10)
      && (days == 31 <==> month == 0 || month == 2 || month == 4 || month == 6 || month == 7 || month == 9 || month == 11)
  {
  }

  /** getMonthDaysArray: a fresh twelve-element array, February patched in place in a leap year. */
  method GetMonthDaysArray(year: int) returns (monthDays: array<int>)
    ensures fresh(monthDays) && monthDays.Length == 12
    ensures forall month :: 0 <= month < 12 ==> monthDays[month] == GetDaysInMonth(month, year)
  {
    monthDays := new int[12] [31, 28, 31, 30, 31, 30, 31, 31, 30, 31, 30, 31];
    if IsLeapYear(year) {
      monthDays[1] := 29;
    }
  }

  function YearLength(year: int): int {
    if IsLeapYear(year) then 366 else 365
  }

  /** Days of the year before the first of `month` (0 .. 12); for 12, the year's length. */
  function DaysBeforeMonth(month: int, year: int): int
    requires 0 <= month <= 12
  {
    var common :=
      if month < 6 then
        if month < 3 then (if month == 0 then 0 else if month == 1 then 31 else 59)
        else if month == 3 then 90 else if month == 4 then 120 else 151
      else if month < 9 then (if month == 6 then 181 else if month == 7 then 212 else 243)
      else if month == 9 then 273 else if month == 10 then 304 else if month == 11 then 334 else 365;
    common + (if month >= 2 && IsLeapYear(year) then 1 else 0)
  }

  /** The cumulative counts are the running sum of the month lengths. */
  lemma DaysBeforeMonthStep(month: int, year: int)
    requires 0 <= month < 12
    ensures DaysBeforeMonth(month + 1, year) == DaysBeforeMonth(month, year) + GetDaysInMonth(month, year)
  {
  }

  lemma DaysBeforeMonthBounds(month: int, year: int)
    requires 0 <= month <= 12
    ensures 0 <= DaysBeforeMonth(month, year) <= YearLength(year)
    ensures month == 12 ==> DaysBeforeMonth(month, year) == YearLength(year)
  {
  }

  lemma DaysBeforeMonthMonotone(m1: int, m2: int, year: int)
    requires 0 <= m1 <= m2 <= 12
    ensures DaysBeforeMonth(m1, year) <= DaysBeforeMonth(m2, year)
    ensures m1 < m2 ==> DaysBeforeMonth(m1, year) + GetDaysInMonth(m1, year) <= DaysBeforeMonth(m2, year)
  {
  }

  /** Days from 1 January 1970 to 1 January of `year` (negative before 1970): the lengths of
      the years in between, added up one year at a time. */
  function DaysBeforeYear(year: int): int
    decreases if year < 1970 then 1970 - year else year - 1970
  {
    if year == 1970 then 0
    else if year > 1970 then DaysBeforeYear(year - 1) + YearLength(year - 1)
    else DaysBeforeYear(year + 1) - YearLength(year)
  }

  lemma MulAtLeast(k: int, d: int)
    requires k > 0 && d >= 1
    ensures k * d >= k
  {
    assert k * d == k * (d - 1) + k;
    assert k * (d - 1) >= 0;
  }

  lemma DivModUnique(a: int, k: int, q: int, r: int)
    requires k > 0 && 0 <= r < k && a == k * q + r
    ensures a / k == q && a % k == r
  {
    var q', r' := a / k, a % k;
    assert a == k * q' + r';
    if q' < q {
      assert k * q == k * q' + k * (q - q');
      MulAtLeast(k, q - q');
    } else if q' > q {
      assert k * q' == k * q + k * (q' - q);
      MulAtLeast(k, q' - q);
    }
  }

  /** Math.ceil(a / b) for b > 0, rounding toward +infinity also for negative a. */
  function CeilDiv(a: int, b: int): (q: int)
    requires b > 0
    ensures b * (q - 1) < a <= b * q
  {
    DivModUnique(-a, b, (-a) / b, (-a) % b);
    -((-a) / b)
  }

  lemma MulMonotone(a: int, b: int, c: int)
    requires c >= 0
    ensures a <= b ==> a * c <= b * c
  {
    if a <= b {
      assert b * c == a * c + (b - a) * c;
    }
  }

  /** Two numbers less than k apart with the same remainder modulo k are equal. */
  lemma OnlyOneInWindow(n: int, lo: int, k: int)
    requires k > 0 && lo <= n < lo + k && n % k == lo % k
    ensures n == lo
  {
    var d := n / k - lo / k;
    assert n - lo == d * k;
    MulMonotone(1, d, k);
    MulMonotone(d, -1, k);
  }

  /** The quarter of a month 0 .. 11, counted from 0. */
  lemma QuarterOfMonth(month: int)
    requires 0 <= month < 12
    ensures month / 3 == if month < 3 then 0 else if month < 6 then 1 else if month < 9 then 2 else 3
  {
    var q := if month < 3 then 0 else if month < 6 then 1 else if month < 9 then 2 else 3;
    DivModUnique(month, 3, q, month - 3 * q);
  }

  /** Each year adds its own length, on either side of 1970. */
  lemma DaysBeforeYearStep(year: int)
    ensures DaysBeforeYear(year + 1) == DaysBeforeYear(year) + YearLength(year)
  {
  }

  /** No year holds more than 366 days. */
  lemma {:induction false} DaysBeforeYearAtMost(y1: int, y2: int)
    requires y1 <= y2
    ensures DaysBeforeYear(y2) <= DaysBeforeYear(y1) + 366 * (y2 - y1)
    decreases y2 - y1
  {
    if y1 < y2 {
      DaysBeforeYearAtMost(y1, y2 - 1);
      DaysBeforeYearStep(y2 - 1);
    }
  }

  /** A leap year and the three common years after it hold 1461 days. */
  lemma LeapCycle(year: int)
    requires IsLeapYear(year) && !IsLeapYear(year + 1) && !IsLeapYear(year + 2) && !IsLeapYear(year + 3)
    ensures DaysBeforeYear(year + 4) == DaysBeforeYear(year) + 1461
  {
    DaysBeforeYearStep(year);
    DaysBeforeYearStep(year + 1);
    DaysBeforeYearStep(year + 2);
    DaysBeforeYearStep(year + 3);
  }

  /** 1 January 2024 is day 19723 after 1 January 1970. */
  lemma DaysBefore2024()
    ensures DaysBeforeYear(2024) == 19723
  {
    DaysBeforeYearStep(1970);
    DaysBeforeYearStep(1971);
    var y := 1972;
    while y < 2024
      invariant 1972 <= y <= 2024 && y % 4 == 0
      invariant DaysBeforeYear(y) == 730 + (y - 1972) / 4 * 1461
    {
      LeapCycle(y);
      y := y + 4;
    }
  }

  lemma {:induction false} DaysBeforeYearMonotone(y1: int, y2: int)
    requires y1 <= y2
    ensures DaysBeforeYear(y1) + 365 * (y2 - y1) <= DaysBeforeYear(y2)
    decreases y2 - y1
  {
    if y1 < y2 {
      DaysBeforeYearMonotone(y1, y2 - 1);
      DaysBeforeYearStep(y2 - 1);
    }
  }
}
