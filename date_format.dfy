/** formatDateStr: a date written out token by token after a pattern split by parseDateFormatStr.
    Numeric fields are written in decimal, some padded to two digits; day and month names, the
    quarter prefix and free text come from a locale table. */
module DateFormat {
  import opened Gregorian
  import opened LocalTime
  import opened IsoWeek
  import opened DecimalText
  import opened Optional
  import opened FormatPattern

  /** The locale table: entry names to texts. */
  type Locale = map<string, string>

  /** A locale entry as formatDateStr appends it: a missing entry is JavaScript's `undefined`,
      which string concatenation writes as the text "undefined". */
  function Entry(locale: Locale, key: string): string {
    if key in locale then locale[key] else "undefined"
  }

  /** The entries holding day names (Sunday first) and month names (January first). */
  const ShortDayKeys: seq<string> := ["sun", "mon", "tue", "wed", "thu", "fri", "sat"]
  const LongDayKeys: seq<string> := ["sunday", "monday", "tuesday", "wednesday", "thursday", "friday", "saturday"]
  const ShortMonthKeys: seq<string> := ["jan", "feb", "mar", "apr", "may", "jun", "jul", "aug", "sep", "oct", "nov", "dec"]
  /** The long name of May is read from 'maylong': 'may' is already the short one. */
  const LongMonthKeys: seq<string> := ["january", "february", "march", "april", "maylong", "june", "july", "august", "september", "october", "november", "december"]

  /** The hour on a twelve-hour clock: 0 and 12 read as 12. */
  function Hour12(hours: int): (h: nat)
    requires 0 <= hours < 24
    ensures 1 <= h <= 12
  {
    if hours % 12 == 0 then 12 else hours % 12
  }

  /** What formatDateStr reads from the date: getFullYear, getMonth, getDate, getDay, getHours,
      getMinutes, getSeconds and getIsoWeek. */
  datatype DateFields = DateFields(
    year: int, month: int, date: int, weekDay: int, hours: int, minutes: int, seconds: int, week: int)

  predicate ValidFields(f: DateFields) {
    && 0 <= f.month < 12 && 1 <= f.date <= 31 && 0 <= f.weekDay < 7
    && 0 <= f.hours < 24 && 0 <= f.minutes < 60 && 0 <= f.seconds < 60 && 1 <= f.week <= 53
  }

  function FieldsOf(t: Time): (f: DateFields)
    ensures ValidFields(f)
  {
    DateFields(FullYear(t), Month(t), DayOfMonth(t), WeekDay(t), Hours(t), Minutes(t), Seconds(t), GetIsoWeek(t))
  }

  /** The day of the week counted from Monday = 1 to Sunday = 7. */
  function WeekDayFromMonday(f: DateFields): int {
    if f.weekDay == 0 then 7 else f.weekDay
  }

  /** The year the 'week' token writes: a January date in week 52 or 53 moves to the year before,
      then a December date in week 1 to the year after. */
  function WeekTokenYear(f: DateFields): int {
    var year1 := if f.week >= 52 && f.month + 1 == 1 then f.year - 1 else f.year;
    if f.week == 1 && f.month + 1 == 12 then year1 + 1 else year1
  }

  /** The numbers written in decimal, each by a padded token ('dd', 'mm', 'HH', 'hh', 'MI', 'SS',
      'ww') and an unpadded one ('d', 'm', 'H', 'h', 'mi', 'ss', 'w'). */
  datatype Number = DateOfMonth | MonthOfYear | Hour24 | Hour12Clock | Minute | Second | IsoWeekOfYear

  /** The cases of the switch in formatDateStr, grouped by what they write. */
  datatype Field =
    | Numeric(number: Number, padded: bool)
    | DayName(long: bool)
    | MonthName(long: bool)
    | YearDigits
    | YearLastTwo
    | Quarter(prefixed: bool)
    | Meridiem(upper: bool)
    | WeekDate

  /** The case labels of the switch and the case each selects. */
  const CaseLabels: seq<(string, Field)> := [
    ("dd", Numeric(DateOfMonth, true)), ("d", Numeric(DateOfMonth, false)),
    ("day", DayName(false)), ("DAY", DayName(true)),
    ("mm", Numeric(MonthOfYear, true)), ("m", Numeric(MonthOfYear, false)),
    ("mon", MonthName(false)), ("month", MonthName(true)),
    ("yyyy", YearDigits), ("yy", YearLastTwo),
    ("qq", Quarter(true)), ("q", Quarter(false)),
    ("hh", Numeric(Hour12Clock, true)), ("h", Numeric(Hour12Clock, false)),
    ("HH", Numeric(Hour24, true)), ("H", Numeric(Hour24, false)),
    ("MI", Numeric(Minute, true)), ("mi", Numeric(Minute, false)),
    ("SS", Numeric(Second, true)), ("ss", Numeric(Second, false)),
    ("pm", Meridiem(false)), ("PM", Meridiem(true)),
    ("ww", Numeric(IsoWeekOfYear, true)), ("w", Numeric(IsoWeekOfYear, false)),
    ("week", WeekDate)]

  /** The first case from position i on whose label is the token, if any. */
  function Lookup(token: string, labels: seq<(string, Field)>, i: nat): (field: Option<Field>)
    requires i <= |labels|
    decreases |labels| - i
  {
    if i == |labels| then None
    else if labels[i].0 == token then Some(labels[i].1)
    else Lookup(token, labels, i + 1)
  }

  /** The case a token selects, if any. */
  function FieldOf(token: string): Option<Field> {
    Lookup(token, CaseLabels, 0)
  }

  /** No label equal to the token: no case. */
  lemma {:induction false} LookupMissing(token: string, labels: seq<(string, Field)>, i: nat)
    requires i <= |labels|
    requires forall j :: i <= j < |labels| ==> labels[j].0 != token
    ensures Lookup(token, labels, i) == None
    decreases |labels| - i
  {
    if i < |labels| {
      LookupMissing(token, labels, i + 1);
    }
  }

  /** The case found is the one at the first label equal to the token. */
  lemma {:induction false} LookupFirst(token: string, labels: seq<(string, Field)>, i: nat, k: nat)
    requires i <= k < |labels| && labels[k].0 == token
    requires forall j :: i <= j < k ==> labels[j].0 != token
    ensures Lookup(token, labels, i) == Some(labels[k].1)
    decreases k - i
  {
    if i < k {
      LookupFirst(token, labels, i + 1, k);
    }
  }

  /** The value a numeric token writes. */
  function NumberValue(f: DateFields, number: Number): (value: nat)
    requires ValidFields(f)
    ensures value < 100
  {
    match number
    case DateOfMonth => f.date
    case MonthOfYear => f.month + 1
    case Hour24 => f.hours
    case Hour12Clock => Hour12(f.hours)
    case Minute => f.minutes
    case Second => f.seconds
    case IsoWeekOfYear => f.week
  }

  /** What one case of the switch appends, fall-throughs included: a padded token writes '0' and
      falls through to its unpadded partner, 'qq' writes the 'qtr' entry and falls through to 'q'. */
  function FieldText(f: DateFields, field: Field, locale: Locale): string
    requires ValidFields(f)
  {
    match field
    case Numeric(number, padded) =>
      (if padded && NumberValue(f, number) < 10 then "0" else "") + NatToString(NumberValue(f, number))
    case DayName(long) => Entry(locale, if long then LongDayKeys[f.weekDay] else ShortDayKeys[f.weekDay])
    case MonthName(long) => Entry(locale, if long then LongMonthKeys[f.month] else ShortMonthKeys[f.month])
    case YearDigits => IntToString(f.year)
    case YearLastTwo => Substring(IntToString(f.year), 2, 4)
    case Quarter(prefixed) => (if prefixed then Entry(locale, "qtr") else "") + NatToString(f.month / 3 + 1)
    case Meridiem(upper) =>
      if f.hours < 12 then (if upper then "AM" else "am") else (if upper then "PM" else "pm")
    case WeekDate =>
      IntToString(WeekTokenYear(f)) + "-W" + NatToString(f.week) + "-" + NatToString(WeekDayFromMonday(f))
  }

  /** The default case: the locale's entry under the lower-cased token when it is a non-empty
      text, otherwise the token itself. */
  function LiteralText(token: string, locale: Locale): string {
    var key := ToLower(token);
    if key in locale && locale[key] != "" then locale[key] else token
  }

  /** What formatDateStr appends for one token. */
  function TokenText(f: DateFields, token: string, locale: Locale): string
    requires ValidFields(f)
  {
    match FieldOf(token)
    case Some(field) => FieldText(f, field, locale)
    case None => LiteralText(token, locale)
  }

  /** The output for a list of tokens: each token's text, in order. */
  function Render(f: DateFields, tokens: seq<string>, locale: Locale): string
    requires ValidFields(f)
  {
    if tokens == [] then "" else Render(f, tokens[..|tokens| - 1], locale) + TokenText(f, tokens[|tokens| - 1], locale)
  }

  /** g applied to each element, in order. */
  function Map(xs: seq<string>, g: string --> string): (ys: seq<string>)
    requires forall x :: g.requires(x)
    ensures |ys| == |xs|
  {
    if xs == [] then [] else Map(xs[..|xs| - 1], g) + [g(xs[|xs| - 1])]
  }

  /** The k-th element of the result is g of the k-th element. */
  lemma {:induction false} MapAt(xs: seq<string>, g: string --> string, k: nat)
    requires (forall x :: g.requires(x)) && k < |xs|
    ensures Map(xs, g)[k] == g(xs[k])
    decreases |xs|
  {
    var init := xs[..|xs| - 1];
    if k < |init| {
      MapAt(init, g, k);
      assert init[k] == xs[k];
    }
  }

  /** The text formatDateStr writes for a token, as a function of the token. */
  function TextOf(f: DateFields, locale: Locale): (g: string --> string)
    requires ValidFields(f)
    ensures forall token :: g.requires(token)
  {
    token requires ValidFields(f) => TokenText(f, token, locale)
  }

  /** The text of each token, in order. */
  function Texts(f: DateFields, tokens: seq<string>, locale: Locale): (texts: seq<string>)
    requires ValidFields(f)
    ensures |texts| == |tokens|
  {
    Map(tokens, TextOf(f, locale))
  }

  lemma TextAt(f: DateFields, tokens: seq<string>, locale: Locale, k: nat)
    requires ValidFields(f) && k < |tokens|
    ensures Texts(f, tokens, locale)[k] == TokenText(f, tokens[k], locale)
  {
    MapAt(tokens, TextOf(f, locale), k);
  }

  /** formatDateStr's output is the texts of the tokens written one after the other. */
  lemma {:induction false} RenderConcat(f: DateFields, tokens: seq<string>, locale: Locale)
    requires ValidFields(f)
    ensures Render(f, tokens, locale) == Concat(Texts(f, tokens, locale))
    decreases |tokens|
  {
    if tokens != [] {
      var init, last := tokens[..|tokens| - 1], TokenText(f, tokens[|tokens| - 1], locale);
      RenderConcat(f, init, locale);
      ConcatAppend(Texts(f, init, locale), last);
    }
  }

  /** formatDateStr: no value for an absent date; otherwise the texts of the tokens appended one
      by one to an initially empty string. */
  method FormatDateStr(date: Option<Time>, tokens: seq<string>, locale: Locale) returns (text: Option<string>)
    ensures date.None? <==> text.None?
    ensures date.Some? ==> text == Some(Render(FieldsOf(date.value), tokens, locale))
  {
    if date.None? {
      return None;
    }
    var f := FieldsOf(date.value);
    var s := "";
    for i := 0 to |tokens|
      invariant s == Render(f, tokens[..i], locale)
    {
      assert tokens[..i + 1][..i] == tokens[..i];
      s := s + TokenText(f, tokens[i], locale);
    }
    assert tokens[..|tokens|] == tokens;
    return Some(s);
  }

  // ---- Properties of the output ----

  /** g applied to two lists one after the other. */
  lemma {:induction false} MapJoin(a: seq<string>, b: seq<string>, g: string --> string)
    requires forall x :: g.requires(x)
    ensures Map(a + b, g) == Map(a, g) + Map(b, g)
    decreases |b|
  {
    if b == [] {
      assert a + b == a;
    } else {
      var b' := b[..|b| - 1];
      assert (a + b)[..|a + b| - 1] == a + b';
      assert (a + b)[|a + b| - 1] == b[|b| - 1];
      MapJoin(a, b', g);
    }
  }

  /** The tokens of two lists one after the other, written out. */
  lemma {:induction false} ConcatJoin(a: seq<string>, b: seq<string>)
    ensures Concat(a + b) == Concat(a) + Concat(b)
    decreases |a|
  {
    if a == [] {
      assert a + b == b;
    } else {
      assert (a + b)[1..] == a[1..] + b;
      ConcatJoin(a[1..], b);
    }
  }

  /** The output for two lists of tokens one after the other is the two outputs one after the other. */
  lemma RenderJoin(f: DateFields, a: seq<string>, b: seq<string>, locale: Locale)
    requires ValidFields(f)
    ensures Render(f, a + b, locale) == Render(f, a, locale) + Render(f, b, locale)
  {
    RenderConcat(f, a + b, locale);
    RenderConcat(f, a, locale);
    RenderConcat(f, b, locale);
    MapJoin(a, b, TextOf(f, locale));
    ConcatJoin(Texts(f, a, locale), Texts(f, b, locale));
  }

  /** A padded token and its unpadded partner: a '0' is written first exactly when the value is
      below ten, and the padded text is two digits that read back as the value. */
  lemma PaddedField(f: DateFields, number: Number, locale: Locale)
    requires ValidFields(f)
    ensures var padded, plain := FieldText(f, Numeric(number, true), locale), FieldText(f, Numeric(number, false), locale);
      && padded == (if NumberValue(f, number) < 10 then "0" else "") + plain
      && |padded| == 2 && AllDigits(padded) && DecimalValue(padded) == NumberValue(f, number)
  {
    var value := NumberValue(f, number);
    assert FieldText(f, Numeric(number, true), locale) == PadTwo(value);
    assert FieldText(f, Numeric(number, false), locale) == NatToString(value);
    PadTwoDigits(value);
  }

  /** The hour of the day from its twelve-hour reading and the half of the day. */
  lemma Hour12Back(hours: int)
    requires 0 <= hours < 24
    ensures Hour12(hours) % 12 + (if hours < 12 then 0 else 12) == hours
    ensures hours == 0 || hours == 12 ==> Hour12(hours) == 12
  {
  }

  /** The twelve-hour clock: 'h' is a number from 1 to 12, 'pm' says "am" exactly before noon, and
      the two together give back the hour of the day. */
  lemma TwelveHourClock(f: DateFields, locale: Locale)
    requires ValidFields(f)
    ensures AllDigits(FieldText(f, Numeric(Hour12Clock, false), locale))
    ensures var h := DecimalValue(FieldText(f, Numeric(Hour12Clock, false), locale));
      && 1 <= h <= 12
      && (f.hours == 0 || f.hours == 12 ==> h == 12)
      && f.hours == h % 12 + (if FieldText(f, Meridiem(false), locale) == "pm" then 12 else 0)
    ensures FieldText(f, Meridiem(false), locale) == "am" <==> f.hours < 12
    ensures FieldText(f, Meridiem(false), locale) == "pm" <==> f.hours >= 12
    ensures FieldText(f, Meridiem(true), locale) == (if f.hours < 12 then "AM" else "PM")
  {
    var h := Hour12(f.hours);
    assert FieldText(f, Numeric(Hour12Clock, false), locale) == NatToString(h);
    DecimalRoundTrip(h);
    Hour12Back(f.hours);
  }

  /** 'q' is the quarter, 1 to 4, whose three months hold the date's month; 'qq' puts the locale's
      'qtr' entry in front of it. */
  lemma QuarterToken(f: DateFields, locale: Locale)
    requires ValidFields(f)
    ensures AllDigits(FieldText(f, Quarter(false), locale))
    ensures var q := DecimalValue(FieldText(f, Quarter(false), locale));
      1 <= q <= 4 && 3 * (q - 1) <= f.month < 3 * q
    ensures FieldText(f, Quarter(true), locale) == Entry(locale, "qtr") + FieldText(f, Quarter(false), locale)
  {
    QuarterOfMonth(f.month);
    assert FieldText(f, Quarter(false), locale) == NatToString(f.month / 3 + 1);
    DecimalRoundTrip(f.month / 3 + 1);
  }

  /** A year from 1000 to 9999 is written as four digits, the last two of them as 'yy' writes
      them. */
  lemma FourDigits(n: nat)
    requires 1000 <= n < 10000
    ensures |NatToString(n)| == 4
    ensures NatToString(n)[2..] == PadTwo(n % 100)
  {
    var n1, d0 := n / 10, n % 10;
    var n2, d1 := n1 / 10, n1 % 10;
    assert 10 <= n2 < 100;
    assert |NatToString(n2)| == 2 by {
      assert NatToString(n2) == NatToString(n2 / 10) + [DigitChar(n2 % 10)];
    }
    var s := NatToString(n);
    assert s == NatToString(n1) + [DigitChar(d0)];
    assert NatToString(n1) == NatToString(n2) + [DigitChar(d1)];
    var r := d1 * 10 + d0;
    DivModUnique(n, 100, n2, r);
    DivModUnique(r, 10, d1, d0);
    assert s[2..] == [DigitChar(d1), DigitChar(d0)];
    if r >= 10 {
      assert NatToString(r) == NatToString(r / 10) + [DigitChar(r % 10)];
    }
  }

  /** 'yyyy' reads back as the year when it is not negative; for a four-digit year 'yy' is its
      last two digits. */
  lemma YearTokens(f: DateFields, locale: Locale)
    requires ValidFields(f)
    ensures f.year >= 0 ==>
      var yyyy := FieldText(f, YearDigits, locale);
      AllDigits(yyyy) && DecimalValue(yyyy) == f.year
    ensures 1000 <= f.year < 10000 ==>
      var yy := FieldText(f, YearLastTwo, locale);
      && |FieldText(f, YearDigits, locale)| == 4
      && |yy| == 2 && AllDigits(yy) && DecimalValue(yy) == f.year % 100
  {
    if f.year >= 0 {
      DecimalRoundTrip(f.year);
    }
    if 1000 <= f.year < 10000 {
      FourDigits(f.year);
      PadTwoDigits(f.year % 100);
    }
  }

  /** The long name of May is the 'maylong' entry, its short name the 'may' entry; a missing
      entry is written "undefined". */
  lemma MayNames(f: DateFields, locale: Locale)
    requires ValidFields(f) && f.month == 4
    ensures FieldText(f, MonthName(true), locale) == Entry(locale, "maylong")
    ensures FieldText(f, MonthName(false), locale) == Entry(locale, "may")
    ensures "maylong" !in locale ==> FieldText(f, MonthName(true), locale) == "undefined"
  {
  }

  /** The ISO weekday: days from the week's Monday, plus one. */
  lemma WeekDayIsIso(f: DateFields, t: Time)
    requires f.weekDay == WeekDay(t)
    ensures WeekDayFromMonday(f) == Day(t) - MondayOf(Day(t)) + 1
  {
  }

  /** Where January and December lie among the days of a year that starts on day jan1. */
  lemma MonthEndsInYear(n: int, jan1: int, next: int, year: int, month: int, date: int)
    requires 0 <= month < 12 && 1 <= date <= GetDaysInMonth(month, year)
    requires n == jan1 + DaysBeforeMonth(month, year) + date - 1 && next == jan1 + YearLength(year)
    ensures jan1 <= n < next
    ensures month == 0 <==> n < jan1 + 31
    ensures month == 11 <==> n >= next - 31
  {
    DaysBeforeMonthStep(month, year);
    DaysBeforeMonthMonotone(month + 1, 12, year);
    if month >= 1 {
      DaysBeforeMonthMonotone(1, month, year);
    }
    if month < 11 {
      DaysBeforeMonthMonotone(month + 1, 11, year);
    }
  }

  lemma MonthEnds(t: Time, jan1: int, next: int)
    requires jan1 == DaysBeforeYear(FullYear(t)) && next == DaysBeforeYear(FullYear(t) + 1)
    ensures jan1 <= Day(t) < next
    ensures Month(t) == 0 <==> Day(t) < jan1 + 31
    ensures Month(t) == 11 <==> Day(t) >= next - 31
  {
    var c := CivilFromDays(Day(t));
    assert next == jan1 + YearLength(c.year) by { DaysBeforeYearStep(c.year); }
    MonthEndsInYear(Day(t), jan1, next, c.year, c.month, c.date);
  }

  /** The year the 'week' token writes, in day numbers. */
  lemma WeekTokenYearDays(f: DateFields, t: Time, n: int, jan1: int, next: int)
    requires n == Day(t) && f.year == FullYear(t) && f.month == Month(t)
    requires jan1 == DaysBeforeYear(f.year) && next == DaysBeforeYear(f.year + 1)
    ensures WeekTokenYear(f) ==
      if f.week >= 52 && n < jan1 + 31 then f.year - 1 else if f.week == 1 && n >= next - 31 then f.year + 1 else f.year
  {
    MonthEnds(t, jan1, next);
  }

  /** For the years the Date constructor does not remap, the year of the 'week' token is the ISO
      8601 week-numbering year. */
  lemma WeekYearIsIso(f: DateFields, t: Time)
    requires f == FieldsOf(t) && !(0 <= FullYear(t) <= 100)
    ensures WeekTokenYear(f) == IsoWeekYear(Day(t))
  {
    var n, y := Day(t), f.year;
    var jan1, next := DaysBeforeYear(y), DaysBeforeYear(y + 1);
    assert f.week == IsoWeekNumber(n) by { GetIsoWeekIsIsoWeek(t); }
    WeekTokenYearDays(f, t, n, jan1, next);
    assert jan1 <= n < next by { MonthEnds(t, jan1, next); }
    WeekYearFromCalendar(n, y, jan1, next);
  }

  /** For the years the Date constructor does not remap, the 'week' token writes the ISO 8601
      week date: week-numbering year, "-W", week number, "-", weekday from Monday = 1. */
  lemma WeekToken(f: DateFields, t: Time, locale: Locale)
    requires f == FieldsOf(t) && !(0 <= FullYear(t) <= 100)
    ensures 1 <= IsoWeekNumber(Day(t)) <= 53
    ensures FieldText(f, WeekDate, locale) ==
      IntToString(IsoWeekYear(Day(t))) + "-W" + NatToString(IsoWeekNumber(Day(t))) + "-"
      + NatToString(Day(t) - MondayOf(Day(t)) + 1)
  {
    assert f.week == IsoWeekNumber(Day(t)) by { GetIsoWeekIsIsoWeek(t); }
    WeekYearIsIso(f, t);
    WeekDayIsIso(f, t);
  }

  /** A token the switch does not name, with no non-empty locale entry under its lower-cased
      form, is written as it stands. */
  predicate Verbatim(token: string, locale: Locale) {
    FieldOf(token).None? && !(ToLower(token) in locale && locale[ToLower(token)] != "")
  }

  /** A pattern made only of such tokens is written out unchanged: separators, and any text the
      renderer does not recognise, pass through. */
  lemma VerbatimTokens(f: DateFields, tokens: seq<string>, locale: Locale)
    requires ValidFields(f)
    requires forall k :: 0 <= k < |tokens| ==> Verbatim(tokens[k], locale)
    ensures Render(f, tokens, locale) == Concat(tokens)
  {
    forall k | 0 <= k < |tokens|
      ensures Texts(f, tokens, locale)[k] == tokens[k]
    {
      TextAt(f, tokens, locale, k);
    }
    RenderConcat(f, tokens, locale);
    assert Texts(f, tokens, locale) == tokens;
  }
}
