/** formatDateStr and parseDateStr together: a date written with the pattern 'yyyy-mm-dd' reads
    back as the midnight of its day, one written with 'yyyy-mm-dd HH:MI:SS' as the same instant. */
module RoundTrip {
  import opened Gregorian
  import opened LocalTime
  import opened DecimalText
  import opened Optional
  import opened FormatPattern
  import opened DateFormat
  import opened DateParse

  /** The locale has no non-empty entry under the key, so formatDateStr's default case writes a
      token with that lower-cased form as it stands. */
  predicate NoEntry(locale: Locale, key: string) {
    !(key in locale && locale[key] != "")
  }

  // ---- The switch cases of the pattern's tokens ----

  /** A token selects the case of the first label equal to it. */
  lemma CaseAt(token: string, k: nat)
    requires k < |CaseLabels| && CaseLabels[k].0 == token
    requires forall j :: 0 <= j < k ==> CaseLabels[j].0 != token
    ensures FieldOf(token) == Some(CaseLabels[k].1)
  {
    LookupFirst(token, CaseLabels, 0, k);
  }

  lemma YearCase(token: string)
    requires token == "yyyy"
    ensures FieldOf(token) == Some(YearDigits)
  {
    CaseAt(token, 8);
  }

  lemma MonthCase(token: string)
    requires token == "mm"
    ensures FieldOf(token) == Some(Numeric(MonthOfYear, true))
  {
    CaseAt(token, 4);
  }

  lemma DayCase(token: string)
    requires token == "dd"
    ensures FieldOf(token) == Some(Numeric(DateOfMonth, true))
  {
    CaseAt(token, 0);
  }

  lemma HourCase(token: string)
    requires token == "HH"
    ensures FieldOf(token) == Some(Numeric(Hour24, true))
  {
    CaseAt(token, 14);
  }

  lemma MinuteCase(token: string)
    requires token == "MI"
    ensures FieldOf(token) == Some(Numeric(Minute, true))
  {
    CaseAt(token, 16);
  }

  lemma SecondCase(token: string)
    requires token == "SS"
    ensures FieldOf(token) == Some(Numeric(Second, true))
  {
    CaseAt(token, 18);
  }

  predicate IsLetter(c: char) {
    'a' <= c <= 'z' || 'A' <= c <= 'Z'
  }

  /** Every label of the switch starts with a letter, so a token that does not selects no case. */
  lemma NoCase(token: string)
    requires |token| >= 1 && !IsLetter(token[0])
    ensures FieldOf(token) == None
  {
    forall j | 0 <= j < |CaseLabels|
      ensures CaseLabels[j].0 != token
    {
      assert |CaseLabels[j].0| >= 1 && IsLetter(CaseLabels[j].0[0]);
    }
    LookupMissing(token, CaseLabels, 0);
  }

  // ---- Writing ----

  lemma ConcatFive(xs: seq<string>)
    requires |xs| == 5
    ensures Concat(xs) == xs[0] + xs[1] + xs[2] + xs[3] + xs[4]
  {
    forall k | 0 <= k < 5
      ensures Concat(xs[..k + 1]) == Concat(xs[..k]) + xs[k]
    {
      assert xs[..k + 1] == xs[..k] + [xs[k]];
      ConcatAppend(xs[..k], xs[k]);
    }
    assert xs[..0] == [] && xs[..5] == xs;
  }

  /** Five tokens: their five texts one after the other. */
  lemma RenderFive(f: DateFields, tokens: seq<string>, locale: Locale, texts: seq<string>)
    requires ValidFields(f) && |tokens| == 5 && texts == Texts(f, tokens, locale)
    ensures Render(f, tokens, locale) == texts[0] + texts[1] + texts[2] + texts[3] + texts[4]
  {
    RenderConcat(f, tokens, locale);
    ConcatFive(texts);
  }

  /** A separator token with no locale entry of its own is written as it stands. */
  lemma SeparatorText(f: DateFields, token: string, locale: Locale)
    requires ValidFields(f) && |token| == 1 && !IsLetter(token[0]) && NoEntry(locale, token)
    ensures TokenText(f, token, locale) == token
  {
    NoCase(token);
    assert ToLower(token)[0] == token[0];
    assert ToLower(token) == token;
  }

  // ---- Reading ----

  lemma Associative(a: string, b: string, c: string)
    ensures a + b + c == a + (b + c)
  {
  }

  /** A run of digits and a non-digit character in front of a text add one part in front. */
  lemma ConsRun(run: string, c: char, rest: string)
    requires AllDigits(run) && !IsDigit(c)
    ensures NumberParts(run + [c] + rest) == [DecimalValue(run)] + NumberParts(rest)
  {
    NumberPartsJoin(run, c, rest);
    NumberPartsOfRun(run);
  }

  /** Three runs of digits with a non-digit character between each two are three parts. */
  lemma ThreeRuns(x: string, c: char, y: string, z: string)
    requires AllDigits(x) && AllDigits(y) && AllDigits(z) && !IsDigit(c)
    ensures NumberParts(x + [c] + y + [c] + z) == [DecimalValue(x), DecimalValue(y), DecimalValue(z)]
  {
    var inner := y + [c] + z;
    NumberPartsOfRun(z);
    ConsRun(y, c, z);
    ConsRun(x, c, inner);
    var head := x + [c];
    Associative(head + y, [c], z);
    Associative(head, y, [c] + z);
    Associative(y, [c], z);
  }

  // ---- Back to the instant ----

  /** The Date constructor given the calendar fields of an instant's day, for a year past 99,
      lands on that day. */
  lemma NewDateOfFields(t: Time, c: Civil, hours: int, minutes: int, seconds: int)
    requires c == CivilFromDays(Day(t)) && c.year >= 100
    ensures NewDate(c.year, c.month, c.date, hours, minutes, seconds) == MakeDate(Day(t), MakeTime(hours, minutes, seconds))
  {
    MakeDayInYear(c.year, c.month, c.date);
  }

  /** Text of ten characters or more whose runs of digits are the year, the month counted from 1
      and the day. */
  predicate DateRuns(text: string, f: DateFields) {
    |text| >= 10 && NumberParts(text) == [f.year, f.month + 1, f.date]
  }

  /** Text of ten characters or more whose parts are year, month counted from 1 and day is read
      by 'yyyy-mm-dd' as that day at midnight. */
  lemma ReadDate(text: string, f: DateFields)
    requires DateRuns(text, f)
    ensures ParseOutcome(text, "yyyy-mm-dd") == Build(f.year, f.month, f.date, 0, 0, 0)
  {
  }

  /** A date text of ten characters or more whose runs of digits are the year, the month counted
      from 1 and the day, and a time text whose runs are the hours, minutes and seconds. */
  predicate DateTimeDigits(date: string, time: string, f: DateFields) {
    DateRuns(date, f) && NumberParts(time) == [f.hours, f.minutes, f.seconds]
  }

  /** Such a date text, a space and such a time text are read by 'yyyy-mm-dd HH:MI:SS' as the
      instant built from the six fields. */
  lemma ReadJoined(date: string, time: string, f: DateFields)
    requires DateTimeDigits(date, time, f)
    ensures ParseOutcome(date + " " + time, "yyyy-mm-dd HH:MI:SS") == Build(f.year, f.month, f.date, f.hours, f.minutes, f.seconds)
  {
    NumberPartsJoin(date, ' ', time);
    assert date + [' '] + time == date + " " + time;
  }

  /** An instant's own fields, for a year past 99, build it again. */
  lemma FieldsInstant(t: Time)
    requires FullYear(t) >= 100
    ensures NewDate(FullYear(t), Month(t), DayOfMonth(t), Hours(t), Minutes(t), Seconds(t)) == t
  {
    NewDateOfFields(t, CivilFromDays(Day(t)), Hours(t), Minutes(t), Seconds(t));
    TimeParts(t);
  }

  /** An instant's date fields, for a year past 99, build the midnight that starts its day. */
  lemma FieldsMidnight(t: Time)
    requires FullYear(t) >= 100
    ensures NewDate(FullYear(t), Month(t), DayOfMonth(t), 0, 0, 0) == MakeDate(Day(t), 0)
  {
    NewDateOfFields(t, CivilFromDays(Day(t)), 0, 0, 0);
  }

  /** The splits of the two patterns parseDateStr reads back. */
  const DateTokens: seq<string> := ["yyyy", "-", "mm", "-", "dd"]
  const TimeTokens: seq<string> := ["HH", ":", "MI", ":", "SS"]
  const DateTimeTokens: seq<string> := ["yyyy", "-", "mm", "-", "dd", " ", "HH", ":", "MI", ":", "SS"]

  /** Date fields with a year of four digits. */
  predicate FourDigitYear(f: DateFields) {
    ValidFields(f) && 1000 <= f.year < 10000
  }

  /** The locale has no non-empty entry under '-', ' ' or ':'. */
  predicate PlainSeparators(locale: Locale) {
    NoEntry(locale, "-") && NoEntry(locale, " ") && NoEntry(locale, ":")
  }

  /** Fields and locale for which 'yyyy-mm-dd' reads back. */
  predicate DateCase(f: DateFields, locale: Locale) {
    FourDigitYear(f) && NoEntry(locale, "-")
  }

  /** Fields and locale for which 'yyyy-mm-dd HH:MI:SS' reads back. */
  predicate DateTimeCase(f: DateFields, locale: Locale) {
    FourDigitYear(f) && PlainSeparators(locale)
  }

  /** The texts of 'yyyy', '-', 'mm', '-', 'dd'. */
  lemma DateTexts(f: DateFields, locale: Locale, texts: seq<string>)
    requires ValidFields(f) && NoEntry(locale, "-") && texts == Texts(f, DateTokens, locale)
    ensures texts == [FieldText(f, YearDigits, locale), "-", FieldText(f, Numeric(MonthOfYear, true), locale),
                      "-", FieldText(f, Numeric(DateOfMonth, true), locale)]
  {
    var tokens := DateTokens;
    forall k | 0 <= k < 5 ensures texts[k] == TokenText(f, tokens[k], locale) {
      TextAt(f, tokens, locale, k);
    }
    YearCase(tokens[0]);
    MonthCase(tokens[2]);
    DayCase(tokens[4]);
    SeparatorText(f, tokens[1], locale);
    assert tokens[3] == tokens[1];
  }

  /** The texts of 'HH', ':', 'MI', ':', 'SS'. */
  lemma TimeTexts(f: DateFields, locale: Locale, texts: seq<string>)
    requires ValidFields(f) && NoEntry(locale, ":") && texts == Texts(f, TimeTokens, locale)
    ensures texts == [FieldText(f, Numeric(Hour24, true), locale), ":", FieldText(f, Numeric(Minute, true), locale),
                      ":", FieldText(f, Numeric(Second, true), locale)]
  {
    var tokens := TimeTokens;
    forall k | 0 <= k < 5 ensures texts[k] == TokenText(f, tokens[k], locale) {
      TextAt(f, tokens, locale, k);
    }
    HourCase(tokens[0]);
    MinuteCase(tokens[2]);
    SecondCase(tokens[4]);
    SeparatorText(f, tokens[1], locale);
    assert tokens[3] == tokens[1];
  }

  /** Year, month and day written this way are ten characters, three runs of digits that read as
      the year, the month counted from 1 and the day of the month. */
  lemma DateDigits(f: DateFields, locale: Locale)
    requires FourDigitYear(f)
    ensures var text := FieldText(f, YearDigits, locale) + "-" + FieldText(f, Numeric(MonthOfYear, true), locale)
                        + "-" + FieldText(f, Numeric(DateOfMonth, true), locale);
      |text| == 10 && NumberParts(text) == [f.year, f.month + 1, f.date]
  {
    YearTokens(f, locale);
    PaddedField(f, MonthOfYear, locale);
    PaddedField(f, DateOfMonth, locale);
    ThreeRuns(FieldText(f, YearDigits, locale), '-', FieldText(f, Numeric(MonthOfYear, true), locale),
      FieldText(f, Numeric(DateOfMonth, true), locale));
  }

  /** Hours, minutes and seconds written this way are eight characters, three runs of digits that
      read as the three numbers. */
  lemma TimeDigits(f: DateFields, locale: Locale)
    requires ValidFields(f)
    ensures var text := FieldText(f, Numeric(Hour24, true), locale) + ":" + FieldText(f, Numeric(Minute, true), locale)
                        + ":" + FieldText(f, Numeric(Second, true), locale);
      |text| == 8 && NumberParts(text) == [f.hours, f.minutes, f.seconds]
  {
    PaddedField(f, Hour24, locale);
    PaddedField(f, Minute, locale);
    PaddedField(f, Second, locale);
    ThreeRuns(FieldText(f, Numeric(Hour24, true), locale), ':', FieldText(f, Numeric(Minute, true), locale),
      FieldText(f, Numeric(Second, true), locale));
  }

  /** The date part written by 'yyyy-mm-dd'. */
  lemma DateText(f: DateFields, locale: Locale) returns (date: string)
    requires DateCase(f, locale)
    ensures date == Render(f, DateTokens, locale) && DateRuns(date, f)
  {
    var texts := Texts(f, DateTokens, locale);
    DateTexts(f, locale, texts);
    RenderFive(f, DateTokens, locale, texts);
    DateDigits(f, locale);
    date := Render(f, DateTokens, locale);
  }

  /** The time part written by 'HH:MI:SS'. */
  lemma TimeText(f: DateFields, locale: Locale)
    requires ValidFields(f) && NoEntry(locale, ":")
    ensures NumberParts(Render(f, TimeTokens, locale)) == [f.hours, f.minutes, f.seconds]
  {
    var texts := Texts(f, TimeTokens, locale);
    TimeTexts(f, locale, texts);
    RenderFive(f, TimeTokens, locale, texts);
    TimeDigits(f, locale);
  }

  /** 'yyyy-mm-dd HH:MI:SS': the date part, a space and the time part. */
  lemma DateTimeRender(f: DateFields, locale: Locale)
    requires ValidFields(f) && NoEntry(locale, " ")
    ensures Render(f, DateTimeTokens, locale) == Render(f, DateTokens, locale) + " " + Render(f, TimeTokens, locale)
  {
    var tokens := DateTimeTokens;
    var space := [tokens[5]];
    assert tokens == DateTokens + space + TimeTokens;
    RenderJoin(f, DateTokens + space, TimeTokens, locale);
    RenderJoin(f, DateTokens, space, locale);
    RenderConcat(f, space, locale);
    SeparatorText(f, tokens[5], locale);
    assert Concat(Texts(f, space, locale)) == " " by {
      TextAt(f, space, locale, 0);
      assert Texts(f, space, locale) == [" "];
      assert [" "][1..] == [];
    }
  }

  /** A date written with 'yyyy-mm-dd' is read back by the Date constructor on its year, month
      and day of the month, at midnight. */
  lemma ParseRenderedDate(f: DateFields, locale: Locale)
    requires DateCase(f, locale)
    ensures ParseOutcome(Render(f, DateTokens, locale), "yyyy-mm-dd") == Build(f.year, f.month, f.date, 0, 0, 0)
  {
    var date := DateText(f, locale);
    ReadDate(date, f);
  }

  /** 'yyyy-mm-dd HH:MI:SS' writes a date text of ten characters, a space and a time text, whose
      runs of digits are the six fields. */
  lemma DateTimeTexts(f: DateFields, locale: Locale) returns (date: string, time: string)
    requires DateTimeCase(f, locale)
    ensures Render(f, DateTimeTokens, locale) == date + " " + time
    ensures DateTimeDigits(date, time, f)
  {
    DateTimeRender(f, locale);
    date := DateText(f, locale);
    TimeText(f, locale);
    time := Render(f, TimeTokens, locale);
  }

  /** A date written with 'yyyy-mm-dd HH:MI:SS' is read back by the Date constructor on all six of
      its fields. */
  lemma ParseRenderedDateTime(f: DateFields, locale: Locale)
    requires DateTimeCase(f, locale)
    ensures ParseOutcome(Render(f, DateTimeTokens, locale), "yyyy-mm-dd HH:MI:SS")
      == Build(f.year, f.month, f.date, f.hours, f.minutes, f.seconds)
  {
    var date, time := DateTimeTexts(f, locale);
    ReadJoined(date, time, f);
  }

  /** A date written with 'yyyy-mm-dd' reads back as the midnight that starts its day, for a
      four-digit year and when the locale has no non-empty entry under '-'. */
  lemma FormatParseDate(t: Time, tokens: seq<string>, locale: Locale, now: Time)
    requires 1000 <= FullYear(t) <= 9999
    requires WellSplit("yyyy-mm-dd", tokens) && NoEntry(locale, "-")
    ensures ParsedDate(Render(FieldsOf(t), tokens, locale), "yyyy-mm-dd", now) == Some(MakeDate(Day(t), 0))
  {
    DatePatternSplit(tokens);
    ParseRenderedDate(FieldsOf(t), locale);
    FieldsMidnight(t);
    FourDigitYearInRange(t);
  }

  /** A date written with 'yyyy-mm-dd HH:MI:SS' reads back as the same instant, for a four-digit
      year and when the locale has no non-empty entry under '-', ' ' or ':'. */
  lemma FormatParseDateTime(t: Time, tokens: seq<string>, locale: Locale, now: Time)
    requires 1000 <= FullYear(t) <= 9999
    requires WellSplit("yyyy-mm-dd HH:MI:SS", tokens) && PlainSeparators(locale)
    ensures ParsedDate(Render(FieldsOf(t), tokens, locale), "yyyy-mm-dd HH:MI:SS", now) == Some(t)
  {
    DateTimePatternSplit(tokens);
    ParseRenderedDateTime(FieldsOf(t), locale);
    FieldsInstant(t);
    FourDigitYearInRange(t);
  }
}
