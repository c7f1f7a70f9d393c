/** parseDateStr: a date typed in one of four fixed formats read back into an instant, with the
    current time as the answer for text it does not take. */
module DateParse {
  import opened Gregorian
  import opened LocalTime
  import opened DecimalText
  import opened Optional
  import opened FormatPattern
  import opened DateFormat

  /** `text.split(/[^0-9]/)` with each part then read by `Number(part)`: the runs of digits
      between non-digit characters in decimal, an empty run as 0. */
  function NumberParts(text: string): (parts: seq<nat>)
    ensures |parts| >= 1
  {
    PartsOfPrefix(text, |text|)
  }

  /** The parts of the first n characters. */
  function PartsOfPrefix(text: string, n: nat): (parts: seq<nat>)
    requires n <= |text|
    ensures |parts| >= 1
  {
    if n == 0 then [0] else Extend(PartsOfPrefix(text, n - 1), text[n - 1])
  }

  /** One more character: a digit extends the last part, anything else opens a new part. */
  function Extend(parts: seq<nat>, c: char): (next: seq<nat>)
    requires |parts| >= 1
    ensures |next| >= 1
  {
    if IsDigit(c) then parts[..|parts| - 1] + [parts[|parts| - 1] * 10 + DigitValue(c)] else parts + [0]
  }

  /** A part after padding with zeros up to five parts. */
  function Part(parts: seq<nat>, k: nat): nat {
    if k < |parts| then parts[k] else 0
  }

  /** The outcome of parseDateStr: the current time, an Invalid Date, or a date built by the
      Date constructor from year, month, day, hours, minutes and seconds. */
  datatype Outcome =
    | Now
    | Invalid
    | Build(year: int, month: int, date: int, hours: int, minutes: int, seconds: int)

  /** Which outcome the text and format give: the current time unless the text has ten
      characters or more and three parts or more and the format is one of four; an Invalid Date
      from the date-and-time format when there is no sixth part. */
  function ParseOutcome(text: string, format: string): (o: Outcome)
    ensures o.Build? ==> o.year >= 0 && o.month >= -1 && o.date >= 0 && o.hours >= 0 && o.minutes >= 0 && o.seconds >= 0
  {
    var p := NumberParts(text);
    if |text| < 10 || |p| < 3 then Now
    else if format == "mm/dd/yyyy" then Build(Part(p, 2), Part(p, 0) - 1, Part(p, 1), Part(p, 3), Part(p, 4), 0)
    else if format == "dd/mm/yyyy" then Build(Part(p, 2), Part(p, 1) - 1, Part(p, 0), Part(p, 3), Part(p, 4), 0)
    else if format == "yyyy-mm-dd" then Build(Part(p, 0), Part(p, 1) - 1, Part(p, 2), Part(p, 3), Part(p, 4), 0)
    else if format == "yyyy-mm-dd HH:MI:SS" then
      if |p| >= 6 then Build(p[0], p[1] as int - 1, p[2], p[3], p[4], p[5]) else Invalid
    else Now
  }

  /** The time value the constructor computes for a built outcome, before clipping. */
  function BuiltTime(o: Outcome): Time
    requires o.Build?
  {
    NewDate(o.year, o.month, o.date, o.hours, o.minutes, o.seconds)
  }

  /** TimeClip of the Date constructor: a time value beyond the range is an Invalid Date. */
  function TimeClip(t: Time): (r: Option<Time>)
    ensures r.Some? <==> InTimeRange(t)
    ensures r.Some? ==> r.value == t
  {
    if InTimeRange(t) then Some(t) else None
  }

  /** What parseDateStr returns, None standing for the Invalid Date. */
  function ParsedDate(text: string, format: string, now: Time): Option<Time> {
    var o := ParseOutcome(text, format);
    match o
    case Now => Some(now)
    case Invalid => None
    case Build(_, _, _, _, _, _) => TimeClip(BuiltTime(o))
  }

  /** parseDateStr, with the current time passed in: the parts are padded with zeros to five,
      then handed to the Date constructor in the order the format names. */
  method ParseDateStr(text: string, format: string, now: Time) returns (date: Option<Time>)
    ensures date == ParsedDate(text, format, now)
  {
    date := Some(now);
    var parts := NumberParts(text);
    ghost var outcome := ParseOutcome(text, format);
    if |text| >= 10 && |parts| >= 3 {
      ghost var original := parts;
      while |parts| < 5
        invariant |parts| >= |original| && (|parts| > 5 ==> parts == original)
        invariant forall k :: 0 <= k < |parts| ==> parts[k] == Part(original, k)
        decreases 5 - |parts|
      {
        parts := parts + [0];
      }
      if format == "mm/dd/yyyy" {
        assert outcome == Build(parts[2], parts[0] as int - 1, parts[1], parts[3], parts[4], 0);
        date := TimeClip(NewDate(parts[2], parts[0] as int - 1, parts[1], parts[3], parts[4], 0));
      } else if format == "dd/mm/yyyy" {
        assert outcome == Build(parts[2], parts[1] as int - 1, parts[0], parts[3], parts[4], 0);
        date := TimeClip(NewDate(parts[2], parts[1] as int - 1, parts[0], parts[3], parts[4], 0));
      } else if format == "yyyy-mm-dd" {
        assert outcome == Build(parts[0], parts[1] as int - 1, parts[2], parts[3], parts[4], 0);
        date := TimeClip(NewDate(parts[0], parts[1] as int - 1, parts[2], parts[3], parts[4], 0));
      } else if format == "yyyy-mm-dd HH:MI:SS" {
        if |parts| >= 6 {
          assert outcome == Build(parts[0], parts[1] as int - 1, parts[2], parts[3], parts[4], parts[5]);
          date := TimeClip(NewDate(parts[0], parts[1] as int - 1, parts[2], parts[3], parts[4], parts[5]));
        } else {
          assert outcome == Invalid;
          date := None;
        }
      } else {
        assert outcome == Now;
      }
    } else {
      assert outcome == Now;
    }
  }

  /** A run of digits is one part, read in decimal. */
  lemma {:induction false} RunPrefix(run: string, n: nat)
    requires AllDigits(run) && n <= |run|
    ensures PartsOfPrefix(run, n) == [DecimalValue(run[..n])]
    decreases n
  {
    if n > 0 {
      RunPrefix(run, n - 1);
      assert run[..n][..n - 1] == run[..n - 1];
    }
  }

  lemma NumberPartsOfRun(run: string)
    requires AllDigits(run)
    ensures NumberParts(run) == [DecimalValue(run)]
  {
    RunPrefix(run, |run|);
    assert run[..|run|] == run;
  }

  /** The parts of a prefix depend on that prefix only. */
  lemma {:induction false} PrefixParts(a: string, b: string, n: nat)
    requires n <= |a|
    ensures PartsOfPrefix(a + b, n) == PartsOfPrefix(a, n)
    decreases n
  {
    if n > 0 {
      PrefixParts(a, b, n - 1);
      assert (a + b)[n - 1] == a[n - 1];
    }
  }

  /** Extending a joined list of parts touches its second half only. */
  lemma ExtendJoin(left: seq<nat>, right: seq<nat>, c: char)
    requires |right| >= 1
    ensures Extend(left + right, c) == left + Extend(right, c)
  {
    var joined := left + right;
    if IsDigit(c) {
      assert joined[..|joined| - 1] == left + right[..|right| - 1];
    }
  }

  /** A non-digit character closes the parts before it and opens an empty one. */
  lemma SeparatorOpensPart(a: string, c: char, b: string)
    requires !IsDigit(c)
    ensures PartsOfPrefix(a + [c] + b, |a| + 1) == NumberParts(a) + [0]
  {
    var text := a + [c] + b;
    PrefixParts(a, [c] + b, |a|);
    assert text == a + ([c] + b) && text[|a|] == c;
  }

  /** After a non-digit character the parts of what follows are appended to those before it. */
  lemma {:induction false} SuffixParts(a: string, c: char, b: string, k: nat)
    requires !IsDigit(c) && k <= |b|
    ensures PartsOfPrefix(a + [c] + b, |a| + 1 + k) == NumberParts(a) + PartsOfPrefix(b, k)
    decreases k
  {
    if k == 0 {
      SeparatorOpensPart(a, c, b);
    } else {
      SuffixParts(a, c, b, k - 1);
      assert (a + [c] + b)[|a| + k] == b[k - 1];
      ExtendJoin(NumberParts(a), PartsOfPrefix(b, k - 1), b[k - 1]);
    }
  }

  /** A non-digit character cuts the text in two, and the parts of the halves follow each other. */
  lemma NumberPartsJoin(a: string, c: char, b: string)
    requires !IsDigit(c)
    ensures NumberParts(a + [c] + b) == NumberParts(a) + NumberParts(b)
  {
    SuffixParts(a, c, b, |b|);
  }

  // ---- Properties ----

  /** The current time comes back for short text, for text with fewer than three parts and for a
      format outside the four; an Invalid Date from the date-and-time format with fewer than six
      parts, and from a constructor call whose time value is out of range; otherwise the
      constructor's instant. */
  lemma ParseFallback(text: string, format: string, now: Time)
    ensures |text| < 10 || |NumberParts(text)| < 3 ==> ParsedDate(text, format, now) == Some(now)
    ensures format !in {"mm/dd/yyyy", "dd/mm/yyyy", "yyyy-mm-dd", "yyyy-mm-dd HH:MI:SS"} ==>
      ParsedDate(text, format, now) == Some(now)
    ensures var o := ParseOutcome(text, format);
      ParsedDate(text, format, now) == None <==>
        (|text| >= 10 && 3 <= |NumberParts(text)| < 6 && format == "yyyy-mm-dd HH:MI:SS")
        || (o.Build? && !InTimeRange(BuiltTime(o)))
    ensures var o := ParseOutcome(text, format);
      o.Build? && InTimeRange(BuiltTime(o)) ==> ParsedDate(text, format, now) == Some(BuiltTime(o))
  {
  }

  /** Text that the constructor reads as a year from 300000 on, with a month 1 .. 12 and a day
      past 0, is an Invalid Date: such a year lies beyond the range of a time value. */
  lemma FarYearIsInvalid(text: string, format: string, now: Time)
    requires var o := ParseOutcome(text, format); o.Build? && o.year >= 300000 && 0 <= o.month < 12 && o.date >= 1
    ensures ParsedDate(text, format, now) == None
  {
    var o := ParseOutcome(text, format);
    FarYearOutOfRange(o.year, o.month, o.date, o.hours, o.minutes, o.seconds);
  }

  /** "300000-01-01" under 'yyyy-mm-dd' is an Invalid Date. */
  lemma Year300000IsInvalid(now: Time)
    ensures ParsedDate("300000-01-01", "yyyy-mm-dd", now) == None
  {
    PartsOfYear300000();
    ThreePartDate("300000-01-01", 300000, 1, 1, now);
  }

  /** The parts of "300000-01-01". */
  lemma PartsOfYear300000()
    ensures NumberParts("300000-01-01") == [300000, 1, 1]
  {
    DigitValues();
    NumberPartsOfRun("300000");
    NumberPartsOfRun("01");
    NumberPartsJoin("01", '-', "01");
    NumberPartsJoin("300000", '-', "01-01");
    assert "01-01" == "01" + ['-'] + "01";
    assert "300000-01-01" == "300000" + ['-'] + "01-01";
  }

  lemma DigitValues()
    ensures DecimalValue("01") == 1 && DecimalValue("300000") == 300000
  {
    assert "01"[..1] == "0" && "0"[..0] == [];
    assert "300000"[..5] == "30000" && "30000"[..4] == "3000" && "3000"[..3] == "300";
    assert "300"[..2] == "30" && "30"[..1] == "3" && "3"[..0] == [];
  }

  /** Text of ten characters or more with three parts, under 'yyyy-mm-dd', with a year from
      300000 on and a month 1 .. 12 and a day past 0, is an Invalid Date. */
  lemma ThreePartDate(text: string, year: nat, month: nat, date: nat, now: Time)
    requires |text| >= 10 && NumberParts(text) == [year, month, date]
    requires year >= 300000 && 1 <= month <= 12 && date >= 1
    ensures ParsedDate(text, "yyyy-mm-dd", now) == None
  {
    assert ParseOutcome(text, "yyyy-mm-dd") == Build(year, month - 1, date, 0, 0, 0);
    FarYearIsInvalid(text, "yyyy-mm-dd", now);
  }

  /** 'dd/mm/yyyy' and 'mm/dd/yyyy' read the same parts with day and month swapped: text whose
      first two runs of digits trade places is read to the same instant. */
  lemma DayMonthSwap(day: string, month: string, s1: char, s2: char, rest: string)
    requires AllDigits(day) && AllDigits(month) && !IsDigit(s1) && !IsDigit(s2)
    ensures ParseOutcome(day + [s1] + month + [s2] + rest, "dd/mm/yyyy")
         == ParseOutcome(month + [s1] + day + [s2] + rest, "mm/dd/yyyy")
  {
    var dayFirst := day + [s1] + (month + [s2] + rest);
    var monthFirst := month + [s1] + (day + [s2] + rest);
    assert day + [s1] + month + [s2] + rest == dayFirst;
    assert month + [s1] + day + [s2] + rest == monthFirst;
    var r := NumberParts(rest);
    NumberPartsOfRun(day);
    NumberPartsOfRun(month);
    NumberPartsJoin(month, s2, rest);
    NumberPartsJoin(day, s2, rest);
    NumberPartsJoin(day, s1, month + [s2] + rest);
    NumberPartsJoin(month, s1, day + [s2] + rest);
    var x, y := NumberParts(dayFirst), NumberParts(monthFirst);
    assert x == [DecimalValue(day), DecimalValue(month)] + r;
    assert y == [DecimalValue(month), DecimalValue(day)] + r;
    assert |dayFirst| == |monthFirst|;
  }
}
