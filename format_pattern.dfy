/** parseDateFormatStr: a date pattern such as "yyyy-mm-dd HH:MI:SS" cut into its field
    components and the separator characters between them. */
module FormatPattern {

  /** The separator class: '/', ':' and every character from space to '.', a range that takes in
      ',', '\'', '"' and '-' but also '!', '#', '(' and '+'. A backslash is not a separator. */
  predicate IsSeparator(c: char) {
    c == '/' || c == ':' || ' ' <= c <= '.'
  }

  predicate SeparatorFree(s: string) {
    forall i :: 0 <= i < |s| ==> !IsSeparator(s[i])
  }

  /** The tokens written one after the other. */
  function Concat(tokens: seq<string>): string {
    if tokens == [] then "" else tokens[0] + Concat(tokens[1..])
  }

  lemma {:induction false} ConcatAppend(tokens: seq<string>, last: string)
    ensures Concat(tokens + [last]) == Concat(tokens) + last
    decreases |tokens|
  {
    if tokens != [] {
      assert (tokens + [last])[1..] == tokens[1..] + [last];
      ConcatAppend(tokens[1..], last);
    }
  }

  /** Components (separator-free, possibly empty) at even positions, single separator characters
      at odd positions. */
  predicate Alternating(tokens: seq<string>) {
    forall k :: 0 <= k < |tokens| ==>
      if k % 2 == 0 then SeparatorFree(tokens[k]) else |tokens[k]| == 1 && IsSeparator(tokens[k][0])
  }

  /** `tokens` is the split of `pattern`: written out they give the pattern back, components and
      separators alternate, and the list never ends in an empty component. */
  predicate WellSplit(pattern: string, tokens: seq<string>) {
    && Concat(tokens) == pattern
    && Alternating(tokens)
    && (|tokens| % 2 == 1 ==> tokens[|tokens| - 1] != "")
  }

  lemma PushComponent(tokens: seq<string>, component: string)
    requires Alternating(tokens) && |tokens| % 2 == 0 && SeparatorFree(component)
    ensures Alternating(tokens + [component])
  {
    var all := tokens + [component];
    assert forall k :: 0 <= k < |tokens| ==> all[k] == tokens[k];
  }

  lemma PushSeparator(tokens: seq<string>, c: char)
    requires Alternating(tokens) && |tokens| % 2 == 1 && IsSeparator(c)
    ensures Alternating(tokens + [[c]])
  {
    var all := tokens + [[c]];
    assert forall k :: 0 <= k < |tokens| ==> all[k] == tokens[k];
  }

  lemma ExtendComponent(component: string, c: char)
    requires SeparatorFree(component) && !IsSeparator(c)
    ensures SeparatorFree(component + [c])
  {
  }

  /** parseDateFormatStr: a separator, or the last character, closes the current component; a
      separator is then pushed as a token of its own. */
  method ParseDateFormatStr(pattern: string) returns (tokens: seq<string>)
    ensures WellSplit(pattern, tokens)
  {
    var component := "";
    tokens := [];
    for i := 0 to |pattern|
      invariant Concat(tokens) + component == pattern[..i]
      invariant Alternating(tokens) && SeparatorFree(component)
      invariant |tokens| % 2 == 1 ==> i == |pattern| && component == "" && tokens[|tokens| - 1] != ""
      invariant i == |pattern| && i > 0 ==> component == ""
    {
      var c := pattern[i];
      assert pattern[..i + 1] == pattern[..i] + [c];
      if IsSeparator(c) || i + 1 == |pattern| {
        if i + 1 == |pattern| && !IsSeparator(c) {
          ExtendComponent(component, c);
          component := component + [c];
        }
        ConcatAppend(tokens, component);
        PushComponent(tokens, component);
        tokens := tokens + [component];
        if IsSeparator(c) {
          ConcatAppend(tokens, [c]);
          PushSeparator(tokens, c);
          tokens := tokens + [[c]];
        }
        component := "";
      } else {
        ExtendComponent(component, c);
        component := component + [c];
      }
    }
    assert pattern[..|pattern|] == pattern;
  }

  /** The first two tokens of a split and the split of the rest. */
  lemma SplitHead(pattern: string, tokens: seq<string>)
    requires WellSplit(pattern, tokens) && |tokens| >= 2
    ensures pattern == tokens[0] + tokens[1] + Concat(tokens[2..])
    ensures WellSplit(Concat(tokens[2..]), tokens[2..])
  {
    assert tokens[1..][1..] == tokens[2..];
    assert Concat(tokens[1..]) == tokens[1] + Concat(tokens[2..]);
    var rest := tokens[2..];
    forall k | 0 <= k < |rest|
      ensures if k % 2 == 0 then SeparatorFree(rest[k]) else |rest[k]| == 1 && IsSeparator(rest[k][0])
    {
      assert rest[k] == tokens[k + 2];
    }
  }

  /** A split of at most one token has no separator in its pattern; a longer one has. */
  lemma ShortSplit(pattern: string, tokens: seq<string>)
    requires WellSplit(pattern, tokens)
    ensures |tokens| <= 1 ==> SeparatorFree(pattern) && (tokens == [] <==> pattern == "")
    ensures |tokens| >= 2 ==> |tokens[0]| < |pattern| && IsSeparator(pattern[|tokens[0]|])
  {
    if |tokens| == 1 {
      assert tokens[1..] == [];
      assert Concat(tokens) == tokens[0];
    } else if |tokens| >= 2 {
      SplitHead(pattern, tokens);
      assert pattern[|tokens[0]|] == tokens[1][0];
    }
  }

  /** Two ways of writing a text as separator-free component, separator, rest agree. */
  lemma HeadUnique(x1: string, s1: string, r1: string, x2: string, s2: string, r2: string)
    requires SeparatorFree(x1) && SeparatorFree(x2)
    requires |s1| == 1 && IsSeparator(s1[0]) && |s2| == 1 && IsSeparator(s2[0])
    requires x1 + s1 + r1 == x2 + s2 + r2
    ensures x1 == x2 && s1 == s2 && r1 == r2
  {
    var p := x1 + s1 + r1;
    assert forall j :: 0 <= j < |x1| ==> p[j] == x1[j];
    assert forall j :: 0 <= j < |x2| ==> p[j] == x2[j];
    assert p[|x1|] == s1[0] && p[|x2|] == s2[0];
    assert |x1| == |x2|;
    assert x1 == p[..|x1|] == x2;
    assert s1 == p[|x1|..|x1| + 1] == s2;
    assert r1 == p[|x1| + 1..] == r2;
  }

  /** A pattern has one split only, so the tokens of parseDateFormatStr are determined by it. */
  lemma {:induction false} WellSplitUnique(pattern: string, a: seq<string>, b: seq<string>)
    requires WellSplit(pattern, a) && WellSplit(pattern, b)
    ensures a == b
    decreases |pattern|
  {
    ShortSplit(pattern, a);
    ShortSplit(pattern, b);
    if |a| >= 2 && |b| >= 2 {
      SplitHead(pattern, a);
      SplitHead(pattern, b);
      HeadUnique(a[0], a[1], Concat(a[2..]), b[0], b[1], Concat(b[2..]));
      WellSplitUnique(Concat(a[2..]), a[2..], b[2..]);
      assert a == [a[0], a[1]] + a[2..];
      assert b == [b[0], b[1]] + b[2..];
    } else if |a| == 1 && |b| == 1 {
      assert a[1..] == [] && b[1..] == [];
      assert Concat(a) == a[0] && Concat(b) == b[0];
    }
  }

  /** A separator-free component and a separator in front of a split give a split. */
  lemma SplitCons(component: string, separator: char, rest: string, tokens: seq<string>)
    requires SeparatorFree(component) && IsSeparator(separator) && WellSplit(rest, tokens)
    ensures WellSplit(component + [separator] + rest, [component, [separator]] + tokens)
  {
    var all := [component, [separator]] + tokens;
    assert all[1..] == [[separator]] + tokens && all[1..][1..] == tokens;
    forall k | 2 <= k < |all|
      ensures if k % 2 == 0 then SeparatorFree(all[k]) else |all[k]| == 1 && IsSeparator(all[k][0])
    {
      assert all[k] == tokens[k - 2];
    }
  }

  lemma LastComponent(component: string)
    requires SeparatorFree(component) && component != ""
    ensures WellSplit(component, [component])
  {
    assert [component][1..] == [];
  }

  /** The split of "yyyy-mm-dd". */
  lemma DatePatternSplit(tokens: seq<string>)
    requires WellSplit("yyyy-mm-dd", tokens)
    ensures tokens == ["yyyy", "-", "mm", "-", "dd"]
  {
    var p1, t1 := "dd", ["dd"];
    LastComponent(p1);
    var p2, t2 := "mm" + ['-'] + p1, ["mm", ['-']] + t1;
    SplitCons("mm", '-', p1, t1);
    var p3, t3 := "yyyy" + ['-'] + p2, ["yyyy", ['-']] + t2;
    SplitCons("yyyy", '-', p2, t2);
    assert p3 == "yyyy-mm-dd" && t3 == ["yyyy", "-", "mm", "-", "dd"];
    WellSplitUnique("yyyy-mm-dd", tokens, t3);
  }

  lemma TimePatternSplits()
    ensures WellSplit("HH:MI:SS", ["HH", ":", "MI", ":", "SS"])
  {
    var p1, t1 := "SS", ["SS"];
    LastComponent(p1);
    var p2, t2 := "MI" + [':'] + p1, ["MI", [':']] + t1;
    SplitCons("MI", ':', p1, t1);
    SplitCons("HH", ':', p2, t2);
    assert "HH" + [':'] + p2 == "HH:MI:SS";
    assert ["HH", [':']] + t2 == ["HH", ":", "MI", ":", "SS"];
  }

  lemma DateTimePatternText()
    ensures "yyyy" + ['-'] + ("mm" + ['-'] + ("dd" + [' '] + "HH:MI:SS")) == "yyyy-mm-dd HH:MI:SS"
  {
  }

  lemma DateTimePatternTokens()
    ensures ["yyyy", ['-']] + (["mm", ['-']] + (["dd", [' ']] + ["HH", ":", "MI", ":", "SS"]))
      == ["yyyy", "-", "mm", "-", "dd", " ", "HH", ":", "MI", ":", "SS"]
  {
  }

  lemma DateTimePatternSplits()
    ensures WellSplit("yyyy-mm-dd HH:MI:SS", ["yyyy", "-", "mm", "-", "dd", " ", "HH", ":", "MI", ":", "SS"])
  {
    var p3, t3 := "HH:MI:SS", ["HH", ":", "MI", ":", "SS"];
    TimePatternSplits();
    var p4, t4 := "dd" + [' '] + p3, ["dd", [' ']] + t3;
    SplitCons("dd", ' ', p3, t3);
    var p5, t5 := "mm" + ['-'] + p4, ["mm", ['-']] + t4;
    SplitCons("mm", '-', p4, t4);
    SplitCons("yyyy", '-', p5, t5);
    DateTimePatternText();
    DateTimePatternTokens();
  }

  /** The split of "yyyy-mm-dd HH:MI:SS". */
  lemma DateTimePatternSplit(tokens: seq<string>)
    requires WellSplit("yyyy-mm-dd HH:MI:SS", tokens)
    ensures tokens == ["yyyy", "-", "mm", "-", "dd", " ", "HH", ":", "MI", ":", "SS"]
  {
    DateTimePatternSplits();
    WellSplitUnique("yyyy-mm-dd HH:MI:SS", tokens, ["yyyy", "-", "mm", "-", "dd", " ", "HH", ":", "MI", ":", "SS"]);
  }
}
