/** What an append does to the set of recognised patterns, for any existing file text. */
module RulesTheorems {
  import opened Wrappers
  import opened Text
  import opened Rules

  // ---------- the marks of an appended file ----------

  lemma MarkAllConcat(a: seq<string>, b: seq<string>, target: string)
    ensures MarkAll(a + b, target) == MarkAll(a, target) + MarkAll(b, target)
  {
  }

  lemma PatternLineValue(items: string)
    ensures Assigned("pattern = [" + items + "],") == Some("[" + items + "]")
  {
    var line := "pattern = [" + items + "],";
    var value := "[" + items + "]";
    assert line[9..] == " " + value + ",";
    TrimAssigned(line, 8, value);
  }

  lemma PatternLineMark(items: string, target: string)
    ensures MarkOf("pattern = [" + items + "],", target) == Body(NormalizeRuleValue("[" + items + "]") == target, false)
  {
    var line := "pattern = [" + items + "],";
    PatternLineValue(items);
    assert line[1] == 'a' && HEAD[1] == 'r';
    assert "pattern" == line[..7];
  }

  lemma MarkAllConcat3(a: seq<string>, b: seq<string>, c: seq<string>, target: string)
    ensures MarkAll(a + b + c, target) == MarkAll(a, target) + MarkAll(b, target) + MarkAll(c, target)
  {
    MarkAllConcat(a + b, c, target);
    MarkAllConcat(a, b, target);
  }

  lemma TrimAssigned(line: string, i: nat, value: string)
    requires i < |line| && line[i] == '=' && forall k :: 0 <= k < i ==> line[k] != '='
    requires line[i + 1..] == " " + value + ","
    requires value != "" && !IsWhitespace(value[0]) && value[|value| - 1] != ','
    ensures Assigned(line) == Some(value)
  {
    IndexIsFirst(line, '=', i);
    var rest := value + ",";
    assert line[i + 1..] == " " + rest;
    SkipSpace(" " + rest);
    assert (" " + rest)[1..] == rest && TrimStart(rest) == rest && TrimEnd(rest) == rest;
    assert Trim(line[i + 1..]) == rest;
    assert rest[|rest| - 1] == ',' && rest[..|rest| - 1] == value;
    assert TrimEndCommas(rest) == TrimEndCommas(value);
  }

  lemma DecisionLineValue()
    ensures Assigned(DECISION) == Some("\"allow\"") && SaysAllow("\"allow\"")
  {
    assert DECISION[10..] == " " + "\"allow\"" + ",";
    TrimAssigned(DECISION, 9, "\"allow\"");
  }

  lemma DecisionLineMark(target: string)
    ensures MarkOf(DECISION, target) == Body(false, true)
  {
    DecisionLineValue();
    DecisionLineKind();
  }

  lemma DecisionLineKind()
    ensures !(HEAD <= DECISION) && !("pattern" <= DECISION) && "decision" <= DECISION
  {
    assert DECISION[0] == 'd' && HEAD[0] == 'p' && "pattern"[0] == 'p';
    assert "decision" == DECISION[..8];
  }

  /** The marks of the four lines of a rule, as seen when looking for pattern `q`. */
  function RuleMarks(same: bool): seq<Mark> {
    [Opens, Body(same, false), Body(false, true), Closes]
  }

  lemma MarkAllFour(a: string, b: string, c: string, d: string, target: string)
    ensures MarkAll([a, b, c, d], target)
            == [MarkOf(a, target), MarkOf(b, target), MarkOf(c, target), MarkOf(d, target)]
  {
  }

  lemma RuleLinesMarks(p: Pattern, target: string)
    ensures MarkAll(RuleLines(p), target) == RuleMarks(TargetOf(p) == target)
  {
    var lines := RuleLines(p);
    PatternLineMark(FormatPatternList(p), target);
    DecisionLineMark(target);
    MarkAllFour(lines[0], lines[1], lines[2], lines[3], target);
    CloseLineMark(target);
  }

  lemma CloseLineMark(target: string)
    ensures MarkOf(")", target) == Closes && MarkOf(HEAD, target) == Opens && MarkOf("", target) == Body(false, false)
  {
    assert ")"[0] == ')';
  }

  lemma AppendedMarks(existing: string, p: Pattern, target: string)
    ensures Marks(WithRule(existing, p), target)
            == Marks(existing, target) + (if existing == "" then [] else [Body(false, false)])
               + RuleMarks(TargetOf(p) == target)
  {
    AppendedLines(existing, p);
    RuleLinesMarks(p, target);
    CloseLineMark(target);
    var blank := if existing == "" then [] else [""];
    MarkAllConcat3(TrimmedLines(existing), blank, RuleLines(p), target);
  }

  /** A rule added after any marks adds its own block and nothing else: an unfinished block in
      front of it is cut off by the rule's opening line. */
  lemma BlocksAfterAppend(marks: seq<Mark>, blank: seq<Mark>, same: bool)
    requires forall i :: 0 <= i < |blank| ==> blank[i].Body?
    ensures HasBlock(marks + blank + RuleMarks(same)) <==> HasBlock(marks) || same
  {
    var all := marks + blank + RuleMarks(same);
    var n := |marks| + |blank|;
    assert forall k :: 0 <= k < |marks| ==> all[k] == marks[k];
    assert forall k :: |marks| <= k < n ==> all[k] == blank[k - |marks|];
    assert all[n].Opens? && all[n + 1] == Body(same, false) && all[n + 2] == Body(false, true) && all[n + 3].Closes?;
    if HasBlock(marks) {
      var i: nat, j: nat :| Block(marks, i, j);
      assert Block(all, i, j);
    }
    if same {
      assert Block(all, n, n + 3);
    }
    if HasBlock(all) {
      var i: nat, j: nat :| Block(all, i, j);
      assert j < |marks| || j == n + 3;
      if j < |marks| {
        assert Block(marks, i, j);
      } else {
        assert i == n by { assert !(i < n) && i < n + 1; }
      }
    }
  }

  // ---------- the theorems ----------

  /** After an append exactly one more class of patterns is recognised: those that print the same
      once white space is removed. Everything recognised before still is. */
  lemma AppendAddsExactly(existing: string, p: Pattern, q: Pattern)
    ensures Recognised(Appended(existing, p), q) <==> Recognised(existing, q) || TargetOf(p) == TargetOf(q)
  {
    var target := TargetOf(q);
    AppendedMarks(existing, p, target);
    var blank := if existing == "" then [] else [Body(false, false)];
    BlocksAfterAppend(Marks(existing, target), blank, TargetOf(p) == target);
  }

  /** The recogniser finds what the appender wrote, and a second append changes nothing. */
  lemma AppendIsRecognised(existing: string, p: Pattern)
    ensures Recognised(Appended(existing, p), p)
    ensures Appended(Appended(existing, p), p) == Appended(existing, p)
    ensures existing <= Appended(existing, p)
  {
    AppendAddsExactly(existing, p, p);
    TextIsKept(existing, FormatPrefixRule(p));
  }

  lemma TextIsKept(existing: string, rule: string)
    ensures existing <= Separated(existing) + rule
  {
    assert existing <= Separated(existing);
  }

  // ---------- which patterns the recogniser confuses ----------

  function EscapeChar(c: char): string {
    if c == '\\' then "\\\\"
    else if c == '\"' then "\\\""
    else if c == '\n' then "\\n"
    else if c == '\r' then "\\r"
    else if c == '\t' then "\\t"
    else [c]
  }

  function EscapeAll(s: string): string {
    if s == "" then "" else EscapeChar(s[0]) + EscapeAll(s[1..])
  }

  lemma {:induction false} ReplaceConcat(a: string, b: string, c: char, by_: string)
    ensures Replace(a + b, c, by_) == Replace(a, c, by_) + Replace(b, c, by_)
  {
    if a == "" {
      assert a + b == b;
    } else {
      assert (a + b)[1..] == a[1..] + b;
      ReplaceConcat(a[1..], b, c, by_);
    }
  }

  lemma ReplaceOne(c: char, d: char, by_: string)
    ensures Replace([c], d, by_) == if c == d then by_ else [c]
  {
    assert [c][1..] == "";
  }

  lemma ReplaceTwo(a: char, b: char, d: char, by_: string)
    requires a != d && b != d
    ensures Replace([a, b], d, by_) == [a, b]
  {
    assert [a, b][1..] == [b];
    ReplaceOne(b, d, by_);
  }

  lemma EscapeOne(c: char)
    ensures EscapeString([c]) == EscapeChar(c)
  {
    var s1 := Replace([c], '\\', "\\\\");
    ReplaceOne(c, '\\', "\\\\");
    if c == '\\' {
      ReplaceTwo('\\', '\\', '\"', "\\\"");
      ReplaceTwo('\\', '\\', '\n', "\\n");
      ReplaceTwo('\\', '\\', '\r', "\\r");
      ReplaceTwo('\\', '\\', '\t', "\\t");
    } else {
      ReplaceOne(c, '\"', "\\\"");
      if c == '\"' {
        ReplaceTwo('\\', '\"', '\n', "\\n");
        ReplaceTwo('\\', '\"', '\r', "\\r");
        ReplaceTwo('\\', '\"', '\t', "\\t");
      } else {
        ReplaceOne(c, '\n', "\\n");
        if c == '\n' {
          ReplaceTwo('\\', 'n', '\r', "\\r");
          ReplaceTwo('\\', 'n', '\t', "\\t");
        } else {
          ReplaceOne(c, '\r', "\\r");
          if c == '\r' {
            ReplaceTwo('\\', 'r', '\t', "\\t");
          } else {
            ReplaceOne(c, '\t', "\\t");
          }
        }
      }
    }
  }

  /** The five replacements in a row escape each character once. */
  lemma {:induction false} EscapeIsCharwise(s: string)
    ensures EscapeString(s) == EscapeAll(s)
  {
    if s != "" {
      var a, b := [s[0]], s[1..];
      assert s == a + b;
      EscapeIsCharwise(b);
      EscapeOne(s[0]);
      EscapeConcat(a, b);
    }
  }

  lemma EscapeConcat(a: string, b: string)
    ensures EscapeString(a + b) == EscapeString(a) + EscapeString(b)
  {
    var a1, b1 := Replace(a, '\\', "\\\\"), Replace(b, '\\', "\\\\");
    ReplaceConcat(a, b, '\\', "\\\\");
    var a2, b2 := Replace(a1, '\"', "\\\""), Replace(b1, '\"', "\\\"");
    ReplaceConcat(a1, b1, '\"', "\\\"");
    var a3, b3 := Replace(a2, '\n', "\\n"), Replace(b2, '\n', "\\n");
    ReplaceConcat(a2, b2, '\n', "\\n");
    var a4, b4 := Replace(a3, '\r', "\\r"), Replace(b3, '\r', "\\r");
    ReplaceConcat(a3, b3, '\r', "\\r");
    ReplaceConcat(a4, b4, '\t', "\\t");
  }

  predicate IsDropped(c: char) {
    IsWhitespace(c) && c != '\n' && c != '\r' && c != '\t'
  }

  /** An item without the white space that normalisation removes: line feeds, carriage returns
      and tabs survive because they were escaped. */
  function Kept(s: string): string {
    if s == "" then "" else (if IsDropped(s[0]) then "" else [s[0]]) + Kept(s[1..])
  }

  ghost predicate SameUpToSpaces(p: Pattern, q: Pattern) {
    |p| == |q| && forall i :: 0 <= i < |p| ==> Kept(p[i]) == Kept(q[i])
  }

  lemma {:induction false} NormalizeConcat(a: string, b: string)
    ensures NormalizeRuleValue(a + b) == NormalizeRuleValue(a) + NormalizeRuleValue(b)
  {
    if a == "" {
      assert a + b == b;
    } else {
      assert (a + b)[1..] == a[1..] + b;
      NormalizeConcat(a[1..], b);
    }
  }

  lemma NormalizeEscapedChar(c: char)
    ensures NormalizeRuleValue(EscapeChar(c)) == if IsDropped(c) then "" else EscapeChar(c)
  {
    if |EscapeChar(c)| == 2 {
      NormalizeTwo(EscapeChar(c)[0], EscapeChar(c)[1]);
      assert EscapeChar(c) == [EscapeChar(c)[0], EscapeChar(c)[1]];
    }
  }

  lemma NormalizeTwo(a: char, b: char)
    requires !IsWhitespace(a) && !IsWhitespace(b)
    ensures NormalizeRuleValue([a, b]) == [a, b]
  {
    assert [a, b][1..] == [b] && [b][1..] == "";
    assert NormalizeRuleValue([b]) == [b];
  }

  lemma {:induction false} NormalizeEscaped(s: string)
    ensures NormalizeRuleValue(EscapeAll(s)) == EscapeAll(Kept(s))
  {
    if s != "" {
      NormalizeConcat(EscapeChar(s[0]), EscapeAll(s[1..]));
      NormalizeEscapedChar(s[0]);
      NormalizeEscaped(s[1..]);
      if IsDropped(s[0]) {
        assert Kept(s) == Kept(s[1..]);
      } else {
        assert Kept(s)[0] == s[0] && Kept(s)[1..] == Kept(s[1..]);
      }
    }
  }

  /** The normalised list with its closing bracket, one item at a time. */
  function ClosedItem(s: string): string {
    "\"" + (EscapeAll(Kept(s)) + "\"")
  }

  function MoreItems(p: Pattern): string {
    if p == [] then "]" else "," + (ClosedItem(p[0]) + MoreItems(p[1..]))
  }

  function ClosedList(p: Pattern): string {
    if p == [] then "]" else ClosedItem(p[0]) + MoreItems(p[1..])
  }

  lemma NormalizeItem(s: string)
    ensures NormalizeRuleValue(FormatItem(s)) == ClosedItem(s)
  {
    EscapeIsCharwise(s);
    NormalizeEscaped(s);
    var e := EscapeString(s);
    assert FormatItem(s) == "\"" + (e + "\"");
    NormalizeConcat("\"", e + "\"");
    NormalizeConcat(e, "\"");
    assert NormalizeRuleValue("\"") == "\"";
  }

  lemma {:induction false} NormalizeList(p: Pattern)
    ensures NormalizeRuleValue(FormatPatternList(p) + "]") == ClosedList(p)
  {
    assert NormalizeRuleValue("]") == "]";
    if p == [] {
      assert FormatPatternList(p) + "]" == "]";
    } else {
      NormalizeItem(p[0]);
      if |p| == 1 {
        NormalizeConcat(FormatItem(p[0]), "]");
      } else {
        var rest := FormatPatternList(p[1..]) + "]";
        assert FormatPatternList(p) + "]" == FormatItem(p[0]) + (", " + rest);
        NormalizeConcat(FormatItem(p[0]), ", " + rest);
        NormalizeConcat(", ", rest);
        assert NormalizeRuleValue(", ") == "," by { assert ", "[1..] == " "; }
        NormalizeList(p[1..]);
        assert ClosedList(p[1..]) == ClosedItem(p[1]) + MoreItems(p[1..][1..]);
      }
    }
  }

  lemma TargetIsClosedList(p: Pattern)
    ensures TargetOf(p) == "[" + ClosedList(p)
  {
    assert "[" + FormatPatternList(p) + "]" == "[" + (FormatPatternList(p) + "]");
    NormalizeConcat("[", FormatPatternList(p) + "]");
    assert NormalizeRuleValue("[") == "[";
    NormalizeList(p);
  }

  lemma EscapeCharIsPrefixFree(c: char, d: char, x: string, y: string)
    requires EscapeChar(c) + x == EscapeChar(d) + y
    ensures c == d && x == y
  {
    assert (EscapeChar(c) + x)[0] == EscapeChar(c)[0] && (EscapeChar(d) + y)[0] == EscapeChar(d)[0];
    assert |EscapeChar(c)| == 2 ==> (EscapeChar(c) + x)[1] == EscapeChar(c)[1];
    assert |EscapeChar(d)| == 2 ==> (EscapeChar(d) + y)[1] == EscapeChar(d)[1];
    AppendCancels(EscapeChar(c), x, y);
  }

  lemma EscapeUnfolds(s: string, x: string)
    requires s != ""
    ensures EscapeAll(s) + x == EscapeChar(s[0]) + (EscapeAll(s[1..]) + x)
    ensures (EscapeAll(s) + x)[0] != '\"'
  {
    Assoc(EscapeChar(s[0]), EscapeAll(s[1..]), x);
  }

  lemma {:induction false} EscapedIsPrefixFree(s: string, t: string, x: string, y: string)
    requires EscapeAll(s) + ("\"" + x) == EscapeAll(t) + ("\"" + y)
    ensures s == t && x == y
  {
    if s != "" { EscapeUnfolds(s, "\"" + x); }
    if t != "" { EscapeUnfolds(t, "\"" + y); }
    assert s == "" ==> EscapeAll(s) + ("\"" + x) == "\"" + x;
    assert t == "" ==> EscapeAll(t) + ("\"" + y) == "\"" + y;
    if s == "" {
      AppendCancels("\"", x, y);
    } else {
      EscapeCharIsPrefixFree(s[0], t[0], EscapeAll(s[1..]) + ("\"" + x), EscapeAll(t[1..]) + ("\"" + y));
      EscapedIsPrefixFree(s[1..], t[1..], x, y);
    }
  }

  lemma ItemIsPrefixFree(s: string, t: string, x: string, y: string)
    requires ClosedItem(s) + x == ClosedItem(t) + y
    ensures Kept(s) == Kept(t) && x == y
  {
    var u, v := EscapeAll(Kept(s)), EscapeAll(Kept(t));
    RegroupCancels("\"", u, "\"", x, v, "\"", y);
    EscapedIsPrefixFree(Kept(s), Kept(t), x, y);
  }

  lemma SameUpToSpacesUnfolds(p: Pattern, q: Pattern)
    requires p != [] && q != []
    ensures SameUpToSpaces(p, q) <==> Kept(p[0]) == Kept(q[0]) && SameUpToSpaces(p[1..], q[1..])
  {
    if Kept(p[0]) == Kept(q[0]) && SameUpToSpaces(p[1..], q[1..]) {
      forall i | 0 <= i < |p| ensures Kept(p[i]) == Kept(q[i]) {
        assert i > 0 ==> p[i] == p[1..][i - 1] && q[i] == q[1..][i - 1];
      }
    }
  }

  lemma MoreItemsCancel(p: Pattern, q: Pattern)
    requires p != [] && q != [] && MoreItems(p) == MoreItems(q)
    ensures Kept(p[0]) == Kept(q[0]) && MoreItems(p[1..]) == MoreItems(q[1..])
  {
    var u, v := MoreItems(p[1..]), MoreItems(q[1..]);
    AppendCancels(",", ClosedItem(p[0]) + u, ClosedItem(q[0]) + v);
    ItemIsPrefixFree(p[0], q[0], u, v);
  }

  lemma {:induction false} MoreItemsAgree(p: Pattern, q: Pattern)
    ensures MoreItems(p) == MoreItems(q) <==> SameUpToSpaces(p, q)
  {
    if p != [] && q != [] {
      MoreItemsAgree(p[1..], q[1..]);
      SameUpToSpacesUnfolds(p, q);
      if MoreItems(p) == MoreItems(q) {
        MoreItemsCancel(p, q);
      }
    } else {
      assert p != [] ==> MoreItems(p)[0] == ',';
      assert q != [] ==> MoreItems(q)[0] == ',';
    }
  }

  /** The recogniser takes one pattern for another exactly when they have the same number of
      items and the items agree after deleting white space other than line feeds, carriage
      returns and tabs. */
  lemma TargetsAgreeIff(p: Pattern, q: Pattern)
    ensures TargetOf(p) == TargetOf(q) <==> SameUpToSpaces(p, q)
  {
    TargetIsClosedList(p);
    TargetIsClosedList(q);
    MoreItemsAgree(p, q);
    assert (TargetOf(p) == TargetOf(q)) <==> ClosedList(p) == ClosedList(q) by {
      if TargetOf(p) == TargetOf(q) { AppendCancels("[", ClosedList(p), ClosedList(q)); }
    }
    if p != [] { assert MoreItems(p) == "," + ClosedList(p); ClosedListStarts(p); }
    if q != [] { assert MoreItems(q) == "," + ClosedList(q); ClosedListStarts(q); }
    if p != [] && q != [] && MoreItems(p) == MoreItems(q) {
      AppendCancels(",", ClosedList(p), ClosedList(q));
    }
  }

  lemma ClosedListStarts(p: Pattern)
    requires p != []
    ensures ClosedList(p)[0] == '\"'
  {
  }

  /** The whole effect of an append on what is recognised, in terms of the patterns themselves. */
  lemma RecognisedAfterAppend(existing: string, p: Pattern, q: Pattern)
    ensures Recognised(Appended(existing, p), q) <==> Recognised(existing, q) || SameUpToSpaces(p, q)
  {
    AppendAddsExactly(existing, p, q);
    TargetsAgreeIff(p, q);
  }

  /** Two different commands the recogniser cannot tell apart. */
  lemma SpacesAreConfused()
    ensures ["a b"] != ["ab"] && TargetOf(["a b"]) == TargetOf(["ab"])
  {
    assert "a b"[1..] == " b" && " b"[1..] == "b" && "ab"[1..] == "b";
    assert Kept("a b") == ['a'] + Kept(" b") && Kept("ab") == ['a'] + Kept("b") && Kept(" b") == Kept("b");
    assert |"a b"| != |"ab"| && ["a b"][0] != ["ab"][0];
    TargetsAgreeIff(["a b"], ["ab"]);
  }
}
