/** What the recogniser of the rules file reads, in terms of the characters of the file. */
module RulesReading {
  import opened Wrappers
  import opened Text
  import opened Rules
  import opened RulesTheorems

  ghost predicate OccursAt(s: string, part: string, i: nat) {
    i + |part| <= |s| && s[i..i + |part|] == part
  }

  ghost predicate Occurs(s: string, part: string) {
    exists i: nat :: OccursAt(s, part, i)
  }

  lemma OccursInTail(s: string, part: string, i: nat)
    requires s != "" && i > 0
    ensures OccursAt(s, part, i) <==> OccursAt(s[1..], part, i - 1)
  {
    if i + |part| <= |s| {
      assert s[1..][i - 1..i - 1 + |part|] == s[i..i + |part|];
    }
  }

  /** `str::contains` finds a part exactly when it stands at some position. */
  lemma {:induction false} ContainsIff(s: string, part: string)
    ensures Contains(s, part) <==> Occurs(s, part)
  {
    assert part <= s <==> OccursAt(s, part, 0);
    if s != "" {
      ContainsIff(s[1..], part);
      if Contains(s[1..], part) {
        var i: nat :| OccursAt(s[1..], part, i);
        OccursInTail(s, part, i + 1);
      }
      if i: nat :| OccursAt(s, part, i) && i > 0 {
        OccursInTail(s, part, i);
      }
    } else {
      assert forall i: nat :: OccursAt(s, part, i) ==> i == 0;
    }
  }

  // ---------- what is assigned on a line ----------

  lemma {:induction false} TrimEndCommasCuts(s: string) returns (j: nat)
    ensures j <= |s| && TrimEndCommas(s) == s[..j]
    ensures forall k :: j <= k < |s| ==> s[k] == ','
    ensures j > 0 ==> s[j - 1] != ','
  {
    if s != "" && s[|s| - 1] == ',' {
      j := TrimEndCommasCuts(s[..|s| - 1]);
    } else {
      j := |s|;
    }
  }

  lemma SliceOfSlice(s: string, b: nat, c: nat, lo: nat, hi: nat)
    requires b <= c <= |s| && lo <= hi <= c - b
    ensures s[b..c][lo..hi] == s[b + lo..b + hi]
  {
    forall k | 0 <= k < hi - lo ensures s[b..c][lo..hi][k] == s[b + lo..b + hi][k] {
      assert s[b..c][lo..hi][k] == s[b..c][lo + k];
    }
  }

  /** `line[b..c]` is the value: white space up to `b` and from `d` on, commas from `c` to `d`,
      and no further white space or comma could be cut off. */
  ghost predicate ValueBetween(line: string, e: nat, b: nat, c: nat, d: nat) {
    && e < b <= c <= d <= |line|
    && line[e] == '=' && (forall k :: 0 <= k < e ==> line[k] != '=')
    && (forall k :: e < k < b ==> IsWhitespace(line[k]))
    && (forall k :: c <= k < d ==> line[k] == ',')
    && (forall k :: d <= k < |line| ==> IsWhitespace(line[k]))
    && (b < d ==> !IsWhitespace(line[b]) && !IsWhitespace(line[d - 1]))
    && (b < c ==> line[c - 1] != ',')
  }

  lemma TrimmedRest(line: string, from: nat) returns (b: nat, d: nat)
    requires from <= |line|
    ensures from <= b <= d <= |line| && Trim(line[from..]) == line[b..d]
    ensures forall k :: from <= k < b || d <= k < |line| ==> IsWhitespace(line[k])
    ensures b < d ==> !IsWhitespace(line[b]) && !IsWhitespace(line[d - 1])
  {
    var rest := line[from..];
    var i, j := TrimCuts(rest);
    b, d := from + i, from + j;
    assert forall k :: from <= k < |line| ==> line[k] == rest[k - from];
    assert rest[i..j] == line[b..d];
  }

  lemma ValueCut(line: string, e: nat) returns (b: nat, c: nat, d: nat)
    requires e < |line| && line[e] == '=' && forall k :: 0 <= k < e ==> line[k] != '='
    ensures ValueBetween(line, e, b, c, d) && TrimEndCommas(Trim(line[e + 1..])) == line[b..c]
  {
    b, d := TrimmedRest(line, e + 1);
    var n := TrimEndCommasCuts(line[b..d]);
    c := b + n;
    SliceOfSlice(line, b, d, 0, n);
    assert forall k :: b <= k < d ==> line[k] == line[b..d][k - b];
  }

  /** Nothing is assigned on a line without `=`; otherwise the value is what remains after the
      first one. */
  lemma AssignedIs(line: string)
    ensures Assigned(line).None? <==> '=' !in line
    ensures Assigned(line).Some?
            ==> exists e: nat, b: nat, c: nat, d: nat ::
                  ValueBetween(line, e, b, c, d) && Assigned(line).value == line[b..c]
  {
    var e := IndexOf(line, '=');
    if e < |line| {
      var b, c, d := ValueCut(line, e);
    }
  }

  /** A quoted `allow` after an equals sign. */
  ghost predicate AllowsAt(line: string, e: nat, a: nat) {
    e < a && e < |line| && line[e] == '=' && (OccursAt(line, "\"allow\"", a) || OccursAt(line, "'allow'", a))
  }

  ghost predicate MentionsAllow(line: string) {
    exists e: nat, a: nat :: AllowsAt(line, e, a)
  }

  /** A part that neither begins nor ends like the cut-off sides can only stand in the middle. */
  lemma OccursBetween(line: string, b: nat, c: nat, part: string, a: nat)
    requires b <= c <= |line| && part != "" && OccursAt(line, part, a)
    requires forall k :: a <= k < b ==> line[k] != part[0]
    requires forall k :: c <= k < |line| ==> line[k] != part[|part| - 1]
    ensures b <= a && OccursAt(line[b..c], part, a - b)
  {
    assert line[a] == part[0] by { assert line[a..a + |part|][0] == part[0]; }
    var z := a + |part| - 1;
    assert line[z] == part[|part| - 1] by { assert line[a..a + |part|][|part| - 1] == part[|part| - 1]; }
    SliceOfSlice(line, b, c, a - b, a - b + |part|);
  }

  lemma OccursOutside(line: string, b: nat, c: nat, part: string, a: nat)
    requires b <= c <= |line| && OccursAt(line[b..c], part, a)
    ensures OccursAt(line, part, b + a)
  {
    SliceOfSlice(line, b, c, a, a + |part|);
  }

  lemma PartInValue(line: string, e: nat, b: nat, c: nat, d: nat, part: string)
    requires ValueBetween(line, e, b, c, d)
    requires part != "" && part[0] == part[|part| - 1] && !IsWhitespace(part[0]) && part[0] != ','
    requires '=' !in part
    ensures Occurs(line[b..c], part)
            <==> exists f: nat, a: nat :: f < a && f < |line| && line[f] == '=' && OccursAt(line, part, a)
  {
    if Occurs(line[b..c], part) {
      var a: nat :| OccursAt(line[b..c], part, a);
      OccursOutside(line, b, c, part, a);
      assert e < b + a && line[e] == '=';
    }
    if f: nat, a: nat :| f < a && f < |line| && line[f] == '=' && OccursAt(line, part, a) {
      OccursBetween(line, b, c, part, a);
    }
  }

  /** A decision line allows exactly when a quoted `allow` follows an equals sign: trimming and
      cutting commas take none away. */
  lemma AllowsIff(line: string)
    ensures Assigned(line).Some? && SaysAllow(Assigned(line).value) <==> MentionsAllow(line)
  {
    AssignedIs(line);
    if Assigned(line).Some? {
      var e: nat, b: nat, c: nat, d: nat :| ValueBetween(line, e, b, c, d) && Assigned(line).value == line[b..c];
      var x, y := "\"allow\"", "'allow'";
      PartInValue(line, e, b, c, d, x);
      PartInValue(line, e, b, c, d, y);
      ContainsIff(line[b..c], x);
      ContainsIff(line[b..c], y);
      assert MentionsAllow(line) <==> Occurs(line[b..c], x) || Occurs(line[b..c], y) by {
        if f: nat, a: nat :| f < a && f < |line| && line[f] == '=' && OccursAt(line, x, a) {
          assert AllowsAt(line, f, a);
        }
        if f: nat, a: nat :| f < a && f < |line| && line[f] == '=' && OccursAt(line, y, a) {
          assert AllowsAt(line, f, a);
        }
        if f: nat, a: nat :| AllowsAt(line, f, a) {
        }
      }
    }
  }

  // ---------- what a rule block is in the file ----------

  /** Lines `i` to `j` of the trimmed file are a rule for the normalised list `target`. */
  ghost predicate RuleBetween(lines: seq<string>, i: nat, j: nat, target: string) {
    && i < j < |lines|
    && "prefix_rule(" <= lines[i] && ")" <= lines[j]
    && (forall m :: i < m < j ==> !("prefix_rule(" <= lines[m]) && !(")" <= lines[m]))
    && (exists m :: i < m < j && SetsPattern(lines[m], target))
    && (exists m :: i < m < j && "decision" <= lines[m] && MentionsAllow(lines[m]))
  }

  /** Some lines of the file are a rule that allows the pattern. */
  ghost predicate Approves(contents: string, pattern: Pattern) {
    exists i: nat, j: nat :: RuleBetween(TrimmedLines(contents), i, j, TargetOf(pattern))
  }

  ghost predicate SetsPattern(line: string, target: string) {
    "pattern" <= line && Assigned(line).Some? && NormalizeRuleValue(Assigned(line).value) == target
  }

  lemma KindOfLine(line: string)
    ensures "prefix_rule(" <= line || "pattern" <= line ==> line[0] == 'p'
    ensures "prefix_rule(" <= line ==> line[1] == 'r'
    ensures "pattern" <= line ==> line[1] == 'a'
    ensures "decision" <= line ==> line[0] == 'd'
    ensures ")" <= line ==> line[0] == ')'
  {
  }

  /** The mark says about the line what the recogniser needs to know. */
  ghost predicate MarkReads(mark: Mark, line: string, target: string) {
    && (mark.Opens? <==> "prefix_rule(" <= line)
    && (mark.Closes? <==> ")" <= line)
    && (mark.Body? && mark.matches <==> SetsPattern(line, target))
    && (mark.Body? && mark.allows <==> "decision" <= line && MentionsAllow(line))
  }

  lemma MarkIs(line: string, target: string)
    ensures MarkReads(MarkOf(line, target), line, target)
  {
    KindOfLine(line);
    AllowsIff(line);
  }

  lemma BlockIs(marks: seq<Mark>, lines: seq<string>, i: nat, j: nat, target: string)
    requires |marks| == |lines| && forall m :: 0 <= m < |lines| ==> MarkReads(marks[m], lines[m], target)
    ensures Block(marks, i, j) <==> RuleBetween(lines, i, j, target)
  {
    if i < j < |lines| {
      assert MarkReads(marks[i], lines[i], target) && MarkReads(marks[j], lines[j], target);
    }
  }

  /** A pattern is recognised exactly when two lines of the file enclose a pattern line for it and
      a line that allows it, with no other opening or closing line between them. */
  lemma RecognisedIff(contents: string, pattern: Pattern)
    ensures Recognised(contents, pattern) <==> Approves(contents, pattern)
  {
    var lines, target := TrimmedLines(contents), TargetOf(pattern);
    var marks := MarkAll(lines, target);
    forall m | 0 <= m < |lines| ensures MarkReads(marks[m], lines[m], target) {
      MarkIs(lines[m], target);
    }
    forall i: nat, j: nat ensures Block(marks, i, j) <==> RuleBetween(lines, i, j, target) {
      BlockIs(marks, lines, i, j, target);
    }
  }

  // ---------- a file of one rule with any decision ----------

  /** The rule the appender would write, with `text` for the decision. */
  function RuleDeciding(pattern: Pattern, text: string): string {
    Line(HEAD, Line(PATTERN_LINE + FormatPatternList(pattern) + "],",
                    Line(INDENT + ("decision = " + text + ","), Line(")", ""))))
  }

  lemma DecidingLines(pattern: Pattern, text: string)
    requires '\n' !in text
    ensures TrimmedLines(RuleDeciding(pattern, text))
            == [HEAD, "pattern = [" + FormatPatternList(pattern) + "],", "decision = " + text + ",", ")"]
  {
    var items := FormatPatternList(pattern);
    var line := "decision = " + text + ",";
    ListHasNoNewline(pattern);
    TrimPatternLine(items);
    HeadLine();
    CloseLine();
    TrimIndented(line);
    FourLinesAre(HEAD, PATTERN_LINE + items + "],", INDENT + line, ")",
                 [HEAD, "pattern = [" + items + "],", line, ")"]);
  }

  lemma OccursInText(head: string, text: string, part: string, a: nat)
    requires part != "" && part[0] == part[|part| - 1] && part[0] !in head && part[0] != ','
    requires OccursAt(head + text + ",", part, a)
    ensures Occurs(text, part)
  {
    var line := head + text + ",";
    var b, c := |head|, |head| + |text|;
    assert line[b..c] == text;
    assert forall k :: 0 <= k < b ==> line[k] == head[k];
    OccursBetween(line, b, c, part, a);
  }

  lemma OccursInLine(head: string, text: string, part: string, a: nat)
    requires OccursAt(text, part, a)
    ensures OccursAt(head + text + ",", part, |head| + a)
  {
    var line := head + text + ",";
    assert line[|head|..|head| + |text|] == text;
    OccursOutside(line, |head|, |head| + |text|, part, a);
  }

  /** Only the text of a decision line can mention `allow`. */
  lemma AllowsInText(text: string)
    ensures MentionsAllow("decision = " + text + ",") <==> Occurs(text, "\"allow\"") || Occurs(text, "'allow'")
  {
    var head := "decision = ";
    var line := head + text + ",";
    if f: nat, a: nat :| AllowsAt(line, f, a) {
      if OccursAt(line, "\"allow\"", a) {
        OccursInText(head, text, "\"allow\"", a);
      } else {
        OccursInText(head, text, "'allow'", a);
      }
    }
    assert line[9] == '=';
    if a: nat :| OccursAt(text, "\"allow\"", a) {
      OccursInLine(head, text, "\"allow\"", a);
      assert AllowsAt(line, 9, |head| + a);
    }
    if a: nat :| OccursAt(text, "'allow'", a) {
      OccursInLine(head, text, "'allow'", a);
      assert AllowsAt(line, 9, |head| + a);
    }
  }

  lemma DecidingMarks(pattern: Pattern, text: string, target: string)
    requires '\n' !in text
    ensures Marks(RuleDeciding(pattern, text), target)
            == [Opens, Body(TargetOf(pattern) == target, false), Body(false, MentionsAllow("decision = " + text + ",")),
                Closes]
  {
    var line := "decision = " + text + ",";
    DecidingLines(pattern, text);
    PatternLineMark(FormatPatternList(pattern), target);
    CloseLineMark(target);
    assert "decision" == line[..8];
    KindOfLine(line);
    AllowsIff(line);
    MarkAllFour(HEAD, "pattern = [" + FormatPatternList(pattern) + "],", line, ")", target);
  }

  lemma OneBlock(same: bool, allows: bool)
    ensures HasBlock([Opens, Body(same, false), Body(false, allows), Closes]) <==> same && allows
  {
    var marks := [Opens, Body(same, false), Body(false, allows), Closes];
    if same && allows {
      assert marks[1].matches && marks[2].allows;
      assert Block(marks, 0, 3);
    }
  }

  /** A file holding one rule answers for its own patterns, and only when its decision mentions
      `allow` in quotes: a rule that decides otherwise is never taken for an approval. */
  lemma OneRuleIsRecognisedIff(p: Pattern, text: string, q: Pattern)
    requires '\n' !in text
    ensures Recognised(RuleDeciding(p, text), q)
            <==> SameUpToSpaces(p, q) && (Occurs(text, "\"allow\"") || Occurs(text, "'allow'"))
  {
    DecidingMarks(p, text, TargetOf(q));
    AllowsInText(text);
    OneBlock(TargetOf(p) == TargetOf(q), MentionsAllow("decision = " + text + ","));
    TargetsAgreeIff(p, q);
  }

  /** The append leaves a file that approves the pattern alone; to any other it adds the rule, after
      ending the last line and a blank line. */
  lemma AppendAddsUnlessApproved(existing: string, pattern: Pattern)
    ensures Approves(existing, pattern) ==> Appended(existing, pattern) == existing
    ensures !Approves(existing, pattern)
            ==> Appended(existing, pattern)
                == existing
                   + (if existing == "" then "" else if existing[|existing| - 1] == '\n' then "\n" else "\n\n")
                   + FormatPrefixRule(pattern)
  {
    RecognisedIff(existing, pattern);
    SeparatedIs(existing);
  }

  lemma SeparatedIs(existing: string)
    ensures Separated(existing)
            == existing
               + (if existing == "" then "" else if existing[|existing| - 1] == '\n' then "\n" else "\n\n")
  {
    Regroup(existing, "\n", "\n");
    assert "\n" + "\n" == "\n\n";
  }

  lemma LinesJoined(a: string, b: string, c: string, d: string)
    ensures Line(a, Line(b, Line(c, Line(d, "")))) == a + "\n" + b + "\n" + c + "\n" + d + "\n"
  {
    var n := "\n";
    var cd := Line(c, Line(d, ""));
    assert Line(d, "") == d + n;
    Regroup(c + n, d, n);
    assert cd == c + n + d + n;
    Regroup(b + n, c + n + d, n);
    Regroup(b + n, c + n, d);
    Regroup(b + n, c, n);
    Regroup(a + n, b + n + c + n + d, n);
    Regroup(a + n, b + n + c + n, d);
    Regroup(a + n, b + n + c, n);
    Regroup(a + n, b + n, c);
    Regroup(a + n, b, n);
  }

  /** The four lines a rule is written as. */
  lemma RuleTextIs(pattern: Pattern)
    ensures FormatPrefixRule(pattern)
            == "prefix_rule(" + "\n" + ("    pattern = [" + FormatPatternList(pattern) + "],") + "\n"
               + "    decision = \"allow\"," + "\n" + ")" + "\n"
  {
    assert INDENT + DECISION == "    decision = \"allow\",";
    LinesJoined(HEAD, PATTERN_LINE + FormatPatternList(pattern) + "],", INDENT + DECISION, ")");
  }

  /** The items of a pattern in quotes, each escaped, with a comma and a space between them. */
  lemma {:induction false} PatternListIs(pattern: Pattern, last: string)
    ensures FormatPatternList([]) == ""
    ensures FormatPatternList(pattern + [last])
            == (if pattern == [] then "" else FormatPatternList(pattern) + ", ") + ("\"" + EscapeAll(last) + "\"")
  {
    EscapeIsCharwise(last);
    var all := pattern + [last];
    if |pattern| == 0 {
      assert all == [last];
    } else if |pattern| == 1 {
      assert all[1..] == [last];
    } else {
      assert all[1..] == pattern[1..] + [last];
      PatternListIs(pattern[1..], last);
      ListStep(FormatItem(pattern[0]), FormatPatternList(pattern[1..]), FormatItem(last));
    }
  }

  lemma ListStep(first: string, rest: string, last: string)
    ensures first + ", " + (rest + ", " + last) == first + ", " + rest + ", " + last
  {
  }
}
