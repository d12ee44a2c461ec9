/** The approval-rules file of src-tauri/src/rules.rs: the appender and the line-oriented
    recogniser that decides whether a rule is already there. */
module Rules {
  import opened Wrappers
  import opened Text

  type Pattern = seq<string>

  // ---------- printing a rule ----------

  /** `str::replace` of one character by a string. */
  function Replace(s: string, c: char, by_: string): string {
    if s == "" then "" else (if s[0] == c then by_ else [s[0]]) + Replace(s[1..], c, by_)
  }

  function EscapeString(s: string): string {
    Replace(Replace(Replace(Replace(Replace(s, '\\', "\\\\"), '\"', "\\\""), '\n', "\\n"), '\r', "\\r"), '\t', "\\t")
  }

  function FormatItem(item: string): string {
    "\"" + EscapeString(item) + "\""
  }

  function FormatPatternList(pattern: Pattern): string {
    if pattern == [] then ""
    else if |pattern| == 1 then FormatItem(pattern[0])
    else FormatItem(pattern[0]) + ", " + FormatPatternList(pattern[1..])
  }

  const HEAD := "prefix_rule("
  const PATTERN_LINE := "    pattern = ["
  const INDENT := "    "
  const DECISION := "decision = \"allow\","

  function FormatPrefixRule(pattern: Pattern): string {
    Line(HEAD, Line(PATTERN_LINE + FormatPatternList(pattern) + "],", Line(INDENT + DECISION, Line(")", ""))))
  }

  // ---------- recognising a rule ----------

  function NormalizeRuleValue(s: string): string {
    if s == "" then ""
    else (if IsWhitespace(s[0]) then "" else [s[0]]) + NormalizeRuleValue(s[1..])
  }

  function TargetOf(pattern: Pattern): string {
    NormalizeRuleValue("[" + FormatPatternList(pattern) + "]")
  }

  function TrimEndCommas(s: string): string {
    if s != "" && s[|s| - 1] == ',' then TrimEndCommas(s[..|s| - 1]) else s
  }

  /** The text after the first `=`, trimmed and without trailing commas. */
  function Assigned(line: string): Option<string> {
    var i := IndexOf(line, '=');
    if i == |line| then None else Some(TrimEndCommas(Trim(line[i + 1..])))
  }

  predicate SaysAllow(value: string) {
    Contains(value, "\"allow\"") || Contains(value, "'allow'")
  }

  /** What a trimmed line means to the recogniser. */
  datatype Mark = Opens | Closes | Body(matches: bool, allows: bool)

  function MarkOf(line: string, target: string): Mark {
    var value := Assigned(line);
    if HEAD <= line then Opens
    else if "pattern" <= line then Body(value.Some? && NormalizeRuleValue(value.value) == target, false)
    else if "decision" <= line then Body(false, value.Some? && SaysAllow(value.value))
    else if ")" <= line then Closes
    else Body(false, false)
  }

  function MarkAll(lines: seq<string>, target: string): (marks: seq<Mark>)
    ensures |marks| == |lines| && forall i :: 0 <= i < |lines| ==> marks[i] == MarkOf(lines[i], target)
  {
    if lines == [] then [] else [MarkOf(lines[0], target)] + MarkAll(lines[1..], target)
  }

  function Marks(contents: string, target: string): seq<Mark> {
    MarkAll(TrimmedLines(contents), target)
  }

  /** Lines `i` to `j` are a rule block: opened at `i`, closed at `j`, with a matching pattern
      line and an allowing decision line in between. */
  ghost predicate Block(marks: seq<Mark>, i: nat, j: nat) {
    && i < j < |marks|
    && marks[i].Opens? && marks[j].Closes?
    && (forall m :: i < m < j ==> marks[m].Body?)
    && (exists m :: i < m < j && marks[m].Body? && marks[m].matches)
    && (exists m :: i < m < j && marks[m].Body? && marks[m].allows)
  }

  ghost predicate HasBlock(marks: seq<Mark>) {
    exists i: nat, j: nat :: Block(marks, i, j)
  }

  ghost predicate Recognised(contents: string, pattern: Pattern) {
    HasBlock(Marks(contents, TargetOf(pattern)))
  }

  /** What the three flags mean before line `k`; `start` is where the open block began. */
  ghost predicate Scanned(marks: seq<Mark>, k: nat, inRule: bool, patternMatches: bool, decisionAllows: bool,
                          start: nat)
    requires k <= |marks|
  {
    && (forall i: nat, j: nat :: j < k ==> !Block(marks, i, j))
    && (if inRule then
          && start < k && marks[start].Opens?
          && (forall m :: start < m < k ==> marks[m].Body?)
          && (patternMatches <==> exists m :: start < m < k && marks[m].Body? && marks[m].matches)
          && (decisionAllows <==> exists m :: start < m < k && marks[m].Body? && marks[m].allows)
        else
          forall i :: 0 <= i < k && marks[i].Opens? ==> exists m :: i < m < k && !marks[m].Body?)
  }

  lemma ScanStep(marks: seq<Mark>, k: nat, inRule: bool, p: bool, d: bool, start: nat)
    requires k < |marks| && Scanned(marks, k, inRule, p, d, start)
    ensures var after := AfterMark(marks[k], inRule, p, d);
            if after.found then Block(marks, start, k)
            else Scanned(marks, k + 1, after.inRule, after.patternMatches, after.decisionAllows,
                         if marks[k].Opens? then k else start)
  {
    assert start < k ==> start < k < k + 1;
    forall i: nat | Block(marks, i, k) ensures inRule && p && d {
      if inRule {
        assert !(i < start) && !(start < i);
      }
    }
    if !inRule {
      forall i | 0 <= i < k && marks[i].Opens? ensures exists m :: i < m < k + 1 && !marks[m].Body? {
        var m :| i < m < k && !marks[m].Body?;
      }
    }
  }

  /** The three flags, and whether a rule was found. */
  datatype Flags = Flags(inRule: bool, patternMatches: bool, decisionAllows: bool, found: bool)

  function AfterMark(m: Mark, inRule: bool, p: bool, d: bool): Flags {
    if m.Opens? then Flags(true, false, false, false)
    else if !inRule then Flags(false, p, d, false)
    else if m.Body? then Flags(true, p || m.matches, d || m.allows, false)
    else Flags(false, p, d, p && d)
  }

  /** One round of the scan. */
  method ScanLine(trimmed: string, target: string, inRule: bool, p: bool, d: bool) returns (flags: Flags)
    ensures flags == AfterMark(MarkOf(trimmed, target), inRule, p, d)
  {
    if HEAD <= trimmed {
      return Flags(true, false, false, false);
    }
    if !inRule {
      return Flags(false, p, d, false);
    }
    flags := Flags(true, p, d, false);
    if "pattern" <= trimmed {
      var value := Assigned(trimmed);
      if value.Some? && NormalizeRuleValue(value.value) == target {
        flags := flags.(patternMatches := true);
      }
    } else if "decision" <= trimmed {
      var value := Assigned(trimmed);
      if value.Some? && SaysAllow(value.value) {
        flags := flags.(decisionAllows := true);
      }
    } else if ")" <= trimmed {
      flags := Flags(false, p, d, p && d);
    }
  }

  /** The scan over lines with its three flags finds a block exactly when there is one. */
  method RuleAlreadyPresent(contents: string, pattern: Pattern) returns (present: bool)
    ensures present <==> Recognised(contents, pattern)
  {
    var target := TargetOf(pattern);
    var lines := Lines(contents);
    ghost var marks := Marks(contents, target);
    var inRule, patternMatches, decisionAllows := false, false, false;
    ghost var start: nat := 0;
    for k := 0 to |lines|
      invariant Scanned(marks, k, inRule, patternMatches, decisionAllows, start)
    {
      var flags := ScanLine(Trim(lines[k]), target, inRule, patternMatches, decisionAllows);
      assert marks[k] == MarkOf(Trim(lines[k]), target);
      ScanStep(marks, k, inRule, patternMatches, decisionAllows, start);
      if flags.found {
        return true;
      }
      inRule, patternMatches, decisionAllows := flags.inRule, flags.patternMatches, flags.decisionAllows;
      start := if marks[k].Opens? then k else start;
    }
    return false;
  }

  // ---------- appending ----------

  function Separated(existing: string): string {
    var ended := if existing != "" && !EndsWithNewline(existing) then existing + "\n" else existing;
    if ended != "" then ended + "\n" else ended
  }

  function WithRule(existing: string, pattern: Pattern): string {
    Separated(existing) + FormatPrefixRule(pattern)
  }

  ghost function Appended(existing: string, pattern: Pattern): string {
    if Recognised(existing, pattern) then existing else WithRule(existing, pattern)
  }

  /** The rules file; `text` is what `read_to_string` returns. */
  class RulesFile {
    var text: string

    constructor (initial: string)
      ensures text == initial
    {
      text := initial;
    }

    /** `append_prefix_rule`, the lock and the file system apart. */
    method AppendPrefixRule(pattern: Pattern) returns (error: Option<string>)
      modifies this
      ensures error.Some? <==> pattern == []
      ensures pattern == [] ==> text == old(text)
      ensures pattern != [] ==> text == Appended(old(text), pattern)
    {
      if pattern == [] {
        return Some("empty command pattern");
      }
      var present := RuleAlreadyPresent(text, pattern);
      if present {
        return None;
      }
      var updated := text;
      if updated != "" && !EndsWithNewline(updated) {
        updated := updated + "\n";
      }
      if updated != "" {
        updated := updated + "\n";
      }
      updated := updated + FormatPrefixRule(pattern);
      assert EndsWithNewline(updated);
      text := updated;
      return None;
    }
  }

  // ---------- what the lines of an appended file are ----------

  lemma {:induction false} ReplaceRemoves(s: string, c: char, by_: string, d: char)
    requires d !in by_
    requires d == c || d !in s
    ensures d !in Replace(s, c, by_)
  {
    if s != "" {
      ReplaceRemoves(s[1..], c, by_, d);
    }
  }

  lemma EscapedHasNoNewline(s: string)
    ensures '\n' !in EscapeString(s)
  {
    var s2 := Replace(Replace(s, '\\', "\\\\"), '\"', "\\\"");
    ReplaceRemoves(s2, '\n', "\\n", '\n');
    ReplaceRemoves(Replace(s2, '\n', "\\n"), '\r', "\\r", '\n');
    ReplaceRemoves(Replace(Replace(s2, '\n', "\\n"), '\r', "\\r"), '\t', "\\t", '\n');
  }

  lemma {:induction false} ListHasNoNewline(pattern: Pattern)
    ensures '\n' !in FormatPatternList(pattern)
  {
    if pattern != [] {
      EscapedHasNoNewline(pattern[0]);
      ListHasNoNewline(pattern[1..]);
    }
  }

  function RuleLines(pattern: Pattern): seq<string> {
    [HEAD, "pattern = [" + FormatPatternList(pattern) + "],", DECISION, ")"]
  }

  lemma SkipSpace(s: string)
    requires s != "" && IsWhitespace(s[0])
    ensures TrimStart(s) == TrimStart(s[1..])
  {
  }

  lemma TrimIndented(body: string)
    requires body != "" && !IsWhitespace(body[0]) && !IsWhitespace(body[|body| - 1])
    ensures Trim(INDENT + body) == body
  {
    var line := INDENT + body;
    SkipSpace(line);
    SkipSpace(line[1..]);
    SkipSpace(line[1..][1..]);
    SkipSpace(line[1..][1..][1..]);
    assert line[1..][1..][1..][1..] == body;
  }

  lemma FourLines(a: string, b: string, c: string, d: string)
    requires '\n' !in a && '\n' !in b && '\n' !in c && '\n' !in d
    ensures TrimmedLines(Line(a, Line(b, Line(c, Line(d, ""))))) == [Trim(a), Trim(b), Trim(c), Trim(d)]
  {
    assert TrimmedLines(Line(d, "")) == [Trim(d)] by { TrimmedLine(d, ""); }
    TrimmedLine(c, Line(d, ""));
    TrimmedLine(b, Line(c, Line(d, "")));
    TrimmedLine(a, Line(b, Line(c, Line(d, ""))));
  }

  lemma TrimmedRuleLines(pattern: Pattern)
    ensures TrimmedLines(FormatPrefixRule(pattern)) == RuleLines(pattern)
  {
    var items := FormatPatternList(pattern);
    ListHasNoNewline(pattern);
    TrimPatternLine(items);
    HeadLine();
    DecisionLine();
    CloseLine();
    FourLinesAre(HEAD, PATTERN_LINE + items + "],", INDENT + DECISION, ")", RuleLines(pattern));
  }

  lemma TrimPlain(s: string)
    requires s != "" && !IsWhitespace(s[0]) && !IsWhitespace(s[|s| - 1])
    ensures Trim(s) == s
  {
  }

  lemma HeadLine()
    ensures '\n' !in HEAD && Trim(HEAD) == HEAD
  {
    TrimPlain(HEAD);
  }

  lemma DecisionLine()
    ensures '\n' !in INDENT + DECISION && Trim(INDENT + DECISION) == DECISION
  {
    TrimIndented(DECISION);
  }

  lemma CloseLine()
    ensures '\n' !in ")" && Trim(")") == ")"
  {
    TrimPlain(")");
  }

  lemma TrimPatternLine(items: string)
    requires '\n' !in items
    ensures '\n' !in PATTERN_LINE + items + "],"
    ensures Trim(PATTERN_LINE + items + "],") == "pattern = [" + items + "],"
  {
    var body := "pattern = [" + items + "],";
    assert PATTERN_LINE + items + "]," == INDENT + body;
    TrimIndented(body);
  }

  lemma FourLinesAre(a: string, b: string, c: string, d: string, lines: seq<string>)
    requires '\n' !in a && '\n' !in b && '\n' !in c && '\n' !in d
    requires lines == [Trim(a), Trim(b), Trim(c), Trim(d)]
    ensures TrimmedLines(Line(a, Line(b, Line(c, Line(d, ""))))) == lines
  {
    FourLines(a, b, c, d);
  }

  /** The lines of the file after an append: the old ones, a blank one unless the file was empty,
      and the four lines of the rule. */
  lemma AppendedLines(existing: string, pattern: Pattern)
    ensures TrimmedLines(WithRule(existing, pattern))
            == TrimmedLines(existing) + (if existing == "" then [] else [""]) + RuleLines(pattern)
  {
    TrimmedRuleLines(pattern);
    SeparatedLines(existing, FormatPrefixRule(pattern));
  }

  lemma SeparatedLines(existing: string, rule: string)
    ensures TrimmedLines(Separated(existing) + rule)
            == TrimmedLines(existing) + (if existing == "" then [] else [""]) + TrimmedLines(rule)
  {
    if existing == "" {
      assert Separated(existing) + rule == rule;
    } else if EndsWithNewline(existing) {
      BlankLineAfter(existing, rule);
    } else {
      NewlineAtEndChangesNothing(existing);
      BlankLineAfter(existing + "\n", rule);
    }
  }

  lemma BlankLineAfter(ended: string, rule: string)
    requires EndsWithNewline(ended)
    ensures TrimmedLines(ended + "\n" + rule) == TrimmedLines(ended) + [""] + TrimmedLines(rule)
  {
    var rest := Line("", rule);
    Assoc(ended, "\n", rule);
    assert rest == "\n" + rule;
    TrimmedLinesConcat(ended, rest);
    TrimmedLine("", rule);
  }
}
