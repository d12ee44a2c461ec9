/** Fenced blocks around untrusted text: src/utils/pullRequestReviewPrompt.ts, read back by the rules
    for fenced code blocks in section 4.5 of CommonMark 0.31.2. */
module Fences {
  import opened ThreadItems

  const BACKTICK: Unit := 96
  const TILDE: Unit := 126
  const LF: Unit := 10
  const CR: Unit := 13
  const SPACE: Unit := 32
  const TAB: Unit := 9

  // ---------- printing ----------

  /** The length of the run of `c` that ends the text. */
  function LastRun(text: JsString, c: Unit): (n: nat)
    ensures n <= |text|
  {
    if text == [] || text[|text| - 1] != c then 0 else LastRun(text[..|text| - 1], c) + 1
  }

  function MaxRun(text: JsString, c: Unit): nat {
    if text == [] then 0
    else
      var before, run := MaxRun(text[..|text| - 1], c), LastRun(text, c);
      if run > before then run else before
  }

  method MaxConsecutiveChar(text: JsString, c: Unit) returns (maxRun: nat)
    ensures maxRun == MaxRun(text, c)
  {
    maxRun := 0;
    var currentRun := 0;
    for i := 0 to |text|
      invariant maxRun == MaxRun(text[..i], c) && currentRun == LastRun(text[..i], c)
    {
      assert text[..i + 1][..i] == text[..i];
      if text[i] == c {
        currentRun := currentRun + 1;
        if currentRun > maxRun {
          maxRun := currentRun;
        }
      } else {
        currentRun := 0;
      }
    }
    assert text[..|text|] == text;
  }

  function Repeat(c: Unit, n: nat): (r: JsString)
    ensures |r| == n && forall i :: 0 <= i < n ==> r[i] == c
  {
    seq(n, i requires 0 <= i < n => c)
  }

  function FenceChar(content: JsString): Unit {
    if MaxRun(content, BACKTICK) <= MaxRun(content, TILDE) then BACKTICK else TILDE
  }

  function FenceLength(content: JsString): nat {
    var run := MaxRun(content, FenceChar(content));
    if run + 1 > 3 then run + 1 else 3
  }

  method BuildSafeFence(content: JsString) returns (fence: JsString)
    ensures fence == Repeat(FenceChar(content), FenceLength(content))
  {
    var backtickRun := MaxConsecutiveChar(content, BACKTICK);
    var tildeRun := MaxConsecutiveChar(content, TILDE);
    var useBackticks := backtickRun <= tildeRun;
    var c := if useBackticks then BACKTICK else TILDE;
    var maxRun := if useBackticks then backtickRun else tildeRun;
    fence := Repeat(c, if maxRun + 1 > 3 then maxRun + 1 else 3);
  }

  method BuildUntrustedFencedBlock(content: JsString, language: JsString) returns (lines: seq<JsString>)
    ensures |lines| == 3 && lines[0] + [LF] + lines[1] + [LF] + lines[2] == Block(content, language)
  {
    var fence := BuildSafeFence(content);
    return [fence + language, content, fence];
  }

  /** The three lines, joined. */
  function Block(content: JsString, language: JsString): JsString {
    var fence := Repeat(FenceChar(content), FenceLength(content));
    fence + language + [LF] + content + [LF] + fence
  }

  // ---------- runs ----------

  predicate All(text: JsString, from: nat, to: nat, c: Unit)
    requires from <= to <= |text|
  {
    forall i :: from <= i < to ==> text[i] == c
  }

  predicate RunAt(text: JsString, i: nat, n: nat, c: Unit) {
    i + n <= |text| && All(text, i, i + n, c)
  }

  /** `n` units in a row equal `c`. */
  ghost predicate HasRun(text: JsString, c: Unit, n: nat) {
    exists i: nat :: RunAt(text, i, n, c)
  }

  lemma {:induction false} LastRunIff(text: JsString, c: Unit, n: nat)
    requires n <= |text|
    ensures n <= LastRun(text, c) <==> All(text, |text| - n, |text|, c)
  {
    if n > 0 {
      var init := text[..|text| - 1];
      if text[|text| - 1] == c {
        LastRunIff(init, c, n - 1);
        assert forall i :: |text| - n <= i < |text| - 1 ==> text[i] == init[i];
      }
    }
  }

  /** The counter finds the longest run: a run of `n` occurs exactly when `n` is at most the maximum. */
  lemma {:induction false} MaxRunIff(text: JsString, c: Unit, n: nat)
    ensures HasRun(text, c, n) <==> n <= MaxRun(text, c)
  {
    if text == [] {
      assert n == 0 ==> RunAt(text, 0, n, c);
    } else {
      var init := text[..|text| - 1];
      MaxRunIff(init, c, n);
      if n <= |text| {
        LastRunIff(text, c, n);
      }
      RunInInit(text, c, n);
    }
  }

  lemma RunInInit(text: JsString, c: Unit, n: nat)
    requires text != []
    ensures HasRun(text, c, n) <==>
            HasRun(text[..|text| - 1], c, n) || (n <= |text| && All(text, |text| - n, |text|, c))
  {
    var init := text[..|text| - 1];
    forall i: nat | i + n <= |init| ensures RunAt(text, i, n, c) <==> RunAt(init, i, n, c) {
      assert forall k :: i <= k < i + n ==> text[k] == init[k];
    }
    if n <= |text| && All(text, |text| - n, |text|, c) {
      assert RunAt(text, |text| - n, n, c);
    }
  }

  // ---------- reading, after CommonMark ----------

  /** The first line ending, or the end of the text. */
  function LineEnd(text: JsString): (i: nat)
    ensures i <= |text|
    ensures i < |text| ==> text[i] == LF || text[i] == CR
    ensures forall k :: 0 <= k < i ==> text[k] != LF && text[k] != CR
  {
    if text == [] || text[0] == LF || text[0] == CR then 0 else 1 + LineEnd(text[1..])
  }

  /** Where the next line starts: a line ends with a line feed, a carriage return, or both. */
  function NextLine(text: JsString): (i: nat)
    ensures LineEnd(text) <= i <= |text|
    ensures text != [] ==> i > 0
  {
    var i := LineEnd(text);
    if i == |text| then i
    else if text[i] == CR && i + 1 < |text| && text[i + 1] == LF then i + 2
    else i + 1
  }

  predicate Blank(text: JsString, from: nat)
    requires from <= |text|
  {
    forall i :: from <= i < |text| ==> text[i] == SPACE || text[i] == TAB
  }

  /** A closing fence: at most three spaces, at least `n` times `c`, then only spaces and tabs. */
  ghost predicate Closes(line: JsString, c: Unit, n: nat) {
    exists i: nat, j: nat ::
      && i <= 3 && i + n <= j <= |line|
      && All(line, 0, i, SPACE) && All(line, i, j, c) && Blank(line, j)
  }

  /** The text up to the closing fence or the end, and what follows the closing fence. */
  ghost function ReadBody(text: JsString, c: Unit, n: nat): (JsString, JsString)
    decreases |text|
  {
    if text == [] then ([], [])
    else if Closes(text[..LineEnd(text)], c, n) then ([], text[NextLine(text)..])
    else
      var rest := ReadBody(text[NextLine(text)..], c, n);
      (text[..NextLine(text)] + rest.0, rest.1)
  }

  function FirstRun(text: JsString, c: Unit): (n: nat)
    ensures n <= |text| && All(text, 0, n, c)
    ensures n < |text| ==> text[n] != c
  {
    if text == [] || text[0] != c then 0 else 1 + FirstRun(text[1..], c)
  }

  datatype Read = NoFence | Fenced(info: JsString, content: JsString, rest: JsString)

  /** A fenced block whose opening fence starts at the margin: at least three backticks or tildes;
      an info line, without backticks after a backtick fence. */
  ghost function ReadFence(text: JsString): Read {
    if text == [] || (text[0] != BACKTICK && text[0] != TILDE) then NoFence
    else
      var c := text[0];
      var n := FirstRun(text, c);
      if n < 3 || LineEnd(text) < n then NoFence
      else
        var info := text[n..LineEnd(text)];
        if c == BACKTICK && BACKTICK in info then NoFence
        else
          var body := ReadBody(text[NextLine(text)..], c, n);
          Fenced(info, body.0, body.1)
  }

  // ---------- the round trip ----------

  lemma LineEndIs(text: JsString, i: nat)
    requires i <= |text| && (i < |text| ==> text[i] == LF || text[i] == CR)
    requires forall k :: 0 <= k < i ==> text[k] != LF && text[k] != CR
    ensures LineEnd(text) == i
  {
  }

  lemma FirstRunIs(text: JsString, c: Unit, n: nat)
    requires n < |text| && All(text, 0, n, c) && text[n] != c
    ensures FirstRun(text, c) == n
  {
  }

  /** Only a line that holds a run of `n` can close the fence. */
  lemma ClosingLineHasRun(content: JsString, i: nat, c: Unit, n: nat)
    requires i <= |content| && Closes(content[..i], c, n)
    ensures HasRun(content, c, n)
  {
    var line := content[..i];
    var a: nat, b: nat :| a <= 3 && a + n <= b <= |line|
                          && All(line, 0, a, SPACE) && All(line, a, b, c) && Blank(line, b);
    assert forall k :: a <= k < a + n ==> content[k] == line[k];
    assert RunAt(content, a, n, c);
  }

  lemma RunOfTail(content: JsString, i: nat, c: Unit, n: nat)
    requires i <= |content| && HasRun(content[i..], c, n)
    ensures HasRun(content, c, n)
  {
    var tail := content[i..];
    var k: nat :| RunAt(tail, k, n, c);
    assert forall j :: k + i <= j < k + i + n ==> content[j] == tail[j - i];
    assert RunAt(content, k + i, n, c);
  }

  predicate StartsLine(text: JsString) {
    text == [] || text[0] == LF || text[0] == CR
  }

  lemma RepeatCloses(c: Unit, n: nat)
    ensures Closes(Repeat(c, n), c, n)
  {
    var fence := Repeat(c, n);
    assert All(fence, 0, 0, SPACE) && All(fence, 0, n, c) && Blank(fence, n);
  }

  lemma LineBefore(line: JsString, after: JsString)
    requires LF !in line && CR !in line && StartsLine(after)
    ensures LineEnd(line + after) == |line|
    ensures NextLine(line + after) == |line| + NextLine(after)
  {
    LineEndIs(line + after, |line|);
    assert LineEnd(after) == 0;
  }

  lemma BodyEnds(line: JsString, after: JsString, c: Unit, n: nat)
    requires line != [] && Closes(line, c, n)
    requires LineEnd(line + after) == |line| && NextLine(line + after) == |line| + NextLine(after)
    ensures ReadBody(line + after, c, n) == ([], after[NextLine(after)..])
  {
    var text := line + after;
    assert text[..|line|] == line;
    assert text[|line| + NextLine(after)..] == after[NextLine(after)..];
  }

  lemma FenceCloses(c: Unit, n: nat, after: JsString)
    requires c == BACKTICK || c == TILDE
    requires n >= 3 && StartsLine(after)
    ensures ReadBody(Repeat(c, n) + after, c, n) == ([], after[NextLine(after)..])
  {
    RepeatCloses(c, n);
    LineBefore(Repeat(c, n), after);
    BodyEnds(Repeat(c, n), after, c, n);
  }

  /** The first line of `content` plus a line feed is a line of the content. */
  lemma FirstLine(content: JsString, tail: JsString)
    ensures var text := content + [LF] + tail;
            && LineEnd(text) <= |content| && text[..LineEnd(text)] == content[..LineEnd(text)]
            && 0 < NextLine(text) <= |content| + 1
  {
    var text := content + [LF] + tail;
    assert text[|content|] == LF;
  }

  lemma AfterFirstLine(content: JsString, tail: JsString, next: nat)
    requires next <= |content|
    ensures var text := content + [LF] + tail;
            && text[next..] == content[next..] + [LF] + tail
            && text[..next] + (content[next..] + [LF]) == content + [LF]
  {
  }

  lemma BodyUnfolds(text: JsString, more: JsString, c: Unit, n: nat)
    requires text != [] && !Closes(text[..LineEnd(text)], c, n) && text[NextLine(text)..] == more
    ensures ReadBody(text, c, n) == (text[..NextLine(text)] + ReadBody(more, c, n).0, ReadBody(more, c, n).1)
  {
  }

  /** The content is read whole, line ending included, and reading goes on after the fence. */
  lemma {:induction false} BodyIsContent(content: JsString, c: Unit, n: nat, tail: JsString, rest: JsString)
    requires n >= 3 && !HasRun(content, c, n) && ReadBody(tail, c, n) == ([], rest)
    ensures ReadBody(content + [LF] + tail, c, n) == (content + [LF], rest)
    decreases |content|
  {
    var text := content + [LF] + tail;
    var next := NextLine(text);
    FirstLine(content, tail);
    if Closes(content[..LineEnd(text)], c, n) {
      ClosingLineHasRun(content, LineEnd(text), c, n);
    }
    BodyUnfolds(text, text[next..], c, n);
    if next <= |content| {
      if HasRun(content[next..], c, n) {
        RunOfTail(content, next, c, n);
      }
      BodyIsContent(content[next..], c, n, tail, rest);
      AfterFirstLine(content, tail, next);
    } else {
      assert text[next..] == tail;
      assert text[..next] + [] == content + [LF];
    }
  }

  /** What may follow the opening fence on its line; the callers pass `diff` and `text`. */
  predicate PlainInfo(language: JsString) {
    && LF !in language && CR !in language && BACKTICK !in language
    && (language != [] ==> language[0] != TILDE)
  }

  /** Whatever the content, a reader of the printed block gets the content back, exactly, and goes
      on right after the block. */
  lemma BlockIsReadBack(content: JsString, language: JsString, after: JsString)
    requires PlainInfo(language) && StartsLine(after)
    ensures ReadFence(Block(content, language) + after)
            == Fenced(language, content + [LF], after[NextLine(after)..])
  {
    var c, n := FenceChar(content), FenceLength(content);
    var fence := Repeat(c, n);
    var body := content + [LF] + (fence + after);
    var text := Block(content, language) + after;
    assert text == fence + language + [LF] + body;
    MaxRunIff(content, c, n);
    OpeningLine(c, n, language, body);
    FenceCloses(c, n, after);
    BodyIsContent(content, c, n, fence + after, after[NextLine(after)..]);
  }

  lemma OpeningLine(c: Unit, n: nat, language: JsString, body: JsString)
    requires (c == BACKTICK || c == TILDE) && n >= 3 && PlainInfo(language)
    ensures var text := Repeat(c, n) + language + [LF] + body;
            && text[0] == c && FirstRun(text, c) == n
            && LineEnd(text) == n + |language| && NextLine(text) == n + |language| + 1
            && text[n..LineEnd(text)] == language && text[NextLine(text)..] == body
  {
    var text := Repeat(c, n) + language + [LF] + body;
    assert forall k :: 0 <= k < |language| ==> language[k] in language;
    assert text[n] == (language + [LF])[0];
    LineEndIs(text, n + |language|);
    FirstRunIs(text, c, n);
  }

  /** The fence is as short as it may be: at least three units and longer than every run of its
      character in the content. The character is the one with the shorter longest run, a backtick
      when the two are equally long. */
  lemma FenceIsShortest(content: JsString)
    ensures var c, n := FenceChar(content), FenceLength(content);
            var other := if c == 96 then 126 else 96;
            && (c == 96 || c == 126) && n >= 3 && !HasRun(content, c, n)
            && (n > 3 ==> HasRun(content, c, n - 1))
            && (forall m: nat :: HasRun(content, c, m) ==> HasRun(content, other, m))
            && (c == 126 ==> exists m: nat :: HasRun(content, 96, m) && !HasRun(content, 126, m))
  {
    forall c: Unit, m: nat ensures HasRun(content, c, m) <==> m <= MaxRun(content, c) {
      MaxRunIff(content, c, m);
    }
    assert HasRun(content, 96, MaxRun(content, 96));
  }
}
