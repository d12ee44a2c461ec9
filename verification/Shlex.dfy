/** The shell-like tokenizer of src/utils/customPrompts.ts, and the quoting it undoes. */
module Shlex {
  import opened Wrappers
  import opened ThreadItems

  const SPACE: Unit := 32
  const QUOTE: Unit := 34
  const APOSTROPHE: Unit := 39
  const BACKSLASH: Unit := 92

  predicate IsCurly(u: Unit) {
    u == 0x201C || u == 0x201D || u == 0x2018 || u == 0x2019
  }

  predicate CurlyFree(s: JsString) {
    forall i :: 0 <= i < |s| ==> !IsCurly(s[i])
  }

  /** Curly quotes become straight ones. */
  function NormalizeQuotes(input: JsString): (r: JsString)
    ensures CurlyFree(r)
    ensures CurlyFree(input) ==> r == input
  {
    seq(|input|, i requires 0 <= i < |input| =>
      if input[i] == 0x201C || input[i] == 0x201D then QUOTE
      else if input[i] == 0x2018 || input[i] == 0x2019 then APOSTROPHE
      else input[i])
  }

  // ---------- splitting ----------

  /** The loop variables of `splitShlex`. */
  datatype Lexer = Lexer(tokens: seq<JsString>, current: JsString, inSingle: bool, inDouble: bool, escaped: bool)

  const CLEAN := Lexer([], [], false, false, false)

  function Flushed(tokens: seq<JsString>, current: JsString): seq<JsString> {
    if current == [] then tokens else tokens + [current]
  }

  function Step(st: Lexer, u: Unit): Lexer {
    if st.escaped then st.(current := st.current + [u], escaped := false)
    else if !st.inSingle && u == BACKSLASH then st.(escaped := true)
    else if !st.inDouble && u == APOSTROPHE then st.(inSingle := !st.inSingle)
    else if !st.inSingle && u == QUOTE then st.(inDouble := !st.inDouble)
    else if !st.inSingle && !st.inDouble && IsSpace(u) then
      st.(tokens := Flushed(st.tokens, st.current), current := [])
    else st.(current := st.current + [u])
  }

  function LexFrom(st: Lexer, input: JsString): Lexer {
    if input == [] then st else Step(LexFrom(st, input[..|input| - 1]), input[|input| - 1])
  }

  /** A backslash at the very end stands for itself. */
  function Finish(st: Lexer): seq<JsString> {
    Flushed(st.tokens, if st.escaped then st.current + [BACKSLASH] else st.current)
  }

  function Split(input: JsString): seq<JsString> {
    Finish(LexFrom(CLEAN, input))
  }

  method SplitShlex(input: JsString) returns (tokens: seq<JsString>)
    ensures tokens == Split(input)
  {
    tokens := [];
    var current: JsString := [];
    var inSingle, inDouble, escaped := false, false, false;
    for i := 0 to |input|
      invariant LexFrom(CLEAN, input[..i]) == Lexer(tokens, current, inSingle, inDouble, escaped)
    {
      assert input[..i + 1][..i] == input[..i];
      var u := input[i];
      if escaped {
        current := current + [u];
        escaped := false;
        continue;
      }
      if !inSingle && u == BACKSLASH {
        escaped := true;
        continue;
      }
      if !inDouble && u == APOSTROPHE {
        inSingle := !inSingle;
        continue;
      }
      if !inSingle && u == QUOTE {
        inDouble := !inDouble;
        continue;
      }
      if !inSingle && !inDouble && IsSpace(u) {
        if current != [] {
          tokens := tokens + [current];
          current := [];
        }
        continue;
      }
      current := current + [u];
    }
    assert input[..|input|] == input;
    if escaped {
      current := current + [BACKSLASH];
    }
    if current != [] {
      tokens := tokens + [current];
    }
  }

  lemma {:induction false} LexConcat(st: Lexer, a: JsString, b: JsString)
    ensures LexFrom(st, a + b) == LexFrom(LexFrom(st, a), b)
  {
    if b == [] {
      assert a + b == a;
    } else {
      assert (a + b)[..|a + b| - 1] == a + b[..|b| - 1];
      LexConcat(st, a, b[..|b| - 1]);
    }
  }

  lemma LexOne(st: Lexer, u: Unit)
    ensures LexFrom(st, [u]) == Step(st, u)
  {
    assert [u][..0] == [];
  }

  // ---------- quoting ----------

  /** What a user types for one argument: a bare start, then text in double quotes. */
  datatype Word = Word(bare: JsString, quoted: JsString)

  predicate IsPlain(u: Unit) {
    !IsSpace(u) && u != QUOTE && u != APOSTROPHE && u != BACKSLASH && !IsCurly(u)
  }

  predicate WellFormed(w: Word) {
    (forall i :: 0 <= i < |w.bare| ==> IsPlain(w.bare[i])) && CurlyFree(w.quoted)
  }

  /** Backslashes and double quotes get a backslash. */
  function Escape(s: JsString): JsString {
    if s == [] then []
    else
      var init, u := Escape(s[..|s| - 1]), s[|s| - 1];
      if u == BACKSLASH || u == QUOTE then init + [BACKSLASH, u] else init + [u]
  }

  function Typed(w: Word): JsString {
    w.bare + ([QUOTE] + Escape(w.quoted) + [QUOTE])
  }

  function Meaning(w: Word): JsString {
    w.bare + w.quoted
  }

  function TypedLine(words: seq<Word>): JsString {
    if words == [] then []
    else if |words| == 1 then Typed(words[0])
    else TypedLine(words[..|words| - 1]) + ([SPACE] + Typed(words[|words| - 1]))
  }

  /** The meanings that are not empty: the tokenizer has no empty tokens, quoted or not. */
  function Meanings(words: seq<Word>): seq<JsString> {
    if words == [] then [] else Flushed(Meanings(words[..|words| - 1]), Meaning(words[|words| - 1]))
  }

  lemma {:induction false} LexBare(st: Lexer, s: JsString)
    requires !st.inSingle && !st.inDouble && !st.escaped
    requires forall i :: 0 <= i < |s| ==> IsPlain(s[i])
    ensures LexFrom(st, s) == st.(current := st.current + s)
  {
    if s == [] {
      assert st.current + s == st.current;
    } else {
      var init, u := s[..|s| - 1], s[|s| - 1];
      LexBare(st, init);
      assert st.current + s == st.current + init + [u];
      assert IsPlain(u);
    }
  }

  lemma LexEscapedUnit(st: Lexer, u: Unit)
    requires !st.inSingle && st.inDouble && !st.escaped
    ensures LexFrom(st, if u == BACKSLASH || u == QUOTE then [BACKSLASH, u] else [u])
            == st.(current := st.current + [u])
  {
    if u == BACKSLASH || u == QUOTE {
      assert [BACKSLASH, u] == [BACKSLASH] + [u];
      LexConcat(st, [BACKSLASH], [u]);
      LexOne(st, BACKSLASH);
      LexOne(Step(st, BACKSLASH), u);
    } else {
      LexOne(st, u);
    }
  }

  lemma {:induction false} LexEscaped(st: Lexer, s: JsString)
    requires !st.inSingle && st.inDouble && !st.escaped
    ensures LexFrom(st, Escape(s)) == st.(current := st.current + s)
  {
    if s == [] {
      assert st.current + s == st.current;
    } else {
      var init, u := s[..|s| - 1], s[|s| - 1];
      LexEscaped(st, init);
      LexConcat(st, Escape(init), if u == BACKSLASH || u == QUOTE then [BACKSLASH, u] else [u]);
      LexEscapedUnit(st.(current := st.current + init), u);
      assert st.current + init + [u] == st.current + s;
    }
  }

  /** Between apostrophes everything is verbatim, backslashes and double quotes included. */
  lemma {:induction false} LexApostrophes(st: Lexer, s: JsString)
    requires !st.inSingle && !st.inDouble && !st.escaped && APOSTROPHE !in s
    ensures LexFrom(st, [APOSTROPHE] + s + [APOSTROPHE]) == st.(current := st.current + s)
  {
    var inside := st.(inSingle := true);
    LexOne(st, APOSTROPHE);
    LexConcat(st, [APOSTROPHE], s);
    LexVerbatim(inside, s);
    LexConcat(st, [APOSTROPHE] + s, [APOSTROPHE]);
    LexOne(inside.(current := st.current + s), APOSTROPHE);
  }

  lemma {:induction false} LexVerbatim(st: Lexer, s: JsString)
    requires st.inSingle && !st.inDouble && !st.escaped && APOSTROPHE !in s
    ensures LexFrom(st, s) == st.(current := st.current + s)
  {
    if s == [] {
      assert st.current + s == st.current;
    } else {
      var init, u := s[..|s| - 1], s[|s| - 1];
      LexVerbatim(st, init);
      assert u in s;
      assert st.current + s == st.current + init + [u];
    }
  }

  /** A typed word adds exactly its meaning to the current token. */
  lemma LexWord(st: Lexer, w: Word)
    requires !st.inSingle && !st.inDouble && !st.escaped && WellFormed(w)
    ensures LexFrom(st, Typed(w)) == st.(current := st.current + Meaning(w))
  {
    var bare := st.(current := st.current + w.bare);
    assert LexFrom(st, w.bare) == bare by { LexBare(st, w.bare); }
    LexQuoted(bare, w.quoted);
    LexConcat(st, w.bare, [QUOTE] + Escape(w.quoted) + [QUOTE]);
    Regroup(st.current, w.bare, w.quoted);
  }

  lemma LexQuoted(st: Lexer, s: JsString)
    requires !st.inSingle && !st.inDouble && !st.escaped
    ensures LexFrom(st, [QUOTE] + Escape(s) + [QUOTE]) == st.(current := st.current + s)
  {
    var inside := st.(inDouble := true);
    assert LexFrom(st, [QUOTE]) == inside by { LexOne(st, QUOTE); }
    assert LexFrom(st, [QUOTE] + Escape(s)) == inside.(current := st.current + s) by {
      LexConcat(st, [QUOTE], Escape(s));
      LexEscaped(inside, s);
    }
    LexConcat(st, [QUOTE] + Escape(s), [QUOTE]);
    LexOne(inside.(current := st.current + s), QUOTE);
  }

  lemma {:induction false} LexLine(words: seq<Word>)
    requires words != [] && forall i :: 0 <= i < |words| ==> WellFormed(words[i])
    ensures LexFrom(CLEAN, TypedLine(words))
            == Lexer(Meanings(words[..|words| - 1]), Meaning(words[|words| - 1]), false, false, false)
  {
    var init, last := words[..|words| - 1], words[|words| - 1];
    if init == [] {
      LexWord(CLEAN, last);
      assert [] + Meaning(last) == Meaning(last);
    } else {
      LexLine(init);
      var st := LexFrom(CLEAN, TypedLine(init));
      var spaced := Lexer(Meanings(init), [], false, false, false);
      LexConcat(CLEAN, TypedLine(init), [SPACE] + Typed(last));
      LexConcat(st, [SPACE], Typed(last));
      LexOne(st, SPACE);
      assert Step(st, SPACE) == spaced;
      LexWord(spaced, last);
      assert [] + Meaning(last) == Meaning(last);
    }
  }

  lemma {:induction false} EscapeIsCurlyFree(s: JsString)
    requires CurlyFree(s)
    ensures CurlyFree(Escape(s))
  {
    if s != [] {
      EscapeIsCurlyFree(s[..|s| - 1]);
    }
  }

  lemma {:induction false} LineIsCurlyFree(words: seq<Word>)
    requires forall i :: 0 <= i < |words| ==> WellFormed(words[i])
    ensures CurlyFree(TypedLine(words))
  {
    if words != [] {
      LineIsCurlyFree(words[..|words| - 1]);
      EscapeIsCurlyFree(words[|words| - 1].quoted);
    }
  }

  /** Typing words and splitting the line gives back their meanings, apart from empty ones. */
  lemma SplitUndoesTyping(words: seq<Word>)
    requires forall i :: 0 <= i < |words| ==> WellFormed(words[i])
    ensures Split(NormalizeQuotes(TypedLine(words))) == Meanings(words)
  {
    LineIsCurlyFree(words);
    if words != [] {
      LexLine(words);
    }
  }

  ghost predicate AllCurlyFree(tokens: seq<JsString>) {
    forall i :: 0 <= i < |tokens| ==> CurlyFree(tokens[i])
  }

  lemma {:induction false} LexKeepsCurlyFree(input: JsString)
    requires CurlyFree(input)
    ensures var st := LexFrom(CLEAN, input); AllCurlyFree(st.tokens) && CurlyFree(st.current)
  {
    if input != [] {
      LexKeepsCurlyFree(input[..|input| - 1]);
    }
  }

  /** No argument ever holds a curly quote, so a value with one does not survive being typed. */
  lemma TokensAreCurlyFree(rest: JsString)
    ensures AllCurlyFree(Split(NormalizeQuotes(rest)))
  {
    LexKeepsCurlyFree(NormalizeQuotes(rest));
  }

  /** Curly double quotes become the straight one, curly single quotes the apostrophe, and every
      other unit stays in place. */
  lemma QuotesBecomeStraight(input: JsString)
    ensures var r := NormalizeQuotes(input);
            |r| == |input|
            && forall i :: 0 <= i < |input| ==>
                 r[i] == if input[i] == 0x201C || input[i] == 0x201D then 34
                         else if input[i] == 0x2018 || input[i] == 0x2019 then 39
                         else input[i]
  {
  }

  /** Outside of apostrophes a backslash takes the next unit as it is, in double quotes or not. */
  lemma LexBackslash(st: Lexer, u: Unit)
    requires !st.inSingle && !st.escaped
    ensures LexFrom(st, [92, u]) == st.(current := st.current + [u])
  {
    assert [92, u][..1] == [92];
    LexOne(st, 92);
  }

  /** A backslash at the very end counts as if it were doubled. */
  lemma LastBackslashStays(input: JsString)
    requires !LexFrom(CLEAN, input).inSingle && !LexFrom(CLEAN, input).escaped
    ensures Split(input + [92]) == Split(input + [92, 92])
    ensures Split(input + [92]) != []
    ensures var tokens := Split(input + [92]); var last := tokens[|tokens| - 1]; last != [] && last[|last| - 1] == 92
  {
    var st := LexFrom(CLEAN, input);
    LexConcat(CLEAN, input, [92]);
    LexConcat(CLEAN, input, [92, 92]);
    LexOne(st, 92);
    LexBackslash(st, 92);
  }

  /** Outside of quotes any white space ends the current token. */
  lemma SpaceEndsToken(tokens: seq<JsString>, current: JsString, u: Unit)
    requires IsSpace(u)
    ensures LexFrom(Lexer(tokens, current, false, false, false), [u])
            == Lexer(if current == [] then tokens else tokens + [current], [], false, false, false)
  {
    LexOne(Lexer(tokens, current, false, false, false), u);
  }
}
