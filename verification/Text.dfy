/** Operations on Rust strings used by several modules. A `string` is a sequence of Unicode
    scalar values, which is what `str` holds. */
module Text {

  /** `char::is_whitespace`: the Unicode White_Space property. */
  predicate IsWhitespace(c: char) {
    var n := c as int;
    || 0x09 <= n <= 0x0D || n == 0x20 || n == 0x85 || n == 0xA0 || n == 0x1680
    || 0x2000 <= n <= 0x200A || n == 0x2028 || n == 0x2029 || n == 0x202F || n == 0x205F || n == 0x3000
  }

  function TrimStart(s: string): string {
    if s != "" && IsWhitespace(s[0]) then TrimStart(s[1..]) else s
  }

  function TrimEnd(s: string): string {
    if s != "" && IsWhitespace(s[|s| - 1]) then TrimEnd(s[..|s| - 1]) else s
  }

  function Trim(s: string): string {
    TrimEnd(TrimStart(s))
  }

  /** The first position of `c`, or the length when it does not occur. */
  function IndexOf(s: string, c: char): (i: nat)
    ensures i <= |s|
    ensures i < |s| ==> s[i] == c
    ensures forall k :: 0 <= k < i ==> s[k] != c
  {
    if s == "" || s[0] == c then 0 else 1 + IndexOf(s[1..], c)
  }

  lemma IndexIsFirst(s: string, c: char, i: nat)
    requires i < |s| && s[i] == c && forall k :: 0 <= k < i ==> s[k] != c
    ensures IndexOf(s, c) == i
  {
  }

  predicate Contains(s: string, part: string)
  {
    part <= s || (s != "" && Contains(s[1..], part))
  }

  /** `str::lines`: cut at line feeds, without a final empty line, dropping one carriage return
      in front of each line feed. */
  function Lines(s: string): seq<string> {
    if s == "" then []
    else if s[0] == '\n' then [""] + Lines(s[1..])
    else if s[0] == '\r' && |s| > 1 && s[1] == '\n' then [""] + Lines(s[2..])
    else Prepend(s[0], Lines(s[1..]))
  }

  function Prepend(c: char, lines: seq<string>): seq<string> {
    if lines == [] then [[c]] else [[c] + lines[0]] + lines[1..]
  }

  function StripReturn(s: string): string {
    if s != "" && s[|s| - 1] == '\r' then s[..|s| - 1] else s
  }

  predicate EndsWithNewline(s: string) {
    s != "" && s[|s| - 1] == '\n'
  }

  /** A line, its line feed, and what follows. */
  function Line(s: string, rest: string): string {
    s + "\n" + rest
  }

  lemma StripReturnCons(s: string)
    requires s != "" && (|s| > 1 || s[0] != '\r')
    ensures StripReturn(s) == [s[0]] + StripReturn(s[1..])
  {
    assert s == [s[0]] + s[1..];
  }

  lemma {:induction false} SingleLine(s: string, rest: string)
    requires '\n' !in s
    ensures Lines(Line(s, rest)) == [StripReturn(s)] + Lines(rest)
  {
    if s == "" {
      assert Line(s, rest)[1..] == rest;
    } else if |s| == 1 && s[0] == '\r' {
      assert Line(s, rest)[2..] == rest;
    } else {
      StripReturnCons(s);
      assert Line(s, rest)[1..] == Line(s[1..], rest);
      assert s[0] in s && (|s| > 1 ==> s[1] in s);
      SingleLine(s[1..], rest);
    }
  }

  lemma PrependConcat(c: char, x: seq<string>, y: seq<string>)
    requires x != []
    ensures Prepend(c, x + y) == Prepend(c, x) + y
  {
  }

  lemma {:induction false} LinesNonempty(s: string)
    requires s != ""
    ensures Lines(s) != []
  {
  }

  /** The first line is cut off the same way whatever follows the text. */
  lemma LinesUnfold(a: string, b: string)
    requires EndsWithNewline(a)
    ensures a[0] == '\n' ==> Lines(a + b) == [""] + Lines(a[1..] + b)
    ensures a[0] == '\r' && a[1] == '\n' ==> Lines(a + b) == [""] + Lines(a[2..] + b)
    ensures a[0] != '\n' && !(a[0] == '\r' && a[1] == '\n') ==> Lines(a + b) == Prepend(a[0], Lines(a[1..] + b))
  {
    assert (a + b)[1..] == a[1..] + b;
    if |a| > 1 {
      assert (a + b)[2..] == a[2..] + b;
    }
  }

  lemma {:induction false} LinesConcat(a: string, b: string)
    requires a == "" || EndsWithNewline(a)
    ensures Lines(a + b) == Lines(a) + Lines(b)
    decreases |a|
  {
    if a == "" {
      assert a + b == b;
    } else {
      LinesUnfold(a, b);
      var crlf := a[0] == '\r' && a[1] == '\n';
      var rest := a[if crlf then 2 else 1..];
      LinesConcat(rest, b);
      if a[0] != '\n' && !crlf {
        LinesNonempty(rest);
        PrependConcat(a[0], Lines(rest), Lines(b));
      }
    }
  }

  function TrimmedLines(s: string): seq<string> {
    TrimAll(Lines(s))
  }

  function TrimAll(lines: seq<string>): (r: seq<string>)
    ensures |r| == |lines| && forall i :: 0 <= i < |lines| ==> r[i] == Trim(lines[i])
  {
    if lines == [] then [] else [Trim(lines[0])] + TrimAll(lines[1..])
  }

  lemma TrimAllConcat(a: seq<string>, b: seq<string>)
    ensures TrimAll(a + b) == TrimAll(a) + TrimAll(b)
  {
  }

  lemma {:induction false} TrimStartOfEnd(s: string)
    requires s != "" && IsWhitespace(s[|s| - 1])
    ensures var t := TrimStart(s);
            t == "" || (t[|t| - 1] == s[|s| - 1] && TrimStart(s[..|s| - 1]) == t[..|t| - 1])
    ensures TrimStart(s) == "" ==> TrimStart(s[..|s| - 1]) == ""
  {
    if IsWhitespace(s[0]) {
      if |s| > 1 {
        TrimStartOfEnd(s[1..]);
        assert s[1..][..|s| - 2] == s[..|s| - 1][1..];
      }
    }
  }

  /** A trailing carriage return makes no difference once the line is trimmed. */
  lemma TrimIgnoresReturn(s: string)
    ensures Trim(StripReturn(s)) == Trim(s)
  {
    if s != "" && s[|s| - 1] == '\r' {
      TrimStartOfEnd(s);
    }
  }

  lemma {:induction false} WithoutNewlineIsOneLine(s: string)
    requires s != "" && '\n' !in s
    ensures Lines(s) == [s]
  {
    assert s == [s[0]] + s[1..];
    assert s[0] in s && (|s| > 1 ==> s[1] in s);
    if |s| > 1 {
      WithoutNewlineIsOneLine(s[1..]);
    } else {
      assert s == [s[0]] && s[1..] == "" && Lines(s) == Prepend(s[0], []);
    }
  }

  /** Where the last, unended line begins. */
  lemma LastLineStart(s: string) returns (i: nat)
    ensures i <= |s| && '\n' !in s[i..]
    ensures i == 0 || EndsWithNewline(s[..i])
  {
    i := |s|;
    while i > 0 && s[i - 1] != '\n'
      invariant 0 <= i <= |s| && '\n' !in s[i..]
    {
      i := i - 1;
    }
  }

  /** Ending the last line with a line feed does not change the trimmed lines. */
  lemma NewlineAtEndChangesNothing(s: string)
    requires s != "" && !EndsWithNewline(s)
    ensures TrimmedLines(s + "\n") == TrimmedLines(s)
  {
    var i := LastLineStart(s);
    var done, last := s[..i], s[i..];
    assert s == done + last && s + "\n" == done + Line(last, "");
    LinesConcat(done, last);
    LinesConcat(done, Line(last, ""));
    WithoutNewlineIsOneLine(last);
    SingleLine(last, "");
    TrimIgnoresReturn(last);
    TrimAllConcat(Lines(done), [last]);
    TrimAllConcat(Lines(done), [StripReturn(last)]);
  }

  lemma TrimmedLinesConcat(a: string, b: string)
    requires EndsWithNewline(a)
    ensures TrimmedLines(a + b) == TrimmedLines(a) + TrimmedLines(b)
  {
    LinesConcat(a, b);
    TrimAllConcat(Lines(a), Lines(b));
  }

  lemma TrimmedLine(s: string, rest: string)
    requires '\n' !in s
    ensures TrimmedLines(Line(s, rest)) == [Trim(s)] + TrimmedLines(rest)
  {
    SingleLine(s, rest);
    TrimIgnoresReturn(s);
    TrimAllConcat([StripReturn(s)], Lines(rest));
  }

  // ---------- what trimming keeps ----------

  lemma {:induction false} TrimStartCuts(s: string) returns (i: nat)
    ensures i <= |s| && TrimStart(s) == s[i..]
    ensures forall k :: 0 <= k < i ==> IsWhitespace(s[k])
    ensures i < |s| ==> !IsWhitespace(s[i])
  {
    if s != "" && IsWhitespace(s[0]) {
      var n := TrimStartCuts(s[1..]);
      i := n + 1;
      forall k | 0 <= k < i ensures IsWhitespace(s[k]) {
        assert k > 0 ==> s[k] == s[1..][k - 1];
      }
    } else {
      i := 0;
    }
  }

  lemma {:induction false} TrimEndCuts(s: string) returns (j: nat)
    ensures j <= |s| && TrimEnd(s) == s[..j]
    ensures forall k :: j <= k < |s| ==> IsWhitespace(s[k])
    ensures j > 0 ==> !IsWhitespace(s[j - 1])
  {
    if s != "" && IsWhitespace(s[|s| - 1]) {
      j := TrimEndCuts(s[..|s| - 1]);
    } else {
      j := |s|;
    }
  }

  /** `str::trim` keeps what is between the first and the last character that is not white space. */
  lemma TrimCuts(s: string) returns (i: nat, j: nat)
    ensures i <= j <= |s| && Trim(s) == s[i..j]
    ensures forall k :: 0 <= k < i || j <= k < |s| ==> IsWhitespace(s[k])
    ensures i < j ==> !IsWhitespace(s[i]) && !IsWhitespace(s[j - 1])
  {
    i := TrimStartCuts(s);
    var n := TrimEndCuts(s[i..]);
    j := i + n;
    assert forall k :: 0 <= k < |s| - i ==> s[i..][k] == s[i + k];
    assert forall k :: j <= k < |s| ==> s[k] == s[i..][k - i];
  }

  // ---------- cancelling common prefixes ----------

  lemma AppendCancels(a: string, x: string, y: string)
    requires a + x == a + y
    ensures x == y
  {
    assert (a + x)[|a|..] == x && (a + y)[|a|..] == y;
  }

  lemma Assoc(a: string, b: string, c: string)
    ensures (a + b) + c == a + (b + c)
    ensures a != "" ==> (a + (b + c))[0] == a[0]
  {
  }

  lemma RegroupFour(a: string, p: string, q: string, x: string)
    ensures a + (p + q) + x == a + (p + (q + x))
  {
    assert a + (p + q) + x == a + p + q + x == a + (p + (q + x));
  }

  lemma RegroupCancels(a: string, p: string, q: string, x: string, p': string, q': string, y: string)
    requires a + (p + q) + x == a + (p' + q') + y
    ensures p + (q + x) == p' + (q' + y)
  {
    RegroupFour(a, p, q, x);
    RegroupFour(a, p', q', y);
    AppendCancels(a, p + (q + x), p' + (q' + y));
  }
}
