/** Placeholders in custom prompts: src/utils/customPrompts.ts. */
module Placeholders {
  import opened Wrappers
  import opened ThreadItems

  const DOLLAR: Unit := 36

  /** ARGUMENTS */
  const ARGUMENTS: JsString := [65, 82, 71, 85, 77, 69, 78, 84, 83]

  type Inputs = map<JsString, JsString>

  predicate IsUpper(u: Unit) {
    65 <= u <= 90
  }

  predicate IsDigit(u: Unit) {
    48 <= u <= 57
  }

  predicate IsNameUnit(u: Unit) {
    IsUpper(u) || IsDigit(u) || u == 95
  }

  // ---------- named placeholders ----------

  /** How many name units the text starts with. */
  function NameLength(c: JsString): (n: nat)
    ensures n <= |c| && forall k :: 0 <= k < n ==> IsNameUnit(c[k])
  {
    if c != [] && IsNameUnit(c[0]) then 1 + NameLength(c[1..]) else 0
  }

  /** The length of the match of `\$[A-Z][A-Z0-9_]*` at the start, or zero. */
  function MatchLength(c: JsString): (n: nat)
    ensures n <= |c|
    ensures n > 0 ==> n > 1 && c[0] == DOLLAR && forall k :: 0 < k < n ==> IsNameUnit(c[k])
  {
    if |c| > 1 && c[0] == DOLLAR && IsUpper(c[1]) then 1 + NameLength(c[1..]) else 0
  }

  /** How far the scan moves: over a match, or over one unit. */
  function Advance(c: JsString): (n: nat)
    requires c != []
    ensures 0 < n <= |c|
  {
    if MatchLength(c) > 0 then MatchLength(c) else 1
  }

  /** What stands for these units; `after` tells that a dollar sign comes before. */
  function Piece(c: JsString, after: bool, inputs: Inputs): JsString
    requires c != []
  {
    var piece := c[..Advance(c)];
    if MatchLength(c) > 0 && !after && piece[1..] in inputs then inputs[piece[1..]] else piece
  }

  function EndsInDollar(c: JsString, otherwise: bool): bool {
    if c == [] then otherwise else c[|c| - 1] == DOLLAR
  }

  /** `content.replace(PROMPT_ARG_REGEX, ..)` on the rest of the content. */
  function ExpandFrom(c: JsString, after: bool, inputs: Inputs): JsString {
    if c == [] then []
    else Piece(c, after, inputs) + ExpandFrom(c[Advance(c)..], c[Advance(c) - 1] == DOLLAR, inputs)
  }

  function ExpandNamed(c: JsString, inputs: Inputs): JsString {
    ExpandFrom(c, false, inputs)
  }

  predicate IsName(name: JsString) {
    name != [] && IsUpper(name[0]) && forall k :: 0 <= k < |name| ==> IsNameUnit(name[k])
  }

  lemma {:induction false} NameLengthIs(c: JsString, n: nat)
    requires n <= |c| && (forall k :: 0 <= k < n ==> IsNameUnit(c[k])) && (n < |c| ==> !IsNameUnit(c[n]))
    ensures NameLength(c) == n
  {
    if n > 0 {
      NameLengthIs(c[1..], n - 1);
    }
  }

  lemma {:induction false} NameLengthInPrefix(a: JsString, t: JsString)
    requires t != [] && !IsNameUnit(t[0])
    ensures NameLength(a + t) == NameLength(a)
  {
    if a == [] {
      assert a + t == t;
    } else {
      assert (a + t)[1..] == a[1..] + t;
      NameLengthInPrefix(a[1..], t);
    }
  }

  /** A match does not see what follows it, if that is no name unit. */
  lemma PieceInPrefix(a: JsString, t: JsString, after: bool, inputs: Inputs)
    requires a != [] && t != [] && t[0] == DOLLAR
    ensures Advance(a + t) == Advance(a) && Piece(a + t, after, inputs) == Piece(a, after, inputs)
  {
    var c := a + t;
    assert c[1..] == a[1..] + t;
    NameLengthInPrefix(a[1..], t);
    assert |a| == 1 ==> c[1] == DOLLAR;
    assert MatchLength(c) == MatchLength(a);
    assert c[..Advance(a)] == a[..Advance(a)];
  }

  lemma ExpandUnfolds(c: JsString, after: bool, inputs: Inputs, n: nat, rest: JsString)
    requires c != [] && n == Advance(c) && rest == c[n..]
    ensures ExpandFrom(c, after, inputs) == Piece(c, after, inputs) + ExpandFrom(rest, c[n - 1] == DOLLAR, inputs)
  {
  }

  lemma ExpandPrefixStep(a: JsString, t: JsString, after: bool, inputs: Inputs, tail: JsString)
    requires a != [] && t != [] && t[0] == DOLLAR
    requires var n := Advance(a);
             var after' := a[n - 1] == DOLLAR;
             ExpandFrom(a[n..] + t, after', inputs) == ExpandFrom(a[n..], after', inputs) + tail
    ensures ExpandFrom(a + t, after, inputs) == ExpandFrom(a, after, inputs) + tail
  {
    var n := Advance(a);
    PieceInPrefix(a, t, after, inputs);
    assert (a + t)[n..] == a[n..] + t;
    ExpandUnfolds(a + t, after, inputs, n, a[n..] + t);
    ExpandUnfolds(a, after, inputs, n, a[n..]);
    Regroup(Piece(a, after, inputs), ExpandFrom(a[n..], a[n - 1] == DOLLAR, inputs), tail);
  }

  lemma EndOfRest(a: JsString, n: nat, otherwise: bool)
    requires 0 < n <= |a|
    ensures EndsInDollar(a[n..], a[n - 1] == DOLLAR) == EndsInDollar(a, otherwise)
  {
  }

  lemma {:induction false} ExpandPrefix(a: JsString, t: JsString, after: bool, inputs: Inputs)
    requires t != [] && t[0] == DOLLAR
    ensures ExpandFrom(a + t, after, inputs)
            == ExpandFrom(a, after, inputs) + ExpandFrom(t, EndsInDollar(a, after), inputs)
  {
    if a == [] {
      assert a + t == t;
    } else {
      var n := Advance(a);
      var after' := a[n - 1] == DOLLAR;
      ExpandPrefix(a[n..], t, after', inputs);
      EndOfRest(a, n, after);
      ExpandPrefixStep(a, t, after, inputs, ExpandFrom(t, EndsInDollar(a, after), inputs));
    }
  }

  lemma PlaceholderPiece(name: JsString, b: JsString, inputs: Inputs)
    requires IsName(name) && (b == [] || !IsNameUnit(b[0]))
    ensures var t := [DOLLAR] + name + b;
            && Advance(t) == 1 + |name| && t[Advance(t)..] == b && t[Advance(t) - 1] != DOLLAR
            && Piece(t, false, inputs) == if name in inputs then inputs[name] else [DOLLAR] + name
  {
    var t, n := [DOLLAR] + name + b, |name|;
    assert t[1..] == name + b;
    NameLengthIs(name + b, n);
    assert t[..1 + n] == [DOLLAR] + name;
    assert ([DOLLAR] + name)[1..] == name;
    assert t[n] == name[n - 1];
  }

  /** Around a placeholder the content falls apart: it becomes its value, verbatim, and the two
      sides are expanded on their own, so no value is ever expanded again. */
  lemma ExpandAroundPlaceholder(a: JsString, name: JsString, b: JsString, inputs: Inputs)
    requires IsName(name)
    requires a == [] || a[|a| - 1] != DOLLAR
    requires b == [] || !IsNameUnit(b[0])
    ensures ExpandNamed(a + ([DOLLAR] + name + b), inputs)
            == ExpandNamed(a, inputs)
               + ((if name in inputs then inputs[name] else [DOLLAR] + name) + ExpandNamed(b, inputs))
  {
    ExpandPrefix(a, [DOLLAR] + name + b, false, inputs);
    PlaceholderPiece(name, b, inputs);
  }

  /** The end of the match at `i`, or `i` when there is none. */
  function MatchEnd(c: JsString, i: nat): (e: nat)
    requires i < |c|
    ensures i <= e <= |c|
    ensures e > i ==> c[i] == DOLLAR && i + 1 < e && forall k :: i < k < e ==> IsNameUnit(c[k])
  {
    i + MatchLength(c[i..])
  }

  predicate AfterDollar(c: JsString, i: nat)
    requires i <= |c|
  {
    i > 0 && c[i - 1] == DOLLAR
  }

  /** An argument placeholder with this name starts at `i`. */
  predicate PlaceholderAt(c: JsString, i: nat, name: JsString) {
    i < |c| && MatchEnd(c, i) > i && !AfterDollar(c, i) && c[i + 1..MatchEnd(c, i)] == name
  }

  lemma PieceStays(c: JsString, i: nat, inputs: Inputs)
    requires i < |c| && forall name :: PlaceholderAt(c, i, name) ==> name !in inputs
    ensures Piece(c[i..], AfterDollar(c, i), inputs) == c[i..][..Advance(c[i..])]
  {
    var e := MatchEnd(c, i);
    if e > i && !AfterDollar(c, i) {
      assert c[i..][..e - i][1..] == c[i + 1..e];
      assert PlaceholderAt(c, i, c[i + 1..e]);
    }
  }

  lemma NothingToExpandStep(rest: JsString, after: bool, inputs: Inputs)
    requires rest != []
    requires var n := Advance(rest);
             && Piece(rest, after, inputs) == rest[..n]
             && ExpandFrom(rest[n..], rest[n - 1] == DOLLAR, inputs) == rest[n..]
    ensures ExpandFrom(rest, after, inputs) == rest
  {
  }

  lemma NothingToExpandAt(c: JsString, i: nat, next: nat, inputs: Inputs)
    requires i < |c| && next == i + Advance(c[i..])
    requires Piece(c[i..], AfterDollar(c, i), inputs) == c[i..][..Advance(c[i..])]
    requires ExpandFrom(c[next..], AfterDollar(c, next), inputs) == c[next..]
    ensures ExpandFrom(c[i..], AfterDollar(c, i), inputs) == c[i..]
  {
    assert c[i..][next - i..] == c[next..];
    NothingToExpandStep(c[i..], AfterDollar(c, i), inputs);
  }

  lemma {:induction false} NothingToExpandFrom(c: JsString, i: nat, inputs: Inputs)
    requires i <= |c|
    requires forall j: nat, name :: PlaceholderAt(c, j, name) ==> name !in inputs
    ensures ExpandFrom(c[i..], AfterDollar(c, i), inputs) == c[i..]
    decreases |c| - i
  {
    if i < |c| {
      var next := i + Advance(c[i..]);
      PieceStays(c, i, inputs);
      NothingToExpandFrom(c, next, inputs);
      NothingToExpandAt(c, i, next, inputs);
    }
  }

  /** Everything else stays: without a placeholder whose name is given, the content is unchanged. */
  lemma NothingToExpand(c: JsString, inputs: Inputs)
    requires forall i: nat, name :: PlaceholderAt(c, i, name) ==> name !in inputs
    ensures ExpandNamed(c, inputs) == c
  {
    NothingToExpandFrom(c, 0, inputs);
    assert c[0..] == c;
  }

  // ---------- the names ----------

  function Collected(c: JsString, i: nat, e: nat, names: seq<JsString>): seq<JsString>
    requires i < e <= |c|
  {
    var name := c[i + 1..e];
    if AfterDollar(c, i) || name == ARGUMENTS || name in names then names else names + [name]
  }

  function NamesFrom(c: JsString, i: nat, names: seq<JsString>): seq<JsString>
    requires i <= |c|
    decreases |c| - i
  {
    if i == |c| then names
    else
      var e := MatchEnd(c, i);
      if e > i then NamesFrom(c, e, Collected(c, i, e, names)) else NamesFrom(c, i + 1, names)
  }

  function ArgumentNames(c: JsString): seq<JsString> {
    NamesFrom(c, 0, [])
  }

  method PromptArgumentNames(content: JsString) returns (names: seq<JsString>)
    ensures names == ArgumentNames(content)
  {
    names := [];
    var seen: set<JsString>, index := {}, 0;
    while index < |content|
      invariant index <= |content|
      invariant NamesFrom(content, index, names) == ArgumentNames(content)
      invariant forall name :: name in seen <==> name in names
    {
      var start, end := index, MatchEnd(content, index);
      if end == start {
        index := index + 1;
        continue;
      }
      index := end;
      if start > 0 && content[start - 1] == DOLLAR {
        continue;
      }
      var name := content[start + 1..end];
      if name == ARGUMENTS {
        continue;
      }
      if name !in seen {
        seen := seen + {name};
        names := names + [name];
      }
    }
  }

  lemma {:induction false} NamesFromIff(c: JsString, i: nat, names: seq<JsString>, name: JsString)
    requires i <= |c|
    ensures name in NamesFrom(c, i, names) <==>
            name in names || (name != ARGUMENTS && exists j: nat :: i <= j && PlaceholderAt(c, j, name))
    decreases |c| - i
  {
    if i < |c| {
      var e := MatchEnd(c, i);
      var next := if e > i then e else i + 1;
      var more := if e > i then Collected(c, i, e, names) else names;
      NamesFromIff(c, next, more, name);
      assert name in more <==> name in names || (name != ARGUMENTS && PlaceholderAt(c, i, name));
      assert forall j: nat :: i < j < next ==> !PlaceholderAt(c, j, name);
    }
  }

  /** The required names are exactly the names of the argument placeholders, except ARGUMENTS. */
  lemma ArgumentNamesIff(c: JsString, name: JsString)
    ensures name in ArgumentNames(c) <==> name != ARGUMENTS && exists j: nat :: PlaceholderAt(c, j, name)
  {
    NamesFromIff(c, 0, [], name);
  }

  lemma {:induction false} NamesAreDistinct(c: JsString, i: nat, names: seq<JsString>)
    requires i <= |c| && Distinct(names)
    ensures Distinct(NamesFrom(c, i, names))
    decreases |c| - i
  {
    if i < |c| {
      var e := MatchEnd(c, i);
      if e > i {
        NamesAreDistinct(c, e, Collected(c, i, e, names));
      } else {
        NamesAreDistinct(c, i + 1, names);
      }
    }
  }

  // ---------- numbered placeholders ----------

  function JoinWithSpaces(args: seq<JsString>): JsString {
    if args == [] then []
    else if |args| == 1 then args[0]
    else JoinWithSpaces(args[..|args| - 1]) + [32] + args[|args| - 1]
  }

  /** `$1` to `$9`; an argument that is not there reads as empty. */
  function Argument(digit: Unit, args: seq<JsString>): JsString
    requires 49 <= digit <= 57
  {
    if digit - 49 < |args| then args[digit - 49] else []
  }

  /** How many units the rule at the start of the text consumes. */
  function NumericAdvance(c: JsString): (n: nat)
    requires c != []
    ensures 0 < n <= |c|
  {
    if c[0] != DOLLAR || |c| == 1 then 1
    else if c[1] == DOLLAR || 49 <= c[1] <= 57 then 2
    else if ARGUMENTS <= c[1..] then 1 + |ARGUMENTS|
    else 1
  }

  function NumericPiece(c: JsString, args: seq<JsString>): JsString
    requires c != []
  {
    if c[0] != DOLLAR || |c| == 1 then [c[0]]
    else if c[1] == DOLLAR then [DOLLAR, DOLLAR]
    else if 49 <= c[1] <= 57 then Argument(c[1], args)
    else if ARGUMENTS <= c[1..] then JoinWithSpaces(args)
    else [DOLLAR]
  }

  function ExpandNumeric(c: JsString, args: seq<JsString>): JsString {
    if c == [] then [] else NumericPiece(c, args) + ExpandNumeric(c[NumericAdvance(c)..], args)
  }

  /** `content.indexOf("$", from)`, or the length. */
  function NextDollar(c: JsString, from: nat): (i: nat)
    requires from <= |c|
    ensures from <= i <= |c| && DOLLAR !in c[from..i]
    ensures i < |c| ==> c[i] == DOLLAR
    decreases |c| - from
  {
    if from == |c| || c[from] == DOLLAR then from else NextDollar(c, from + 1)
  }

  lemma {:induction false} SkipPlain(plain: JsString, rest: JsString, args: seq<JsString>)
    requires DOLLAR !in plain
    ensures ExpandNumeric(plain + rest, args) == plain + ExpandNumeric(rest, args)
  {
    if plain == [] {
      assert plain + rest == rest;
    } else {
      assert plain[0] in plain;
      assert (plain + rest)[1..] == plain[1..] + rest;
      SkipPlain(plain[1..], rest, args);
    }
  }

  /** One rule applied at a dollar sign, as the loop of `expandNumericPlaceholders` does. */
  method ExpandRule(rest: JsString, args: seq<JsString>, cached: Option<JsString>)
    returns (piece: JsString, consumed: nat, cachedJoined: Option<JsString>)
    requires rest != [] && rest[0] == DOLLAR
    requires cached.Some? ==> cached.value == JoinWithSpaces(args)
    ensures piece == NumericPiece(rest, args) && consumed == NumericAdvance(rest)
    ensures cachedJoined.Some? ==> cachedJoined.value == JoinWithSpaces(args)
  {
    cachedJoined := cached;
    if |rest| >= 2 && rest[1] == DOLLAR {
      return [DOLLAR, DOLLAR], 2, cached;
    }
    if |rest| >= 2 && 49 <= rest[1] <= 57 {
      return Argument(rest[1], args), 2, cached;
    }
    if |rest| > 1 && ARGUMENTS <= rest[1..] {
      piece := [];
      if args != [] {
        if cachedJoined.None? || cachedJoined.value == [] {
          cachedJoined := Some(JoinWithSpaces(args));
        }
        piece := cachedJoined.value;
      }
      return piece, 1 + |ARGUMENTS|, cachedJoined;
    }
    return [DOLLAR], 1, cached;
  }

  /** What is printed and what is still to come make up the whole expansion. */
  ghost predicate Upto(all: JsString, args: seq<JsString>, output: JsString, rest: JsString) {
    output + ExpandNumeric(rest, args) == all
  }

  lemma AfterPlain(all: JsString, content: JsString, args: seq<JsString>, output: JsString, index: nat, next: nat)
    requires index <= next <= |content| && DOLLAR !in content[index..next]
    requires Upto(all, args, output, content[index..])
    ensures Upto(all, args, output + content[index..next], content[next..])
  {
    var plain, rest := content[index..next], content[next..];
    assert content[index..] == plain + rest;
    SkipPlain(plain, rest, args);
    Regroup(output, plain, ExpandNumeric(rest, args));
  }

  lemma AfterRule(all: JsString, content: JsString, args: seq<JsString>, output: JsString, next: nat,
                  piece: JsString, n: nat)
    requires next < |content| && Upto(all, args, output, content[next..])
    requires piece == NumericPiece(content[next..], args) && n == NumericAdvance(content[next..])
    ensures Upto(all, args, output + piece, content[next + n..])
  {
    assert content[next..][n..] == content[next + n..];
    Regroup(output, piece, ExpandNumeric(content[next + n..], args));
  }

  /** One round of the loop of `expandNumericPlaceholders`, from `index` to past the next rule. */
  method ExpandRound(ghost all: JsString, content: JsString, index: nat, args: seq<JsString>, output: JsString,
                     cached: Option<JsString>)
    returns (longer: JsString, after: nat, cachedJoined: Option<JsString>)
    requires index < |content| && Upto(all, args, output, content[index..])
    requires cached.Some? ==> cached.value == JoinWithSpaces(args)
    ensures index < after <= |content| && Upto(all, args, longer, content[after..])
    ensures cachedJoined.Some? ==> cachedJoined.value == JoinWithSpaces(args)
  {
    var next := NextDollar(content, index);
    AfterPlain(all, content, args, output, index, next);
    if next == |content| {
      return output + content[index..next], next, cached;
    }
    longer, after, cachedJoined := ExpandAt(all, content, next, args, output + content[index..next], cached);
  }

  /** The rest of the round, at a dollar sign. */
  method ExpandAt(ghost all: JsString, content: JsString, next: nat, args: seq<JsString>, output: JsString,
                  cached: Option<JsString>)
    returns (longer: JsString, after: nat, cachedJoined: Option<JsString>)
    requires next < |content| && content[next] == DOLLAR && Upto(all, args, output, content[next..])
    requires cached.Some? ==> cached.value == JoinWithSpaces(args)
    ensures next < after <= |content| && Upto(all, args, longer, content[after..])
    ensures cachedJoined.Some? ==> cachedJoined.value == JoinWithSpaces(args)
  {
    var piece, consumed;
    piece, consumed, cachedJoined := ExpandRule(content[next..], args, cached);
    AfterRule(all, content, args, output, next, piece, consumed);
    return output + piece, next + consumed, cachedJoined;
  }

  lemma UptoEnds(content: JsString, args: seq<JsString>)
    ensures Upto(ExpandNumeric(content, args), args, [], content)
    ensures forall all, output :: Upto(all, args, output, []) ==> output == all
  {
  }

  method ExpandNumericPlaceholders(content: JsString, args: seq<JsString>) returns (output: JsString)
    ensures output == ExpandNumeric(content, args)
  {
    output := [];
    var index := 0;
    var cachedJoined: Option<JsString> := None;
    ghost var all := ExpandNumeric(content, args);
    UptoEnds(content, args);
    assert content[0..] == content;
    while index < |content|
      invariant index <= |content| && Upto(all, args, output, content[index..])
      invariant cachedJoined.Some? ==> cachedJoined.value == JoinWithSpaces(args)
    {
      output, index, cachedJoined := ExpandRound(all, content, index, args, output, cachedJoined);
    }
  }

  lemma NumericPieceInPrefix(a: JsString, t: JsString, args: seq<JsString>)
    requires a != [] && a[|a| - 1] != DOLLAR && t != [] && t[0] == DOLLAR
    ensures NumericAdvance(a + t) == NumericAdvance(a) && NumericPiece(a + t, args) == NumericPiece(a, args)
  {
    var c := a + t;
    assert c[1..] == a[1..] + t;
    NoneIsPrefix(ARGUMENTS, a[1..], t);
  }

  lemma NoneIsPrefix(word: JsString, a: JsString, t: JsString)
    requires t != [] && t[0] !in word
    ensures word <= a + t <==> word <= a
  {
    var c := a + t;
    if |word| <= |a| {
      assert c[..|word|] == a[..|word|];
    } else {
      assert c[|a|] == t[0] && word[|a|] in word;
    }
  }

  /** Numbered expansion falls apart at every dollar sign that does not follow another one. */
  lemma {:induction false} NumericSplits(a: JsString, t: JsString, args: seq<JsString>)
    requires t != [] && t[0] == DOLLAR && (a == [] || a[|a| - 1] != DOLLAR)
    ensures ExpandNumeric(a + t, args) == ExpandNumeric(a, args) + ExpandNumeric(t, args)
  {
    if a == [] {
      assert a + t == t;
    } else {
      var n := NumericAdvance(a);
      NumericPieceInPrefix(a, t, args);
      assert (a + t)[n..] == a[n..] + t;
      NumericSplits(a[n..], t, args);
      Regroup(NumericPiece(a, args), ExpandNumeric(a[n..], args), ExpandNumeric(t, args));
    }
  }

  /** A numbered placeholder becomes its argument, verbatim; the sides are expanded on their own. */
  lemma ExpandAroundNumber(a: JsString, digit: Unit, b: JsString, args: seq<JsString>)
    requires 49 <= digit <= 57 && (a == [] || a[|a| - 1] != DOLLAR)
    ensures ExpandNumeric(a + ([DOLLAR, digit] + b), args)
            == ExpandNumeric(a, args) + (Argument(digit, args) + ExpandNumeric(b, args))
  {
    var t := [DOLLAR, digit] + b;
    NumericSplits(a, t, args);
    assert t[2..] == b;
  }

  lemma ArgumentsPiece(b: JsString, args: seq<JsString>)
    ensures var t := [DOLLAR] + (ARGUMENTS + b);
            NumericAdvance(t) == 10 && NumericPiece(t, args) == JoinWithSpaces(args) && t[10..] == b
  {
    var t := [DOLLAR] + (ARGUMENTS + b);
    assert t[1..] == ARGUMENTS + b;
    assert t[1] == ARGUMENTS[0];
  }

  /** As for `ExpandAroundNumber`: all arguments, joined, in the place of `$ARGUMENTS`. */
  lemma ExpandAroundArguments(a: JsString, b: JsString, args: seq<JsString>)
    requires a == [] || a[|a| - 1] != DOLLAR
    ensures ExpandNumeric(a + ([DOLLAR] + (ARGUMENTS + b)), args)
            == ExpandNumeric(a, args) + (JoinWithSpaces(args) + ExpandNumeric(b, args))
  {
    NumericSplits(a, [DOLLAR] + (ARGUMENTS + b), args);
    ArgumentsPiece(b, args);
  }
}
