/** Which parts of a prompt are placeholders, in terms of its units. */
module PlaceholderReading {
  import opened Wrappers
  import opened ThreadItems
  import opened Placeholders

  /** A capital letter, a digit or an underscore. */
  predicate NameUnit(u: Unit) {
    65 <= u <= 90 || 48 <= u <= 57 || u == 95
  }

  /** A capital letter followed by name units. */
  ghost predicate IsPlaceholderName(name: JsString) {
    name != [] && 65 <= name[0] <= 90 && forall k :: 0 <= k < |name| ==> NameUnit(name[k])
  }

  /** A dollar sign at `i` that does not follow another one, and the longest name after it. */
  ghost predicate StandsAt(c: JsString, i: nat, name: JsString) {
    && i + 1 + |name| <= |c| && c[i] == 36 && (i > 0 ==> c[i - 1] != 36)
    && IsPlaceholderName(name) && c[i + 1..i + 1 + |name|] == name
    && (i + 1 + |name| < |c| ==> !NameUnit(c[i + 1 + |name|]))
  }

  lemma {:induction false} NameEnds(c: JsString)
    ensures NameLength(c) < |c| ==> !IsNameUnit(c[NameLength(c)])
  {
    if c != [] && IsNameUnit(c[0]) {
      NameEnds(c[1..]);
    }
  }

  lemma StandingIsMatched(c: JsString, i: nat, name: JsString)
    requires StandsAt(c, i, name)
    ensures PlaceholderAt(c, i, name)
  {
    var rest := c[i..];
    var tail := c[i + 1..];
    assert rest[1..] == tail && rest[0] == c[i] && rest[1] == c[i + 1];
    assert c[i + 1] == name[0] by { assert c[i + 1..i + 1 + |name|][0] == c[i + 1]; }
    forall k | 0 <= k < |name| ensures IsNameUnit(tail[k]) {
      assert c[i + 1..i + 1 + |name|][k] == name[k];
    }
    NameLengthIs(tail, |name|);
    assert MatchLength(rest) == 1 + |name|;
  }

  lemma MatchedIsStanding(c: JsString, i: nat, name: JsString)
    requires PlaceholderAt(c, i, name)
    ensures StandsAt(c, i, name)
  {
    var rest, tail := c[i..], c[i + 1..];
    assert rest[1..] == tail;
    NameEnds(tail);
    assert rest[0] == c[i] && rest[1] == c[i + 1];
  }

  /** The placeholders found are exactly those that stand in the content. */
  lemma PlaceholderIff(c: JsString, i: nat, name: JsString)
    ensures PlaceholderAt(c, i, name) <==> StandsAt(c, i, name)
  {
    if StandsAt(c, i, name) {
      StandingIsMatched(c, i, name);
    }
    if PlaceholderAt(c, i, name) {
      MatchedIsStanding(c, i, name);
    }
  }

  lemma CutAt(c: JsString, i: nat, j: nat)
    requires i < j <= |c|
    ensures c == c[..i] + ([c[i]] + c[i + 1..j] + c[j..])
  {
  }

  /** A placeholder becomes its value, and what is around it is expanded on its own. */
  lemma PlaceholderIsReplaced(c: JsString, i: nat, name: JsString, inputs: Inputs)
    requires StandsAt(c, i, name)
    ensures ExpandNamed(c, inputs)
            == ExpandNamed(c[..i], inputs)
               + ((if name in inputs then inputs[name] else [36] + name)
                  + ExpandNamed(c[i + 1 + |name|..], inputs))
  {
    var a, b := c[..i], c[i + 1 + |name|..];
    CutAt(c, i, i + 1 + |name|);
    assert c == a + ([36] + name + b);
    ExpandAroundPlaceholder(a, name, b, inputs);
  }

  lemma LiteralPiece(name: JsString, b: JsString, inputs: Inputs)
    requires IsPlaceholderName(name) && (b != [] ==> !NameUnit(b[0]))
    ensures ExpandFrom([36] + name + b, true, inputs) == [36] + name + ExpandNamed(b, inputs)
  {
    PlaceholderPiece(name, b, inputs);
    var t := [DOLLAR] + name + b;
    assert t[..1 + |name|] == [36] + name;
    ExpandUnfolds(t, true, inputs, 1 + |name|, b);
  }

  /** After another dollar sign a name is left as it is. */
  lemma EscapedPlaceholderStays(a: JsString, name: JsString, b: JsString, inputs: Inputs)
    requires a != [] && a[|a| - 1] == 36
    requires IsPlaceholderName(name) && (b != [] ==> !NameUnit(b[0]))
    ensures ExpandNamed(a + ([36] + name + b), inputs)
            == ExpandNamed(a, inputs) + ([36] + name + ExpandNamed(b, inputs))
  {
    ExpandPrefix(a, [36] + name + b, false, inputs);
    LiteralPiece(name, b, inputs);
  }

  // ---------- the order of the names ----------

  /** Whether a required name stands at a position. */
  type Standing = (nat, JsString) -> bool

  function RequiredIn(c: JsString): Standing {
    (i: nat, name: JsString) => PlaceholderAt(c, i, name) && name != [65, 82, 71, 85, 77, 69, 78, 84, 83]
  }

  ghost predicate IsFirst(at: Standing, i: nat, name: JsString) {
    at(i, name) && forall j: nat :: j < i ==> !at(j, name)
  }

  /** The names that stand before `end`, each once, by ascending first positions. */
  ghost predicate FirstPositions(at: Standing, positions: seq<nat>, names: seq<JsString>, end: nat) {
    && |positions| == |names|
    && (forall n :: 0 <= n < |names| ==> positions[n] < end && IsFirst(at, positions[n], names[n]))
    && (forall m, n :: 0 <= m < n < |names| ==> positions[m] < positions[n])
    && (forall j: nat, name :: j < end && at(j, name) ==> name in names)
  }

  lemma NoNewName(at: Standing, positions: seq<nat>, names: seq<JsString>, end: nat, next: nat)
    requires end <= next && FirstPositions(at, positions, names, end)
    requires forall j: nat, name :: end <= j < next && at(j, name) ==> name in names
    ensures FirstPositions(at, positions, names, next)
  {
  }

  lemma NewName(at: Standing, positions: seq<nat>, names: seq<JsString>, end: nat, next: nat, new_: JsString)
    requires end < next && FirstPositions(at, positions, names, end)
    requires at(end, new_) && new_ !in names
    requires forall j: nat, name :: end <= j < next && at(j, name) ==> name == new_
    ensures FirstPositions(at, positions + [end], names + [new_], next)
  {
    assert IsFirst(at, end, new_);
  }

  lemma NoneWithin(c: JsString, i: nat, j: nat, name: JsString)
    requires i < j < |c| && j < MatchEnd(c, i)
    ensures !PlaceholderAt(c, j, name)
  {
  }

  /** What one match of the scan, or one unit without a match, contains. */
  lemma RequiredUpTo(c: JsString, i: nat, next: nat)
    requires i < |c| && next == if MatchEnd(c, i) > i then MatchEnd(c, i) else i + 1
    ensures forall j: nat, name :: i <= j < next && RequiredIn(c)(j, name) ==> j == i && PlaceholderAt(c, i, name)
  {
    forall j: nat, name | i < j < next ensures !PlaceholderAt(c, j, name) {
      NoneWithin(c, i, j, name);
    }
  }

  lemma NextPositions(c: JsString, i: nat, positions: seq<nat>, names: seq<JsString>, more: seq<JsString>, next: nat)
    returns (longer: seq<nat>)
    requires i < |c| && FirstPositions(RequiredIn(c), positions, names, i)
    requires next == if MatchEnd(c, i) > i then MatchEnd(c, i) else i + 1
    requires more == if MatchEnd(c, i) > i then Collected(c, i, MatchEnd(c, i), names) else names
    ensures FirstPositions(RequiredIn(c), longer, more, next)
  {
    RequiredUpTo(c, i, next);
    if more == names {
      longer := positions;
      NoNewName(RequiredIn(c), positions, names, i, next);
    } else {
      longer := positions + [i];
      NewName(RequiredIn(c), positions, names, i, next, c[i + 1..MatchEnd(c, i)]);
    }
  }

  lemma {:induction false} NamesFromPositions(c: JsString, i: nat, positions: seq<nat>, names: seq<JsString>)
    returns (all: seq<nat>)
    requires i <= |c| && FirstPositions(RequiredIn(c), positions, names, i)
    ensures FirstPositions(RequiredIn(c), all, NamesFrom(c, i, names), |c|)
    decreases |c| - i
  {
    if i == |c| {
      all := positions;
    } else {
      var e := MatchEnd(c, i);
      var next, more := if e > i then e else i + 1, if e > i then Collected(c, i, e, names) else names;
      var longer := NextPositions(c, i, positions, names, more, next);
      all := NamesFromPositions(c, next, longer, more);
    }
  }

  /** The required names are listed in the order in which they first occur. */
  lemma NamesInOrder(c: JsString) returns (positions: seq<nat>)
    ensures FirstPositions(RequiredIn(c), positions, ArgumentNames(c), |c|)
  {
    positions := NamesFromPositions(c, 0, [], []);
  }

  // ---------- numbered placeholders ----------

  lemma NumericUnfolds(t: JsString, n: nat, piece: JsString, rest: JsString, args: seq<JsString>)
    requires t != [] && n == NumericAdvance(t) && piece == NumericPiece(t, args) && rest == t[n..]
    ensures ExpandNumeric(t, args) == piece + ExpandNumeric(rest, args)
  {
  }

  /** Two dollar signs stay two, and a dollar sign that starts no placeholder stays. */
  lemma DollarsStay(a: JsString, b: JsString, args: seq<JsString>)
    requires a == [] || a[|a| - 1] != 36
    ensures ExpandNumeric(a + ([36, 36] + b), args) == ExpandNumeric(a, args) + ([36, 36] + ExpandNumeric(b, args))
    ensures (b != [] ==> b[0] != 36 && !(49 <= b[0] <= 57)) && !([65, 82, 71, 85, 77, 69, 78, 84, 83] <= b)
            ==> ExpandNumeric(a + ([36] + b), args) == ExpandNumeric(a, args) + ([36] + ExpandNumeric(b, args))
  {
    var two, one := [36, 36] + b, [36] + b;
    NumericSplits(a, two, args);
    assert two[2..] == b;
    NumericUnfolds(two, 2, [36, 36], b, args);
    NumericSplits(a, one, args);
    assert one[1..] == b;
    if (b != [] ==> b[0] != 36 && !(49 <= b[0] <= 57)) && !(ARGUMENTS <= b) {
      NumericUnfolds(one, 1, [36], b, args);
    }
  }

  /** A numbered placeholder becomes its argument, or nothing when there are fewer. */
  lemma NumberIsReplaced(c: JsString, i: nat, args: seq<JsString>)
    requires i + 1 < |c| && c[i] == 36 && 49 <= c[i + 1] <= 57 && (i > 0 ==> c[i - 1] != 36)
    ensures ExpandNumeric(c, args)
            == ExpandNumeric(c[..i], args)
               + ((if c[i + 1] - 49 < |args| then args[c[i + 1] - 49] else []) + ExpandNumeric(c[i + 2..], args))
  {
    CutAt(c, i, i + 2);
    assert [c[i]] + c[i + 1..i + 2] == [36, c[i + 1]];
    ExpandAroundNumber(c[..i], c[i + 1], c[i + 2..], args);
  }

  /** Without a dollar sign nothing is replaced. */
  lemma WithoutDollarNothingChanges(c: JsString, args: seq<JsString>)
    requires 36 !in c
    ensures ExpandNumeric(c, args) == c
  {
    SkipPlain(c, [], args);
    assert c + [] == c;
  }

  /** The arguments are joined by single spaces. */
  lemma {:induction false} JoinedFromTheFront(first: JsString, rest: seq<JsString>)
    ensures JoinWithSpaces([]) == []
    ensures JoinWithSpaces([first] + rest) == if rest == [] then first else first + ([32] + JoinWithSpaces(rest))
  {
    var all := [first] + rest;
    if |rest| == 1 {
      assert all[..1] == [first];
    } else if |rest| > 1 {
      var init, last := rest[..|rest| - 1], rest[|rest| - 1];
      JoinedFromTheFront(first, init);
      assert all[..|all| - 1] == [first] + init;
      Regroup(first, [32] + JoinWithSpaces(init), [32] + last);
      JoinStep(first, JoinWithSpaces(init), last);
    }
  }

  lemma JoinStep(first: JsString, joined: JsString, last: JsString)
    ensures first + ([32] + joined) + [32] + last == first + ([32] + (joined + [32] + last))
  {
  }
}
