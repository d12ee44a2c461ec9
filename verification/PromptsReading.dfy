/** What a prompt command is read as, in terms of the characters of the command. */
module PromptsReading {
  import opened Wrappers
  import opened ThreadItems
  import opened Placeholders
  import opened Prompts

  // ---------- the command ----------

  ghost predicate AllSpace(s: JsString) {
    forall i :: 0 <= i < |s| ==> IsSpace(s[i])
  }

  /** `line` is a slash, the name, white space, and the rest, which does not begin with white space. */
  ghost predicate Commands(line: JsString, name: JsString, gap: JsString, rest: JsString) {
    && line == [47] + name + gap + rest
    && name != [] && HasNoSpace(name) && AllSpace(gap)
    && (rest != [] ==> gap != [] && !IsSpace(rest[0]))
  }

  lemma {:induction false} TrimStartDrops(gap: JsString, rest: JsString)
    requires AllSpace(gap) && (rest != [] ==> !IsSpace(rest[0]))
    ensures TrimStart(gap + rest) == rest
  {
    if gap == [] {
      assert gap + rest == rest;
    } else {
      assert (gap + rest)[1..] == gap[1..] + rest;
      TrimStartDrops(gap[1..], rest);
    }
  }

  lemma {:induction false} TrimStartSplits(s: JsString) returns (gap: JsString)
    ensures s == gap + TrimStart(s) && AllSpace(gap)
    ensures TrimStart(s) != [] ==> !IsSpace(TrimStart(s)[0])
  {
    if s != [] && IsSpace(s[0]) {
      var rest := TrimStartSplits(s[1..]);
      gap := [s[0]] + rest;
    } else {
      gap := [];
    }
  }

  lemma CommandIsRead(line: JsString, name: JsString, gap: JsString, rest: JsString)
    requires Commands(line, name, gap, rest)
    ensures SlashNameOf(line) == Some(SlashName(name, rest))
  {
    var stripped := name + (gap + rest);
    assert line[1..] == stripped;
    assert |name| < |stripped| ==> stripped[|name|] == (gap + rest)[0];
    FirstWhereIs(stripped, IsSpace, |name|);
    assert stripped[..|name|] == name && stripped[|name|..] == gap + rest;
    TrimStartDrops(gap, rest);
  }

  /** A line is a command exactly when a name without white space follows its slash. */
  lemma CommandIff(line: JsString, name: JsString, rest: JsString)
    ensures SlashNameOf(line) == Some(SlashName(name, rest)) <==> exists gap :: Commands(line, name, gap, rest)
  {
    if SlashNameOf(line) == Some(SlashName(name, rest)) {
      var gap := TrimStartSplits(line[1..][|name|..]);
      assert line == [47] + line[1..] && line[1..] == name + (gap + rest);
      Regroup([47], name, gap + rest);
      Regroup([47] + name, gap, rest);
      assert Commands(line, name, gap, rest);
    }
    if gap :| Commands(line, name, gap, rest) {
      CommandIsRead(line, name, gap, rest);
    }
  }

  // ---------- the prompt ----------

  /** The first prompt of the name is at `i`. */
  ghost predicate FirstNamed(prompts: seq<Prompt>, name: JsString, i: nat) {
    i < |prompts| && prompts[i].name == name && forall j :: 0 <= j < i ==> prompts[j].name != name
  }

  /** The prompt found is the first one of the name, and none is found exactly when none has it. */
  lemma {:induction false} FoundPromptIsFirst(prompts: seq<Prompt>, name: JsString)
    ensures FindPrompt(prompts, name).None? <==> forall i :: 0 <= i < |prompts| ==> prompts[i].name != name
    ensures forall i: nat :: FirstNamed(prompts, name, i) ==> FindPrompt(prompts, name) == Some(prompts[i])
    ensures FindPrompt(prompts, name).Some? ==> exists i: nat :: FirstNamed(prompts, name, i)
  {
    if prompts != [] {
      var rest := prompts[1..];
      FoundPromptIsFirst(rest, name);
      assert forall i :: 0 < i < |prompts| ==> prompts[i] == rest[i - 1];
      if prompts[0].name == name {
        assert FirstNamed(prompts, name, 0);
      } else {
        forall i: nat | FirstNamed(prompts, name, i) ensures FirstNamed(rest, name, i - 1) {
        }
        if i: nat :| FirstNamed(rest, name, i) {
          assert FirstNamed(prompts, name, i + 1);
        }
      }
    }
  }

  ghost predicate Invokes(text: JsString, name: JsString, rest: JsString) {
    exists gap :: Commands(text, PROMPTS_CMD + name, gap, rest)
  }

  /** A text is left alone exactly when it does not invoke a known prompt by its name. */
  lemma NotAPromptIff(text: JsString, prompts: seq<Prompt>)
    ensures Expand(text, prompts) == NotAPrompt
            <==> !exists name, rest :: name != [] && Invokes(text, name, rest) && HasPrompt(prompts, name)
    ensures PROMPTS_CMD == [112, 114, 111, 109, 112, 116, 115, 58]
  {
    var parsed := SlashNameOf(text);
    if name, rest :| name != [] && Invokes(text, name, rest) && HasPrompt(prompts, name) {
      CommandIff(text, PROMPTS_CMD + name, rest);
      assert (PROMPTS_CMD + name)[|PROMPTS_CMD|..] == name;
      FoundPromptIsFirst(prompts, name);
    }
    if Expand(text, prompts) != NotAPrompt {
      var name := parsed.value.name[|PROMPTS_CMD|..];
      assert PROMPTS_CMD + name == parsed.value.name;
      CommandIff(text, PROMPTS_CMD + name, parsed.value.rest);
      FoundPromptIsFirst(prompts, name);
      assert Invokes(text, name, parsed.value.rest) && HasPrompt(prompts, name);
    }
  }

  ghost predicate HasPrompt(prompts: seq<Prompt>, name: JsString) {
    exists i :: 0 <= i < |prompts| && prompts[i].name == name
  }

  // ---------- the arguments ----------

  /** The token says `key=value`. */
  ghost predicate Sets(token: JsString, key: JsString, value: JsString) {
    token == key + [61] + value && key != [] && 61 !in key
  }

  ghost predicate IsAssignment(token: JsString) {
    exists key, value :: Sets(token, key, value)
  }

  lemma TokenIsAssigned(values: Inputs, token: JsString)
    ensures forall key, value :: Sets(token, key, value) ==> Assigned(values, token) == Values(values[key := value])
    ensures Assigned(values, token).Values? <==> IsAssignment(token)
    ensures !IsAssignment(token)
            ==> Assigned(values, token) == if 61 in token then MissingKey(token) else MissingAssignment(token)
  {
    forall key, value | Sets(token, key, value) ensures Assigned(values, token) == Values(values[key := value]) {
      FirstEquals(token, key, value);
    }
    var eq := FirstWhere(token, IsEquals);
    if 0 < eq < |token| {
      assert Sets(token, token[..eq], token[eq + 1..]);
    }
  }

  /** The first token that is no assignment is the error reported. */
  lemma FirstBadTokenIsReported(tokens: seq<JsString>, i: nat)
    requires i < |tokens| && !IsAssignment(tokens[i])
    requires forall j :: 0 <= j < i ==> IsAssignment(tokens[j])
    ensures ParseTokens(tokens) == if 61 in tokens[i] then MissingKey(tokens[i]) else MissingAssignment(tokens[i])
  {
    var earlier := tokens[..i];
    AssignmentsAreRead(earlier);
    ParseStep(tokens, i, ParseTokens(earlier).values);
    TokenIsAssigned(ParseTokens(earlier).values, tokens[i]);
    ErrorsStay(tokens, i + 1);
  }

  /** Token `i` sets the key and no later one does. */
  ghost predicate SetsLast(tokens: seq<JsString>, i: nat, key: JsString, value: JsString) {
    i < |tokens| && Sets(tokens[i], key, value) && forall j, v :: i < j < |tokens| ==> !Sets(tokens[j], key, v)
  }

  ghost predicate LastSet(tokens: seq<JsString>, key: JsString, value: JsString) {
    exists i: nat :: SetsLast(tokens, i, key, value)
  }

  lemma SetsLastStep(init: seq<JsString>, last: JsString, i: nat, key: JsString, value: JsString)
    ensures SetsLast(init + [last], i, key, value)
            <==> (i == |init| && Sets(last, key, value))
                 || (SetsLast(init, i, key, value) && forall v :: !Sets(last, key, v))
  {
    var tokens := init + [last];
    assert forall j :: 0 <= j < |init| ==> tokens[j] == init[j];
    assert tokens[|init|] == last;
  }

  lemma LastSetStep(init: seq<JsString>, last: JsString, key: JsString, value: JsString)
    ensures LastSet(init + [last], key, value)
            <==> Sets(last, key, value) || (LastSet(init, key, value) && forall v :: !Sets(last, key, v))
  {
    SetsLastStep(init, last, |init|, key, value);
    forall i: nat
      ensures SetsLast(init + [last], i, key, value)
              <==> (i == |init| && Sets(last, key, value))
                   || (SetsLast(init, i, key, value) && forall v :: !Sets(last, key, v))
    {
      SetsLastStep(init, last, i, key, value);
    }
  }

  lemma KeyAndValueAreFixed(token: JsString, key: JsString, value: JsString, key': JsString, value': JsString)
    requires Sets(token, key, value) && Sets(token, key', value')
    ensures key == key' && value == value'
  {
    FirstEquals(token, key, value);
    FirstEquals(token, key', value');
  }

  lemma FirstEquals(token: JsString, key: JsString, value: JsString)
    requires Sets(token, key, value)
    ensures FirstWhere(token, IsEquals) == |key| && token[..|key|] == key && token[|key| + 1..] == value
  {
    assert token[|key|] == 61;
    FirstWhereIs(token, IsEquals, |key|);
  }

  /** The values are what the tokens set last. */
  ghost predicate AreLastSet(tokens: seq<JsString>, values: Inputs) {
    forall key, value :: (key in values && values[key] == value) <==> LastSet(tokens, key, value)
  }

  lemma LastAssignment(init: seq<JsString>, last: JsString, before: Inputs, key: JsString, value: JsString)
    requires AreLastSet(init, before) && Sets(last, key, value)
    ensures AreLastSet(init + [last], before[key := value])
  {
    var after := before[key := value];
    forall k, v ensures (k in after && after[k] == v) <==> LastSet(init + [last], k, v) {
      LastSetStep(init, last, k, v);
      if v' :| Sets(last, k, v') {
        KeyAndValueAreFixed(last, key, value, k, v');
      }
      if Sets(last, k, v) {
        KeyAndValueAreFixed(last, key, value, k, v);
      }
      assert (k in before && before[k] == v) <==> LastSet(init, k, v);
    }
  }

  /** Of assignments every key gets the value it is set to last. */
  lemma {:induction false} AssignmentsAreRead(tokens: seq<JsString>)
    requires forall i :: 0 <= i < |tokens| ==> IsAssignment(tokens[i])
    ensures ParseTokens(tokens).Values? && AreLastSet(tokens, ParseTokens(tokens).values)
  {
    if tokens != [] {
      var init, last := tokens[..|tokens| - 1], tokens[|tokens| - 1];
      AssignmentsAreRead(init);
      var before := ParseTokens(init).values;
      TokenIsAssigned(before, last);
      assert IsAssignment(last);
      var key, value :| Sets(last, key, value);
      LastAssignment(init, last, before, key, value);
      assert tokens == init + [last];
    }
  }
}
