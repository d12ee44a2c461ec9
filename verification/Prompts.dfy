/** Custom prompt commands: src/utils/customPrompts.ts. */
module Prompts {
  import opened Wrappers
  import opened ThreadItems
  import opened Shlex
  import opened Placeholders

  const SLASH: Unit := 47
  const EQUALS: Unit := 61

  /** prompts: */
  const PROMPTS_CMD: JsString := [112, 114, 111, 109, 112, 116, 115, 58]

  // ---------- the command line ----------

  /** The first position whose unit satisfies `p`, or the length. */
  function FirstWhere(s: JsString, p: Unit -> bool): (i: nat)
    ensures i <= |s| && (i < |s| ==> p(s[i])) && forall k :: 0 <= k < i ==> !p(s[k])
  {
    if s == [] || p(s[0]) then 0 else 1 + FirstWhere(s[1..], p)
  }

  function IsEquals(u: Unit): bool {
    u == EQUALS
  }

  datatype SlashName = SlashName(name: JsString, rest: JsString)

  function SlashNameOf(line: JsString): Option<SlashName> {
    if line == [] || line[0] != SLASH then None
    else
      var stripped := line[1..];
      var nameEnd := FirstWhere(stripped, IsSpace);
      if nameEnd == 0 then None else Some(SlashName(stripped[..nameEnd], TrimStart(stripped[nameEnd..])))
  }

  method ParseSlashName(line: JsString) returns (r: Option<SlashName>)
    ensures r == SlashNameOf(line)
  {
    if line == [] || line[0] != SLASH {
      return None;
    }
    var stripped := line[1..];
    var nameEnd := |stripped|;
    for index := 0 to |stripped|
      invariant nameEnd == |stripped|
      invariant forall k :: 0 <= k < index ==> !IsSpace(stripped[k])
    {
      if IsSpace(stripped[index]) {
        nameEnd := index;
        break;
      }
    }
    FirstWhereIs(stripped, IsSpace, nameEnd);
    var name := stripped[..nameEnd];
    if name == [] {
      return None;
    }
    return Some(SlashName(name, TrimStart(stripped[nameEnd..])));
  }

  lemma {:induction false} FirstWhereIs(s: JsString, p: Unit -> bool, i: nat)
    requires i <= |s| && (i < |s| ==> p(s[i])) && forall k :: 0 <= k < i ==> !p(s[k])
    ensures FirstWhere(s, p) == i
  {
  }

  // ---------- key=value arguments ----------

  datatype Parsed = Values(values: Inputs) | MissingAssignment(token: JsString) | MissingKey(token: JsString)

  /** One token added to the values so far; later values win. */
  function Assigned(values: Inputs, token: JsString): Parsed {
    var eq := FirstWhere(token, IsEquals);
    if eq == |token| then MissingAssignment(token)
    else if eq == 0 then MissingKey(token)
    else Values(values[token[..eq] := token[eq + 1..]])
  }

  function ParseTokens(tokens: seq<JsString>): Parsed {
    if tokens == [] then Values(map[])
    else
      var earlier := ParseTokens(tokens[..|tokens| - 1]);
      if earlier.Values? then Assigned(earlier.values, tokens[|tokens| - 1]) else earlier
  }

  function InputsOf(rest: JsString): Parsed {
    if Trim(rest) == [] then Values(map[]) else ParseTokens(Split(NormalizeQuotes(rest)))
  }

  lemma {:induction false} ErrorsStay(tokens: seq<JsString>, i: nat)
    requires i <= |tokens| && !ParseTokens(tokens[..i]).Values?
    ensures ParseTokens(tokens) == ParseTokens(tokens[..i])
  {
    if i == |tokens| {
      assert tokens[..i] == tokens;
    } else {
      var init := tokens[..|tokens| - 1];
      assert init[..i] == tokens[..i];
      ErrorsStay(init, i);
    }
  }

  lemma ParseStep(tokens: seq<JsString>, i: nat, values: Inputs)
    requires i < |tokens| && ParseTokens(tokens[..i]) == Values(values)
    ensures ParseTokens(tokens[..i + 1]) == Assigned(values, tokens[i])
  {
    assert tokens[..i + 1][..i] == tokens[..i];
  }

  method ParsePromptInputs(rest: JsString) returns (r: Parsed)
    ensures r == InputsOf(rest)
  {
    var values: Inputs := map[];
    if Trim(rest) == [] {
      return Values(values);
    }
    var tokens := SplitShlex(NormalizeQuotes(rest));
    for i := 0 to |tokens|
      invariant ParseTokens(tokens[..i]) == Values(values)
    {
      ParseStep(tokens, i, values);
      var token := tokens[i];
      var eqIndex := FirstWhere(token, IsEquals);
      if eqIndex == |token| || eqIndex == 0 {
        ErrorsStay(tokens, i + 1);
        return if eqIndex == |token| then MissingAssignment(token) else MissingKey(token);
      }
      values := values[token[..eqIndex] := token[eqIndex + 1..]];
    }
    assert tokens[..|tokens|] == tokens;
    return Values(values);
  }

  // ---------- expansion ----------

  datatype Prompt = Prompt(name: JsString, content: JsString)

  /** The result of `expandCustomPromptText`; error messages by their parts. */
  datatype Expansion =
    | NotAPrompt
    | BadArguments(command: JsString, error: Parsed)
    | MissingArguments(command: JsString, names: seq<JsString>)
    | Expanded(text: JsString)

  function FindPrompt(prompts: seq<Prompt>, name: JsString): Option<Prompt> {
    if prompts == [] then None
    else if prompts[0].name == name then Some(prompts[0])
    else FindPrompt(prompts[1..], name)
  }

  /** The required names without a value. */
  function Missing(required: seq<JsString>, values: Inputs): seq<JsString> {
    if required == [] then []
    else (if required[0] in values then [] else [required[0]]) + Missing(required[1..], values)
  }

  function ExpandNamedPrompt(command: JsString, content: JsString, parsed: Parsed): Expansion {
    if !parsed.Values? then BadArguments(command, parsed)
    else
      var missing := Missing(ArgumentNames(content), parsed.values);
      if missing != [] then MissingArguments(command, missing)
      else Expanded(ExpandNamed(content, parsed.values))
  }

  function Expand(text: JsString, prompts: seq<Prompt>): Expansion {
    var parsed := SlashNameOf(text);
    if parsed.None? || !(PROMPTS_CMD < parsed.value.name) then NotAPrompt
    else
      var prompt := FindPrompt(prompts, parsed.value.name[|PROMPTS_CMD|..]);
      if prompt.None? then NotAPrompt
      else
        var content, rest := prompt.value.content, parsed.value.rest;
        if ArgumentNames(content) != [] then ExpandNamedPrompt(parsed.value.name, content, InputsOf(rest))
        else Expanded(ExpandNumeric(content, Split(NormalizeQuotes(rest))))
  }

  method ExpandCustomPromptText(text: JsString, prompts: seq<Prompt>) returns (r: Expansion)
    ensures r == Expand(text, prompts)
  {
    var parsed := ParseSlashName(text);
    if parsed.None? || !(PROMPTS_CMD <= parsed.value.name) {
      return NotAPrompt;
    }
    var promptName := parsed.value.name[|PROMPTS_CMD|..];
    if promptName == [] {
      return NotAPrompt;
    }
    var prompt := FindPrompt(prompts, promptName);
    if prompt.None? {
      return NotAPrompt;
    }
    var content := prompt.value.content;
    var required := PromptArgumentNames(content);
    if required != [] {
      var inputs := ParsePromptInputs(parsed.value.rest);
      if !inputs.Values? {
        return BadArguments(parsed.value.name, inputs);
      }
      var missing := Missing(required, inputs.values);
      if missing != [] {
        return MissingArguments(parsed.value.name, missing);
      }
      return Expanded(ExpandNamed(content, inputs.values));
    }
    var args := SplitShlex(NormalizeQuotes(parsed.value.rest));
    var output := ExpandNumericPlaceholders(content, args);
    return Expanded(output);
  }

  lemma {:induction false} MissingIff(required: seq<JsString>, values: Inputs, name: JsString)
    ensures name in Missing(required, values) <==> name in required && name !in values
  {
    if required != [] {
      MissingIff(required[1..], values, name);
    }
  }

  // ---------- the round trip ----------

  /** What a user types: the command and its words, values in double quotes with backslashes and
      double quotes escaped. */
  function TypedCommand(name: JsString, words: seq<Word>): JsString {
    [SLASH] + (PROMPTS_CMD + name + ([SPACE] + TypedLine(words)))
  }

  predicate HasNoSpace(s: JsString) {
    forall i :: 0 <= i < |s| ==> !IsSpace(s[i])
  }

  lemma {:induction false} LineStartsWithoutSpace(words: seq<Word>)
    requires words != [] && forall i :: 0 <= i < |words| ==> WellFormed(words[i])
    ensures TypedLine(words) != [] && !IsSpace(TypedLine(words)[0])
  {
    if |words| == 1 {
      var w := words[0];
      assert w.bare != [] ==> IsPlain(w.bare[0]);
      assert Typed(w)[0] == if w.bare != [] then w.bare[0] else QUOTE;
    } else {
      LineStartsWithoutSpace(words[..|words| - 1]);
    }
  }

  lemma CommandIsParsed(name: JsString, line: JsString)
    requires HasNoSpace(name) && (line == [] || !IsSpace(line[0]))
    ensures SlashNameOf([SLASH] + (PROMPTS_CMD + name + ([SPACE] + line))) == Some(SlashName(PROMPTS_CMD + name, line))
  {
    var command, tail := PROMPTS_CMD + name, [SPACE] + line;
    var text := [SLASH] + (command + tail);
    assert text[1..] == command + tail;
    assert (command + tail)[|command|] == SPACE;
    FirstWhereIs(command + tail, IsSpace, |command|);
    assert (command + tail)[..|command|] == command && (command + tail)[|command|..] == tail;
    assert tail[1..] == line;
    assert TrimStart(tail) == line;
  }

  /** A typed argument `key="value"`. */
  datatype NamedArgument = NamedArgument(key: JsString, value: JsString)

  predicate ValidKey(key: JsString) {
    key != [] && forall i :: 0 <= i < |key| ==> IsPlain(key[i]) && key[i] != EQUALS
  }

  predicate ValidArguments(args: seq<NamedArgument>) {
    forall i :: 0 <= i < |args| ==> ValidKey(args[i].key) && CurlyFree(args[i].value)
  }

  function WordsOf(args: seq<NamedArgument>): (words: seq<Word>)
    ensures |words| == |args|
    ensures forall i :: 0 <= i < |args| ==> words[i] == Word(args[i].key + [EQUALS], args[i].value)
  {
    seq(|args|, i requires 0 <= i < |args| => Word(args[i].key + [EQUALS], args[i].value))
  }

  /** The last value typed for every key. */
  function LastValues(args: seq<NamedArgument>): Inputs {
    if args == [] then map[]
    else LastValues(args[..|args| - 1])[args[|args| - 1].key := args[|args| - 1].value]
  }

  lemma ArgumentIsAssigned(values: Inputs, a: NamedArgument)
    requires ValidKey(a.key)
    ensures Assigned(values, a.key + [EQUALS] + a.value) == Values(values[a.key := a.value])
  {
    var token := a.key + [EQUALS] + a.value;
    assert token[|a.key|] == EQUALS;
    FirstWhereIs(token, IsEquals, |a.key|);
    assert token[..|a.key|] == a.key && token[|a.key| + 1..] == a.value;
  }

  lemma {:induction false} ArgumentsAreParsed(args: seq<NamedArgument>)
    requires ValidArguments(args)
    ensures ParseTokens(Meanings(WordsOf(args))) == Values(LastValues(args))
  {
    if args != [] {
      var init, last := args[..|args| - 1], args[|args| - 1];
      ArgumentsAreParsed(init);
      ArgumentIsAssigned(LastValues(init), last);
      assert WordsOf(args)[..|init|] == WordsOf(init);
      var tokens := Meanings(WordsOf(args));
      assert tokens == Meanings(WordsOf(init)) + [last.key + [EQUALS] + last.value];
      assert tokens[..|tokens| - 1] == Meanings(WordsOf(init));
    }
  }

  lemma WordsAreWellFormed(args: seq<NamedArgument>)
    requires ValidArguments(args)
    ensures forall i :: 0 <= i < |args| ==> WellFormed(WordsOf(args)[i])
  {
  }

  lemma TrimKeepsText(s: JsString)
    requires s != [] && !IsSpace(s[0])
    ensures Trim(s) != []
  {
    TrimEndKeepsFirst(s);
  }

  lemma TypedInputs(args: seq<NamedArgument>)
    requires ValidArguments(args)
    ensures InputsOf(TypedLine(WordsOf(args))) == Values(LastValues(args))
    ensures args != [] ==> !IsSpace(TypedLine(WordsOf(args))[0])
  {
    if args == [] {
      return;
    }
    WordsAreWellFormed(args);
    LineStartsWithoutSpace(WordsOf(args));
    TrimKeepsText(TypedLine(WordsOf(args)));
    SplitUndoesTyping(WordsOf(args));
    ArgumentsAreParsed(args);
  }

  /** Typing a prompt with named arguments expands to the content with every placeholder replaced by
      the last value typed for it, or reports exactly the required names that were not typed. */
  lemma NamedPromptRoundTrip(name: JsString, args: seq<NamedArgument>, prompts: seq<Prompt>)
    requires name != [] && HasNoSpace(name) && ValidArguments(args)
    requires FindPrompt(prompts, name).Some? && ArgumentNames(FindPrompt(prompts, name).value.content) != []
    ensures var content := FindPrompt(prompts, name).value.content;
            var missing := Missing(ArgumentNames(content), LastValues(args));
            Expand(TypedCommand(name, WordsOf(args)), prompts)
            == if missing == [] then Expanded(ExpandNamed(content, LastValues(args)))
               else MissingArguments(PROMPTS_CMD + name, missing)
  {
    TypedInputs(args);
    CommandIsParsed(name, TypedLine(WordsOf(args)));
    assert (PROMPTS_CMD + name)[|PROMPTS_CMD|..] == name;
  }

  function QuotedWords(values: seq<JsString>): (words: seq<Word>)
    ensures |words| == |values| && forall i :: 0 <= i < |values| ==> words[i] == Word([], values[i])
  {
    seq(|values|, i requires 0 <= i < |values| => Word([], values[i]))
  }

  function NonEmpty(values: seq<JsString>): seq<JsString> {
    if values == [] then [] else Flushed(NonEmpty(values[..|values| - 1]), values[|values| - 1])
  }

  lemma {:induction false} QuotedMeanings(values: seq<JsString>)
    ensures Meanings(QuotedWords(values)) == NonEmpty(values)
  {
    if values != [] {
      QuotedMeanings(values[..|values| - 1]);
      assert QuotedWords(values)[..|values| - 1] == QuotedWords(values[..|values| - 1]);
      assert [] + values[|values| - 1] == values[|values| - 1];
    }
  }

  lemma {:induction false} NonEmptyIsShorter(values: seq<JsString>)
    ensures |NonEmpty(values)| <= |values|
    ensures [] !in NonEmpty(values)
  {
    if values != [] {
      NonEmptyIsShorter(values[..|values| - 1]);
    }
  }

  /** All positional arguments arrive exactly when none of them is empty. */
  lemma {:induction false} NonEmptyKeepsAllIff(values: seq<JsString>)
    ensures NonEmpty(values) == values <==> [] !in values
  {
    NonEmptyIsShorter(values);
    if values != [] && [] !in values {
      var init, last := values[..|values| - 1], values[|values| - 1];
      assert values == init + [last];
      assert last in values;
      NonEmptyKeepsAllIff(init);
    }
  }

  /** Typing a prompt with quoted positional arguments expands the numbered placeholders with the
      arguments that are not empty: an empty one disappears and later ones move up. */
  lemma NumberedPromptRoundTrip(name: JsString, values: seq<JsString>, prompts: seq<Prompt>)
    requires name != [] && HasNoSpace(name)
    requires forall i :: 0 <= i < |values| ==> CurlyFree(values[i])
    requires FindPrompt(prompts, name).Some? && ArgumentNames(FindPrompt(prompts, name).value.content) == []
    ensures Expand(TypedCommand(name, QuotedWords(values)), prompts)
            == Expanded(ExpandNumeric(FindPrompt(prompts, name).value.content, NonEmpty(values)))
  {
    var words := QuotedWords(values);
    if words != [] {
      LineStartsWithoutSpace(words);
    }
    SplitUndoesTyping(words);
    QuotedMeanings(values);
    CommandIsParsed(name, TypedLine(words));
    assert (PROMPTS_CMD + name)[|PROMPTS_CMD|..] == name;
  }

  /** A value survives being typed exactly when it holds no curly quote. */
  lemma ValueSurvivesIff(key: JsString, value: JsString)
    requires ValidKey(key)
    ensures InputsOf(TypedLine([Word(key + [EQUALS], value)])) == Values(map[key := value]) <==> CurlyFree(value)
  {
    var args := [NamedArgument(key, value)];
    assert WordsOf(args) == [Word(key + [EQUALS], value)];
    if CurlyFree(value) {
      TypedInputs(args);
      assert args[..0] == [];
      assert LastValues(args) == map[key := value];
    }
    var r := InputsOf(TypedLine(WordsOf(args)));
    ParsedValuesAreCurlyFree(TypedLine(WordsOf(args)));
    assert r == Values(map[key := value]) ==> key in r.values;
  }

  ghost predicate CurlyFreeValues(r: Parsed) {
    r.Values? ==> forall key :: key in r.values ==> CurlyFree(r.values[key])
  }

  lemma ParsedValuesAreCurlyFree(rest: JsString)
    ensures CurlyFreeValues(InputsOf(rest))
  {
    TokensAreCurlyFree(rest);
    TokensGiveCurlyFree(Split(NormalizeQuotes(rest)));
  }

  lemma {:induction false} TokensGiveCurlyFree(tokens: seq<JsString>)
    requires AllCurlyFree(tokens)
    ensures CurlyFreeValues(ParseTokens(tokens))
  {
    if tokens != [] {
      TokensGiveCurlyFree(tokens[..|tokens| - 1]);
      assert CurlyFree(tokens[|tokens| - 1]);
    }
  }
}
