/** What a prepared thread shows: which items, how much of their text, and which entries of a run. */
module PrepareContents {
  import opened Wrappers
  import opened ThreadItems
  import opened Explore
  import opened Prepare

  // ---------- how much text is kept ----------

  /** The text, or its head and three full stops, `max` units in all. */
  ghost predicate IsCut(text: JsString, max: nat, r: JsString) {
    if |text| <= max then r == text
    else max >= 3 && |r| == max && r[..max - 3] == text[..max - 3] && r[max - 3..] == [46, 46, 46]
  }

  /** An optional text is cut when there is one and otherwise reads as missing. */
  ghost predicate IsCutField(f: Field<JsString>, max: nat, r: Field<JsString>) {
    r.Is? == f.Is? && (f.Is? ==> IsCut(f.value, max, r.value))
  }

  ghost predicate AreCut(texts: seq<JsString>, max: nat, r: seq<JsString>) {
    |r| == |texts| && forall i :: 0 <= i < |r| ==> IsCut(texts[i], max, r[i])
  }

  ghost predicate AreCutChanges(f: Field<seq<Change>>, max: nat, r: Field<seq<Change>>) {
    && r.Is? == f.Is?
    && (f.Is? ==>
          |r.value| == |f.value| && forall i :: 0 <= i < |r.value| ==> IsCutChange(f.value[i], max, r.value[i]))
  }

  ghost predicate IsCutChange(c: Change, max: nat, r: Change) {
    r.path == c.path && r.kind == c.kind && IsCutField(c.diff, max, r.diff)
  }

  ghost predicate IsCutQuestion(q: Question, r: Question) {
    && r.id == q.id && IsCut(q.header, 300, r.header) && IsCut(q.question, 2000, r.question)
    && AreCut(q.answers, 2000, r.answers)
  }

  ghost predicate Spells(s: JsString, literal: string) {
    |s| == |literal| && forall i :: 0 <= i < |s| ==> s[i] == literal[i] as int
  }

  /** The tool item with its texts cut and everything else as it was. */
  ghost predicate IsCutTool(item: Item, titleMax: nat, detailMax: nat, outputMax: nat, r: Item)
    requires item.Tool?
  {
    && r.Tool?
    && IsCut(item.title, titleMax, r.title) && IsCut(item.detail, detailMax, r.detail)
    && IsCutField(item.output, outputMax, r.output) && AreCutChanges(item.changes, outputMax, r.changes)
    && r == item.(title := r.title, detail := r.detail, output := r.output, changes := r.changes)
  }

  ghost predicate KeepsLongOutput(toolType: JsString) {
    Spells(toolType, "fileChange") || Spells(toolType, "commandExecution")
  }

  lemma TruncatedIsCut(text: JsString, max: nat)
    requires max >= 3
    ensures IsCut(text, max, TruncateText(text, max))
  {
  }

  lemma TruncatedChangesAreCut(f: Field<seq<Change>>, max: nat)
    requires max >= 3
    ensures AreCutChanges(f, max, TruncateChanges(f, max))
  {
    if f.Is? {
      forall i | 0 <= i < |f.value| ensures IsCutChange(f.value[i], max, TruncateDiffs(f.value, max)[i]) {
        if f.value[i].diff.Is? {
          TruncatedIsCut(f.value[i].diff.value, max);
        }
      }
    }
  }

  lemma SpellsIff(s: JsString, literal: string)
    requires forall i :: 0 <= i < |literal| ==> literal[i] < 128 as char
    ensures s == Js(literal) <==> Spells(s, literal)
  {
  }

  lemma ToolLimitIs(toolType: JsString)
    ensures ToolLimit(toolType) == if KeepsLongOutput(toolType) then 200000 else 20000
  {
    SpellsIff(toolType, "fileChange");
    SpellsIff(toolType, "commandExecution");
  }

  lemma NormalizedQuestion(q: Question)
    ensures IsCutQuestion(q, NormalizeQuestion(q))
  {
    TruncatedIsCut(q.header, 300);
    TruncatedIsCut(q.question, 2000);
    forall i | 0 <= i < |q.answers| ensures IsCut(q.answers[i], 2000, TruncateAll(q.answers, 2000)[i]) {
      TruncatedIsCut(q.answers[i], 2000);
    }
  }

  lemma NormalizedTool(item: Item)
    requires item.Tool?
    ensures IsCutTool(item, 200, 2000, if KeepsLongOutput(item.toolType) then 200000 else 20000, NormalizeItem(item))
  {
    var max := ToolLimit(item.toolType);
    ToolLimitIs(item.toolType);
    TruncatedIsCut(item.title, 200);
    TruncatedIsCut(item.detail, 2000);
    if item.output.Is? {
      TruncatedIsCut(item.output.value, max);
    }
    TruncatedChangesAreCut(item.changes, max);
  }

  /** The text limits of a normalised item; everything that is not text is kept. */
  lemma NormalizedContents(item: Item)
    ensures var r := NormalizeItem(item);
            match item
            case Message(id, role, text, images) =>
              r.Message? && IsCut(text, 20000, r.text) && r == Message(id, role, r.text, images)
            case UserInput(id, questions) =>
              && r.UserInput? && r.id == id && |r.questions| == |questions|
              && forall i :: 0 <= i < |questions| ==> IsCutQuestion(questions[i], r.questions[i])
            case Reasoning(id, summary, content) =>
              r.Reasoning? && r.id == id && IsCut(summary, 20000, r.summary) && IsCut(content, 20000, r.content)
            case Diff(_, _, diff, _) => r.Diff? && IsCut(diff, 20000, r.diff) && r == item.(diff := r.diff)
            case Tool(_, toolType, _, _, _, _, _, _, _, _, _, _) =>
              IsCutTool(item, 200, 2000, if KeepsLongOutput(toolType) then 200000 else 20000, r)
            case _ => r == item
  {
    match item
    case Message(_, _, text, _) => TruncatedIsCut(text, 20000);
    case UserInput(_, questions) =>
      forall i | 0 <= i < |questions| ensures IsCutQuestion(questions[i], NormalizeQuestions(questions)[i]) {
        NormalizedQuestion(questions[i]);
      }
    case Reasoning(_, summary, content) => TruncatedIsCut(summary, 20000); TruncatedIsCut(content, 20000);
    case Diff(_, _, diff, _) => TruncatedIsCut(diff, 20000);
    case Tool(_, _, _, _, _, _, _, _, _, _, _, _) => NormalizedTool(item);
    case _ =>
  }

  lemma OldToolIsCut(item: Item)
    requires item.Tool?
    ensures IsCutTool(item, |item.title|, |item.detail|, 20000, TruncateTool(item))
  {
    if item.output.Is? {
      TruncatedIsCut(item.output.value, 20000);
    }
    TruncatedChangesAreCut(item.changes, 20000);
  }

  /** Of the summary, the newest forty items and all that are not tools are shown as they are; older
      tool items keep at most 20000 units of their output and of each diff. */
  lemma OldToolsAreCut(items: seq<Item>, option: MaxItems, read: Reader, i: nat)
    requires i < |Summarize(Shown(items, option), read)|
    ensures var s, r := Summarize(Shown(items, option), read), Prepared(items, option, read);
            && |r| == |s|
            && (if i + 40 >= |s| || !s[i].Tool? then r[i] == s[i]
                else IsCutTool(s[i], |s[i].title|, |s[i].detail|, 20000, r[i]))
  {
    var s := Summarize(Shown(items, option), read);
    if s[i].Tool? {
      OldToolIsCut(s[i]);
    }
  }

  // ---------- which items are shown ----------

  /** From `i` to `j` is the text without the white space at its ends. */
  ghost predicate InnerText(s: JsString, i: nat, j: nat) {
    && i <= j <= |s|
    && (forall k :: 0 <= k < i || j <= k < |s| ==> IsSpace(s[k]))
    && (i < j ==> !IsSpace(s[i]) && !IsSpace(s[j - 1]))
  }

  ghost predicate SameInside(s: JsString, t: JsString) {
    exists i: nat, j: nat, k: nat, l: nat :: InnerText(s, i, j) && InnerText(t, k, l) && s[i..j] == t[k..l]
  }

  lemma {:induction false} TrimStartCuts(s: JsString) returns (i: nat)
    ensures i <= |s| && TrimStart(s) == s[i..]
    ensures forall k :: 0 <= k < i ==> IsSpace(s[k])
    ensures i < |s| ==> !IsSpace(s[i])
  {
    if s != [] && IsSpace(s[0]) {
      var n := TrimStartCuts(s[1..]);
      i := n + 1;
      forall k | 0 <= k < i ensures IsSpace(s[k]) {
        assert k > 0 ==> s[k] == s[1..][k - 1];
      }
    } else {
      i := 0;
    }
  }

  lemma {:induction false} TrimEndCuts(s: JsString) returns (j: nat)
    ensures j <= |s| && TrimEnd(s) == s[..j]
    ensures forall k :: j <= k < |s| ==> IsSpace(s[k])
    ensures j > 0 ==> !IsSpace(s[j - 1])
  {
    if s != [] && IsSpace(s[|s| - 1]) {
      j := TrimEndCuts(s[..|s| - 1]);
    } else {
      j := |s|;
    }
  }

  lemma TrimIsInnerText(s: JsString) returns (i: nat, j: nat)
    ensures InnerText(s, i, j) && Trim(s) == s[i..j]
  {
    i := TrimStartCuts(s);
    var n := TrimEndCuts(s[i..]);
    j := i + n;
    assert forall k :: 0 <= k < |s| - i ==> s[i..][k] == s[i + k];
    assert forall k :: j <= k < |s| ==> s[k] == s[i..][k - i];
  }

  lemma InnerTextIsUnique(s: JsString, i: nat, j: nat, i': nat, j': nat)
    requires InnerText(s, i, j) && InnerText(s, i', j')
    ensures s[i..j] == s[i'..j']
  {
    if i < j {
      assert i' <= i && j <= j';
    }
    if i' < j' {
      assert i <= i' && j' <= j;
    }
  }

  lemma SameInsideIff(s: JsString, t: JsString)
    ensures Trim(s) == Trim(t) <==> SameInside(s, t)
  {
    var i, j := TrimIsInnerText(s);
    var k, l := TrimIsInnerText(t);
    if i': nat, j': nat, k': nat, l': nat :| InnerText(s, i', j') && InnerText(t, k', l') && s[i'..j'] == t[k'..l'] {
      InnerTextIsUnique(s, i, j, i', j');
      InnerTextIsUnique(t, k, l, k', l');
    }
  }

  /** The assistant's message says again what the completed review said, white space at the ends apart. */
  ghost predicate Repeats(review: Item, message: Item) {
    && review.Review? && review.state == ReviewCompleted
    && message.Message? && message.role == Assistant
    && SameInside(message.text, review.text)
  }

  lemma EchoesIffRepeats(review: Item, message: Item)
    ensures Echoes(review, message) <==> Repeats(review, message)
  {
    if review.Review? && message.Message? {
      SameInsideIff(message.text, review.text);
    }
  }

  lemma FilterOneMore(items: seq<Item>, item: Item)
    ensures Filter(items + [item])
            == if EchoesLast(Filter(items), item) then Filter(items) else Filter(items) + [item]
  {
    assert (items + [item])[..|items|] == items;
  }

  /** A message is left out exactly when it repeats the review kept last before it. */
  lemma RepeatedReviewIsLeftOut(items: seq<Item>, item: Item)
    ensures var kept := Filter(items);
            Filter(items + [item])
            == if kept != [] && Repeats(kept[|kept| - 1], item) then kept else kept + [item]
  {
    var kept := Filter(items);
    FilterOneMore(items, item);
    if kept != [] {
      EchoesIffRepeats(kept[|kept| - 1], item);
    }
  }

  /** How many items a limit leaves of `n`. */
  function ShownCount(option: MaxItems, n: nat): nat {
    match option
    case NoLimit => n
    case Count(value) =>
      if value <= 0.0 then (if n > 200 then 200 else n)
      else if value >= 1.0 && value.Floor < n then value.Floor
      else n
    case _ => if n > 200 then 200 else n
  }

  lemma LimitKeepsTheEnd(all: seq<Item>, option: MaxItems)
    ensures var r := Limit(all, EffectiveMax(option));
            |r| == ShownCount(option, |all|) <= |all| && r == all[|all| - |r|..]
  {
    if option.Count? && option.value > 0.0 {
      assert option.value >= 1.0 <==> option.value.Floor >= 1;
    }
  }

  lemma EndOfNormalized(kept: seq<Item>, all: seq<Item>, shown: seq<Item>)
    requires |shown| <= |all| == |kept| && shown == all[|all| - |shown|..]
    requires forall i :: 0 <= i < |kept| ==> all[i] == NormalizeItem(kept[i])
    ensures forall i :: 0 <= i < |shown| ==> shown[i] == NormalizeItem(kept[|kept| - |shown| + i])
  {
    forall i | 0 <= i < |shown| ensures shown[i] == NormalizeItem(kept[|kept| - |shown| + i]) {
      assert shown[i] == all[|kept| - |shown| + i];
    }
  }

  /** The end of the list, each item as normalised. */
  ghost predicate IsNormalizedEnd(kept: seq<Item>, shown: seq<Item>) {
    && |shown| <= |kept|
    && forall i :: 0 <= i < |shown| ==> shown[i] == NormalizeItem(kept[|kept| - |shown| + i])
  }

  /** The newest items are the ones shown, each as normalised, as many as the option allows. */
  lemma NewestAreShown(items: seq<Item>, option: MaxItems)
    ensures IsNormalizedEnd(Filter(items), Shown(items, option))
    ensures |Shown(items, option)| == ShownCount(option, |Filter(items)|)
  {
    LimitKeepsTheEnd(NormalizeAll(Filter(items)), option);
    EndOfNormalized(Filter(items), NormalizeAll(Filter(items)), Shown(items, option));
  }

  lemma LastIsKept(all: seq<Item>, newest: Item, option: MaxItems)
    requires all != [] && all[|all| - 1] == newest
    ensures var r := Limit(all, EffectiveMax(option)); r != [] && r[|r| - 1] == newest
  {
  }

  /** Whatever the option, the newest item is the last one shown. */
  lemma NewestIsShown(items: seq<Item>, newest: Item, option: MaxItems)
    requires Filter(items) != [] && newest == NormalizeItem(Filter(items)[|Filter(items)| - 1])
    ensures Shown(items, option) != [] && Shown(items, option)[|Shown(items, option)| - 1] == newest
  {
    LastIsKept(NormalizeAll(Filter(items)), newest, option);
  }

  /** An item that is not exploration: neither an explore item nor a command the classifier takes for one. */
  ghost predicate ExploresNothing(item: Item, classify: Classifier) {
    && !item.Explore?
    && (item.Tool? && Spells(item.toolType, "commandExecution") ==> classify(item.title, item.status.Get()).None?)
  }

  lemma ReadsNothing(item: Item, classify: Classifier)
    ensures ExploresNothing(item, classify) <==> ReadWith(classify)(item).None?
  {
    if item.Tool? {
      SpellsIff(item.toolType, "commandExecution");
    }
  }

  lemma NewestOfSummary(shown: seq<Item>, newest: Item, classify: Classifier)
    requires shown != [] && shown[|shown| - 1] == newest && ExploresNothing(newest, classify)
    ensures var r := TruncateOld(Summarize(shown, ReadWith(classify))); r != [] && r[|r| - 1] == newest
  {
    ReadsNothing(newest, classify);
    SummaryEnd(shown, ReadWith(classify));
  }

  /** A newest item that explores nothing ends the prepared list. */
  lemma NewestEndsTheList(items: seq<Item>, newest: Item, option: MaxItems, classify: Classifier)
    requires Filter(items) != [] && newest == NormalizeItem(Filter(items)[|Filter(items)| - 1])
    requires ExploresNothing(newest, classify)
    ensures var r := Prepared(items, option, ReadWith(classify)); r != [] && r[|r| - 1] == newest
  {
    NewestIsShown(items, newest, option);
    NewestOfSummary(Shown(items, option), newest, classify);
  }

  // ---------- which entries of a run are shown ----------

  /** The first position of its key. */
  ghost predicate IsFirst<E, K>(entries: seq<E>, key: E -> K, i: nat) {
    i < |entries| && forall j :: 0 <= j < i ==> key(entries[j]) != key(entries[i])
  }

  /** `kept` lists, in order, the entries at these positions. */
  ghost predicate PickedAt<E>(entries: seq<E>, positions: seq<nat>, kept: seq<E>) {
    && |positions| == |kept|
    && (forall n :: 0 <= n < |kept| ==> positions[n] < |entries| && kept[n] == entries[positions[n]])
    && forall m, n :: 0 <= m < n < |kept| ==> positions[m] < positions[n]
  }

  /** The positions are exactly the first ones of their keys. */
  ghost predicate AreFirst<E, K>(entries: seq<E>, key: E -> K, positions: seq<nat>) {
    forall i: nat :: i in positions <==> IsFirst(entries, key, i)
  }

  lemma IsFirstBefore<E, K>(init: seq<E>, last: E, key: E -> K, i: nat)
    requires i < |init|
    ensures IsFirst(init + [last], key, i) <==> IsFirst(init, key, i)
  {
    var all := init + [last];
    assert forall j :: 0 <= j <= i ==> all[j] == init[j];
  }

  lemma IsFirstAtEnd<E, K>(init: seq<E>, last: E, key: E -> K)
    ensures IsFirst(init + [last], key, |init|) <==> key(last) !in KeySet(init, key)
  {
    var all := init + [last];
    assert forall j :: 0 <= j < |init| ==> all[j] == init[j];
    KeySetHolds(init, key);
    KeySetIsFrom(init, key);
  }

  lemma FirstPositionsGrow<E, K>(init: seq<E>, last: E, key: E -> K, positions: seq<nat>, more: seq<nat>)
    requires AreFirst(init, key, positions)
    requires more == if key(last) in KeySet(init, key) then positions else positions + [|init|]
    ensures AreFirst(init + [last], key, more)
  {
    IsFirstAtEnd(init, last, key);
    forall i: nat ensures i in more <==> IsFirst(init + [last], key, i) {
      assert i in positions <==> IsFirst(init, key, i);
      if i < |init| {
        IsFirstBefore(init, last, key, i);
      }
    }
  }

  lemma PickedGrows<E>(init: seq<E>, last: E, positions: seq<nat>, kept: seq<E>)
    requires PickedAt(init, positions, kept)
    ensures PickedAt(init + [last], positions, kept)
    ensures PickedAt(init + [last], positions + [|init|], kept + [last])
  {
  }

  lemma FirstPerKeyStep<E, K>(init: seq<E>, last: E, key: E -> K)
    ensures FirstPerKey(init + [last], key)
            == if key(last) in KeySet(init, key) then FirstPerKey(init, key) else FirstPerKey(init, key) + [last]
  {
    assert (init + [last])[..|init|] == init;
  }

  lemma OneMorePosition<E, K>(init: seq<E>, last: E, key: E -> K, before: seq<nat>) returns (positions: seq<nat>)
    requires PickedAt(init, before, FirstPerKey(init, key)) && AreFirst(init, key, before)
    ensures PickedAt(init + [last], positions, FirstPerKey(init + [last], key))
    ensures AreFirst(init + [last], key, positions)
  {
    positions := if key(last) in KeySet(init, key) then before else before + [|init|];
    FirstPositionsGrow(init, last, key, before, positions);
    PickedGrows(init, last, before, FirstPerKey(init, key));
    FirstPerKeyStep(init, last, key);
  }

  /** Of the entries with one key the first is kept, and the kept ones stay in order. */
  lemma {:induction false} FirstOfEachKeyIsKept<E, K>(entries: seq<E>, key: E -> K) returns (positions: seq<nat>)
    ensures PickedAt(entries, positions, FirstPerKey(entries, key))
    ensures AreFirst(entries, key, positions)
  {
    if entries == [] {
      positions := [];
    } else {
      var init, last := entries[..|entries| - 1], entries[|entries| - 1];
      var before := FirstOfEachKeyIsKept(init, key);
      assert entries == init + [last];
      positions := OneMorePosition(init, last, key, before);
    }
  }

  lemma FirstBar(head: JsString, tail: JsString)
    requires 124 !in head
    ensures var s := head + [124] + tail;
            s[|head|] == 124 && (forall k :: 0 <= k < |head| ==> s[k] != 124) && s[..|head|] == head
            && s[|head| + 1..] == tail
  {
  }

  lemma LastWord(head: JsString, tail: JsString, head': JsString, tail': JsString)
    requires 124 !in head && 124 !in head' && head + [124] + tail == head' + [124] + tail'
    ensures head == head' && tail == tail'
  {
    FirstBar(head, tail);
    FirstBar(head', tail');
  }

  lemma KindNamesDiffer(k: EntryKind, l: EntryKind)
    ensures KindName(k) == KindName(l) <==> k == l
    ensures 124 !in KindName(k)
  {
    assert KindName(ReadEntry)[1] != KindName(RunEntry)[1];
  }

  /** Two entries of labels without a bar are the same to the merge exactly when kind, label and
      detail agree, a missing detail counting as an empty one. */
  lemma EntryKeysAgreeIff(e: ExploreEntry, f: ExploreEntry)
    requires 124 !in e.entryLabel && 124 !in f.entryLabel
    ensures EntryKey(e) == EntryKey(f)
            <==> e.kind == f.kind && e.entryLabel == f.entryLabel
                 && (if e.detail.Is? then e.detail.value else []) == (if f.detail.Is? then f.detail.value else [])
  {
    KindNamesDiffer(e.kind, f.kind);
    KindNamesDiffer(f.kind, e.kind);
    var d, d' := e.detail.Get().GetOr([]), f.detail.Get().GetOr([]);
    KeyRegrouped(KindName(e.kind), e.entryLabel, d);
    KeyRegrouped(KindName(f.kind), f.entryLabel, d');
    if EntryKey(e) == EntryKey(f) {
      LastWord(KindName(e.kind), e.entryLabel + [124] + d, KindName(f.kind), f.entryLabel + [124] + d');
      LastWord(e.entryLabel, d, f.entryLabel, d');
    }
  }

  lemma KeyRegrouped(k: JsString, l: JsString, d: JsString)
    ensures k + [124] + l + [124] + d == k + [124] + (l + [124] + d)
  {
  }
}
