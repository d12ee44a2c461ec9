/** Preparing a thread for display: src/utils/threadItems.explore.ts. Which commands count as
    exploration is left to a classifier that looks at the title and the status. */
module Explore {
  import opened Wrappers
  import opened ThreadItems

  const MAX_ITEM_TEXT := 20000
  const MAX_LARGE_TOOL_TEXT := 200000
  const DEFAULT_MAX_ITEMS := 200
  const TOOL_OUTPUT_RECENT_ITEMS := 40

  /** An ASCII literal as a JavaScript string. */
  function Js(s: string): JsString
    requires forall i :: 0 <= i < |s| ==> s[i] < 128 as char
  {
    seq(|s|, i requires 0 <= i < |s| => s[i] as int)
  }

  const ELLIPSIS: JsString := [46, 46, 46]
  const BAR: Unit := 124

  // ---------- normalising ----------

  function TruncateText(text: JsString, max: nat): (r: JsString)
    ensures |text| <= max ==> r == text
    ensures |text| > max >= 3 ==> |r| == max && r[..max - 3] == text[..max - 3]
  {
    if |text| <= max then text else text[..if max >= 3 then max - 3 else 0] + ELLIPSIS
  }

  predicate IsCommand(toolType: JsString) {
    toolType == Js("commandExecution")
  }

  function ToolLimit(toolType: JsString): (max: nat)
    ensures max >= MAX_ITEM_TEXT
  {
    if toolType == Js("fileChange") || IsCommand(toolType) then MAX_LARGE_TOOL_TEXT else MAX_ITEM_TEXT
  }

  /** `value ? truncate(value) : value`, written back. */
  function TruncateField(f: Field<JsString>, max: nat): Field<JsString> {
    if f.Is? then Is(TruncateText(f.value, max)) else f.Written()
  }

  function TruncateAll(texts: seq<JsString>, max: nat): seq<JsString> {
    seq(|texts|, i requires 0 <= i < |texts| => TruncateText(texts[i], max))
  }

  function TruncateDiffs(changes: seq<Change>, max: nat): seq<Change> {
    seq(|changes|, i requires 0 <= i < |changes| =>
      Change(changes[i].path, changes[i].kind, TruncateField(changes[i].diff, max)))
  }

  function TruncateChanges(f: Field<seq<Change>>, max: nat): Field<seq<Change>> {
    if f.Is? then Is(TruncateDiffs(f.value, max)) else f.Written()
  }

  function NormalizeQuestion(q: Question): Question {
    Question(q.id, TruncateText(q.header, 300), TruncateText(q.question, 2000), TruncateAll(q.answers, 2000))
  }

  function NormalizeQuestions(questions: seq<Question>): seq<Question> {
    seq(|questions|, i requires 0 <= i < |questions| => NormalizeQuestion(questions[i]))
  }

  function NormalizeItem(item: Item): Item {
    match item
    case Message(id, role, text, images) => Message(id, role, TruncateText(text, MAX_ITEM_TEXT), images)
    case UserInput(id, questions) => UserInput(id, NormalizeQuestions(questions))
    case Reasoning(id, summary, content) =>
      Reasoning(id, TruncateText(summary, MAX_ITEM_TEXT), TruncateText(content, MAX_ITEM_TEXT))
    case Diff(id, title, diff, status) => Diff(id, title, TruncateText(diff, MAX_ITEM_TEXT), status)
    case Tool(id, toolType, title, detail, status, output, duration, changes, sender, receiver, receivers, statuses) =>
      var max := ToolLimit(toolType);
      Tool(id, toolType, TruncateText(title, 200), TruncateText(detail, 2000), status, TruncateField(output, max),
           duration, TruncateChanges(changes, max), sender, receiver, receivers, statuses)
    case Explore(_, _, _) => item
    case Review(_, _, _) => item
  }

  /** A tool item outside the recent ones: rebuilt only when something changed. */
  function TruncateTool(item: Item): (r: Item)
    requires item.Tool?
    ensures r.Tool?
  {
    var output := TruncateField(item.output, MAX_ITEM_TEXT);
    if output.Get() == item.output.Get() && !item.changes.Is? then item
    else
      Tool(item.id, item.toolType, item.title, item.detail, item.status, output, item.durationMs,
           TruncateChanges(item.changes, MAX_ITEM_TEXT),
           item.collabSender, item.collabReceiver, item.collabReceivers, item.collabStatuses)
  }

  lemma ShorterDiffsStay(changes: seq<Change>, small: nat, max: nat)
    requires 3 <= small <= max
    ensures TruncateDiffs(TruncateDiffs(changes, small), max) == TruncateDiffs(changes, small)
  {
    var once := TruncateDiffs(changes, small);
    var twice := TruncateDiffs(once, max);
    forall i | 0 <= i < |once| ensures twice[i] == once[i] {
      assert once[i].diff == TruncateField(changes[i].diff, small);
    }
  }

  lemma NormalizeQuestionTwice(q: Question)
    ensures NormalizeQuestion(NormalizeQuestion(q)) == NormalizeQuestion(q)
  {
    var once := TruncateAll(q.answers, 2000);
    assert TruncateAll(once, 2000) == once;
  }

  /** Text of the item is within the limits and every rewritten property is present. */
  lemma NormalizeIsIdempotent(item: Item)
    ensures NormalizeItem(NormalizeItem(item)) == NormalizeItem(item)
  {
    if item.UserInput? {
      var once := NormalizeQuestions(item.questions);
      var twice := NormalizeQuestions(once);
      forall i | 0 <= i < |once| ensures twice[i] == once[i] {
        NormalizeQuestionTwice(item.questions[i]);
      }
      assert twice == once;
    } else if item.Tool? && item.changes.Is? {
      ShorterDiffsStay(item.changes.value, ToolLimit(item.toolType), ToolLimit(item.toolType));
    }
  }

  /** Dropping old tool text keeps a normalised item normalised, and is done once. */
  lemma TruncateToolStays(item: Item)
    requires item.Tool? && NormalizeItem(item) == item
    ensures NormalizeItem(TruncateTool(item)) == TruncateTool(item)
    ensures TruncateTool(TruncateTool(item)) == TruncateTool(item)
  {
    if item.changes.Is? {
      ShorterDiffsStay(item.changes.value, MAX_ITEM_TEXT, ToolLimit(item.toolType));
      ShorterDiffsStay(item.changes.value, MAX_ITEM_TEXT, MAX_ITEM_TEXT);
    }
  }

  // ---------- merging explore entries ----------

  /** The name of the kind: read, search, list or run. */
  function KindName(kind: EntryKind): JsString {
    match kind
    case ReadEntry => [114, 101, 97, 100]
    case SearchEntry => [115, 101, 97, 114, 99, 104]
    case ListEntry => [108, 105, 115, 116]
    case RunEntry => [114, 117, 110]
  }

  function EntryKey(e: ExploreEntry): JsString {
    KindName(e.kind) + [BAR] + e.entryLabel + [BAR] + e.detail.Get().GetOr([])
  }

  function KeySet<E, K>(entries: seq<E>, key: E -> K): set<K> {
    if entries == [] then {} else KeySet(entries[..|entries| - 1], key) + {key(entries[|entries| - 1])}
  }

  /** The first entry of every key, in order. */
  function FirstPerKey<E, K(==)>(entries: seq<E>, key: E -> K): seq<E> {
    if entries == [] then []
    else
      var init, last := entries[..|entries| - 1], entries[|entries| - 1];
      if key(last) in KeySet(init, key) then FirstPerKey(init, key) else FirstPerKey(init, key) + [last]
  }

  function Keys(entries: seq<ExploreEntry>): set<JsString> {
    KeySet(entries, EntryKey)
  }

  function Dedupe(entries: seq<ExploreEntry>): seq<ExploreEntry> {
    FirstPerKey(entries, EntryKey)
  }

  method MergeExploreEntries(base: seq<ExploreEntry>, next: seq<ExploreEntry>) returns (deduped: seq<ExploreEntry>)
    ensures deduped == Dedupe(base + next)
  {
    deduped := KeepFirst(base + next, EntryKey);
  }

  /** The loop of `mergeExploreEntries` with its set of seen keys. */
  method KeepFirst<E, K(==)>(merged: seq<E>, keyOf: E -> K) returns (deduped: seq<E>)
    ensures deduped == FirstPerKey(merged, keyOf)
  {
    var seen: set<K> := {};
    deduped := [];
    for i := 0 to |merged|
      invariant seen == KeySet(merged[..i], keyOf) && deduped == FirstPerKey(merged[..i], keyOf)
    {
      assert merged[..i + 1][..i] == merged[..i];
      var key := keyOf(merged[i]);
      if key in seen {
        assert seen + {key} == seen;
        continue;
      }
      seen := seen + {key};
      deduped := deduped + [merged[i]];
    }
    assert merged[..|merged|] == merged;
  }

  ghost predicate DistinctKeys<E, K>(entries: seq<E>, key: E -> K) {
    forall i, j :: 0 <= i < j < |entries| ==> key(entries[i]) != key(entries[j])
  }

  lemma OneMoreKey<E, K>(entries: seq<E>, e: E, key: E -> K)
    ensures KeySet(entries + [e], key) == KeySet(entries, key) + {key(e)}
  {
    assert (entries + [e])[..|entries|] == entries;
  }

  lemma {:induction false} KeySetHolds<E, K>(entries: seq<E>, key: E -> K)
    ensures forall i :: 0 <= i < |entries| ==> key(entries[i]) in KeySet(entries, key)
  {
    if entries != [] {
      KeySetHolds(entries[..|entries| - 1], key);
    }
  }

  /** One entry per key, no key lost. */
  lemma {:induction false} FirstPerKeyKeepsKeys<E, K>(entries: seq<E>, key: E -> K)
    ensures KeySet(FirstPerKey(entries, key), key) == KeySet(entries, key)
    ensures DistinctKeys(FirstPerKey(entries, key), key)
  {
    if entries != [] {
      var init, last := entries[..|entries| - 1], entries[|entries| - 1];
      var kept := FirstPerKey(init, key);
      FirstPerKeyKeepsKeys(init, key);
      KeySetHolds(kept, key);
      OneMoreKey(kept, last, key);
      assert key(last) in KeySet(init, key) ==> KeySet(init, key) + {key(last)} == KeySet(init, key);
    }
  }

  lemma {:induction false} KeySetOfConcat<E, K>(a: seq<E>, b: seq<E>, key: E -> K)
    ensures KeySet(a + b, key) == KeySet(a, key) + KeySet(b, key)
  {
    if b == [] {
      assert a + b == a;
    } else {
      var init, last := b[..|b| - 1], b[|b| - 1];
      KeySetOfConcat(a, init, key);
      OneMoreKey(a + init, last, key);
      assert a + b == (a + init) + [last];
    }
  }

  /** As for any key: the entries of the merged list have distinct keys, and no key is lost. */
  lemma DedupeKeepsKeys(entries: seq<ExploreEntry>)
    ensures Keys(Dedupe(entries)) == Keys(entries)
    ensures DistinctKeys(Dedupe(entries), EntryKey)
  {
    FirstPerKeyKeepsKeys(entries, EntryKey);
  }

  // ---------- summarising exploration ----------

  datatype Exploration = Exploration(status: ExploreStatus, entries: seq<ExploreEntry>)

  /** `summarizeCommandExecution` as a function of the title and the status: none for a command that
      is not exploration. */
  type Classifier = (JsString, Option<JsString>) -> Option<Exploration>

  /** What an item explores, if anything. */
  type Reader = Item -> Option<Exploration>

  function ReadItem(item: Item, classify: Classifier): Option<Exploration> {
    if item.Explore? then Some(Exploration(item.exploreStatus, item.entries))
    else if item.Tool? && IsCommand(item.toolType) then classify(item.title, item.status.Get())
    else None
  }

  function ReadWith(classify: Classifier): (read: Reader)
    ensures forall item :: read(item) == ReadItem(item, classify)
  {
    item => ReadItem(item, classify)
  }

  predicate JoinsLast(result: seq<Item>, status: ExploreStatus) {
    result != [] && result[|result| - 1].Explore? && result[|result| - 1].exploreStatus == status
  }

  function Extend(last: Item, entries: seq<ExploreEntry>): Item
    requires last.Explore?
  {
    Explore(last.id, last.exploreStatus, Dedupe(last.entries + entries))
  }

  function Push(result: seq<Item>, item: Item, read: Reader): seq<Item> {
    var e := read(item);
    if e.None? then result + [item]
    else if JoinsLast(result, e.value.status) then
      result[|result| - 1 := Extend(result[|result| - 1], e.value.entries)]
    else result + [Explore(item.id, e.value.status, e.value.entries)]
  }

  function Summarize(items: seq<Item>, read: Reader): (r: seq<Item>)
    ensures |r| <= |items|
  {
    if items == [] then []
    else Push(Summarize(items[..|items| - 1], read), items[|items| - 1], read)
  }

  method SummarizeExploration(items: seq<Item>, classify: Classifier) returns (result: seq<Item>)
    ensures result == Summarize(items, ReadWith(classify))
  {
    result := [];
    for i := 0 to |items|
      invariant result == Summarize(items[..i], ReadWith(classify))
    {
      assert items[..i + 1][..i] == items[..i];
      result := PushItem(result, items[i], classify);
    }
    assert items[..|items|] == items;
  }

  /** One round of the loop. */
  method PushItem(result: seq<Item>, item: Item, classify: Classifier) returns (next: seq<Item>)
    ensures next == Push(result, item, ReadWith(classify))
  {
    if item.Explore? {
      if JoinsLast(result, item.exploreStatus) {
        var last := result[|result| - 1];
        var entries := MergeExploreEntries(last.entries, item.entries);
        return result[|result| - 1 := Explore(last.id, last.exploreStatus, entries)];
      }
      return result + [item];
    }
    if item.Tool? && IsCommand(item.toolType) {
      var summary := classify(item.title, item.status.Get());
      if summary.None? {
        return result + [item];
      }
      if JoinsLast(result, summary.value.status) {
        var last := result[|result| - 1];
        var entries := MergeExploreEntries(last.entries, summary.value.entries);
        return result[|result| - 1 := Explore(last.id, last.exploreStatus, entries)];
      }
      return result + [Explore(item.id, summary.value.status, summary.value.entries)];
    }
    return result + [item];
  }

  /** No two neighbours are explore items of equal status. */
  ghost predicate Alternates(items: seq<Item>) {
    forall i :: 0 <= i < |items| - 1 && items[i].Explore? && items[i + 1].Explore? ==>
                  items[i].exploreStatus != items[i + 1].exploreStatus
  }

  /** The entries that the items of a run contribute, in order. */
  function RunEntries(run: seq<Item>, read: Reader): seq<ExploreEntry> {
    if run == [] then []
    else
      RunEntries(run[..|run| - 1], read)
      + var e := read(run[|run| - 1]); if e.Some? then e.value.entries else []
  }

  /** `r` stands for the consecutive items `run`: a single item that is not exploration, or a run of
      explorations of one status. The entries of a longer run are those of its parts, in order, once
      per key. */
  ghost predicate StandsFor(r: Item, run: seq<Item>, read: Reader) {
    && run != []
    && r.id == run[0].id
    && (read(run[0]).None? ==> run == [r])
    && (read(run[0]).Some? ==>
          && r.Explore?
          && r.entries == (if |run| == 1 then read(run[0]).value.entries else Dedupe(RunEntries(run, read)))
          && forall i :: 0 <= i < |run| ==> read(run[i]).Some? && read(run[i]).value.status == r.exploreStatus)
  }

  /** Between the positions `from` and `to` lies the run that `r` stands for. */
  ghost predicate RunAt(items: seq<Item>, r: Item, from: nat, to: nat, read: Reader) {
    from < to <= |items| && StandsFor(r, items[from..to], read)
  }

  /** `items` is cut at these positions into the runs that `result` stands for. */
  ghost predicate CutInto(items: seq<Item>, result: seq<Item>, cuts: seq<nat>, read: Reader) {
    && |cuts| == |result| + 1
    && cuts[0] == 0 && cuts[|result|] == |items|
    && forall i :: 0 <= i < |result| ==> RunAt(items, result[i], cuts[i], cuts[i + 1], read)
  }

  /** Explore items read as exploration. */
  ghost predicate ReadsExplore(items: seq<Item>, read: Reader) {
    forall i :: 0 <= i < |items| && items[i].Explore? ==> read(items[i]).Some?
  }

  lemma {:induction false} DedupeStep<E, K>(a: seq<E>, b: seq<E>, last: E, key: E -> K)
    requires FirstPerKey(FirstPerKey(a, key) + b, key) == FirstPerKey(a + b, key)
    ensures FirstPerKey(FirstPerKey(a, key) + (b + [last]), key) == FirstPerKey(a + (b + [last]), key)
  {
    var kept := FirstPerKey(a, key);
    FirstPerKeyKeepsKeys(a, key);
    KeySetOfConcat(kept, b, key);
    KeySetOfConcat(a, b, key);
    Regroup(kept, b, [last]);
    Regroup(a, b, [last]);
    assert ((kept + b) + [last])[..|kept + b|] == kept + b;
    assert ((a + b) + [last])[..|a + b|] == a + b;
  }

  lemma {:induction false} FirstPerKeyFixed<E, K>(entries: seq<E>, key: E -> K)
    requires DistinctKeys(entries, key)
    ensures FirstPerKey(entries, key) == entries
  {
    if entries != [] {
      var init, last := entries[..|entries| - 1], entries[|entries| - 1];
      FirstPerKeyFixed(init, key);
      KeySetIsFrom(init, key);
      assert entries == init + [last];
    }
  }

  lemma {:induction false} KeySetIsFrom<E, K>(entries: seq<E>, key: E -> K)
    ensures forall k :: k in KeySet(entries, key) ==> exists i :: 0 <= i < |entries| && key(entries[i]) == k
  {
    if entries != [] {
      KeySetIsFrom(entries[..|entries| - 1], key);
    }
  }

  /** Entries already reduced to one per key need not be looked at again. */
  lemma {:induction false} FirstPerKeyAbsorbs<E, K>(a: seq<E>, b: seq<E>, key: E -> K)
    ensures FirstPerKey(FirstPerKey(a, key) + b, key) == FirstPerKey(a + b, key)
  {
    if b == [] {
      FirstPerKeyKeepsKeys(a, key);
      FirstPerKeyFixed(FirstPerKey(a, key), key);
      assert a + b == a && FirstPerKey(a, key) + b == FirstPerKey(a, key);
    } else {
      var init, last := b[..|b| - 1], b[|b| - 1];
      FirstPerKeyAbsorbs(a, init, key);
      DedupeStep(a, init, last, key);
      assert b == init + [last];
    }
  }

  lemma StandsForOne(item: Item, read: Reader)
    requires read(item).Some?
    ensures StandsFor(Explore(item.id, read(item).value.status, read(item).value.entries), [item], read)
  {
    assert [item][..0] == [];
  }

  lemma OneRunEntries(item: Item, read: Reader)
    ensures RunEntries([item], read) == if read(item).Some? then read(item).value.entries else []
  {
    assert [item][..0] == [];
  }

  lemma LongerRunEntries(r: Item, run: seq<Item>, item: Item, read: Reader)
    requires StandsFor(r, run, read) && read(run[0]).Some? && read(item).Some?
    ensures Dedupe(r.entries + read(item).value.entries) == Dedupe(RunEntries(run + [item], read))
  {
    var entries := read(item).value.entries;
    assert (run + [item])[..|run|] == run;
    if |run| == 1 {
      OneRunEntries(run[0], read);
      assert run == [run[0]];
    } else {
      FirstPerKeyAbsorbs(RunEntries(run, read), entries, EntryKey);
    }
  }

  lemma StandsForExtended(r: Item, run: seq<Item>, item: Item, read: Reader)
    requires StandsFor(r, run, read) && read(run[0]).Some?
    requires read(item).Some? && read(item).value.status == r.exploreStatus
    ensures StandsFor(Extend(r, read(item).value.entries), run + [item], read)
  {
    LongerRunEntries(r, run, item, read);
  }

  lemma RunsStay(items: seq<Item>, item: Item, r: Item, from: nat, to: nat, read: Reader)
    requires RunAt(items, r, from, to, read)
    ensures RunAt(items + [item], r, from, to, read)
  {
    assert (items + [item])[from..to] == items[from..to];
  }

  lemma JoinedRun(items: seq<Item>, item: Item, last: Item, from: nat, read: Reader)
    requires RunAt(items, last, from, |items|, read) && last.Explore? && ReadsExplore(items, read)
    requires read(item).Some? && read(item).value.status == last.exploreStatus
    ensures RunAt(items + [item], Extend(last, read(item).value.entries), from, |items| + 1, read)
  {
    var run, all := items[from..|items|], items + [item];
    assert all[from..|items| + 1] == run + [item];
    assert run[0] == items[from];
    StandsForExtended(last, run, item, read);
  }

  lemma JoinedRunAt(items: seq<Item>, item: Item, result: seq<Item>, cuts: seq<nat>, read: Reader, i: nat)
    requires CutInto(items, result, cuts, read) && ReadsExplore(items, read)
    requires read(item).Some? && JoinsLast(result, read(item).value.status) && i < |result|
    ensures RunAt(items + [item], Push(result, item, read)[i], cuts[i],
                  if i + 1 < |result| then cuts[i + 1] else |items| + 1, read)
  {
    assert RunAt(items, result[i], cuts[i], cuts[i + 1], read);
    if i + 1 < |result| {
      RunsStay(items, item, result[i], cuts[i], cuts[i + 1], read);
    } else {
      JoinedRun(items, item, result[i], cuts[i], read);
    }
  }

  lemma JoiningExtendsCuts(items: seq<Item>, item: Item, result: seq<Item>, cuts: seq<nat>, read: Reader)
    requires CutInto(items, result, cuts, read) && ReadsExplore(items, read)
    requires read(item).Some? && JoinsLast(result, read(item).value.status)
    ensures CutInto(items + [item], Push(result, item, read), cuts[|result| := |items| + 1], read)
  {
    forall i: nat | i < |result|
      ensures RunAt(items + [item], Push(result, item, read)[i], cuts[i],
                    if i + 1 < |result| then cuts[i + 1] else |items| + 1, read)
    {
      JoinedRunAt(items, item, result, cuts, read, i);
    }
  }

  lemma AppendingExtendsCuts(items: seq<Item>, item: Item, result: seq<Item>, cuts: seq<nat>, read: Reader)
    requires CutInto(items, result, cuts, read)
    requires read(item).None? || !JoinsLast(result, read(item).value.status)
    ensures CutInto(items + [item], Push(result, item, read), cuts + [|items| + 1], read)
  {
    var n, all, longer := |result|, items + [item], cuts + [|items| + 1];
    var pushed := Push(result, item, read);
    assert all[|items|..|all|] == [item];
    if read(item).Some? {
      StandsForOne(item, read);
    }
    assert RunAt(all, pushed[n], |items|, |all|, read);
    forall i | 0 <= i <= n ensures RunAt(all, pushed[i], longer[i], longer[i + 1], read) {
      if i < n {
        RunsStay(items, item, result[i], cuts[i], cuts[i + 1], read);
      }
    }
  }

  /** The summary cuts the items into consecutive runs, each shown by one item: an exploration run of
      one status with the union of the keys, or a single other item, unchanged. */
  lemma {:induction false} SummaryIsRuns(items: seq<Item>, read: Reader) returns (cuts: seq<nat>)
    requires ReadsExplore(items, read)
    ensures CutInto(items, Summarize(items, read), cuts, read)
  {
    if items == [] {
      cuts := [0];
    } else {
      var init, last := items[..|items| - 1], items[|items| - 1];
      var before := SummaryIsRuns(init, read);
      var result := Summarize(init, read);
      assert items == init + [last];
      if read(last).Some? && JoinsLast(result, read(last).value.status) {
        cuts := before[|result| := |init| + 1];
        JoiningExtendsCuts(init, last, result, before, read);
      } else {
        cuts := before + [|init| + 1];
        AppendingExtendsCuts(init, last, result, before, read);
      }
    }
  }

  lemma PushAlternates(result: seq<Item>, item: Item, read: Reader)
    requires Alternates(result) && (item.Explore? ==> read(item).Some?)
    ensures Alternates(Push(result, item, read))
  {
  }

  /** The summary never has two neighbouring explore items of equal status. */
  lemma {:induction false} SummaryAlternates(items: seq<Item>, read: Reader)
    requires ReadsExplore(items, read)
    ensures Alternates(Summarize(items, read))
  {
    if items != [] {
      SummaryAlternates(items[..|items| - 1], read);
      PushAlternates(Summarize(items[..|items| - 1], read), items[|items| - 1], read);
    }
  }

  /** Every summary item is an explore item or one of the items that explore nothing. */
  lemma {:induction false} SummaryIsSettled(items: seq<Item>, read: Reader)
    ensures forall r :: r in Summarize(items, read) ==> r.Explore? || (read(r).None? && r in items)
  {
    if items != [] {
      SummaryIsSettled(items[..|items| - 1], read);
      assert forall r :: r in items[..|items| - 1] ==> r in items;
    }
  }

  /** A settled list of items is left alone. */
  lemma {:induction false} SummarizeFixed(items: seq<Item>, read: Reader)
    requires Alternates(items)
    requires forall i :: 0 <= i < |items| ==>
               read(items[i])
               == if items[i].Explore? then Some(Exploration(items[i].exploreStatus, items[i].entries)) else None
    ensures Summarize(items, read) == items
  {
    if items != [] {
      var init, last := items[..|items| - 1], items[|items| - 1];
      SummarizeFixed(init, read);
      PushFixed(init, last, read);
      assert items == init + [last];
    }
  }

  lemma PushFixed(init: seq<Item>, last: Item, read: Reader)
    requires read(last) == if last.Explore? then Some(Exploration(last.exploreStatus, last.entries)) else None
    requires last.Explore? ==> !JoinsLast(init, last.exploreStatus)
    ensures Push(init, last, read) == init + [last]
  {
  }
}
