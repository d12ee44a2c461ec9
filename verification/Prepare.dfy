/** `prepareThreadItems` of src/utils/threadItems.explore.ts, which runs again on its own output. */
module Prepare {
  import opened Wrappers
  import opened ThreadItems
  import opened Explore

  /** `options?.maxItemsPerThread`. */
  datatype MaxItems = Unset | NoLimit | NotFinite | Count(value: real)

  function EffectiveMax(option: MaxItems): Option<nat> {
    match option
    case NoLimit => None
    case Count(value) => Some(if value > 0.0 then value.Floor else DEFAULT_MAX_ITEMS)
    case _ => Some(DEFAULT_MAX_ITEMS)
  }

  /** An assistant message that repeats the completed review before it. */
  predicate Echoes(review: Item, message: Item) {
    && message.Message? && message.role == Assistant
    && review.Review? && review.state == ReviewCompleted
    && Trim(message.text) == Trim(review.text)
  }

  ghost predicate HasEcho(items: seq<Item>) {
    exists i :: 0 <= i < |items| - 1 && Echoes(items[i], items[i + 1])
  }

  predicate EchoesLast(kept: seq<Item>, item: Item) {
    kept != [] && Echoes(kept[|kept| - 1], item)
  }

  function Filter(items: seq<Item>): (r: seq<Item>)
    ensures |r| <= |items|
  {
    if items == [] then []
    else
      var kept, item := Filter(items[..|items| - 1]), items[|items| - 1];
      if EchoesLast(kept, item) then kept else kept + [item]
  }

  function NormalizeAll(items: seq<Item>): (r: seq<Item>)
    ensures |r| == |items| && forall i :: 0 <= i < |items| ==> r[i] == NormalizeItem(items[i])
  {
    seq(|items|, i requires 0 <= i < |items| => NormalizeItem(items[i]))
  }

  /** `items.slice(-max)` beyond the limit; `slice(-0)` keeps everything. */
  function Limit(items: seq<Item>, max: Option<nat>): (r: seq<Item>)
    ensures |r| <= |items|
    ensures max.Some? && 0 < max.value <= |items| ==> |r| == max.value
  {
    if max.None? || |items| <= max.value || max.value == 0 then items else items[|items| - max.value..]
  }

  /** Tool items before the most recent forty lose their long output. */
  function TruncateOld(items: seq<Item>): (r: seq<Item>)
    ensures |r| == |items|
    ensures forall i :: 0 <= i < |items| ==>
                        r[i] == if i + TOOL_OUTPUT_RECENT_ITEMS >= |items| || !items[i].Tool? then items[i]
                                else TruncateTool(items[i])
  {
    seq(|items|, i requires 0 <= i < |items| =>
      if i + TOOL_OUTPUT_RECENT_ITEMS >= |items| || !items[i].Tool? then items[i] else TruncateTool(items[i]))
  }

  /** The items that reach the summary. */
  function Shown(items: seq<Item>, option: MaxItems): seq<Item> {
    Limit(NormalizeAll(Filter(items)), EffectiveMax(option))
  }

  function Prepared(items: seq<Item>, option: MaxItems, read: Reader): seq<Item> {
    TruncateOld(Summarize(Shown(items, option), read))
  }

  method PrepareThreadItems(items: seq<Item>, option: MaxItems, classify: Classifier) returns (prepared: seq<Item>)
    ensures prepared == Prepared(items, option, ReadWith(classify))
  {
    var filtered := [];
    for i := 0 to |items|
      invariant filtered == Filter(items[..i])
    {
      assert items[..i + 1][..i] == items[..i];
      if !EchoesLast(filtered, items[i]) {
        filtered := filtered + [items[i]];
      }
    }
    assert items[..|items|] == items;
    var summarized := SummarizeExploration(Limit(NormalizeAll(filtered), EffectiveMax(option)), classify);
    return TruncateOld(summarized);
  }

  // ---------- the limit ----------

  /** The limit is kept exactly when it is at least one, or there is nothing to show. */
  lemma LimitIsKeptIff(items: seq<Item>, max: nat)
    ensures |Limit(items, Some(max))| <= max <==> max > 0 || items == []
  {
  }

  /** The option that `slice(-0)` turns into no limit at all. */
  lemma FractionIsNoLimitIff(option: MaxItems)
    ensures EffectiveMax(option) == Some(0) <==> option.Count? && 0.0 < option.value < 1.0
  {
  }

  /** Every other limit holds for what is shown in the end. */
  lemma PreparedIsLimited(items: seq<Item>, option: MaxItems, read: Reader)
    requires EffectiveMax(option).Some? && EffectiveMax(option).value > 0
    ensures |Prepared(items, option, read)| <= EffectiveMax(option).value
  {
    LimitIsKeptIff(NormalizeAll(Filter(items)), EffectiveMax(option).value);
  }

  /** With a limit of one half, two items are shown. */
  lemma HalfShowsTwo(classify: Classifier)
    ensures var items := [Reasoning([1], [], []), Reasoning([2], [], [])];
            Prepared(items, Count(0.5), ReadWith(classify)) == items
  {
    TwoItemsStay(Reasoning([1], [], []), Reasoning([2], [], []), Count(0.5), ReadWith(classify));
  }

  // ---------- the filter ----------

  lemma AppendEcho(items: seq<Item>, item: Item)
    ensures HasEcho(items + [item]) <==> HasEcho(items) || EchoesLast(items, item)
  {
    var all := items + [item];
    if i :| 0 <= i < |items| - 1 && Echoes(items[i], items[i + 1]) {
      assert Echoes(all[i], all[i + 1]);
    }
    if EchoesLast(items, item) {
      assert Echoes(all[|items| - 1], all[|items| - 1 + 1]);
    }
    if i :| 0 <= i < |all| - 1 && Echoes(all[i], all[i + 1]) {
      assert i + 1 < |items| ==> Echoes(items[i], items[i + 1]);
    }
  }

  lemma {:induction false} FilterLeavesNoEcho(items: seq<Item>)
    ensures !HasEcho(Filter(items))
  {
    if items != [] {
      FilterLeavesNoEcho(items[..|items| - 1]);
      AppendEcho(Filter(items[..|items| - 1]), items[|items| - 1]);
    }
  }

  lemma FilterStep(init: seq<Item>, item: Item, kept: seq<Item>)
    requires (!HasEcho(init) ==> kept == init) && (HasEcho(init) ==> |kept| < |init|)
    ensures var next := if EchoesLast(kept, item) then kept else kept + [item];
            && (!HasEcho(init + [item]) ==> next == init + [item])
            && (HasEcho(init + [item]) ==> |next| < |init + [item]|)
  {
    AppendEcho(init, item);
  }

  /** The filter changes the length exactly when there is an echo to drop. */
  lemma {:induction false} FilterKeepsIff(items: seq<Item>)
    ensures !HasEcho(items) ==> Filter(items) == items
    ensures HasEcho(items) ==> |Filter(items)| < |items|
  {
    if items != [] {
      var init, item := items[..|items| - 1], items[|items| - 1];
      assert items == init + [item];
      FilterKeepsIff(init);
      FilterStep(init, item, Filter(init));
    }
  }

  // ---------- what the later stages do to echoes ----------

  lemma {:induction false} SummaryEnd(items: seq<Item>, read: Reader)
    requires items != []
    ensures Summarize(items, read) != []
    ensures var last, end := items[|items| - 1], Summarize(items, read)[|Summarize(items, read)| - 1];
            if read(last).None? then end == last else end.Explore?
  {
  }

  lemma SummaryEndEchoes(items: seq<Item>, item: Item, read: Reader)
    requires forall i :: 0 <= i < |items| && items[i].Review? ==> read(items[i]).None?
    ensures EchoesLast(Summarize(items, read), item) <==> EchoesLast(items, item)
  {
    if items != [] {
      SummaryEnd(items, read);
    }
  }

  lemma SummaryEchoStep(init: seq<Item>, item: Item, before: seq<Item>, read: Reader)
    requires HasEcho(before) <==> HasEcho(init)
    requires EchoesLast(before, item) <==> EchoesLast(init, item)
    requires (item.Explore? ==> read(item).Some?) && (item.Message? ==> read(item).None?)
    ensures HasEcho(Push(before, item, read)) <==> HasEcho(init + [item])
  {
    AppendEcho(init, item);
    PushKeepsEchoes(before, item, read);
  }

  /** Summarising neither creates nor hides an echo: reviews and messages explore nothing. */
  lemma {:induction false} SummaryKeepsEchoes(items: seq<Item>, read: Reader)
    requires ReadsExplore(items, read)
    requires forall i :: 0 <= i < |items| && (items[i].Review? || items[i].Message?) ==> read(items[i]).None?
    ensures HasEcho(Summarize(items, read)) <==> HasEcho(items)
  {
    if items != [] {
      var init, item := items[..|items| - 1], items[|items| - 1];
      SummaryKeepsEchoes(init, read);
      SummaryEndEchoes(init, item, read);
      SummaryEchoStep(init, item, Summarize(init, read), read);
      assert items == init + [item];
    }
  }

  lemma PushKeepsEchoes(before: seq<Item>, item: Item, read: Reader)
    requires item.Explore? ==> read(item).Some?
    requires item.Message? ==> read(item).None?
    ensures HasEcho(Push(before, item, read)) <==> HasEcho(before) || EchoesLast(before, item)
  {
    var e := read(item);
    if e.None? {
      AppendEcho(before, item);
    } else if JoinsLast(before, e.value.status) {
      var n: nat := |before| - 1;
      assert before == before[..n] + [before[n]];
      AppendEcho(before[..n], before[n]);
      var last := Extend(before[n], e.value.entries);
      assert Push(before, item, read) == before[..n] + [last];
      AppendEcho(before[..n], last);
    } else {
      AppendEcho(before, Explore(item.id, e.value.status, e.value.entries));
    }
  }

  lemma TruncateKeepsEchoes(items: seq<Item>)
    ensures HasEcho(TruncateOld(items)) <==> HasEcho(items)
  {
    var after := TruncateOld(items);
    if i :| 0 <= i < |items| - 1 && Echoes(items[i], items[i + 1]) {
      assert Echoes(after[i], after[i + 1]);
    }
    if i :| 0 <= i < |after| - 1 && Echoes(after[i], after[i + 1]) {
      assert Echoes(items[i], items[i + 1]);
    }
  }

  // ---------- the output is stable under the stages after the filter ----------

  ghost predicate Normalized(items: seq<Item>) {
    forall i :: 0 <= i < |items| ==> NormalizeItem(items[i]) == items[i]
  }

  lemma ShownIsNormalized(items: seq<Item>, option: MaxItems)
    ensures Normalized(Shown(items, option))
  {
    var kept := Filter(items);
    var all, shown := NormalizeAll(kept), Shown(items, option);
    forall i | 0 <= i < |shown| ensures NormalizeItem(shown[i]) == shown[i] {
      var k := i + |all| - |shown|;
      assert shown[i] == all[k] == NormalizeItem(kept[k]);
      NormalizeIsIdempotent(kept[k]);
    }
  }

  lemma SummaryIsNormalized(items: seq<Item>, read: Reader)
    requires Normalized(items)
    ensures Normalized(Summarize(items, read))
  {
    var s := Summarize(items, read);
    SummaryIsSettled(items, read);
    forall i | 0 <= i < |s| ensures NormalizeItem(s[i]) == s[i] {
      assert s[i] in s;
      assert s[i].Explore? || s[i] in items;
    }
  }

  lemma TruncateOldStays(items: seq<Item>)
    requires Normalized(items)
    ensures Normalized(TruncateOld(items))
    ensures TruncateOld(TruncateOld(items)) == TruncateOld(items)
  {
    var once := TruncateOld(items);
    forall i | 0 <= i < |items|
      ensures NormalizeItem(once[i]) == once[i] && TruncateOld(once)[i] == once[i]
    {
      if items[i].Tool? {
        TruncateToolStays(items[i]);
      }
    }
  }

  lemma SummaryOfPrepared(shown: seq<Item>, classify: Classifier)
    ensures var s := TruncateOld(Summarize(shown, ReadWith(classify)));
            Summarize(s, ReadWith(classify)) == s
  {
    var read := ReadWith(classify);
    var before := Summarize(shown, read);
    var after := TruncateOld(before);
    SummaryAlternates(shown, read);
    SummaryIsSettled(shown, read);
    forall i | 0 <= i < |after|
      ensures read(after[i])
              == if after[i].Explore? then Some(Exploration(after[i].exploreStatus, after[i].entries)) else None
    {
      assert before[i] in before;
      assert read(after[i]) == read(before[i]);
    }
    SummarizeFixed(after, read);
  }

  lemma LimitOnce(items: seq<Item>, kept: seq<Item>, max: Option<nat>)
    requires |items| <= |Limit(kept, max)|
    ensures Limit(items, max) == items
  {
  }

  // ---------- idempotence ----------

  /** Preparing again changes nothing exactly when no shown assistant message, as truncated, repeats
      the completed review shown before it. */
  lemma PrepareIsIdempotentIff(items: seq<Item>, option: MaxItems, classify: Classifier)
    ensures var once := Prepared(items, option, ReadWith(classify));
            Prepared(once, option, ReadWith(classify)) == once <==> !HasEcho(Shown(items, option))
  {
    var read := ReadWith(classify);
    var shown := Shown(items, option);
    var summary := Summarize(shown, read);
    var once := TruncateOld(summary);
    ShownIsNormalized(items, option);
    SummaryIsNormalized(shown, read);
    TruncateOldStays(summary);
    SummaryKeepsEchoes(shown, read);
    TruncateKeepsEchoes(summary);
    FilterKeepsIff(once);
    if !HasEcho(once) {
      assert NormalizeAll(once) == once;
      LimitOnce(once, NormalizeAll(Filter(items)), EffectiveMax(option));
      SummaryOfPrepared(shown, classify);
    } else {
      assert |Prepared(once, option, read)| <= |Filter(once)|;
    }
  }

  lemma EchoOfNormalized(a: Item, b: Item)
    requires Echoes(NormalizeItem(a), NormalizeItem(b))
    requires b.Message? && b.role == Assistant ==> |b.text| <= MAX_ITEM_TEXT
    ensures Echoes(a, b)
  {
  }

  lemma EchoInLimit(all: seq<Item>, max: Option<nat>) returns (k: nat)
    requires HasEcho(Limit(all, max))
    ensures k + 1 < |all| && Echoes(all[k], all[k + 1])
  {
    var shown := Limit(all, max);
    var i :| 0 <= i < |shown| - 1 && Echoes(shown[i], shown[i + 1]);
    k := i + |all| - |shown|;
  }

  lemma ShortEchoIsOld(kept: seq<Item>, max: Option<nat>)
    requires HasEcho(Limit(NormalizeAll(kept), max))
    requires forall i :: 0 <= i < |kept| && kept[i].Message? && kept[i].role == Assistant ==>
                         |kept[i].text| <= MAX_ITEM_TEXT
    ensures HasEcho(kept)
  {
    var k := EchoInLimit(NormalizeAll(kept), max);
    EchoOfNormalized(kept[k], kept[k + 1]);
  }

  /** Idempotent whenever the assistant messages are within the text limit. */
  lemma ShortMessagesAreStable(items: seq<Item>, option: MaxItems, classify: Classifier)
    requires forall item :: item in items && item.Message? && item.role == Assistant ==> |item.text| <= MAX_ITEM_TEXT
    ensures var once := Prepared(items, option, ReadWith(classify));
            Prepared(once, option, ReadWith(classify)) == once
  {
    var kept := Filter(items);
    FilterLeavesNoEcho(items);
    FilterIsSublist(items);
    assert forall i :: 0 <= i < |kept| ==> kept[i] in kept;
    assert !HasEcho(Shown(items, option)) by {
      if HasEcho(Shown(items, option)) {
        ShortEchoIsOld(kept, EffectiveMax(option));
      }
    }
    PrepareIsIdempotentIff(items, option, classify);
  }

  lemma {:induction false} FilterIsSublist(items: seq<Item>)
    ensures forall item :: item in Filter(items) ==> item in items
  {
    if items != [] {
      FilterIsSublist(items[..|items| - 1]);
    }
  }

  /** A message one unit over the limit, after the review that says what it is cut to, is shown the
      first time and dropped the second. */
  lemma LongEchoIsDroppedLater(classify: Classifier)
    ensures var text: JsString := seq(MAX_ITEM_TEXT + 1, _ => 97);
            var items := [Review([1], ReviewCompleted, TruncateText(text, MAX_ITEM_TEXT)),
                          Message([2], Assistant, text, Absent)];
            var once := Prepared(items, Unset, ReadWith(classify));
            |once| == 2 && |Prepared(once, Unset, ReadWith(classify))| < 2
  {
    var text: JsString := seq(MAX_ITEM_TEXT + 1, _ => 97);
    var cut := TruncateText(text, MAX_ITEM_TEXT);
    var review, message := Review([1], ReviewCompleted, cut), Message([2], Assistant, text, Absent);
    var read := ReadWith(classify);
    assert |Trim(text)| == |text| && Trim(cut) == cut;
    TwoItemsStay(review, message, Unset, read);
    FilterKeepsIff([review, Message([2], Assistant, cut, Absent)]);
  }

  lemma FilterOfTwo(a: Item, b: Item)
    requires !Echoes(a, b)
    ensures Filter([a, b]) == [a, b]
  {
    assert [a, b][..1] == [a] && [a][..0] == [];
    assert Filter([a]) == [a];
  }

  lemma SummaryOfTwo(a: Item, b: Item, read: Reader)
    requires read(a).None? && read(b).None?
    ensures Summarize([a, b], read) == [a, b]
  {
    assert [a, b][..1] == [a] && [a][..0] == [];
    assert Summarize([a], read) == [a];
  }

  lemma TwoItemsStay(a: Item, b: Item, option: MaxItems, read: Reader)
    requires !Echoes(a, b) && NormalizeItem(a) == a
    requires read(a).None? && read(NormalizeItem(b)).None?
    requires EffectiveMax(option).Some? && EffectiveMax(option).value != 1
    ensures Prepared([a, b], option, read) == [a, NormalizeItem(b)]
  {
    var shown := [a, NormalizeItem(b)];
    FilterOfTwo(a, b);
    assert NormalizeAll([a, b]) == shown;
    SummaryOfTwo(a, NormalizeItem(b), read);
    assert TruncateOld(shown) == shown;
  }
}
