/** Upsert and merge of conversation items: src/utils/threadItems.listOps.ts. */
module ListOps {
  import opened Wrappers
  import opened ThreadItems

  // ---------- merging one item into its predecessor ----------

  function Longer(incoming: JsString, existing: JsString): JsString {
    if |incoming| >= |existing| then incoming else existing
  }

  /** The last entry with this id, as `new Map(..)` keeps it. */
  function LastById(questions: seq<Question>, id: JsString): Option<Question> {
    if questions == [] then None
    else if questions[|questions| - 1].id == id then Some(questions[|questions| - 1])
    else LastById(questions[..|questions| - 1], id)
  }

  function MergeQuestion(prior: Option<Question>, q: Question): Question {
    if prior.None? then q
    else Question(q.id,
                  if Trim(q.header) != [] then q.header else prior.value.header,
                  if Trim(q.question) != [] then q.question else prior.value.question,
                  if q.answers != [] then q.answers else prior.value.answers)
  }

  function QuestionIds(questions: seq<Question>): (ids: seq<JsString>)
    ensures |ids| == |questions| && forall i :: 0 <= i < |questions| ==> ids[i] == questions[i].id
  {
    seq(|questions|, i requires 0 <= i < |questions| => questions[i].id)
  }

  function MergeIncoming(existing: seq<Question>, incoming: seq<Question>): (r: seq<Question>)
    ensures |r| == |incoming|
    ensures forall i :: 0 <= i < |incoming| ==> r[i] == MergeQuestion(LastById(existing, incoming[i].id), incoming[i])
  {
    seq(|incoming|, i requires 0 <= i < |incoming| =>
      MergeQuestion(LastById(existing, incoming[i].id), incoming[i]))
  }

  function NotIn(questions: seq<Question>, ids: seq<JsString>): seq<Question> {
    if questions == [] then []
    else (if questions[0].id in ids then [] else [questions[0]]) + NotIn(questions[1..], ids)
  }

  function MergeUserInputQuestions(existing: seq<Question>, incoming: seq<Question>): seq<Question> {
    MergeIncoming(existing, incoming) + NotIn(existing, QuestionIds(incoming))
  }

  /** The item `upsertItem` stores in place of `existing`. */
  function Merged(existing: Item, item: Item): Item
    requires existing.id == item.id
  {
    if !SameKind(existing, item) then item
    else
      match item
      case Message(id, role, text, images) =>
        Message(id, role, Longer(text, existing.text),
                if HasElements(images) then images else existing.images.Written())
      case UserInput(id, questions) => UserInput(id, MergeUserInputQuestions(existing.questions, questions))
      case Reasoning(id, summary, content) =>
        Reasoning(id, Longer(summary, existing.summary), Longer(content, existing.content))
      case Tool(id, toolType, title, detail, status, output, duration, changes,
                sender, receiver, receivers, statuses) =>
        var outputText, previous := output.Get().GetOr([]), existing.output.Get().GetOr([]);
        Tool(id, toolType,
             if Trim(title) != [] then title else existing.title,
             if Trim(detail) != [] then detail else existing.detail,
             if HasText(status) then status else existing.status.Written(),
             Is(if Trim(outputText) != [] then outputText else previous),
             if duration.Is? && duration.value.Some? then duration else existing.durationMs.Written(),
             if HasElements(changes) then changes else existing.changes.Written(),
             Spread(existing.collabSender, sender), Spread(existing.collabReceiver, receiver),
             Spread(existing.collabReceivers, receivers), Spread(existing.collabStatuses, statuses))
      case Diff(id, title, diff, status) =>
        Diff(id, if Trim(title) != [] then title else existing.title, Longer(diff, existing.diff),
             if HasText(status) then status else existing.diffStatus.Written())
      case Review(id, state, text) => Review(id, state, Longer(text, existing.text))
      case Explore(_, _, _) => item
  }

  // ---------- upsert ----------

  /** `findIndex`: the first position with this id, or the length. */
  function FirstIndex(list: seq<Item>, id: JsString): (i: nat)
    ensures i <= |list|
    ensures i < |list| ==> list[i].id == id
    ensures forall k :: 0 <= k < i ==> list[k].id != id
  {
    if list == [] || list[0].id == id then 0 else 1 + FirstIndex(list[1..], id)
  }

  function Upsert(list: seq<Item>, item: Item): seq<Item> {
    var i := FirstIndex(list, item.id);
    if i == |list| then list + [item] else list[i := Merged(list[i], item)]
  }

  method UpsertItem(list: seq<Item>, item: Item) returns (next: seq<Item>)
    ensures next == Upsert(list, item)
  {
    var index := 0;
    while index < |list| && list[index].id != item.id
      invariant 0 <= index <= |list|
      invariant forall k :: 0 <= k < index ==> list[k].id != item.id
    {
      index := index + 1;
    }
    assert index == FirstIndex(list, item.id);
    if index == |list| {
      return list + [item];
    }
    next := list;
    next := next[index := Merged(list[index], item)];
  }

  lemma IdsConcat(a: seq<Item>, b: seq<Item>)
    ensures Ids(a + b) == Ids(a) + Ids(b)
  {
  }

  lemma FirstIndexIsFound(list: seq<Item>, id: JsString)
    ensures FirstIndex(list, id) < |list| <==> id in Ids(list)
  {
    var i, ids := FirstIndex(list, id), Ids(list);
    if i < |list| {
      assert ids[i] == id;
    } else {
      assert forall k :: 0 <= k < |ids| ==> ids[k] == list[k].id != id;
    }
  }

  lemma IdsAfterReplacing(list: seq<Item>, i: nat, item: Item)
    requires i < |list| && item.id == list[i].id
    ensures Ids(list[i := item]) == Ids(list)
  {
  }

  lemma UpsertKeepsIds(list: seq<Item>, item: Item)
    ensures Ids(Upsert(list, item)) == if item.id in Ids(list) then Ids(list) else Ids(list) + [item.id]
  {
    var i := FirstIndex(list, item.id);
    FirstIndexIsFound(list, item.id);
    if i < |list| {
      var merged := Merged(list[i], item);
      IdsAfterReplacing(list, i, merged);
    } else {
      IdsConcat(list, [item]);
    }
  }

  /** Ids keep their positions; a new id goes to the end. */
  lemma UpsertKeepsPositions(list: seq<Item>, item: Item)
    ensures Ids(Upsert(list, item)) == if item.id in Ids(list) then Ids(list) else Ids(list) + [item.id]
    ensures forall k :: 0 <= k < |list| && k != FirstIndex(list, item.id) ==> Upsert(list, item)[k] == list[k]
  {
    UpsertKeepsIds(list, item);
  }

  function UpsertAll(list: seq<Item>, stream: seq<Item>): seq<Item> {
    if stream == [] then list else Upsert(UpsertAll(list, stream[..|stream| - 1]), stream[|stream| - 1])
  }

  /** The size of the text that a later upsert may not shrink. */
  function TextSizes(item: Item): (nat, nat) {
    match item
    case Message(_, _, text, _) => (|text|, 0)
    case Reasoning(_, summary, content) => (|summary|, |content|)
    case Diff(_, _, diff, _) => (|diff|, 0)
    case Review(_, _, text) => (|text|, 0)
    case _ => (0, 0)
  }

  predicate NotShorter(a: Item, b: Item) {
    SameKind(a, b) ==> TextSizes(a).0 <= TextSizes(b).0 && TextSizes(a).1 <= TextSizes(b).1
  }

  lemma AppendKeepsDistinct(ids: seq<JsString>, id: JsString)
    requires Distinct(ids) && id !in ids
    ensures Distinct(ids + [id])
  {
  }

  /** Any stream of upserts keeps ids unique and every id at its position. */
  lemma {:induction false} StreamsKeepIds(list: seq<Item>, stream: seq<Item>)
    ensures Ids(list) <= Ids(UpsertAll(list, stream))
    ensures Distinct(Ids(list)) ==> Distinct(Ids(UpsertAll(list, stream)))
  {
    if stream != [] {
      var init, last := stream[..|stream| - 1], stream[|stream| - 1];
      StreamsKeepIds(list, init);
      var middle := UpsertAll(list, init);
      UpsertKeepsPositions(middle, last);
      if Distinct(Ids(list)) && last.id !in Ids(middle) {
        AppendKeepsDistinct(Ids(middle), last.id);
      }
    }
  }

  lemma UpsertKeepsText(list: seq<Item>, item: Item, p: nat)
    requires p < |list| && (list[p].id == item.id ==> SameKind(item, list[p]))
    ensures p < |Upsert(list, item)| && SameKind(list[p], Upsert(list, item)[p])
    ensures NotShorter(list[p], Upsert(list, item)[p])
  {
    UpsertKeepsPositions(list, item);
  }

  /** Over a stream, an item that only meets items of its own kind stays of that kind and its
      text never shrinks. */
  lemma {:induction false} StreamsKeepText(list: seq<Item>, stream: seq<Item>, p: nat)
    requires p < |list|
    requires forall k :: 0 <= k < |stream| && stream[k].id == list[p].id ==> SameKind(stream[k], list[p])
    ensures p < |UpsertAll(list, stream)|
    ensures SameKind(list[p], UpsertAll(list, stream)[p]) && NotShorter(list[p], UpsertAll(list, stream)[p])
  {
    if stream != [] {
      var init, last := stream[..|stream| - 1], stream[|stream| - 1];
      StreamsKeepText(list, init, p);
      StreamsKeepIds(list, init);
      var middle := UpsertAll(list, init);
      assert Ids(middle)[p] == Ids(list)[p];
      assert last == stream[|stream| - 1];
      UpsertKeepsText(middle, last, p);
    }
  }

  // ---------- nothing known is lost ----------

  predicate HasNumber(f: Field<Option<int>>) {
    f.Is? && f.value.Some?
  }

  /** What a reader knows of a tool or diff item survives an update, and a known incoming value
      wins. Only the collab fields follow another rule: whatever the incoming item writes, even
      `undefined`, replaces what was there. */
  lemma MergedLosesNothing(existing: Item, item: Item)
    requires existing.id == item.id && SameKind(existing, item) && (item.Tool? || item.Diff?)
    ensures var m := Merged(existing, item);
            && SameKind(m, item)
            && m.title == (if Trim(item.title) != [] then item.title else existing.title)
            && (item.Diff? ==>
                  && (HasText(existing.diffStatus) || HasText(item.diffStatus) ==> HasText(m.diffStatus))
                  && (HasText(item.diffStatus) ==> m.diffStatus == item.diffStatus))
            && (item.Tool? ==>
                  && m.toolType == item.toolType
                  && m.detail == (if Trim(item.detail) != [] then item.detail else existing.detail)
                  && (HasText(item.status) ==> m.status == item.status)
                  && (HasNumber(existing.durationMs) || HasNumber(item.durationMs) ==> HasNumber(m.durationMs))
                  && (HasNumber(item.durationMs) ==> m.durationMs == item.durationMs)
                  && m.collabSender == Spread(existing.collabSender, item.collabSender)
                  && m.collabReceiver == Spread(existing.collabReceiver, item.collabReceiver)
                  && m.collabReceivers == Spread(existing.collabReceivers, item.collabReceivers)
                  && m.collabStatuses == Spread(existing.collabStatuses, item.collabStatuses)
                  && (HasText(existing.output) || HasText(item.output) ==> HasText(m.output))
                  && (HasText(item.output) ==> m.output == item.output)
                  && (HasText(existing.status) || HasText(item.status) ==> HasText(m.status))
                  && (HasElements(existing.changes) || HasElements(item.changes) ==> HasElements(m.changes))
                  && (HasElements(item.changes) ==> m.changes == item.changes))
  {
  }

  lemma {:induction false} NotInKeeps(questions: seq<Question>, ids: seq<JsString>, q: Question)
    requires q in questions && q.id !in ids
    ensures q in NotIn(questions, ids)
  {
    if q != questions[0] {
      assert questions == [questions[0]] + questions[1..];
      NotInKeeps(questions[1..], ids, q);
    }
  }

  /** Merging questions forgets no question and no answer. */
  lemma QuestionsLoseNothing(existing: seq<Question>, incoming: seq<Question>, k: nat) returns (m: nat)
    requires Distinct(QuestionIds(existing)) && k < |existing|
    ensures var merged := MergeUserInputQuestions(existing, incoming);
            && m < |merged| && merged[m].id == existing[k].id
            && (existing[k].answers != [] ==> merged[m].answers != [])
            && (Trim(existing[k].question) != [] ==> Trim(merged[m].question) != [])
  {
    var q, ids := existing[k], QuestionIds(incoming);
    var head, rest := MergeIncoming(existing, incoming), NotIn(existing, ids);
    if i: nat :| i < |incoming| && incoming[i].id == q.id {
      LastByIdOfMember(existing, k);
      m := i;
    } else {
      assert forall i :: 0 <= i < |ids| ==> ids[i] == incoming[i].id;
      NotInKeeps(existing, ids, q);
      var i: nat :| i < |rest| && rest[i] == q;
      m := |head| + i;
    }
  }

  // ---------- upserting twice ----------

  lemma {:induction false} LastByIdOfConcat(a: seq<Question>, b: seq<Question>, id: JsString)
    ensures LastById(a + b, id) == if LastById(b, id).Some? then LastById(b, id) else LastById(a, id)
    decreases |b|
  {
    if b == [] {
      assert a + b == a;
    } else {
      assert (a + b)[..|a + b| - 1] == a + b[..|b| - 1];
      LastByIdOfConcat(a, b[..|b| - 1], id);
    }
  }

  lemma DistinctPrefix(questions: seq<Question>, n: nat)
    requires Distinct(QuestionIds(questions)) && n <= |questions|
    ensures Distinct(QuestionIds(questions[..n]))
    ensures forall i :: 0 <= i < n < |questions| ==> questions[i].id != questions[n].id
  {
    var ids, part := QuestionIds(questions), QuestionIds(questions[..n]);
    forall i, j | 0 <= i < j < n ensures part[i] != part[j] {
      assert part[i] == ids[i] && part[j] == ids[j];
    }
    forall i | 0 <= i < n < |questions| ensures questions[i].id != questions[n].id {
      assert ids[i] != ids[n];
    }
  }

  lemma {:induction false} LastByIdOfMember(questions: seq<Question>, i: nat)
    requires Distinct(QuestionIds(questions)) && i < |questions|
    ensures LastById(questions, questions[i].id) == Some(questions[i])
    decreases |questions|
  {
    var last: nat := |questions| - 1;
    if i < last {
      DistinctPrefix(questions, last);
      LastByIdOfMember(questions[..last], i);
    }
  }

  lemma {:induction false} NotInHasNone(questions: seq<Question>, ids: seq<JsString>)
    ensures forall q :: q in NotIn(questions, ids) ==> q.id !in ids
  {
    if questions != [] {
      NotInHasNone(questions[1..], ids);
    }
  }

  lemma {:induction false} NotInConcat(a: seq<Question>, b: seq<Question>, ids: seq<JsString>)
    ensures NotIn(a + b, ids) == NotIn(a, ids) + NotIn(b, ids)
  {
    if a == [] {
      assert a + b == b;
    } else {
      assert (a + b)[1..] == a[1..] + b;
      NotInConcat(a[1..], b, ids);
    }
  }

  lemma {:induction false} NotInKeepsAll(questions: seq<Question>, ids: seq<JsString>)
    requires forall q :: q in questions ==> q.id !in ids
    ensures NotIn(questions, ids) == questions
  {
    if questions != [] {
      assert questions[0] in questions;
      NotInKeepsAll(questions[1..], ids);
    }
  }

  lemma {:induction false} NotInDropsAll(questions: seq<Question>, ids: seq<JsString>)
    requires forall i :: 0 <= i < |questions| ==> questions[i].id in ids
    ensures NotIn(questions, ids) == []
  {
    if questions != [] {
      NotInDropsAll(questions[1..], ids);
    }
  }

  /** The incoming questions meet their own merged versions the second time. */
  lemma MergeIncomingTwice(existing: seq<Question>, incoming: seq<Question>, rest: seq<Question>)
    requires Distinct(QuestionIds(incoming))
    requires forall q :: q in rest ==> q.id !in QuestionIds(incoming)
    ensures MergeIncoming(MergeIncoming(existing, incoming) + rest, incoming) == MergeIncoming(existing, incoming)
  {
    var ids, merged := QuestionIds(incoming), MergeIncoming(existing, incoming);
    assert QuestionIds(merged) == ids;
    forall i | 0 <= i < |incoming|
      ensures MergeQuestion(LastById(merged + rest, incoming[i].id), incoming[i]) == merged[i]
    {
      assert ids[i] == incoming[i].id;
      NoneById(rest, incoming[i].id);
      LastByIdOfConcat(merged, rest, incoming[i].id);
      LastByIdOfMember(merged, i);
    }
  }

  lemma {:induction false} NoneById(questions: seq<Question>, id: JsString)
    requires forall q :: q in questions ==> q.id != id
    ensures LastById(questions, id) == None
    decreases |questions|
  {
    if questions != [] {
      NoneById(questions[..|questions| - 1], id);
    }
  }

  /** Merging the same questions again changes nothing when their ids are unique. */
  lemma MergeQuestionsTwice(existing: seq<Question>, incoming: seq<Question>)
    requires Distinct(QuestionIds(incoming))
    ensures MergeUserInputQuestions(MergeUserInputQuestions(existing, incoming), incoming)
            == MergeUserInputQuestions(existing, incoming)
  {
    var ids := QuestionIds(incoming);
    var merged, rest := MergeIncoming(existing, incoming), NotIn(existing, ids);
    NotInHasNone(existing, ids);
    MergeIncomingTwice(existing, incoming, rest);
    assert NotIn(merged + rest, ids) == rest by { OnlyRestIsNotIn(merged, rest, ids); }
  }

  lemma OnlyRestIsNotIn(merged: seq<Question>, rest: seq<Question>, ids: seq<JsString>)
    requires |merged| == |ids| && forall i :: 0 <= i < |ids| ==> merged[i].id == ids[i]
    requires forall q :: q in rest ==> q.id !in ids
    ensures NotIn(merged + rest, ids) == rest
  {
    NotInConcat(merged, rest, ids);
    forall i | 0 <= i < |merged| ensures merged[i].id in ids {
      assert ids[i] in ids;
    }
    NotInDropsAll(merged, ids);
    NotInKeepsAll(rest, ids);
  }

  ghost predicate QuestionIdsUnique(item: Item) {
    item.UserInput? ==> Distinct(QuestionIds(item.questions))
  }

  lemma MergedTwice(existing: Item, item: Item)
    requires existing.id == item.id && QuestionIdsUnique(item)
    ensures SameKind(existing, item) ==> View(Merged(Merged(existing, item), item)) == View(Merged(existing, item))
  {
    if existing.UserInput? && item.UserInput? {
      MergeQuestionsTwice(existing.questions, item.questions);
    }
  }

  lemma MergedWithItself(item: Item)
    requires QuestionIdsUnique(item)
    ensures Seen(Merged(item, item)) == Seen(item)
    ensures View(Merged(item, item)) == View(item) <==> !(item.Tool? && !item.output.Is?)
  {
    if item.UserInput? {
      var questions := item.questions;
      forall i | 0 <= i < |questions|
        ensures MergeQuestion(LastById(questions, questions[i].id), questions[i]) == questions[i]
      {
        LastByIdOfMember(questions, i);
      }
      assert MergeIncoming(questions, questions) == questions;
      forall i | 0 <= i < |questions| ensures questions[i].id in QuestionIds(questions) {
        assert QuestionIds(questions)[i] == questions[i].id;
      }
      NotInDropsAll(questions, QuestionIds(questions));
    }
  }

  ghost predicate SameLists(a: seq<Item>, b: seq<Item>, seen: Item -> Item) {
    |a| == |b| && forall k :: 0 <= k < |a| ==> seen(a[k]) == seen(b[k])
  }

  /** Whether the first upsert stores the incoming item as it is. */
  predicate StoredAsIs(list: seq<Item>, item: Item) {
    var i := FirstIndex(list, item.id);
    i == |list| || !SameKind(list[i], item)
  }

  /** Upserting the same item twice equals upserting it once when a missing output is read as
      empty. To a reader that tells missing from empty it is the same exactly when the item is
      not a tool without output that was stored as it came. */
  lemma UpsertTwiceIff(list: seq<Item>, item: Item)
    requires QuestionIdsUnique(item)
    ensures SameLists(Upsert(Upsert(list, item), item), Upsert(list, item), Seen)
    ensures SameLists(Upsert(Upsert(list, item), item), Upsert(list, item), View)
            <==> !(StoredAsIs(list, item) && item.Tool? && !item.output.Is?)
  {
    var once := Upsert(list, item);
    var i := FirstIndex(list, item.id);
    assert FirstIndex(once, item.id) == i by { FirstIndexAfterUpsert(list, item); }
    var twice := Upsert(once, item);
    assert |twice| == |once| && twice[i] == Merged(once[i], item);
    assert forall k :: 0 <= k < |once| && k != i ==> twice[k] == once[k];
    if StoredAsIs(list, item) {
      assert once[i] == item;
      MergedWithItself(item);
      assert View(twice[i]) == View(once[i]) <==> !(item.Tool? && !item.output.Is?);
    } else {
      MergedTwice(list[i], item);
    }
  }

  /** A tool item without output, upserted twice into an empty list. */
  lemma MissingOutputIsNotStable(tool: Item)
    requires tool.Tool? && tool.output.Absent?
    ensures View(Upsert(Upsert([], tool), tool)[0]).output == Is([])
    ensures View(Upsert([], tool)[0]).output.Absent?
  {
  }

  lemma FirstIndexAfterUpsert(list: seq<Item>, item: Item)
    ensures FirstIndex(Upsert(list, item), item.id) == FirstIndex(list, item.id) < |Upsert(list, item)|
  {
    var once, i := Upsert(list, item), FirstIndex(list, item.id);
    assert once[i].id == item.id;
    assert forall k :: 0 <= k < i ==> once[k].id != item.id;
  }

  // ---------- merging a remote list with a local one ----------

  /** The length of `answers.join("\n")`. */
  function JoinedLength(answers: seq<JsString>): nat {
    if answers == [] then 0
    else if |answers| == 1 then |answers[0]|
    else |answers[0]| + 1 + JoinedLength(answers[1..])
  }

  function Score(questions: seq<Question>): nat {
    if questions == [] then 0
    else |questions[0].question| + JoinedLength(questions[0].answers) + Score(questions[1..])
  }

  function ChooseRicherItem(remote: Item, local: Item): Item {
    if !SameKind(remote, local) then remote
    else
      match remote
      case Message(_, _, text, _) => if |local.text| > |text| then local else remote
      case UserInput(_, questions) => if Score(local.questions) > Score(questions) then local else remote
      case Reasoning(_, summary, content) =>
        if |local.summary| + |local.content| > |summary| + |content| then local else remote
      case Tool(_, _, _, _, status, output, _, changes, sender, receiver, receivers, statuses) =>
        remote.(status := (if HasText(status) then status else local.status).Written(),
                output := Is(if HasText(output) then output.value else local.output.Get().GetOr([])),
                changes := Either(changes, local.changes).Written(),
                collabSender := Either(sender, local.collabSender).Written(),
                collabReceiver := Either(receiver, local.collabReceiver).Written(),
                collabReceivers := (if HasElements(receivers) then receivers else local.collabReceivers).Written(),
                collabStatuses := (if HasElements(statuses) then statuses else local.collabStatuses).Written())
      case Diff(_, _, diff, status) =>
        remote.(diff := if |local.diff| > |diff| then local.diff else diff,
                diffStatus := (if HasText(status) then status else local.diffStatus).Written())
      case Review(_, _, _) => remote
      case Explore(_, _, _) => remote
  }

  /** The last item with this id, as `new Map(..)` keeps it. */
  function LastItem(items: seq<Item>, id: JsString): Option<Item> {
    if items == [] then None
    else if items[|items| - 1].id == id then Some(items[|items| - 1])
    else LastItem(items[..|items| - 1], id)
  }

  function Richest(remote: Item, localItems: seq<Item>): Item {
    var local := LastItem(localItems, remote.id);
    if local.Some? then ChooseRicherItem(remote, local.value) else remote
  }

  function MergeRemote(remote: seq<Item>, local: seq<Item>): seq<Item> {
    seq(|remote|, i requires 0 <= i < |remote| => Richest(remote[i], local))
  }

  function LocalOnly(local: seq<Item>, ids: seq<JsString>): seq<Item> {
    if local == [] then []
    else LocalOnly(local[..|local| - 1], ids)
         + (if local[|local| - 1].id in ids then [] else [local[|local| - 1]])
  }

  function Merge(remote: seq<Item>, local: seq<Item>): seq<Item> {
    if local == [] then remote else MergeRemote(remote, local) + LocalOnly(local, Ids(remote))
  }

  /** `new Map(items.map((item) => [item.id, item]))`: the last item with an id wins. */
  method MapById(items: seq<Item>) returns (byId: map<JsString, Item>)
    ensures forall id :: LastItem(items, id) == if id in byId then Some(byId[id]) else None
  {
    byId := map[];
    for i := 0 to |items|
      invariant forall id :: LastItem(items[..i], id) == if id in byId then Some(byId[id]) else None
    {
      assert items[..i + 1][..i] == items[..i];
      byId := byId[items[i].id := items[i]];
    }
    assert items[..|items|] == items;
  }

  method MergeThreadItems(remote: seq<Item>, local: seq<Item>) returns (merged: seq<Item>)
    ensures merged == Merge(remote, local)
  {
    if local == [] {
      return remote;
    }
    var byId := MapById(remote);
    var localItemsById := MapById(local);
    merged := [];
    for i := 0 to |remote|
      invariant merged == MergeRemote(remote, local)[..i]
    {
      var item := remote[i];
      merged := merged + [if item.id in localItemsById then ChooseRicherItem(item, localItemsById[item.id]) else item];
    }
    for i := 0 to |local|
      invariant merged == MergeRemote(remote, local) + LocalOnly(local[..i], Ids(remote))
    {
      assert local[..i + 1][..i] == local[..i];
      LastItemIsMember(remote, local[i].id);
      if local[i].id !in byId {
        merged := merged + [local[i]];
      }
    }
    assert local[..|local|] == local;
  }

  /** What the choice compares. */
  function Richness(item: Item): nat {
    match item
    case Message(_, _, text, _) => |text|
    case UserInput(_, questions) => Score(questions)
    case Reasoning(_, summary, content) => |summary| + |content|
    case Diff(_, _, diff, _) => |diff|
    case _ => 0
  }

  /** The choice is as rich as the richer of the two, and a tool keeps whichever output has text. */
  lemma ChooseRicherIsRichest(remote: Item, local: Item)
    requires SameKind(remote, local)
    ensures var chosen := ChooseRicherItem(remote, local);
            && Richness(chosen) == (if Richness(local) > Richness(remote) then Richness(local) else Richness(remote))
            && (remote.Tool? ==> (HasText(chosen.output) <==> HasText(remote.output) || HasText(local.output)))
  {
  }

  lemma {:induction false} LastItemIsMember(items: seq<Item>, id: JsString)
    ensures LastItem(items, id).Some? <==> id in Ids(items)
    ensures LastItem(items, id).Some? ==> LastItem(items, id).value in items && LastItem(items, id).value.id == id
    decreases |items|
  {
    if items != [] {
      var init, last := items[..|items| - 1], items[|items| - 1];
      LastItemIsMember(init, id);
      assert Ids(items) == Ids(init) + [last.id];
    }
  }

  lemma {:induction false} LastItemOfMember(items: seq<Item>, i: nat)
    requires Distinct(Ids(items)) && i < |items|
    ensures LastItem(items, items[i].id) == Some(items[i])
    decreases |items|
  {
    var last: nat := |items| - 1;
    if i < last {
      assert Ids(items)[i] != Ids(items)[last];
      assert Ids(items[..last]) == Ids(items)[..last];
      LastItemOfMember(items[..last], i);
    }
  }

  /** The ids of the local list that the remote list does not have, in order. */
  function IdsNotIn(ids: seq<JsString>, known: seq<JsString>): seq<JsString> {
    if ids == [] then []
    else IdsNotIn(ids[..|ids| - 1], known) + (if ids[|ids| - 1] in known then [] else [ids[|ids| - 1]])
  }

  lemma LocalOnlyStep(init: seq<Item>, last: Item, kept: seq<Item>, ids: seq<JsString>)
    requires Ids(kept) == IdsNotIn(Ids(init), ids)
    ensures Ids(kept + if last.id in ids then [] else [last]) == IdsNotIn(Ids(init + [last]), ids)
  {
    IdsConcat(init, [last]);
    assert Ids([last]) == [last.id];
    assert (Ids(init) + [last.id])[..|init|] == Ids(init);
    IdsConcat(kept, if last.id in ids then [] else [last]);
  }

  lemma {:induction false} LocalOnlyIds(local: seq<Item>, ids: seq<JsString>)
    ensures Ids(LocalOnly(local, ids)) == IdsNotIn(Ids(local), ids)
    ensures forall x :: x in LocalOnly(local, ids) ==> x in local && x.id !in ids
    decreases |local|
  {
    if local != [] {
      var init := local[..|local| - 1];
      LocalOnlyIds(init, ids);
      LocalOnlyStep(init, local[|local| - 1], LocalOnly(init, ids), ids);
      assert local == init + [local[|local| - 1]];
    }
  }

  lemma MergeRemoteKeepsIds(remote: seq<Item>, local: seq<Item>)
    ensures Ids(MergeRemote(remote, local)) == Ids(remote)
  {
    forall i | 0 <= i < |remote| ensures MergeRemote(remote, local)[i].id == remote[i].id {
      LastItemIsMember(local, remote[i].id);
    }
  }

  /** The remote ids in order, followed by the local-only ids in order. */
  lemma MergeIds(remote: seq<Item>, local: seq<Item>)
    ensures Ids(Merge(remote, local)) == Ids(remote) + IdsNotIn(Ids(local), Ids(remote))
  {
    if local != [] {
      MergeRemoteKeepsIds(remote, local);
      LocalOnlyIds(local, Ids(remote));
      IdsConcat(MergeRemote(remote, local), LocalOnly(local, Ids(remote)));
    }
  }

  /** Choosing again between the remote item and the chosen one keeps the choice; only a tool
      without output changes, from missing to empty. */
  lemma ChooseRicherTwice(remote: Item, local: Item)
    requires remote.id == local.id
    ensures var chosen := ChooseRicherItem(remote, local);
            && Seen(ChooseRicherItem(remote, chosen)) == Seen(chosen)
            && (View(ChooseRicherItem(remote, chosen)) == View(chosen) <==> !(chosen.Tool? && !chosen.output.Is?))
            && (chosen.Tool? && !chosen.output.Is? <==> remote.Tool? && !remote.output.Is? && !local.Tool?)
  {
  }

  lemma ChooseRicherSelf(remote: Item)
    ensures Seen(ChooseRicherItem(remote, remote)) == Seen(remote)
    ensures View(ChooseRicherItem(remote, remote)) == View(remote) <==> !(remote.Tool? && !remote.output.Is?)
  {
  }

  /** A remote tool without output that no local tool with the same id completes. */
  predicate OutputStaysMissing(remote: Item, local: seq<Item>) {
    && remote.Tool? && !remote.output.Is?
    && !(LastItem(local, remote.id).Some? && LastItem(local, remote.id).value.Tool?)
  }

  lemma RichestTwice(remote: Item, local: seq<Item>)
    ensures var chosen := Richest(remote, local);
            && chosen.id == remote.id
            && Seen(ChooseRicherItem(remote, chosen)) == Seen(chosen)
            && (View(ChooseRicherItem(remote, chosen)) == View(chosen) <==> !OutputStaysMissing(remote, local))
  {
    LastItemIsMember(local, remote.id);
    if LastItem(local, remote.id).Some? {
      ChooseRicherTwice(remote, LastItem(local, remote.id).value);
    } else {
      ChooseRicherSelf(remote);
    }
  }

  /** In a second merge a remote item meets its own merged version. */
  lemma SecondMergeMeetsMerged(remote: seq<Item>, local: seq<Item>, i: nat)
    requires Distinct(Ids(remote)) && Distinct(Ids(local)) && i < |remote|
    ensures Richest(remote[i], Merge(remote, local)) == ChooseRicherItem(remote[i], Richest(remote[i], local))
  {
    var merged := Merge(remote, local);
    MergedAt(remote, local, i);
    IdsStayDistinct(remote, local);
    LastItemOfMember(merged, i);
  }

  lemma MergedAt(remote: seq<Item>, local: seq<Item>, i: nat)
    requires i < |remote|
    ensures i < |Merge(remote, local)| && Merge(remote, local)[i] == Richest(remote[i], local)
    ensures Merge(remote, local)[i].id == remote[i].id
  {
    RichestTwice(remote[i], local);
  }

  /** What the second merge does, position by position. */
  lemma MergeAgainAt(remote: seq<Item>, local: seq<Item>)
    requires Distinct(Ids(remote)) && Distinct(Ids(local))
    ensures var merged := Merge(remote, local);
            && |Merge(remote, merged)| == |merged| && |remote| <= |merged|
            && (forall i :: 0 <= i < |remote| ==>
                  Merge(remote, merged)[i] == ChooseRicherItem(remote[i], Richest(remote[i], local))
                  && merged[i] == Richest(remote[i], local))
            && (forall i :: |remote| <= i < |merged| ==> Merge(remote, merged)[i] == merged[i])
  {
    var merged, extra := Merge(remote, local), LocalOnly(local, Ids(remote));
    assert LocalOnly(merged, Ids(remote)) == extra by { MergedLocalOnly(remote, local); }
    assert |merged| == |remote| + |extra|;
    assert forall i :: |remote| <= i < |merged| ==> merged[i] == extra[i - |remote|];
    forall i | 0 <= i < |remote|
      ensures Richest(remote[i], merged) == ChooseRicherItem(remote[i], Richest(remote[i], local))
      ensures merged[i] == Richest(remote[i], local)
    {
      SecondMergeMeetsMerged(remote, local, i);
      MergedAt(remote, local, i);
    }
  }

  lemma MergedLocalOnly(remote: seq<Item>, local: seq<Item>)
    ensures LocalOnly(Merge(remote, local), Ids(remote)) == LocalOnly(local, Ids(remote))
  {
    var ids, known, extra := Ids(remote), MergeRemote(remote, local), LocalOnly(local, Ids(remote));
    MergeRemoteKeepsIds(remote, local);
    forall x | x in known ensures x.id in ids {
      var i :| 0 <= i < |known| && known[i] == x;
      assert Ids(known)[i] in ids;
    }
    LocalOnlyIds(local, ids);
    LocalOnlyConcat(known, extra, ids);
    LocalOnlyDropsAll(known, ids);
    LocalOnlyKeepsAll(extra, ids);
    assert Merge(remote, local) == known + extra;
  }

  lemma {:induction false} LocalOnlyConcat(a: seq<Item>, b: seq<Item>, ids: seq<JsString>)
    ensures LocalOnly(a + b, ids) == LocalOnly(a, ids) + LocalOnly(b, ids)
    decreases |b|
  {
    if b == [] {
      assert a + b == a;
    } else {
      assert (a + b)[..|a + b| - 1] == a + b[..|b| - 1];
      LocalOnlyConcat(a, b[..|b| - 1], ids);
    }
  }

  lemma {:induction false} LocalOnlyDropsAll(items: seq<Item>, ids: seq<JsString>)
    requires forall x :: x in items ==> x.id in ids
    ensures LocalOnly(items, ids) == []
    decreases |items|
  {
    if items != [] {
      LocalOnlyDropsAll(items[..|items| - 1], ids);
    }
  }

  lemma {:induction false} LocalOnlyKeepsAll(items: seq<Item>, ids: seq<JsString>)
    requires forall x :: x in items ==> x.id !in ids
    ensures LocalOnly(items, ids) == items
    decreases |items|
  {
    if items != [] {
      LocalOnlyKeepsAll(items[..|items| - 1], ids);
    }
  }

  lemma {:induction false} IdsNotInStaysDistinct(ids: seq<JsString>, known: seq<JsString>)
    requires Distinct(ids)
    ensures Distinct(IdsNotIn(ids, known))
    ensures forall x :: x in IdsNotIn(ids, known) ==> x in ids && x !in known
    decreases |ids|
  {
    if ids != [] {
      IdsNotInStaysDistinct(ids[..|ids| - 1], known);
    }
  }

  /** Unique ids stay unique under a merge. */
  lemma IdsStayDistinct(remote: seq<Item>, local: seq<Item>)
    requires Distinct(Ids(remote)) && Distinct(Ids(local))
    ensures Distinct(Ids(Merge(remote, local)))
  {
    var known, added := Ids(remote), IdsNotIn(Ids(local), Ids(remote));
    MergeIds(remote, local);
    IdsNotInStaysDistinct(Ids(local), known);
    var all: seq<JsString> := known + added;
    forall i, j | 0 <= i < j < |all| ensures all[i] != all[j] {
      if i < |known| <= j {
        assert known[i] in known && added[j - |known|] in added;
      }
    }
  }

  /** Merging the result with the same remote list again changes nothing when a missing tool
      output is read as empty. To a reader that tells missing from empty it changes nothing
      exactly when every remote tool without output is completed by a local tool. */
  lemma MergeAgainIff(remote: seq<Item>, local: seq<Item>)
    requires Distinct(Ids(remote)) && Distinct(Ids(local))
    ensures SameLists(Merge(remote, Merge(remote, local)), Merge(remote, local), Seen)
    ensures SameLists(Merge(remote, Merge(remote, local)), Merge(remote, local), View)
            <==> forall i :: 0 <= i < |remote| ==> !OutputStaysMissing(remote[i], local)
  {
    var merged := Merge(remote, local);
    var again := Merge(remote, merged);
    MergeAgainAt(remote, local);
    forall i | 0 <= i < |remote|
      ensures Seen(again[i]) == Seen(merged[i])
      ensures View(again[i]) == View(merged[i]) <==> !OutputStaysMissing(remote[i], local)
    {
      RichestTwice(remote[i], local);
    }
  }

  /** A remote tool item without output, merged twice next to a local-only item. */
  lemma MissingOutputIsMergedLate(tool: Item, other: Item)
    requires tool.Tool? && tool.output.Absent? && other.id != tool.id
    ensures var once := Merge([tool], [other]);
            && View(once[0]).output.Absent?
            && View(Merge([tool], once)[0]).output == Is([])
  {
    var once := Merge([tool], [other]);
    assert [other][..0] == [];
    assert LastItem([other], tool.id) == None;
    assert MergeRemote([tool], [other]) == [tool];
    assert Ids([tool]) == [tool.id];
    assert LocalOnly([other], [tool.id]) == [other];
    assert once == [tool, other];
    assert once[..1] == [tool] && [tool][..0] == [];
    assert LastItem(once, tool.id) == Some(tool);
  }
}
