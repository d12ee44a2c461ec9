/** The items an upsert and a merge store, part by part, as a reader of the item sees them. */
module ListContents {
  import opened Wrappers
  import opened ThreadItems
  import opened ListOps

  ghost predicate FieldSays(f: Field<JsString>) {
    f.Is? && Says(f.value)
  }

  /** What `first` shows if it is wanted, and what `second` shows otherwise. */
  ghost predicate ShowsFirst<T>(wanted: bool, first: Field<T>, second: Field<T>, r: Field<T>) {
    r.Get() == if wanted then first.Get() else second.Get()
  }

  // ---------- upserting ----------

  /** Of two texts the longer one, and on equal length the incoming one. */
  ghost predicate IsLonger(incoming: JsString, existing: JsString, r: JsString) {
    r == if |incoming| < |existing| then existing else incoming
  }

  ghost predicate IsMergedQuestion(existing: seq<Question>, q: Question, r: Question) {
    && r.id == q.id
    && ((forall k :: 0 <= k < |existing| ==> existing[k].id != q.id) ==> r == q)
    && (forall k :: 0 <= k < |existing| && existing[k].id == q.id
                    && (forall l :: k < l < |existing| ==> existing[l].id != q.id) ==>
                      && r.header == (if Says(q.header) then q.header else existing[k].header)
                      && r.question == (if Says(q.question) then q.question else existing[k].question)
                      && r.answers == (if q.answers != [] then q.answers else existing[k].answers))
  }

  lemma {:induction false} LastByIdIs(questions: seq<Question>, id: JsString)
    ensures LastById(questions, id).None? <==> forall k :: 0 <= k < |questions| ==> questions[k].id != id
    ensures forall k :: 0 <= k < |questions| && questions[k].id == id
                        && (forall l :: k < l < |questions| ==> questions[l].id != id) ==>
                          LastById(questions, id) == Some(questions[k])
  {
    if questions != [] && questions[|questions| - 1].id != id {
      var init := questions[..|questions| - 1];
      LastByIdIs(init, id);
      assert forall k :: 0 <= k < |init| ==> init[k] == questions[k];
    }
  }

  lemma MergedQuestion(existing: seq<Question>, q: Question)
    ensures IsMergedQuestion(existing, q, MergeQuestion(LastById(existing, q.id), q))
  {
    LastByIdIs(existing, q.id);
    SaysIff(q.header);
    SaysIff(q.question);
  }

  /** The merged questions: the incoming ones in their order, then the known ones that did not come. */
  lemma MergedQuestions(existing: seq<Question>, incoming: seq<Question>)
    ensures var r := MergeUserInputQuestions(existing, incoming);
            && |r| >= |incoming|
            && (forall i :: 0 <= i < |incoming| ==> IsMergedQuestion(existing, incoming[i], r[i]))
            && forall q :: q in r[|incoming|..]
                           <==> q in existing && forall i :: 0 <= i < |incoming| ==> incoming[i].id != q.id
  {
    var ids := QuestionIds(incoming);
    var r, rest := MergeUserInputQuestions(existing, incoming), NotIn(existing, ids);
    assert r[|incoming|..] == rest;
    forall i | 0 <= i < |incoming| ensures IsMergedQuestion(existing, incoming[i], r[i]) {
      MergedQuestion(existing, incoming[i]);
    }
    forall q ensures q in rest <==> q in existing && forall i :: 0 <= i < |incoming| ==> incoming[i].id != q.id {
      NotInIff(existing, ids, q);
      assert q.id in ids <==> exists i :: 0 <= i < |incoming| && ids[i] == q.id;
    }
  }

  lemma {:induction false} NotInIff(questions: seq<Question>, ids: seq<JsString>, q: Question)
    ensures q in NotIn(questions, ids) <==> q in questions && q.id !in ids
  {
    if questions != [] {
      NotInIff(questions[1..], ids, q);
      assert questions == [questions[0]] + questions[1..];
    }
  }

  /** What an upsert stores over an item of the same kind. Whatever is not text is the incoming
      item's, except for values it does not know. */
  lemma MergedContents(existing: Item, item: Item)
    requires existing.id == item.id && SameKind(existing, item)
    ensures var m := Merged(existing, item);
            m.id == item.id && SameKind(m, item) &&
            match item
            case Message(_, role, text, images) =>
              && m.role == role && IsLonger(text, existing.text, m.text)
              && ShowsFirst(images.Is? && images.value != [], images, existing.images, m.images)
            case UserInput(_, questions) => m.questions == MergeUserInputQuestions(existing.questions, questions)
            case Reasoning(_, summary, content) =>
              IsLonger(summary, existing.summary, m.summary) && IsLonger(content, existing.content, m.content)
            case Tool(_, toolType, title, detail, status, output, duration, changes, _, _, _, _) =>
              && m.toolType == toolType
              && m.title == (if Says(title) then title else existing.title)
              && m.detail == (if Says(detail) then detail else existing.detail)
              && ShowsFirst(FieldSays(status), status, existing.status, m.status)
              && m.output == Is(if FieldSays(output) then output.value
                                else if existing.output.Is? then existing.output.value else [])
              && ShowsFirst(duration.Is? && duration.value.Some?, duration, existing.durationMs, m.durationMs)
              && ShowsFirst(changes.Is? && changes.value != [], changes, existing.changes, m.changes)
            case Diff(_, title, diff, status) =>
              && m.title == (if Says(title) then title else existing.title)
              && IsLonger(diff, existing.diff, m.diff)
              && ShowsFirst(FieldSays(status), status, existing.diffStatus, m.diffStatus)
            case Review(_, state, text) => m.state == state && IsLonger(text, existing.text, m.text)
            case Explore(_, status, entries) => m.exploreStatus == status && m.entries == entries
  {
    if item.Tool? {
      SaysIff(item.title);
      SaysIff(item.detail);
      SaysIff(item.status.Get().GetOr([]));
      SaysIff(item.output.Get().GetOr([]));
    } else if item.Diff? {
      SaysIff(item.title);
      SaysIff(item.diffStatus.Get().GetOr([]));
    }
  }

  // ---------- merging lists ----------

  /** The lengths of a question and of its answers on lines of their own. */
  lemma ScoreSays(questions: seq<Question>, q: Question, answer: JsString)
    ensures Score([]) == 0
    ensures Score([q.(answers := [])]) == |q.question|
    ensures Score([q.(answers := [answer])]) == |q.question| + |answer|
    ensures q.answers != [] ==> Score([q.(answers := [answer] + q.answers)]) == Score([q]) + |answer| + 1
    ensures Score([q] + questions) == Score([q]) + Score(questions)
  {
    assert ([answer] + q.answers)[1..] == q.answers;
    assert ([q] + questions)[1..] == questions;
  }

  /** What a merge keeps of a remote and a local item with the same id: the local one only when it
      has strictly more text; of tools and diffs the remote one, completed from the local one. */
  lemma ChosenContents(remote: Item, local: Item)
    ensures var m := ChooseRicherItem(remote, local);
            if !SameKind(remote, local) then m == remote
            else
              match remote
              case Message(_, _, text, _) => m == if |local.text| > |text| then local else remote
              case UserInput(_, questions) => m == if Score(local.questions) > Score(questions) then local else remote
              case Reasoning(_, summary, content) =>
                m == if |local.summary| + |local.content| > |summary| + |content| then local else remote
              case Tool(id, toolType, title, detail, status, output, duration, changes, sender, receiver, receivers,
                        statuses) =>
                && m.Tool? && m.id == id && m.toolType == toolType && m.title == title && m.detail == detail
                && m.durationMs == duration
                && ShowsFirst(FieldSays(status), status, local.status, m.status)
                && m.output == Is(if FieldSays(output) then output.value
                                  else if local.output.Is? then local.output.value else [])
                && ShowsFirst(changes.Is?, changes, local.changes, m.changes)
                && ShowsFirst(sender.Is?, sender, local.collabSender, m.collabSender)
                && ShowsFirst(receiver.Is?, receiver, local.collabReceiver, m.collabReceiver)
                && ShowsFirst(receivers.Is? && receivers.value != [], receivers, local.collabReceivers,
                              m.collabReceivers)
                && ShowsFirst(statuses.Is? && statuses.value != [], statuses, local.collabStatuses, m.collabStatuses)
              case Diff(id, title, diff, status) =>
                && m.Diff? && m.id == id && m.title == title
                && m.diff == (if |local.diff| > |diff| then local.diff else diff)
                && ShowsFirst(FieldSays(status), status, local.diffStatus, m.diffStatus)
              case Review(_, _, _) => m == remote
              case Explore(_, _, _) => m == remote
  {
    if remote.Tool? {
      SaysIff(remote.status.Get().GetOr([]));
      SaysIff(remote.output.Get().GetOr([]));
    } else if remote.Diff? {
      SaysIff(remote.diffStatus.Get().GetOr([]));
    }
  }

  /** A remote item meets the last local item of its id, and nothing else decides what is shown. */
  lemma MergedAtPosition(remote: seq<Item>, local: seq<Item>, i: nat, k: nat)
    requires i < |remote|
    ensures i < |Merge(remote, local)|
    ensures (forall l :: 0 <= l < |local| ==> local[l].id != remote[i].id) ==> Merge(remote, local)[i] == remote[i]
    ensures k < |local| && local[k].id == remote[i].id && (forall l :: k < l < |local| ==> local[l].id != remote[i].id)
            ==> Merge(remote, local)[i] == ChooseRicherItem(remote[i], local[k])
  {
    LastItemIs(local, remote[i].id);
  }

  lemma {:induction false} LastItemIs(items: seq<Item>, id: JsString)
    ensures LastItem(items, id).None? <==> forall k :: 0 <= k < |items| ==> items[k].id != id
    ensures forall k :: 0 <= k < |items| && items[k].id == id
                        && (forall l :: k < l < |items| ==> items[l].id != id) ==>
                          LastItem(items, id) == Some(items[k])
  {
    if items != [] && items[|items| - 1].id != id {
      var init := items[..|items| - 1];
      LastItemIs(init, id);
      assert forall k :: 0 <= k < |init| ==> init[k] == items[k];
    }
  }
}
