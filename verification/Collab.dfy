/** Collaborating agents of a tool call: src/utils/threadItems.collab.ts. */
module Collab {
  import opened Wrappers
  import opened ThreadItems

  /** `CollabAgentRef`; a missing property and `undefined` read the same. */
  datatype Ref = Ref(threadId: JsString, nickname: Option<JsString>, role: Option<JsString>)

  /** `CollabAgentStatus`. */
  datatype Status = Status(agent: Ref, status: JsString)

  function OrElse<T>(first: Option<T>, second: Option<T>): Option<T> {
    if first.Some? then first else second
  }

  // ---------- an insertion-ordered map ----------

  /** The first position with this key, or the length. */
  function KeyIndex<E>(list: seq<E>, k: JsString, key: E -> JsString): (i: nat)
    ensures i <= |list|
    ensures i < |list| ==> key(list[i]) == k
    ensures forall j :: 0 <= j < i ==> key(list[j]) != k
  {
    if list == [] || key(list[0]) == k then 0 else 1 + KeyIndex(list[1..], k, key)
  }

  /** One round of a merge: an unseen key goes to the end, a seen one is joined in place. */
  function Put<E>(list: seq<E>, e: E, key: E -> JsString, join: (E, E) -> E): seq<E> {
    var i := KeyIndex(list, key(e), key);
    if i == |list| then list + [e] else list[i := join(list[i], e)]
  }

  function MergeAll<E>(entries: seq<E>, key: E -> JsString, join: (E, E) -> E): seq<E> {
    if entries == [] then []
    else Put(MergeAll(entries[..|entries| - 1], key, join), entries[|entries| - 1], key, join)
  }

  function Concat<E>(lists: seq<seq<E>>): seq<E> {
    if lists == [] then [] else Concat(lists[..|lists| - 1]) + lists[|lists| - 1]
  }

  function Keys<E>(entries: seq<E>, key: E -> JsString): (ks: seq<JsString>)
    ensures |ks| == |entries| && forall i :: 0 <= i < |entries| ==> ks[i] == key(entries[i])
  {
    seq(|entries|, i requires 0 <= i < |entries| => key(entries[i]))
  }

  function FirstSeen(ks: seq<JsString>): seq<JsString> {
    if ks == [] then []
    else
      var init, last := FirstSeen(ks[..|ks| - 1]), ks[|ks| - 1];
      if last in ks[..|ks| - 1] then init else init + [last]
  }

  /** The first value that an entry with this key knows. */
  function FirstKnown<E, F>(entries: seq<E>, k: JsString, key: E -> JsString, get: E -> Option<F>): Option<F> {
    if entries == [] then None
    else
      var earlier, last := FirstKnown(entries[..|entries| - 1], k, key, get), entries[|entries| - 1];
      if earlier.None? && key(last) == k then get(last) else earlier
  }

  ghost predicate KeepsKey<E(!new)>(key: E -> JsString, join: (E, E) -> E) {
    forall a, b :: key(join(a, b)) == key(a)
  }

  ghost predicate KeepsFirst<E(!new), F>(join: (E, E) -> E, get: E -> Option<F>) {
    forall a, b :: get(join(a, b)) == OrElse(get(a), get(b))
  }

  lemma {:induction false} FirstSeenIsDistinct(ks: seq<JsString>)
    ensures Distinct(FirstSeen(ks))
    ensures forall k :: k in FirstSeen(ks) <==> k in ks
  {
    if ks != [] {
      FirstSeenIsDistinct(ks[..|ks| - 1]);
      assert ks == ks[..|ks| - 1] + [ks[|ks| - 1]];
    }
  }

  lemma PutKeys<E(!new)>(list: seq<E>, e: E, key: E -> JsString, join: (E, E) -> E)
    requires KeepsKey(key, join)
    ensures Keys(Put(list, e, key, join), key)
            == if key(e) in Keys(list, key) then Keys(list, key) else Keys(list, key) + [key(e)]
  {
    var i, ks := KeyIndex(list, key(e), key), Keys(list, key);
    if i < |list| {
      assert ks[i] == key(e);
      assert Keys(Put(list, e, key, join), key) == ks;
    } else {
      assert forall j :: 0 <= j < |ks| ==> ks[j] == key(list[j]);
      assert Keys(Put(list, e, key, join), key) == ks + [key(e)];
    }
  }

  lemma FirstSeenStep(ks: seq<JsString>, k: JsString)
    ensures FirstSeen(ks + [k]) == if k in FirstSeen(ks) then FirstSeen(ks) else FirstSeen(ks) + [k]
  {
    assert (ks + [k])[..|ks|] == ks;
    FirstSeenIsDistinct(ks);
  }

  lemma KeysStep<E>(entries: seq<E>, key: E -> JsString)
    requires entries != []
    ensures Keys(entries, key) == Keys(entries[..|entries| - 1], key) + [key(entries[|entries| - 1])]
  {
  }

  /** One entry per key, in first-seen order. */
  lemma {:induction false} MergeKeepsOrder<E(!new)>(entries: seq<E>, key: E -> JsString, join: (E, E) -> E)
    requires KeepsKey(key, join)
    ensures Keys(MergeAll(entries, key, join), key) == FirstSeen(Keys(entries, key))
  {
    if entries != [] {
      var init, last := entries[..|entries| - 1], entries[|entries| - 1];
      MergeKeepsOrder(init, key, join);
      PutKeys(MergeAll(init, key, join), last, key, join);
      KeysStep(entries, key);
      FirstSeenStep(Keys(init, key), key(last));
    }
  }

  lemma {:induction false} UnseenIsUnknown<E, F>(entries: seq<E>, k: JsString, key: E -> JsString, get: E -> Option<F>)
    requires forall i :: 0 <= i < |entries| ==> key(entries[i]) != k
    ensures FirstKnown(entries, k, key, get) == None
  {
    if entries != [] {
      UnseenIsUnknown(entries[..|entries| - 1], k, key, get);
    }
  }

  lemma PutKnown<E(!new), F>(list: seq<E>, e: E, key: E -> JsString, join: (E, E) -> E, get: E -> Option<F>, j: nat)
    requires KeepsKey(key, join) && KeepsFirst(join, get) && Distinct(Keys(list, key))
    requires j < |Put(list, e, key, join)|
    ensures var r := Put(list, e, key, join)[j];
            if j == |list| then r == e && key(e) !in Keys(list, key)
            else
              && key(r) == key(list[j])
              && get(r) == if key(r) == key(e) then OrElse(get(list[j]), get(e)) else get(list[j])
  {
    var i, ks := KeyIndex(list, key(e), key), Keys(list, key);
    if i < |list| && j != i {
      assert ks[j] != ks[i];
    }
  }

  /** A field that `join` takes from the first that knows it is the first known over all entries. */
  lemma {:induction false} MergeKnowsFirst<E(!new), F>(entries: seq<E>, key: E -> JsString, join: (E, E) -> E,
                                                       get: E -> Option<F>, j: nat)
    requires KeepsKey(key, join) && KeepsFirst(join, get) && j < |MergeAll(entries, key, join)|
    ensures var r := MergeAll(entries, key, join)[j]; get(r) == FirstKnown(entries, key(r), key, get)
  {
    var init, last := entries[..|entries| - 1], entries[|entries| - 1];
    var merged := MergeAll(init, key, join);
    MergeKeepsOrder(init, key, join);
    FirstSeenIsDistinct(Keys(init, key));
    PutKnown(merged, last, key, join, get, j);
    if j < |merged| {
      MergeKnowsFirst(init, key, join, get, j);
    } else {
      assert forall i :: 0 <= i < |init| ==> Keys(init, key)[i] == key(init[i]);
      UnseenIsUnknown(init, key(last), key, get);
    }
  }

  // ---------- merging agents and statuses ----------

  function RefId(r: Ref): JsString { r.threadId }
  function StatusId(s: Status): JsString { s.agent.threadId }
  function Nickname(r: Ref): Option<JsString> { r.nickname }
  function RoleOf(r: Ref): Option<JsString> { r.role }
  function StatusNickname(s: Status): Option<JsString> { s.agent.nickname }
  function StatusRole(s: Status): Option<JsString> { s.agent.role }

  /** The merge one entry further into the list that follows `before`. */
  lemma MergeStep<E>(before: seq<E>, list: seq<E>, i: nat, key: E -> JsString, join: (E, E) -> E)
    requires i < |list|
    ensures MergeAll(before + list[..i + 1], key, join)
            == Put(MergeAll(before + list[..i], key, join), list[i], key, join)
  {
    assert (before + list[..i + 1])[..|before| + i] == before + list[..i];
  }

  lemma ConcatStep<E>(lists: seq<seq<E>>, l: nat)
    requires l < |lists|
    ensures Concat(lists[..l + 1]) == Concat(lists[..l]) + lists[l][..|lists[l]|]
    ensures Concat(lists[..l]) + lists[l][..0] == Concat(lists[..l])
  {
    assert lists[..l + 1][..l] == lists[..l];
    assert lists[l][..|lists[l]|] == lists[l];
  }

  /** An empty status counts as unknown. */
  function StatusText(s: Status): Option<JsString> {
    if s.status == [] then None else Some(s.status)
  }

  function JoinRefs(existing: Ref, entry: Ref): Ref {
    Ref(existing.threadId, OrElse(existing.nickname, entry.nickname), OrElse(existing.role, entry.role))
  }

  function JoinStatuses(existing: Status, entry: Status): Status {
    Status(JoinRefs(existing.agent, entry.agent), if existing.status != [] then existing.status else entry.status)
  }

  method MergeCollabAgentRefs(lists: seq<seq<Ref>>) returns (byThreadId: seq<Ref>)
    ensures byThreadId == MergeAll(Concat(lists), RefId, JoinRefs)
  {
    byThreadId := [];
    for l := 0 to |lists|
      invariant byThreadId == MergeAll(Concat(lists[..l]), RefId, JoinRefs)
    {
      var list := lists[l];
      ghost var before := Concat(lists[..l]);
      ConcatStep(lists, l);
      for i := 0 to |list|
        invariant byThreadId == MergeAll(before + list[..i], RefId, JoinRefs)
      {
        MergeStep(before, list, i, RefId, JoinRefs);
        var at := KeyIndex(byThreadId, list[i].threadId, RefId);
        if at == |byThreadId| {
          byThreadId := byThreadId + [list[i]];
        } else {
          var existing := byThreadId[at];
          byThreadId := byThreadId[at := Ref(existing.threadId, OrElse(existing.nickname, list[i].nickname),
                                             OrElse(existing.role, list[i].role))];
        }
      }
    }
    assert lists[..|lists|] == lists;
  }

  method MergeCollabAgentStatuses(lists: seq<seq<Status>>) returns (byThreadId: seq<Status>)
    ensures byThreadId == MergeAll(Concat(lists), StatusId, JoinStatuses)
  {
    byThreadId := [];
    for l := 0 to |lists|
      invariant byThreadId == MergeAll(Concat(lists[..l]), StatusId, JoinStatuses)
    {
      var list := lists[l];
      ghost var before := Concat(lists[..l]);
      ConcatStep(lists, l);
      for i := 0 to |list|
        invariant byThreadId == MergeAll(before + list[..i], StatusId, JoinStatuses)
      {
        MergeStep(before, list, i, StatusId, JoinStatuses);
        var at := KeyIndex(byThreadId, list[i].agent.threadId, StatusId);
        if at == |byThreadId| {
          byThreadId := byThreadId + [list[i]];
        } else {
          byThreadId := byThreadId[at := JoinStatuses(byThreadId[at], list[i])];
        }
      }
    }
    assert lists[..|lists|] == lists;
  }

  /** Merged agents: one per thread in first-seen order, each with the first nickname and the first
      role that any entry of its thread knows. */
  lemma MergedRefs(entries: seq<Ref>)
    ensures var merged := MergeAll(entries, RefId, JoinRefs);
            && Keys(merged, RefId) == FirstSeen(Keys(entries, RefId))
            && forall j :: 0 <= j < |merged| ==>
                 && merged[j].nickname == FirstKnown(entries, merged[j].threadId, RefId, Nickname)
                 && merged[j].role == FirstKnown(entries, merged[j].threadId, RefId, RoleOf)
  {
    var merged := MergeAll(entries, RefId, JoinRefs);
    MergeKeepsOrder(entries, RefId, JoinRefs);
    forall j | 0 <= j < |merged|
      ensures merged[j].nickname == FirstKnown(entries, merged[j].threadId, RefId, Nickname)
      ensures merged[j].role == FirstKnown(entries, merged[j].threadId, RefId, RoleOf)
    {
      MergeKnowsFirst(entries, RefId, JoinRefs, Nickname, j);
      MergeKnowsFirst(entries, RefId, JoinRefs, RoleOf, j);
    }
  }

  lemma StatusJoinKeeps()
    ensures KeepsKey(StatusId, JoinStatuses)
    ensures KeepsFirst(JoinStatuses, StatusNickname)
    ensures KeepsFirst(JoinStatuses, StatusRole)
    ensures KeepsFirst(JoinStatuses, StatusText)
  {
  }

  lemma MergedStatusAt(entries: seq<Status>, j: nat)
    requires j < |MergeAll(entries, StatusId, JoinStatuses)|
    ensures var s := MergeAll(entries, StatusId, JoinStatuses)[j];
            && s.agent.nickname == FirstKnown(entries, s.agent.threadId, StatusId, StatusNickname)
            && s.agent.role == FirstKnown(entries, s.agent.threadId, StatusId, StatusRole)
            && StatusText(s) == FirstKnown(entries, s.agent.threadId, StatusId, StatusText)
  {
    StatusJoinKeeps();
    MergeKnowsFirst(entries, StatusId, JoinStatuses, StatusNickname, j);
    MergeKnowsFirst(entries, StatusId, JoinStatuses, StatusRole, j);
    MergeKnowsFirst(entries, StatusId, JoinStatuses, StatusText, j);
  }

  /** Merged statuses: as for agents, with the first status that is not empty. */
  lemma MergedStatuses(entries: seq<Status>)
    ensures var merged := MergeAll(entries, StatusId, JoinStatuses);
            && Keys(merged, StatusId) == FirstSeen(Keys(entries, StatusId))
            && forall j :: 0 <= j < |merged| ==>
                 var s := merged[j];
                 && s.agent.nickname == FirstKnown(entries, s.agent.threadId, StatusId, StatusNickname)
                 && s.agent.role == FirstKnown(entries, s.agent.threadId, StatusId, StatusRole)
                 && StatusText(s) == FirstKnown(entries, s.agent.threadId, StatusId, StatusText)
  {
    MergeKeepsOrder(entries, StatusId, JoinStatuses);
    forall j | 0 <= j < |MergeAll(entries, StatusId, JoinStatuses)|
      ensures var s := MergeAll(entries, StatusId, JoinStatuses)[j];
              && s.agent.nickname == FirstKnown(entries, s.agent.threadId, StatusId, StatusNickname)
              && s.agent.role == FirstKnown(entries, s.agent.threadId, StatusId, StatusRole)
              && StatusText(s) == FirstKnown(entries, s.agent.threadId, StatusId, StatusText)
    {
      MergedStatusAt(entries, j);
    }
  }
}
