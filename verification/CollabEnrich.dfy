/** The text of a collab tool call and its enrichment with thread names:
    src/utils/threadItems.collab.ts, run again on every refresh. */
module CollabEnrich {
  import opened Wrappers
  import opened ThreadItems
  import opened Collab

  const NEWLINE: JsString := [10]
  const BLANK_LINE: JsString := [10, 10]
  const SPACE: JsString := [32]
  const COLON: JsString := [58, 32]
  const COMMA: JsString := [44, 32]
  const FROM: JsString := [70, 114, 111, 109, 32]
  const ARROW: JsString := [0x2192, 32]

  // ---------- text ----------

  function Join(parts: seq<JsString>, separator: JsString): JsString {
    if parts == [] then []
    else if |parts| == 1 then parts[0]
    else parts[0] + separator + Join(parts[1..], separator)
  }

  /** `[first, second].filter(Boolean).join(separator)` */
  function JoinTwo(first: JsString, separator: JsString, second: JsString): JsString {
    if first == [] then second else if second == [] then first else first + separator + second
  }

  function Trimmed(f: Option<JsString>): JsString {
    Trim(f.GetOr([]))
  }

  function FormatLabel(agent: Ref): JsString {
    var nickname, role := Trimmed(agent.nickname), Trimmed(agent.role);
    var bracketed := [32, 91] + role + [93];
    if nickname != [] && role != [] then nickname + bracketed
    else if nickname != [] then nickname
    else if role != [] then agent.threadId + bracketed
    else agent.threadId
  }

  function FormatStatus(s: Status): (r: JsString)
    ensures r != []
  {
    FormatLabel(s.agent) + COLON + s.status
  }

  function FormatStatuses(statuses: seq<Status>): (r: JsString)
    ensures r == [] <==> statuses == []
  {
    Join(seq(|statuses|, i requires 0 <= i < |statuses| => FormatStatus(statuses[i])), NEWLINE)
  }

  function BuildDetail(sender: Option<Ref>, receivers: seq<Ref>): JsString {
    JoinTwo(if sender.Some? then FROM + FormatLabel(sender.value) else [],
            SPACE,
            if receivers == [] then []
            else ARROW + Join(seq(|receivers|, i requires 0 <= i < |receivers| => FormatLabel(receivers[i])), COMMA))
  }

  function BuildOutput(prompt: JsString, statuses: seq<Status>): JsString {
    JoinTwo(Trim(prompt), BLANK_LINE, FormatStatuses(statuses))
  }

  predicate EndsWith(text: JsString, end: JsString) {
    |end| <= |text| && text[|text| - |end|..] == end
  }

  function WithoutEnd(text: JsString, end: JsString): JsString {
    if EndsWith(text, end) then text[..|text| - |end|] else text
  }

  function ExtractPrompt(output: Option<JsString>, statuses: Option<seq<Status>>): JsString {
    var text, statusText := output.GetOr([]), FormatStatuses(statuses.GetOr([]));
    if text == [] then []
    else if statusText == [] || !EndsWith(text, statusText) then text
    else WithoutEnd(WithoutEnd(text, statusText), BLANK_LINE)
  }

  lemma EndOfConcat(text: JsString, end: JsString)
    ensures EndsWith(text + end, end) && WithoutEnd(text + end, end) == text
  {
  }

  /** The prompt comes back from the printed output, trimmed, whatever it says. */
  lemma PromptRoundTrip(prompt: JsString, statuses: seq<Status>)
    ensures ExtractPrompt(Some(BuildOutput(prompt, statuses)), Some(statuses)) == Trim(prompt)
  {
    var text, printed := Trim(prompt), FormatStatuses(statuses);
    if text != [] && printed != [] {
      assert text + BLANK_LINE + printed == (text + BLANK_LINE) + printed;
      EndOfConcat(text + BLANK_LINE, printed);
      EndOfConcat(text, BLANK_LINE);
    } else if printed != [] {
      EndOfConcat([], printed);
      assert [] + printed == printed;
    }
  }

  lemma {:induction false} TrimStartTwice(s: JsString)
    ensures TrimStart(s) != [] ==> !IsSpace(TrimStart(s)[0])
  {
    if s != [] && IsSpace(s[0]) {
      TrimStartTwice(s[1..]);
    }
  }

  lemma {:induction false} TrimEndTwice(s: JsString)
    ensures TrimEnd(TrimEnd(s)) == TrimEnd(s)
    ensures TrimEnd(s) != [] ==> TrimEnd(s)[0] == s[0]
  {
    if s != [] && IsSpace(s[|s| - 1]) {
      TrimEndTwice(s[..|s| - 1]);
    }
  }

  lemma TrimTwice(s: JsString)
    ensures Trim(Trim(s)) == Trim(s)
  {
    TrimStartTwice(s);
    TrimEndTwice(TrimStart(s));
  }

  // ---------- enrichment ----------

  /** The fields of `ThreadSummary` used here; null, missing and `undefined` read the same. */
  datatype ThreadSummary = ThreadSummary(id: JsString, nickname: Option<JsString>, role: Option<JsString>)
  datatype Metadata = Metadata(nickname: Option<JsString>, role: Option<JsString>)
  type MetadataById = map<JsString, Metadata>

  predicate Truthy(f: Option<JsString>) {
    f.Some? && f.value != []
  }

  function MetadataOf(threads: seq<ThreadSummary>): MetadataById {
    if threads == [] then map[]
    else
      var earlier, t := MetadataOf(threads[..|threads| - 1]), threads[|threads| - 1];
      if t.id == [] || (!Truthy(t.nickname) && !Truthy(t.role)) then earlier
      else earlier[t.id := Metadata(t.nickname, t.role)]
  }

  /** A reference after enrichment, and whether it is a new object. */
  function EnrichRef(agent: Ref, metadata: MetadataById): (Ref, bool) {
    if agent.threadId !in metadata then (agent, false)
    else
      var m := metadata[agent.threadId];
      var nickname, role := OrElse(agent.nickname, m.nickname), OrElse(agent.role, m.role);
      if nickname == agent.nickname && role == agent.role then (agent, false)
      else
        (Ref(agent.threadId,
             if Truthy(nickname) then nickname else agent.nickname,
             if Truthy(role) then role else agent.role), true)
  }

  function EnrichStatus(s: Status, metadata: MetadataById): (Status, bool) {
    var r := EnrichRef(s.agent, metadata);
    (Status(r.0, s.status), r.1)
  }

  /** A collab tool call, or any other item. */
  datatype CollabItem =
    | Other(item: Item)
    | Call(id: JsString, detail: JsString, output: Option<JsString>, sender: Option<Ref>, receiver: Option<Ref>,
           receivers: Option<seq<Ref>>, statuses: Option<seq<Status>>)

  function EnrichRefs(refs: seq<Ref>, metadata: MetadataById): (r: seq<Ref>)
    ensures |r| == |refs| && forall i :: 0 <= i < |refs| ==> r[i] == EnrichRef(refs[i], metadata).0
  {
    seq(|refs|, i requires 0 <= i < |refs| => EnrichRef(refs[i], metadata).0)
  }

  function EnrichStatuses(statuses: seq<Status>, metadata: MetadataById): (r: seq<Status>)
    ensures |r| == |statuses| && forall i :: 0 <= i < |statuses| ==> r[i] == EnrichStatus(statuses[i], metadata).0
  {
    seq(|statuses|, i requires 0 <= i < |statuses| => EnrichStatus(statuses[i], metadata).0)
  }

  function EnrichOptional(agent: Option<Ref>, metadata: MetadataById): Option<Ref> {
    if agent.Some? then Some(EnrichRef(agent.value, metadata).0) else None
  }

  function Present<T>(s: seq<T>): Option<seq<T>> {
    if s == [] then None else Some(s)
  }

  function PrimaryReceiver(receiver: Option<Ref>, nextReceivers: seq<Ref>, metadata: MetadataById): Option<Ref> {
    if receiver.Some? then EnrichOptional(receiver, metadata)
    else if nextReceivers != [] then Some(nextReceivers[0])
    else None
  }

  /** Who the detail line names. */
  function DetailReceivers(receiver: Option<Ref>, receivers: seq<Ref>): seq<Ref> {
    if receivers != [] then receivers else if receiver.Some? then [receiver.value] else []
  }

  /** The call with every part recomputed. */
  function Rebuild(item: CollabItem, metadata: MetadataById): CollabItem
    requires item.Call?
  {
    var sender := EnrichOptional(item.sender, metadata);
    var receivers := EnrichRefs(item.receivers.GetOr([]), metadata);
    var statuses := EnrichStatuses(item.statuses.GetOr([]), metadata);
    var receiver := PrimaryReceiver(item.receiver, receivers, metadata);
    Call(item.id,
         BuildDetail(sender, DetailReceivers(receiver, receivers)),
         Some(BuildOutput(ExtractPrompt(item.output, item.statuses), statuses)),
         sender, receiver, Present(receivers), Present(statuses))
  }

  /** Whether the code sees a difference: a new object, or a different line of text. */
  predicate ItemChanged(item: CollabItem, metadata: MetadataById)
    requires item.Call?
  {
    var next := Rebuild(item, metadata);
    var receivers, statuses := item.receivers.GetOr([]), item.statuses.GetOr([]);
    || (item.sender.Some? && EnrichRef(item.sender.value, metadata).1)
    || (if item.receiver.Some? then EnrichRef(item.receiver.value, metadata).1 else receivers != [])
    || (exists i :: 0 <= i < |receivers| && EnrichRef(receivers[i], metadata).1)
    || (exists i :: 0 <= i < |statuses| && EnrichStatus(statuses[i], metadata).1)
    || next.detail != item.detail
    || next.output.value != item.output.GetOr([])
  }

  function EnrichItem(item: CollabItem, metadata: MetadataById): CollabItem {
    if item.Call? && ItemChanged(item, metadata) then Rebuild(item, metadata) else item
  }

  function EnrichAll(items: seq<CollabItem>, metadata: MetadataById): (r: seq<CollabItem>)
    ensures |r| == |items|
  {
    if items == [] then []
    else EnrichAll(items[..|items| - 1], metadata) + [EnrichItem(items[|items| - 1], metadata)]
  }

  lemma EnrichStep(items: seq<CollabItem>, metadata: MetadataById, i: nat)
    requires i < |items|
    ensures EnrichAll(items[..i + 1], metadata) == EnrichAll(items[..i], metadata) + [EnrichItem(items[i], metadata)]
    ensures items[..i + 1] == items[..i] + [items[i]]
  {
    assert items[..i + 1][..i] == items[..i];
  }

  /** Without thread names nothing is touched, not even stale text. */
  function Enriched(items: seq<CollabItem>, threads: seq<ThreadSummary>): seq<CollabItem> {
    if MetadataOf(threads) == map[] then items else EnrichAll(items, MetadataOf(threads))
  }

  method CollectMetadata(threads: seq<ThreadSummary>) returns (metadata: MetadataById)
    ensures metadata == MetadataOf(threads)
  {
    metadata := map[];
    for t := 0 to |threads|
      invariant metadata == MetadataOf(threads[..t])
    {
      assert threads[..t + 1][..t] == threads[..t];
      var thread := threads[t];
      if thread.id == [] || (!Truthy(thread.nickname) && !Truthy(thread.role)) {
        continue;
      }
      metadata := metadata[thread.id := Metadata(thread.nickname, thread.role)];
    }
    assert threads[..|threads|] == threads;
  }

  method EnrichOne(item: CollabItem, metadata: MetadataById) returns (next: CollabItem, itemChanged: bool)
    ensures next == EnrichItem(item, metadata)
    ensures !itemChanged ==> next == item
  {
    itemChanged := item.Call? && ItemChanged(item, metadata);
    next := if itemChanged then Rebuild(item, metadata) else item;
  }

  method EnrichEach(items: seq<CollabItem>, metadata: MetadataById)
    returns (nextItems: seq<CollabItem>, didChange: bool)
    ensures nextItems == EnrichAll(items, metadata)
    ensures !didChange ==> nextItems == items
  {
    didChange, nextItems := false, [];
    for i := 0 to |items|
      invariant nextItems == EnrichAll(items[..i], metadata)
      invariant !didChange ==> nextItems == items[..i]
    {
      var next, itemChanged := EnrichOne(items[i], metadata);
      EnrichStep(items, metadata, i);
      didChange := didChange || itemChanged;
      nextItems := nextItems + [next];
    }
    assert items[..|items|] == items;
  }

  method EnrichConversationItemsWithThreads(items: seq<CollabItem>, threads: seq<ThreadSummary>)
    returns (result: seq<CollabItem>)
    ensures result == Enriched(items, threads)
  {
    if items == [] || threads == [] {
      return items;
    }
    var metadata := CollectMetadata(threads);
    if metadata == map[] {
      return items;
    }
    var nextItems, didChange := EnrichEach(items, metadata);
    return if didChange then nextItems else items;
  }

  // ---------- what enrichment keeps ----------

  /** A known nickname or role is never overwritten; an unknown one is filled in exactly when the
      thread has one that is not empty. */
  lemma EnrichRefFillsIn(agent: Ref, metadata: MetadataById)
    ensures var r := EnrichRef(agent, metadata).0;
            && r.threadId == agent.threadId
            && (agent.nickname.Some? ==> r.nickname == agent.nickname)
            && (agent.role.Some? ==> r.role == agent.role)
            && (agent.nickname.None? ==>
                  r.nickname == if agent.threadId in metadata && Truthy(metadata[agent.threadId].nickname)
                                then metadata[agent.threadId].nickname else None)
            && (agent.role.None? ==>
                  r.role == if agent.threadId in metadata && Truthy(metadata[agent.threadId].role)
                            then metadata[agent.threadId].role else None)
  {
  }

  lemma EnrichRefTwice(agent: Ref, metadata: MetadataById)
    ensures EnrichRef(EnrichRef(agent, metadata).0, metadata).0 == EnrichRef(agent, metadata).0
  {
  }

  lemma EnrichRefsTwice(refs: seq<Ref>, metadata: MetadataById)
    ensures EnrichRefs(EnrichRefs(refs, metadata), metadata) == EnrichRefs(refs, metadata)
  {
    forall i | 0 <= i < |refs|
      ensures EnrichRef(EnrichRefs(refs, metadata)[i], metadata).0 == EnrichRefs(refs, metadata)[i]
    {
      EnrichRefTwice(refs[i], metadata);
    }
  }

  lemma EnrichStatusesTwice(statuses: seq<Status>, metadata: MetadataById)
    ensures EnrichStatuses(EnrichStatuses(statuses, metadata), metadata) == EnrichStatuses(statuses, metadata)
  {
    forall i | 0 <= i < |statuses|
      ensures EnrichStatus(EnrichStatuses(statuses, metadata)[i], metadata).0 == EnrichStatuses(statuses, metadata)[i]
    {
      EnrichRefTwice(statuses[i].agent, metadata);
    }
  }

  lemma PresentReads<T>(s: seq<T>)
    ensures Present(s).GetOr([]) == s
  {
  }

  lemma BuiltTwice(prompt: JsString, statuses: seq<Status>)
    ensures BuildOutput(ExtractPrompt(Some(BuildOutput(prompt, statuses)), Present(statuses)), statuses)
            == BuildOutput(prompt, statuses)
  {
    PromptRoundTrip(prompt, statuses);
    TrimTwice(prompt);
  }

  lemma PrimaryReceiverTwice(receiver: Option<Ref>, receivers: seq<Ref>, metadata: MetadataById)
    ensures var once := EnrichRefs(receivers, metadata);
            var primary := PrimaryReceiver(receiver, once, metadata);
            PrimaryReceiver(primary, once, metadata) == primary
  {
    if receiver.Some? {
      EnrichRefTwice(receiver.value, metadata);
    } else if receivers != [] {
      EnrichRefTwice(receivers[0], metadata);
    }
  }

  lemma RebuildTwice(item: CollabItem, metadata: MetadataById)
    requires item.Call?
    ensures Rebuild(Rebuild(item, metadata), metadata) == Rebuild(item, metadata)
  {
    var receivers, statuses := item.receivers.GetOr([]), item.statuses.GetOr([]);
    if item.sender.Some? {
      EnrichRefTwice(item.sender.value, metadata);
    }
    EnrichRefsTwice(receivers, metadata);
    EnrichStatusesTwice(statuses, metadata);
    PresentReads(EnrichRefs(receivers, metadata));
    PresentReads(EnrichStatuses(statuses, metadata));
    PrimaryReceiverTwice(item.receiver, receivers, metadata);
    BuiltTwice(ExtractPrompt(item.output, item.statuses), EnrichStatuses(statuses, metadata));
  }

  /** Enriching again changes nothing, for every list of items, parsed here or not. */
  lemma EnrichIsIdempotent(items: seq<CollabItem>, threads: seq<ThreadSummary>)
    ensures Enriched(Enriched(items, threads), threads) == Enriched(items, threads)
  {
    var metadata := MetadataOf(threads);
    if metadata != map[] {
      EnrichAllTwice(items, metadata);
    }
  }

  lemma EnrichItemTwice(item: CollabItem, metadata: MetadataById)
    ensures EnrichItem(EnrichItem(item, metadata), metadata) == EnrichItem(item, metadata)
  {
    if item.Call? {
      RebuildTwice(item, metadata);
    }
  }

  lemma {:induction false} EnrichAllTwice(items: seq<CollabItem>, metadata: MetadataById)
    ensures EnrichAll(EnrichAll(items, metadata), metadata) == EnrichAll(items, metadata)
  {
    if items != [] {
      var init, last := items[..|items| - 1], items[|items| - 1];
      var once := EnrichAll(init, metadata);
      EnrichAllTwice(init, metadata);
      EnrichItemTwice(last, metadata);
      assert (once + [EnrichItem(last, metadata)])[..|once|] == once;
    }
  }

  /** After enrichment the text of a call says what its parts say, and the prompt is still there. */
  lemma EnrichedTextAgrees(item: CollabItem, metadata: MetadataById)
    requires item.Call?
    ensures var e := EnrichItem(item, metadata);
            && e.Call?
            && e.detail == BuildDetail(e.sender, DetailReceivers(e.receiver, e.receivers.GetOr([])))
            && e.output.GetOr([]) == BuildOutput(ExtractPrompt(e.output, e.statuses), e.statuses.GetOr([]))
            && Trim(ExtractPrompt(e.output, e.statuses)) == Trim(ExtractPrompt(item.output, item.statuses))
  {
    var next := Rebuild(item, metadata);
    var prompt := ExtractPrompt(item.output, item.statuses);
    var receivers, statuses := item.receivers.GetOr([]), item.statuses.GetOr([]);
    var nextStatuses := EnrichStatuses(statuses, metadata);
    PromptRoundTrip(prompt, nextStatuses);
    TrimTwice(prompt);
    PresentReads(EnrichRefs(receivers, metadata));
    PresentReads(nextStatuses);
    if !ItemChanged(item, metadata) {
      UnchangedParts(item, metadata);
    }
  }

  lemma UnchangedParts(item: CollabItem, metadata: MetadataById)
    requires item.Call? && !ItemChanged(item, metadata)
    ensures var next := Rebuild(item, metadata);
            && next.sender == item.sender && next.receiver == item.receiver
            && EnrichRefs(item.receivers.GetOr([]), metadata) == item.receivers.GetOr([])
            && EnrichStatuses(item.statuses.GetOr([]), metadata) == item.statuses.GetOr([])
            && next.detail == item.detail && next.output.value == item.output.GetOr([])
  {
  }
}
