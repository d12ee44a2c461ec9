/** What an enriched collab call says and whom it names. */
module CollabContents {
  import opened Wrappers
  import opened ThreadItems
  import opened Collab
  import opened CollabEnrich

  // ---------- the names of a thread ----------

  ghost predicate Known(f: Option<JsString>) {
    f.Some? && f.value != []
  }

  /** The summary names the thread. */
  ghost predicate Names(t: ThreadSummary, id: JsString) {
    t.id == id && id != [] && (Known(t.nickname) || Known(t.role))
  }

  /** The last summary that names the thread is at `i`. */
  ghost predicate LastNaming(threads: seq<ThreadSummary>, i: nat, id: JsString) {
    i < |threads| && Names(threads[i], id) && forall j :: i < j < |threads| ==> !Names(threads[j], id)
  }

  lemma LastNamingStep(init: seq<ThreadSummary>, last: ThreadSummary, i: nat, id: JsString)
    ensures LastNaming(init + [last], i, id)
            <==> if Names(last, id) then i == |init| else LastNaming(init, i, id)
  {
    var threads := init + [last];
    assert threads[|init|] == last;
    assert forall j :: 0 <= j < |init| ==> threads[j] == init[j];
  }

  lemma NamesStep(init: seq<ThreadSummary>, last: ThreadSummary)
    ensures MetadataOf(init + [last])
            == if Names(last, last.id) then MetadataOf(init)[last.id := Metadata(last.nickname, last.role)]
               else MetadataOf(init)
  {
    assert (init + [last])[..|init|] == init;
  }

  ghost predicate IsOfLastSummary(threads: seq<ThreadSummary>, metadata: MetadataById, id: JsString) {
    && (id in metadata <==> exists i: nat :: LastNaming(threads, i, id))
    && forall i: nat :: LastNaming(threads, i, id) ==>
                          id in metadata && metadata[id] == Metadata(threads[i].nickname, threads[i].role)
  }

  lemma LastSummaryStep(init: seq<ThreadSummary>, last: ThreadSummary, before: MetadataById, after: MetadataById,
                        id: JsString)
    requires IsOfLastSummary(init, before, id)
    requires if Names(last, id) then id in after && after[id] == Metadata(last.nickname, last.role)
             else (id in after <==> id in before) && (id in after ==> after[id] == before[id])
    ensures IsOfLastSummary(init + [last], after, id)
  {
    LastNamingStep(init, last, |init|, id);
    forall i: nat
      ensures LastNaming(init + [last], i, id)
              <==> if Names(last, id) then i == |init| else LastNaming(init, i, id)
      ensures i < |init| ==> (init + [last])[i] == init[i]
    {
      LastNamingStep(init, last, i, id);
    }
  }

  /** The nickname and role used for a thread are those of the last summary that names it; a thread
      is unknown exactly when none does. */
  lemma {:induction false} MetadataIsOfLastSummary(threads: seq<ThreadSummary>, id: JsString)
    ensures IsOfLastSummary(threads, MetadataOf(threads), id)
  {
    if threads != [] {
      var init, last := threads[..|threads| - 1], threads[|threads| - 1];
      MetadataIsOfLastSummary(init, id);
      assert threads == init + [last];
      NamesStep(init, last);
      LastSummaryStep(init, last, MetadataOf(init), MetadataOf(threads), id);
    }
  }

  // ---------- whom a call names ----------

  /** Enrichment replaces every person by the enriched one and loses none: sender, receivers and
      statuses stay in place, and a missing receiver becomes the first of the receivers. */
  lemma EnrichedPeople(item: CollabItem, metadata: MetadataById)
    requires item.Call?
    ensures var e := EnrichItem(item, metadata);
            var receivers, statuses := item.receivers.GetOr([]), item.statuses.GetOr([]);
            && e.Call? && e.id == item.id
            && e.sender.Some? == item.sender.Some?
            && (item.sender.Some? ==> e.sender.value == EnrichRef(item.sender.value, metadata).0)
            && |e.receivers.GetOr([])| == |receivers|
            && (forall i :: 0 <= i < |receivers| ==> e.receivers.GetOr([])[i] == EnrichRef(receivers[i], metadata).0)
            && |e.statuses.GetOr([])| == |statuses|
            && (forall i :: 0 <= i < |statuses| ==>
                  e.statuses.GetOr([])[i] == Status(EnrichRef(statuses[i].agent, metadata).0, statuses[i].status))
            && (e.receiver.Some? <==> item.receiver.Some? || receivers != [])
            && (e.receiver.Some? ==>
                  e.receiver.value
                  == EnrichRef(if item.receiver.Some? then item.receiver.value else receivers[0], metadata).0)
  {
    var receivers, statuses := item.receivers.GetOr([]), item.statuses.GetOr([]);
    PresentReads(EnrichRefs(receivers, metadata));
    PresentReads(EnrichStatuses(statuses, metadata));
    if !ItemChanged(item, metadata) {
      UnchangedParts(item, metadata);
    }
  }

  /** Every call is enriched in place as soon as one thread is named; other items never change. */
  lemma {:induction false} EnrichedInPlace(items: seq<CollabItem>, threads: seq<ThreadSummary>)
    ensures |Enriched(items, threads)| == |items|
    ensures forall i :: 0 <= i < |items| ==>
              Enriched(items, threads)[i]
              == if items[i].Call? && MetadataOf(threads) != map[] then EnrichItem(items[i], MetadataOf(threads))
                 else items[i]
  {
    EnrichedEach(items, MetadataOf(threads));
  }

  lemma {:induction false} EnrichedEach(items: seq<CollabItem>, metadata: MetadataById)
    ensures forall i :: 0 <= i < |items| ==> EnrichAll(items, metadata)[i] == EnrichItem(items[i], metadata)
  {
    if items != [] {
      EnrichedEach(items[..|items| - 1], metadata);
    }
  }

  // ---------- the text ----------

  /** Missing, or nothing but white space. */
  ghost predicate Blank(f: Option<JsString>) {
    f.None? || !Says(f.value)
  }

  /** A label: the nickname, or else the thread id, followed by the role in brackets unless blank. */
  lemma LabelSays(agent: Ref)
    ensures FormatLabel(agent)
            == (if Blank(agent.nickname) then agent.threadId else Trim(agent.nickname.value))
               + (if Blank(agent.role) then [] else [0x20, 0x5B] + Trim(agent.role.value) + [0x5D])
  {
    SaysIff(agent.nickname.GetOr([]));
    SaysIff(agent.role.GetOr([]));
  }

  lemma {:induction false} JoinOneMore(parts: seq<JsString>, last: JsString, separator: JsString)
    requires parts != []
    ensures Join(parts + [last], separator) == Join(parts, separator) + separator + last
  {
    var all := parts + [last];
    if |parts| == 1 {
      assert all[1..] == [last];
    } else {
      assert all[1..] == parts[1..] + [last];
      JoinOneMore(parts[1..], last, separator);
      var rest := Join(parts[1..], separator);
      Regroup(parts[0] + separator, rest + separator, last);
      Regroup(parts[0] + separator, rest, separator);
    }
  }

  /** One line per status: the label, a colon and a space, and the status. */
  lemma StatusesSay(statuses: seq<Status>, last: Status)
    ensures FormatStatuses([]) == []
    ensures FormatStatuses(statuses + [last])
            == (if statuses == [] then [] else FormatStatuses(statuses) + [0x0A])
               + (FormatLabel(last.agent) + [0x3A, 0x20] + last.status)
  {
    var lines := seq(|statuses|, i requires 0 <= i < |statuses| => FormatStatus(statuses[i]));
    var all := statuses + [last];
    assert seq(|all|, i requires 0 <= i < |all| => FormatStatus(all[i])) == lines + [FormatStatus(last)];
    if statuses != [] {
      JoinOneMore(lines, FormatStatus(last), NEWLINE);
    }
  }

  function Labels(receivers: seq<Ref>): (labels: seq<JsString>)
    ensures |labels| == |receivers|
  {
    seq(|receivers|, i requires 0 <= i < |receivers| => FormatLabel(receivers[i]))
  }

  lemma JoinTwoGrows(first: JsString, separator: JsString, second: JsString, x: JsString, y: JsString)
    requires second != []
    ensures JoinTwo(first, separator, second + x + y) == JoinTwo(first, separator, second) + x + y
  {
    if first != [] {
      Regroup(first + separator, second + x, y);
      Regroup(first + separator, second, x);
    }
  }

  lemma OneMoreReceiver(sender: Option<Ref>, receivers: seq<Ref>, last: Ref)
    requires receivers != []
    ensures BuildDetail(sender, receivers + [last])
            == BuildDetail(sender, receivers) + [0x2C, 0x20] + FormatLabel(last)
  {
    var labels, all := Labels(receivers), receivers + [last];
    assert Labels(all) == labels + [FormatLabel(last)];
    JoinOneMore(labels, FormatLabel(last), COMMA);
    var from := if sender.Some? then FROM + FormatLabel(sender.value) else [];
    assert BuildDetail(sender, receivers) == JoinTwo(from, SPACE, ARROW + Join(labels, COMMA));
    assert BuildDetail(sender, all) == JoinTwo(from, SPACE, ARROW + Join(Labels(all), COMMA));
    Regroup(ARROW, Join(labels, COMMA) + COMMA, FormatLabel(last));
    Regroup(ARROW, Join(labels, COMMA), COMMA);
    JoinTwoGrows(from, SPACE, ARROW + Join(labels, COMMA), COMMA, FormatLabel(last));
  }

  /** The detail line names the sender, then an arrow and the receivers with commas. */
  lemma DetailSays(sender: Option<Ref>, receivers: seq<Ref>, last: Ref)
    ensures BuildDetail(None, []) == []
    ensures sender.Some? ==> BuildDetail(sender, []) == [0x46, 0x72, 0x6F, 0x6D, 0x20] + FormatLabel(sender.value)
    ensures BuildDetail(None, [last]) == [0x2192, 0x20] + FormatLabel(last)
    ensures sender.Some? ==>
              BuildDetail(sender, [last]) == BuildDetail(sender, []) + [0x20] + BuildDetail(None, [last])
    ensures receivers != [] ==>
              BuildDetail(sender, receivers + [last])
              == BuildDetail(sender, receivers) + [0x2C, 0x20] + FormatLabel(last)
  {
    if receivers != [] {
      OneMoreReceiver(sender, receivers, last);
    }
  }

  /** The prompt read from an output: all of it unless the printed statuses end it, and otherwise what
      is in front of them and of one blank line. */
  lemma PromptIsReadFrom(text: JsString, statuses: seq<Status>, front: JsString)
    requires text != []
    ensures statuses == [] || !EndsWith(text, FormatStatuses(statuses))
            ==> ExtractPrompt(Some(text), Some(statuses)) == text
    ensures statuses != [] && text == front + [0x0A, 0x0A] + FormatStatuses(statuses)
            ==> ExtractPrompt(Some(text), Some(statuses)) == front
    ensures statuses != [] && text == front + FormatStatuses(statuses) && !EndsWith(front, [0x0A, 0x0A])
            ==> ExtractPrompt(Some(text), Some(statuses)) == front
  {
    var printed := FormatStatuses(statuses);
    EndOfConcat(front + BLANK_LINE, printed);
    EndOfConcat(front, BLANK_LINE);
    EndOfConcat(front, printed);
  }

  /** The output is the trimmed prompt, a blank line and the statuses, each left out when empty. */
  lemma OutputSays(prompt: JsString, statuses: seq<Status>)
    ensures BuildOutput(prompt, []) == Trim(prompt)
    ensures Blank(Some(prompt)) ==> BuildOutput(prompt, statuses) == FormatStatuses(statuses)
    ensures !Blank(Some(prompt)) && statuses != [] ==>
              BuildOutput(prompt, statuses) == Trim(prompt) + [0x0A, 0x0A] + FormatStatuses(statuses)
  {
    SaysIff(prompt);
  }
}
