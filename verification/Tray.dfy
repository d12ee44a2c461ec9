/** The tray menu index: src-tauri/src/tray.rs. Hash-map iteration order is arbitrary here. */
module Tray {
  import opened Wrappers
  import Text
  import opened Sorting

  const RECENT_THREADS_SECTION_LIMIT := 3

  datatype Entry = Entry(workspaceId: string, workspaceLabel: string, threadId: string, threadLabel: string,
                         updatedAt: int)

  type Key = (string, string)

  function KeyOf(e: Entry): Key {
    (e.workspaceId, e.threadId)
  }

  // ---------- normalising ----------

  /** The entry with its texts trimmed, unless one of them is blank. */
  function Clean(e: Entry): Option<Entry> {
    var c := Entry(Text.Trim(e.workspaceId), Text.Trim(e.workspaceLabel), Text.Trim(e.threadId),
                   Text.Trim(e.threadLabel), e.updatedAt);
    if c.workspaceId == "" || c.threadId == "" || c.threadLabel == "" || c.workspaceLabel == "" then None else Some(c)
  }

  /** One round of the dedupe loop: only a strictly newer entry replaces. */
  function Kept(m: map<Key, Entry>, e: Entry): map<Key, Entry> {
    var c := Clean(e);
    if c.None? || (KeyOf(c.value) in m && c.value.updatedAt <= m[KeyOf(c.value)].updatedAt) then m
    else m[KeyOf(c.value) := c.value]
  }

  function Deduped(entries: seq<Entry>): (m: map<Key, Entry>)
    ensures forall k :: k in m ==> KeyOf(m[k]) == k
  {
    if entries == [] then map[] else Kept(Deduped(entries[..|entries| - 1]), entries[|entries| - 1])
  }

  /** Newest first, then by thread label, then by workspace label. */
  predicate NormalLeq(a: Entry, b: Entry) {
    || a.updatedAt > b.updatedAt
    || (a.updatedAt == b.updatedAt && a.threadLabel != b.threadLabel && StringLeq(a.threadLabel, b.threadLabel))
    || (a.updatedAt == b.updatedAt && a.threadLabel == b.threadLabel && StringLeq(a.workspaceLabel, b.workspaceLabel))
  }

  /** Every value of the map exactly once. */
  ghost predicate Lists(m: map<Key, Entry>, s: seq<Entry>) {
    forall e: Entry :: multiset(s)[e] == if KeyOf(e) in m && m[KeyOf(e)] == e then 1 else 0
  }

  method Dedupe(entries: seq<Entry>) returns (deduped: map<Key, Entry>)
    ensures deduped == Deduped(entries)
  {
    deduped := map[];
    for i := 0 to |entries|
      invariant deduped == Deduped(entries[..i])
    {
      assert entries[..i + 1][..i] == entries[..i];
      var c := Clean(entries[i]);
      if c.None? {
        continue;
      }
      var key := KeyOf(c.value);
      var shouldReplace := key !in deduped || c.value.updatedAt > deduped[key].updatedAt;
      if shouldReplace {
        deduped := deduped[key := c.value];
      }
    }
    assert entries[..|entries|] == entries;
  }

  method NormalizeTrayThreads(entries: seq<Entry>) returns (normalized: seq<Entry>)
    ensures Lists(Deduped(entries), normalized)
    ensures SortedBy(normalized, NormalLeq)
  {
    var deduped := Dedupe(entries);
    var values := Values(deduped);
    NormalLeqIsPreorder();
    SortSorts(values, NormalLeq);
    SortKeepsElements(values, NormalLeq);
    normalized := Sort(values, NormalLeq);
  }

  /** `into_values`, in some order. */
  method Values(m: map<Key, Entry>) returns (values: seq<Entry>)
    requires forall k :: k in m ==> KeyOf(m[k]) == k
    ensures Lists(m, values)
  {
    var keys := m.Keys;
    values := [];
    while keys != {}
      invariant keys <= m.Keys
      invariant forall e: Entry ::
                  multiset(values)[e] == if KeyOf(e) in m && KeyOf(e) !in keys && m[KeyOf(e)] == e then 1 else 0
    {
      var k :| k in keys;
      keys := keys - {k};
      values := values + [m[k]];
    }
  }

  lemma NormalLeqIsPreorder()
    ensures TotalPreorder(NormalLeq)
  {
    forall a, b ensures NormalLeq(a, b) || NormalLeq(b, a) {
      StringLeqIsTotal(a.threadLabel, b.threadLabel);
      StringLeqIsTotal(a.workspaceLabel, b.workspaceLabel);
    }
    forall a, b, c | NormalLeq(a, b) && NormalLeq(b, c) ensures NormalLeq(a, c) {
      NormalLeqIsTransitive(a, b, c);
    }
  }

  lemma NormalLeqIsTransitive(a: Entry, b: Entry, c: Entry)
    requires NormalLeq(a, b) && NormalLeq(b, c)
    ensures NormalLeq(a, c)
  {
    if a.updatedAt == b.updatedAt == c.updatedAt {
      if a.threadLabel == b.threadLabel == c.threadLabel {
        StringLeqIsTransitive(a.workspaceLabel, b.workspaceLabel, c.workspaceLabel);
      } else {
        StringLeqIsTotal(a.threadLabel, b.threadLabel);
        StringLeqIsTotal(b.threadLabel, c.threadLabel);
        if StringLeq(a.threadLabel, b.threadLabel) && StringLeq(b.threadLabel, c.threadLabel) {
          StringLeqIsTransitive(a.threadLabel, b.threadLabel, c.threadLabel);
        }
      }
    }
  }

  // ---------- menu sections ----------

  datatype Payload = Payload(workspaceId: string, threadId: string)
  datatype MenuItem = MenuItem(menuId: string, name: string, payload: Payload)
  datatype Section = Section(workspaceLabel: string, newestUpdatedAt: int, items: seq<MenuItem>)
  datatype Sections = Sections(recent: seq<MenuItem>, workspaces: seq<Section>)

  function ItemOf(menuId: string, e: Entry): MenuItem {
    MenuItem(menuId, e.threadLabel, Payload(e.workspaceId, e.threadId))
  }

  function Decimal(n: nat): (s: string)
    ensures s != ""
  {
    (if n < 10 then "" else Decimal(n / 10)) + [(n % 10 + 48) as char]
  }

  function RecentId(i: nat): string {
    "tray_recent_" + Decimal(i)
  }

  function WorkspaceThreadId(w: nat, t: nat): string {
    "tray_workspace_" + (Decimal(w) + ("_" + Decimal(t)))
  }

  /** Within a workspace: newest first, then by thread label. */
  predicate EntryLeq(a: Entry, b: Entry) {
    a.updatedAt > b.updatedAt || (a.updatedAt == b.updatedAt && StringLeq(a.threadLabel, b.threadLabel))
  }

  predicate SectionLeq(a: Section, b: Section) {
    || a.newestUpdatedAt > b.newestUpdatedAt
    || (a.newestUpdatedAt == b.newestUpdatedAt && StringLeq(a.workspaceLabel, b.workspaceLabel))
  }

  /** The entries of one workspace, in order. */
  function Of(entries: seq<Entry>, w: string): (r: seq<Entry>)
    ensures forall e :: e in r ==> e.workspaceId == w && e in entries
  {
    if entries == [] then []
    else
      var last := entries[|entries| - 1];
      Of(entries[..|entries| - 1], w) + if last.workspaceId == w then [last] else []
  }

  function Ordered(entries: seq<Entry>, w: string): seq<Entry> {
    Sort(Of(entries, w), EntryLeq)
  }

  function Recent(entries: seq<Entry>): (r: seq<MenuItem>)
    ensures |r| == if |entries| < RECENT_THREADS_SECTION_LIMIT then |entries| else RECENT_THREADS_SECTION_LIMIT
    ensures forall i :: 0 <= i < |r| ==> r[i] == ItemOf(RecentId(i), entries[i])
  {
    var n := if |entries| < RECENT_THREADS_SECTION_LIMIT then |entries| else RECENT_THREADS_SECTION_LIMIT;
    seq(n, i requires 0 <= i < n => ItemOf(RecentId(i), entries[i]))
  }

  function Items(entries: seq<Entry>, id: nat -> string): (r: seq<MenuItem>)
    ensures |r| == |entries| && forall i :: 0 <= i < |r| ==> r[i] == ItemOf(id(i), entries[i])
  {
    seq(|entries|, i requires 0 <= i < |entries| => ItemOf(id(i), entries[i]))
  }

  /** The section of one workspace, its entries already in order. */
  function SectionOf(ordered: seq<Entry>, id: nat -> string): Section {
    Section(if ordered == [] then "Workspace" else ordered[0].workspaceLabel,
            if ordered == [] then 0 else ordered[0].updatedAt,
            Items(ordered, id))
  }

  /** The ids threads get in the workspace section at position `w`. */
  function IdsAt(w: nat): nat -> string {
    (t: nat) => WorkspaceThreadId(w, t)
  }

  function NoIds(): nat -> string {
    (t: nat) => ""
  }

  ghost predicate Occurs(w: string, entries: seq<Entry>) {
    exists i :: 0 <= i < |entries| && entries[i].workspaceId == w
  }

  /** `order` names the workspaces that occur, each once. */
  ghost predicate Enumerates(order: seq<string>, entries: seq<Entry>) {
    forall w :: multiset(order)[w] == if Occurs(w, entries) then 1 else 0
  }

  /** What a call may return: the recent threads, and one section per workspace, in section order. */
  ghost predicate Shows(sections: Sections, entries: seq<Entry>, order: seq<string>) {
    && sections.recent == Recent(entries)
    && Enumerates(order, entries)
    && |sections.workspaces| == |order|
    && SortedBy(sections.workspaces, SectionLeq)
    && forall j :: 0 <= j < |order| ==> sections.workspaces[j] == SectionOf(Ordered(entries, order[j]), IdsAt(j))
  }

  /** The map of groups for these entries. */
  ghost predicate Grouped(byId: map<string, seq<Entry>>, entries: seq<Entry>) {
    && (forall w :: w in byId <==> Occurs(w, entries))
    && (forall w :: Of(entries, w) == if w in byId then byId[w] else [])
  }

  method GroupByWorkspace(entries: seq<Entry>) returns (byId: map<string, seq<Entry>>)
    ensures Grouped(byId, entries)
  {
    byId := map[];
    for i := 0 to |entries|
      invariant Grouped(byId, entries[..i])
    {
      var entry := entries[i];
      GroupRound(byId, entries, i);
      var earlier := if entry.workspaceId in byId then byId[entry.workspaceId] else [];
      byId := byId[entry.workspaceId := earlier + [entry]];
    }
    assert entries[..|entries|] == entries;
  }

  lemma GroupRound(byId: map<string, seq<Entry>>, entries: seq<Entry>, i: nat)
    requires i < |entries| && Grouped(byId, entries[..i])
    ensures var e := entries[i];
            var earlier := if e.workspaceId in byId then byId[e.workspaceId] else [];
            Grouped(byId[e.workspaceId := earlier + [e]], entries[..i + 1])
  {
    GroupStep(byId, entries[..i], entries[i]);
    assert entries[..i + 1] == entries[..i] + [entries[i]];
  }

  lemma GroupStep(byId: map<string, seq<Entry>>, entries: seq<Entry>, e: Entry)
    requires Grouped(byId, entries)
    ensures var earlier := if e.workspaceId in byId then byId[e.workspaceId] else [];
            Grouped(byId[e.workspaceId := earlier + [e]], entries + [e])
  {
    var earlier := if e.workspaceId in byId then byId[e.workspaceId] else [];
    var after := byId[e.workspaceId := earlier + [e]];
    forall w ensures w in after <==> Occurs(w, entries + [e]) {
      OneMoreOccurs(entries, e, w);
    }
    forall w ensures Of(entries + [e], w) == if w in after then after[w] else [] {
      OneMoreOf(entries, e, w);
    }
  }

  lemma OneMoreOccurs(entries: seq<Entry>, e: Entry, w: string)
    ensures Occurs(w, entries + [e]) <==> Occurs(w, entries) || e.workspaceId == w
  {
    var all := entries + [e];
    if i :| 0 <= i < |entries| && entries[i].workspaceId == w {
      assert all[i].workspaceId == w;
    }
    assert all[|entries|] == e;
  }

  lemma OneMoreOf(entries: seq<Entry>, e: Entry, w: string)
    ensures Of(entries + [e], w) == if e.workspaceId == w then Of(entries, w) + [e] else Of(entries, w)
  {
    assert (entries + [e])[..|entries|] == entries;
  }

  /** The section of a group, before its threads get their ids. */
  function MakeSection(byId: map<string, seq<Entry>>): string -> Section {
    w => SectionOf(Sort(if w in byId then byId[w] else [], EntryLeq), NoIds())
  }

  /** One section per key, in the order the map yields them. */
  method CollectSections(make: string -> Section, keys: set<string>)
    returns (workspaces: seq<Section>, ghost order: seq<string>)
    ensures workspaces == Map(order, make)
    ensures forall w :: multiset(order)[w] == if w in keys then 1 else 0
  {
    var left := keys;
    workspaces, order := [], [];
    while left != {}
      invariant left <= keys
      invariant forall w :: multiset(order)[w] == if w in keys && w !in left then 1 else 0
      invariant |workspaces| == |order|
      invariant forall j :: 0 <= j < |order| ==> workspaces[j] == make(order[j])
    {
      var w :| w in left;
      left := left - {w};
      workspaces, order := workspaces + [make(w)], order + [w];
    }
    MapIs(workspaces, order, make);
  }

  function Numbered(section: Section, w: nat): Section {
    section.(items := seq(|section.items|, t requires 0 <= t < |section.items| =>
      section.items[t].(menuId := WorkspaceThreadId(w, t))))
  }

  /** The ids, written into the sections in place. */
  method AssignIds(sections: seq<Section>) returns (workspaces: seq<Section>)
    ensures |workspaces| == |sections| && forall w :: 0 <= w < |sections| ==> workspaces[w] == Numbered(sections[w], w)
  {
    workspaces := sections;
    for w := 0 to |sections|
      invariant |workspaces| == |sections|
      invariant forall k :: 0 <= k < w ==> workspaces[k] == Numbered(sections[k], k)
      invariant forall k :: w <= k < |sections| ==> workspaces[k] == sections[k]
    {
      var items := AssignItemIds(workspaces[w].items, w);
      assert items == Numbered(sections[w], w).items;
      workspaces := workspaces[w := workspaces[w].(items := items)];
    }
  }

  method AssignItemIds(before: seq<MenuItem>, w: nat) returns (items: seq<MenuItem>)
    ensures |items| == |before|
    ensures forall t :: 0 <= t < |before| ==> items[t] == before[t].(menuId := WorkspaceThreadId(w, t))
  {
    items := before;
    for t := 0 to |before|
      invariant |items| == |before|
      invariant forall k :: 0 <= k < t ==> items[k] == before[k].(menuId := WorkspaceThreadId(w, k))
      invariant forall k :: t <= k < |before| ==> items[k] == before[k]
    {
      items := items[t := items[t].(menuId := WorkspaceThreadId(w, t))];
    }
  }

  lemma SectionLeqIsPreorder()
    ensures TotalPreorder(SectionLeq)
  {
    forall a, b ensures SectionLeq(a, b) || SectionLeq(b, a) {
      StringLeqIsTotal(a.workspaceLabel, b.workspaceLabel);
    }
    forall a, b, c | SectionLeq(a, b) && SectionLeq(b, c) ensures SectionLeq(a, c) {
      if a.newestUpdatedAt == b.newestUpdatedAt == c.newestUpdatedAt {
        StringLeqIsTransitive(a.workspaceLabel, b.workspaceLabel, c.workspaceLabel);
      }
    }
  }

  /** Sorting the sections is sorting the workspaces they belong to. */
  lemma SortedOrder(order: seq<string>, make: string -> Section) returns (sorted: seq<string>)
    ensures multiset(sorted) == multiset(order)
    ensures Map(sorted, make) == Sort(Map(order, make), SectionLeq)
  {
    var leq := (a: string, b: string) => SectionLeq(make(a), make(b));
    sorted := Sort(order, leq);
    SortKeepsElements(order, leq);
    SortCommutesWithMap(order, make, leq, SectionLeq);
  }

  lemma NumberingGivesIds(ordered: seq<Entry>, w: nat)
    ensures Numbered(SectionOf(ordered, NoIds()), w) == SectionOf(ordered, IdsAt(w))
  {
    assert Numbered(SectionOf(ordered, NoIds()), w).items == Items(ordered, IdsAt(w));
  }

  lemma MadeSectionIs(byId: map<string, seq<Entry>>, entries: seq<Entry>, w: string)
    requires Grouped(byId, entries)
    ensures MakeSection(byId)(w) == SectionOf(Ordered(entries, w), NoIds())
  {
  }

  lemma NumberingKeepsOrder(before: seq<Section>, after: seq<Section>)
    requires |after| == |before| && forall w :: 0 <= w < |before| ==> after[w] == Numbered(before[w], w)
    requires SortedBy(before, SectionLeq)
    ensures SortedBy(after, SectionLeq)
  {
    forall i, j | 0 <= i < j < |after| ensures SectionLeq(after[i], after[j]) {
      assert SectionLeq(before[i], before[j]);
    }
  }

  lemma NumberedSection(byId: map<string, seq<Entry>>, entries: seq<Entry>, w: string, j: nat)
    requires Grouped(byId, entries)
    ensures Numbered(MakeSection(byId)(w), j) == SectionOf(Ordered(entries, w), IdsAt(j))
  {
    MadeSectionIs(byId, entries, w);
    NumberingGivesIds(Ordered(entries, w), j);
  }

  method BuildThreadMenuSections(entries: seq<Entry>) returns (sections: Sections)
    ensures exists order :: Shows(sections, entries, order)
  {
    var byId := GroupByWorkspace(entries);
    var workspaces;
    ghost var order;
    workspaces, order := CollectSections(MakeSection(byId), byId.Keys);
    order := SortedOrder(order, MakeSection(byId));
    SectionLeqIsPreorder();
    SortSorts(workspaces, SectionLeq);
    workspaces := Sort(workspaces, SectionLeq);
    var numbered := AssignIds(workspaces);
    NumberingKeepsOrder(workspaces, numbered);
    forall j | 0 <= j < |order| ensures numbered[j] == SectionOf(Ordered(entries, order[j]), IdsAt(j)) {
      NumberedSection(byId, entries, order[j], j);
    }
    sections := Sections(Recent(entries), numbered);
    assert Shows(sections, entries, order);
  }

  // ---------- targets ----------

  /** Later items overwrite earlier ones under the same id. */
  function Targets(items: seq<MenuItem>): map<string, Payload> {
    if items == [] then map[]
    else Targets(items[..|items| - 1])[items[|items| - 1].menuId := items[|items| - 1].payload]
  }

  function AllItems(workspaces: seq<Section>): seq<MenuItem> {
    if workspaces == [] then []
    else AllItems(workspaces[..|workspaces| - 1]) + workspaces[|workspaces| - 1].items
  }

  method CollectThreadMenuTargets(sections: Sections) returns (targets: map<string, Payload>)
    ensures targets == Targets(sections.recent + AllItems(sections.workspaces))
  {
    var recent, workspaces := sections.recent, sections.workspaces;
    targets := AddTargets([], map[], recent);
    ItemsStep(recent, workspaces);
    for w := 0 to |workspaces|
      invariant targets == Targets(recent + AllItems(workspaces[..w]))
    {
      ghost var before := recent + AllItems(workspaces[..w]);
      targets := AddTargets(before, targets, workspaces[w].items);
    }
    assert workspaces[..|workspaces|] == workspaces;
  }

  lemma ItemsStep(recent: seq<MenuItem>, workspaces: seq<Section>)
    ensures [] + recent == recent + AllItems(workspaces[..0])
    ensures forall w :: 0 <= w < |workspaces| ==>
              recent + AllItems(workspaces[..w]) + workspaces[w].items == recent + AllItems(workspaces[..w + 1])
  {
    forall w | 0 <= w < |workspaces|
      ensures recent + AllItems(workspaces[..w]) + workspaces[w].items == recent + AllItems(workspaces[..w + 1])
    {
      assert workspaces[..w + 1][..w] == workspaces[..w];
    }
  }

  /** The inner loop: `items` inserted after what `before` has left. */
  method AddTargets(ghost before: seq<MenuItem>, targets: map<string, Payload>, items: seq<MenuItem>)
    returns (more: map<string, Payload>)
    requires targets == Targets(before)
    ensures more == Targets(before + items)
  {
    more := targets;
    assert before + items[..0] == before;
    for i := 0 to |items|
      invariant more == Targets(before + items[..i])
    {
      ghost var longer := before + items[..i + 1];
      assert longer[..|longer| - 1] == before + items[..i];
      more := more[items[i].menuId := items[i].payload];
    }
    assert items[..|items|] == items;
  }
}
