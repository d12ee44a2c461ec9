/** What the tray menu shows and what its ids open: src-tauri/src/tray.rs. */
module TrayTheorems {
  import opened Wrappers
  import Text
  import opened Sorting
  import opened Tray

  // ---------- normalising keeps the newest of every thread ----------

  type Cleaner = Entry -> Option<Entry>

  predicate CleansTo(entries: seq<Entry>, i: nat, k: Key, clean: Cleaner) {
    i < |entries| && clean(entries[i]).Some? && KeyOf(clean(entries[i]).value) == k
  }

  ghost predicate Cleans(entries: seq<Entry>, k: Key, clean: Cleaner) {
    exists i: nat :: CleansTo(entries, i, k, clean)
  }

  /** Entry `i` is the newest for its key, and the first of those. */
  ghost predicate IsNewest(entries: seq<Entry>, i: nat, k: Key, clean: Cleaner) {
    && CleansTo(entries, i, k, clean)
    && forall j: nat :: CleansTo(entries, j, k, clean) ==>
         entries[j].updatedAt <= entries[i].updatedAt && (j < i ==> entries[j].updatedAt < entries[i].updatedAt)
  }

  lemma CleansOneMore(entries: seq<Entry>, e: Entry, k: Key, clean: Cleaner)
    ensures var all := entries + [e];
            && (forall i: nat :: i < |entries| ==> CleansTo(all, i, k, clean) == CleansTo(entries, i, k, clean))
            && (Cleans(all, k, clean) <==> Cleans(entries, k, clean) || CleansTo(all, |entries|, k, clean))
  {
    var all := entries + [e];
    forall i: nat | i < |entries| ensures CleansTo(all, i, k, clean) == CleansTo(entries, i, k, clean) {
      assert all[i] == entries[i];
    }
    if Cleans(entries, k, clean) {
      var i: nat :| CleansTo(entries, i, k, clean);
      assert CleansTo(all, i, k, clean);
    }
  }

  lemma NewestStays(entries: seq<Entry>, e: Entry, i: nat, k: Key, clean: Cleaner)
    requires IsNewest(entries, i, k, clean)
    requires CleansTo(entries + [e], |entries|, k, clean) ==> e.updatedAt <= entries[i].updatedAt
    ensures IsNewest(entries + [e], i, k, clean)
  {
    CleansOneMore(entries, e, k, clean);
  }

  lemma NewestReplaced(entries: seq<Entry>, e: Entry, k: Key, clean: Cleaner)
    requires CleansTo(entries + [e], |entries|, k, clean)
    requires forall j: nat :: CleansTo(entries, j, k, clean) ==> entries[j].updatedAt < e.updatedAt
    ensures IsNewest(entries + [e], |entries|, k, clean)
  {
    CleansOneMore(entries, e, k, clean);
  }

  /** One round of the loop, for one key. */
  lemma KeptAt(m: map<Key, Entry>, e: Entry, k: Key)
    ensures var c := Clean(e);
            var mine := c.Some? && KeyOf(c.value) == k;
            && (c.Some? ==> c.value.updatedAt == e.updatedAt)
            && (k in Kept(m, e) <==> k in m || mine)
            && (k in m && !(mine && e.updatedAt > m[k].updatedAt) ==> Kept(m, e)[k] == m[k])
            && (mine && (k !in m || e.updatedAt > m[k].updatedAt) ==> Kept(m, e)[k] == c.value)
  {
  }

  /** A thread is kept exactly when one of its entries has no blank text; what is kept is the newest
      such entry, trimmed, and the first one among equally new ones. */
  lemma {:induction false} DedupedIsNewest(entries: seq<Entry>, k: Key)
    returns (i: nat)
    ensures k in Deduped(entries) <==> Cleans(entries, k, Clean)
    ensures k in Deduped(entries) ==>
              && IsNewest(entries, i, k, Clean)
              && Clean(entries[i]) == Some(Deduped(entries)[k])
              && Deduped(entries)[k].updatedAt == entries[i].updatedAt
  {
    i := 0;
    if entries != [] {
      var init, last := entries[..|entries| - 1], entries[|entries| - 1];
      var m := Deduped(init);
      assert entries == init + [last];
      i := DedupedIsNewest(init, k);
      CleansOneMore(init, last, k, Clean);
      KeptAt(m, last, k);
      if k in m && !(CleansTo(entries, |init|, k, Clean) && last.updatedAt > m[k].updatedAt) {
        NewestStays(init, last, i, k, Clean);
      } else if CleansTo(entries, |init|, k, Clean) {
        NewestReplaced(init, last, k, Clean);
        i := |init|;
      }
    }
  }

  // ---------- every entry is shown once ----------

  /** What a menu item shows and opens, apart from its id. */
  datatype Face = Face(name: string, payload: Payload)

  function EntryFace(e: Entry): Face {
    Face(e.threadLabel, Payload(e.workspaceId, e.threadId))
  }

  function ItemFace(i: MenuItem): Face {
    Face(i.name, i.payload)
  }

  /** The entries behind the workspace sections, section by section. */
  function AllOrdered(entries: seq<Entry>, order: seq<string>): seq<Entry> {
    if order == [] then [] else AllOrdered(entries, order[..|order| - 1]) + Ordered(entries, order[|order| - 1])
  }

  function OfAny(entries: seq<Entry>, ws: set<string>): seq<Entry> {
    if entries == [] then []
    else
      var last := entries[|entries| - 1];
      OfAny(entries[..|entries| - 1], ws) + if last.workspaceId in ws then [last] else []
  }

  lemma OfOneMoreStep(init: seq<Entry>, mine: seq<Entry>, both: seq<Entry>, last: Entry, ws: set<string>, w: string)
    requires w !in ws && multiset(both) == multiset(init) + multiset(mine)
    ensures multiset(both + if last.workspaceId in ws + {w} then [last] else [])
            == multiset(init + if last.workspaceId in ws then [last] else [])
               + multiset(mine + if last.workspaceId == w then [last] else [])
  {
  }

  lemma {:induction false} OfOneMore(entries: seq<Entry>, ws: set<string>, w: string)
    requires w !in ws
    ensures multiset(OfAny(entries, ws + {w})) == multiset(OfAny(entries, ws)) + multiset(Of(entries, w))
  {
    if entries != [] {
      var init := entries[..|entries| - 1];
      OfOneMore(init, ws, w);
      OfOneMoreStep(OfAny(init, ws), Of(init, w), OfAny(init, ws + {w}), entries[|entries| - 1], ws, w);
    }
  }

  lemma {:induction false} OfAll(entries: seq<Entry>, ws: set<string>)
    requires forall i :: 0 <= i < |entries| ==> entries[i].workspaceId in ws
    ensures OfAny(entries, ws) == entries
  {
    if entries != [] {
      OfAll(entries[..|entries| - 1], ws);
    }
  }

  function NamesOf(order: seq<string>): (ws: set<string>)
    ensures forall w :: w in ws <==> w in order
  {
    if order == [] then {}
    else
      assert order == order[..|order| - 1] + [order[|order| - 1]];
      NamesOf(order[..|order| - 1]) + {order[|order| - 1]}
  }

  lemma {:induction false} OrderedTogether(entries: seq<Entry>, order: seq<string>)
    requires Distinct(order)
    ensures multiset(AllOrdered(entries, order)) == multiset(OfAny(entries, NamesOf(order)))
  {
    if order == [] {
      NobodyIsIn(entries);
    } else {
      var init, w := order[..|order| - 1], order[|order| - 1];
      OrderedTogether(entries, init);
      OfOneMore(entries, NamesOf(init), w);
      SortKeepsElements(Of(entries, w), EntryLeq);
    }
  }

  lemma {:induction false} NobodyIsIn(entries: seq<Entry>)
    ensures OfAny(entries, {}) == []
  {
    if entries != [] {
      NobodyIsIn(entries[..|entries| - 1]);
    }
  }

  lemma {:induction false} MapConcat<A, B>(a: seq<A>, b: seq<A>, f: A -> B)
    ensures Map(a + b, f) == Map(a, f) + Map(b, f)
  {
    if a == [] {
      assert a + b == b;
    } else {
      assert (a + b)[1..] == a[1..] + b;
      MapConcat(a[1..], b, f);
    }
  }

  lemma ItemFaces(ordered: seq<Entry>, id: nat -> string)
    ensures Map(Items(ordered, id), ItemFace) == Map(ordered, EntryFace)
  {
    MapIs(Map(Items(ordered, id), ItemFace), ordered, EntryFace);
  }

  lemma {:induction false} AllFaces(workspaces: seq<Section>, entries: seq<Entry>, order: seq<string>)
    requires |workspaces| == |order|
    requires forall j :: 0 <= j < |order| ==> workspaces[j] == SectionOf(Ordered(entries, order[j]), IdsAt(j))
    ensures Map(AllItems(workspaces), ItemFace) == Map(AllOrdered(entries, order), EntryFace)
  {
    if order != [] {
      var n: nat := |order| - 1;
      AllFaces(workspaces[..n], entries, order[..n]);
      ItemFaces(Ordered(entries, order[n]), IdsAt(n));
      MapConcat(AllItems(workspaces[..n]), workspaces[n].items, ItemFace);
      MapConcat(AllOrdered(entries, order[..n]), Ordered(entries, order[n]), EntryFace);
    }
  }

  lemma OrderIsDistinct(entries: seq<Entry>, order: seq<string>)
    requires Enumerates(order, entries)
    ensures Distinct(order)
    ensures forall e :: e in entries ==> e.workspaceId in order
  {
    forall i, j | 0 <= i < j < |order| ensures order[i] != order[j] {
      TwiceIsTwo(order, i, j);
    }
    forall e | e in entries ensures e.workspaceId in order {
      assert Occurs(e.workspaceId, entries);
      assert multiset(order)[e.workspaceId] == 1;
      assert e.workspaceId in multiset(order);
    }
  }

  lemma TwiceIsTwo<T>(s: seq<T>, i: nat, j: nat)
    requires i < j < |s|
    ensures s[i] == s[j] ==> multiset(s)[s[i]] >= 2
  {
    assert s == s[..j] + [s[j]] + s[j + 1..];
    assert s[..j] == s[..i] + [s[i]] + s[i + 1..j];
  }

  /** The workspace sections show an arrangement of the entries, each entry exactly once and under
      its own workspace. */
  lemma EveryEntryIsShownOnce(sections: Sections, entries: seq<Entry>, order: seq<string>) returns (shown: seq<Entry>)
    requires Shows(sections, entries, order)
    ensures multiset(shown) == multiset(entries)
    ensures Map(AllItems(sections.workspaces), ItemFace) == Map(shown, EntryFace)
    ensures forall j, t :: 0 <= j < |order| && 0 <= t < |sections.workspaces[j].items| ==>
                           sections.workspaces[j].items[t].payload.workspaceId == order[j]
  {
    OrderIsDistinct(entries, order);
    OrderedTogether(entries, order);
    OfAll(entries, NamesOf(order));
    AllFaces(sections.workspaces, entries, order);
    shown := AllOrdered(entries, order);
    forall j, t | 0 <= j < |order| && 0 <= t < |sections.workspaces[j].items|
      ensures sections.workspaces[j].items[t].payload.workspaceId == order[j]
    {
      var ordered := Ordered(entries, order[j]);
      SortKeepsElements(Of(entries, order[j]), EntryLeq);
      SameElements(ordered, Of(entries, order[j]));
      assert ordered[t] in ordered;
    }
  }

  // ---------- newest first ----------

  lemma EntryLeqIsPreorder()
    ensures TotalPreorder(EntryLeq)
  {
    forall a, b ensures EntryLeq(a, b) || EntryLeq(b, a) {
      StringLeqIsTotal(a.threadLabel, b.threadLabel);
    }
    forall a, b, c | EntryLeq(a, b) && EntryLeq(b, c) ensures EntryLeq(a, c) {
      if a.updatedAt == b.updatedAt == c.updatedAt {
        StringLeqIsTransitive(a.threadLabel, b.threadLabel, c.threadLabel);
      }
    }
  }

  lemma NormalIsOrdered(a: Entry, b: Entry)
    requires NormalLeq(a, b)
    ensures EntryLeq(a, b)
  {
    StringLeqIsTotal(a.threadLabel, b.threadLabel);
  }

  lemma {:induction false} OfIsSorted(entries: seq<Entry>, w: string)
    requires SortedBy(entries, NormalLeq)
    ensures SortedBy(Of(entries, w), EntryLeq)
  {
    if entries != [] {
      var init, last := entries[..|entries| - 1], entries[|entries| - 1];
      OfIsSorted(init, w);
      forall e | e in Of(init, w) ensures EntryLeq(e, last) {
        assert e in init;
        var i :| 0 <= i < |init| && init[i] == e;
        assert NormalLeq(entries[i], entries[|entries| - 1]);
        NormalIsOrdered(e, last);
      }
    }
  }

  /** On normalised entries the second sort changes nothing, ties included. */
  lemma ResortChangesNothing(entries: seq<Entry>, w: string)
    requires SortedBy(entries, NormalLeq)
    ensures Ordered(entries, w) == Of(entries, w)
  {
    OfIsSorted(entries, w);
    SortFixesSorted(Of(entries, w), EntryLeq);
  }

  /** Sections run from the most to the least recently updated workspace, and within a section the
      threads run from newest to oldest. */
  lemma NewestFirst(sections: Sections, entries: seq<Entry>, order: seq<string>, j: nat)
    requires Shows(sections, entries, order) && j < |order|
    ensures SortedBy(Ordered(entries, order[j]), EntryLeq)
    ensures forall e :: e in entries && e.workspaceId == order[j] ==>
                        e.updatedAt <= sections.workspaces[j].newestUpdatedAt
    ensures forall i :: 0 <= i < j ==>
                        sections.workspaces[i].newestUpdatedAt >= sections.workspaces[j].newestUpdatedAt
  {
    var w := order[j];
    var ordered := Ordered(entries, w);
    EntryLeqIsPreorder();
    SortSorts(Of(entries, w), EntryLeq);
    SortKeepsElements(Of(entries, w), EntryLeq);
    SameElements(ordered, Of(entries, w));
    forall e | e in entries && e.workspaceId == w ensures e.updatedAt <= sections.workspaces[j].newestUpdatedAt {
      OfHolds(entries, e);
      assert e in ordered;
      var i :| 0 <= i < |ordered| && ordered[i] == e;
      assert i > 0 ==> EntryLeq(ordered[0], ordered[i]);
    }
    assert forall i :: 0 <= i < j ==> SectionLeq(sections.workspaces[i], sections.workspaces[j]);
  }

  lemma {:induction false} OfHolds(entries: seq<Entry>, e: Entry)
    requires e in entries
    ensures e in Of(entries, e.workspaceId)
  {
    var last := entries[|entries| - 1];
    if e != last {
      assert entries == entries[..|entries| - 1] + [last];
      OfHolds(entries[..|entries| - 1], e);
    }
  }

  // ---------- ids ----------

  predicate IsDigit(c: char) {
    '0' <= c <= '9'
  }

  lemma {:induction false} DecimalHasDigits(n: nat)
    ensures forall i :: 0 <= i < |Decimal(n)| ==> IsDigit(Decimal(n)[i])
  {
    if n >= 10 {
      DecimalHasDigits(n / 10);
    }
  }

  lemma {:induction false} DecimalIsInjective(a: nat, b: nat)
    requires Decimal(a) == Decimal(b)
    ensures a == b
  {
    var s, t := Decimal(a), Decimal(b);
    assert s[|s| - 1] == (a % 10 + 48) as char && t[|t| - 1] == (b % 10 + 48) as char;
    assert s[..|s| - 1] == (if a < 10 then "" else Decimal(a / 10));
    assert t[..|t| - 1] == (if b < 10 then "" else Decimal(b / 10));
    if a >= 10 && b >= 10 {
      DecimalIsInjective(a / 10, b / 10);
    }
  }

  lemma SeparatorIsFirst(a: string, b: string, c: char)
    requires c !in a
    ensures Text.IndexOf(a + ([c] + b), c) == |a|
  {
    var s := a + ([c] + b);
    assert forall k :: 0 <= k < |a| ==> s[k] == a[k] && a[k] in a;
    assert s[|a|] == c;
    Text.IndexIsFirst(s, c, |a|);
  }

  /** Two parts around a separator that does not occur in the first part are recovered. */
  lemma SplitAtSeparator(a: string, b: string, a': string, b': string, c: char)
    requires c !in a && c !in a' && a + ([c] + b) == a' + ([c] + b')
    ensures a == a' && b == b'
  {
    var s, s' := a + ([c] + b), a' + ([c] + b');
    SeparatorIsFirst(a, b, c);
    SeparatorIsFirst(a', b', c);
    assert a == s[..|a|] && a' == s'[..|a'|];
    assert b == s[|a| + 1..] && b' == s'[|a'| + 1..];
  }

  lemma SamePrefix(p: string, a: string, b: string)
    requires p + a == p + b
    ensures a == b
  {
    assert a == (p + a)[|p|..] && b == (p + b)[|p|..];
  }

  lemma WorkspaceIdsDiffer(w: nat, t: nat, w': nat, t': nat)
    requires WorkspaceThreadId(w, t) == WorkspaceThreadId(w', t')
    ensures w == w' && t == t'
  {
    DecimalHasDigits(w);
    DecimalHasDigits(w');
    SamePrefix("tray_workspace_", Decimal(w) + ("_" + Decimal(t)), Decimal(w') + ("_" + Decimal(t')));
    SplitAtSeparator(Decimal(w), Decimal(t), Decimal(w'), Decimal(t'), '_');
    DecimalIsInjective(w, w');
    DecimalIsInjective(t, t');
  }

  lemma RecentIdsDiffer(i: nat, i': nat)
    requires RecentId(i) == RecentId(i')
    ensures i == i'
  {
    SamePrefix("tray_recent_", Decimal(i), Decimal(i'));
    DecimalIsInjective(i, i');
  }

  lemma SectionsDiffer(i: nat, w: nat, t: nat)
    ensures RecentId(i) != WorkspaceThreadId(w, t)
  {
    assert RecentId(i)[5] == 'r' && WorkspaceThreadId(w, t)[5] == 'w';
  }

  ghost predicate DistinctIds(items: seq<MenuItem>) {
    forall p, q :: 0 <= p < q < |items| ==> items[p].menuId != items[q].menuId
  }

  type Ids = (nat, nat) -> string

  ghost predicate Injective(id: Ids) {
    forall w: nat, t: nat, w': nat, t': nat :: id(w, t) == id(w', t') ==> w == w' && t == t'
  }

  /** The id belongs to a thread of one of the first sections. */
  ghost predicate IdFrom(name: string, sections: nat, id: Ids) {
    exists w: nat, t: nat :: w < sections && name == id(w, t)
  }

  ghost predicate HasIds(workspaces: seq<Section>, id: Ids) {
    forall w: nat, t: nat :: w < |workspaces| && t < |workspaces[w].items| ==>
                             workspaces[w].items[t].menuId == id(w, t)
  }

  lemma OneMoreSection(init: seq<MenuItem>, items: seq<MenuItem>, n: nat, id: Ids)
    requires Injective(id) && DistinctIds(init)
    requires forall p :: 0 <= p < |init| ==> IdFrom(init[p].menuId, n, id)
    requires forall t: nat :: t < |items| ==> items[t].menuId == id(n, t)
    ensures DistinctIds(init + items)
    ensures forall p :: 0 <= p < |init + items| ==> IdFrom((init + items)[p].menuId, n + 1, id)
  {
    var all := init + items;
    forall p | 0 <= p < |all| ensures IdFrom(all[p].menuId, n + 1, id) {
      if p < |init| {
        var w: nat, t: nat :| w < n && init[p].menuId == id(w, t);
      } else {
        assert all[p].menuId == id(n, p - |init|);
      }
    }
    forall p, q | 0 <= p < q < |all| ensures all[p].menuId != all[q].menuId {
      if q >= |init| {
        assert all[q].menuId == id(n, q - |init|);
        if p < |init| {
          assert IdFrom(init[p].menuId, n, id);
          var w: nat, t: nat :| w < n && init[p].menuId == id(w, t);
          assert all[p] == init[p];
        } else {
          assert all[p].menuId == id(n, p - |init|);
        }
      }
    }
  }

  lemma {:induction false} WorkspaceIdsAreDistinct(workspaces: seq<Section>, id: Ids)
    requires Injective(id) && HasIds(workspaces, id)
    ensures DistinctIds(AllItems(workspaces))
    ensures forall p :: 0 <= p < |AllItems(workspaces)| ==> IdFrom(AllItems(workspaces)[p].menuId, |workspaces|, id)
  {
    if workspaces != [] {
      var n: nat := |workspaces| - 1;
      WorkspaceIdsAreDistinct(workspaces[..n], id);
      OneMoreSection(AllItems(workspaces[..n]), workspaces[n].items, n, id);
    }
  }

  lemma WorkspaceIdsAreInjective()
    ensures Injective(WorkspaceThreadId)
  {
    forall w: nat, t: nat, w': nat, t': nat | WorkspaceThreadId(w, t) == WorkspaceThreadId(w', t')
      ensures w == w' && t == t'
    {
      WorkspaceIdsDiffer(w, t, w', t');
    }
  }

  lemma RecentIdsAreDistinct(entries: seq<Entry>)
    ensures DistinctIds(Recent(entries))
  {
    forall p, q | 0 <= p < q < |Recent(entries)| ensures Recent(entries)[p].menuId != Recent(entries)[q].menuId {
      if RecentId(p) == RecentId(q) {
        RecentIdsDiffer(p, q);
      }
    }
  }

  lemma RecentIsElsewhere(entries: seq<Entry>, p: nat, name: string, sections: nat)
    requires p < |Recent(entries)| && IdFrom(name, sections, WorkspaceThreadId)
    ensures Recent(entries)[p].menuId != name
  {
    var w: nat, t: nat :| w < sections && name == WorkspaceThreadId(w, t);
    SectionsDiffer(p, w, t);
  }

  lemma ConcatIsDistinct(a: seq<MenuItem>, b: seq<MenuItem>)
    requires DistinctIds(a) && DistinctIds(b)
    requires forall p, q :: 0 <= p < |a| && 0 <= q < |b| ==> a[p].menuId != b[q].menuId
    ensures DistinctIds(a + b)
  {
  }

  /** No two items of the menu share an id, across all sections. */
  lemma MenuIdsAreDistinct(sections: Sections, entries: seq<Entry>, order: seq<string>)
    requires Shows(sections, entries, order)
    ensures DistinctIds(sections.recent + AllItems(sections.workspaces))
  {
    var recent, shown := sections.recent, AllItems(sections.workspaces);
    WorkspaceIdsAreInjective();
    WorkspaceIdsAreDistinct(sections.workspaces, WorkspaceThreadId);
    RecentIdsAreDistinct(entries);
    forall p, q | 0 <= p < |recent| && 0 <= q < |shown| ensures recent[p].menuId != shown[q].menuId {
      RecentIsElsewhere(entries, p, shown[q].menuId, |sections.workspaces|);
    }
    ConcatIsDistinct(recent, shown);
  }

  /** Every item's id leads to its payload, and no id leads anywhere else. */
  ghost predicate LeadsTo(targets: map<string, Payload>, items: seq<MenuItem>) {
    && (forall p :: 0 <= p < |items| ==> items[p].menuId in targets && targets[items[p].menuId] == items[p].payload)
    && forall id :: id in targets ==> exists p :: 0 <= p < |items| && items[p].menuId == id
  }

  lemma OneMoreTarget(targets: map<string, Payload>, items: seq<MenuItem>, item: MenuItem)
    requires LeadsTo(targets, items) && DistinctIds(items + [item])
    ensures LeadsTo(targets[item.menuId := item.payload], items + [item])
  {
    var all, more := items + [item], targets[item.menuId := item.payload];
    assert all[|items|] == item;
    forall p | 0 <= p < |all| ensures all[p].menuId in more && more[all[p].menuId] == all[p].payload {
      if p < |items| {
        assert all[p].menuId != all[|items|].menuId;
      }
    }
    forall id | id in more ensures exists p :: 0 <= p < |all| && all[p].menuId == id {
      if id in targets {
        var p :| 0 <= p < |items| && items[p].menuId == id;
        assert all[p].menuId == id;
      }
    }
  }

  lemma {:induction false} TargetsOfDistinct(items: seq<MenuItem>)
    requires DistinctIds(items)
    ensures LeadsTo(Targets(items), items)
  {
    if items != [] {
      var init, last := items[..|items| - 1], items[|items| - 1];
      assert items == init + [last];
      TargetsOfDistinct(init);
      OneMoreTarget(Targets(init), init, last);
    }
  }

  /** Choosing any item opens exactly the thread that item shows, and no other id opens anything. */
  lemma TargetsAgreeWithMenu(sections: Sections, entries: seq<Entry>, order: seq<string>)
    requires Shows(sections, entries, order)
    ensures var items := sections.recent + AllItems(sections.workspaces); LeadsTo(Targets(items), items)
  {
    MenuIdsAreDistinct(sections, entries, order);
    TargetsOfDistinct(sections.recent + AllItems(sections.workspaces));
  }
}
