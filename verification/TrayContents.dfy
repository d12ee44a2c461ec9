/** The tray menu in terms of the entries it is built from. */
module TrayContents {
  import opened Wrappers
  import Text
  import opened Sorting
  import opened Tray
  import opened TrayTheorems

  // ---------- the normalised entries ----------

  ghost predicate IsTrimmed(s: string, t: string) {
    exists i: nat, j: nat :: TrimmedAt(s, i, j) && t == s[i..j]
  }

  /** White space outside of the positions `i` to `j`, and none at the ends in between. */
  ghost predicate TrimmedAt(s: string, i: nat, j: nat) {
    && i <= j <= |s|
    && (forall k :: 0 <= k < i || j <= k < |s| ==> Text.IsWhitespace(s[k]))
    && (i < j ==> !Text.IsWhitespace(s[i]) && !Text.IsWhitespace(s[j - 1]))
  }

  lemma TrimmedIsUnique(s: string, i: nat, j: nat, i': nat, j': nat)
    requires TrimmedAt(s, i, j) && TrimmedAt(s, i', j')
    ensures s[i..j] == s[i'..j']
  {
    if i < j {
      assert i' <= i && j <= j';
    }
    if i' < j' {
      assert i <= i' && j' <= j;
    }
  }

  lemma TrimmedIff(s: string, t: string)
    ensures Text.Trim(s) == t <==> IsTrimmed(s, t)
  {
    var i, j := Text.TrimCuts(s);
    assert TrimmedAt(s, i, j);
    forall i': nat, j': nat | TrimmedAt(s, i', j') ensures s[i'..j'] == s[i..j] {
      TrimmedIsUnique(s, i, j, i', j');
    }
  }

  /** The entry with all four texts trimmed, none of them blank. */
  ghost predicate CleansInto(e: Entry, c: Entry) {
    && IsTrimmed(e.workspaceId, c.workspaceId) && IsTrimmed(e.workspaceLabel, c.workspaceLabel)
    && IsTrimmed(e.threadId, c.threadId) && IsTrimmed(e.threadLabel, c.threadLabel)
    && c.updatedAt == e.updatedAt
    && c.workspaceId != "" && c.workspaceLabel != "" && c.threadId != "" && c.threadLabel != ""
  }

  lemma CleanIff(e: Entry, c: Entry)
    ensures Clean(e) == Some(c) <==> CleansInto(e, c)
  {
    TrimmedIff(e.workspaceId, c.workspaceId);
    TrimmedIff(e.workspaceLabel, c.workspaceLabel);
    TrimmedIff(e.threadId, c.threadId);
    TrimmedIff(e.threadLabel, c.threadLabel);
  }

  predicate SameThread(a: Entry, b: Entry) {
    a.workspaceId == b.workspaceId && a.threadId == b.threadId
  }

  /** `n` is entry `k` cleaned, the first of the newest entries of its thread. */
  ghost predicate ComesFrom(n: Entry, entries: seq<Entry>, k: nat) {
    && k < |entries| && CleansInto(entries[k], n)
    && forall m, c :: 0 <= m < |entries| && CleansInto(entries[m], c) && SameThread(c, n) ==>
                        c.updatedAt <= n.updatedAt && (m < k ==> c.updatedAt < n.updatedAt)
  }

  lemma KeptComesFrom(entries: seq<Entry>, key: Key)
    requires key in Deduped(entries)
    ensures exists k: nat :: ComesFrom(Deduped(entries)[key], entries, k)
  {
    var n := Deduped(entries)[key];
    var k := DedupedIsNewest(entries, key);
    CleanIff(entries[k], n);
    forall m, c | 0 <= m < |entries| && CleansInto(entries[m], c) && SameThread(c, n)
      ensures c.updatedAt <= n.updatedAt && (m < k ==> c.updatedAt < n.updatedAt)
    {
      CleanIff(entries[m], c);
      assert CleansTo(entries, m, key, Clean);
    }
    assert ComesFrom(n, entries, k);
  }

  lemma CleanIsKept(entries: seq<Entry>, k: nat, c: Entry)
    requires k < |entries| && CleansInto(entries[k], c)
    ensures exists key :: key in Deduped(entries) && SameThread(Deduped(entries)[key], c)
  {
    CleanIff(entries[k], c);
    var key := KeyOf(c);
    assert CleansTo(entries, k, key, Clean);
    var i := DedupedIsNewest(entries, key);
    assert key in Deduped(entries) && KeyOf(Deduped(entries)[key]) == key;
  }

  lemma ListedIffKept(m: map<Key, Entry>, s: seq<Entry>, e: Entry)
    requires Lists(m, s)
    ensures e in s <==> KeyOf(e) in m && m[KeyOf(e)] == e
  {
    assert e in s <==> multiset(s)[e] > 0;
  }

  lemma ListedOnce(m: map<Key, Entry>, s: seq<Entry>, i: nat, j: nat)
    requires Lists(m, s) && i < j < |s|
    ensures !SameThread(s[i], s[j])
  {
    TwiceIsTwo(s, i, j);
    ListedIffKept(m, s, s[i]);
    ListedIffKept(m, s, s[j]);
  }

  /** Newest first, then by thread label, then by workspace label. */
  ghost predicate InMenuOrder(a: Entry, b: Entry) {
    || a.updatedAt > b.updatedAt
    || (a.updatedAt == b.updatedAt
        && (if a.threadLabel == b.threadLabel then Before(a.workspaceLabel, b.workspaceLabel)
            else Before(a.threadLabel, b.threadLabel)))
  }

  /** The normalised list shows every thread that has an entry without blank texts exactly once, by
      its newest such entry, in menu order. */
  lemma NormalizedContents(entries: seq<Entry>, normalized: seq<Entry>)
    requires Lists(Deduped(entries), normalized) && SortedBy(normalized, NormalLeq)
    ensures forall n :: n in normalized ==> exists k: nat :: ComesFrom(n, entries, k)
    ensures forall k, c :: 0 <= k < |entries| && CleansInto(entries[k], c) ==>
              exists n :: n in normalized && SameThread(n, c)
    ensures forall i, j :: 0 <= i < j < |normalized| ==>
              !SameThread(normalized[i], normalized[j]) && InMenuOrder(normalized[i], normalized[j])
  {
    var m := Deduped(entries);
    forall n | n in normalized ensures exists k: nat :: ComesFrom(n, entries, k) {
      ListedIffKept(m, normalized, n);
      KeptComesFrom(entries, KeyOf(n));
    }
    forall k, c | 0 <= k < |entries| && CleansInto(entries[k], c)
      ensures exists n :: n in normalized && SameThread(n, c)
    {
      CleanIsKept(entries, k, c);
      var key :| key in m && SameThread(m[key], c);
      ListedIffKept(m, normalized, m[key]);
    }
    forall i, j | 0 <= i < j < |normalized|
      ensures !SameThread(normalized[i], normalized[j]) && InMenuOrder(normalized[i], normalized[j])
    {
      ListedOnce(m, normalized, i, j);
      assert NormalLeq(normalized[i], normalized[j]);
      StringLeqIff(normalized[i].threadLabel, normalized[j].threadLabel);
      StringLeqIff(normalized[i].workspaceLabel, normalized[j].workspaceLabel);
    }
  }

  // ---------- the menu ----------

  /** The item shows the entry and opens its thread. */
  ghost predicate ShowsEntry(item: MenuItem, e: Entry) {
    item.name == e.threadLabel && item.payload.workspaceId == e.workspaceId && item.payload.threadId == e.threadId
  }

  /** The number a string of digits stands for. */
  function NumberOf(s: string): int {
    if s == "" then 0 else 10 * NumberOf(s[..|s| - 1]) + (s[|s| - 1] as int - 48)
  }

  ghost predicate IsNumeral(s: string, n: nat) {
    && s != "" && (forall i :: 0 <= i < |s| ==> 48 <= s[i] as int <= 57)
    && NumberOf(s) == n && (|s| > 1 ==> s[0] as int != 48)
  }

  lemma FirstDigitIsValue(s: string, n: nat)
    requires IsNumeral(s, n) && n > 0
    ensures s[0] as int != 48
  {
    if |s| == 1 {
      assert s[..0] == "" && NumberOf(s[..0]) == 0;
    }
  }

  lemma OneMoreDigit(s: string, n: nat, c: char)
    requires 48 <= c as int <= 57 && IsNumeral(s, n) && n > 0
    ensures IsNumeral(s + [c], 10 * n + (c as int - 48))
  {
    var longer := s + [c];
    assert longer[..|longer| - 1] == s && longer[|longer| - 1] == c && longer[0] == s[0];
    FirstDigitIsValue(s, n);
  }

  lemma OneDigit(c: char)
    requires 48 <= c as int <= 57
    ensures IsNumeral([c], c as int - 48)
  {
    assert [c][..0] == "" && NumberOf("") == 0;
    assert NumberOf([c]) == 10 * NumberOf([c][..0]) + (c as int - 48);
  }

  lemma {:induction false} DecimalIsNumeral(n: nat)
    ensures IsNumeral(Decimal(n), n)
  {
    var c := (n % 10 + 48) as char;
    if n >= 10 {
      DecimalIsNumeral(n / 10);
      OneMoreDigit(Decimal(n / 10), n / 10, c);
    } else {
      OneDigit(c);
      assert Decimal(n) == [c];
    }
  }

  /** The first three entries are the recent threads, numbered from zero. */
  lemma RecentContents(sections: Sections, entries: seq<Entry>, order: seq<string>)
    requires Shows(sections, entries, order)
    ensures |sections.recent| == if |entries| < 3 then |entries| else 3
    ensures forall i :: 0 <= i < |sections.recent| ==>
              ShowsEntry(sections.recent[i], entries[i])
              && exists s :: IsNumeral(s, i) && sections.recent[i].menuId == "tray_recent_" + s
  {
    forall i | 0 <= i < |sections.recent|
      ensures exists s :: IsNumeral(s, i) && sections.recent[i].menuId == "tray_recent_" + s
    {
      DecimalIsNumeral(i);
      assert IsNumeral(Decimal(i), i) && sections.recent[i].menuId == "tray_recent_" + Decimal(i);
    }
  }

  /** Within a workspace: newest first, then by thread label. */
  ghost predicate InSectionOrder(a: Entry, b: Entry) {
    a.updatedAt > b.updatedAt || (a.updatedAt == b.updatedAt && Before(a.threadLabel, b.threadLabel))
  }

  lemma {:induction false} OfIsFilter(entries: seq<Entry>, w: string)
    ensures forall e :: multiset(Of(entries, w))[e] == if e.workspaceId == w then multiset(entries)[e] else 0
  {
    if entries != [] {
      var init, last := entries[..|entries| - 1], entries[|entries| - 1];
      OfIsFilter(init, w);
      assert entries == init + [last];
    }
  }

  /** Section `j` in terms of its entries in order. */
  ghost predicate ListsInOrder(section: Section, j: nat, shown: seq<Entry>) {
    && shown != [] && section.workspaceLabel == shown[0].workspaceLabel
    && section.newestUpdatedAt == shown[0].updatedAt
    && |section.items| == |shown|
    && forall t :: 0 <= t < |shown| ==>
         ShowsEntry(section.items[t], shown[t])
         && exists r, s :: IsNumeral(r, j) && IsNumeral(s, t)
                           && section.items[t].menuId == "tray_workspace_" + (r + ("_" + s))
  }

  lemma SectionLists(ordered: seq<Entry>, j: nat)
    requires ordered != []
    ensures ListsInOrder(SectionOf(ordered, IdsAt(j)), j, ordered)
  {
    var section := SectionOf(ordered, IdsAt(j));
    forall t | 0 <= t < |ordered|
      ensures ShowsEntry(section.items[t], ordered[t])
      ensures exists r, s :: IsNumeral(r, j) && IsNumeral(s, t)
                             && section.items[t].menuId == "tray_workspace_" + (r + ("_" + s))
    {
      DecimalIsNumeral(j);
      DecimalIsNumeral(t);
      assert section.items[t].menuId == "tray_workspace_" + (Decimal(j) + ("_" + Decimal(t)));
    }
  }

  lemma OrderedIsInOrder(entries: seq<Entry>, w: string)
    ensures forall e :: multiset(Ordered(entries, w))[e] == if e.workspaceId == w then multiset(entries)[e] else 0
    ensures forall t, u :: 0 <= t < u < |Ordered(entries, w)| ==>
              InSectionOrder(Ordered(entries, w)[t], Ordered(entries, w)[u])
  {
    var shown := Ordered(entries, w);
    SortKeepsElements(Of(entries, w), EntryLeq);
    OfIsFilter(entries, w);
    EntryLeqIsPreorder();
    SortSorts(Of(entries, w), EntryLeq);
    forall t, u | 0 <= t < u < |shown| ensures InSectionOrder(shown[t], shown[u]) {
      assert EntryLeq(shown[t], shown[u]);
      StringLeqIff(shown[t].threadLabel, shown[u].threadLabel);
    }
  }

  /** A workspace section lists exactly the entries of one workspace, in section order, numbered by
      section and position; its label and its time are those of the first. */
  lemma SectionContents(sections: Sections, entries: seq<Entry>, order: seq<string>, j: nat)
    returns (shown: seq<Entry>)
    requires Shows(sections, entries, order) && j < |order|
    ensures forall e :: multiset(shown)[e] == if e.workspaceId == order[j] then multiset(entries)[e] else 0
    ensures forall t, u :: 0 <= t < u < |shown| ==> InSectionOrder(shown[t], shown[u])
    ensures ListsInOrder(sections.workspaces[j], j, shown)
  {
    shown := Ordered(entries, order[j]);
    OrderedIsInOrder(entries, order[j]);
    SectionIsNonempty(entries, order, j);
    SectionLists(shown, j);
  }

  lemma SectionIsNonempty(entries: seq<Entry>, order: seq<string>, j: nat)
    requires Enumerates(order, entries) && j < |order|
    ensures Ordered(entries, order[j]) != []
  {
    assert order[j] in multiset(order);
    assert Occurs(order[j], entries);
    var i :| 0 <= i < |entries| && entries[i].workspaceId == order[j];
    OfHolds(entries, entries[i]);
  }

  /** Sections come newest first, then by label, one for every workspace that occurs. */
  lemma SectionsContents(sections: Sections, entries: seq<Entry>, order: seq<string>)
    requires Shows(sections, entries, order)
    ensures |sections.workspaces| == |order| && Distinct(order)
    ensures forall w :: w in order <==> exists i :: 0 <= i < |entries| && entries[i].workspaceId == w
    ensures forall i, j :: 0 <= i < j < |order| ==>
              var a, b := sections.workspaces[i], sections.workspaces[j];
              || a.newestUpdatedAt > b.newestUpdatedAt
              || (a.newestUpdatedAt == b.newestUpdatedAt && Before(a.workspaceLabel, b.workspaceLabel))
  {
    OrderIsDistinct(entries, order);
    forall w ensures w in order <==> Occurs(w, entries) {
      assert w in order <==> multiset(order)[w] > 0;
    }
    forall i, j | 0 <= i < j < |order|
      ensures var a, b := sections.workspaces[i], sections.workspaces[j];
              || a.newestUpdatedAt > b.newestUpdatedAt
              || (a.newestUpdatedAt == b.newestUpdatedAt && Before(a.workspaceLabel, b.workspaceLabel))
    {
      assert SectionLeq(sections.workspaces[i], sections.workspaces[j]);
      StringLeqIff(sections.workspaces[i].workspaceLabel, sections.workspaces[j].workspaceLabel);
    }
  }
}
