/** The schema-fixture canonicaliser of codex-rs/app-server-protocol: object entries are sorted by
    key, and an array is sorted only when every element has a sort key. */
module JsonCanonical {
  import opened Wrappers
  import opened Sorting
  import opened Json

  function Get(entries: seq<Entry>, key: string): Option<Value> {
    if entries == [] then None
    else if entries[0].key == key then Some(entries[0].value)
    else Get(entries[1..], key)
  }

  function StringAt(entries: seq<Entry>, key: string): Option<string> {
    var v := Get(entries, key);
    if v.Some? && v.value.String? then Some(v.value.s) else None
  }

  /** `schema_array_item_sort_key` */
  function SortKey(item: Value): Option<string> {
    match item
    case Null => Some("null")
    case Bool(b) => Some(if b then "b:true" else "b:false")
    case Number(n) => Some("n:" + n)
    case String(s) => Some("s:" + s)
    case Object(entries) =>
      var reference, title := StringAt(entries, "$ref"), StringAt(entries, "title");
      if reference.Some? then Some("ref:" + reference.value)
      else if title.Some? then Some("title:" + title.value)
      else None
    case Array(_) => None
  }

  predicate AllKeyed(items: seq<Value>) {
    forall i :: 0 <= i < |items| ==> SortKey(items[i]).Some?
  }

  /** Sort key first, printed form second. */
  predicate ItemLeq(a: Value, b: Value) {
    var ka, kb := SortKey(a).GetOr(""), SortKey(b).GetOr("");
    if ka == kb then StringLeq(Print(a), Print(b)) else StringLeq(ka, kb)
  }

  predicate EntryLeq(a: Entry, b: Entry) {
    StringLeq(a.key, b.key)
  }

  function Canon(v: Value): Value
    decreases v, 1
  {
    match v
    case Array(items) =>
      var children := CanonItems(items);
      Array(if AllKeyed(children) then Sort(children, ItemLeq) else children)
    case Object(entries) => Object(Sort(CanonEntries(entries), EntryLeq))
    case _ => v
  }

  function CanonItems(items: seq<Value>): (r: seq<Value>)
    ensures |r| == |items|
    decreases items, 0
  {
    if items == [] then [] else [Canon(items[0])] + CanonItems(items[1..])
  }

  function CanonEntries(entries: seq<Entry>): (r: seq<Entry>)
    ensures |r| == |entries|
    decreases entries, 0
  {
    if entries == [] then []
    else [Entry(entries[0].key, Canon(entries[0].value))] + CanonEntries(entries[1..])
  }

  // ---------- equality up to what the canonicaliser forgets ----------

  ghost predicate HasString(entries: seq<Entry>, key: string, s: string) {
    Entry(key, String(s)) in entries
  }

  /** What an array may be reordered for: a scalar, or an object with a textual `$ref` or `title`. */
  ghost predicate Sortable(item: Value) {
    match item
    case Object(entries) => exists s :: HasString(entries, "$ref", s) || HasString(entries, "title", s)
    case Array(_) => false
    case _ => true
  }

  ghost predicate AllSortable(items: seq<Value>) {
    forall i :: 0 <= i < |items| ==> Sortable(items[i])
  }

  /** Equal up to object key order and, at any depth, the order of arrays of sortable elements. */
  ghost predicate Equiv(v: Value, w: Value)
    decreases v, 1
  {
    match v
    case Array(items) =>
      w.Array? && (if AllSortable(items) then EquivInSomeOrder(items, w.items) else EquivInOrder(items, w.items))
    case Object(entries) => w.Object? && EquivEntries(entries, w.entries)
    case _ => v == w
  }

  ghost predicate EquivInOrder(a: seq<Value>, b: seq<Value>)
    decreases a, 0
  {
    |a| == |b| && (a == [] || (Equiv(a[0], b[0]) && EquivInOrder(a[1..], b[1..])))
  }

  function Without<T>(s: seq<T>, j: nat): seq<T>
    requires j < |s|
  {
    s[..j] + s[j + 1..]
  }

  ghost predicate EquivInSomeOrder(a: seq<Value>, b: seq<Value>)
    decreases a, 0
  {
    |a| == |b| && (a == [] || exists j: nat :: j < |b| && Equiv(a[0], b[j]) && EquivInSomeOrder(a[1..], Without(b, j)))
  }

  ghost predicate EquivEntries(a: seq<Entry>, b: seq<Entry>)
    decreases a, 0
  {
    |a| == |b| && (a == [] || exists j: nat :: j < |b| && a[0].key == b[j].key && Equiv(a[0].value, b[j].value)
                                               && EquivEntries(a[1..], Without(b, j)))
  }

  // ---------- elementwise facts ----------

  lemma {:induction false} CanonItemsAt(items: seq<Value>)
    ensures forall i :: 0 <= i < |items| ==> CanonItems(items)[i] == Canon(items[i])
  {
    if items != [] {
      CanonItemsAt(items[1..]);
    }
  }

  lemma {:induction false} CanonEntriesAt(entries: seq<Entry>)
    ensures forall i :: 0 <= i < |entries| ==>
              CanonEntries(entries)[i] == Entry(entries[i].key, Canon(entries[i].value))
  {
    if entries != [] {
      CanonEntriesAt(entries[1..]);
    }
  }

  lemma {:induction false} GetIsMembership(entries: seq<Entry>, key: string, v: Value)
    requires UniqueKeys(entries)
    ensures Get(entries, key) == Some(v) <==> Entry(key, v) in entries
    ensures Get(entries, key).Some? ==> Entry(key, Get(entries, key).value) in entries
  {
    if entries != [] {
      GetIsMembership(entries[1..], key, v);
      assert entries == [entries[0]] + entries[1..];
      assert forall e :: e in entries <==> e == entries[0] || e in entries[1..];
      assert forall e :: e in entries[1..] ==> e.key != entries[0].key;
    }
  }

  lemma StringAtIs(entries: seq<Entry>, key: string)
    requires UniqueKeys(entries)
    ensures forall s :: StringAt(entries, key) == Some(s) <==> HasString(entries, key, s)
  {
    forall s ensures StringAt(entries, key) == Some(s) <==> HasString(entries, key, s) {
      GetIsMembership(entries, key, String(s));
    }
  }

  /** There is a sort key exactly for the sortable values. */
  lemma KeyedIffSortable(v: Value)
    requires WellFormed(v)
    ensures SortKey(v).Some? <==> Sortable(v)
  {
    if v.Object? {
      StringAtIs(v.entries, "$ref");
      StringAtIs(v.entries, "title");
      var reference, title := StringAt(v.entries, "$ref"), StringAt(v.entries, "title");
      if reference.Some? {
        assert HasString(v.entries, "$ref", reference.value);
      } else if title.Some? {
        assert HasString(v.entries, "title", title.value);
      }
    }
  }

  lemma AllKeyedIffSortable(items: seq<Value>)
    requires forall i :: 0 <= i < |items| ==> WellFormed(items[i])
    ensures AllKeyed(items) <==> AllSortable(items)
  {
    forall i | 0 <= i < |items| ensures SortKey(items[i]).Some? <==> Sortable(items[i]) {
      KeyedIffSortable(items[i]);
    }
  }

  lemma SortKeepsKeysUnique(entries: seq<Entry>)
    requires UniqueKeys(entries)
    ensures UniqueKeys(Sort(entries, EntryLeq))
    ensures forall e :: e in Sort(entries, EntryLeq) <==> e in entries
  {
    var sorted := Sort(entries, EntryLeq);
    SortKeepsElements(entries, EntryLeq);
    SameElements(sorted, entries);
    forall i, j | 0 <= i < j < |sorted| ensures sorted[i].key != sorted[j].key {
      if sorted[i].key == sorted[j].key {
        assert sorted[i] in entries && sorted[j] in entries;
        DuplicateCounts(sorted, i, j);
        UniqueCounts(entries, sorted[i]);
        assert false;
      }
    }
  }

  lemma DuplicateCounts<T>(s: seq<T>, i: nat, j: nat)
    requires i < j < |s| && s[i] == s[j]
    ensures multiset(s)[s[i]] >= 2
  {
    assert s == s[..i] + [s[i]] + s[i + 1..j] + [s[j]] + s[j + 1..];
  }

  lemma {:induction false} UniqueCounts(entries: seq<Entry>, e: Entry)
    requires UniqueKeys(entries)
    ensures multiset(entries)[e] <= 1
  {
    if entries != [] {
      assert entries == [entries[0]] + entries[1..];
      UniqueCounts(entries[1..], e);
      if e == entries[0] {
        assert e !in entries[1..];
      }
    }
  }

  // ---------- the two orders ----------

  lemma EntryOrderIsTotal()
    ensures TotalPreorder(EntryLeq)
  {
    forall x: Entry, y: Entry ensures EntryLeq(x, y) || EntryLeq(y, x) {
      StringLeqIsTotal(x.key, y.key);
    }
    forall x: Entry, y: Entry, z: Entry | EntryLeq(x, y) && EntryLeq(y, z) ensures EntryLeq(x, z) {
      StringLeqIsTransitive(x.key, y.key, z.key);
    }
  }

  lemma ItemLeqIsTransitive(x: Value, y: Value, z: Value)
    requires ItemLeq(x, y) && ItemLeq(y, z)
    ensures ItemLeq(x, z)
  {
    var kx, ky, kz := SortKey(x).GetOr(""), SortKey(y).GetOr(""), SortKey(z).GetOr("");
    if kx == ky == kz {
      StringLeqIsTransitive(Print(x), Print(y), Print(z));
    } else if kx != ky && ky != kz {
      StringLeqIsTransitive(kx, ky, kz);
      StringLeqIsTotal(kx, ky);
    }
  }

  lemma ItemOrderIsTotal()
    ensures TotalPreorder(ItemLeq)
  {
    forall x: Value, y: Value ensures ItemLeq(x, y) || ItemLeq(y, x) {
      StringLeqIsTotal(SortKey(x).GetOr(""), SortKey(y).GetOr(""));
      StringLeqIsTotal(Print(x), Print(y));
    }
    forall x: Value, y: Value, z: Value | ItemLeq(x, y) && ItemLeq(y, z) ensures ItemLeq(x, z) {
      ItemLeqIsTransitive(x, y, z);
    }
  }

  /** Two items that sort equal are the same value, because the printer is injective. */
  lemma ItemTiesAreEqual(x: Value, y: Value)
    requires WellFormed(x) && WellFormed(y) && ItemLeq(x, y) && ItemLeq(y, x)
    ensures x == y
  {
    StringLeqIsTotal(SortKey(x).GetOr(""), SortKey(y).GetOr(""));
    StringLeqIsTotal(Print(x), Print(y));
    PrintIsInjective(x, y);
  }

  /** Sorting two lists of well-formed items gives the same list exactly when they hold the same items. */
  lemma SortedItemsAgreeIff(a: seq<Value>, b: seq<Value>)
    requires forall i :: 0 <= i < |a| ==> WellFormed(a[i])
    ensures Sort(a, ItemLeq) == Sort(b, ItemLeq) <==> multiset(a) == multiset(b)
  {
    var sa, sb := Sort(a, ItemLeq), Sort(b, ItemLeq);
    SortKeepsElements(a, ItemLeq);
    SortKeepsElements(b, ItemLeq);
    if multiset(a) == multiset(b) {
      ItemOrderIsTotal();
      SortSorts(a, ItemLeq);
      SortSorts(b, ItemLeq);
      SameElements(sa, a);
      forall x, y | x in sa && y in sa && ItemLeq(x, y) && ItemLeq(y, x) ensures x == y {
        assert x in a && y in a;
        ItemTiesAreEqual(x, y);
      }
      SortedIsUnique(sa, sb, ItemLeq);
    }
  }

  lemma SortedEntriesAgreeIff(a: seq<Entry>, b: seq<Entry>)
    requires UniqueKeys(a)
    ensures Sort(a, EntryLeq) == Sort(b, EntryLeq) <==> multiset(a) == multiset(b)
  {
    var sa, sb := Sort(a, EntryLeq), Sort(b, EntryLeq);
    SortKeepsElements(a, EntryLeq);
    SortKeepsElements(b, EntryLeq);
    if multiset(a) == multiset(b) {
      EntryOrderIsTotal();
      SortSorts(a, EntryLeq);
      SortSorts(b, EntryLeq);
      SortKeepsKeysUnique(a);
      forall x, y | x in sa && y in sa && EntryLeq(x, y) && EntryLeq(y, x) ensures x == y {
        StringLeqIsTotal(x.key, y.key);
      }
      SortedIsUnique(sa, sb, EntryLeq);
    }
  }

  // ---------- canonical values ----------

  lemma {:induction false} CanonIsWellFormed(v: Value)
    requires WellFormed(v)
    ensures WellFormed(Canon(v))
  {
    match v
    case Array(items) =>
      var children := CanonItems(items);
      CanonItemsAt(items);
      forall i | 0 <= i < |items| ensures WellFormed(children[i]) {
        CanonIsWellFormed(items[i]);
      }
      SortKeepsElements(children, ItemLeq);
      SameElements(Sort(children, ItemLeq), children);
      forall i | 0 <= i < |children| ensures WellFormed(Sort(children, ItemLeq)[i]) {
        assert Sort(children, ItemLeq)[i] in children;
      }
    case Object(entries) =>
      var children := CanonEntries(entries);
      CanonEntriesAt(entries);
      forall i | 0 <= i < |entries| ensures WellFormed(children[i].value) {
        CanonIsWellFormed(entries[i].value);
      }
      SortKeepsKeysUnique(children);
      forall i | 0 <= i < |children| ensures WellFormed(Sort(children, EntryLeq)[i].value) {
        assert Sort(children, EntryLeq)[i] in children;
      }
    case _ =>
  }

  lemma GetAfterCanon(entries: seq<Entry>, key: string)
    requires UniqueKeys(entries)
    ensures var sorted := Sort(CanonEntries(entries), EntryLeq);
            Get(sorted, key) == if Get(entries, key).Some? then Some(Canon(Get(entries, key).value)) else None
  {
    var children := CanonEntries(entries);
    var sorted := Sort(children, EntryLeq);
    CanonEntriesAt(entries);
    SortKeepsKeysUnique(children);
    var before, after := Get(entries, key), Get(sorted, key);
    if before.Some? {
      GetIsMembership(entries, key, before.value);
      var i :| 0 <= i < |entries| && entries[i] == Entry(key, before.value);
      assert children[i] == Entry(key, Canon(before.value));
      GetIsMembership(sorted, key, Canon(before.value));
    } else if after.Some? {
      GetIsMembership(sorted, key, after.value);
      var i :| 0 <= i < |children| && children[i] == Entry(key, after.value);
      GetIsMembership(entries, key, entries[i].value);
    }
  }

  lemma CanonKeepsStringAt(entries: seq<Entry>, key: string)
    requires UniqueKeys(entries)
    ensures StringAt(Sort(CanonEntries(entries), EntryLeq), key) == StringAt(entries, key)
  {
    GetAfterCanon(entries, key);
  }

  /** Canonicalising an element never changes its sort key. */
  lemma SortKeyIsKept(v: Value)
    requires WellFormed(v)
    ensures SortKey(Canon(v)) == SortKey(v)
  {
    if v.Object? {
      CanonKeepsStringAt(v.entries, "$ref");
      CanonKeepsStringAt(v.entries, "title");
    }
  }

  lemma AllKeyedIsKept(items: seq<Value>)
    requires forall i :: 0 <= i < |items| ==> WellFormed(items[i])
    ensures AllKeyed(CanonItems(items)) <==> AllKeyed(items)
  {
    CanonItemsAt(items);
    forall i | 0 <= i < |items| ensures SortKey(CanonItems(items)[i]) == SortKey(items[i]) {
      SortKeyIsKept(items[i]);
    }
  }

  lemma AllKeyedDependsOnElements(a: seq<Value>, b: seq<Value>)
    requires multiset(a) == multiset(b)
    ensures AllKeyed(a) <==> AllKeyed(b)
  {
    SameElements(a, b);
    assert AllKeyed(a) <==> forall x :: x in a ==> SortKey(x).Some?;
    assert AllKeyed(b) <==> forall x :: x in b ==> SortKey(x).Some?;
  }

  // ---------- the theorem ----------

  lemma MultisetWithout<T>(s: seq<T>, j: nat)
    requires j < |s|
    ensures multiset(s) == multiset{s[j]} + multiset(Without(s, j))
  {
    assert s == s[..j] + [s[j]] + s[j + 1..];
  }

  lemma {:induction false} CanonItemsWithout(items: seq<Value>, j: nat)
    requires j < |items|
    ensures CanonItems(Without(items, j)) == Without(CanonItems(items), j)
  {
    if j == 0 {
      assert Without(items, 0) == items[1..] && Without(CanonItems(items), 0) == CanonItems(items[1..]);
    } else {
      CanonItemsWithout(items[1..], j - 1);
      assert Without(items, j) == [items[0]] + Without(items[1..], j - 1);
      assert Without(CanonItems(items), j) == CanonItems(items)[..1] + Without(CanonItems(items[1..]), j - 1);
    }
  }

  lemma {:induction false} CanonEntriesWithout(entries: seq<Entry>, j: nat)
    requires j < |entries|
    ensures CanonEntries(Without(entries, j)) == Without(CanonEntries(entries), j)
  {
    if j == 0 {
      assert Without(entries, 0) == entries[1..] && Without(CanonEntries(entries), 0) == CanonEntries(entries[1..]);
    } else {
      CanonEntriesWithout(entries[1..], j - 1);
      assert Without(entries, j) == [entries[0]] + Without(entries[1..], j - 1);
      assert Without(CanonEntries(entries), j)
          == CanonEntries(entries)[..1] + Without(CanonEntries(entries[1..]), j - 1);
    }
  }

  ghost predicate AllWellFormed(items: seq<Value>) {
    forall i :: 0 <= i < |items| ==> WellFormed(items[i])
  }

  ghost predicate AllValuesWellFormed(entries: seq<Entry>) {
    forall i :: 0 <= i < |entries| ==> WellFormed(entries[i].value)
  }

  /** Two values have the same canonical form exactly when they are equal up to object key order
      and the order of arrays of sortable elements, at any depth. */
  lemma {:induction false} CanonAgreesIffEquivalent(v: Value, w: Value)
    requires WellFormed(v) && WellFormed(w)
    ensures Canon(v) == Canon(w) <==> Equiv(v, w)
    decreases v, 3
  {
    match v
    case Array(items) => if w.Array? { ArraysAgreeIffEquivalent(items, w.items); }
    case Object(entries) => if w.Object? { ObjectsAgreeIffEquivalent(entries, w.entries); }
    case _ =>
  }

  lemma SortedKeyedness(items: seq<Value>)
    ensures AllKeyed(Sort(items, ItemLeq)) <==> AllKeyed(items)
  {
    SortKeepsElements(items, ItemLeq);
    AllKeyedDependsOnElements(items, Sort(items, ItemLeq));
  }

  /** The canonical items of two arrays agree only when both were sorted or neither was. */
  lemma CanonKeepsKeyedness(items: seq<Value>)
    requires AllWellFormed(items)
    ensures AllKeyed(Canon(Array(items)).items) <==> AllKeyed(items)
  {
    AllKeyedIsKept(items);
    SortedKeyedness(CanonItems(items));
  }

  lemma KeyednessAgrees(a: seq<Value>, b: seq<Value>)
    requires AllWellFormed(a) && AllWellFormed(b)
    ensures Canon(Array(a)) == Canon(Array(b)) ==> AllKeyed(a) == AllKeyed(b)
    ensures multiset(CanonItems(a)) == multiset(CanonItems(b)) ==> AllKeyed(a) == AllKeyed(b)
  {
    CanonKeepsKeyedness(a);
    CanonKeepsKeyedness(b);
    if multiset(CanonItems(a)) == multiset(CanonItems(b)) {
      AllKeyedIsKept(a);
      AllKeyedIsKept(b);
      AllKeyedDependsOnElements(CanonItems(a), CanonItems(b));
    }
  }

  lemma CanonItemsAreWellFormed(items: seq<Value>)
    requires AllWellFormed(items)
    ensures AllWellFormed(CanonItems(items))
  {
    CanonItemsAt(items);
    forall i | 0 <= i < |items| ensures WellFormed(CanonItems(items)[i]) { CanonIsWellFormed(items[i]); }
  }

  lemma {:induction false} ArraysAgreeIffEquivalent(a: seq<Value>, b: seq<Value>)
    requires AllWellFormed(a) && AllWellFormed(b)
    ensures Canon(Array(a)) == Canon(Array(b)) <==> Equiv(Array(a), Array(b))
    decreases a, 2
  {
    var ca, cb := CanonItems(a), CanonItems(b);
    KeyednessAgrees(a, b);
    AllKeyedIsKept(a);
    AllKeyedIsKept(b);
    AllKeyedIffSortable(a);
    if AllKeyed(a) {
      InSomeOrderIff(a, b);
      if AllKeyed(b) {
        CanonItemsAreWellFormed(a);
        SortedItemsAgreeIff(ca, cb);
      }
    } else {
      InOrderIff(a, b);
    }
  }

  lemma {:induction false} InOrderIff(a: seq<Value>, b: seq<Value>)
    requires AllWellFormed(a) && AllWellFormed(b)
    ensures CanonItems(a) == CanonItems(b) <==> EquivInOrder(a, b)
    decreases a, 0
  {
    if |a| == |b| && a != [] {
      CanonAgreesIffEquivalent(a[0], b[0]);
      InOrderIff(a[1..], b[1..]);
      assert CanonItems(a)[0] == Canon(a[0]) && CanonItems(b)[0] == Canon(b[0]);
      assert CanonItems(a)[1..] == CanonItems(a[1..]) && CanonItems(b)[1..] == CanonItems(b[1..]);
    }
  }

  lemma {:induction false} InSomeOrderIff(a: seq<Value>, b: seq<Value>)
    requires AllWellFormed(a) && AllWellFormed(b)
    ensures multiset(CanonItems(a)) == multiset(CanonItems(b)) <==> EquivInSomeOrder(a, b)
    decreases a, 1
  {
    var ca, cb := CanonItems(a), CanonItems(b);
    if multiset(ca) == multiset(cb) {
      SameElements(ca, cb);
    }
    if |a| == |b| && a != [] {
      forall j: nat | j < |b| ensures PickAgrees(a, b, j) {
        PickIff(a, b, j);
      }
      if multiset(ca) == multiset(cb) {
        assert ca[0] in ca;
        var j: nat :| j < |cb| && cb[j] == ca[0];
        assert PickAgrees(a, b, j);
      }
      if EquivInSomeOrder(a, b) {
        var j: nat :| j < |b| && Equiv(a[0], b[j]) && EquivInSomeOrder(a[1..], Without(b, j));
        assert PickAgrees(a, b, j);
      }
    }
  }

  /** Choosing `b[j]` as the partner of `a[0]` is right exactly when it makes the canonical
      elements the same. */
  ghost predicate PickAgrees(a: seq<Value>, b: seq<Value>, j: nat)
    requires a != [] && j < |b|
  {
    && (Equiv(a[0], b[j]) <==> CanonItems(a)[0] == CanonItems(b)[j])
    && (Equiv(a[0], b[j]) ==>
          (EquivInSomeOrder(a[1..], Without(b, j)) <==> multiset(CanonItems(a)) == multiset(CanonItems(b))))
  }

  lemma {:induction false} PickIff(a: seq<Value>, b: seq<Value>, j: nat)
    requires AllWellFormed(a) && AllWellFormed(b) && a != [] && j < |b|
    ensures PickAgrees(a, b, j)
    decreases a, 0
  {
    var ca, cb := CanonItems(a), CanonItems(b);
    assert ca == [Canon(a[0])] + CanonItems(a[1..]);
    assert cb[j] == Canon(b[j]) by { CanonItemsAt(b); }
    CanonAgreesIffEquivalent(a[0], b[j]);
    InSomeOrderIff(a[1..], Without(b, j));
    CanonItemsWithout(b, j);
    MultisetWithout(cb, j);
    assert multiset(ca) == multiset{Canon(a[0])} + multiset(CanonItems(a[1..]));
    MultisetCancels(Canon(a[0]), multiset(CanonItems(a[1..])), multiset(Without(cb, j)));
  }

  lemma MultisetCancels<T>(x: T, m: multiset<T>, n: multiset<T>)
    ensures multiset{x} + m == multiset{x} + n <==> m == n
  {
    if multiset{x} + m == multiset{x} + n {
      assert m == multiset{x} + m - multiset{x};
      assert n == multiset{x} + n - multiset{x};
    }
  }

  lemma {:induction false} ObjectsAgreeIffEquivalent(a: seq<Entry>, b: seq<Entry>)
    requires UniqueKeys(a) && UniqueKeys(b) && AllValuesWellFormed(a) && AllValuesWellFormed(b)
    ensures Canon(Object(a)) == Canon(Object(b)) <==> Equiv(Object(a), Object(b))
    decreases a, 2
  {
    EntriesIff(a, b);
    CanonEntriesAt(a);
    SortedEntriesAgreeIff(CanonEntries(a), CanonEntries(b));
  }

  lemma {:induction false} EntriesIff(a: seq<Entry>, b: seq<Entry>)
    requires AllValuesWellFormed(a) && AllValuesWellFormed(b)
    ensures multiset(CanonEntries(a)) == multiset(CanonEntries(b)) <==> EquivEntries(a, b)
    decreases a, 1
  {
    var ca, cb := CanonEntries(a), CanonEntries(b);
    if multiset(ca) == multiset(cb) {
      SameElements(ca, cb);
    }
    if |a| == |b| && a != [] {
      forall j: nat | j < |b| ensures EntryPickAgrees(a, b, j) {
        EntryPickIff(a, b, j);
      }
      if multiset(ca) == multiset(cb) {
        assert ca[0] in ca;
        var j: nat :| j < |cb| && cb[j] == ca[0];
        assert EntryPickAgrees(a, b, j);
      }
      if EquivEntries(a, b) {
        var j: nat :| j < |b| && a[0].key == b[j].key && Equiv(a[0].value, b[j].value)
                      && EquivEntries(a[1..], Without(b, j));
        assert EntryPickAgrees(a, b, j);
      }
    }
  }

  ghost predicate EntryPickAgrees(a: seq<Entry>, b: seq<Entry>, j: nat)
    requires a != [] && j < |b|
  {
    var same := a[0].key == b[j].key && Equiv(a[0].value, b[j].value);
    && (same <==> CanonEntries(a)[0] == CanonEntries(b)[j])
    && (same ==>
          (EquivEntries(a[1..], Without(b, j)) <==> multiset(CanonEntries(a)) == multiset(CanonEntries(b))))
  }

  lemma {:induction false} EntryPickIff(a: seq<Entry>, b: seq<Entry>, j: nat)
    requires AllValuesWellFormed(a) && AllValuesWellFormed(b) && a != [] && j < |b|
    ensures EntryPickAgrees(a, b, j)
    decreases a, 0
  {
    var ca, cb := CanonEntries(a), CanonEntries(b);
    var head := Entry(a[0].key, Canon(a[0].value));
    assert ca == [head] + CanonEntries(a[1..]);
    assert cb[j] == Entry(b[j].key, Canon(b[j].value)) by { CanonEntriesAt(b); }
    CanonAgreesIffEquivalent(a[0].value, b[j].value);
    EntriesIff(a[1..], Without(b, j));
    CanonEntriesWithout(b, j);
    MultisetWithout(cb, j);
    assert multiset(ca) == multiset{head} + multiset(CanonEntries(a[1..]));
    MultisetCancels(head, multiset(CanonEntries(a[1..])), multiset(Without(cb, j)));
  }

  // ---------- a canonical form is its own canonical form ----------

  ghost predicate ItemsAreCanonical(items: seq<Value>) {
    forall i :: 0 <= i < |items| ==> Canon(items[i]) == items[i]
  }

  lemma CanonicalItemsStay(children: seq<Value>)
    requires ItemsAreCanonical(children)
    ensures var result := if AllKeyed(children) then Sort(children, ItemLeq) else children;
            Canon(Array(result)) == Array(result)
  {
    var result := if AllKeyed(children) then Sort(children, ItemLeq) else children;
    SortKeepsElements(children, ItemLeq);
    SameElements(result, children);
    AllKeyedDependsOnElements(children, result);
    forall i | 0 <= i < |result| ensures Canon(result[i]) == result[i] {
      assert result[i] in children;
    }
    CanonItemsAt(result);
    assert CanonItems(result) == result;
    if AllKeyed(children) {
      ItemOrderIsTotal();
      SortSorts(children, ItemLeq);
      SortFixesSorted(result, ItemLeq);
    }
  }

  lemma CanonicalEntriesStay(children: seq<Entry>)
    requires forall i :: 0 <= i < |children| ==> Canon(children[i].value) == children[i].value
    ensures var result := Sort(children, EntryLeq); Canon(Object(result)) == Object(result)
  {
    var result := Sort(children, EntryLeq);
    SortKeepsElements(children, EntryLeq);
    SameElements(result, children);
    forall i | 0 <= i < |result| ensures Canon(result[i].value) == result[i].value {
      assert result[i] in children;
    }
    CanonEntriesAt(result);
    assert CanonEntries(result) == result;
    EntryOrderIsTotal();
    SortSorts(children, EntryLeq);
    SortFixesSorted(result, EntryLeq);
  }

  lemma {:induction false} CanonIsIdempotent(v: Value)
    requires WellFormed(v)
    ensures Canon(Canon(v)) == Canon(v)
  {
    match v
    case Array(items) =>
      var children := CanonItems(items);
      CanonItemsAt(items);
      forall i | 0 <= i < |children| ensures Canon(children[i]) == children[i] {
        CanonIsIdempotent(items[i]);
      }
      CanonicalItemsStay(children);
    case Object(entries) =>
      var children := CanonEntries(entries);
      CanonEntriesAt(entries);
      forall i | 0 <= i < |children| ensures Canon(children[i].value) == children[i].value {
        CanonIsIdempotent(entries[i].value);
      }
      CanonicalEntriesStay(children);
    case _ =>
  }

  /** The canonical form stands for the value it came from. */
  lemma CanonIsEquivalent(v: Value)
    requires WellFormed(v)
    ensures Equiv(v, Canon(v))
  {
    CanonIsWellFormed(v);
    CanonIsIdempotent(v);
    CanonAgreesIffEquivalent(v, Canon(v));
  }

  // ---------- the recursive procedure ----------

  function Keyed(item: Value): (Value, (string, string)) {
    (item, (SortKey(item).GetOr(""), Print(item)))
  }

  /** The comparison closure handed to `sort_by`, on items zipped with their keys. */
  predicate KeyedLeq(a: (Value, (string, string)), b: (Value, (string, string))) {
    if a.1.0 == b.1.0 then StringLeq(a.1.1, b.1.1) else StringLeq(a.1.0, b.1.0)
  }

  function CanonEntry(e: Entry): Entry {
    Entry(e.key, Canon(e.value))
  }

  lemma SortZipped(items: seq<Value>)
    ensures Sort(Map(items, Keyed), KeyedLeq) == Map(Sort(items, ItemLeq), Keyed)
  {
    forall a: Value, b: Value ensures ItemLeq(a, b) <==> KeyedLeq(Keyed(a), Keyed(b)) {
    }
    SortCommutesWithMap(items, Keyed, ItemLeq, KeyedLeq);
  }

  /** The source sorts the entries first and canonicalises them afterwards. */
  lemma SortBeforeCanon(entries: seq<Entry>)
    ensures Map(Sort(entries, EntryLeq), CanonEntry) == Sort(CanonEntries(entries), EntryLeq)
  {
    forall a: Entry, b: Entry ensures EntryLeq(a, b) <==> EntryLeq(CanonEntry(a), CanonEntry(b)) {
    }
    SortCommutesWithMap(entries, CanonEntry, EntryLeq, EntryLeq);
    CanonEntriesAt(entries);
    assert Map(entries, CanonEntry) == CanonEntries(entries);
  }

  method CanonicalizeJson(v: Value) returns (r: Value)
    ensures r == Canon(v)
    decreases v, 1
  {
    match v
    case Array(values) =>
      var items := CanonicalizeItems(values);
      r := SortIfKeyed(items);
    case Object(entries) =>
      var sorted := CanonicalizeEntries(entries);
      r := Object(sorted);
    case _ => r := v;
  }

  method CanonicalizeItems(values: seq<Value>) returns (items: seq<Value>)
    ensures items == CanonItems(values)
    decreases values, 0
  {
    items := [];
    CanonItemsAt(values);
    for i := 0 to |values|
      invariant items == CanonItems(values)[..i]
    {
      var child := CanonicalizeJson(values[i]);
      items := items + [child];
    }
  }

  /** The loop that collects sort keys, with its early exit, and the sort. */
  method SortIfKeyed(items: seq<Value>) returns (r: Value)
    ensures r == Array(if AllKeyed(items) then Sort(items, ItemLeq) else items)
  {
    var sortable: seq<(Value, (string, string))> := [];
    for i := 0 to |items|
      invariant |sortable| == i
      invariant forall k :: 0 <= k < i ==> SortKey(items[k]).Some? && sortable[k] == Keyed(items[k])
    {
      var key := SortKey(items[i]);
      if key.None? {
        return Array(items);
      }
      sortable := sortable + [(items[i], (key.value, Print(items[i])))];
    }
    assert sortable == Map(items, Keyed);
    SortZipped(items);
    var sorted := Sort(sortable, KeyedLeq);
    r := Array(seq(|sorted|, i requires 0 <= i < |sorted| => sorted[i].0));
    assert r.items == Sort(items, ItemLeq);
  }

  method CanonicalizeEntries(entries: seq<Entry>) returns (result: seq<Entry>)
    ensures result == Sort(CanonEntries(entries), EntryLeq)
    decreases entries, 0
  {
    var sorted := Sort(entries, EntryLeq);
    SortKeepsElements(entries, EntryLeq);
    SameElements(sorted, entries);
    result := [];
    for i := 0 to |sorted|
      invariant |result| == i && forall k :: 0 <= k < i ==> result[k] == CanonEntry(sorted[k])
    {
      assert sorted[i] in entries;
      var child := CanonicalizeJson(sorted[i].value);
      result := result + [Entry(sorted[i].key, child)];
    }
    MapIs(result, sorted, CanonEntry);
    SortBeforeCanon(entries);
  }
}
