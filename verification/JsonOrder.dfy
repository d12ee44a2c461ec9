/** The order in which a canonical JSON value lists the elements of an array and the entries of an
    object. */
module JsonOrder {
  import opened Wrappers
  import opened Sorting
  import opened Json
  import opened JsonCanonical

  /** The text an element is sorted by; a textual `$ref` goes before a textual `title`. */
  ghost predicate SortsBy(item: Value, key: string) {
    match item
    case Null => key == "null"
    case Bool(b) => (b && key == "b:true") || (!b && key == "b:false")
    case Number(n) => key == "n:" + n
    case String(s) => key == "s:" + s
    case Object(entries) =>
      || (exists s :: HasString(entries, "$ref", s) && key == "ref:" + s)
      || ((forall s :: !HasString(entries, "$ref", s))
          && exists s :: HasString(entries, "title", s) && key == "title:" + s)
    case Array(_) => false
  }

  lemma SortKeyIs(item: Value, key: string)
    requires WellFormed(item)
    ensures SortKey(item) == Some(key) <==> SortsBy(item, key)
  {
    if item.Object? {
      StringAtIs(item.entries, "$ref");
      StringAtIs(item.entries, "title");
      var reference, title := StringAt(item.entries, "$ref"), StringAt(item.entries, "title");
      assert reference.Some? ==> HasString(item.entries, "$ref", reference.value);
      assert title.Some? ==> HasString(item.entries, "title", title.value);
    }
  }

  /** A canonical array of sortable elements is ordered by what they sort by, and printed forms
      settle ties; any other canonical array keeps the order of its elements. */
  lemma CanonicalArrayOrder(items: seq<Value>)
    requires AllWellFormed(items)
    ensures var r := Canon(Array(items)).items;
            if AllSortable(items) then
              multiset(r) == multiset(CanonItems(items))
              && forall i, j, k, l :: 0 <= i < j < |r| && SortsBy(r[i], k) && SortsBy(r[j], l) ==>
                                        Before(k, l) && (k == l ==> Before(Print(r[i]), Print(r[j])))
            else
              |r| == |items| && forall i :: 0 <= i < |r| ==> r[i] == Canon(items[i])
  {
    var children := CanonItems(items);
    AllKeyedIsKept(items);
    AllKeyedIffSortable(items);
    CanonItemsAt(items);
    if AllSortable(items) {
      var r := Sort(children, ItemLeq);
      CanonIsWellFormed(Array(items));
      SortKeepsElements(children, ItemLeq);
      ItemOrderIsTotal();
      SortSorts(children, ItemLeq);
      forall i, j, k, l | 0 <= i < j < |r| && SortsBy(r[i], k) && SortsBy(r[j], l)
        ensures Before(k, l) && (k == l ==> Before(Print(r[i]), Print(r[j])))
      {
        assert WellFormed(r[i]) && WellFormed(r[j]);
        PairIsOrdered(r[i], r[j], k, l);
      }
    }
  }

  lemma PairIsOrdered(a: Value, b: Value, k: string, l: string)
    requires WellFormed(a) && WellFormed(b) && ItemLeq(a, b) && SortsBy(a, k) && SortsBy(b, l)
    ensures Before(k, l) && (k == l ==> Before(Print(a), Print(b)))
  {
    SortKeyIs(a, k);
    SortKeyIs(b, l);
    StringLeqIff(k, l);
    StringLeqIff(Print(a), Print(b));
  }

  lemma {:induction false} CommonHeadCancels(head: string, a: string, b: string)
    ensures StringLeq(head + a, head + b) <==> StringLeq(a, b)
  {
    if head == "" {
      assert head + a == a && head + b == b;
    } else {
      assert (head + a)[1..] == head[1..] + a && (head + b)[1..] == head[1..] + b;
      CommonHeadCancels(head[1..], a, b);
    }
  }

  lemma BeforeUnder(head: string, a: string, b: string)
    requires Before(head + a, head + b)
    ensures Before(a, b)
  {
    StringLeqIff(head + a, head + b);
    CommonHeadCancels(head, a, b);
    StringLeqIff(a, b);
  }

  ghost predicate HasReference(v: Value, s: string) {
    v.Object? && HasString(v.entries, "$ref", s)
  }

  /** A textual title that counts, because there is no textual `$ref`. */
  ghost predicate HasTitleOnly(v: Value, s: string) {
    v.Object? && HasString(v.entries, "title", s) && forall t :: !HasString(v.entries, "$ref", t)
  }

  /** References are listed in the order of their texts, and so are titles, and strings. */
  lemma LikeElementsAreSorted(items: seq<Value>, i: nat, j: nat, s: string, t: string)
    requires AllWellFormed(items) && AllSortable(items) && i < j < |items|
    ensures var r := Canon(Array(items)).items;
            && (HasReference(r[i], s) && HasReference(r[j], t) ==> Before(s, t))
            && (HasTitleOnly(r[i], s) && HasTitleOnly(r[j], t) ==> Before(s, t))
            && (r[i] == String(s) && r[j] == String(t) ==> Before(s, t))
            && !(HasTitleOnly(r[i], s) && HasReference(r[j], t))
  {
    CanonicalArrayOrder(items);
    var r := Canon(Array(items)).items;
    if HasReference(r[i], s) && HasReference(r[j], t) {
      assert SortsBy(r[i], "ref:" + s) && SortsBy(r[j], "ref:" + t);
      BeforeUnder("ref:", s, t);
    }
    if HasTitleOnly(r[i], s) && HasTitleOnly(r[j], t) {
      assert SortsBy(r[i], "title:" + s) && SortsBy(r[j], "title:" + t);
      BeforeUnder("title:", s, t);
    }
    if r[i] == String(s) && r[j] == String(t) {
      assert SortsBy(r[i], "s:" + s) && SortsBy(r[j], "s:" + t);
      BeforeUnder("s:", s, t);
    }
    TitlesFollowReferences(s, t);
    assert HasTitleOnly(r[i], s) ==> SortsBy(r[i], "title:" + s);
    assert HasReference(r[j], t) ==> SortsBy(r[j], "ref:" + t);
  }

  lemma TitlesFollowReferences(s: string, t: string)
    ensures !Before("title:" + s, "ref:" + t)
  {
    var a, b := "title:" + s, "ref:" + t;
    assert a[0] == 't' && b[0] == 'r';
    StringLeqIff(a, b);
  }

  /** The entries of a canonical object come in strictly ascending order of their keys. */
  lemma CanonicalObjectOrder(entries: seq<Entry>, i: nat, j: nat)
    requires UniqueKeys(entries) && i < j < |entries|
    ensures var r := Canon(Object(entries)).entries;
            Before(r[i].key, r[j].key) && r[i].key != r[j].key
  {
    var children := CanonEntries(entries);
    CanonEntriesAt(entries);
    SortKeepsKeysUnique(children);
    EntryOrderIsTotal();
    SortSorts(children, EntryLeq);
    var r := Sort(children, EntryLeq);
    StringLeqIff(r[i].key, r[j].key);
  }
}
