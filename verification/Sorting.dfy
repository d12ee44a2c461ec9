/** Rust's stable `sort_by` as a function: what it returns is characterised by the lemmas, so
    the algorithm chosen here does not matter. */
module Sorting {

  ghost predicate TotalPreorder<T(!new)>(le: (T, T) -> bool) {
    && (forall x, y :: le(x, y) || le(y, x))
    && (forall x, y, z :: le(x, y) && le(y, z) ==> le(x, z))
  }

  ghost predicate SortedBy<T>(s: seq<T>, le: (T, T) -> bool) {
    forall i, j :: 0 <= i < j < |s| ==> le(s[i], s[j])
  }

  /** `x` goes in front of the first element it does not exceed, so equal elements keep their order. */
  function Insert<T>(x: T, s: seq<T>, le: (T, T) -> bool): (r: seq<T>)
    ensures |r| == |s| + 1
  {
    if s == [] then [x]
    else if le(x, s[0]) then [x] + s
    else [s[0]] + Insert(x, s[1..], le)
  }

  function Sort<T>(s: seq<T>, le: (T, T) -> bool): (r: seq<T>)
    ensures |r| == |s|
  {
    if s == [] then [] else Insert(s[0], Sort(s[1..], le), le)
  }

  lemma {:induction false} InsertKeepsElements<T>(x: T, s: seq<T>, le: (T, T) -> bool)
    ensures multiset(Insert(x, s, le)) == multiset{x} + multiset(s)
  {
    if s != [] && !le(x, s[0]) {
      InsertKeepsElements(x, s[1..], le);
      assert s == [s[0]] + s[1..];
    }
  }

  lemma {:induction false} SortKeepsElements<T>(s: seq<T>, le: (T, T) -> bool)
    ensures multiset(Sort(s, le)) == multiset(s)
  {
    if s != [] {
      SortKeepsElements(s[1..], le);
      InsertKeepsElements(s[0], Sort(s[1..], le), le);
      assert s == [s[0]] + s[1..];
    }
  }

  lemma SameElements<T>(a: seq<T>, b: seq<T>)
    requires multiset(a) == multiset(b)
    ensures |a| == |b|
    ensures forall x :: x in a <==> x in b
  {
    assert |multiset(a)| == |a| && |multiset(b)| == |b|;
    forall x ensures x in a <==> x in b {
      assert x in a <==> x in multiset(a);
      assert x in b <==> x in multiset(b);
    }
  }

  lemma {:induction false} InsertOnlyAdds<T>(x: T, s: seq<T>, le: (T, T) -> bool)
    ensures forall i :: 0 <= i <= |s| ==> Insert(x, s, le)[i] == x || Insert(x, s, le)[i] in s
  {
    if s != [] && !le(x, s[0]) {
      InsertOnlyAdds(x, s[1..], le);
    }
  }

  lemma {:induction false} InsertSorts<T(!new)>(x: T, s: seq<T>, le: (T, T) -> bool)
    requires TotalPreorder(le) && SortedBy(s, le)
    ensures SortedBy(Insert(x, s, le), le)
  {
    if s != [] && !le(x, s[0]) {
      InsertSorts(x, s[1..], le);
      InsertOnlyAdds(x, s[1..], le);
    }
  }

  lemma {:induction false} SortSorts<T(!new)>(s: seq<T>, le: (T, T) -> bool)
    requires TotalPreorder(le)
    ensures SortedBy(Sort(s, le), le)
  {
    if s != [] {
      SortSorts(s[1..], le);
      InsertSorts(s[0], Sort(s[1..], le), le);
    }
  }

  /** Sorting what is sorted changes nothing, ties included. */
  lemma {:induction false} SortFixesSorted<T>(s: seq<T>, le: (T, T) -> bool)
    requires SortedBy(s, le)
    ensures Sort(s, le) == s
  {
    if s != [] {
      SortFixesSorted(s[1..], le);
      if |s| > 1 {
        assert le(s[0], s[1]);
      }
    }
  }

  /** An order without ties on the elements leaves only one sorted arrangement. */
  lemma {:induction false} SortedIsUnique<T>(a: seq<T>, b: seq<T>, le: (T, T) -> bool)
    requires SortedBy(a, le) && SortedBy(b, le) && multiset(a) == multiset(b)
    requires forall x, y :: x in a && y in a && le(x, y) && le(y, x) ==> x == y
    ensures a == b
  {
    SameElements(a, b);
    if a != [] {
      assert a[0] in b && b[0] in a;
      assert a[0] == b[0];
      assert multiset(a) == multiset{a[0]} + multiset(a[1..]) by { assert a == [a[0]] + a[1..]; }
      assert multiset(b) == multiset{b[0]} + multiset(b[1..]) by { assert b == [b[0]] + b[1..]; }
      assert multiset(a[1..]) == multiset(a) - multiset{a[0]};
      SortedIsUnique(a[1..], b[1..], le);
    }
  }

  function Map<A, B>(s: seq<A>, f: A -> B): (r: seq<B>)
    ensures |r| == |s| && forall i :: 0 <= i < |s| ==> r[i] == f(s[i])
  {
    if s == [] then [] else [f(s[0])] + Map(s[1..], f)
  }

  lemma MapIs<A, B>(s: seq<B>, from: seq<A>, f: A -> B)
    requires |s| == |from| && forall i :: 0 <= i < |s| ==> s[i] == f(from[i])
    ensures s == Map(from, f)
  {
  }

  lemma {:induction false} InsertCommutesWithMap<A(!new), B>(x: A, s: seq<A>, f: A -> B, le: (A, A) -> bool,
                                                             le': (B, B) -> bool)
    requires forall a, b :: le(a, b) <==> le'(f(a), f(b))
    ensures Map(Insert(x, s, le), f) == Insert(f(x), Map(s, f), le')
  {
    if s != [] && !le(x, s[0]) {
      InsertCommutesWithMap(x, s[1..], f, le, le');
      assert Map(s, f)[1..] == Map(s[1..], f);
    }
  }

  /** Sorting images by an order that only looks at the originals is sorting the originals. */
  lemma {:induction false} SortCommutesWithMap<A(!new), B>(s: seq<A>, f: A -> B, le: (A, A) -> bool,
                                                           le': (B, B) -> bool)
    requires forall a, b :: le(a, b) <==> le'(f(a), f(b))
    ensures Map(Sort(s, le), f) == Sort(Map(s, f), le')
  {
    if s != [] {
      SortCommutesWithMap(s[1..], f, le, le');
      InsertCommutesWithMap(s[0], Sort(s[1..], le), f, le, le');
      assert Map(s, f)[1..] == Map(s[1..], f);
    }
  }

  // ---------- string order ----------

  /** Rust's `str` comparison: lexicographic by code point, which is the order of the UTF-8 bytes. */
  predicate StringLeq(a: string, b: string) {
    if a == "" then true
    else if b == "" then false
    else a[0] < b[0] || (a[0] == b[0] && StringLeq(a[1..], b[1..]))
  }

  lemma {:induction false} StringLeqIsTotal(a: string, b: string)
    ensures StringLeq(a, b) || StringLeq(b, a)
    ensures StringLeq(a, b) && StringLeq(b, a) ==> a == b
  {
    if a != "" && b != "" {
      StringLeqIsTotal(a[1..], b[1..]);
    }
  }

  lemma {:induction false} StringLeqIsTransitive(a: string, b: string, c: string)
    requires StringLeq(a, b) && StringLeq(b, c)
    ensures StringLeq(a, c)
  {
    if a != "" && b != "" && c != "" && a[0] == b[0] == c[0] {
      StringLeqIsTransitive(a[1..], b[1..], c[1..]);
    }
  }

  /** String order, spelled out: a prefix comes first, otherwise the first difference decides. */
  ghost predicate Before(a: string, b: string) {
    a <= b || exists i: nat :: DiffersAt(a, b, i) && a[i] < b[i]
  }

  ghost predicate DiffersAt(a: string, b: string, i: nat) {
    i < |a| && i < |b| && a[..i] == b[..i] && a[i] != b[i]
  }

  lemma DiffersInTail(a: string, b: string, i: nat)
    requires a != "" && b != "" && a[0] == b[0] && i > 0
    ensures DiffersAt(a, b, i) <==> DiffersAt(a[1..], b[1..], i - 1)
  {
    if i < |a| && i < |b| {
      assert a[..i] == [a[0]] + a[1..][..i - 1] && b[..i] == [b[0]] + b[1..][..i - 1];
      assert a[1..][..i - 1] == a[..i][1..] && b[1..][..i - 1] == b[..i][1..];
    }
  }

  lemma HeadsAgree(a: string, b: string, i: nat)
    requires a != "" && b != ""
    ensures DiffersAt(a, b, i) && i > 0 ==> a[0] == b[0]
  {
    if DiffersAt(a, b, i) && i > 0 {
      assert a[..i][0] == a[0] && b[..i][0] == b[0];
    }
  }

  lemma {:induction false} StringLeqIff(a: string, b: string)
    ensures StringLeq(a, b) <==> Before(a, b)
  {
    if a != "" && b != "" {
      if a[0] != b[0] {
        assert a[..0] == b[..0];
        assert DiffersAt(a, b, 0);
        forall i: nat ensures DiffersAt(a, b, i) && i > 0 ==> a[0] == b[0] {
          HeadsAgree(a, b, i);
        }
      } else {
        StringLeqIff(a[1..], b[1..]);
        if a[1..] <= b[1..] {
          assert a == [a[0]] + a[1..] && b == [b[0]] + b[1..];
        }
        if i: nat :| DiffersAt(a[1..], b[1..], i) && a[1..][i] < b[1..][i] {
          DiffersInTail(a, b, i + 1);
        }
        if i: nat :| DiffersAt(a, b, i) && a[i] < b[i] {
          DiffersInTail(a, b, i);
        }
      }
    }
  }
}
