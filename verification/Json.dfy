/** JSON values and their compact printed form, `serde_json::to_string`. */
module Json {
  import opened Text

  /** A number is kept as its printed form; object entries keep their order. */
  datatype Value =
    | Null
    | Bool(b: bool)
    | Number(repr: string)
    | String(s: string)
    | Array(items: seq<Value>)
    | Object(entries: seq<Entry>)

  datatype Entry = Entry(key: string, value: Value)

  predicate IsNumberChar(c: char) {
    '0' <= c <= '9' || c == '-' || c == '+' || c == '.' || c == 'e' || c == 'E'
  }

  predicate IsNumber(repr: string) {
    repr != "" && forall i :: 0 <= i < |repr| ==> IsNumberChar(repr[i])
  }

  ghost predicate UniqueKeys(entries: seq<Entry>) {
    forall i, j :: 0 <= i < j < |entries| ==> entries[i].key != entries[j].key
  }

  /** What serde_json guarantees of every `Value`. */
  ghost predicate WellFormed(v: Value) {
    match v
    case Number(repr) => IsNumber(repr)
    case Array(items) => forall i :: 0 <= i < |items| ==> WellFormed(items[i])
    case Object(entries) =>
      UniqueKeys(entries) && forall i :: 0 <= i < |entries| ==> WellFormed(entries[i].value)
    case _ => true
  }

  // ---------- the printer ----------

  function Hex(n: nat): char
    requires n < 16
  {
    if n < 10 then '0' + n as char else 'a' + (n - 10) as char
  }

  function EscapeChar(c: char): string {
    if c == '\"' then "\\\""
    else if c == '\\' then "\\\\"
    else if c == '\n' then "\\n"
    else if c == '\r' then "\\r"
    else if c == '\t' then "\\t"
    else if c as int == 8 then "\\b"
    else if c as int == 12 then "\\f"
    else if c as int < 32 then "\\u00" + [Hex(c as int / 16), Hex(c as int % 16)]
    else [c]
  }

  function Escape(s: string): string {
    if s == "" then "" else EscapeChar(s[0]) + Escape(s[1..])
  }

  function Quote(s: string): string {
    "\"" + Escape(s) + "\""
  }

  function Print(v: Value): string
    decreases v, 1
  {
    match v
    case Null => "null"
    case Bool(b) => if b then "true" else "false"
    case Number(repr) => repr
    case String(s) => Quote(s)
    case Array(items) => "[" + (if items == [] then "]" else Print(items[0]) + MoreItems(items[1..]))
    case Object(entries) => "{" + (if entries == [] then "}" else PrintEntry(entries[0]) + MoreEntries(entries[1..]))
  }

  /** The items after the first, with their commas and the closing bracket. */
  function MoreItems(items: seq<Value>): string
    decreases items, 0
  {
    if items == [] then "]" else "," + (Print(items[0]) + MoreItems(items[1..]))
  }

  function PrintEntry(e: Entry): string
    decreases e, 2
  {
    Quote(e.key) + (":" + Print(e.value))
  }

  function MoreEntries(entries: seq<Entry>): string
    decreases entries, 0
  {
    if entries == [] then "}" else "," + (PrintEntry(entries[0]) + MoreEntries(entries[1..]))
  }

  // ---------- the printer loses nothing ----------

  /** What may follow a printed value inside a larger document. */
  predicate Follows(x: string) {
    x == "" || x[0] == ',' || x[0] == ']' || x[0] == '}'
  }

  lemma EscapeCharIsPrefixFree(c: char, d: char, x: string, y: string)
    requires EscapeChar(c) + x == EscapeChar(d) + y
    ensures c == d && x == y
  {
    var a, b := EscapeChar(c) + x, EscapeChar(d) + y;
    assert a[0] == EscapeChar(c)[0] && b[0] == EscapeChar(d)[0];
    if |EscapeChar(c)| > 1 && |EscapeChar(d)| > 1 {
      assert a[1] == EscapeChar(c)[1] && b[1] == EscapeChar(d)[1];
      if |EscapeChar(c)| > 2 && |EscapeChar(d)| > 2 {
        assert a[4] == EscapeChar(c)[4] && b[4] == EscapeChar(d)[4];
        assert a[5] == EscapeChar(c)[5] && b[5] == EscapeChar(d)[5];
      }
    }
    AppendCancels(EscapeChar(c), x, y);
  }

  lemma EscapeCharStartsNoQuote(c: char)
    ensures EscapeChar(c) != "" && EscapeChar(c)[0] != '\"'
  {
  }

  lemma EscapeUnfolds(s: string, x: string)
    requires s != ""
    ensures Escape(s) + x == EscapeChar(s[0]) + (Escape(s[1..]) + x)
    ensures (Escape(s) + x)[0] == EscapeChar(s[0])[0]
  {
    EscapeCharStartsNoQuote(s[0]);
  }

  lemma {:induction false} QuotedTextIsPrefixFree(s: string, t: string, x: string, y: string)
    requires Escape(s) + ("\"" + x) == Escape(t) + ("\"" + y)
    ensures s == t && x == y
  {
    if s != "" { EscapeCharStartsNoQuote(s[0]); EscapeUnfolds(s, "\"" + x); }
    if t != "" { EscapeCharStartsNoQuote(t[0]); EscapeUnfolds(t, "\"" + y); }
    assert s == "" ==> Escape(s) + ("\"" + x) == "\"" + x;
    assert t == "" ==> Escape(t) + ("\"" + y) == "\"" + y;
    if s == "" {
      AppendCancels("\"", x, y);
    } else {
      var u, v := Escape(s[1..]) + ("\"" + x), Escape(t[1..]) + ("\"" + y);
      EscapeUnfolds(s, "\"" + x);
      EscapeUnfolds(t, "\"" + y);
      EscapeCharIsPrefixFree(s[0], t[0], u, v);
      QuotedTextIsPrefixFree(s[1..], t[1..], x, y);
    }
  }

  lemma QuoteIsPrefixFree(s: string, t: string, x: string, y: string)
    requires Quote(s) + x == Quote(t) + y
    ensures s == t && x == y
  {
    var u, v := Escape(s) + ("\"" + x), Escape(t) + ("\"" + y);
    assert Quote(s) + x == "\"" + u && Quote(t) + y == "\"" + v;
    AppendCancels("\"", u, v);
    QuotedTextIsPrefixFree(s, t, x, y);
  }

  lemma NumberIsNotExtended(m: string, n: string, x: string, y: string)
    requires IsNumber(n) && Follows(x) && m + x == n + y
    ensures |n| <= |m|
  {
    assert |m| < |n| ==> (m + x)[|m|] == n[|m|];
    assert |m| < |n| ==> IsNumberChar(n[|m|]);
  }

  lemma NumberIsPrefixFree(m: string, n: string, x: string, y: string)
    requires IsNumber(m) && IsNumber(n) && Follows(x) && Follows(y)
    requires m + x == n + y
    ensures m == n && x == y
  {
    NumberIsNotExtended(m, n, x, y);
    NumberIsNotExtended(n, m, y, x);
    assert m == (m + x)[..|m|] && n == (n + y)[..|m|];
    AppendCancels(m, x, y);
  }

  /** The first character tells which kind of value was printed. */
  function Kind(c: char): nat {
    if c == 'n' then 0 else if c == 't' || c == 'f' then 1 else if c == '\"' then 3
    else if c == '[' then 4 else if c == '{' then 5 else if IsNumberChar(c) then 2 else 6
  }

  function KindOf(v: Value): nat {
    match v
    case Null => 0
    case Bool(_) => 1
    case Number(_) => 2
    case String(_) => 3
    case Array(_) => 4
    case Object(_) => 5
  }

  lemma PrintedKind(v: Value, x: string)
    requires WellFormed(v)
    ensures Print(v) != "" && (Print(v) + x)[0] == Print(v)[0] && Kind(Print(v)[0]) == KindOf(v)
  {
  }

  lemma {:induction false} PrintIsPrefixFree(v: Value, w: Value, x: string, y: string)
    requires WellFormed(v) && WellFormed(w) && Follows(x) && Follows(y)
    requires Print(v) + x == Print(w) + y
    ensures v == w && x == y
    decreases v, 2
  {
    PrintedKind(v, x);
    PrintedKind(w, y);
    match v
    case Null => AppendCancels("null", x, y);
    case Bool(b) => AppendCancels(Print(v), x, y);
    case Number(repr) => NumberIsPrefixFree(repr, w.repr, x, y);
    case String(s) => QuoteIsPrefixFree(s, w.s, x, y);
    case Array(items) => ArrayIsPrefixFree(v, w, x, y);
    case Object(entries) => ObjectIsPrefixFree(v, w, x, y);
  }

  lemma EmptyArrayShows(items: seq<Value>, x: string)
    requires forall i :: 0 <= i < |items| ==> WellFormed(items[i])
    ensures |Print(Array(items))| > 1
    ensures items == [] <==> (Print(Array(items)) + x)[1] == ']'
  {
    if items != [] {
      PrintedKind(items[0], MoreItems(items[1..]));
      assert Print(Array(items))[1] == (Print(items[0]) + MoreItems(items[1..]))[0];
    }
  }

  lemma {:induction false} ArrayIsPrefixFree(v: Value, w: Value, x: string, y: string)
    requires WellFormed(v) && WellFormed(w) && Follows(x) && Follows(y) && v.Array? && w.Array?
    requires Print(v) + x == Print(w) + y
    ensures v == w && x == y
    decreases v, 1
  {
    var a, b := v.items, w.items;
    EmptyArrayShows(a, x);
    EmptyArrayShows(b, y);
    if a == [] {
      assert Print(v) == "[]" && Print(w) == "[]";
      AppendCancels("[]", x, y);
    } else {
      RegroupCancels("[", Print(a[0]), MoreItems(a[1..]), x, Print(b[0]), MoreItems(b[1..]), y);
      PrintIsPrefixFree(a[0], b[0], MoreItems(a[1..]) + x, MoreItems(b[1..]) + y);
      ItemsArePrefixFree(a[1..], b[1..], x, y);
      assert a == [a[0]] + a[1..] && b == [b[0]] + b[1..];
    }
  }

  lemma {:induction false} ItemsArePrefixFree(a: seq<Value>, b: seq<Value>, x: string, y: string)
    requires forall i :: 0 <= i < |a| ==> WellFormed(a[i])
    requires forall i :: 0 <= i < |b| ==> WellFormed(b[i])
    requires Follows(x) && Follows(y)
    requires MoreItems(a) + x == MoreItems(b) + y
    ensures a == b && x == y
    decreases a, 0
  {
    assert (MoreItems(a) + x)[0] == MoreItems(a)[0] && (MoreItems(b) + y)[0] == MoreItems(b)[0];
    if a == [] {
      AppendCancels("]", x, y);
    } else {
      RegroupCancels(",", Print(a[0]), MoreItems(a[1..]), x, Print(b[0]), MoreItems(b[1..]), y);
      PrintIsPrefixFree(a[0], b[0], MoreItems(a[1..]) + x, MoreItems(b[1..]) + y);
      ItemsArePrefixFree(a[1..], b[1..], x, y);
      assert a == [a[0]] + a[1..] && b == [b[0]] + b[1..];
    }
  }

  lemma {:induction false} EntryIsPrefixFree(e: Entry, f: Entry, x: string, y: string)
    requires WellFormed(e.value) && WellFormed(f.value) && Follows(x) && Follows(y)
    requires PrintEntry(e) + x == PrintEntry(f) + y
    ensures e == f && x == y
    decreases e, 3
  {
    RegroupFour(Quote(e.key), ":", Print(e.value), x);
    RegroupFour(Quote(f.key), ":", Print(f.value), y);
    var u, t := Print(e.value) + x, Print(f.value) + y;
    QuoteIsPrefixFree(e.key, f.key, ":" + u, ":" + t);
    AppendCancels(":", u, t);
    PrintIsPrefixFree(e.value, f.value, x, y);
  }

  lemma EntryStartsWithQuote(e: Entry, x: string)
    ensures PrintEntry(e) != "" && PrintEntry(e)[0] == '\"' && (PrintEntry(e) + x)[0] == '\"'
  {
  }

  lemma {:induction false} ObjectIsPrefixFree(v: Value, w: Value, x: string, y: string)
    requires WellFormed(v) && WellFormed(w) && Follows(x) && Follows(y) && v.Object? && w.Object?
    requires Print(v) + x == Print(w) + y
    ensures v == w && x == y
    decreases v, 1
  {
    var a, b := v.entries, w.entries;
    assert (Print(v) + x)[1] == Print(v)[1] && (Print(w) + y)[1] == Print(w)[1];
    if a != [] { EntryStartsWithQuote(a[0], MoreEntries(a[1..])); }
    if b != [] { EntryStartsWithQuote(b[0], MoreEntries(b[1..])); }
    assert a == [] <==> Print(v)[1] == '}';
    assert b == [] <==> Print(w)[1] == '}';
    if a == [] {
      assert Print(v) == "{}" && Print(w) == "{}";
      AppendCancels("{}", x, y);
    } else {
      RegroupCancels("{", PrintEntry(a[0]), MoreEntries(a[1..]), x, PrintEntry(b[0]), MoreEntries(b[1..]), y);
      EntryIsPrefixFree(a[0], b[0], MoreEntries(a[1..]) + x, MoreEntries(b[1..]) + y);
      EntriesArePrefixFree(a[1..], b[1..], x, y);
      assert a == [a[0]] + a[1..] && b == [b[0]] + b[1..];
    }
  }

  lemma {:induction false} EntriesArePrefixFree(a: seq<Entry>, b: seq<Entry>, x: string, y: string)
    requires forall i :: 0 <= i < |a| ==> WellFormed(a[i].value)
    requires forall i :: 0 <= i < |b| ==> WellFormed(b[i].value)
    requires Follows(x) && Follows(y)
    requires MoreEntries(a) + x == MoreEntries(b) + y
    ensures a == b && x == y
    decreases a, 0
  {
    assert (MoreEntries(a) + x)[0] == MoreEntries(a)[0] && (MoreEntries(b) + y)[0] == MoreEntries(b)[0];
    if a == [] {
      AppendCancels("}", x, y);
    } else {
      RegroupCancels(",", PrintEntry(a[0]), MoreEntries(a[1..]), x, PrintEntry(b[0]), MoreEntries(b[1..]), y);
      EntryIsPrefixFree(a[0], b[0], MoreEntries(a[1..]) + x, MoreEntries(b[1..]) + y);
      EntriesArePrefixFree(a[1..], b[1..], x, y);
      assert a == [a[0]] + a[1..] && b == [b[0]] + b[1..];
    }
  }

  /** `serde_json::to_string` is injective on well-formed values, entry order included. */
  lemma PrintIsInjective(v: Value, w: Value)
    requires WellFormed(v) && WellFormed(w) && Print(v) == Print(w)
    ensures v == w
  {
    assert Print(v) + "" == Print(w) + "";
    PrintIsPrefixFree(v, w, "", "");
  }
}
