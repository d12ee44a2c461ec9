/** UTF-8 as the terminal reader sees it: `std::str::from_utf8` as a scanner (section 4 of
    RFC 3629), tied to the encoding of scalar values and to the maximal subparts of
    section 3.9 of the Unicode Standard. */
module Utf8 {
  import opened Wrappers

  type byte = x: int | 0 <= x < 256

  // ---------- reference: the encoding of one scalar value ----------

  function Encode(c: char): (bytes: seq<byte>)
    ensures 1 <= |bytes| <= 4
  {
    var n := c as int;
    if n < 0x80 then [n]
    else if n < 0x800 then [0xC0 + n / 64, 0x80 + n % 64]
    else if n < 0x10000 then [0xE0 + n / 4096, 0x80 + n / 64 % 64, 0x80 + n % 64]
    else [0xF0 + n / 262144, 0x80 + n / 4096 % 64, 0x80 + n / 64 % 64, 0x80 + n % 64]
  }

  function EncodeAll(text: string): seq<byte> {
    if text == "" then [] else Encode(text[0]) + EncodeAll(text[1..])
  }

  ghost predicate StartsWithEncoding(b: seq<byte>, n: nat) {
    n <= |b| && exists c: char :: Encode(c) == b[..n]
  }

  /** A nonempty proper prefix of a well-formed sequence. */
  ghost predicate IsIncomplete(b: seq<byte>) {
    0 < |b| && exists c: char :: |b| < |Encode(c)| && Encode(c)[..|b|] == b
  }

  // ---------- the scanner ----------

  predicate IsContinuation(b: byte) {
    0x80 <= b <= 0xBF
  }

  function Width(lead: byte): nat {
    if lead < 0x80 then 1
    else if 0xC2 <= lead <= 0xDF then 2
    else if 0xE0 <= lead <= 0xEF then 3
    else if 0xF0 <= lead <= 0xF4 then 4
    else 0
  }

  predicate SecondFits(lead: byte, second: byte) {
    if lead == 0xE0 then 0xA0 <= second <= 0xBF
    else if lead == 0xED then 0x80 <= second <= 0x9F
    else if lead == 0xF0 then 0x90 <= second <= 0xBF
    else if lead == 0xF4 then 0x80 <= second <= 0x8F
    else IsContinuation(second)
  }

  /** The head of a byte string: a whole sequence, an ill-formed one, or too few bytes to tell. */
  datatype Head = Valid(len: nat) | Invalid(len: nat) | Incomplete

  function Scan(b: seq<byte>): (head: Head)
    requires b != []
    ensures !head.Incomplete? ==> 1 <= head.len <= |b|
    ensures head.Incomplete? ==> |b| <= 3
  {
    var w := Width(b[0]);
    if w == 0 then Invalid(1)
    else if w == 1 then Valid(1)
    else if |b| < 2 then Incomplete
    else if !SecondFits(b[0], b[1]) then Invalid(1)
    else if w == 2 then Valid(2)
    else if |b| < 3 then Incomplete
    else if !IsContinuation(b[2]) then Invalid(2)
    else if w == 3 then Valid(3)
    else if |b| < 4 then Incomplete
    else if !IsContinuation(b[3]) then Invalid(3)
    else Valid(4)
  }

  /** The scalar value of a complete head. */
  function Decode(b: seq<byte>): char
    requires b != [] && Scan(b).Valid?
  {
    Value(b[..Scan(b).len]) as char
  }

  /** The payload bits of a sequence of two to four bytes, or the single byte itself. */
  function Value(b: seq<byte>): int {
    if |b| == 1 then b[0]
    else if |b| == 2 then Low(b[0], 0xC0) * 64 + Low(b[1], 0x80)
    else if |b| == 3 then Low(b[0], 0xE0) * 4096 + Low(b[1], 0x80) * 64 + Low(b[2], 0x80)
    else if |b| == 4 then
      Low(b[0], 0xF0) * 262144 + Low(b[1], 0x80) * 4096 + Low(b[2], 0x80) * 64 + Low(b[3], 0x80)
    else 0
  }

  function Low(b: int, mark: int): int {
    b - mark
  }

  lemma ScanOfEncoding(c: char, rest: seq<byte>)
    ensures Scan(Encode(c) + rest) == Valid(|Encode(c)|)
  {
    var b := Encode(c) + rest;
    assert b[0] == Encode(c)[0];
    if |Encode(c)| > 1 { assert b[1] == Encode(c)[1]; }
    if |Encode(c)| > 2 { assert b[2] == Encode(c)[2]; }
    if |Encode(c)| > 3 { assert b[3] == Encode(c)[3]; }
  }

  lemma ValueOfEncoding(c: char)
    ensures Value(Encode(c)) == c as int
  {
    var n := c as int;
    if 0x800 <= n < 0x10000 {
      assert n / 64 == n / 4096 * 64 + n / 64 % 64;
    } else if 0x10000 <= n {
      assert n / 64 == n / 4096 * 64 + n / 64 % 64;
      assert n / 4096 == n / 262144 * 64 + n / 4096 % 64;
    }
  }

  lemma DecodeInvertsEncode(c: char, rest: seq<byte>)
    ensures Scan(Encode(c) + rest) == Valid(|Encode(c)|)
    ensures Decode(Encode(c) + rest) == c
  {
    var b := Encode(c) + rest;
    ScanOfEncoding(c, rest);
    ValueOfEncoding(c);
    assert b[..|Encode(c)|] == Encode(c);
  }

  lemma Digits3(x: int, y: int, z: int)
    requires 0 <= x && 0 <= y < 64 && 0 <= z < 64
    ensures var n := x * 4096 + y * 64 + z;
            n / 4096 == x && n / 64 % 64 == y && n % 64 == z
  {
    var n := x * 4096 + y * 64 + z;
    assert n / 64 == x * 64 + y;
  }

  lemma Digits4(w: int, x: int, y: int, z: int)
    requires 0 <= w && 0 <= x < 64 && 0 <= y < 64 && 0 <= z < 64
    ensures var n := w * 262144 + x * 4096 + y * 64 + z;
            n / 262144 == w && n / 4096 % 64 == x && n / 64 % 64 == y && n % 64 == z
  {
    Digits3(w * 64 + x, y, z);
    var n := w * 262144 + x * 4096 + y * 64 + z;
    assert n / 4096 == w * 64 + x;
  }

  /** The scanner's ranges are exactly those of RFC 3629: no overlong form, no surrogate. */
  lemma ScannedValue(h: seq<byte>)
    requires h != [] && Scan(h) == Valid(|h|)
    ensures |h| == 1 ==> 0 <= Value(h) < 0x80
    ensures |h| == 2 ==> 0x80 <= Value(h) < 0x800
    ensures |h| == 3 ==> 0x800 <= Value(h) < 0xD800 || 0xE000 <= Value(h) < 0x10000
    ensures |h| == 4 ==> 0x10000 <= Value(h) < 0x110000
  {
  }

  lemma EncodeInvertsThree(h: seq<byte>)
    requires |h| == 3 && Scan(h) == Valid(3)
    ensures (0 <= Value(h) < 0xD800 || 0xE000 <= Value(h) < 0x110000) && Encode(Value(h) as char) == h
  {
    ScannedValue(h);
    Digits3(Low(h[0], 0xE0), Low(h[1], 0x80), Low(h[2], 0x80));
  }

  lemma EncodeInvertsFour(h: seq<byte>)
    requires |h| == 4 && Scan(h) == Valid(4)
    ensures (0 <= Value(h) < 0xD800 || 0xE000 <= Value(h) < 0x110000) && Encode(Value(h) as char) == h
  {
    ScannedValue(h);
    Digits4(Low(h[0], 0xF0), Low(h[1], 0x80), Low(h[2], 0x80), Low(h[3], 0x80));
  }

  lemma EncodeInvertsShort(h: seq<byte>)
    requires 1 <= |h| <= 2 && Scan(h) == Valid(|h|)
    ensures 0 <= Value(h) < 0xD800 && Encode(Value(h) as char) == h
  {
    ScannedValue(h);
  }

  lemma EncodeInvertsValue(h: seq<byte>)
    requires h != [] && Scan(h) == Valid(|h|)
    ensures 0 <= Value(h) < 0xD800 || 0xE000 <= Value(h) < 0x110000
    ensures Encode(Value(h) as char) == h
  {
    if |h| <= 2 {
      EncodeInvertsShort(h);
    } else if |h| == 3 {
      EncodeInvertsThree(h);
    } else {
      EncodeInvertsFour(h);
    }
  }

  lemma EncodeInvertsDecode(b: seq<byte>)
    requires b != [] && Scan(b).Valid?
    ensures Encode(Decode(b)) == b[..Scan(b).len]
  {
    var h := b[..Scan(b).len];
    assert Scan(h) == Valid(|h|);
    EncodeInvertsValue(h);
  }

  /** The scanner accepts a head exactly when it is the encoding of a scalar value. */
  lemma ValidIffEncoded(b: seq<byte>, n: nat)
    requires b != []
    ensures Scan(b) == Valid(n) <==> StartsWithEncoding(b, n)
  {
    if Scan(b) == Valid(n) {
      EncodeInvertsDecode(b);
    }
    if StartsWithEncoding(b, n) {
      var c: char :| Encode(c) == b[..n];
      assert b == Encode(c) + b[n..];
      DecodeInvertsEncode(c, b[n..]);
    }
  }

  /** Completes a head that is so far acceptable. */
  function Completion(b: seq<byte>): seq<byte>
    requires b != [] && Scan(b).Incomplete?
  {
    var second := if |b| > 1 then b[1] else if b[0] == 0xE0 then 0xA0 else if b[0] == 0xF0 then 0x90 else 0x80;
    var third := if |b| > 2 then b[2] else 0x80;
    [b[0], second, third, 0x80][..Width(b[0])]
  }

  lemma IncompleteIffProperPrefix(b: seq<byte>)
    requires b != []
    ensures Scan(b).Incomplete? <==> IsIncomplete(b)
  {
    if Scan(b).Incomplete? {
      var full := Completion(b);
      assert Scan(full) == Valid(|full|) && full[..|b|] == b;
      EncodeInvertsDecode(full);
      assert full[..|full|] == full;
    }
    if IsIncomplete(b) {
      var c: char :| |b| < |Encode(c)| && Encode(c)[..|b|] == b;
      DecodeInvertsEncode(c, []);
      assert Encode(c) + [] == Encode(c);
    }
  }

  /** An ill-formed head has the length of its maximal subpart: one byte, or the longest prefix
      that could still have begun a well-formed sequence. */
  lemma InvalidIsMaximalSubpart(b: seq<byte>)
    requires b != [] && Scan(b).Invalid?
    ensures var n := Scan(b).len;
            && (n == 1 || IsIncomplete(b[..n]))
            && forall m :: n < m <= |b| ==> !IsIncomplete(b[..m]) && !StartsWithEncoding(b, m)
    ensures !StartsWithEncoding(b, Scan(b).len) && !IsIncomplete(b)
  {
    var n := Scan(b).len;
    if n > 1 {
      assert Scan(b[..n]).Incomplete?;
      IncompleteIffProperPrefix(b[..n]);
    }
    forall m: nat | m <= |b| ensures !StartsWithEncoding(b, m) {
      ValidIffEncoded(b, m);
    }
    forall m: nat | n < m <= |b| ensures !IsIncomplete(b[..m]) {
      assert Scan(b[..m]).Invalid?;
      IncompleteIffProperPrefix(b[..m]);
    }
    IncompleteIffProperPrefix(b);
  }

  // ---------- std::str::from_utf8 ----------

  datatype Utf8Result = Ok | Err(validUpTo: nat, errorLen: Option<nat>)

  function FromUtf8(b: seq<byte>): (r: Utf8Result)
    ensures r.Err? ==> r.validUpTo < |b|
    ensures r.Err? && r.errorLen.Some? ==> 1 <= r.errorLen.value && r.validUpTo + r.errorLen.value <= |b|
  {
    if b == [] then Ok
    else
      match Scan(b)
      case Invalid(n) => Err(0, Some(n))
      case Incomplete => Err(0, None)
      case Valid(n) =>
        match FromUtf8(b[n..])
        case Ok => Ok
        case Err(v, e) => Err(n + v, e)
  }

  // ---------- reference decoding of a whole stream ----------

  /** The text of a stream: well-formed sequences decoded, ill-formed maximal subparts dropped,
      an incomplete tail ignored. */
  function Text(b: seq<byte>): string {
    if b == [] then ""
    else
      match Scan(b)
      case Valid(n) => [Decode(b)] + Text(b[n..])
      case Invalid(n) => Text(b[n..])
      case Incomplete => ""
  }

  /** The incomplete tail of a stream. */
  function Held(b: seq<byte>): seq<byte> {
    if b == [] then []
    else
      match Scan(b)
      case Valid(n) => Held(b[n..])
      case Invalid(n) => Held(b[n..])
      case Incomplete => b
  }

  /** A decided head is not changed by bytes that arrive later. */
  lemma ScanIsStable(a: seq<byte>, b: seq<byte>)
    requires a != [] && !Scan(a).Incomplete?
    ensures Scan(a + b) == Scan(a)
    ensures Scan(a).Valid? ==> Decode(a + b) == Decode(a)
  {
  }

  lemma DecidedHeadUnfolds(b: seq<byte>, rest: seq<byte>, head: string)
    requires b != [] && !Scan(b).Incomplete? && rest == b[Scan(b).len..]
    requires head == if Scan(b).Valid? then [Decode(b)] else ""
    ensures Text(b) == head + Text(rest) && Held(b) == Held(rest)
  {
  }

  ghost predicate Resumes(a: seq<byte>, b: seq<byte>) {
    && Text(a + b) == Text(a) + Text(Held(a) + b)
    && Held(a + b) == Held(Held(a) + b)
  }

  lemma ResumesAfterHead(a: seq<byte>, b: seq<byte>, t: seq<byte>)
    requires a != [] && !Scan(a).Incomplete? && t == a[Scan(a).len..] && Resumes(t, b)
    ensures Resumes(a, b)
  {
    ScanIsStable(a, b);
    assert (a + b)[Scan(a).len..] == t + b;
    var head := if Scan(a).Valid? then [Decode(a)] else "";
    DecidedHeadUnfolds(a, t, head);
    DecidedHeadUnfolds(a + b, t + b, head);
    Regroup(head, Text(t), Text(Held(t) + b));
  }

  /** Decoding can be resumed from the held tail. */
  lemma {:induction false} StreamResumes(a: seq<byte>, b: seq<byte>)
    ensures Resumes(a, b)
    decreases |a|
  {
    if a == [] {
      assert a + b == b && Held(a) + b == b;
    } else if Scan(a).Incomplete? {
      assert Text(a) == "" && Held(a) == a;
    } else {
      StreamResumes(a[Scan(a).len..], b);
      ResumesAfterHead(a, b, a[Scan(a).len..]);
    }
  }

  /** Well-formed text survives unchanged. */
  lemma {:induction false} WellFormedTextIsKept(text: string)
    ensures Text(EncodeAll(text)) == text
    ensures Held(EncodeAll(text)) == []
  {
    if text != "" {
      var rest := EncodeAll(text[1..]);
      DecodeInvertsEncode(text[0], rest);
      assert (Encode(text[0]) + rest)[|Encode(text[0])|..] == rest;
      WellFormedTextIsKept(text[1..]);
    }
  }

  lemma TextUnfolds(b: seq<byte>)
    requires b != [] && Scan(b).Valid?
    ensures var n := Scan(b).len;
            && Text(b) == [Decode(b)] + Text(b[n..])
            && Held(b) == Held(b[n..])
            && (FromUtf8(b).Ok? <==> FromUtf8(b[n..]).Ok?)
            && (FromUtf8(b).Err? ==> FromUtf8(b) == Err(n + FromUtf8(b[n..]).validUpTo, FromUtf8(b[n..]).errorLen))
  {
  }

  /** On well-formed input, encoding the text again gives back the very bytes. */
  lemma {:induction false} TextReencodes(b: seq<byte>)
    requires FromUtf8(b).Ok?
    ensures EncodeAll(Text(b)) == b && Held(b) == []
    decreases |b|
  {
    if b != [] {
      var n := Scan(b).len;
      TextUnfolds(b);
      EncodeInvertsDecode(b);
      TextReencodes(b[n..]);
      assert Text(b)[1..] == Text(b[n..]) && Text(b)[0] == Decode(b);
      assert b == b[..n] + b[n..];
    }
  }

  /** How an error of `from_utf8` cuts a stream: a decodable part, then a head that is ill-formed
      (`error_len` bytes) or incomplete. */
  ghost predicate CutsAt(b: seq<byte>, r: Utf8Result)
    requires r.Err? && r.validUpTo < |b|
  {
    var v := r.validUpTo;
    && FromUtf8(b[..v]).Ok?
    && Text(b) == Text(b[..v]) + Text(b[v..]) && Held(b) == Held(b[v..])
    && Scan(b[v..]) == (if r.errorLen.Some? then Invalid(r.errorLen.value) else Incomplete)
    && (v > 0 ==> Text(b[..v]) != "")
  }

  lemma PrefixUnfolds(b: seq<byte>, v: nat)
    requires b != [] && Scan(b).Valid? && Scan(b).len <= v <= |b|
    ensures var n := Scan(b).len;
            && Text(b[..v]) == [Decode(b)] + Text(b[n..][..v - n])
            && (FromUtf8(b[..v]).Ok? <==> FromUtf8(b[n..][..v - n]).Ok?)
  {
    var whole, n := b[..v], Scan(b).len;
    assert Scan(whole) == Scan(b) && whole[..n] == b[..n];
    TextUnfolds(whole);
    assert whole[n..] == b[n..][..v - n];
  }

  lemma CutsExtend(b: seq<byte>, t: seq<byte>, r: Utf8Result)
    requires b != [] && Scan(b).Valid? && t == b[Scan(b).len..]
    requires r.Err? && r.validUpTo < |t| && CutsAt(t, r)
    ensures CutsAt(b, Err(Scan(b).len + r.validUpTo, r.errorLen))
  {
    var n, v := Scan(b).len, Scan(b).len + r.validUpTo;
    assert b[v..] == t[r.validUpTo..];
    assert FromUtf8(b[..v]).Ok? && Text(b[..v]) == [Decode(b)] + Text(t[..r.validUpTo]) by { PrefixUnfolds(b, v); }
    assert Text(b) == [Decode(b)] + Text(t) && Held(b) == Held(t) by { TextUnfolds(b); }
    Regroup([Decode(b)], Text(t[..r.validUpTo]), Text(t[r.validUpTo..]));
  }

  lemma CutsAtOnce(b: seq<byte>)
    requires b != [] && !Scan(b).Valid?
    ensures FromUtf8(b).Err? && CutsAt(b, FromUtf8(b))
  {
    assert b[..0] == [] && b[0..] == b;
  }

  lemma {:induction false} FromUtf8Cuts(b: seq<byte>)
    requires FromUtf8(b).Err?
    ensures CutsAt(b, FromUtf8(b))
    decreases |b|
  {
    if Scan(b).Valid? {
      var t := b[Scan(b).len..];
      TextUnfolds(b);
      FromUtf8Cuts(t);
      CutsExtend(b, t, FromUtf8(t));
    } else {
      CutsAtOnce(b);
    }
  }

  /** What is left to decode after an error: the undecided tail itself, or the bytes after the
      ill-formed part. */
  function AfterError(b: seq<byte>): seq<byte>
    requires FromUtf8(b).Err?
  {
    var r := FromUtf8(b);
    if r.errorLen.None? then b[r.validUpTo..] else b[r.validUpTo..][r.errorLen.value..]
  }

  lemma DecodingContinuesAfterError(b: seq<byte>)
    requires FromUtf8(b).Err?
    ensures var r := FromUtf8(b);
            && Text(b) == Text(b[..r.validUpTo]) + (if r.errorLen.None? then "" else Text(AfterError(b)))
            && Held(b) == (if r.errorLen.None? then AfterError(b) else Held(AfterError(b)))
            && (r.validUpTo > 0 ==> Text(b[..r.validUpTo]) != "")
            && (r.validUpTo == 0 ==> Text(b[..r.validUpTo]) == "")
  {
    FromUtf8Cuts(b);
  }

  /** A tail from which nothing can be decoded yet holds itself back. */
  lemma IncompleteHoldsItself(b: seq<byte>)
    requires FromUtf8(b).Err? && FromUtf8(b).errorLen.None?
    ensures Held(AfterError(b)) == AfterError(b) && Text(AfterError(b)) == ""
  {
    FromUtf8Cuts(b);
  }

  /** What an error splits off: the text before it, and what is left to decode. */
  lemma ErrorStep(b: seq<byte>) returns (head: string, rest: seq<byte>)
    requires FromUtf8(b).Err?
    ensures var r := FromUtf8(b);
            && head == Text(b[..r.validUpTo]) && rest == AfterError(b)
            && Text(b) == head + Text(rest) && Held(b) == Held(rest)
            && (head == "" <==> r.validUpTo == 0)
            && (if r.errorLen.None? then rest == Held(rest) && Text(rest) == "" else |rest| < |b|)
  {
    DecodingContinuesAfterError(b);
    head, rest := Text(b[..FromUtf8(b).validUpTo]), AfterError(b);
    if FromUtf8(b).errorLen.None? {
      IncompleteHoldsItself(b);
    }
  }

  /** The held tail is at most three bytes and a proper prefix of a well-formed sequence. */
  lemma {:induction false} HeldIsIncomplete(b: seq<byte>)
    ensures |Held(b)| <= 3
    ensures Held(b) != [] ==> Scan(Held(b)).Incomplete? && IsIncomplete(Held(b))
    decreases |b|
  {
    if b != [] {
      if Scan(b).Incomplete? {
        IncompleteIffProperPrefix(b);
      } else {
        HeldIsIncomplete(b[Scan(b).len..]);
      }
    }
  }
}
