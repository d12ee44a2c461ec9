/** The reader thread of src-tauri/src/terminal.rs: bytes read from the pty in arbitrary pieces
    become terminal-output strings. */
module TerminalReader {
  import opened Wrappers
  import opened Utf8

  /** One return of `reader.read`: `Data([])` is end of file. */
  datatype Read = Data(bytes: seq<byte>) | Failed

  /** The bytes received before end of file or an error. */
  function Received(input: seq<Read>): seq<byte> {
    if input == [] || input[0] == Failed || input[0].bytes == [] then []
    else input[0].bytes + Received(input[1..])
  }

  function Joined(chunks: seq<string>): string {
    if chunks == [] then "" else Joined(chunks[..|chunks| - 1]) + chunks[|chunks| - 1]
  }

  lemma JoinedOneMore(chunks: seq<string>, last: string)
    ensures Joined(chunks + [last]) == Joined(chunks) + last
  {
    assert (chunks + [last])[..|chunks|] == chunks;
  }

  lemma {:induction false} JoinedConcat(a: seq<string>, b: seq<string>)
    ensures Joined(a + b) == Joined(a) + Joined(b)
    decreases |b|
  {
    if b == [] {
      assert a + b == a;
    } else {
      var init, last := b[..|b| - 1], b[|b| - 1];
      JoinedConcat(a, init);
      JoinedOneMore(a + init, last);
      JoinedOneMore(init, last);
      assert a + b == (a + init) + [last] && b == init + [last];
      Regroup(Joined(a), Joined(init), last);
    }
  }

  ghost predicate NoneEmpty(chunks: seq<string>) {
    forall i :: 0 <= i < |chunks| ==> chunks[i] != ""
  }

  /** What has been received so far, before the read at `i`. */
  lemma {:induction false} ReceivedExtends(input: seq<Read>, i: nat)
    requires i < |input|
    requires forall k :: 0 <= k < i ==> input[k].Data? && input[k].bytes != []
    ensures Received(input[..i]) <= Received(input)
    ensures input[i] == Failed || input[i].bytes == [] ==> Received(input) == Received(input[..i])
    ensures input[i].Data? ==> Received(input[..i + 1]) == Received(input[..i]) + input[i].bytes
  {
    if i == 0 {
      assert input[..1] == [input[0]];
    } else {
      var head, tail := input[0].bytes, input[1..];
      ReceivedExtends(tail, i - 1);
      assert input[..i][1..] == tail[..i - 1];
      assert input[..i + 1][1..] == tail[..i];
      if input[i].Data? {
        Regroup(head, Received(tail[..i - 1]), input[i].bytes);
      }
    }
  }

  class Reader {
    var pending: seq<byte>
    var emitted: seq<string>

    constructor ()
      ensures pending == [] && emitted == []
    {
      pending, emitted := [], [];
    }

    method Emit(text: string)
      modifies this`emitted
      ensures emitted == old(emitted) + [text]
      ensures Joined(emitted) == Joined(old(emitted)) + text
    {
      emitted := emitted + [text];
      assert emitted[..|emitted| - 1] == old(emitted);
    }

    /** One iteration of the inner loop; `more` says whether it goes round again. */
    method Round() returns (more: bool)
      modifies this
      ensures Held(pending) == Held(old(pending))
      ensures Joined(emitted) + Text(pending) == Joined(old(emitted)) + Text(old(pending))
      ensures emitted == old(emitted) || exists text :: text != "" && emitted == old(emitted) + [text]
      ensures more ==> |pending| < |old(pending)|
      ensures !more ==> pending == Held(pending) && Text(pending) == ""
    {
      match FromUtf8(pending)
      case Ok =>
        TextReencodes(pending);
        if pending != [] {
          Emit(Text(pending));
        }
        pending := [];
        return false;
      case Err(validUpTo, errorLen) =>
        more := SplitError(validUpTo, errorLen);
    }

    /** The error branch: emit what was decoded, drop the ill-formed part or stop at the tail. */
    method SplitError(validUpTo: nat, errorLen: Option<nat>) returns (more: bool)
      requires FromUtf8(pending) == Err(validUpTo, errorLen)
      modifies this
      ensures Held(pending) == Held(old(pending))
      ensures Joined(emitted) + Text(pending) == Joined(old(emitted)) + Text(old(pending))
      ensures emitted == old(emitted) || exists text :: text != "" && emitted == old(emitted) + [text]
      ensures more ==> |pending| < |old(pending)|
      ensures !more ==> pending == Held(pending) && Text(pending) == ""
    {
      ghost var head, rest := ErrorStep(pending);
      Regroup(Joined(emitted), head, Text(rest));
      if validUpTo == 0 {
        assert pending[0..] == pending;
        if errorLen.None? {
          return false;
        }
        pending := pending[errorLen.value..];
        return true;
      }
      Emit(Text(pending[..validUpTo]));
      pending := pending[validUpTo..];
      if errorLen.None? {
        return false;
      }
      pending := pending[errorLen.value..];
      return true;
    }

    /** One read: decode what can be decided, drop ill-formed parts, keep the incomplete tail. */
    method Feed(bytes: seq<byte>)
      modifies this
      ensures pending == Held(old(pending) + bytes)
      ensures |pending| <= 3 && (pending != [] ==> IsIncomplete(pending))
      ensures old(emitted) <= emitted
      ensures Joined(emitted) == Joined(old(emitted)) + Text(old(pending) + bytes)
      ensures NoneEmpty(old(emitted)) ==> NoneEmpty(emitted)
    {
      pending := pending + bytes;
      ghost var all := pending;
      HeldIsIncomplete(all);
      var more := true;
      while more
        invariant Held(pending) == Held(all)
        invariant Joined(emitted) + Text(pending) == Joined(old(emitted)) + Text(all)
        invariant old(emitted) <= emitted
        invariant NoneEmpty(old(emitted)) ==> NoneEmpty(emitted)
        invariant !more ==> pending == Held(pending) && Text(pending) == ""
        decreases more, |pending|
      {
        more := Round();
      }
    }

    /** The whole thread: however the stream was cut into reads, the strings it emitted add up to
        the reference decoding of the received bytes. */
    method Run(input: seq<Read>)
      requires pending == [] && emitted == []
      modifies this
      ensures Joined(emitted) == Text(Received(input))
      ensures pending == Held(Received(input))
      ensures NoneEmpty(emitted)
    {
      var i := 0;
      assert input[..0] == [];
      while i < |input|
        invariant 0 <= i <= |input|
        invariant forall k :: 0 <= k < i ==> input[k].Data? && input[k].bytes != []
        invariant Joined(emitted) == Text(Received(input[..i]))
        invariant pending == Held(Received(input[..i]))
        invariant NoneEmpty(emitted)
      {
        ReceivedExtends(input, i);
        if input[i].Failed? || input[i].bytes == [] {
          return;
        }
        StreamResumes(Received(input[..i]), input[i].bytes);
        Feed(input[i].bytes);
        i := i + 1;
      }
      assert input[..i] == input;
    }
  }
}
