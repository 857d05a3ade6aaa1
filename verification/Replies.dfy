/**
 * The answers that come back from the monitor: echoed latency markers and a
 * final EOF (src/socket_interface/serialization.cpp, handle_read_done;
 * src/socket_interface/deserialization.cpp, send_latency_marker and send_eof).
 */
module Replies {
  import opened Bytes

  const CTRL_NEW_EVENT: int := 1
  const CTRL_NEW_DATABASE: int := 2
  const CTRL_END_DATABASE: int := 3
  const CTRL_LATENCY_MARKER: int := 4
  const CTRL_EOF: int := 5

  predicate IsInt64(x: int) {
    -TWO_63 <= x < TWO_63
  }

  // ----- what is sent -----

  function LatencyReply(lm: int): (bs: seq<byte>)
    ensures |bs| == 12
  {
    Int32Bytes(CTRL_LATENCY_MARKER) + Int64Bytes(lm)
  }

  function LatencyReplies(lms: seq<int>): seq<byte> {
    if lms == [] then [] else LatencyReply(lms[0]) + LatencyReplies(lms[1..])
  }

  function EofReply(): (bs: seq<byte>)
    ensures |bs| == 4
  {
    Int32Bytes(CTRL_EOF)
  }

  lemma {:induction false} LatencyRepliesAppend(lms: seq<int>, lm: int)
    ensures LatencyReplies(lms + [lm]) == LatencyReplies(lms) + LatencyReply(lm)
  {
    if lms == [] {
      assert [lm][1..] == [];
    } else {
      assert (lms + [lm])[1..] == lms[1..] + [lm];
      LatencyRepliesAppend(lms[1..], lm);
      var first := LatencyReply(lms[0]);
      assert first + (LatencyReplies(lms[1..]) + LatencyReply(lm))
          == first + LatencyReplies(lms[1..]) + LatencyReply(lm);
    }
  }

  lemma ControlsDiffer()
    ensures Int32Bytes(CTRL_EOF) != Int32Bytes(CTRL_LATENCY_MARKER)
  {
    Int32RoundTrip(CTRL_EOF);
    Int32RoundTrip(CTRL_LATENCY_MARKER);
  }

  // ----- what is read -----

  /** What has been read of a reply that is not complete yet. */
  ghost predicate Incomplete(waitingForLm: bool, part: seq<byte>) {
    |part| < if waitingForLm then 8 else 4
  }

  function Pending(waitingForLm: bool, part: seq<byte>): seq<byte> {
    (if waitingForLm then Int32Bytes(CTRL_LATENCY_MARKER) else []) + part
  }

  /** The first reply of a stream, and the remaining stream. */
  lemma FirstReply(lms: seq<int>)
    ensures var stream := LatencyReplies(lms) + EofReply();
            if lms == [] then stream == EofReply() else
              && stream == LatencyReply(lms[0]) + (LatencyReplies(lms[1..]) + EofReply())
              && stream[..4] == Int32Bytes(CTRL_LATENCY_MARKER)
  {
    hide Int32Bytes, Int64Bytes;
    if lms == [] {
      assert [] + EofReply() == EofReply();
    } else {
      Associate(LatencyReply(lms[0]), LatencyReplies(lms[1..]), EofReply());
    }
  }

  /** What a stream starts with determines the first reply. */
  lemma NothingRead(lms: seq<int>, waiting: bool, part: seq<byte>, rest: seq<byte>)
    requires LatencyReplies(lms) + EofReply() == Pending(waiting, part) + rest
    ensures waiting ==> lms != []
    ensures !waiting && lms != [] ==> |part + rest| > 4 && (part + rest)[..4] == Int32Bytes(CTRL_LATENCY_MARKER)
    ensures !waiting && lms == [] ==> part + rest == EofReply()
  {
    FirstReply(lms);
    ControlsDiffer();
    hide LatencyReplies, LatencyReply, Int32Bytes;
    if waiting {
      assert (Pending(waiting, part) + rest)[..4] == Int32Bytes(CTRL_LATENCY_MARKER);
      assert EofReply()[..4] == EofReply();
    } else {
      assert Pending(waiting, part) + rest == part + rest;
    }
  }

  lemma SameFirst(a: int, b: int, s: seq<byte>, t: seq<byte>)
    requires IsInt64(a) && IsInt64(b) && LatencyReply(a) + s == LatencyReply(b) + t
    ensures a == b && s == t
  {
    var x, y := LatencyReply(a) + s, LatencyReply(b) + t;
    assert Int64Bytes(a) == x[4..12] && Int64Bytes(b) == y[4..12];
    Int64RoundTrip(a);
    Int64RoundTrip(b);
    assert s == x[12..] && t == y[12..];
  }

  /** Reading a well-formed reply stream up to some point determines the markers read so far. */
  lemma {:induction false} PrefixDetermines(lms: seq<int>, read: seq<int>, waiting: bool, part: seq<byte>,
                                            rest: seq<byte>)
    requires (forall k :: 0 <= k < |lms| ==> IsInt64(lms[k])) && (forall k :: 0 <= k < |read| ==> IsInt64(read[k]))
    requires LatencyReplies(lms) + EofReply() == LatencyReplies(read) + (Pending(waiting, part) + rest)
    ensures read <= lms
    ensures waiting ==> |read| < |lms|
    ensures !waiting && |read| < |lms| ==> |part + rest| > 4 && (part + rest)[..4] == Int32Bytes(CTRL_LATENCY_MARKER)
    ensures !waiting && |read| == |lms| ==> part + rest == EofReply()
    decreases |read|
  {
    var partial := Pending(waiting, part) + rest;
    if read == [] {
      assert LatencyReplies([]) + partial == partial;
      NothingRead(lms, waiting, part, rest);
    } else {
      FirstReply(lms);
      assert LatencyReplies(read) == LatencyReply(read[0]) + LatencyReplies(read[1..]);
      Associate(LatencyReply(read[0]), LatencyReplies(read[1..]), partial);
      hide LatencyReplies, LatencyReply, EofReply, Pending;
      var tail := LatencyReplies(read[1..]) + partial;
      assert |LatencyReply(read[0]) + tail| >= 12;
      assert lms != [];
      SameFirst(lms[0], read[0], LatencyReplies(lms[1..]) + EofReply(), tail);
      PrefixDetermines(lms[1..], read[1..], waiting, part, rest);
      assert read == [read[0]] + read[1..] && lms == [lms[0]] + lms[1..];
    }
  }

  /** The outcome of handling a completed read. */
  datatype Outcome = Continue | Confirmed | UnexpectedEof | UnexpectedCommand

  class ReplyReader {
    const rbuf: array<byte>
    var currReadBytes: nat
    var waitingForLm: bool
    var doneConfirmed: bool
    /** The read that is outstanding: how many bytes, and where to in the buffer. */
    var nbytes: nat
    var offset: nat
    /** What the latency callback has been given. */
    var latencies: seq<int>
    /** Everything that has arrived. */
    ghost var received: seq<byte>

    ghost predicate Valid()
      reads this, rbuf
    {
      && rbuf.Length == 50 && currReadBytes < (if waitingForLm then 8 else 4)
      && offset == currReadBytes && nbytes + offset == (if waitingForLm then 8 else 4)
      && !doneConfirmed && (forall k :: 0 <= k < |latencies| ==> IsInt64(latencies[k]))
      && received == LatencyReplies(latencies) + Pending(waitingForLm, rbuf[..currReadBytes])
    }

    constructor ()
      ensures Valid() && received == [] && latencies == [] && fresh(rbuf)
    {
      rbuf := new byte[50](_ => 0);
      currReadBytes, waitingForLm, doneConfirmed, latencies, received := 0, false, false, [], [];
      nbytes, offset := 4, 0;
    }

    /** The kernel's part of a read: the next bytes are placed in the buffer. */
    method Arrive(data: seq<byte>)
      requires rbuf.Length == 50 && offset + |data| <= 50 && offset == currReadBytes
      modifies rbuf
      ensures rbuf[..currReadBytes + |data|] == old(rbuf[..currReadBytes]) + data
    {
      for i := 0 to |data|
        invariant rbuf[..currReadBytes + i] == old(rbuf[..currReadBytes]) + data[..i]
      {
        rbuf[offset + i] := data[i];
        assert data[..i + 1] == data[..i] + [data[i]];
      }
      assert data[..|data|] == data;
    }

    method SubmitRead(n: nat, at: nat)
      modifies this`nbytes, this`offset
      ensures nbytes == n && offset == at
    {
      nbytes, offset := n, at;
    }

    method MaybeReadMore(fullSize: nat) returns (more: bool)
      modifies this`nbytes, this`offset, this`currReadBytes
      ensures more == (old(currReadBytes) < fullSize)
      ensures if more then currReadBytes == old(currReadBytes) && nbytes == fullSize - currReadBytes
              && offset == currReadBytes
              else currReadBytes == 0 && nbytes == old(nbytes) && offset == old(offset)
    {
      if currReadBytes < fullSize {
        SubmitRead(fullSize - currReadBytes, currReadBytes);
        return true;
      }
      currReadBytes := 0;
      return false;
    }

    /** A read completes with some of the bytes asked for, or none at all at the end of the stream. */
    method ReadDone(data: seq<byte>) returns (outcome: Outcome)
      requires Valid() && |data| <= nbytes
      modifies this, rbuf
      ensures received == old(received) + data
      ensures outcome == UnexpectedEof <==> data == []
      ensures outcome == Continue ==> Valid() && old(latencies) <= latencies
      ensures forall k :: 0 <= k < |latencies| ==> IsInt64(latencies[k])
      ensures outcome == Confirmed ==> doneConfirmed && received == LatencyReplies(latencies) + EofReply()
      ensures outcome == UnexpectedCommand ==>
        exists ctrl: seq<byte> :: |ctrl| == 4 && received == LatencyReplies(latencies) + ctrl
                                  && ctrl != EofReply() && ctrl != Int32Bytes(CTRL_LATENCY_MARKER)
    {
      hide LatencyReplies, Int32Bytes;
      received := received + data;
      if data == [] {
        return UnexpectedEof;
      }
      Arrive(data);
      currReadBytes := currReadBytes + |data|;
      if waitingForLm {
        MarkerBytes();
        outcome := Continue;
      } else {
        outcome := ControlBytes();
      }
    }

    /** More of a marker has arrived. */
    method MarkerBytes()
      requires rbuf.Length == 50 && 0 < currReadBytes <= 8 && waitingForLm && !doneConfirmed
      requires forall k :: 0 <= k < |latencies| ==> IsInt64(latencies[k])
      requires received == LatencyReplies(latencies) + Pending(true, rbuf[..currReadBytes])
      modifies this`nbytes, this`offset, this`currReadBytes, this`waitingForLm, this`latencies
      ensures Valid() && old(latencies) <= latencies
    {
      hide LatencyReplies;
      ghost var got := rbuf[..currReadBytes];
      var more := MaybeReadMore(8);
      if more {
        return;
      }
      assert got == rbuf[..8];
      TakeMarker(latencies, got, received);
      latencies := latencies + [Int64Of(rbuf[..8])];
      SubmitRead(4, 0);
      waitingForLm := false;
      assert rbuf[..0] == [];
    }

    /** More of a control word has arrived. */
    method ControlBytes() returns (outcome: Outcome)
      requires rbuf.Length == 50 && 0 < currReadBytes <= 4 && !waitingForLm && !doneConfirmed
      requires forall k :: 0 <= k < |latencies| ==> IsInt64(latencies[k])
      requires received == LatencyReplies(latencies) + Pending(false, rbuf[..currReadBytes])
      modifies this`nbytes, this`offset, this`currReadBytes, this`waitingForLm, this`doneConfirmed
      ensures outcome != UnexpectedEof && (outcome == Continue ==> Valid())
      ensures outcome == Confirmed ==> doneConfirmed && received == LatencyReplies(latencies) + EofReply()
      ensures outcome == UnexpectedCommand ==>
        exists ctrl: seq<byte> :: |ctrl| == 4 && received == LatencyReplies(latencies) + ctrl
                                  && ctrl != EofReply() && ctrl != Int32Bytes(CTRL_LATENCY_MARKER)
    {
      hide LatencyReplies, Int32Bytes, Int32Of;
      ghost var got := rbuf[..currReadBytes];
      assert Pending(false, got) == got;
      var more := MaybeReadMore(4);
      if more {
        return Continue;
      }
      assert got == rbuf[..4];
      var ctrl := Int32Of(rbuf[..4]);
      Int32BytesBack(rbuf[..4]);
      if ctrl == CTRL_LATENCY_MARKER {
        waitingForLm := true;
        SubmitRead(8, 0);
        assert Pending(true, rbuf[..0]) == got;
        outcome := Continue;
      } else if ctrl == CTRL_EOF {
        doneConfirmed := true;
        outcome := Confirmed;
      } else {
        OtherCommand(ctrl, got);
        outcome := UnexpectedCommand;
      }
    }
  }

  lemma OtherCommand(ctrl: int, got: seq<byte>)
    requires |got| == 4 && ctrl == Int32Of(got) && ctrl != CTRL_LATENCY_MARKER && ctrl != CTRL_EOF
    ensures got != EofReply() && got != Int32Bytes(CTRL_LATENCY_MARKER)
  {
    Int32RoundTrip(CTRL_EOF);
    Int32RoundTrip(CTRL_LATENCY_MARKER);
  }

  lemma TakeMarker(latencies: seq<int>, got: seq<byte>, received: seq<byte>)
    requires |got| == 8 && received == LatencyReplies(latencies) + Pending(true, got)
    ensures IsInt64(Int64Of(got)) && received == LatencyReplies(latencies + [Int64Of(got)]) + Pending(false, [])
  {
    Int64BytesBack(got);
    LatencyRepliesAppend(latencies, Int64Of(got));
  }

  lemma NoPending(part: seq<byte>)
    ensures Pending(false, part) == part
  {}

  /** A well-formed stream is read without errors, and not to its end before the EOF is seen. */
  lemma Recognised(lms: seq<int>, read: seq<int>, waiting: bool, part: seq<byte>, pos: nat)
    requires (forall k :: 0 <= k < |lms| ==> IsInt64(lms[k])) && (forall k :: 0 <= k < |read| ==> IsInt64(read[k]))
    requires var stream := LatencyReplies(lms) + EofReply();
             pos <= |stream| && stream[..pos] == LatencyReplies(read) + Pending(waiting, part)
    ensures Incomplete(waiting, part) ==> pos < |LatencyReplies(lms) + EofReply()|
    ensures !waiting && |part| == 4 ==> part == EofReply() || part == Int32Bytes(CTRL_LATENCY_MARKER)
    ensures !waiting && part == EofReply() ==> read == lms
  {
    hide LatencyReplies, EofReply, Int32Bytes;
    var stream := LatencyReplies(lms) + EofReply();
    var rest := stream[pos..];
    SplitStream(stream, pos, LatencyReplies(read), Pending(waiting, part));
    PrefixDetermines(lms, read, waiting, part, rest);
    LatencyLength(lms);
    LatencyLength(read);
    ControlsDiffer();
    EofIsControl();
    if |part| == 4 {
      assert (part + rest)[..4] == part;
    }
  }

  lemma SplitStream(stream: seq<byte>, pos: nat, before: seq<byte>, partial: seq<byte>)
    requires pos <= |stream| && stream[..pos] == before + partial
    ensures stream == before + (partial + stream[pos..]) && pos == |before| + |partial|
  {
    assert stream == stream[..pos] + stream[pos..];
    Associate(before, partial, stream[pos..]);
  }

  lemma EofIsControl()
    ensures EofReply() == Int32Bytes(CTRL_EOF)
  {}

  lemma {:induction false} LatencyLength(lms: seq<int>)
    ensures |LatencyReplies(lms)| == 12 * |lms|
  {
    if lms != [] {
      LatencyLength(lms[1..]);
    }
  }

  /**
   * However a reply stream is cut into read completions, exactly its markers
   * are recognised, in order, and its EOF.
   */
  method ReadReplies(stream: seq<byte>, sizes: seq<nat>, ghost lms: seq<int>)
    returns (latencies: seq<int>, confirmed: bool)
    requires stream == LatencyReplies(lms) + EofReply() && forall k :: 0 <= k < |lms| ==> IsInt64(lms[k])
    ensures latencies == lms && confirmed
  {
    hide LatencyReplies, LatencyReply, EofReply, Pending;
    var reader := new ReplyReader();
    var pos, i := 0, 0;
    while true
      invariant fresh(reader) && fresh(reader.rbuf) && reader.Valid() && 0 <= pos < |stream|
                && reader.received == stream[..pos]
      invariant 0 <= i <= |sizes|
      decreases |stream| - pos
    {
      var want := if i < |sizes| && sizes[i] > 0 then sizes[i] else 1;
      i := if i < |sizes| then i + 1 else i;
      var n := if want <= reader.nbytes then want else reader.nbytes;
      n := if n <= |stream| - pos then n else |stream| - pos;
      var data := stream[pos..pos + n];
      var outcome := reader.ReadDone(data);
      assert stream[..pos + n] == stream[..pos] + data;
      pos := pos + n;
      if outcome == Continue {
        Recognised(lms, reader.latencies, reader.waitingForLm, reader.rbuf[..reader.currReadBytes], pos);
      } else if outcome == Confirmed {
        assert Pending(false, EofReply()) == EofReply() by { NoPending(EofReply()); }
        Recognised(lms, reader.latencies, false, EofReply(), pos);
        return reader.latencies, reader.doneConfirmed;
      } else {
        ghost var ctrl: seq<byte> :| |ctrl| == 4 && reader.received == LatencyReplies(reader.latencies) + ctrl
                                     && ctrl != EofReply() && ctrl != Int32Bytes(CTRL_LATENCY_MARKER);
        NoPending(ctrl);
        Recognised(lms, reader.latencies, false, ctrl, pos);
        assert false;
      }
    }
  }
}
