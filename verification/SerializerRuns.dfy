/** Whole runs of the serializer: any interleaving of the producer, the I/O thread and the kernel. */
module SerializerRuns {
  import opened Bytes
  import opened SerializerTransport

  /** One step of one of the parties; a step that is not possible is skipped. */
  datatype Step = Produce | Notify | Kernel(nbytes: nat) | Handle

  lemma {:induction false} FlattenAppend(a: seq<seq<byte>>, x: seq<byte>)
    ensures Flatten(a + [x]) == Flatten(a) + x
  {
    if a == [] {
      assert [x][1..] == [];
    } else {
      assert (a + [x])[1..] == a[1..] + [x];
      FlattenAppend(a[1..], x);
      assert a[0] + (Flatten(a[1..]) + x) == a[0] + Flatten(a[1..]) + x;
    }
  }

  /** The completion of the submitted operation, if it can complete now. */
  method KernelStep(ser: Serializer, nbytes: nat)
    requires ser.Valid()
    modifies ser`eventfd, ser`submitted, ser`ring, ser`sent
    ensures ser.Valid() && old(ser.sent) <= ser.sent
  {
    hide Serializer.Valid;
    ser.SubmittedFacts();
    match ser.submitted {
      case EventfdRead =>
        if ser.eventfd > 0 {
          ser.EventfdReadable();
        }
      case Write(numVecs) =>
        if 0 < nbytes <= Offered(ser.wbufsViews, numVecs) {
          ser.SocketAccepts(nbytes);
        }
      case Shutdown => ser.ShutdownCompletes();
      case _ =>
    }
  }

  /** The I/O thread handles a completion, if there is one. */
  method HandlerStep(ser: Serializer)
    requires ser.Valid()
    modifies ser`datQ, ser`wbufs, ser`wbufsViews, ser`noMoreData, ser`newEventSum, ser`submitted, ser`ring,
        ser`writePending
    ensures ser.Valid()
  {
    hide Serializer.Valid;
    match ser.submitted {
      case EventfdReadDone(_) => ser.HandleNewDataEventfd();
      case WriteDone(_) => ser.HandleWriteDone();
      case _ =>
    }
  }

  /** Between two steps of the producer the I/O thread and the kernel make any number of steps, in any order. */
  method OthersRun(ser: Serializer)
    requires ser.Valid()
    modifies ser`eventfd, ser`submitted, ser`ring, ser`sent, ser`datQ, ser`wbufs, ser`wbufsViews, ser`noMoreData,
        ser`newEventSum, ser`writePending
    ensures ser.Valid() && old(ser.sent) <= ser.sent
  {
    hide Serializer.Valid;
    var schedule: seq<Step> := *;
    for i := 0 to |schedule|
      invariant ser.Valid() && old(ser.sent) <= ser.sent
    {
      match schedule[i] {
        case Kernel(nbytes) => KernelStep(ser, nbytes);
        case Handle => HandlerStep(ser);
        case _ =>
      }
    }
  }

  /**
   * Chunks are queued one after the other while the I/O thread and the kernel
   * run in any order and the socket takes any number of bytes at a time.  What
   * has been sent is always a prefix of what was to be sent; it is complete once
   * the socket has been shut down; and no run gets stuck before that.
   */
  method RunTransport(wbufSize: nat, chunks: seq<seq<byte>>, schedule: seq<Step>)
    returns (sent: seq<byte>, done: bool, stuck: bool)
    requires wbufSize >= 1 && chunks != [] && forall k :: 0 <= k < |chunks| ==> chunks[k] != []
    ensures sent <= Flatten(chunks)
    ensures done ==> sent == Flatten(chunks)
    ensures stuck ==> done
  {
    hide Serializer.Valid, Flatten, Offered;
    var ser := new Serializer(wbufSize);
    var next := 0;
    assert Flatten(chunks[..0]) == [] by { assert chunks[..0] == []; EmptyFlatten(); }
    for i := 0 to |schedule|
      invariant fresh(ser) && ser.Valid() && 0 <= next <= |chunks| && ser.chunkBuf == []
      invariant ser.produced == Flatten(chunks[..next]) && ser.finished == (next == |chunks|)
    {
      match schedule[i] {
        case Produce =>
          if next < |chunks| && !ser.signalDue {
            FlattenAppend(chunks[..next], chunks[next]);
            assert chunks[..next + 1] == chunks[..next] + [chunks[next]];
            ser.ChunkRawData(chunks[next]);
            assert [] + chunks[next] == chunks[next];
            ser.PushChunk(next + 1 == |chunks|);
            next := next + 1;
          }
        case Notify =>
          if ser.signalDue {
            ser.Signal();
          }
        case Kernel(nbytes) => KernelStep(ser, nbytes);
        case Handle => HandlerStep(ser);
      }
    }
    sent, done := ser.sent, ser.submitted == ShutdownDone;
    stuck := next == |chunks| && !ser.signalDue && !(ser.submitted == EventfdRead && ser.eventfd > 0)
      && !ser.submitted.EventfdReadDone? && !ser.submitted.Write? && !ser.submitted.WriteDone?
          && ser.submitted != Shutdown;
    ser.SentPrefix();
    FlattenPrefix(chunks, next);
    if done {
      ser.ShutdownAfterAllSent();
      assert chunks[..next] == chunks;
    }
    if stuck {
      ser.QuiescentIsDone();
    }
  }

  lemma EmptyFlatten()
    ensures Flatten([]) == []
  {}

  lemma {:induction false} FlattenPrefix(a: seq<seq<byte>>, n: nat)
    requires n <= |a|
    ensures Flatten(a[..n]) <= Flatten(a)
    decreases n
  {
    if n > 0 {
      assert a[..n][1..] == a[1..][..n - 1];
      FlattenPrefix(a[1..], n - 1);
    }
  }

  /**
   * Once the producer is done, the I/O thread and the kernel finish by
   * themselves, however little the socket takes at a time.
   */
  method Drain(ser: Serializer)
    requires ser.Valid() && ser.finished && !ser.signalDue
    modifies ser
    ensures ser.Valid() && ser.submitted == ShutdownDone && ser.produced == old(ser.produced)
            && ser.sent == ser.produced
  {
    hide Serializer.Valid, Offered;
    ser.SentPrefix();
    while ser.submitted != ShutdownDone
      invariant ser.Valid() && ser.finished && !ser.signalDue && ser.produced == old(ser.produced)
                && ser.sent <= ser.produced
      decreases |ser.produced| - |ser.sent|, |ser.datQ|, ser.Stage()
    {
      ser.SubmittedFacts();
      match ser.submitted {
        case EventfdRead => ser.EventfdReadable();
        case EventfdReadDone(_) => ser.HandleNewDataEventfd();
        case Write(numVecs) =>
          var nbytes: nat :| 0 < nbytes <= Offered(ser.wbufsViews, numVecs);
          ser.SocketAccepts(nbytes);
        case WriteDone(_) => ser.HandleWriteDone();
        case Shutdown => ser.ShutdownCompletes();
      }
      ser.SentPrefix();
    }
    ser.ShutdownAfterAllSent();
  }
}
