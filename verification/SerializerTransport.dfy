/**
 * Handing chunks from the event source to the socket
 * (src/socket_interface/serialization.cpp): the producer thread queues chunks
 * and signals an eventfd, the I/O thread collects them and writes them out.
 * The two threads and the kernel interleave at the steps modelled here.
 */
module SerializerTransport {
  import opened Bytes

  datatype QElem = QElem(isLast: bool, data: seq<byte>)

  /** What is left to write of one buffer. */
  datatype IoVec = IoVec(base: nat, len: nat)

  /** The operation the I/O thread has submitted for its writing side, or its completion. */
  datatype Submission =
    | EventfdRead
    | EventfdReadDone(newDat: nat)
    | Write(numVecs: nat)
    | WriteDone(nbytes: nat)
    | Shutdown
    | ShutdownDone

  function Flatten(bufs: seq<seq<byte>>): seq<byte> {
    if bufs == [] then [] else bufs[0] + Flatten(bufs[1..])
  }

  function Queued(q: seq<QElem>): seq<byte> {
    if q == [] then [] else q[0].data + Queued(q[1..])
  }

  lemma {:induction false} QueuedAppend(q: seq<QElem>, x: QElem)
    ensures Queued(q + [x]) == Queued(q) + x.data
  {
    if q == [] {
      assert [x][1..] == [];
    } else {
      assert (q + [x])[1..] == q[1..] + [x];
      QueuedAppend(q[1..], x);
      assert q[0].data + (Queued(q[1..]) + x.data) == q[0].data + Queued(q[1..]) + x.data;
    }
  }

  /** Every view is the non-empty rest of its buffer. */
  ghost predicate Fit(bufs: seq<seq<byte>>, views: seq<IoVec>) {
    |bufs| == |views| && forall k :: 0 <= k < |views| ==> views[k].len > 0 && views[k].base + views[k].len == |bufs[k]|
  }

  /** The bytes that the views cover. */
  ghost function Unwritten(bufs: seq<seq<byte>>, views: seq<IoVec>): seq<byte>
    requires Fit(bufs, views)
    decreases |views|
  {
    if views == [] then [] else bufs[0][views[0].base..] + Unwritten(bufs[1..], views[1..])
  }

  lemma {:induction false} UnwrittenAppend(bufs: seq<seq<byte>>, views: seq<IoVec>, data: seq<byte>)
    requires Fit(bufs, views) && data != []
    ensures Fit(bufs + [data], views + [IoVec(0, |data|)])
    ensures Unwritten(bufs + [data], views + [IoVec(0, |data|)]) == Unwritten(bufs, views) + data
    decreases |views|
  {
    var bufs', views' := bufs + [data], views + [IoVec(0, |data|)];
    if views == [] {
      assert bufs'[1..] == [] && views'[1..] == [];
    } else {
      assert bufs'[1..] == bufs[1..] + [data] && views'[1..] == views[1..] + [IoVec(0, |data|)];
      UnwrittenAppend(bufs[1..], views[1..], data);
      var first := bufs[0][views[0].base..];
      assert first + (Unwritten(bufs[1..], views[1..]) + data) == first + Unwritten(bufs[1..], views[1..]) + data;
    }
  }

  /** How many bytes the first `n` views cover. */
  function Offered(views: seq<IoVec>, n: nat): nat
    requires n <= |views|
    decreases n
  {
    if n == 0 then 0 else views[0].len + Offered(views[1..], n - 1)
  }

  lemma {:induction false} OfferedBound(bufs: seq<seq<byte>>, views: seq<IoVec>, n: nat)
    requires Fit(bufs, views) && n <= |views|
    ensures Offered(views, n) <= |Unwritten(bufs, views)|
    ensures n > 0 ==> Offered(views, n) > 0
    decreases n
  {
    if n > 0 {
      OfferedBound(bufs[1..], views[1..], n - 1);
    }
  }

  /** Only the last queued chunk can be the final one. */
  ghost predicate LastOk(q: seq<QElem>, noMoreData: bool, finished: bool) {
    && (forall k :: 0 <= k < |q| ==> (q[k].isLast <==> finished && k == |q| - 1))
    && (forall k :: 0 <= k < |q| ==> q[k].data != [])
    && (noMoreData ==> finished && q == [])
    && (finished && !noMoreData ==> q != [])
  }

  lemma LastOkPush(q: seq<QElem>, noMoreData: bool, x: QElem)
    requires LastOk(q, noMoreData, false) && x.data != []
    ensures LastOk(q + [x], noMoreData, x.isLast) && !noMoreData
  {}

  /** Collecting the first `n` chunks. */
  lemma {:induction false} LastOkPop(q: seq<QElem>, finished: bool)
    requires LastOk(q, false, finished) && q != []
    ensures LastOk(q[1..], q[0].isLast, finished)
    ensures q[0].isLast ==> |q| == 1
  {}

  lemma FrontOk(q: seq<QElem>, noMoreData: bool, finished: bool)
    requires LastOk(q, noMoreData, finished) && q != []
    ensures !noMoreData && q[0].data != []
  {}

  /** A write of `n` bytes removes them from the front. */
  lemma AfterWrite(sent: seq<byte>, rest: seq<byte>, n: nat)
    requires n <= |rest|
    ensures sent + rest[..n] + rest[n..] == sent + rest
  {}

  class Serializer {
    const minBufSize: nat
    /** Shared between the threads, and the eventfd's counter. */
    var datQ: seq<QElem>
    var eventfd: nat
    /** Owned by the I/O thread. */
    var newEventSum: nat
    var wbufs: seq<seq<byte>>
    var wbufsViews: seq<IoVec>
    var writePending: bool
    var noMoreData: bool
    /**
     * Owned by the producer: the chunk being built, a signal that is due, and whether the last
     * chunk has been queued.
     */
    var chunkBuf: seq<byte>
    var signalDue: bool
    var finished: bool
    /** The kernel's side: the submitted operation, and what the socket has taken. */
    var submitted: Submission
    /** The operations of the writing side that are outstanding or whose completion has not been handled. */
    var ring: multiset<Submission>
    var sent: seq<byte>
    /** All bytes ever queued. */
    ghost var produced: seq<byte>

    ghost predicate Conserved(skip: nat)
      reads this`wbufs, this`wbufsViews, this`datQ, this`sent, this`produced
    {
      && Fit(wbufs, wbufsViews) && skip <= |Unwritten(wbufs, wbufsViews)|
      && sent + Unwritten(wbufs, wbufsViews)[skip..] + Queued(datQ) == produced
    }

    /** Every queued chunk has a signal that has been, or is about to be, given. */
    ghost predicate Signalled(taken: nat)
      reads this`datQ, this`eventfd, this`signalDue
    {
      |datQ| == eventfd + taken + if signalDue then 1 else 0
    }

    ghost predicate Valid()
      reads this
    {
      && 1 <= minBufSize <= 1024 && newEventSum == 0 && ring == multiset{submitted}
      && LastOk(datQ, noMoreData, finished)
      && Conserved(if submitted.WriteDone? then submitted.nbytes else 0)
      && Signalled(if submitted.EventfdReadDone? then submitted.newDat else 0)
      && writePending == (submitted.Write? || submitted.WriteDone?)
      && match submitted
         case EventfdRead => !noMoreData && |wbufsViews| < minBufSize
         case EventfdReadDone(newDat) => !noMoreData && |wbufsViews| < minBufSize && newDat > 0
         case Write(numVecs) => numVecs == (if |wbufsViews| <= 1024 then |wbufsViews| else 1024) && numVecs > 0
         case WriteDone(nbytes) => nbytes > 0
         case Shutdown => noMoreData && wbufsViews == []
         case ShutdownDone => noMoreData && wbufsViews == []
    }

    constructor (wbufSize: nat)
      requires wbufSize >= 1
      ensures Valid() && produced == [] && sent == [] && !finished && !signalDue && chunkBuf == []
      ensures submitted == EventfdRead
    {
      minBufSize := if wbufSize <= 1024 then wbufSize else 1024;
      datQ, eventfd, newEventSum, wbufs, wbufsViews, writePending, noMoreData := [], 0, 0, [], [], false, false;
      chunkBuf, signalDue, finished, submitted, sent, produced := [], false, false, EventfdRead, [], [];
      ring := multiset{EventfdRead};
    }

    /** The stage of the current operation: it goes down unless bytes are sent or chunks are collected. */
    ghost function Stage(): nat
      reads this`submitted
    {
      match submitted
      case WriteDone(_) => 5
      case EventfdRead => 4
      case EventfdReadDone(_) => 3
      case Write(_) => 2
      case Shutdown => 1
      case ShutdownDone => 0
    }

    // ----- the producer -----

    method ChunkRawData(data: seq<byte>)
      requires Valid()
      modifies this`chunkBuf
      ensures Valid() && chunkBuf == old(chunkBuf) + data
    {
      chunkBuf := chunkBuf + data;
    }

    /** `write_chunk_to_queue` up to the signal. */
    method PushChunk(isLast: bool)
      requires Valid() && !finished && !signalDue && chunkBuf != []
      modifies this`datQ, this`chunkBuf, this`signalDue, this`finished, this`produced
      ensures Valid() && signalDue && finished == isLast && chunkBuf == []
      ensures produced == old(produced) + old(chunkBuf)
    {
      hide LastOk, Fit, Unwritten, Queued;
      LastOkPush(datQ, noMoreData, QElem(isLast, chunkBuf));
      QueuedAppend(datQ, QElem(isLast, chunkBuf));
      datQ := datQ + [QElem(isLast, chunkBuf)];
      produced := produced + chunkBuf;
      chunkBuf, signalDue, finished := [], true, isLast;
    }

    /** The `eventfd_write` at its end. */
    method Signal()
      requires Valid() && signalDue
      modifies this`eventfd, this`signalDue
      ensures Valid() && !signalDue
    {
      eventfd := eventfd + 1;
      signalDue := false;
    }

    // ----- the I/O thread -----

    method ReadChunksFromQueue(nchunks: nat)
      requires LastOk(datQ, noMoreData, finished) && Conserved(0) && nchunks <= |datQ|
      modifies this`datQ, this`wbufs, this`wbufsViews, this`noMoreData
      ensures LastOk(datQ, noMoreData, finished) && Conserved(0)
      ensures |datQ| == |old(datQ)| - nchunks && |wbufsViews| == |old(wbufsViews)| + nchunks
    {
      hide LastOk, Conserved;
      var left: nat := nchunks;
      while left > 0
        invariant LastOk(datQ, noMoreData, finished) && Conserved(0)
        invariant |datQ| == |old(datQ)| - nchunks + left && |wbufsViews| == |old(wbufsViews)| + nchunks - left
                  && left <= |datQ|
      {
        TakeChunk();
        left := left - 1;
      }
    }

    method TakeChunk()
      requires LastOk(datQ, noMoreData, finished) && Conserved(0) && datQ != []
      modifies this`datQ, this`wbufs, this`wbufsViews, this`noMoreData
      ensures LastOk(datQ, noMoreData, finished) && Conserved(0)
      ensures |datQ| == |old(datQ)| - 1 && |wbufsViews| == |old(wbufsViews)| + 1
    {
      var front := datQ[0];
      FrontOk(datQ, noMoreData, finished);
      hide Fit, Unwritten, LastOk;
      LastOkPop(datQ, finished);
      UnwrittenAppend(wbufs, wbufsViews, front.data);
      Associate(sent + Unwritten(wbufs, wbufsViews), front.data, Queued(datQ[1..]));
      Associate(sent, Unwritten(wbufs, wbufsViews), front.data);
      if front.isLast {
        noMoreData := true;
        assert |datQ| == 1;
      }
      wbufs := wbufs + [front.data];
      wbufsViews := wbufsViews + [IoVec(0, |front.data|)];
      datQ := datQ[1..];
    }

    /** Between a completion and the next submission. */
    ghost predicate Idle()
      reads this
    {
      && 1 <= minBufSize <= 1024 && LastOk(datQ, noMoreData, finished)
      && Conserved(0) && Signalled(newEventSum) && !writePending && ring == multiset{}
    }

    /** An operation is added to the outstanding ones, of which there are none. */
    method Submit(op: Submission)
      requires ring == multiset{}
      modifies this`submitted, this`ring
      ensures submitted == op && ring == multiset{op}
    {
      submitted, ring := op, ring + multiset{op};
    }

    /** The kernel replaces the outstanding operation by its completion. */
    method Complete(done: Submission)
      requires ring == multiset{submitted}
      modifies this`submitted, this`ring
      ensures submitted == done && ring == multiset{done}
    {
      submitted, ring := done, ring - multiset{submitted} + multiset{done};
    }

    method MaybeSubmitCppmonWrite()
      requires Idle()
      modifies this`datQ, this`wbufs, this`wbufsViews, this`noMoreData, this`newEventSum, this`submitted, this`ring,
          this`writePending
      ensures Valid() && submitted in {EventfdRead, Shutdown} + set n | 0 < n <= 1024 :: Write(n)
      ensures |datQ| == |old(datQ)| - old(newEventSum)
    {
      hide LastOk, Conserved;
      ReadChunksFromQueue(newEventSum);
      newEventSum := 0;
      if noMoreData && wbufs == [] {
        NothingLeft();
        Submit(Shutdown);
        return;
      }
      SameLength();
      var numVecs := if |wbufsViews| <= 1024 then |wbufsViews| else 1024;
      if !noMoreData && numVecs < minBufSize {
        Submit(EventfdRead);
        return;
      }
      Submit(Write(numVecs));
      writePending := true;
    }

    lemma SameLength()
      requires Conserved(0)
      ensures |wbufs| == |wbufsViews|
    {}

    lemma NothingLeft()
      requires Conserved(0) && wbufs == []
      ensures wbufsViews == []
    {}

    method HandleNewDataEventfd()
      requires Valid() && submitted.EventfdReadDone?
      modifies this`datQ, this`wbufs, this`wbufsViews, this`noMoreData, this`newEventSum, this`submitted, this`ring,
          this`writePending
      ensures Valid() && |datQ| < |old(datQ)|
    {
      hide LastOk, Conserved;
      assert !noMoreData;
      ring := ring - multiset{submitted};
      newEventSum := newEventSum + submitted.newDat;
      if !writePending {
        MaybeSubmitCppmonWrite();
      }
    }

    /** The loop of `handle_write_done`: whole buffers are dropped, and the view of a partly written one is advanced. */
    method DropWritten(nbytes: nat)
      requires Fit(wbufs, wbufsViews) && nbytes <= |Unwritten(wbufs, wbufsViews)|
      modifies this`wbufs, this`wbufsViews
      ensures Fit(wbufs, wbufsViews) && Unwritten(wbufs, wbufsViews) == old(Unwritten(wbufs, wbufsViews))[nbytes..]
    {
      var prefixSum := 0;
      ghost var target := Unwritten(wbufs, wbufsViews)[nbytes..];
      while wbufs != []
        invariant Fit(wbufs, wbufsViews) && prefixSum <= nbytes && nbytes - prefixSum <= |Unwritten(wbufs, wbufsViews)|
        invariant Unwritten(wbufs, wbufsViews)[nbytes - prefixSum..] == target
        decreases |wbufs|
      {
        hide Unwritten;
        var iov := wbufsViews[0];
        prefixSum := prefixSum + iov.len;
        if prefixSum > nbytes {
          var nbMissing := prefixSum - nbytes;
          assert nbMissing <= iov.len;
          var nbDone := iov.len - nbMissing;
          AdvanceFirst(wbufs, wbufsViews, nbDone);
          wbufsViews := wbufsViews[0 := IoVec(iov.base + nbDone, iov.len - nbDone)];
          return;
        }
        DropFirst(wbufs, wbufsViews, nbytes - (prefixSum - iov.len));
        wbufs, wbufsViews := wbufs[1..], wbufsViews[1..];
      }
    }

    method HandleWriteDone()
      requires Valid() && submitted.WriteDone?
      modifies this`datQ, this`wbufs, this`wbufsViews, this`noMoreData, this`newEventSum, this`submitted, this`ring,
          this`writePending
      ensures Valid() && submitted in {EventfdRead, Shutdown} + set n | 0 < n <= 1024 :: Write(n)
      ensures |datQ| == |old(datQ)|
    {
      hide LastOk, Unwritten, Queued, Fit;
      var nbytes := submitted.nbytes;
      ring := ring - multiset{submitted};
      writePending := false;
      DropWritten(nbytes);
      assert Conserved(0);
      MaybeSubmitCppmonWrite();
    }

    // ----- completions -----

    /** The kernel reads the eventfd's counter, which resets it, once it is positive. */
    method EventfdReadable()
      requires Valid() && submitted == EventfdRead && eventfd > 0
      modifies this`eventfd, this`submitted, this`ring
      ensures Valid() && submitted.EventfdReadDone?
    {
      Complete(EventfdReadDone(eventfd));
      eventfd := 0;
    }

    /** The socket takes any non-empty prefix of what a write offers. */
    method SocketAccepts(nbytes: nat)
      requires Valid() && submitted.Write? && submitted.numVecs <= |wbufsViews|
               && 0 < nbytes <= Offered(wbufsViews, submitted.numVecs)
      modifies this`submitted, this`ring, this`sent
      ensures Valid() && submitted == WriteDone(nbytes) && |sent| == |old(sent)| + nbytes && old(sent) <= sent
    {
      hide LastOk, Fit, Unwritten, Offered, Queued;
      OfferedBound(wbufs, wbufsViews, submitted.numVecs);
      ghost var rest := Unwritten(wbufs, wbufsViews);
      var accepted := Accepted(wbufs, wbufsViews, nbytes);
      AfterWrite(sent, rest, nbytes);
      assert rest[0..] == rest;
      sent := sent + accepted;
      Complete(WriteDone(nbytes));
    }

    method ShutdownCompletes()
      requires Valid() && submitted == Shutdown
      modifies this`submitted, this`ring
      ensures Valid() && submitted == ShutdownDone
    {
      Complete(ShutdownDone);
    }

    // ----- what the invariant means -----

    /** There is one outstanding operation at all times; until the end it is a read, a write or the shutdown. */
    lemma OneOutstanding()
      requires Valid()
      ensures |ring| == 1 && forall op | op in ring :: op == submitted
    {}

    /** Write-shutdown is submitted only when everything, including the last chunk, has been sent. */
    lemma ShutdownAfterAllSent()
      requires Valid() && (submitted == Shutdown || submitted == ShutdownDone)
      ensures finished && datQ == [] && !signalDue && eventfd == 0 && sent == produced
    {}

    /**
     * No wakeup is lost: with nothing left for the producer to do, the only state without a next
     * step is the final one.
     */
    lemma QuiescentIsDone()
      requires Valid() && finished && !signalDue
      requires !(submitted == EventfdRead && eventfd > 0)
      requires !submitted.EventfdReadDone? && !submitted.Write? && !submitted.WriteDone? && submitted != Shutdown
      ensures submitted == ShutdownDone && sent == produced
    {
      ghost var waiting := submitted == EventfdRead;
      assert waiting ==> |datQ| == 0;
      assert !waiting;
    }

    /**
     * A write always offers something, and an I/O thread that waits for a producer that is done has
     * a signal to read.
     */
    lemma SubmittedFacts()
      requires Valid()
      ensures submitted.Write? ==> submitted.numVecs <= |wbufsViews| && Offered(wbufsViews, submitted.numVecs) > 0
      ensures submitted == EventfdRead && finished && !signalDue ==> eventfd > 0
    {
      if submitted.Write? {
        OfferedBound(wbufs, wbufsViews, submitted.numVecs);
      }
      assert submitted == EventfdRead && finished ==> |datQ| > 0;
    }

    /** At all times, what has been sent is a prefix of what has been queued. */
    lemma SentPrefix()
      requires Valid()
      ensures sent <= produced
    {}
  }

  lemma AdvanceFirst(bufs: seq<seq<byte>>, views: seq<IoVec>, n: nat)
    requires Fit(bufs, views) && views != [] && n < views[0].len
    ensures var views' := views[0 := IoVec(views[0].base + n, views[0].len - n)];
            Fit(bufs, views') && n <= |Unwritten(bufs, views)| && Unwritten(bufs, views') == Unwritten(bufs, views)[n..]
  {
    var views' := views[0 := IoVec(views[0].base + n, views[0].len - n)];
    assert views'[1..] == views[1..];
    assert bufs[0][views[0].base..][n..] == bufs[0][views[0].base + n..];
  }

  lemma DropFirst(bufs: seq<seq<byte>>, views: seq<IoVec>, n: nat)
    requires Fit(bufs, views) && views != [] && views[0].len <= n <= |Unwritten(bufs, views)|
    ensures Fit(bufs[1..], views[1..]) && n - views[0].len <= |Unwritten(bufs[1..], views[1..])|
    ensures Unwritten(bufs[1..], views[1..])[n - views[0].len..] == Unwritten(bufs, views)[n..]
  {}

  /** The bytes a partial write takes from the views, one view after the other. */
  method Accepted(bufs: seq<seq<byte>>, views: seq<IoVec>, nbytes: nat) returns (data: seq<byte>)
    requires Fit(bufs, views) && nbytes <= |Unwritten(bufs, views)|
    ensures data == Unwritten(bufs, views)[..nbytes]
    decreases |views|
  {
    if nbytes == 0 {
      data := [];
    } else {
      var first := bufs[0][views[0].base..];
      if nbytes <= |first| {
        data := first[..nbytes];
      } else {
        data := Accepted(bufs[1..], views[1..], nbytes - |first|);
        data := first + data;
      }
    }
  }
}
