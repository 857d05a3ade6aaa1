/**
 * The event source's framing (src/socket_interface/socket_event_source.cpp)
 * over the serializer, and the whole pipeline: what the monitor's side decodes
 * is what was logged, whatever way the bytes travelled.
 */
module EventPipeline {
  import opened Wrappers
  import opened Bytes
  import opened Replies
  import opened Wire
  import opened SerializerTransport
  import opened SerializerRuns
  import opened DatabaseReader

  datatype Item = DbItem(db: TsDb) | MarkerItem(lm: int)

  function ItemBytes(x: Item): seq<byte> {
    match x
    case DbItem(db) => DbBytes(db)
    case MarkerItem(lm) => Int32Bytes(CTRL_LATENCY_MARKER) + Int64Bytes(lm)
  }

  function ItemsBytes(xs: seq<Item>): seq<byte> {
    if xs == [] then [] else ItemBytes(xs[0]) + ItemsBytes(xs[1..])
  }

  lemma {:induction false} ItemsBytesConcat(xs: seq<Item>, ys: seq<Item>)
    ensures ItemsBytes(xs + ys) == ItemsBytes(xs) + ItemsBytes(ys)
  {
    hide ItemBytes;
    if xs == [] {
      assert xs + ys == ys && [] + ItemsBytes(ys) == ItemsBytes(ys);
    } else {
      assert (xs + ys)[1..] == xs[1..] + ys;
      ItemsBytesConcat(xs[1..], ys);
      Associate(ItemBytes(xs[0]), ItemsBytes(xs[1..]), ItemsBytes(ys));
    }
  }

  // ----- what is logged -----

  /** With latency tracking, a marker precedes every hundredth database. */
  predicate MarkerDue(track: bool, k: nat) {
    track && k > 0 && k % 100 == 0
  }

  /** What database number `k`, begun at time `clock`, adds to the stream. */
  function Frame(track: bool, k: nat, db: TsDb, clock: int): seq<Item> {
    (if MarkerDue(track, k) then [MarkerItem(clock)] else []) + [DbItem(db)]
  }

  function Frames(track: bool, dbs: seq<TsDb>, clocks: seq<int>): seq<Item>
    requires |clocks| == |dbs|
    decreases |dbs|
  {
    if dbs == [] then [] else
      var n := |dbs| - 1;
      Frames(track, dbs[..n], clocks[..n]) + Frame(track, n, dbs[n], clocks[n])
  }

  /** The markers among the items, in order. */
  function Markers(xs: seq<Item>): seq<int> {
    if xs == [] then [] else (if xs[0].MarkerItem? then [xs[0].lm] else []) + Markers(xs[1..])
  }

  function Databases(xs: seq<Item>): seq<TsDb> {
    if xs == [] then [] else (if xs[0].DbItem? then [xs[0].db] else []) + Databases(xs[1..])
  }

  lemma {:induction false} DatabasesConcat(xs: seq<Item>, ys: seq<Item>)
    ensures Databases(xs + ys) == Databases(xs) + Databases(ys)
    ensures Markers(xs + ys) == Markers(xs) + Markers(ys)
  {
    if xs == [] {
      assert xs + ys == ys && [] + Databases(ys) == Databases(ys) && [] + Markers(ys) == Markers(ys);
    } else {
      assert (xs + ys)[1..] == xs[1..] + ys;
      DatabasesConcat(xs[1..], ys);
      var d, m := if xs[0].DbItem? then [xs[0].db] else [], if xs[0].MarkerItem? then [xs[0].lm] else [];
      assert d + (Databases(xs[1..]) + Databases(ys)) == d + Databases(xs[1..]) + Databases(ys);
      assert m + (Markers(xs[1..]) + Markers(ys)) == m + Markers(xs[1..]) + Markers(ys);
    }
  }

  /** The databases of the frames are those that were logged. */
  lemma {:induction false} FramesHoldDatabases(track: bool, dbs: seq<TsDb>, clocks: seq<int>)
    requires |clocks| == |dbs|
    ensures Databases(Frames(track, dbs, clocks)) == dbs
    decreases |dbs|
  {
    if dbs != [] {
      var n := |dbs| - 1;
      FramesHoldDatabases(track, dbs[..n], clocks[..n]);
      DatabasesConcat(Frames(track, dbs[..n], clocks[..n]), Frame(track, n, dbs[n], clocks[n]));
      FrameDatabase(track, n, dbs[n], clocks[n]);
      assert dbs == dbs[..n] + [dbs[n]];
    }
  }

  lemma FrameDatabase(track: bool, k: nat, db: TsDb, clock: int)
    ensures Databases(Frame(track, k, db, clock)) == [db]
    ensures Markers(Frame(track, k, db, clock)) == if MarkerDue(track, k) then [clock] else []
  {
    assert Databases([DbItem(db)]) == [db] && Markers([DbItem(db)]) == [] by { assert [DbItem(db)][1..] == []; }
    if MarkerDue(track, k) {
      assert Frame(track, k, db, clock)[1..] == [DbItem(db)];
    } else {
      assert Frame(track, k, db, clock) == [DbItem(db)];
    }
  }

  // ----- the event source -----

  lemma {:induction false} EventsBytesAppend(es: seq<Event>, e: Event)
    ensures EventsBytes(es + [e]) == EventsBytes(es) + EventBytes(e)
  {
    hide EventBytes;
    if es == [] {
      assert [e][1..] == [];
    } else {
      assert (es + [e])[1..] == es[1..] + [e];
      EventsBytesAppend(es[1..], e);
      Associate(EventBytes(es[0]), EventsBytes(es[1..]), EventBytes(e));
    }
  }

  /** The stream up to and including the events so far of the last database, which is still open. */
  ghost function OpenBytes(track: bool, dbs: seq<TsDb>, clocks: seq<int>): seq<byte>
    requires |clocks| == |dbs| && dbs != []
  {
    var n := |dbs| - 1;
    ItemsBytes(Frames(track, dbs[..n], clocks[..n]))
    + (if MarkerDue(track, n) then ItemBytes(MarkerItem(clocks[n])) else [])
    + (BeginBytes(dbs[n].ts) + EventsBytes(dbs[n].events))
  }

  lemma ClosedBytes(track: bool, dbs: seq<TsDb>, clocks: seq<int>)
    requires |clocks| == |dbs| && dbs != []
    ensures OpenBytes(track, dbs, clocks) + Int32Bytes(CTRL_END_DATABASE) == ItemsBytes(Frames(track, dbs, clocks))
  {
    hide Int32Bytes, Int64Bytes, EventsBytes, BeginBytes;
    var n := |dbs| - 1;
    var before, end := ItemsBytes(Frames(track, dbs[..n], clocks[..n])), Int32Bytes(CTRL_END_DATABASE);
    var marker := if MarkerDue(track, n) then ItemBytes(MarkerItem(clocks[n])) else [];
    var begin, events := BeginBytes(dbs[n].ts), EventsBytes(dbs[n].events);
    ItemsBytesConcat(Frames(track, dbs[..n], clocks[..n]), Frame(track, n, dbs[n], clocks[n]));
    FrameBytes(track, n, dbs[n], clocks[n]);
    Associate(before + marker, begin + events, end);
    Associate(begin, events, end);
    Associate(before, marker, begin + (events + end));
  }

  lemma FrameBytes(track: bool, k: nat, db: TsDb, clock: int)
    ensures ItemsBytes(Frame(track, k, db, clock))
         == (if MarkerDue(track, k) then ItemBytes(MarkerItem(clock)) else []) + DbBytes(db)
  {
    hide DbBytes;
    assert ItemsBytes([DbItem(db)]) == DbBytes(db) by {
      assert [DbItem(db)][1..] == [] && DbBytes(db) + [] == DbBytes(db);
    }
    if MarkerDue(track, k) {
      assert Frame(track, k, db, clock)[1..] == [DbItem(db)];
    } else {
      assert Frame(track, k, db, clock) == [DbItem(db)] && [] + DbBytes(db) == DbBytes(db);
    }
  }

  /** All bytes given to the serializer. */
  ghost function Written(serial: Serializer): seq<byte>
    reads serial
  {
    serial.produced + serial.chunkBuf
  }

  /** The serializer accepts more. */
  ghost predicate Open(serial: Serializer)
    reads serial
  {
    serial.Valid() && !serial.signalDue && !serial.finished
  }

  // ----- the serializer's encoders -----

  method ChunkRaw(serial: Serializer, data: seq<byte>)
    requires Open(serial)
    modifies serial`chunkBuf
    ensures Open(serial) && Written(serial) == old(Written(serial)) + data
            && serial.chunkBuf == old(serial.chunkBuf) + data
  {
    hide Serializer.Valid;
    Associate(serial.produced, serial.chunkBuf, data);
    serial.ChunkRawData(data);
  }

  /** `write_chunk_to_queue`; the I/O thread may run before and after the signal. */
  method WriteChunkToQueue(serial: Serializer, isLast: bool)
    requires Open(serial) && serial.chunkBuf != []
    modifies serial
    ensures serial.Valid() && !serial.signalDue && serial.finished == isLast && serial.chunkBuf == []
    ensures Written(serial) == old(Written(serial))
  {
    hide Serializer.Valid;
    serial.PushChunk(isLast);
    OthersRun(serial);
    serial.Signal();
    OthersRun(serial);
    assert serial.produced + [] == serial.produced;
  }

  method ChunkEndDb(serial: Serializer)
    requires Open(serial)
    modifies serial
    ensures Open(serial) && serial.chunkBuf == [] && Written(serial)
            == old(Written(serial)) + Int32Bytes(CTRL_END_DATABASE)
  {
    hide Serializer.Valid, Int32Bytes;
    ChunkRaw(serial, Int32Bytes(CTRL_END_DATABASE));
    WriteChunkToQueue(serial, false);
  }

  method ChunkLatencyMarker(serial: Serializer, now: int)
    requires Open(serial)
    modifies serial
    ensures Open(serial) && serial.chunkBuf == [] && Written(serial)
            == old(Written(serial)) + ItemBytes(MarkerItem(now))
  {
    hide Serializer.Valid, Int32Bytes, Int64Bytes;
    Associate(Written(serial), Int32Bytes(CTRL_LATENCY_MARKER), Int64Bytes(now));
    ChunkRaw(serial, Int32Bytes(CTRL_LATENCY_MARKER));
    ChunkRaw(serial, Int64Bytes(now));
    WriteChunkToQueue(serial, false);
  }

  method ChunkBeginDb(serial: Serializer, ts: nat)
    requires Open(serial)
    modifies serial`chunkBuf
    ensures Open(serial) && serial.chunkBuf != [] && Written(serial) == old(Written(serial)) + BeginBytes(ts)
  {
    hide Serializer.Valid, Int32Bytes, Int64Bytes;
    Associate(Written(serial), Int32Bytes(CTRL_NEW_DATABASE), Int64Bytes(SizeToInt64(ts)));
    ChunkRaw(serial, Int32Bytes(CTRL_NEW_DATABASE));
    ChunkRaw(serial, Int64Bytes(SizeToInt64(ts)));
  }

  method ChunkString(serial: Serializer, str: seq<byte>)
    requires Open(serial)
    modifies serial`chunkBuf
    ensures Open(serial) && Written(serial) == old(Written(serial)) + StringBytes(str)
            && |serial.chunkBuf| >= |old(serial.chunkBuf)|
  {
    hide Serializer.Valid, Int32Bytes;
    Associate(Written(serial), Int32Bytes(|str|), str);
    ChunkRaw(serial, Int32Bytes(|str|));
    ChunkRaw(serial, str);
  }

  method ChunkEventData(serial: Serializer, data: EventData)
    requires Open(serial)
    modifies serial`chunkBuf
    ensures Open(serial) && Written(serial) == old(Written(serial)) + DataBytes(data)
            && |serial.chunkBuf| >= |old(serial.chunkBuf)|
  {
    hide Serializer.Valid, Int32Bytes, Int64Bytes, StringBytes, Written;
    ghost var before := Written(serial);
    match data {
      case IntData(i) =>
        Associate(before, Int32Bytes(TY_INT), Int64Bytes(i));
        ChunkRaw(serial, Int32Bytes(TY_INT));
        ChunkRaw(serial, Int64Bytes(i));
      case FloatData(bits) =>
        Associate(before, Int32Bytes(TY_FLOAT), bits);
        ChunkRaw(serial, Int32Bytes(TY_FLOAT));
        ChunkRaw(serial, bits);
      case StringData(str) =>
        Associate(before, Int32Bytes(TY_STRING), StringBytes(str));
        ChunkRaw(serial, Int32Bytes(TY_STRING));
        ChunkString(serial, str);
    }
  }

  lemma {:induction false} ArgsBytesAppend(args: seq<EventData>, d: EventData)
    ensures ArgsBytes(args + [d]) == ArgsBytes(args) + DataBytes(d)
  {
    hide DataBytes;
    if args == [] {
      assert [d][1..] == [];
    } else {
      assert (args + [d])[1..] == args[1..] + [d];
      ArgsBytesAppend(args[1..], d);
      Associate(DataBytes(args[0]), ArgsBytes(args[1..]), DataBytes(d));
    }
  }

  /** The loop of `chunk_event`. */
  method ChunkArgs(serial: Serializer, args: seq<EventData>)
    requires Open(serial)
    modifies serial`chunkBuf
    ensures Open(serial) && Written(serial) == old(Written(serial)) + ArgsBytes(args)
            && |serial.chunkBuf| >= |old(serial.chunkBuf)|
  {
    hide Serializer.Valid, DataBytes, ArgsBytes, Written;
    ghost var before := Written(serial);
    NoArgs();
    assert before + [] == before;
    assert args[..0] == [];
    for i := 0 to |args|
      invariant Open(serial) && Written(serial) == before + ArgsBytes(args[..i])
                && |serial.chunkBuf| >= |old(serial.chunkBuf)|
    {
      ChunkEventData(serial, args[i]);
      assert args[..i + 1] == args[..i] + [args[i]];
      ArgsBytesAppend(args[..i], args[i]);
      Associate(before, ArgsBytes(args[..i]), DataBytes(args[i]));
    }
    assert args[..|args|] == args;
  }

  lemma NoArgs()
    ensures ArgsBytes([]) == []
  {}

  method ChunkEvent(serial: Serializer, e: Event)
    requires Open(serial)
    modifies serial`chunkBuf
    ensures Open(serial) && serial.chunkBuf != [] && Written(serial) == old(Written(serial)) + EventBytes(e)
  {
    hide Serializer.Valid, Int32Bytes, StringBytes, ArgsBytes, Written;
    ghost var before := Written(serial);
    ghost var ctrl, name, arity, args := Int32Bytes(CTRL_NEW_EVENT), StringBytes(e.name), Int32Bytes(|e.args|),
        ArgsBytes(e.args);
    ChunkRaw(serial, Int32Bytes(CTRL_NEW_EVENT));
    ChunkString(serial, e.name);
    ChunkRaw(serial, Int32Bytes(|e.args|));
    ChunkArgs(serial, e.args);
    assert before + ctrl + name + arity + args == before + (ctrl + (name + (arity + args)));
  }

  method ChunkTerminate(serial: Serializer)
    requires Open(serial)
    modifies serial
    ensures serial.Valid() && serial.finished && !serial.signalDue && serial.chunkBuf == []
    ensures Written(serial) == old(Written(serial)) + Int32Bytes(CTRL_EOF)
  {
    hide Serializer.Valid, Int32Bytes;
    ChunkRaw(serial, Int32Bytes(CTRL_EOF));
    WriteChunkToQueue(serial, true);
  }

  // ----- the event source -----

  class EventSource {
    const serial: Serializer
    /** `lat_out_` is present. */
    const track: bool
    var atLeastOneDb: bool
    var lastMarker: nat
    /** The databases begun so far, and when; the last one is open. */
    ghost var dbs: seq<TsDb>
    ghost var clocks: seq<int>

    /** The stream so far is that of the databases so far. */
    ghost predicate Framed()
      reads this, serial
    {
      && |clocks| == |dbs| && atLeastOneDb == (dbs != [])
      && lastMarker == (if dbs == [] then 0 else if track then (|dbs| - 1) % 100 else |dbs| - 1)
      && Written(serial) == (if dbs == [] then [] else OpenBytes(track, dbs, clocks))
    }

    ghost predicate Valid()
      reads this, serial
    {
      Open(serial) && Framed()
    }

    constructor (wbufSize: nat, track: bool)
      requires wbufSize >= 1
      ensures Valid() && fresh(serial) && dbs == [] && clocks == [] && this.track == track
    {
      serial := new Serializer(wbufSize);
      this.track := track;
      atLeastOneDb, lastMarker, dbs, clocks := false, 0, [], [];
    }

    /** How many databases have been ended since the last marker. */
    ghost function SinceMarker(): nat
      reads this`dbs
    {
      if dbs == [] then 0 else if track then (|dbs| - 1) % 100 + 1 else |dbs|
    }

    /** The previous database, if there is one, is ended. */
    method EndPrevious()
      requires Valid()
      modifies this`lastMarker, serial
      ensures Open(serial) && lastMarker == SinceMarker()
      ensures Written(serial) == ItemsBytes(Frames(track, dbs, clocks))
    {
      hide Serializer.Valid, OpenBytes, Int32Bytes, Written;
      if atLeastOneDb {
        ClosedBytes(track, dbs, clocks);
        ChunkEndDb(serial);
        lastMarker := lastMarker + 1;
      }
    }

    method MaybeMark(now: int)
      requires Open(serial) && lastMarker == SinceMarker()
      modifies this`lastMarker, serial
      ensures Open(serial) && lastMarker == if track then |dbs| % 100 else |dbs|
      ensures Written(serial) == old(Written(serial))
              + (if MarkerDue(track, |dbs|) then ItemBytes(MarkerItem(now)) else [])
    {
      hide Serializer.Valid, ItemBytes, Written;
      assert Written(serial) + [] == Written(serial);
      if track && lastMarker >= 100 {
        lastMarker := 0;
        ChunkLatencyMarker(serial, now);
      }
    }

    method AddDatabase(timestamp: nat, now: int)
      requires Valid()
      modifies this, serial
      ensures Valid() && dbs == old(dbs) + [TsDb(timestamp, [])] && clocks == old(clocks) + [now]
    {
      hide Serializer.Valid, OpenBytes, BeginBytes, Written, ItemBytes;
      EndPrevious();
      MaybeMark(now);
      ChunkBeginDb(serial, timestamp);
      atLeastOneDb := true;
      OpenedBytes(track, dbs, clocks, timestamp, now);
      dbs, clocks := dbs + [TsDb(timestamp, [])], clocks + [now];
    }

    method AddEvent(e: Event)
      requires Valid() && dbs != []
      modifies this`dbs, serial`chunkBuf
      ensures Valid() && dbs == WithEvent(old(dbs), e)
    {
      hide Serializer.Valid, OpenBytes, EventBytes, Written;
      MoreBytes(track, dbs, clocks, e);
      ChunkEvent(serial, e);
      dbs := WithEvent(dbs, e);
    }

    method Terminate()
      requires Valid()
      modifies serial
      ensures serial.Valid() && serial.finished && !serial.signalDue && serial.chunkBuf == []
      ensures serial.produced == ItemsBytes(Frames(track, dbs, clocks)) + Int32Bytes(CTRL_EOF)
    {
      hide Serializer.Valid, OpenBytes, Int32Bytes;
      if atLeastOneDb {
        ClosedBytes(track, dbs, clocks);
        ChunkEndDb(serial);
      }
      ChunkTerminate(serial);
      assert serial.produced + [] == serial.produced;
    }
  }

  /** The open database with one more event. */
  ghost function WithEvent(dbs: seq<TsDb>, e: Event): (r: seq<TsDb>)
    requires dbs != []
  {
    var d := dbs[|dbs| - 1];
    dbs[..|dbs| - 1] + [TsDb(d.ts, d.events + [e])]
  }

  lemma MoreBytes(track: bool, dbs: seq<TsDb>, clocks: seq<int>, e: Event)
    requires |clocks| == |dbs| && dbs != []
    ensures OpenBytes(track, WithEvent(dbs, e), clocks) == OpenBytes(track, dbs, clocks) + EventBytes(e)
  {
    hide EventBytes, EventsBytes, BeginBytes, ItemBytes;
    var n := |dbs| - 1;
    assert WithEvent(dbs, e)[..n] == dbs[..n];
    EventsBytesAppend(dbs[n].events, e);
    var before := ItemsBytes(Frames(track, dbs[..n], clocks[..n]))
        + (if MarkerDue(track, n) then ItemBytes(MarkerItem(clocks[n])) else []);
    var begin, events := BeginBytes(dbs[n].ts), EventsBytes(dbs[n].events);
    assert before + (begin + (events + EventBytes(e))) == before + (begin + events) + EventBytes(e);
  }

  lemma OpenedBytes(track: bool, dbs: seq<TsDb>, clocks: seq<int>, ts: nat, now: int)
    requires |clocks| == |dbs|
    ensures OpenBytes(track, dbs + [TsDb(ts, [])], clocks + [now])
         == ItemsBytes(Frames(track, dbs, clocks))
             + (if MarkerDue(track, |dbs|) then ItemBytes(MarkerItem(now)) else []) + BeginBytes(ts)
  {
    hide BeginBytes, ItemBytes;
    var n := |dbs|;
    assert (dbs + [TsDb(ts, [])])[..n] == dbs && (clocks + [now])[..n] == clocks;
    assert BeginBytes(ts) + EventsBytes([]) == BeginBytes(ts);
  }
}
