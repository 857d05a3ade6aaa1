/** From the event source's calls to the databases that the monitor steps through. */
module WirePipeline {
  import opened Wrappers
  import opened Bytes
  import opened Replies
  import opened Wire
  import opened SerializerTransport
  import opened SerializerRuns
  import opened DatabaseReader
  import opened EventPipeline

  predicate FitsItem(x: Item) {
    match x
    case DbItem(db) => FitsDb(db)
    case MarkerItem(lm) => IsInt64(lm)
  }

  ghost predicate FitsItems(xs: seq<Item>) {
    forall k :: 0 <= k < |xs| ==> FitsItem(xs[k])
  }

  /** How many markers come before the next database. */
  function Lead(xs: seq<Item>): (n: nat)
    ensures n <= |xs| && (n < |xs| ==> xs[n].DbItem?)
  {
    if xs == [] || xs[0].DbItem? then 0 else 1 + Lead(xs[1..])
  }

  /** The next database in the stream, and the markers before it. */
  function NextOf(xs: seq<Item>): Next {
    Next(Markers(xs[..Lead(xs)]), if Lead(xs) < |xs| then Some(xs[Lead(xs)].db) else None)
  }

  function Rest(xs: seq<Item>): seq<Item> {
    if Lead(xs) < |xs| then xs[Lead(xs) + 1..] else []
  }

  /** What is left to read after the next database. */
  function RestBytes(xs: seq<Item>, tail: seq<byte>): seq<byte> {
    if Lead(xs) < |xs| then ItemsBytes(Rest(xs)) + (Int32Bytes(CTRL_EOF) + tail) else tail
  }

  lemma MarkerFirst(xs: seq<Item>)
    requires xs != [] && xs[0].MarkerItem?
    ensures Lead(xs) == 1 + Lead(xs[1..]) && Rest(xs) == Rest(xs[1..])
    ensures NextOf(xs) == Next([xs[0].lm] + NextOf(xs[1..]).markers, NextOf(xs[1..]).db)
  {
    var n := Lead(xs[1..]);
    assert xs[..n + 1][1..] == xs[1..][..n];
    assert xs[..n + 1][0] == xs[0];
  }

  lemma DbParses(d: TsDb, rest: seq<byte>)
    requires FitsDb(d)
    ensures ParseDatabase(DbBytes(d) + rest) == Parsed(Next([], Some(d)), rest)
  {
    hide ParseInt32, ParseInt64, ParseEvents, Int32Bytes, Int64Bytes, EventsBytes, FitsEvent, SizeToInt64, Int64ToSize;
    var ctrl, ts := Int32Bytes(CTRL_NEW_DATABASE), Int64Bytes(SizeToInt64(d.ts));
    var events, end := EventsBytes(d.events), Int32Bytes(CTRL_END_DATABASE);
    assert DbBytes(d) + rest == ctrl + (ts + (events + (end + rest)));
    CastBack(d.ts);
    Int32Parses(CTRL_NEW_DATABASE, ts + (events + (end + rest)));
    Int64Parses(SizeToInt64(d.ts), events + (end + rest));
    EventsParse(d.events, rest);
  }

  lemma {:induction false} NextParses(xs: seq<Item>, tail: seq<byte>)
    requires FitsItems(xs)
    ensures ParseDatabase(ItemsBytes(xs) + (Int32Bytes(CTRL_EOF) + tail)) == Parsed(NextOf(xs), RestBytes(xs, tail))
    decreases |xs|
  {
    hide ParseInt32, ParseInt64, ParseEvents, Int32Bytes, Int64Bytes, DbBytes, FitsItem, NextOf, Rest;
    var end := Int32Bytes(CTRL_EOF) + tail;
    if xs == [] {
      assert [] + end == end;
      Int32Parses(CTRL_EOF, tail);
      NextOfNone();
    } else {
      assert FitsItem(xs[0]);
      Associate(ItemBytes(xs[0]), ItemsBytes(xs[1..]), end);
      match xs[0] {
        case DbItem(d) =>
          FitsIsDb(d);
          DbParses(d, ItemsBytes(xs[1..]) + end);
          DbFirst(xs);
        case MarkerItem(lm) =>
          FitsIsMarker(lm);
          var more := ItemsBytes(xs[1..]) + end;
          Associate(Int32Bytes(CTRL_LATENCY_MARKER), Int64Bytes(lm), more);
          Int32Parses(CTRL_LATENCY_MARKER, Int64Bytes(lm) + more);
          Int64Parses(lm, more);
          NextParses(xs[1..], tail);
          MarkerFirst(xs);
      }
    }
  }

  lemma NextOfNone()
    ensures NextOf([]) == Next([], None) && Rest([]) == []
  {}

  lemma DbFirst(xs: seq<Item>)
    requires xs != [] && xs[0].DbItem?
    ensures NextOf(xs) == Next([], Some(xs[0].db)) && Rest(xs) == xs[1..] && Lead(xs) == 0
  {}

  lemma FitsIsDb(d: TsDb)
    requires FitsItem(DbItem(d))
    ensures FitsDb(d)
  {}

  lemma FitsIsMarker(lm: int)
    requires FitsItem(MarkerItem(lm))
    ensures IsInt64(lm)
  {}

  // ----- reading a whole stream -----

  lemma {:induction false} NextSplits(xs: seq<Item>)
    ensures Databases(xs) == (if NextOf(xs).db.Some? then [NextOf(xs).db.value] else []) + Databases(Rest(xs))
    ensures Markers(xs) == NextOf(xs).markers + Markers(Rest(xs))
    ensures NextOf(xs).db.None? ==> Rest(xs) == []
    ensures NextOf(xs).db.Some? ==> |Rest(xs)| < |xs|
    ensures FitsItems(xs) ==> FitsItems(Rest(xs))
  {
    hide NextOf, Rest, FitsItem;
    if xs == [] {
      NextOfNone();
    } else if xs[0].DbItem? {
      DbFirst(xs);
      assert [] + Markers(xs[1..]) == Markers(xs[1..]);
    } else {
      NextSplits(xs[1..]);
      MarkerFirst(xs);
      MarkerSplits(xs, NextOf(xs[1..]).markers, Rest(xs));
    }
  }

  lemma MarkerSplits(xs: seq<Item>, markers: seq<int>, rest: seq<Item>)
    requires xs != [] && xs[0].MarkerItem?
    ensures Databases(xs) == Databases(xs[1..])
    ensures Markers(xs[1..]) == markers + Markers(rest) ==> Markers(xs) == [xs[0].lm] + markers + Markers(rest)
  {
    assert [xs[0].lm] + (markers + Markers(rest)) == [xs[0].lm] + markers + Markers(rest);
    assert [] + Databases(xs[1..]) == Databases(xs[1..]);
  }

  lemma RestIs(xs: seq<Item>, tail: seq<byte>)
    ensures RestBytes(xs, tail) == if NextOf(xs).db.Some? then ItemsBytes(Rest(xs)) + (Int32Bytes(CTRL_EOF) + tail)
            else tail
  {}

  lemma {:induction false} LatencyRepliesConcat(a: seq<int>, b: seq<int>)
    ensures LatencyReplies(a + b) == LatencyReplies(a) + LatencyReplies(b)
    decreases |b|
  {
    hide LatencyReply;
    if b == [] {
      assert a + b == a && LatencyReplies(a) + [] == LatencyReplies(a);
    } else {
      var n, c := |b| - 1, b[..|b| - 1];
      LatencyRepliesConcat(a, c);
      hide LatencyReplies;
      LatencyRepliesAppend(a + c, b[n]);
      LatencyRepliesAppend(c, b[n]);
      assert a + b == a + c + [b[n]] && b == c + [b[n]];
      Associate(LatencyReplies(a), LatencyReplies(c), LatencyReply(b[n]));
    }
  }

  /** Database `d` as the monitor's side holds it. */
  function Decoded(preds: PredMap, d: TsDb): (nat, Database) {
    (d.ts, AddEvents(preds, map[], d.events))
  }

  /** One call of `read_database`. */
  method ReadNext(des: Deserializer, ghost left: seq<Item>, ghost marks: seq<int>, ghost replies0: seq<byte>)
    returns (r: Option<(nat, Database)>)
    requires FitsItems(left) && des.input == ItemsBytes(left) + (Int32Bytes(CTRL_EOF) + [])
    requires des.replies == replies0 + LatencyReplies(marks)
    modifies des
    ensures des.replies == replies0 + LatencyReplies(marks + NextOf(left).markers)
    ensures r.Some? == NextOf(left).db.Some?
    ensures if r.Some? then r.value == Decoded(des.predMap, NextOf(left).db.value)
            && des.input == ItemsBytes(Rest(left)) + (Int32Bytes(CTRL_EOF) + [])
            else des.input == []
  {
    hide ParseDatabase, NextOf, Rest, ItemsBytes, Int32Bytes, LatencyReplies, FitsItems, AddEvents, RestBytes;
    NextParses(left, []);
    RestIs(left, []);
    var res := des.ReadDatabase();
    Associate(replies0, LatencyReplies(marks), LatencyReplies(NextOf(left).markers));
    LatencyRepliesConcat(marks, NextOf(left).markers);
    r := res.value;
  }

  /** The loop of the monitor's driver, over a stream of these items. */
  method ReadAll(des: Deserializer, ghost items: seq<Item>) returns (decoded: seq<(nat, Database)>)
    requires FitsItems(items) && des.input == ItemsBytes(items) + Int32Bytes(CTRL_EOF)
    modifies des
    ensures |decoded| == |Databases(items)|
    ensures forall k :: 0 <= k < |decoded| ==> decoded[k] == Decoded(des.predMap, Databases(items)[k])
    ensures des.replies == old(des.replies) + LatencyReplies(Markers(items)) + EofReply()
    ensures des.input == []
  {
    hide NextOf, Rest, ItemsBytes, Int32Bytes, LatencyReplies, FitsItems, EofReply, Decoded;
    decoded := [];
    ghost var left, seen, marks, replies0 := items, [], [], des.replies;
    assert Int32Bytes(CTRL_EOF) + [] == Int32Bytes(CTRL_EOF);
    assert replies0 + LatencyReplies([]) == replies0 by { NoReplies(); }
    assert [] + Databases(items) == Databases(items) && [] + Markers(items) == Markers(items);
    while true
      invariant FitsItems(left) && des.input == ItemsBytes(left) + (Int32Bytes(CTRL_EOF) + [])
      invariant seen + Databases(left) == Databases(items) && marks + Markers(left) == Markers(items)
      invariant des.replies == replies0 + LatencyReplies(marks)
      invariant |decoded| == |seen| && forall k :: 0 <= k < |decoded| ==> decoded[k] == Decoded(des.predMap, seen[k])
      decreases |left|
    {
      NextSplits(left);
      ghost var next, rest := NextOf(left), Rest(left);
      var r := ReadNext(des, left, marks, replies0);
      assert marks + next.markers + Markers(rest) == marks + (next.markers + Markers(rest));
      marks := marks + next.markers;
      if r.None? {
        assert seen + [] == seen && marks + [] == marks && Databases([]) == [] && Markers([]) == [];
        break;
      }
      assert seen + [next.db.value] + Databases(rest) == seen + ([next.db.value] + Databases(rest));
      decoded := decoded + [r.value];
      seen, left := seen + [next.db.value], rest;
    }
    des.SendEof();
  }

  // ----- the whole way -----

  lemma {:induction false} FramesFit(track: bool, log: seq<TsDb>, clocks: seq<int>)
    requires |clocks| == |log| && (forall k :: 0 <= k < |log| ==> FitsDb(log[k]))
             && forall k :: 0 <= k < |clocks| ==> IsInt64(clocks[k])
    ensures FitsItems(Frames(track, log, clocks))
    decreases |log|
  {
    hide FitsDb;
    if log != [] {
      FramesFit(track, log[..|log| - 1], clocks[..|log| - 1]);
    }
  }

  lemma {:induction false} MarkersFit(items: seq<Item>)
    requires FitsItems(items)
    ensures forall k :: 0 <= k < |Markers(items)| ==> IsInt64(Markers(items)[k])
  {
    if items != [] {
      MarkersFit(items[1..]);
    }
  }

  /** One database of the log is handed to the event source. */
  method LogDatabase(src: EventSource, d: TsDb, now: int)
    requires src.Valid()
    modifies src, src.serial
    ensures src.Valid() && src.dbs == old(src.dbs) + [d] && src.clocks == old(src.clocks) + [now]
  {
    hide EventSource.Valid;
    src.AddDatabase(d.ts, now);
    ghost var before := old(src.dbs);
    assert d.events[..0] == [];
    for i := 0 to |d.events|
      invariant src.Valid() && src.dbs == before + [TsDb(d.ts, d.events[..i])] && src.clocks == old(src.clocks) + [now]
    {
      src.AddEvent(d.events[i]);
      assert d.events[..i + 1] == d.events[..i] + [d.events[i]];
      assert (before + [TsDb(d.ts, d.events[..i])])[..|before|] == before;
    }
    assert d.events[..|d.events|] == d.events;
  }

  /**
   * A log goes through the event source, its serializer and the socket to the
   * monitor's side, while the I/O thread and the kernel run at any time: it comes
   * out as the same timestamps with, for every known predicate, the same events in
   * the same order; the latency markers are echoed in order, followed by the EOF;
   * and however the replies are cut into reads (`sizes`), the source recognises
   * exactly the markers that it sent, and the EOF.
   */
  method LogAndRead(wbufSize: nat, track: bool, log: seq<TsDb>, clocks: seq<int>, preds: PredMap, sizes: seq<nat>)
    returns (decoded: seq<(nat, Database)>, replies: seq<byte>, latencies: seq<int>, confirmed: bool)
    requires wbufSize >= 1 && |clocks| == |log|
    requires (forall k :: 0 <= k < |log| ==> FitsDb(log[k])) && forall k :: 0 <= k < |clocks| ==> IsInt64(clocks[k])
    ensures |decoded| == |log| && forall k :: 0 <= k < |log| ==> decoded[k].0 == log[k].ts
    ensures forall k, id: nat | 0 <= k < |log| ::
            DatabaseReader.Lookup(decoded[k].1, id) == Selected(preds, log[k].events, id)
    ensures replies == LatencyReplies(Markers(Frames(track, log, clocks))) + EofReply()
    ensures latencies == Markers(Frames(track, log, clocks)) && confirmed
  {
    hide EventSource.Valid, Serializer.Valid, Int32Bytes, ItemsBytes, FitsDb, FitsItems, LatencyReplies, EofReply;
    hide AddEvents, Selected, Frames, Markers, Databases, DatabaseReader.Lookup;
    var src := new EventSource(wbufSize, track);
    for k := 0 to |log|
      invariant fresh(src) && fresh(src.serial) && src.Valid() && src.dbs == log[..k] && src.clocks == clocks[..k]
                && src.track == track
    {
      LogDatabase(src, log[k], clocks[k]);
      assert log[..k + 1] == log[..k] + [log[k]] && clocks[..k + 1] == clocks[..k] + [clocks[k]];
    }
    assert log[..|log|] == log && clocks[..|log|] == clocks;
    src.Terminate();
    Drain(src.serial);
    ghost var items := Frames(track, log, clocks);
    FramesFit(track, log, clocks);
    FramesHoldDatabases(track, log, clocks);
    var des := new Deserializer(preds, src.serial.sent);
    decoded := ReadAll(des, items);
    replies := des.replies;
    assert [] + LatencyReplies(Markers(items)) == LatencyReplies(Markers(items));
    MarkersFit(items);
    latencies, confirmed := ReadReplies(replies, sizes, Markers(items));
    forall k, id: nat | 0 <= k < |log| ensures DatabaseReader.Lookup(decoded[k].1, id)
        == Selected(preds, log[k].events, id) {
      DecodedLookup(preds, log[k], id);
    }
  }

  lemma DecodedLookup(preds: PredMap, d: TsDb, id: nat)
    ensures DatabaseReader.Lookup(Decoded(preds, d).1, id) == Selected(preds, d.events, id)
  {
    DecodedEvents(preds, map[], d.events, id);
    assert [] + Selected(preds, d.events, id) == Selected(preds, d.events, id);
  }
}
