/**
 * The wire format of the event source: encoders
 * (src/socket_interface/serialization.cpp) and what the monitor's side reads
 * back (src/socket_interface/deserialization.cpp).
 */
module Wire {
  import opened Bytes
  import opened Replies

  const TY_INT: int := 1
  const TY_FLOAT: int := 2
  const TY_STRING: int := 3

  /** A value of an event; a double is its eight bytes. */
  datatype EventData = IntData(i: int) | FloatData(bits: seq<byte>) | StringData(s: seq<byte>)

  datatype Event = Event(name: seq<byte>, args: seq<EventData>)

  datatype TsDb = TsDb(ts: nat, events: seq<Event>)

  /** Lengths fit the 32-bit counters of the format. */
  predicate FitsString(s: seq<byte>) {
    |s| < TWO_31
  }

  predicate FitsData(d: EventData) {
    match d
    case IntData(i) => IsInt64(i)
    case FloatData(bits) => |bits| == 8
    case StringData(s) => FitsString(s)
  }

  predicate FitsEvent(e: Event) {
    FitsString(e.name) && |e.args| < TWO_31 && forall k :: 0 <= k < |e.args| ==> FitsData(e.args[k])
  }

  predicate FitsDb(d: TsDb) {
    d.ts < TWO_64 && forall k :: 0 <= k < |d.events| ==> FitsEvent(d.events[k])
  }

  // ----- encoding -----

  function StringBytes(s: seq<byte>): seq<byte> {
    Int32Bytes(|s|) + s
  }

  function DataBytes(d: EventData): seq<byte> {
    match d
    case IntData(i) => Int32Bytes(TY_INT) + Int64Bytes(i)
    case FloatData(bits) => Int32Bytes(TY_FLOAT) + bits
    case StringData(s) => Int32Bytes(TY_STRING) + StringBytes(s)
  }

  function ArgsBytes(args: seq<EventData>): seq<byte> {
    if args == [] then [] else DataBytes(args[0]) + ArgsBytes(args[1..])
  }

  function EventBytes(e: Event): seq<byte> {
    Int32Bytes(CTRL_NEW_EVENT) + (StringBytes(e.name) + (Int32Bytes(|e.args|) + ArgsBytes(e.args)))
  }

  function EventsBytes(es: seq<Event>): seq<byte> {
    if es == [] then [] else EventBytes(es[0]) + EventsBytes(es[1..])
  }

  function BeginBytes(ts: nat): seq<byte> {
    Int32Bytes(CTRL_NEW_DATABASE) + Int64Bytes(SizeToInt64(ts))
  }

  function DbBytes(d: TsDb): seq<byte> {
    BeginBytes(d.ts) + (EventsBytes(d.events) + Int32Bytes(CTRL_END_DATABASE))
  }

  // ----- decoding -----

  datatype WireError = EndOfStream | BadLength | InvalidType | ExpectedEndOfDatabase | ExpectedDatabase

  /** A value and the unread bytes, or the exception that reading raises. */
  datatype Parsed<T> = Parsed(value: T, rest: seq<byte>) | Failed(error: WireError)

  function ParseInt32(bs: seq<byte>): (p: Parsed<int>)
    ensures p.Parsed? ==> |p.rest| == |bs| - 4
  {
    if |bs| < 4 then Failed(EndOfStream) else Parsed(Int32Of(bs[..4]), bs[4..])
  }

  function ParseInt64(bs: seq<byte>): (p: Parsed<int>)
    ensures p.Parsed? ==> |p.rest| == |bs| - 8
  {
    if |bs| < 8 then Failed(EndOfStream) else Parsed(Int64Of(bs[..8]), bs[8..])
  }

  function ParseRaw(bs: seq<byte>, n: nat): (p: Parsed<seq<byte>>)
    ensures p.Parsed? ==> |p.rest| == |bs| - n && |p.value| == n
  {
    if |bs| < n then Failed(EndOfStream) else Parsed(bs[..n], bs[n..])
  }

  function ParseString(bs: seq<byte>): (p: Parsed<seq<byte>>)
    ensures p.Parsed? ==> |p.rest| < |bs|
  {
    var len := ParseInt32(bs);
    if len.Failed? then Failed(len.error)
    else if len.value < 0 then Failed(BadLength)
    else ParseRaw(len.rest, len.value)
  }

  function ParseData(bs: seq<byte>): (p: Parsed<EventData>)
    ensures p.Parsed? ==> |p.rest| < |bs|
  {
    var ty := ParseInt32(bs);
    if ty.Failed? then Failed(ty.error)
    else if ty.value == TY_INT then
      var i := ParseInt64(ty.rest);
      if i.Failed? then Failed(i.error) else Parsed(IntData(i.value), i.rest)
    else if ty.value == TY_FLOAT then
      var d := ParseRaw(ty.rest, 8);
      if d.Failed? then Failed(d.error) else Parsed(FloatData(d.value), d.rest)
    else if ty.value == TY_STRING then
      var s := ParseString(ty.rest);
      if s.Failed? then Failed(s.error) else Parsed(StringData(s.value), s.rest)
    else Failed(InvalidType)
  }

  function ParseArgs(bs: seq<byte>, n: nat): (p: Parsed<seq<EventData>>)
    ensures p.Parsed? ==> |p.rest| <= |bs| && |p.value| == n
    decreases n
  {
    if n == 0 then Parsed([], bs) else
      var d := ParseData(bs);
      if d.Failed? then Failed(d.error) else
        var ds := ParseArgs(d.rest, n - 1);
        if ds.Failed? then Failed(ds.error) else Parsed([d.value] + ds.value, ds.rest)
  }

  /** The rest of an event, after its control word. */
  function ParseEvent(bs: seq<byte>): (p: Parsed<Event>)
    ensures p.Parsed? ==> |p.rest| < |bs|
  {
    var name := ParseString(bs);
    if name.Failed? then Failed(name.error) else
      var arity := ParseInt32(name.rest);
      if arity.Failed? then Failed(arity.error) else
        var args := ParseArgs(arity.rest, Int64ToSize(arity.value));
        if args.Failed? then Failed(args.error) else Parsed(Event(name.value, args.value), args.rest)
  }

  /** The events of a database, up to and including the control word that ends it. */
  function ParseEvents(bs: seq<byte>): (p: Parsed<seq<Event>>)
    ensures p.Parsed? ==> |p.rest| < |bs|
    decreases |bs|
  {
    var ctrl := ParseInt32(bs);
    if ctrl.Failed? then Failed(ctrl.error)
    else if ctrl.value == CTRL_NEW_EVENT then
      var e := ParseEvent(ctrl.rest);
      if e.Failed? then Failed(e.error) else
        var es := ParseEvents(e.rest);
        if es.Failed? then Failed(es.error) else Parsed([e.value] + es.value, es.rest)
    else if ctrl.value == CTRL_END_DATABASE then Parsed([], ctrl.rest)
    else Failed(ExpectedEndOfDatabase)
  }

  // ----- round trips of the parts -----

  lemma Int32Parses(x: int, rest: seq<byte>)
    requires -TWO_31 <= x < TWO_31
    ensures ParseInt32(Int32Bytes(x) + rest) == Parsed(x, rest)
  {
    var bs := Int32Bytes(x) + rest;
    Int32RoundTrip(x);
    assert bs[..4] == Int32Bytes(x) && bs[4..] == rest;
  }

  lemma Int64Parses(x: int, rest: seq<byte>)
    requires IsInt64(x)
    ensures ParseInt64(Int64Bytes(x) + rest) == Parsed(x, rest)
  {
    var bs := Int64Bytes(x) + rest;
    Int64RoundTrip(x);
    assert bs[..8] == Int64Bytes(x) && bs[8..] == rest;
  }

  lemma RawParses(s: seq<byte>, rest: seq<byte>)
    ensures ParseRaw(s + rest, |s|) == Parsed(s, rest)
  {}

  lemma StringParses(s: seq<byte>, rest: seq<byte>)
    requires FitsString(s)
    ensures ParseString(StringBytes(s) + rest) == Parsed(s, rest)
  {
    hide ParseInt32, ParseRaw, Int32Bytes;
    Associate(Int32Bytes(|s|), s, rest);
    Int32Parses(|s|, s + rest);
    RawParses(s, rest);
  }

  lemma DataParses(d: EventData, rest: seq<byte>)
    requires FitsData(d)
    ensures ParseData(DataBytes(d) + rest) == Parsed(d, rest)
  {
    hide ParseInt32, ParseInt64, ParseRaw, ParseString, Int32Bytes, Int64Bytes, StringBytes;
    match d
    case IntData(i) =>
      Associate(Int32Bytes(TY_INT), Int64Bytes(i), rest);
      Int32Parses(TY_INT, Int64Bytes(i) + rest);
      Int64Parses(i, rest);
    case FloatData(bits) =>
      Associate(Int32Bytes(TY_FLOAT), bits, rest);
      Int32Parses(TY_FLOAT, bits + rest);
      RawParses(bits, rest);
    case StringData(s) =>
      Associate(Int32Bytes(TY_STRING), StringBytes(s), rest);
      Int32Parses(TY_STRING, StringBytes(s) + rest);
      StringParses(s, rest);
  }

  lemma {:induction false} ArgsParse(args: seq<EventData>, rest: seq<byte>)
    requires forall k :: 0 <= k < |args| ==> FitsData(args[k])
    ensures ParseArgs(ArgsBytes(args) + rest, |args|) == Parsed(args, rest)
    decreases |args|
  {
    hide ParseData, DataBytes, FitsData;
    if args == [] {
      assert [] + rest == rest;
    } else {
      Associate(DataBytes(args[0]), ArgsBytes(args[1..]), rest);
      DataParses(args[0], ArgsBytes(args[1..]) + rest);
      ArgsParse(args[1..], rest);
      assert [args[0]] + args[1..] == args;
    }
  }

  lemma EventParses(e: Event, rest: seq<byte>)
    requires FitsEvent(e)
    ensures ParseInt32(EventBytes(e) + rest) == Parsed(CTRL_NEW_EVENT, EventBytes(e)[4..] + rest)
    ensures ParseEvent(EventBytes(e)[4..] + rest) == Parsed(e, rest)
  {
    hide ParseInt32, ParseString, ParseArgs, Int32Bytes, StringBytes, ArgsBytes, FitsData;
    var name, arity, args := StringBytes(e.name), Int32Bytes(|e.args|), ArgsBytes(e.args);
    var tail := name + (arity + args);
    assert EventBytes(e)[4..] == tail;
    Associate(Int32Bytes(CTRL_NEW_EVENT), tail, rest);
    Int32Parses(CTRL_NEW_EVENT, tail + rest);
    Associate(name, arity + args, rest);
    Associate(arity, args, rest);
    StringParses(e.name, arity + (args + rest));
    Int32Parses(|e.args|, args + rest);
    ArgsParse(e.args, rest);
    assert Int64ToSize(|e.args|) == |e.args|;
  }

  lemma {:induction false} EventsParse(es: seq<Event>, rest: seq<byte>)
    requires forall k :: 0 <= k < |es| ==> FitsEvent(es[k])
    ensures ParseEvents(EventsBytes(es) + (Int32Bytes(CTRL_END_DATABASE) + rest)) == Parsed(es, rest)
    decreases |es|
  {
    hide ParseInt32, ParseEvent, Int32Bytes, EventBytes, FitsEvent;
    var end := Int32Bytes(CTRL_END_DATABASE) + rest;
    if es == [] {
      assert [] + end == end;
      Int32Parses(CTRL_END_DATABASE, rest);
    } else {
      Associate(EventBytes(es[0]), EventsBytes(es[1..]), end);
      EventParses(es[0], EventsBytes(es[1..]) + end);
      EventsParse(es[1..], rest);
      assert [es[0]] + es[1..] == es;
    }
  }
}
