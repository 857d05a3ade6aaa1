/**
 * Reading databases from the socket (src/socket_interface/deserialization.cpp), as the monitor's
 * driver does (src/uds_monitor_driver.cpp).
 */
module DatabaseReader {
  import opened Wrappers
  import opened Bytes
  import opened Replies
  import opened Wire

  /** The known predicates: their identifiers by name and arity. */
  type PredMap = map<(seq<byte>, nat), nat>

  /** The events of one time point by predicate. */
  type Database = map<nat, seq<seq<EventData>>>

  /** One event is appended to those of its predicate, or skipped if that is not known. */
  function AddEvent(preds: PredMap, db: Database, e: Event): Database {
    var key := (e.name, |e.args|);
    if key !in preds then db else db[preds[key] := (if preds[key] in db then db[preds[key]] else []) + [e.args]]
  }

  function AddEvents(preds: PredMap, db: Database, es: seq<Event>): Database
    decreases |es|
  {
    if es == [] then db else AddEvents(preds, AddEvent(preds, db, es[0]), es[1..])
  }

  /** The events of predicate `id` in a list, in order. */
  function Selected(preds: PredMap, es: seq<Event>, id: nat): seq<seq<EventData>> {
    if es == [] then [] else
      var key := (es[0].name, |es[0].args|);
      (if key in preds && preds[key] == id then [es[0].args] else []) + Selected(preds, es[1..], id)
  }

  function Lookup(db: Database, id: nat): seq<seq<EventData>> {
    if id in db then db[id] else []
  }

  ghost predicate NoEmptyEntries(db: Database) {
    forall id | id in db :: db[id] != []
  }

  /** A decoded database has, for every known predicate, its events in the order they were sent. */
  lemma {:induction false} DecodedEvents(preds: PredMap, db: Database, es: seq<Event>, id: nat)
    requires NoEmptyEntries(db)
    ensures NoEmptyEntries(AddEvents(preds, db, es))
    ensures Lookup(AddEvents(preds, db, es), id) == Lookup(db, id) + Selected(preds, es, id)
    decreases |es|
  {
    if es == [] {
      assert Lookup(db, id) + [] == Lookup(db, id);
    } else {
      hide AddEvent, NoEmptyEntries, Lookup;
      var db', key := AddEvent(preds, db, es[0]), (es[0].name, |es[0].args|);
      var one := if key in preds && preds[key] == id then [es[0].args] else [];
      AddedEvent(preds, db, es[0], id);
      DecodedEvents(preds, db', es[1..], id);
      assert Lookup(db, id) + one + Selected(preds, es[1..], id)
          == Lookup(db, id) + (one + Selected(preds, es[1..], id));
    }
  }

  lemma AddedEvent(preds: PredMap, db: Database, e: Event, id: nat)
    requires NoEmptyEntries(db)
    ensures NoEmptyEntries(AddEvent(preds, db, e))
    ensures Lookup(AddEvent(preds, db, e), id)
         == Lookup(db, id) + if (e.name, |e.args|) in preds && preds[(e.name, |e.args|)] == id then [e.args] else []
  {
    assert Lookup(db, id) + [] == Lookup(db, id);
  }

  datatype Result<T> = Ok(value: T) | Raised(error: WireError)

  /** Reading did what the parser says, and consumed as much. */
  ghost predicate Did<T>(p: Parsed<T>, r: Result<T>, input: seq<byte>) {
    if p.Parsed? then r == Ok(p.value) && input == p.rest else r == Raised(p.error)
  }

  // ----- a whole database -----

  /** The latency markers before the next database, and that database; none at the end. */
  datatype Next = Next(markers: seq<int>, db: Option<TsDb>)

  function ParseDatabase(bs: seq<byte>): (p: Parsed<Next>)
    ensures p.Parsed? ==> |p.rest| < |bs|
    decreases |bs|
  {
    var ctrl := ParseInt32(bs);
    if ctrl.Failed? then Failed(ctrl.error)
    else if ctrl.value == CTRL_EOF then Parsed(Next([], None), ctrl.rest)
    else if ctrl.value == CTRL_NEW_DATABASE then
      var ts := ParseInt64(ctrl.rest);
      if ts.Failed? then Failed(ts.error) else
        var es := ParseEvents(ts.rest);
        if es.Failed? then Failed(es.error) else Parsed(Next([], Some(TsDb(Int64ToSize(ts.value), es.value))), es.rest)
    else if ctrl.value == CTRL_LATENCY_MARKER then
      var lm := ParseInt64(ctrl.rest);
      if lm.Failed? then Failed(lm.error) else
        var next := ParseDatabase(lm.rest);
        if next.Failed? then Failed(next.error) else Parsed(Next([lm.value] + next.value.markers, next.value.db),
            next.rest)
    else Failed(ExpectedDatabase)
  }

  class Deserializer {
    const predMap: PredMap
    /** What has not been read yet, and what has been sent back. */
    var input: seq<byte>
    var replies: seq<byte>

    constructor (predMap: PredMap, input: seq<byte>)
      ensures this.predMap == predMap && this.input == input && replies == []
    {
      this.predMap, this.input, replies := predMap, input, [];
    }

    method ReadRaw(n: nat) returns (r: Result<seq<byte>>)
      modifies this`input
      ensures Did(ParseRaw(old(input), n), r, input)
    {
      if |input| < n {
        return Raised(EndOfStream);
      }
      r := Ok(input[..n]);
      input := input[n..];
    }

    method ReadInt32() returns (r: Result<int>)
      modifies this`input
      ensures Did(ParseInt32(old(input)), r, input)
    {
      var buf := ReadRaw(4);
      match buf
      case Ok(bs) => r := Ok(Int32Of(bs));
      case Raised(e) => r := Raised(e);
    }

    method ReadInt64() returns (r: Result<int>)
      modifies this`input
      ensures Did(ParseInt64(old(input)), r, input)
    {
      var buf := ReadRaw(8);
      match buf
      case Ok(bs) => r := Ok(Int64Of(bs));
      case Raised(e) => r := Raised(e);
    }

    method ReadString() returns (r: Result<seq<byte>>)
      modifies this`input
      ensures Did(ParseString(old(input)), r, input)
    {
      hide ParseInt32, ParseRaw;
      var len := ReadInt32();
      if len.Raised? {
        return Raised(len.error);
      }
      if len.value < 0 {
        return Raised(BadLength);
      }
      r := ReadRaw(len.value);
    }

    method ReadEventData() returns (r: Result<EventData>)
      modifies this`input
      ensures Did(ParseData(old(input)), r, input)
    {
      hide ParseInt32, ParseInt64, ParseRaw, ParseString;
      var ty := ReadInt32();
      if ty.Raised? {
        return Raised(ty.error);
      }
      if ty.value == TY_INT {
        var i := ReadInt64();
        r := if i.Ok? then Ok(IntData(i.value)) else Raised(i.error);
      } else if ty.value == TY_FLOAT {
        var d := ReadRaw(8);
        r := if d.Ok? then Ok(FloatData(d.value)) else Raised(d.error);
      } else if ty.value == TY_STRING {
        var s := ReadString();
        r := if s.Ok? then Ok(StringData(s.value)) else Raised(s.error);
      } else {
        r := Raised(InvalidType);
      }
    }

    /** The loops over the values of an event. */
    method ReadArgs(arity: nat) returns (r: Result<seq<EventData>>)
      modifies this`input
      ensures Did(ParseArgs(old(input), arity), r, input)
    {
      hide ParseData;
      var event: seq<EventData> := [];
      ghost var whole := ParseArgs(input, arity);
      assert whole.Parsed? ==> event + whole.value == whole.value;
      for i := 0 to arity
        invariant |event| == i
        invariant var p := ParseArgs(input, arity - i);
                  if p.Parsed? then whole == Parsed(event + p.value, p.rest) else whole == Failed(p.error)
      {
        ghost var p := ParseArgs(input, arity - i);
        var d := ReadEventData();
        if d.Raised? {
          return Raised(d.error);
        }
        ghost var q := ParseArgs(input, arity - i - 1);
        assert q.Parsed? ==> event + ([d.value] + q.value) == event + [d.value] + q.value;
        event := event + [d.value];
      }
      assert event + [] == event;
      r := Ok(event);
    }

    /** `read_tuple`: the event is added to `db` if its predicate is known. */
    method ReadTuple(db: Database) returns (r: Result<Database>, ghost e: Event)
      modifies this`input
      ensures var p := ParseEvent(old(input));
              if p.Parsed? then e == p.value && r == Ok(AddEvent(predMap, db, e))
                  && input == p.rest else r == Raised(p.error)
    {
      hide ParseInt32, ParseString, ParseArgs;
      e := Event([], []);
      var eventName := ReadString();
      if eventName.Raised? {
        return Raised(eventName.error), e;
      }
      var arity := ReadInt32();
      if arity.Raised? {
        return Raised(arity.error), e;
      }
      var n := Int64ToSize(arity.value);
      var args := ReadArgs(n);
      if args.Raised? {
        return Raised(args.error), e;
      }
      e := Event(eventName.value, args.value);
      assert |args.value| == n;
      if (eventName.value, n) !in predMap {
        return Ok(db), e;
      }
      var predId := predMap[(eventName.value, n)];
      if predId !in db {
        assert [] + [args.value] == [args.value];
        r := Ok(db[predId := [args.value]]);
      } else {
        r := Ok(db[predId := db[predId] + [args.value]]);
      }
    }

    method ReadTupleList() returns (r: Result<Database>)
      modifies this`input
      ensures var p := ParseEvents(old(input));
              if p.Parsed? then r == Ok(AddEvents(predMap, map[], p.value)) && input == p.rest else r == Raised(p.error)
    {
      hide ParseInt32, ParseEvent, AddEvent;
      var db: Database := map[];
      ghost var whole, done := ParseEvents(input), [];
      assert whole.Parsed? ==> [] + whole.value == whole.value;
      while true
        invariant db == AddEvents(predMap, map[], done)
        invariant var p := ParseEvents(input);
                  if p.Parsed? then whole == Parsed(done + p.value, p.rest) else whole == Failed(p.error)
        decreases |input|
      {
        ghost var before := input;
        var nxtCtrl := ReadInt32();
        if nxtCtrl.Raised? {
          return Raised(nxtCtrl.error);
        }
        if nxtCtrl.value != CTRL_NEW_EVENT {
          if nxtCtrl.value != CTRL_END_DATABASE {
            return Raised(ExpectedEndOfDatabase);
          }
          assert done + [] == done;
          return Ok(db);
        }
        var next, e := ReadTuple(db);
        if next.Raised? {
          return Raised(next.error);
        }
        AddEventsMore(predMap, map[], done, e);
        ghost var p := ParseEvents(input);
        assert p.Parsed? ==> done + ([e] + p.value) == done + [e] + p.value;
        db, done := next.value, done + [e];
      }
    }

    method SendLatencyMarker(lm: int)
      modifies this`replies
      ensures replies == old(replies) + LatencyReply(lm)
    {
      replies := replies + Int32Bytes(CTRL_LATENCY_MARKER);
      replies := replies + Int64Bytes(lm);
      Associate(old(replies), Int32Bytes(CTRL_LATENCY_MARKER), Int64Bytes(lm));
    }

    method SendEof()
      modifies this`replies
      ensures replies == old(replies) + EofReply()
    {
      replies := replies + Int32Bytes(CTRL_EOF);
    }

    /** The next database, or none at the end; markers before it are sent back. */
    method ReadDatabase() returns (r: Result<Option<(nat, Database)>>)
      modifies this
      ensures var p := ParseDatabase(old(input));
              if p.Failed? then r == Raised(p.error) else
                && input == p.rest && replies == old(replies) + LatencyReplies(p.value.markers)
                && r == Ok(if p.value.db.None? then None
                    else Some((p.value.db.value.ts, AddEvents(predMap, map[], p.value.db.value.events))))
    {
      hide ParseInt32, ParseInt64, ParseEvents, AddEvents, LatencyReply, LatencyReplies;
      ghost var whole, markers := ParseDatabase(input), [];
      NoReplies();
      assert replies + [] == replies;
      assert whole.Parsed? ==> [] + whole.value.markers == whole.value.markers;
      while true
        invariant replies == old(replies) + LatencyReplies(markers)
        invariant var p := ParseDatabase(input);
                  if p.Parsed? then whole == Parsed(Next(markers + p.value.markers, p.value.db), p.rest)
                      else whole == Failed(p.error)
        decreases |input|
      {
        var nxtCtrl := ReadInt32();
        if nxtCtrl.Raised? {
          return Raised(nxtCtrl.error);
        }
        if nxtCtrl.value == CTRL_EOF {
          assert markers + [] == markers;
          return Ok(None);
        } else if nxtCtrl.value == CTRL_NEW_DATABASE {
          assert markers + [] == markers;
          var ts := ReadInt64();
          if ts.Raised? {
            return Raised(ts.error);
          }
          var db := ReadTupleList();
          if db.Raised? {
            return Raised(db.error);
          }
          return Ok(Some((Int64ToSize(ts.value), db.value)));
        } else if nxtCtrl.value == CTRL_LATENCY_MARKER {
          var lm := ReadInt64();
          if lm.Raised? {
            return Raised(lm.error);
          }
          LatencyRepliesAppend(markers, lm.value);
          Associate(old(replies), LatencyReplies(markers), LatencyReply(lm.value));
          SendLatencyMarker(lm.value);
          ghost var p := ParseDatabase(input);
          assert p.Parsed? ==> markers + ([lm.value] + p.value.markers) == markers + [lm.value] + p.value.markers;
          markers := markers + [lm.value];
        } else {
          return Raised(ExpectedDatabase);
        }
      }
    }
  }

  lemma NoReplies()
    ensures LatencyReplies([]) == []
  {}

  lemma {:induction false} AddEventsMore(preds: PredMap, db: Database, es: seq<Event>, e: Event)
    ensures AddEvents(preds, db, es + [e]) == AddEvent(preds, AddEvents(preds, db, es), e)
    decreases |es|
  {
    if es == [] {
      assert [e][1..] == [];
    } else {
      assert (es + [e])[1..] == es[1..] + [e];
      AddEventsMore(preds, AddEvent(preds, db, es[0]), es[1..], e);
    }
  }
}
