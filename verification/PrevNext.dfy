/** The previous and next operators (src/monitor.cpp, MPrev::eval and MNext::eval). */
module PrevNext {
  import opened Wrappers
  import opened Intervals
  import opened Tables
  import opened Buffers

  ghost predicate Monotone(ts: seq<nat>) {
    forall i, j :: 0 <= i <= j < |ts| ==> ts[i] <= ts[j]
  }

  /** `tab`, if the distance between the two timestamps lies in the interval. */
  function Gated(inter: Interval, earlier: int, later: int, tab: Table): Table {
    if inter.Contains(later - earlier) then tab else {}
  }

  /**
   * `res` is positions `done..` of the specified output of previous: nothing at 0, then the child's
   * tables one later.
   */
  ghost predicate PrevOut(inter: Interval, ts: seq<nat>, tabs: seq<Table>, done: nat, res: seq<Table>) {
    && done + |res| <= |ts| && (|res| > 0 ==> done + |res| <= |tabs| + 1)
    && (done == 0 && res != [] ==> res[0] == {})
    && forall k :: done <= k < done + |res| && k > 0 ==> res[k - done] == Gated(inter, ts[k - 1], ts[k], tabs[k - 1])
  }

  /** `res` is positions `done..` of the specified output of next: the child's tables one earlier. */
  ghost predicate NextOut(inter: Interval, ts: seq<nat>, tabs: seq<Table>, done: nat, res: seq<Table>) {
    && done + |res| < |ts| && (|res| > 0 ==> done + |res| < |tabs|)
    && forall k :: done <= k < done + |res| ==> res[k - done] == Gated(inter, ts[k], ts[k + 1], tabs[k + 1])
  }

  /** The loop of both operators: consumes tables while there is a next timestamp. */
  method Consume(inter: Interval, pending: seq<Table>, past: seq<nat>) returns (res: seq<Table>, rest: seq<nat>)
    requires Monotone(past) && past != []
    ensures |res| == Min(|pending|, |past| - 1) && rest == past[|res|..]
    ensures forall k :: 0 <= k < |res| ==> res[k] == Gated(inter, past[k], past[k + 1], pending[k])
  {
    res, rest := [], past;
    while |rest| >= 2 && |res| < |pending|
      invariant |res| <= Min(|pending|, |past| - 1) && rest == past[|res|..]
      invariant forall k :: 0 <= k < |res| ==> res[k] == Gated(inter, past[k], past[k + 1], pending[k])
    {
      assert rest[1] >= rest[0];
      res := res + [if inter.Contains(rest[1] - rest[0]) then pending[|res|] else {}];
      rest := rest[1..];
    }
  }

  lemma MonotoneSuffix(ts: seq<nat>, c: nat)
    requires Monotone(ts) && c <= |ts|
    ensures Monotone(ts[c..])
  {}

  /** The contents of the one-slot buffer. */
  function Slot(buf: Option<Table>): seq<Table> {
    if buf.Some? then [buf.value] else []
  }

  lemma RestHolds(pending: seq<Table>, i: nat)
    requires i <= |pending| <= i + 1
    ensures Slot(if i < |pending| then Some(pending[i]) else None) == pending[i..]
  {}

  /** With `c` child tables consumed, `past` and `waiting` are exactly what is not consumed yet. */
  ghost predicate Unconsumed(ts: seq<nat>, tabs: seq<Table>, c: nat, past: seq<nat>, waiting: seq<Table>) {
    && Monotone(ts) && c <= |tabs| <= |ts| && (tabs != [] ==> c < |ts|)
    && past == ts[c..] && waiting == tabs[c..]
  }

  lemma UnconsumedMore(ts: seq<nat>, tabs: seq<Table>, c: nat, past: seq<nat>, buf: Option<Table>, ts': seq<nat>,
                       tabs': seq<Table>)
    requires Unconsumed(ts, tabs, c, past, Slot(buf)) && Monotone(ts + ts') && |tabs + tabs'| <= |ts + ts'|
    ensures tabs == [] ==> c == 0
    ensures (if tabs == [] then 0 else c + 1) <= |ts|
    ensures Unconsumed(ts + ts', tabs + tabs', c, past + ts', Slot(buf) + tabs')
  {}

  lemma ConsumedMore(inter: Interval, ts: seq<nat>, tabs: seq<Table>, c: nat, past: seq<nat>, waiting: seq<Table>,
                     out: seq<Table>)
    requires Unconsumed(ts, tabs, c, past, waiting) && tabs != [] && |out| == Min(|waiting|, |past| - 1)
    requires forall k :: 0 <= k < |out| ==> out[k] == Gated(inter, past[k], past[k + 1], waiting[k])
    ensures Unconsumed(ts, tabs, c + |out|, past[|out|..], waiting[|out|..])
    ensures c + |out| + 1 == Min(|tabs| + 1, |ts|) && |waiting| <= |out| + 1
    ensures PrevOut(inter, ts, tabs, c + 1, out)
    ensures c == 0 ==> PrevOut(inter, ts, tabs, 0, [{}] + out)
  {}

  class PrevState {
    const inter: Interval
    var buf: Option<Table>
    var pastTs: seq<nat>
    var isFirst: bool
    /** All timestamps and child tables so far, and how many of the tables have been consumed. */
    ghost var tsIn: seq<nat>
    ghost var tabsIn: seq<Table>
    ghost var consumed: nat

    /** How many tables have been emitted. */
    ghost function Emitted(): nat
      reads this`isFirst, this`consumed
    {
      if isFirst then 0 else consumed + 1
    }

    /** The one-slot buffer holds whatever is not consumed yet. */
    ghost predicate Valid()
      reads this
    {
      && isFirst == (tabsIn == [])
      && Unconsumed(tsIn, tabsIn, consumed, pastTs, Slot(buf))
    }

    constructor (inter: Interval)
      ensures Valid() && tsIn == [] && tabsIn == [] && this.inter == inter
    {
      this.inter := inter;
      buf, pastTs, isFirst, tsIn, tabsIn, consumed := None, [], true, [], [], 0;
    }

    method Eval(recTabs: seq<Table>, ts: seq<nat>) returns (res: seq<Table>)
      requires Valid() && Monotone(tsIn + ts) && |tabsIn + recTabs| <= |tsIn + ts|
      modifies this
      ensures Valid() && tsIn == old(tsIn) + ts && tabsIn == old(tabsIn) + recTabs
      ensures Emitted() == if recTabs == [] then old(Emitted()) else Min(|tabsIn| + 1, |tsIn|)
      ensures |res| == Emitted() - old(Emitted()) && PrevOut(inter, tsIn, tabsIn, old(Emitted()), res)
    {
      hide PrevOut, Unconsumed, Slot, Monotone;
      UnconsumedMore(tsIn, tabsIn, consumed, pastTs, buf, ts, recTabs);
      pastTs, tsIn := pastTs + ts, tsIn + ts;
      if recTabs == [] {
        assert Slot(buf) + recTabs == Slot(buf) && tabsIn + recTabs == tabsIn;
        res := [];
        PrevNothing(inter, tsIn, tabsIn, Emitted());
      } else {
        tabsIn := tabsIn + recTabs;
        res := EmitPending(Slot(buf) + recTabs);
      }
    }

    /** `pending` is the buffered table, if any, and the new ones. */
    method EmitPending(pending: seq<Table>) returns (res: seq<Table>)
      requires Unconsumed(tsIn, tabsIn, consumed, pastTs, pending) && tabsIn != [] && (isFirst ==> consumed == 0)
      modifies this`buf, this`pastTs, this`isFirst, this`consumed
      ensures Valid() && Emitted() == Min(|tabsIn| + 1, |tsIn|)
      ensures |res| == Emitted() - old(Emitted()) && PrevOut(inter, tsIn, tabsIn, old(Emitted()), res)
    {
      hide PrevOut, Unconsumed, Slot, Monotone, Gated;
      PastMonotone(tsIn, tabsIn, consumed, pastTs, pending);
      var out, rest := Consume(inter, pending, pastTs);
      ConsumedMore(inter, tsIn, tabsIn, consumed, pastTs, pending, out);
      RestHolds(pending, |out|);
      res := if isFirst then [{}] + out else out;
      pastTs, buf, isFirst := rest, if |out| < |pending| then Some(pending[|out|]) else None, false;
      consumed := consumed + |out|;
    }
  }

  lemma PastMonotone(ts: seq<nat>, tabs: seq<Table>, c: nat, past: seq<nat>, waiting: seq<Table>)
    requires Unconsumed(ts, tabs, c, past, waiting) && tabs != []
    ensures Monotone(past) && past != []
  {}

  lemma PrevNothing(inter: Interval, ts: seq<nat>, tabs: seq<Table>, done: nat)
    requires done <= |ts|
    ensures PrevOut(inter, ts, tabs, done, [])
  {}

  class NextState {
    const inter: Interval
    var pastTs: seq<nat>
    var isFirst: bool
    /** All timestamps and child tables so far. */
    ghost var tsIn: seq<nat>
    ghost var tabsIn: seq<Table>

    /** How many tables have been emitted: one fewer than the child has. */
    ghost function Emitted(): int
      reads this
    {
      if isFirst then 0 else |tabsIn| - 1
    }

    ghost predicate Valid()
      reads this
    {
      && Monotone(tsIn) && |tabsIn| <= |tsIn|
      && isFirst == (tabsIn == [])
      && pastTs == tsIn[Emitted()..]
    }

    constructor (inter: Interval)
      ensures Valid() && tsIn == [] && tabsIn == [] && this.inter == inter
    {
      this.inter := inter;
      pastTs, isFirst, tsIn, tabsIn := [], true, [], [];
    }

    method Eval(recTabs: seq<Table>, ts: seq<nat>) returns (res: seq<Table>)
      requires Valid() && Monotone(tsIn + ts) && |tabsIn + recTabs| <= |tsIn + ts|
      modifies this
      ensures Valid() && tsIn == old(tsIn) + ts && tabsIn == old(tabsIn) + recTabs
      ensures |res| == Emitted() - old(Emitted())
      ensures if recTabs == [] then res == [] else NextOut(inter, tsIn, tabsIn, old(Emitted()), res)
    {
      hide Monotone, NextOut;
      ghost var c := Emitted();
      pastTs := pastTs + ts;
      tsIn := tsIn + ts;
      assert pastTs == tsIn[c..];
      if recTabs == [] {
        assert tabsIn + recTabs == tabsIn;
        res := [];
        return;
      }
      tabsIn := tabsIn + recTabs;
      var pending := if isFirst then recTabs[1..] else recTabs;
      assert pending == tabsIn[c + 1..];
      MonotoneSuffix(tsIn, c);
      var rest;
      res, rest := Consume(inter, pending, pastTs);
      NextSlice(inter, tsIn, tabsIn, c, res);
      pastTs := rest;
      isFirst := false;
    }
  }

  lemma NextSlice(inter: Interval, ts: seq<nat>, tabs: seq<Table>, c: nat, out: seq<Table>)
    requires c < |tabs| <= |ts| && |out| == Min(|tabs[c + 1..]|, |ts[c..]| - 1)
    requires forall k :: 0 <= k < |out| ==> out[k] == Gated(inter, ts[c..][k], ts[c..][k + 1], tabs[c + 1..][k])
    ensures NextOut(inter, ts, tabs, c, out)
  {}
}
