/**
 * The incremental since and once operators (src/since_impl.h).  The state never
 * looks at the trace again; the ghost fields record what it has been fed, and
 * `Valid` ties the two together.
 */
module SinceOperator {
  import opened Wrappers
  import opened Intervals
  import opened Tables
  import opened AggSpec
  import opened TemporalAggregation
  import opened Temporal
  import opened SinceSpec

  ghost function Get(m: map<Row, nat>, e: Row): nat {
    if e in m then m[e] else 0
  }

  ghost predicate Positive(m: map<Row, nat>) {
    forall e | e in m :: m[e] > 0
  }

  /** The reference counts are those of the tables from `lo` on. */
  ghost predicate CountsFrom(es: seq<Entry>, lo: nat, counted: map<Row, nat>) {
    Positive(counted) && forall e :: Get(counted, e) == Cnt(es, lo, e)
  }

  lemma CountedRows(es: seq<Entry>, lo: nat, counted: map<Row, nat>)
    requires lo < |es| && CountsFrom(es, lo, counted)
    ensures Positive(counted) && forall e | e in es[lo].tab :: e in counted
  {
    forall e | e in es[lo].tab ensures e in counted {
      assert Get(counted, e) == Cnt(es, lo, e);
    }
  }

  /** `counted` and `since` after forgetting one occurrence of each row in `done`. */
  ghost predicate Forgotten(counted0: map<Row, nat>, since0: map<Row, nat>, done: set<Row>, counted: map<Row, nat>,
                            since: map<Row, nat>) {
    && Positive(counted)
    && (forall e :: Get(counted, e) == Get(counted0, e) - if e in done then 1 else 0)
    && (forall e :: e in since <==> e in since0 && !(e in done && Get(counted0, e) == 1))
    && (forall e | e in since :: since[e] == since0[e])
  }

  /** One `drop_tuple_from_all_data`. */
  ghost predicate DroppedOne(counted: map<Row, nat>, since: map<Row, nat>, e: Row, counted': map<Row, nat>,
                             since': map<Row, nat>)
    requires e in counted
  {
    if counted[e] == 1 then counted' == counted - {e} && since' == since - {e}
    else counted[e] > 1 && counted' == counted[e := counted[e] - 1] && since' == since
  }

  lemma ForgottenStep(counted0: map<Row, nat>, since0: map<Row, nat>, done: set<Row>, e: Row, counted: map<Row, nat>,
                      since: map<Row, nat>, counted': map<Row, nat>, since': map<Row, nat>)
    requires e !in done && e in counted && Forgotten(counted0, since0, done, counted, since)
    requires DroppedOne(counted, since, e, counted', since')
    ensures Forgotten(counted0, since0, done + {e}, counted', since')
  {
    assert Get(counted, e) == Get(counted0, e);
    forall f ensures f in since' <==> f in since0 && !(f in done + {e} && Get(counted0, f) == 1) {
      assert f != e ==> (f in since' <==> f in since);
    }
  }

  /** `tin` without the rows of `done` that are stamped `ts`. */
  ghost predicate Unstamped(tin0: map<Row, nat>, done: set<Row>, ts: nat, tin: map<Row, nat>) {
    && (forall e :: e in tin <==> e in tin0 && !(e in done && tin0[e] == ts))
    && (forall e | e in tin :: tin[e] == tin0[e])
  }

  lemma UnstampedStep(tin0: map<Row, nat>, done: set<Row>, e: Row, ts: nat, tin: map<Row, nat>, tin': map<Row, nat>)
    requires e !in done && Unstamped(tin0, done, ts, tin)
    requires tin' == if e in tin && tin[e] == ts then tin - {e} else tin
    ensures Unstamped(tin0, done + {e}, ts, tin')
  {}

  lemma CountsStep(es: seq<Entry>, lo: nat, counted0: map<Row, nat>, since0: map<Row, nat>, counted: map<Row, nat>,
                   since: map<Row, nat>)
    requires lo < |es| && CountsFrom(es, lo, counted0)
    requires Forgotten(counted0, since0, es[lo].tab, counted, since)
    ensures CountsFrom(es, lo + 1, counted)
  {
    forall e ensures Get(counted, e) == Cnt(es, lo + 1, e) {
      assert Get(counted0, e) == Cnt(es, lo, e);
    }
  }

  /**
   * How far eviction has got: `tuple_in` has lost only stamps older than the
   * window and every stamp left belongs to a table in `[a, b)`; `tuple_since` has
   * lost exactly the rows that occur nowhere any more.
   */
  ghost predicate Evicted(es: seq<Entry>, a: nat, b: nat, inter: Interval, now: nat, tin0: map<Row, nat>,
                          tin: map<Row, nat>, since0: map<Row, nat>, since: map<Row, nat>) {
    && b <= |es|
    && (forall e | e in tin :: e in tin0 && tin[e] == tin0[e])
    && (forall e | e in tin0 && inter.LeqUpper(now - tin0[e]) :: e in tin)
    && (forall e | e in tin :: exists j :: a <= j < b && e in es[j].tab && es[j].ts == tin[e])
    && (forall e :: e in since <==> e in since0 && Cnt(es, a, e) > 0)
    && (forall e | e in since :: since[e] == since0[e])
  }

  lemma EvictedStep(es: seq<Entry>, a: nat, b: nat, inter: Interval, now: nat, tin0: map<Row, nat>,
                    tin: map<Row, nat>, tin': map<Row, nat>, since0: map<Row, nat>, since: map<Row, nat>,
                    since': map<Row, nat>, counted: map<Row, nat>, counted': map<Row, nat>, inWindow: bool)
    requires a < |es| && !inter.LeqUpper(now - es[a].ts) && inWindow == (a < b)
    requires Evicted(es, a, b, inter, now, tin0, tin, since0, since)
    requires CountsFrom(es, a, counted) && Forgotten(counted, since, es[a].tab, counted', since')
    requires if inWindow then Unstamped(tin, es[a].tab, es[a].ts, tin') else tin' == tin
    ensures Evicted(es, a + 1, if inWindow then b else b + 1, inter, now, tin0, tin', since0, since')
  {
    forall e | e in tin' ensures exists j :: a + 1 <= j < b && e in es[j].tab && es[j].ts == tin'[e] {
      var j :| a <= j < b && e in es[j].tab && es[j].ts == tin[e];
    }
    forall e ensures e in since' <==> e in since0 && Cnt(es, a + 1, e) > 0 {
      assert Get(counted, e) == Cnt(es, a, e);
    }
  }

  lemma EvictedInit(t: LeftTest, es: seq<Entry>, ls: seq<Option<Table>>, a: nat, b: nat, inter: Interval, now: nat,
                    tin: map<Row, nat>, since: map<Row, nat>)
    requires a <= b <= |es| && TinOk(t, es, ls, a, b, tin) && SinceOk(t, es, ls, a, since)
    ensures Evicted(es, a, b, inter, now, tin, tin, since, since)
  {
    forall e | e in tin ensures exists j :: a <= j < b && e in es[j].tab && es[j].ts == tin[e] {
      var j :| a <= j < b && Justified(t, es, ls, j, e) && es[j].ts == tin[e];
    }
    forall e | e in since ensures Cnt(es, a, e) > 0 {
      var j :| a <= j < |es| && Justified(t, es, ls, j, e);
      CntPositive(es, a, e);
    }
  }

  lemma EvictedIsFresh(es: seq<Entry>, a: nat, b: nat, inter: Interval, now: nat, tin0: map<Row, nat>,
                       tin: map<Row, nat>, since0: map<Row, nat>, since: map<Row, nat>)
    requires forall j :: a <= j < |es| ==> inter.LeqUpper(now - es[j].ts)
    requires Evicted(es, a, b, inter, now, tin0, tin, since0, since)
    ensures tin == Fresh(inter, now, tin0)
    ensures forall e :: e in since <==> e in since0 && Cnt(es, a, e) > 0
    ensures forall e | e in since :: since[e] == since0[e]
  {
    forall e | e in tin ensures inter.LeqUpper(now - tin[e]) {
      var j :| a <= j < b && e in es[j].tab && es[j].ts == tin[e];
    }
  }

  lemma EvictedDone(t: LeftTest, es: seq<Entry>, ls: seq<Option<Table>>, a0: nat, b0: nat, a: nat, b: nat,
                    inter: Interval, now: nat, tin0: map<Row, nat>, tin: map<Row, nat>, since0: map<Row, nat>,
                    since: map<Row, nat>)
    requires a0 <= b0 <= |es| && a0 <= a <= |es| && b == if a <= b0 then b0 else a
    requires TinOk(t, es, ls, a0, b0, tin0) && SinceOk(t, es, ls, a0, since0)
    requires forall j :: a0 <= j < a ==> !inter.LeqUpper(now - es[j].ts)
    requires forall j :: a <= j < |es| ==> inter.LeqUpper(now - es[j].ts)
    requires Evicted(es, a, b, inter, now, tin0, tin, since0, since)
    ensures TinOk(t, es, ls, a, b, tin) && SinceOk(t, es, ls, a, since)
  {
    hide TinOk, SinceOk, Evicted, Fresh;
    EvictedIsFresh(es, a, b, inter, now, tin0, tin, since0, since);
    DropKeepsTin(inter, t, es, ls, a0, b0, a, b, now, tin0);
    DropKeepsSince(t, es, ls, a0, a, since0, since);
  }

  /** `tin` after refreshing the rows of `done` whose `tuple_since` stamp is not newer than `ts`. */
  ghost predicate Refreshed(since: map<Row, nat>, tin0: map<Row, nat>, done: set<Row>, ts: nat, tin: map<Row, nat>) {
    && (forall e :: e in tin <==> e in tin0 || (e in done && e in since && since[e] <= ts))
    && (forall e | e in tin :: tin[e] == if e in done && e in since && since[e] <= ts then ts else tin0[e])
  }

  lemma PromotedInit(es: seq<Entry>, since: map<Row, nat>, tin: map<Row, nat>, b: nat)
    requires b <= |es|
    ensures Promoted(es, since, tin, b, b, tin)
  {}

  /** No stamp is newer than the tables that have not yet entered the window. */
  ghost predicate NotNewer(es: seq<Entry>, b: nat, tin: map<Row, nat>) {
    forall e, j | e in tin && b <= j < |es| :: tin[e] <= es[j].ts
  }

  lemma PromotedStep(es: seq<Entry>, since: map<Row, nat>, tin0: map<Row, nat>, b0: nat, b: nat, tin: map<Row, nat>,
                     tin': map<Row, nat>)
    requires b0 <= b < |es| && Promoted(es, since, tin0, b0, b, tin)
    requires Refreshed(since, tin, es[b].tab, es[b].ts, tin')
    requires forall e | e in tin :: tin[e] <= es[b].ts
    ensures Promoted(es, since, tin0, b0, b + 1, tin')
  {
    forall e | e in tin'
      ensures (e in tin0 && tin'[e] == tin0[e]) ||
              exists j :: b0 <= j < b + 1 && Promotes(es, since, j, e) && es[j].ts == tin'[e]
    {
      if Promotes(es, since, b, e) {
      } else if j :| b0 <= j < b && Promotes(es, since, j, e) && es[j].ts == tin[e] {
        assert b0 <= j < b + 1;
      }
    }
  }

  lemma RefreshedNotNewer(es: seq<Entry>, since: map<Row, nat>, b: nat, tin: map<Row, nat>, tin': map<Row, nat>)
    requires b < |es| && Sorted(es) && NotNewer(es, b, tin)
    requires Refreshed(since, tin, es[b].tab, es[b].ts, tin')
    ensures NotNewer(es, b + 1, tin') && forall e | e in tin :: tin[e] <= es[b].ts
  {}

  lemma TinNotNewer(t: LeftTest, es: seq<Entry>, ls: seq<Option<Table>>, a: nat, b: nat, tin: map<Row, nat>)
    requires b <= |es| && Sorted(es) && TinOk(t, es, ls, a, b, tin)
    ensures NotNewer(es, b, tin)
  {
    forall e, j | e in tin && b <= j < |es| ensures tin[e] <= es[j].ts {
      var j0 :| a <= j0 < b && Justified(t, es, ls, j0, e) && es[j0].ts == tin[e];
    }
  }

  /** As time passes, tables stay beyond the upper bound and stay past the lower bound. */
  lemma WindowLater(inter: Interval, es: seq<Entry>, a: nat, b: nat, now: nat)
    requires a <= b <= |es| && (|es| > 0 ==> Window(inter, es, a, b, es[|es| - 1].ts) && es[|es| - 1].ts <= now)
    ensures forall j :: 0 <= j < a ==> !inter.LeqUpper(now - es[j].ts)
    ensures forall j :: a <= j < b ==> !inter.LtLower(now - es[j].ts)
    ensures !inter.bounded ==> forall j :: a <= j < |es| ==> inter.LeqUpper(now - es[j].ts)
  {}

  lemma WindowAdvanced(inter: Interval, es: seq<Entry>, a: nat, b: nat, now: nat)
    requires a <= b <= |es| && Sorted(es)
    requires forall j :: 0 <= j < a ==> !inter.LeqUpper(now - es[j].ts)
    requires forall j :: a <= j < |es| ==> inter.LeqUpper(now - es[j].ts)
    requires forall j :: a <= j < b ==> !inter.LtLower(now - es[j].ts)
    requires b < |es| ==> inter.LtLower(now - es[b].ts)
    ensures Window(inter, es, a, b, now)
    ensures forall i, j :: a <= i < b <= j < |es| ==> es[i].ts < es[j].ts
  {}

  /** `counted` after counting one more occurrence of each row in `done`. */
  ghost predicate CountedUp(counted0: map<Row, nat>, done: set<Row>, counted: map<Row, nat>) {
    Positive(counted) && forall e :: Get(counted, e) == Get(counted0, e) + if e in done then 1 else 0
  }

  lemma CountsAppend(es: seq<Entry>, x: Entry, lo: nat, counted0: map<Row, nat>, counted: map<Row, nat>)
    requires lo <= |es| && CountsFrom(es, lo, counted0) && CountedUp(counted0, x.tab, counted)
    ensures CountsFrom(es + [x], lo, counted)
  {
    forall e ensures Get(counted, e) == Cnt(es + [x], lo, e) {
      CntAppend(es, x, lo, e);
    }
  }

  lemma SortedAppend(es: seq<Entry>, x: Entry)
    requires Sorted(es) && forall j :: 0 <= j < |es| ==> es[j].ts <= x.ts
    ensures Sorted(es + [x])
  {}

  lemma WindowAppend(inter: Interval, es: seq<Entry>, x: Entry, a: nat, b: nat)
    requires a <= b <= |es| && Window(inter, es, a, b, x.ts) && forall j :: 0 <= j < |es| ==> es[j].ts <= x.ts
    ensures inter.Contains(0) ==> b == |es|
    ensures Window(inter, es + [x], a, if inter.Contains(0) then b + 1 else b, x.ts)
  {
    assert b < |es| ==> inter.LtLower(x.ts - es[b].ts);
  }

  lemma JoinedNone(t: LeftTest, tin: map<Row, nat>, since: map<Row, nat>)
    ensures Joined(t, None, tin, tin) && Joined(t, None, since, since)
  {}

  lemma CountedIffRetained(es: seq<Entry>, lo: nat, counted: map<Row, nat>, e: Row)
    requires lo <= |es| && CountsFrom(es, lo, counted)
    ensures e in counted <==> exists x :: x in es[lo..] && e in x.tab
  {
    assert Get(counted, e) == Cnt(es, lo, e);
    CntPositive(es, lo, e);
    if e in counted {
      var j :| lo <= j < |es| && e in es[j].tab;
      assert es[lo..][j - lo] == es[j];
    }
  }

  lemma QueueSlices(es: seq<Entry>, x: Entry, a: nat, b: nat)
    requires a <= b <= |es|
    ensures (es + [x])[b..] == es[b..] + [x] && (es + [x])[a..b] == es[a..b]
    ensures b == |es| ==> (es + [x])[a..b + 1] == es[a..b] + [x] && (es + [x])[b + 1..] == [] == es[b..]
  {}

  /** The positions, from `lo` on, of the tables that hold row `e`. */
  ghost function Holding(q: seq<Entry>, lo: nat, e: Row): set<nat> {
    set k: nat | lo <= k < |q| && e in q[k].tab
  }

  lemma {:induction false} CntHolding(q: seq<Entry>, lo: nat, e: Row)
    requires lo <= |q|
    ensures Cnt(q, lo, e) == |Holding(q, lo, e)|
    decreases |q| - lo
  {
    if lo < |q| {
      CntHolding(q, lo + 1, e);
      assert Holding(q, lo, e) == (if e in q[lo].tab then {lo} else {}) + Holding(q, lo + 1, e);
    }
  }

  lemma {:induction false} CntSuffix(es: seq<Entry>, a: nat, lo: nat, e: Row)
    requires a <= lo <= |es|
    ensures Cnt(es, lo, e) == Cnt(es[a..], lo - a, e)
    decreases |es| - lo
  {
    if lo < |es| {
      CntSuffix(es, a, lo + 1, e);
      assert es[a..][lo - a] == es[lo];
    }
  }

  /** The reference counts are the numbers of retained tables with the row. */
  lemma CountsExact(es: seq<Entry>, a: nat, counted: map<Row, nat>)
    requires a <= |es| && CountsFrom(es, a, counted)
    ensures forall e :: e in counted <==> exists x :: x in es[a..] && e in x.tab
    ensures forall e | e in counted :: counted[e] == |Holding(es[a..], 0, e)|
  {
    hide Cnt, Holding;
    forall e | e in counted ensures counted[e] == |Holding(es[a..], 0, e)| {
      assert Get(counted, e) == Cnt(es, a, e);
      CntSuffix(es, a, a, e);
      CntHolding(es[a..], 0, e);
    }
    forall e ensures e in counted <==> exists x :: x in es[a..] && e in x.tab {
      CountedIffRetained(es, a, counted, e);
    }
  }

  class SinceImpl {
    const inter: Interval
    const test: LeftTest
    const nfvs: nat
    const agg: TemporalAgg?

    var dataPrev: seq<Entry>
    var dataIn: seq<Entry>
    var tupleIn: map<Row, nat>
    var tupleSince: map<Row, nat>
    var allDataCounted: map<Row, nat>

    /** Everything fed so far: right tables with timestamps, and left conditions. */
    ghost var es: seq<Entry>
    ghost var ls: seq<Option<Table>>
    /** `dataIn` holds `es[a..b]` (if the interval is bounded), `dataPrev` holds `es[b..]`. */
    ghost var a: nat
    ghost var b: nat
    /** Rows that were cleared from `tupleIn` without telling the aggregator. */
    ghost var stale: multiset<Row>

    ghost function Hooked(): set<object> {
      if agg == null then {} else {agg}
    }

    ghost predicate Queues()
      reads this`es, this`a, this`b, this`dataPrev, this`dataIn
    {
      && Sorted(es) && a <= b <= |es|
      && dataPrev == es[b..]
      && (if inter.bounded then dataIn == es[a..b] else dataIn == [] && a == 0)
      && forall j :: 0 <= j < |es| ==> forall e | e in es[j].tab :: |e| == nfvs
    }

    ghost predicate Counts()
      reads this`es, this`a, this`allDataCounted
    {
      if inter.bounded then
        CountsFrom(es, a, allDataCounted)
      else allDataCounted == map[]
    }

    ghost predicate Fitting() {
      && InRange(test.idx, nfvs)
      && (agg != null ==> InRange(agg.config.groupIdxs, nfvs) && agg.config.termIdx < nfvs)
    }

    ghost predicate AggOk()
      reads this`tupleIn, this`stale, Hooked()
    {
      && Fitting()
      && (forall e | e in tupleIn :: |e| == nfvs)
      && (agg != null ==> agg.Valid() && agg.bag == multiset(tupleIn.Keys) + stale)
    }

    ghost predicate Valid()
      reads this, Hooked()
    {
      && Queues() && Counts() && AggOk()
      && |ls| == |es|
      && TinOk(test, es, ls, a, b, tupleIn)
      && SinceOk(test, es, ls, a, tupleSince)
      && (|es| > 0 ==> Window(inter, es, a, b, es[|es| - 1].ts))
    }

    lemma QueueFacts()
      requires Queues()
      ensures Sorted(es) && a <= b <= |es|
    {}

    constructor (inter: Interval, test: LeftTest, nfvs: nat, agg: TemporalAgg?)
      requires InRange(test.idx, nfvs)
      requires agg != null ==> agg.Valid() && agg.bag == multiset{}
      requires agg != null ==> InRange(agg.config.groupIdxs, nfvs) && agg.config.termIdx < nfvs
      ensures Valid() && es == [] && ls == [] && stale == multiset{}
      ensures this.inter == inter && this.test == test && this.nfvs == nfvs && this.agg == agg
    {
      this.inter, this.test, this.nfvs, this.agg := inter, test, nfvs, agg;
      dataPrev, dataIn := [], [];
      tupleIn, tupleSince, allDataCounted := map[], map[], map[];
      es, ls, a, b, stale := [], [], 0, 0, multiset{};
    }

    // ----- hooks into the aggregator -----

    method TupleInUpdate(e: Row, ts: nat)
      requires AggOk() && |e| == nfvs
      modifies this`tupleIn, Hooked()
      ensures AggOk() && tupleIn == old(tupleIn)[e := ts]
    {
      if agg != null && e !in tupleIn {
        agg.AddResult(e);
        assert multiset(tupleIn.Keys + {e}) == multiset(tupleIn.Keys) + multiset{e};
      }
      tupleIn := tupleIn[e := ts];
      assert e in old(tupleIn) ==> tupleIn.Keys == old(tupleIn.Keys);
      assert tupleIn.Keys == old(tupleIn.Keys) + {e};
    }

    method TupleInErase(e: Row)
      requires AggOk() && e in tupleIn
      modifies this`tupleIn, Hooked()
      ensures AggOk() && tupleIn == old(tupleIn) - {e}
    {
      if agg != null {
        agg.RemoveResult(e);
        assert multiset(tupleIn.Keys - {e}) == multiset(tupleIn.Keys) - multiset{e};
      }
      tupleIn := tupleIn - {e};
      assert tupleIn.Keys == old(tupleIn.Keys) - {e};
    }

    // ----- eviction -----

    method DropTupleFromAllData(e: Row)
      requires e in allDataCounted && allDataCounted[e] > 0 && AggOk()
      modifies this`allDataCounted, this`tupleSince
      ensures AggOk()
      ensures DroppedOne(old(allDataCounted), old(tupleSince), e, allDataCounted, tupleSince)
    {
      allDataCounted := allDataCounted[e := allDataCounted[e] - 1];
      if allDataCounted[e] == 0 {
        tupleSince := tupleSince - {e};
        allDataCounted := allDataCounted - {e};
      }
    }

    /** One row of an evicted table; with `inWindow`, its stamp leaves `tupleIn`. */
    method DropRow(e: Row, ts: nat, inWindow: bool)
      requires e in allDataCounted && allDataCounted[e] > 0 && AggOk()
      modifies this`allDataCounted, this`tupleSince, this`tupleIn, Hooked()
      ensures AggOk()
      ensures tupleIn == if inWindow && e in old(tupleIn)
              && old(tupleIn)[e] == ts then old(tupleIn) - {e} else old(tupleIn)
      ensures DroppedOne(old(allDataCounted), old(tupleSince), e, allDataCounted, tupleSince)
    {
      if inWindow && e in tupleIn && tupleIn[e] == ts {
        TupleInErase(e);
      }
      DropTupleFromAllData(e);
    }

    method DropTable(x: Entry, inWindow: bool)
      requires AggOk() && Positive(allDataCounted)
      requires forall e | e in x.tab :: e in allDataCounted
      modifies this`allDataCounted, this`tupleSince, this`tupleIn, Hooked()
      ensures AggOk() && Forgotten(old(allDataCounted), old(tupleSince), x.tab, allDataCounted, tupleSince)
      ensures if inWindow then Unstamped(old(tupleIn), x.tab, x.ts, tupleIn) else tupleIn == old(tupleIn)
    {
      ghost var counted0, since0, tin0, done := allDataCounted, tupleSince, tupleIn, {};
      var todo := x.tab;
      while todo != {}
        invariant done !! todo && done + todo == x.tab && AggOk()
        invariant Forgotten(counted0, since0, done, allDataCounted, tupleSince)
        invariant if inWindow then Unstamped(tin0, done, x.ts, tupleIn) else tupleIn == tin0
      {
        var e :| e in todo;
        ghost var counted, since, tin := allDataCounted, tupleSince, tupleIn;
        assert Get(counted, e) == Get(counted0, e) > 0;
        DropRow(e, x.ts, inWindow);
        ForgottenStep(counted0, since0, done, e, counted, since, allDataCounted, tupleSince);
        if inWindow {
          UnstampedStep(tin0, done, e, x.ts, tin, tupleIn);
        }
        done, todo := done + {e}, todo - {e};
      }
      assert done == x.tab;
    }

    method PopOldest(inWindow: bool)
      requires Queues() && inter.bounded
      requires if inWindow then dataIn != [] else dataIn == [] && dataPrev != []
      modifies this`dataIn, this`dataPrev, this`a, this`b
      ensures Queues() && a == old(a) + 1 && b == if inWindow then old(b) else old(b) + 1
    {
      if inWindow {
        dataIn := dataIn[1..];
      } else {
        dataPrev := dataPrev[1..];
        b := b + 1;
      }
      a := a + 1;
    }

    /** Pops the oldest table; it is beyond the upper bound of the interval. */
    method DropOldest(inWindow: bool, ts: nat, ghost tin0: map<Row, nat>, ghost since0: map<Row, nat>)
      requires Queues() && Counts() && AggOk() && inter.bounded
      requires if inWindow then dataIn != [] else dataIn == [] && dataPrev != []
      requires !inter.LeqUpper(ts - es[a].ts)
      requires Evicted(es, a, b, inter, ts, tin0, tupleIn, since0, tupleSince)
      modifies this`dataIn, this`dataPrev, this`tupleIn, this`tupleSince, this`allDataCounted, this`a, this`b, Hooked()
      ensures Queues() && Counts() && AggOk()
      ensures a == old(a) + 1 && b == if inWindow then old(b) else old(b) + 1
      ensures Evicted(es, a, b, inter, ts, tin0, tupleIn, since0, tupleSince)
    {
      hide Evicted, Forgotten, CountsFrom, Unstamped, AggOk;
      var x := if inWindow then dataIn[0] else dataPrev[0];
      assert x == es[a];
      CountedRows(es, a, allDataCounted);
      ghost var counted1, since1, tin1 := allDataCounted, tupleSince, tupleIn;
      DropTable(x, inWindow);
      CountsStep(es, a, counted1, since1, allDataCounted, tupleSince);
      EvictedStep(es, a, b, inter, ts, tin0, tin1, tupleIn, since0, since1, tupleSince, counted1, allDataCounted,
          inWindow);
      PopOldest(inWindow);
    }

    /** The first loop of `drop_too_old`. */
    method DropFromWindow(ts: nat, ghost tin0: map<Row, nat>, ghost since0: map<Row, nat>)
      requires Queues() && Counts() && AggOk() && inter.bounded
      requires Evicted(es, a, b, inter, ts, tin0, tupleIn, since0, tupleSince)
      modifies this`dataIn, this`dataPrev, this`tupleIn, this`tupleSince, this`allDataCounted, this`a, this`b, Hooked()
      ensures Queues() && Counts() && AggOk()
      ensures old(a) <= a && b == old(b) && (a < b ==> inter.LeqUpper(ts - es[a].ts))
      ensures forall j :: old(a) <= j < a ==> !inter.LeqUpper(ts - es[j].ts)
      ensures Evicted(es, a, b, inter, ts, tin0, tupleIn, since0, tupleSince)
    {
      hide AggOk, CountsFrom, Evicted, Sorted;
      while dataIn != []
        invariant Queues() && Counts() && AggOk()
        invariant old(a) <= a && b == old(b)
        invariant forall j :: old(a) <= j < a ==> !inter.LeqUpper(ts - es[j].ts)
        invariant Evicted(es, a, b, inter, ts, tin0, tupleIn, since0, tupleSince)
        decreases |dataIn|
      {
        assert dataIn[0] == es[a];
        if inter.LeqUpper(ts - dataIn[0].ts) {
          break;
        }
        DropOldest(true, ts, tin0, since0);
      }
    }

    /** The second loop of `drop_too_old`: only reached by tables that never entered the window. */
    method DropFromPrev(ts: nat, ghost tin0: map<Row, nat>, ghost since0: map<Row, nat>)
      requires Queues() && Counts() && AggOk() && inter.bounded
      requires a < b ==> inter.LeqUpper(ts - es[a].ts)
      requires Evicted(es, a, b, inter, ts, tin0, tupleIn, since0, tupleSince)
      modifies this`dataIn, this`dataPrev, this`tupleIn, this`tupleSince, this`allDataCounted, this`a, this`b, Hooked()
      ensures Queues() && Counts() && AggOk()
      ensures old(a) <= a && b == (if a <= old(b) then old(b) else a)
      ensures a < |es| ==> inter.LeqUpper(ts - es[a].ts)
      ensures forall j :: old(a) <= j < a ==> !inter.LeqUpper(ts - es[j].ts)
      ensures Evicted(es, a, b, inter, ts, tin0, tupleIn, since0, tupleSince)
    {
      hide AggOk, CountsFrom, Evicted;
      while dataPrev != []
        invariant Queues() && Counts() && AggOk()
        invariant old(a) <= a && b == (if a <= old(b) then old(b) else a)
        invariant forall j :: old(a) <= j < a ==> !inter.LeqUpper(ts - es[j].ts)
        invariant a < b ==> inter.LeqUpper(ts - es[a].ts)
        invariant Evicted(es, a, b, inter, ts, tin0, tupleIn, since0, tupleSince)
        decreases |dataPrev|
      {
        assert dataPrev[0] == es[b];
        if inter.LeqUpper(ts - dataPrev[0].ts) {
          break;
        }
        assert a == b;
        DropOldest(false, ts, tin0, since0);
      }
    }

    /** Drops everything beyond the upper bound of the interval. */
    method DropTooOld(ts: nat)
      requires Queues() && Counts() && AggOk() && inter.bounded
      requires |ls| == |es| && TinOk(test, es, ls, a, b, tupleIn) && SinceOk(test, es, ls, a, tupleSince)
      modifies this`dataIn, this`dataPrev, this`tupleIn, this`tupleSince, this`allDataCounted, this`a, this`b, Hooked()
      ensures Queues() && Counts() && AggOk()
      ensures old(a) <= a && b == (if a <= old(b) then old(b) else a)
      ensures forall j :: old(a) <= j < a ==> !inter.LeqUpper(ts - es[j].ts)
      ensures forall j :: a <= j < |es| ==> inter.LeqUpper(ts - es[j].ts)
      ensures TinOk(test, es, ls, a, b, tupleIn) && SinceOk(test, es, ls, a, tupleSince)
    {
      hide AggOk, CountsFrom, TinOk, SinceOk, Evicted;
      ghost var a0, b0, tin0, since0 := a, b, tupleIn, tupleSince;
      EvictedInit(test, es, ls, a, b, inter, ts, tupleIn, tupleSince);
      DropFromWindow(ts, tin0, since0);
      DropFromPrev(ts, tin0, since0);
      EvictedDone(test, es, ls, a0, b0, a, b, inter, ts, tin0, tupleIn, since0, tupleSince);
    }

    // ----- advancing the window -----

    /** Refreshes the stamps of the rows of a table that enters the window. */
    method RefreshTable(x: Entry)
      requires AggOk() && forall e | e in x.tab :: |e| == nfvs
      modifies this`tupleIn, Hooked()
      ensures AggOk() && Refreshed(tupleSince, old(tupleIn), x.tab, x.ts, tupleIn)
    {
      hide AggOk;
      ghost var tin0, done := tupleIn, {};
      var todo := x.tab;
      while todo != {}
        invariant done !! todo && done + todo == x.tab && AggOk()
        invariant Refreshed(tupleSince, tin0, done, x.ts, tupleIn)
      {
        var e :| e in todo;
        if e in tupleSince && tupleSince[e] <= x.ts {
          TupleInUpdate(e, x.ts);
        }
        done, todo := done + {e}, todo - {e};
      }
      assert done == x.tab;
    }

    /** The oldest waiting table enters the window; an unbounded interval does not keep it. */
    method EnterWindow()
      requires Queues() && dataPrev != []
      modifies this`dataIn, this`dataPrev, this`b
      ensures Queues() && b == old(b) + 1 && dataPrev == old(dataPrev)[1..]
    {
      if inter.bounded {
        dataIn := dataIn + [dataPrev[0]];
      }
      dataPrev := dataPrev[1..];
      b := b + 1;
    }

    /** The oldest waiting table refreshes its rows and enters the window. */
    method MoveOldest(ghost tin0: map<Row, nat>, ghost b0: nat)
      requires Queues() && AggOk() && NotNewer(es, b, tupleIn) && dataPrev != []
      requires b0 <= b && Promoted(es, tupleSince, tin0, b0, b, tupleIn)
      modifies this`dataIn, this`dataPrev, this`tupleIn, this`b, Hooked()
      ensures Queues() && AggOk() && NotNewer(es, b, tupleIn)
      ensures b == old(b) + 1 && dataPrev == old(dataPrev)[1..]
      ensures Promoted(es, tupleSince, tin0, b0, b, tupleIn)
    {
      hide AggOk, Promoted, Refreshed, NotNewer, Sorted;
      ghost var tin := tupleIn;
      assert dataPrev[0] == es[b];
      RefreshTable(dataPrev[0]);
      RefreshedNotNewer(es, tupleSince, b, tin, tupleIn);
      PromotedStep(es, tupleSince, tin0, b0, b, tin, tupleIn);
      EnterWindow();
    }

    /** Moves tables that have reached the lower bound of the interval into the window. */
    method MoveIntoWindow(ts: nat)
      requires Queues() && AggOk() && NotNewer(es, b, tupleIn)
      modifies this`dataIn, this`dataPrev, this`tupleIn, this`b, Hooked()
      ensures Queues() && AggOk()
      ensures old(b) <= b && Promoted(es, tupleSince, old(tupleIn), old(b), b, tupleIn)
      ensures forall j :: old(b) <= j < b ==> !inter.LtLower(ts - es[j].ts)
      ensures b < |es| ==> inter.LtLower(ts - es[b].ts)
    {
      hide AggOk, Promoted, Refreshed, NotNewer, Sorted;
      ghost var tin0, b0, h := tupleIn, b, es;
      PromotedInit(es, tupleSince, tin0, b0);
      while dataPrev != []
        invariant Queues() && AggOk() && b0 <= b
        invariant Promoted(es, tupleSince, tin0, b0, b, tupleIn)
        invariant NotNewer(es, b, tupleIn)
        invariant forall j :: b0 <= j < b ==> !inter.LtLower(ts - h[j].ts)
        decreases |dataPrev|
      {
        var latest := dataPrev[0];
        assert latest == es[b];
        if inter.LtLower(ts - latest.ts) {
          break;
        }
        MoveOldest(tin0, b0);
      }
    }

    /** The window of the previous step, seen from the new timestamp, can only have gained at its lower bound. */
    method AddNewTs(ts: nat)
      requires Valid() && forall j :: 0 <= j < |es| ==> es[j].ts <= ts
      modifies this`dataIn, this`dataPrev, this`tupleIn, this`tupleSince, this`allDataCounted, this`a, this`b, Hooked()
      ensures Queues() && Counts() && AggOk() && Window(inter, es, a, b, ts)
      ensures TinOk(test, es, ls, a, b, tupleIn) && SinceOk(test, es, ls, a, tupleSince)
    {
      hide AggOk, TinOk, SinceOk, CountsFrom, Promoted, NotNewer, Window, Sorted, Queues, Counts;
      QueueFacts();
      WindowLater(inter, es, a, b, ts);
      if inter.bounded {
        DropTooOld(ts);
        QueueFacts();
      }
      ghost var b1, tin := b, tupleIn;
      TinNotNewer(test, es, ls, a, b, tupleIn);
      MoveIntoWindow(ts);
      QueueFacts();
      WindowAdvanced(inter, es, a, b, ts);
      AdvanceKeepsTin(test, es, ls, a, b1, b, tupleSince, tin, tupleIn);
    }

    // ----- the left operand -----

    /** `erase_if` on the stamps: rows that fail the left condition leave, and the aggregator is told. */
    method TupleInEraseIf(tabL: Table)
      requires AggOk()
      modifies this`tupleIn, Hooked()
      ensures AggOk() && Joined(test, Some(tabL), old(tupleIn), tupleIn)
    {
      hide AggOk;
      ghost var tin0, done := tupleIn, {};
      var todo := tupleIn.Keys;
      RowsFit();
      while todo != {}
        invariant done !! todo && done + todo == tin0.Keys && AggOk()
        invariant forall e :: e in tupleIn <==> e in tin0 && (e in done ==> LeftOk(test, Some(tabL), e))
        invariant forall e | e in tupleIn :: tupleIn[e] == tin0[e]
      {
        var e :| e in todo;
        if (FilterRow(test.idx, e) in tabL) == test.negated {
          TupleInErase(e);
        }
        done, todo := done + {e}, todo - {e};
      }
      assert done == tin0.Keys;
    }

    lemma RowsFit()
      requires AggOk()
      ensures forall e | e in tupleIn :: InRange(test.idx, |e|)
    {}

    method Join(tabL: Table)
      requires AggOk() && forall e | e in tupleSince :: |e| == nfvs
      modifies this`tupleIn, this`tupleSince, this`stale, Hooked()
      ensures AggOk()
      ensures Joined(test, Some(tabL), old(tupleIn), tupleIn) && Joined(test, Some(tabL), old(tupleSince), tupleSince)
      ensures stale == if tabL == {} && !test.negated then old(stale) + multiset(old(tupleIn).Keys) else old(stale)
    {
      if tabL != {} {
        tupleSince := map e | e in tupleSince && (FilterRow(test.idx, e) in tabL) != test.negated :: tupleSince[e];
        TupleInEraseIf(tabL);
      } else if !test.negated {
        stale := stale + multiset(tupleIn.Keys);
        tupleIn := map[];
        tupleSince := map[];
      }
    }

    // ----- the right operand -----

    method CountRow(e: Row, ts: nat)
      requires AggOk()
      modifies this`tupleSince, this`allDataCounted
      ensures AggOk()
      ensures tupleSince == if e in old(tupleSince) then old(tupleSince) else old(tupleSince)[e := ts]
      ensures allDataCounted == if inter.bounded then old(allDataCounted)[e := Get(old(allDataCounted), e) + 1]
              else old(allDataCounted)
    {
      if e !in tupleSince {
        tupleSince := tupleSince[e := ts];
      }
      if inter.bounded {
        allDataCounted := allDataCounted[e := (if e in allDataCounted then allDataCounted[e] else 0) + 1];
      }
    }

    method CountRows(tabR: Table, ts: nat)
      requires a <= |es| && Counts() && AggOk()
      modifies this`tupleSince, this`allDataCounted
      ensures AggOk()
      ensures Stamped(old(tupleSince), tabR, ts, false, tupleSince)
      ensures if inter.bounded then CountsFrom(es + [Entry(ts, tabR)], a, allDataCounted) else allDataCounted == map[]
    {
      hide AggOk;
      ghost var since0, counted0, done := tupleSince, allDataCounted, {};
      var todo := tabR;
      while todo != {}
        invariant done !! todo && done + todo == tabR && AggOk()
        invariant Stamped(since0, done, ts, false, tupleSince)
        invariant if inter.bounded then CountedUp(counted0, done, allDataCounted) else allDataCounted == counted0
      {
        var e :| e in todo;
        CountRow(e, ts);
        done, todo := done + {e}, todo - {e};
      }
      assert done == tabR;
      if inter.bounded {
        CountsAppend(es, Entry(ts, tabR), a, counted0, allDataCounted);
      }
    }

    method StampRows(tabR: Table, ts: nat)
      requires AggOk() && forall e | e in tabR :: |e| == nfvs
      modifies this`tupleIn, Hooked()
      ensures AggOk() && Stamped(old(tupleIn), tabR, ts, true, tupleIn)
    {
      hide AggOk;
      ghost var tin0, done := tupleIn, {};
      var todo := tabR;
      while todo != {}
        invariant done !! todo && done + todo == tabR && AggOk()
        invariant Stamped(tin0, done, ts, true, tupleIn)
      {
        var e :| e in todo;
        TupleInUpdate(e, ts);
        done, todo := done + {e}, todo - {e};
      }
      assert done == tabR;
    }

    /** A new table waits, unless the interval contains 0: then it is in the window at once. */
    method Enqueue(x: Entry)
      requires Queues() && Sorted(es + [x]) && forall e | e in x.tab :: |e| == nfvs
      requires AggOk() && (inter.Contains(0) ==> b == |es|)
      modifies this`dataIn, this`dataPrev, this`es, this`b
      ensures AggOk()
      ensures Queues() && es == old(es) + [x] && b == if inter.Contains(0) then old(b) + 1 else old(b)
    {
      AppendToQueue(x);
    }

    method AppendToQueue(x: Entry)
      requires Queues() && Sorted(es + [x]) && (forall e | e in x.tab :: |e| == nfvs)
               && (inter.Contains(0) ==> b == |es|)
      modifies this`dataIn, this`dataPrev, this`es, this`b
      ensures Queues() && es == old(es) + [x] && b == if inter.Contains(0) then old(b) + 1 else old(b)
    {
      hide Sorted;
      QueueSlices(es, x, a, b);
      if inter.Contains(0) {
        if inter.bounded {
          dataIn := dataIn + [x];
        }
        b := b + 1;
      } else {
        dataPrev := dataPrev + [x];
      }
      es := es + [x];
      assert dataPrev == es[b..];
      assert inter.bounded ==> dataIn == es[a..b];
    }

    /** The rows of a new table are counted and stamped. */
    method RecordRows(tabR: Table, ts: nat)
      requires a <= |es| && Counts() && AggOk() && forall e | e in tabR :: |e| == nfvs
      modifies this`tupleIn, this`tupleSince, this`allDataCounted, Hooked()
      ensures AggOk() && Stamped(old(tupleSince), tabR, ts, false, tupleSince)
      ensures if inter.Contains(0) then Stamped(old(tupleIn), tabR, ts, true, tupleIn) else tupleIn == old(tupleIn)
      ensures if inter.bounded then CountsFrom(es + [Entry(ts, tabR)], a, allDataCounted) else allDataCounted == map[]
    {
      hide AggOk, CountsFrom, CountedUp, Stamped;
      CountRows(tabR, ts);
      if inter.Contains(0) {
        StampRows(tabR, ts);
      }
    }

    method AddNewTable(tabR: Table, ts: nat)
      requires Queues() && Counts() && AggOk() && Window(inter, es, a, b, ts)
      requires |ls| == |es| + 1 && TinOk(test, es, ls, a, b, tupleIn) && SinceOk(test, es, ls, a, tupleSince)
      requires forall e | e in tabR :: |e| == nfvs
      requires forall j :: 0 <= j < |es| ==> es[j].ts <= ts
      modifies this`dataIn, this`dataPrev, this`tupleIn, this`tupleSince, this`allDataCounted, this`es, this`b, Hooked()
      ensures Valid() && es == old(es) + [Entry(ts, tabR)]
    {
      hide AggOk, TinOk, SinceOk, CountsFrom, CountedUp, Stamped, Window, Sorted, Queues;
      QueueFacts();
      var x := Entry(ts, tabR);
      ghost var es0, b0, tin0, since0 := es, b, tupleIn, tupleSince;
      RecordRows(tabR, ts);
      SortedAppend(es, x);
      WindowAppend(inter, es, x, a, b);
      Enqueue(x);
      AppendKeepsSince(test, es0, ls, x, a, since0, tupleSince);
      AppendKeepsTin(test, es0, ls, x, a, b0, inter.Contains(0), tin0, tupleIn);
    }

    // ----- one time point -----

    /** The window moves up to the new timestamp, and rows that fail the left operand leave (once has none). */
    method AcceptLeft(left: Option<Table>, ts: nat)
      requires Valid() && forall j :: 0 <= j < |es| ==> es[j].ts <= ts
      modifies this, Hooked()
      ensures Queues() && Counts() && AggOk() && Window(inter, es, a, b, ts) && es == old(es) && ls == old(ls) + [left]
      ensures |ls| == |es| + 1 && TinOk(test, es, ls, a, b, tupleIn) && SinceOk(test, es, ls, a, tupleSince)
      ensures Cleared(left, old(es), old(ls), ts, old(stale), stale)
    {
      hide AggOk, TinOk, SinceOk, CountsFrom, Joined, Window, Sorted, Queues, Counts;
      ghost var es0, ls0, stale0 := es, ls, stale;
      AddNewTs(ts);
      QueueFacts();
      TinIsPending(inter, test, es, ls, a, b, ts, tupleIn);
      ghost var tin, since := tupleIn, tupleSince;
      if left.Some? {
        SinceRowsFit(es0, ls0);
        Join(left.value);
      } else {
        JoinedNone(test, tupleIn, tupleSince);
      }
      ClearedStep(left, es0, ls0, ts, tin, stale0, stale);
      JoinKeeps(test, es0, ls0, left, a, b, tin, tupleIn, since, tupleSince);
      ls := ls + [left];
    }

    /** Everything but producing the result; without a left operand this is the once operator. */
    method Advance(left: Option<Table>, tabR: Table, ts: nat)
      requires Valid() && (forall e | e in tabR :: |e| == nfvs)
      requires forall j :: 0 <= j < |es| ==> es[j].ts <= ts
      modifies this, Hooked()
      ensures Valid() && es == old(es) + [Entry(ts, tabR)] && ls == old(ls) + [left]
      ensures forall e :: e in tupleIn <==> SinceSat(inter, test, es, ls, |es| - 1, e)
      ensures Cleared(left, old(es), old(ls), ts, old(stale), stale)
    {
      hide Valid, AggOk, TinOk, SinceOk, Window, Sorted, Queues, Counts, Cleared, SinceSat;
      AcceptLeft(left, ts);
      AddNewTable(tabR, ts);
      TinIsSatAll();
    }

    /** An empty left table under a positive test clears the window without telling the aggregator. */
    ghost predicate Cleared(left: Option<Table>, es0: seq<Entry>, ls0: seq<Option<Table>>, ts: nat,
                            stale0: multiset<Row>, stale1: multiset<Row>) {
      if left == Some({}) && !test.negated then
        exists rows: set<Row> :: stale1 == stale0 + multiset(rows) && PendingRows(inter, test, es0, ls0, ts, rows)
      else stale1 == stale0
    }

    lemma ClearedStep(left: Option<Table>, es0: seq<Entry>, ls0: seq<Option<Table>>, ts: nat, tin: map<Row, nat>,
                      stale0: multiset<Row>, stale1: multiset<Row>)
      requires forall e :: e in tin <==> Pending(inter, test, es0, ls0, ts, e)
      requires stale1 == if left == Some({}) && !test.negated then stale0 + multiset(tin.Keys) else stale0
      ensures Cleared(left, es0, ls0, ts, stale0, stale1)
    {
      assert PendingRows(inter, test, es0, ls0, ts, tin.Keys);
    }

    lemma SinceRowsFit(es0: seq<Entry>, ls0: seq<Option<Table>>)
      requires Queues() && es == es0 && SinceOk(test, es0, ls0, a, tupleSince)
      ensures forall e | e in tupleSince :: |e| == nfvs
    {
      forall e | e in tupleSince ensures |e| == nfvs {
        var j :| a <= j < |es| && Justified(test, es0, ls0, j, e);
      }
    }

    lemma TinIsSatAll()
      requires Valid() && |es| > 0
      ensures forall e :: e in tupleIn <==> SinceSat(inter, test, es, ls, |es| - 1, e)
    {
      hide TinOk, SinceOk, Window, Counts, AggOk, Sorted, SinceSat;
      forall e ensures e in tupleIn <==> SinceSat(inter, test, es, ls, |es| - 1, e) {
        TinIsSat(inter, test, es, ls, a, b, tupleIn, e);
      }
    }

    method EvalSince(tabL: Table, tabR: Table, ts: nat) returns (r: Table)
      requires Valid() && agg == null && (forall e | e in tabR :: |e| == nfvs)
      requires forall j :: 0 <= j < |es| ==> es[j].ts <= ts
      modifies this
      ensures Valid() && es == old(es) + [Entry(ts, tabR)] && ls == old(ls) + [Some(tabL)]
      ensures forall e :: e in r <==> SinceSat(inter, test, es, ls, |es| - 1, e)
    {
      Advance(Some(tabL), tabR, ts);
      r := tupleIn.Keys;
    }

    method EvalOnce(tabR: Table, ts: nat) returns (r: Table)
      requires Valid() && agg == null && (forall e | e in tabR :: |e| == nfvs)
      requires forall j :: 0 <= j < |es| ==> es[j].ts <= ts
      modifies this
      ensures Valid() && es == old(es) + [Entry(ts, tabR)] && ls == old(ls) + [None]
      ensures forall e :: e in r <==> SinceSat(inter, test, es, ls, |es| - 1, e)
    {
      Advance(None, tabR, ts);
      r := tupleIn.Keys;
    }

    /**
     * With a fused aggregator (`left` is `None` for once) the result aggregates the satisfying rows
     * and the stale ones.
     */
    method EvalAgg(left: Option<Table>, tabR: Table, ts: nat) returns (out: set<ResultRow>, ghost rows: set<Row>)
      requires Valid() && agg != null && (forall e | e in tabR :: |e| == nfvs)
      requires forall j :: 0 <= j < |es| ==> es[j].ts <= ts
      modifies this, agg
      ensures Valid() && es == old(es) + [Entry(ts, tabR)] && ls == old(ls) + [left]
      ensures forall e :: e in rows <==> SinceSat(inter, test, es, ls, |es| - 1, e)
      ensures Aggregates(agg.config, multiset(rows) + stale, out)
      ensures Cleared(left, old(es), old(ls), ts, old(stale), stale)
    {
      hide Valid, AggOk, Cleared, SinceSat, Aggregates;
      Advance(left, tabR, ts);
      rows := tupleIn.Keys;
      out := ProduceAggregate();
    }

    method ProduceAggregate() returns (out: set<ResultRow>)
      requires Valid() && agg != null
      ensures Aggregates(agg.config, multiset(tupleIn.Keys) + stale, out)
    {
      hide TinOk, SinceOk, Counts, Queues, Window;
      out := agg.FinalizeTable();
    }

    /** The stamps cover one another, and each row is counted once for every retained table that holds it. */
    lemma StampsCovered()
      requires Valid() && |es| > 0
      ensures tupleIn.Keys <= tupleSince.Keys
      ensures inter.bounded ==> tupleSince.Keys <= allDataCounted.Keys
      ensures inter.bounded ==> forall e :: e in allDataCounted <==> exists x :: x in dataIn + dataPrev && e in x.tab
      ensures inter.bounded ==>
              forall e | e in allDataCounted :: allDataCounted[e] == |Holding(dataIn + dataPrev, 0, e)|
    {
      hide Window, AggOk, Sorted, CountsFrom, Holding;
      forall e | e in tupleIn ensures e in tupleSince {
        var j :| a <= j < b && Justified(test, es, ls, j, e) && es[j].ts == tupleIn[e];
      }
      if inter.bounded {
        assert dataIn + dataPrev == es[a..];
        CountsExact(es, a, allDataCounted);
        forall e | e in tupleSince ensures e in allDataCounted {
          var j :| a <= j < |es| && Justified(test, es, ls, j, e);
          assert es[j] in es[a..] && e in es[j].tab;
        }
      }
    }

    /** Nothing outside the window is retained. */
    lemma RetainedInWindow()
      requires Valid() && |es| > 0
      ensures forall x | x in dataIn :: inter.Contains(es[|es| - 1].ts - x.ts)
      ensures forall x | x in dataPrev ::
              inter.LtLower(es[|es| - 1].ts - x.ts) && inter.LeqUpper(es[|es| - 1].ts - x.ts)
    {
      hide TinOk, SinceOk, Counts, AggOk, Sorted;
      assert forall x | x in dataIn :: exists j :: a <= j < b && x == es[j];
      assert forall x | x in dataPrev :: exists j :: b <= j < |es| && x == es[j];
    }
  }
}
