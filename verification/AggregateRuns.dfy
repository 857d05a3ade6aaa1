/**
 * Aggregations at the root of a formula, over whole runs (src/monitor.cpp, MAgg
 * and init_agg_state): compilation, the operand's own stream of tables, and the
 * aggregator, which sits above the operand or, for once, is fused into it.
 */
module AggregateRuns {
  import opened Wrappers
  import opened Intervals
  import opened Tables
  import opened Temporal
  import opened Formulas
  import opened Joins
  import opened Meaning
  import opened Buffers
  import opened Streams
  import opened TemporalStreams
  import opened StreamProgress
  import opened Layouts
  import opened SinceSpec
  import opened SinceOperator
  import opened OperatorTree
  import opened StateInit
  import opened AggSpec
  import opened Aggregation
  import opened TemporalAggregation
  import opened AggregateMeaning

  /** Table `k` is the aggregation's at time point `k`. */
  ghost predicate AggVerdicts(a: AggOp, default: Option<AggResult>, phi: Formula, lay: Layout, groupVars: Layout,
                              tr: seq<TimePoint>, outs: seq<set<ResultRow>>) {
    forall k :: 0 <= k < |outs| ==> IsAggregate(a, default, phi, lay, groupVars, tr, k, outs[k])
  }

  lemma AggVerdictsMore(a: AggOp, default: Option<AggResult>, phi: Formula, lay: Layout, groupVars: Layout,
                        tr: seq<TimePoint>, outs: seq<set<ResultRow>>, out: set<ResultRow>)
    requires AggVerdicts(a, default, phi, lay, groupVars, tr, outs)
    requires IsAggregate(a, default, phi, lay, groupVars, tr, |outs|, out)
    ensures AggVerdicts(a, default, phi, lay, groupVars, tr, outs + [out])
  {
    hide IsAggregate;
  }

  lemma NoAggVerdicts(a: AggOp, default: Option<AggResult>, phi: Formula, lay: Layout, groupVars: Layout,
                      tr: seq<TimePoint>)
    ensures AggVerdicts(a, default, phi, lay, groupVars, tr, [])
  {}

  /** MAgg::eval for the tables that the operand delivers. */
  method AggregateTables(impl: AggregationImpl, tabs: seq<Table>, outs0: seq<set<ResultRow>>, ghost a: AggOp,
                         ghost phi: Formula, ghost lay: Layout, ghost groupVars: Layout, ghost tr: seq<TimePoint>)
    returns (outs: seq<set<ResultRow>>)
    requires impl.Valid() && Laid(a, lay, impl.config, groupVars) && impl.defaultVal == a.defaultVal
    requires AggVerdicts(a, Some(a.defaultVal), phi, lay, groupVars, tr, outs0) && Verdicts(phi, lay, tabs, tr, |outs0|)
    modifies impl
    ensures impl.Valid() && |outs| == |outs0| + |tabs|
    ensures AggVerdicts(a, Some(a.defaultVal), phi, lay, groupVars, tr, outs)
  {
    hide AggVerdicts, IsAggregate, Laid, OneShot, Represents;
    LaidOut(a, lay, impl.config, groupVars);
    outs := outs0;
    for k := 0 to |tabs|
      invariant impl.Valid() && |outs| == |outs0| + k
      invariant AggVerdicts(a, Some(a.defaultVal), phi, lay, groupVars, tr, outs)
    {
      RowsFit(phi, lay, tabs[k], tr, |outs|, impl.config);
      var out := impl.Eval(tabs[k]);
      OneShotMeans(a, lay, impl.config, groupVars, phi, tabs[k], tr, |outs|, out);
      AggVerdictsMore(a, Some(a.defaultVal), phi, lay, groupVars, tr, outs, out);
      outs := outs + [out];
    }
  }

  /**
   * An aggregation over any formula of the fragment but since: at every time point
   * that the operand decides, exactly the aggregates over the operand's satisfying
   * assignments.
   */
  method RunAggregate(a: AggOp, phi: Formula, tr: seq<TimePoint>)
    returns (lay: Layout, groupVars: Layout, outs: seq<set<ResultRow>>)
    requires phi.Monitorable() && !phi.Since? && a.termVar in phi.Columns() && WellFormedTrace(tr)
    ensures IsLayout(phi, lay) && DupFree(groupVars) && forall x: nat :: x in groupVars <==> x + a.numBound in lay
    ensures |outs| == Progress(phi, tr, |tr|)
    ensures AggVerdicts(a, Some(a.defaultVal), phi, lay, groupVars, tr, outs)
  {
    hide MState.Valid, AggVerdicts, Laid, Progress, WellFormedTrace, Verdicts;
    var st, c;
    st, lay := InitMState(phi, tr);
    c, groupVars := LayOut(a, lay);
    var impl := new AggregationImpl(c, a.defaultVal);
    outs := [];
    NoAggVerdicts(a, Some(a.defaultVal), phi, lay, groupVars, tr);
    NothingDecided(phi, tr);
    for i := 0 to |tr|
      invariant st.Valid() && fresh(st.repr) && st.n == i && st.phi == phi && st.lay == lay && st.tr == tr
      invariant fresh(impl) && impl !in st.repr && impl.Valid() && impl.config == c && impl.defaultVal == a.defaultVal
      invariant |outs| == Progress(phi, tr, i) && AggVerdicts(a, Some(a.defaultVal), phi, lay, groupVars, tr, outs)
    {
      var tabs := st.Eval(tr[i].db, tr[i].ts);
      outs := AggregateTables(impl, tabs, outs, a, phi, lay, groupVars, tr);
    }
  }

  lemma {:induction false} NothingDecided(phi: Formula, tr: seq<TimePoint>)
    ensures Progress(phi, tr, 0) == 0
  {}

  // ----- fused into since and once -----

  /** The operator with its aggregator, after `m` time points, none of which has cleared a row. */
  ghost predicate FusedState(impl: SinceImpl, agg: TemporalAgg, phi: Formula, lay: Layout, tr: seq<TimePoint>, m: nat)
    reads impl, impl.Hooked()
  {
    && impl.Valid() && impl.agg == agg && impl.nfvs == |lay| && impl.stale == multiset{}
    && phi.Since? && phi.inter == impl.inter
    && Fed(phi.phil, phi.phir, impl.test, lay, tr, m, impl.es, impl.ls)
  }

  method FusedStep(impl: SinceImpl, agg: TemporalAgg, left: Option<Table>, tabR: Table, ts: nat, ghost a: AggOp,
                   ghost phi: Formula, ghost lay: Layout, ghost groupVars: Layout, ghost tr: seq<TimePoint>,
                   ghost m: nat)
    returns (out: set<ResultRow>)
    requires FusedState(impl, agg, phi, lay, tr, m) && WellFormedTrace(tr) && Laid(a, lay, agg.config, groupVars)
    requires Represents(phi.phir, lay, tabR, tr, m) && tr[m].ts == ts && (left == Some({}) ==> impl.test.negated)
    requires Fed(phi.phil, phi.phir, impl.test, lay, tr, m + 1, impl.es + [Entry(ts, tabR)], impl.ls + [left])
    modifies impl, agg
    ensures FusedState(impl, agg, phi, lay, tr, m + 1)
    ensures IsAggregate(a, None, phi, lay, groupVars, tr, m, out)
  {
    hide SinceImpl.Valid, Fed, Represents, WellFormedTrace, Laid, Aggregates, IsAggregate, SinceSat;
    FedFacts(phi.phil, phi.phir, impl.test, lay, tr, m, impl.es, impl.ls, tabR);
    ghost var rows;
    out, rows := impl.EvalAgg(left, tabR, ts);
    SinceResult(impl.inter, phi.phil, phi.phir, impl.test, lay, tr, m, impl.es, impl.ls, rows);
    assert multiset(rows) + multiset{} == multiset(rows);
    AggregatesMean(a, lay, agg.config, groupVars, phi, rows, tr, m, out);
  }

  /** The loop of MOnce with an aggregator. */
  method FusedOnce(impl: SinceImpl, agg: TemporalAgg, tabs: seq<Table>, ts: seq<nat>, outs0: seq<set<ResultRow>>,
                   ghost a: AggOp, ghost phi: Formula, ghost lay: Layout, ghost groupVars: Layout,
                   ghost tr: seq<TimePoint>)
    returns (outs: seq<set<ResultRow>>, rest: seq<nat>)
    requires FusedState(impl, agg, phi, lay, tr, |outs0|) && WellFormedTrace(tr) && Laid(a, lay, agg.config, groupVars)
    requires phi.phil.IsAlwaysTrue() && Verdicts(phi.phir, lay, tabs, tr, |outs0|)
    requires |tabs| <= |ts| && |outs0| + |ts| <= |tr| && forall k :: 0 <= k < |ts| ==> ts[k] == tr[|outs0| + k].ts
    requires AggVerdicts(a, None, phi, lay, groupVars, tr, outs0)
    modifies impl, agg
    ensures |outs| == |outs0| + |tabs| && FusedState(impl, agg, phi, lay, tr, |outs|) && rest == ts[|tabs|..]
    ensures AggVerdicts(a, None, phi, lay, groupVars, tr, outs)
  {
    hide SinceImpl.Valid, Fed, Represents, WellFormedTrace, Laid, AggVerdicts, IsAggregate;
    outs, rest := outs0, ts;
    for k := 0 to |tabs|
      invariant |outs| == |outs0| + k && FusedState(impl, agg, phi, lay, tr, |outs|) && rest == ts[k..]
      invariant AggVerdicts(a, None, phi, lay, groupVars, tr, outs)
    {
      var newTs := rest[0];
      FedMoreRight(phi.phil, phi.phir, impl.test, lay, tr, |outs|, impl.es, impl.ls, tabs[k]);
      var out := FusedStep(impl, agg, None, tabs[k], newTs, a, phi, lay, groupVars, tr, |outs|);
      AggVerdictsMore(a, None, phi, lay, groupVars, tr, outs, out);
      outs, rest := outs + [out], rest[1..];
    }
  }

  ghost predicate Satisfiable(phi: Formula, tr: seq<TimePoint>, i: nat)
    requires i < |tr|
  {
    exists v: Env :: Sat(phi, tr, i, v)
  }

  /** The left operand never gives an empty table to a positive test, which would clear the window. */
  ghost predicate NeverClears(phi: Formula, tr: seq<TimePoint>)
    requires phi.Since?
  {
    phi.phil.Neg? || forall i: nat | i < |tr| :: Satisfiable(phi.phil, tr, i)
  }

  lemma LeftTableFull(phi: Formula, t: LeftTest, psi: Formula, llay: Layout, rlay: Layout, tabL: Table,
                      tr: seq<TimePoint>, m: nat)
    requires phi.Since? && NeverClears(phi, tr) && TestOk(t, psi, llay, rlay, phi.phil)
    requires Represents(psi, llay, tabL, tr, m) && t.negated == phi.phil.Neg?
    ensures tabL == {} ==> t.negated
  {
    if !t.negated {
      assert Satisfiable(phi.phil, tr, m);
      var v: Env :| Sat(phi.phil, tr, m, v);
      assert Project(llay, v) in tabL;
    }
  }

  /** The reductions of MSince with an aggregator. */
  method FusedPairs(impl: SinceImpl, agg: TemporalAgg, pairs: seq<(Table, Table)>, ts: seq<nat>,
                    outs0: seq<set<ResultRow>>, ghost a: AggOp, ghost phi: Formula, ghost psi: Formula,
                    ghost llay: Layout, ghost lay: Layout, ghost groupVars: Layout, ghost tr: seq<TimePoint>)
    returns (outs: seq<set<ResultRow>>, rest: seq<nat>)
    requires FusedState(impl, agg, phi, lay, tr, |outs0|) && WellFormedTrace(tr) && Laid(a, lay, agg.config, groupVars)
    requires NeverClears(phi, tr) && TestOk(impl.test, psi, llay, lay, phi.phil) && impl.test.negated == phi.phil.Neg?
    requires PairsOk(psi, llay, phi.phir, lay, pairs, tr, |outs0|)
    requires |pairs| <= |ts| && |outs0| + |ts| <= |tr| && forall k :: 0 <= k < |ts| ==> ts[k] == tr[|outs0| + k].ts
    requires AggVerdicts(a, None, phi, lay, groupVars, tr, outs0)
    modifies impl, agg
    ensures |outs| == |outs0| + |pairs| && FusedState(impl, agg, phi, lay, tr, |outs|) && rest == ts[|pairs|..]
    ensures AggVerdicts(a, None, phi, lay, groupVars, tr, outs)
  {
    hide SinceImpl.Valid, Fed, TestOk, Represents, WellFormedTrace, Laid, AggVerdicts, IsAggregate, NeverClears;
    outs, rest := outs0, ts;
    for k := 0 to |pairs|
      invariant |outs| == |outs0| + k && FusedState(impl, agg, phi, lay, tr, |outs|) && rest == ts[k..]
      invariant AggVerdicts(a, None, phi, lay, groupVars, tr, outs)
    {
      var newTs, tabL, tabR := rest[0], pairs[k].0, pairs[k].1;
      FedMore(psi, llay, phi.phil, phi.phir, impl.test, lay, tr, |outs|, impl.es, impl.ls, tabL, tabR);
      LeftTableFull(phi, impl.test, psi, llay, lay, tabL, tr, |outs|);
      var out := FusedStep(impl, agg, Some(tabL), tabR, newTs, a, phi, lay, groupVars, tr, |outs|);
      AggVerdictsMore(a, None, phi, lay, groupVars, tr, outs, out);
      outs, rest := outs + [out], rest[1..];
    }
  }

  /** The timestamp of the new time point is buffered until the operands have caught up with it. */
  method BufferTs(tsBuf: seq<nat>, ts: nat, ghost m: nat, ghost n: nat, ghost tr: seq<TimePoint>)
    returns (more: seq<nat>)
    requires m <= n < |tr| && tsBuf == Stamps(tr, n)[m..] && tr[n].ts == ts
    ensures more == Stamps(tr, n + 1)[m..] && |more| == n + 1 - m
    ensures forall k :: 0 <= k < |more| ==> more[k] == tr[m + k].ts
  {
    StampsAppend(tr, n);
    more := tsBuf + [ts];
  }

  method InitOnceAggregate(a: AggOp, phi: Formula, ghost tr: seq<TimePoint>)
    returns (st: MState, lay: Layout, groupVars: Layout, agg: TemporalAgg, impl: SinceImpl)
    requires phi.Monitorable() && phi.Since? && phi.phil.IsAlwaysTrue() && a.termVar in phi.Columns()
    requires WellFormedTrace(tr)
    ensures IsLayout(phi, lay) && DupFree(groupVars) && forall x: nat :: x in groupVars <==> x + a.numBound in lay
    ensures Initial(st, phi.phir, lay, tr) && fresh(st.repr) && fresh(impl) && fresh(agg)
    ensures impl !in st.repr && agg !in st.repr && Laid(a, lay, agg.config, groupVars)
    ensures FusedState(impl, agg, phi, lay, tr, 0) && impl.Hooked() == {agg}
  {
    hide MState.Valid, SinceImpl.Valid, Laid, WellFormedTrace, Fed, IsLayout;
    st, lay := InitMState(phi.phir, tr);
    TemporalLayout(phi, lay);
    ColumnsOf(phi, lay);
    var c;
    c, groupVars := LayOut(a, lay);
    agg := new TemporalAgg(c);
    impl := new SinceImpl(phi.inter, LeftTest(true, []), |lay|, agg);
    FedNone(phi.phil, phi.phir, impl.test, lay, tr);
  }

  /** What stays the same while an aggregated once runs. */
  ghost predicate OnceSetup(st: MState, impl: SinceImpl, agg: TemporalAgg, a: AggOp, phi: Formula, lay: Layout,
                            groupVars: Layout, tr: seq<TimePoint>) {
    && phi.Since? && phi.phil.IsAlwaysTrue() && WellFormedTrace(tr) && Laid(a, lay, agg.config, groupVars)
    && st.tr == tr && st.phi == phi.phir && st.lay == lay
    && impl !in st.repr && agg !in st.repr && impl.Hooked() == {agg}
  }

  /** The state of an aggregated once after `n` time points. */
  ghost predicate OnceRunning(st: MState, impl: SinceImpl, agg: TemporalAgg, a: AggOp, phi: Formula, lay: Layout,
                              groupVars: Layout, tr: seq<TimePoint>, n: nat, outs: seq<set<ResultRow>>,
                              tsBuf: seq<nat>)
    reads st, st.repr, impl, impl.Hooked()
  {
    && st.Valid() && st.n == n <= |tr| && |outs| == Progress(st.phi, tr, n)
    && FusedState(impl, agg, phi, lay, tr, |outs|)
    && AggVerdicts(a, None, phi, lay, groupVars, tr, outs) && tsBuf == Stamps(tr, n)[|outs|..]
  }

  /** MOnce::eval with an aggregator. */
  method OnceAggregateStep(st: MState, impl: SinceImpl, agg: TemporalAgg, db: map<PredId, seq<Row>>, ts: nat,
                           outs0: seq<set<ResultRow>>, tsBuf0: seq<nat>, ghost a: AggOp, ghost phi: Formula,
                           ghost lay: Layout, ghost groupVars: Layout, ghost tr: seq<TimePoint>, ghost n: nat)
    returns (outs: seq<set<ResultRow>>, tsBuf: seq<nat>)
    requires OnceSetup(st, impl, agg, a, phi, lay, groupVars, tr)
    requires OnceRunning(st, impl, agg, a, phi, lay, groupVars, tr, n, outs0, tsBuf0)
    requires n < |tr| && tr[n] == TimePoint(ts, db)
    modifies st.repr, impl, agg
    ensures OnceRunning(st, impl, agg, a, phi, lay, groupVars, tr, n + 1, outs, tsBuf)
  {
    hide MState.Valid, AggVerdicts, Laid, Progress, WellFormedTrace, FusedState, Verdicts;
    st.InRepr();
    var tabs := st.Eval(db, ts);
    tsBuf := BufferTs(tsBuf0, ts, |outs0|, n, tr);
    outs, tsBuf := FusedOnce(impl, agg, tabs, tsBuf, outs0, a, phi, lay, groupVars, tr);
    StampsRest(tr, n + 1, |outs0|, |outs|);
  }

  /**
   * An aggregation over once, which fuses the two: the same aggregates, except
   * that the default value is never given.
   */
  method RunOnceAggregate(a: AggOp, phi: Formula, tr: seq<TimePoint>)
    returns (lay: Layout, groupVars: Layout, outs: seq<set<ResultRow>>)
    requires phi.Monitorable() && phi.Since? && phi.phil.IsAlwaysTrue() && a.termVar in phi.Columns()
    requires WellFormedTrace(tr)
    ensures IsLayout(phi, lay) && DupFree(groupVars) && forall x: nat :: x in groupVars <==> x + a.numBound in lay
    ensures |outs| == Progress(phi, tr, |tr|) && AggVerdicts(a, None, phi, lay, groupVars, tr, outs)
  {
    hide MState.Valid, FusedState, AggVerdicts, Laid, Progress, WellFormedTrace, IsLayout;
    var st, agg, impl;
    st, lay, groupVars, agg, impl := InitOnceAggregate(a, phi, tr);
    NoAggVerdicts(a, None, phi, lay, groupVars, tr);
    NothingDecided(phi.phir, tr);
    outs := [];
    var tsBuf := [];
    assert OnceSetup(st, impl, agg, a, phi, lay, groupVars, tr);
    assert OnceRunning(st, impl, agg, a, phi, lay, groupVars, tr, 0, outs, tsBuf);
    for i := 0 to |tr|
      invariant OnceRunning(st, impl, agg, a, phi, lay, groupVars, tr, i, outs, tsBuf)
      invariant fresh(st.repr) && fresh(impl) && fresh(agg)
    {
      hide OnceRunning, OnceSetup;
      outs, tsBuf := OnceAggregateStep(st, impl, agg, tr[i].db, tr[i].ts, outs, tsBuf, a, phi, lay, groupVars, tr, i);
    }
    OnceProgress(phi, tr, |tr|);
  }

  /** `apply_recursive_bin_reduction`, up to the reduction, for the operands of an aggregated since. */
  method OperandPairs(l: MState, r: MState, buf: BinaryBuffer<Table>, db: map<PredId, seq<Row>>, ts: nat,
                      ghost tr: seq<TimePoint>, ghost n: nat)
    returns (pairs: seq<(Table, Table)>)
    requires l.Valid() && r.Valid() && l.repr !! r.repr && buf !in l.repr && buf !in r.repr && buf.Valid()
    requires l.n == r.n == n < |tr| && l.tr == r.tr == tr && tr[n] == TimePoint(ts, db)
    requires Received(l.phi, l.lay, tr, n, buf.left) && Received(r.phi, r.lay, tr, n, buf.right)
    modifies l.repr, r.repr, buf
    ensures l.Valid() && r.Valid() && buf.Valid() && l.n == r.n == n + 1
    ensures Received(l.phi, l.lay, tr, n + 1, buf.left) && Received(r.phi, r.lay, tr, n + 1, buf.right)
    ensures var m := Min(Progress(l.phi, tr, n), Progress(r.phi, tr, n));
            m + |pairs| == Min(Progress(l.phi, tr, n + 1), Progress(r.phi, tr, n + 1))
            && PairsOk(l.phi, l.lay, r.phi, r.lay, pairs, tr, m)
  {
    hide MState.Valid, Progress, Verdicts, PairsOk;
    l.InRepr();
    r.InRepr();
    var newL := l.Eval(db, ts);
    var newR := r.Eval(db, ts);
    ReceivedMore(l.phi, l.lay, tr, n, buf.left, newL);
    ReceivedMore(r.phi, r.lay, tr, n, buf.right, newR);
    ghost var done := Min(Progress(l.phi, tr, n), Progress(r.phi, tr, n));
    pairs := buf.UpdateAndReduce(newL, newR);
    ZippedPairs(l.phi, l.lay, r.phi, r.lay, tr, buf.left, buf.right, done, pairs);
  }

  /** The operands of an aggregated since, compiled, and its operator with the aggregator. */
  method InitSinceAggregate(a: AggOp, phi: Formula, ghost tr: seq<TimePoint>)
    returns (l: MState, r: MState, lay: Layout, groupVars: Layout, agg: TemporalAgg, impl: SinceImpl)
    requires phi.Monitorable() && phi.Since? && !phi.phil.IsAlwaysTrue() && a.termVar in phi.Columns()
    requires WellFormedTrace(tr)
    ensures IsLayout(phi, lay) && DupFree(groupVars) && forall x: nat :: x in groupVars <==> x + a.numBound in lay
    ensures var psi := if phi.phil.Neg? then phi.phil.phi else phi.phil;
            && Initial(l, psi, l.lay, tr) && TestOk(impl.test, psi, l.lay, lay, phi.phil)
    ensures Initial(r, phi.phir, lay, tr) && l.repr !! r.repr && fresh(l.repr) && fresh(r.repr)
    ensures fresh(impl) && fresh(agg) && impl !in l.repr + r.repr && agg !in l.repr + r.repr
    ensures impl.test.negated == phi.phil.Neg? && Laid(a, lay, agg.config, groupVars)
    ensures FusedState(impl, agg, phi, lay, tr, 0) && impl.Hooked() == {agg}
  {
    hide MState.Valid, SinceImpl.Valid, Laid, WellFormedTrace, Fed, IsLayout, TestOk;
    r, lay := InitMState(phi.phir, tr);
    var psi := if phi.phil.Neg? then phi.phil.phi else phi.phil;
    var lLay;
    l, lLay := InitMState(psi, tr);
    MonitorableCompiles(psi);
    TemporalLayout(phi, lay);
    ColumnsOf(phi, lay);
    var c;
    c, groupVars := LayOut(a, lay);
    var test := LeftTestFor(phi.phil, psi, phi.phir, phi.phil.Neg?, lLay, lay);
    agg := new TemporalAgg(c);
    TestFits(test, psi, lLay, lay, phi.phil);
    impl := new SinceImpl(phi.inter, test, |lay|, agg);
    FedNone(phi.phil, phi.phir, test, lay, tr);
  }

  lemma TestFits(t: LeftTest, psi: Formula, llay: Layout, rlay: Layout, phil: Formula)
    requires TestOk(t, psi, llay, rlay, phil)
    ensures InRange(t.idx, |rlay|)
  {}

  /** The operator is fed the pairs of tables that have become available with time point `n`. */
  method FeedPairs(impl: SinceImpl, agg: TemporalAgg, pairs: seq<(Table, Table)>, tsBuf: seq<nat>, ts: nat,
                   outs0: seq<set<ResultRow>>, ghost a: AggOp, ghost phi: Formula, ghost psi: Formula,
                   ghost llay: Layout, ghost lay: Layout, ghost groupVars: Layout, ghost tr: seq<TimePoint>,
                   ghost n: nat)
    returns (outs: seq<set<ResultRow>>, rest: seq<nat>)
    requires FusedState(impl, agg, phi, lay, tr, |outs0|) && WellFormedTrace(tr) && Laid(a, lay, agg.config, groupVars)
    requires NeverClears(phi, tr) && TestOk(impl.test, psi, llay, lay, phi.phil) && impl.test.negated == phi.phil.Neg?
    requires PairsOk(psi, llay, phi.phir, lay, pairs, tr, |outs0|)
    requires AggVerdicts(a, None, phi, lay, groupVars, tr, outs0)
    requires |outs0| <= n < |tr| && tsBuf == Stamps(tr, n)[|outs0|..] && tr[n].ts == ts && |outs0| + |pairs| <= n + 1
    modifies impl, agg
    ensures |outs| == |outs0| + |pairs| && FusedState(impl, agg, phi, lay, tr, |outs|)
    ensures AggVerdicts(a, None, phi, lay, groupVars, tr, outs) && rest == Stamps(tr, n + 1)[|outs|..]
  {
    hide SinceImpl.Valid, Fed, WellFormedTrace, Laid, NeverClears, TestOk, PairsOk, AggVerdicts;
    assert impl.Hooked() == {agg};
    var waiting := BufferTs(tsBuf, ts, |outs0|, n, tr);
    outs, rest := FusedPairs(impl, agg, pairs, waiting, outs0, a, phi, psi, llay, lay, groupVars, tr);
    StampsRest(tr, n + 1, |outs0|, |outs|);
  }

  /** What stays the same while an aggregated since runs. */
  ghost predicate SinceSetup(l: MState, r: MState, buf: BinaryBuffer<Table>, impl: SinceImpl, agg: TemporalAgg,
                             a: AggOp, phi: Formula, lay: Layout, groupVars: Layout, tr: seq<TimePoint>) {
    && phi.Since? && WellFormedTrace(tr) && NeverClears(phi, tr) && Laid(a, lay, agg.config, groupVars)
    && l.tr == r.tr == tr && l.repr !! r.repr && r.phi == phi.phir && r.lay == lay
    && TestOk(impl.test, l.phi, l.lay, lay, phi.phil) && impl.test.negated == phi.phil.Neg?
    && buf !in l.repr && buf !in r.repr
    && impl !in l.repr + r.repr && agg !in l.repr + r.repr && impl.Hooked() == {agg}
  }

  /** The state of an aggregated since after `n` time points. */
  ghost predicate SinceRunning(l: MState, r: MState, buf: BinaryBuffer<Table>, impl: SinceImpl, agg: TemporalAgg,
                               a: AggOp, phi: Formula, lay: Layout, groupVars: Layout, tr: seq<TimePoint>, n: nat,
                               outs: seq<set<ResultRow>>, tsBuf: seq<nat>)
    reads l, l.repr, r, r.repr, buf, impl, impl.Hooked()
  {
    && l.Valid() && r.Valid() && l.n == r.n == n <= |tr| && buf.Valid()
    && Received(l.phi, l.lay, tr, n, buf.left) && Received(r.phi, r.lay, tr, n, buf.right)
    && |outs| == Min(Progress(l.phi, tr, n), Progress(r.phi, tr, n))
    && FusedState(impl, agg, phi, lay, tr, |outs|)
    && AggVerdicts(a, None, phi, lay, groupVars, tr, outs) && tsBuf == Stamps(tr, n)[|outs|..]
  }

  method SinceAggregateStep(l: MState, r: MState, buf: BinaryBuffer<Table>, impl: SinceImpl, agg: TemporalAgg,
                            db: map<PredId, seq<Row>>, ts: nat, outs0: seq<set<ResultRow>>, tsBuf0: seq<nat>,
                            ghost a: AggOp, ghost phi: Formula, ghost lay: Layout, ghost groupVars: Layout,
                            ghost tr: seq<TimePoint>, ghost n: nat)
    returns (outs: seq<set<ResultRow>>, tsBuf: seq<nat>)
    requires SinceSetup(l, r, buf, impl, agg, a, phi, lay, groupVars, tr)
    requires SinceRunning(l, r, buf, impl, agg, a, phi, lay, groupVars, tr, n, outs0, tsBuf0)
    requires n < |tr| && tr[n] == TimePoint(ts, db)
    modifies l.repr, r.repr, buf, impl, agg
    ensures SinceRunning(l, r, buf, impl, agg, a, phi, lay, groupVars, tr, n + 1, outs, tsBuf)
  {
    hide MState.Valid, AggVerdicts, Laid, Progress, WellFormedTrace, FusedState, TestOk, NeverClears, PairsOk, Received;
    var pairs := OperandPairs(l, r, buf, db, ts, tr, n);
    outs, tsBuf := FeedPairs(impl, agg, pairs, tsBuf0, ts, outs0, a, phi, l.phi, l.lay, lay, groupVars, tr, n);
  }

  /**
   * An aggregation over since, which fuses the two.  As long as no empty left table
   * can clear the window, these are the aggregates over the satisfying assignments
   * of since; the default value is never given.
   */
  method RunSinceAggregate(a: AggOp, phi: Formula, tr: seq<TimePoint>)
    returns (lay: Layout, groupVars: Layout, outs: seq<set<ResultRow>>)
    requires phi.Monitorable() && phi.Since? && !phi.phil.IsAlwaysTrue() && a.termVar in phi.Columns()
    requires WellFormedTrace(tr) && NeverClears(phi, tr)
    ensures IsLayout(phi, lay) && DupFree(groupVars) && forall x: nat :: x in groupVars <==> x + a.numBound in lay
    ensures |outs| == Progress(phi, tr, |tr|) && AggVerdicts(a, None, phi, lay, groupVars, tr, outs)
  {
    hide MState.Valid, AggVerdicts, Laid, Progress, WellFormedTrace, FusedState, IsLayout, TestOk, NeverClears;
    var l, r, agg, impl;
    l, r, lay, groupVars, agg, impl := InitSinceAggregate(a, phi, tr);
    var buf := new BinaryBuffer<Table>();
    ReceivedNone(l.phi, l.lay, tr);
    ReceivedNone(phi.phir, lay, tr);
    NothingDecided(l.phi, tr);
    hide Received;
    NoAggVerdicts(a, None, phi, lay, groupVars, tr);
    outs := [];
    var tsBuf := [];
    assert SinceSetup(l, r, buf, impl, agg, a, phi, lay, groupVars, tr);
    assert SinceRunning(l, r, buf, impl, agg, a, phi, lay, groupVars, tr, 0, outs, tsBuf);
    for i := 0 to |tr|
      invariant SinceRunning(l, r, buf, impl, agg, a, phi, lay, groupVars, tr, i, outs, tsBuf)
      invariant fresh(l.repr) && fresh(r.repr) && fresh(buf) && fresh(impl) && fresh(agg)
    {
      hide SinceRunning, SinceSetup;
      outs, tsBuf := SinceAggregateStep(l, r, buf, impl, agg, tr[i].db, tr[i].ts, outs, tsBuf, a, phi, lay, groupVars,
          tr, i);
    }
    SinceProgress(phi, impl.test, l.phi, l.lay, lay, tr, |tr|);
  }

  lemma ColumnsOf(phi: Formula, lay: Layout)
    requires IsLayout(phi, lay)
    ensures DupFree(lay) && forall x :: x in phi.Columns() <==> x in lay
  {}
}
