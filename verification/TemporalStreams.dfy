/**
 * Feeding operand tables to the temporal operators, one per time point
 * (src/monitor.h, MSince::eval and MOnce::eval; src/monitor.cpp, MUntil::eval
 * and MEventually::eval).
 */
module TemporalStreams {
  import opened Wrappers
  import opened Intervals
  import opened Tables
  import opened Temporal
  import opened Formulas
  import opened Joins
  import opened Meaning
  import opened Buffers
  import opened Streams
  import opened SinceSpec
  import opened SinceOperator
  import opened UntilOperator
  import U = UntilSpec

  /** The left operand compiles to tables for `psi` under `llay`, which the test reads as formula `phil`. */
  ghost predicate TestOk(t: LeftTest, psi: Formula, llay: Layout, rlay: Layout, phil: Formula) {
    && InRange(t.idx, |rlay|) && FilterRow(t.idx, rlay) == llay
    && phil == if t.negated then Neg(psi) else psi
  }

  /** The first `m` time points have been fed to an operator. */
  ghost predicate Fed(phil: Formula, phir: Formula, t: LeftTest, rlay: Layout, tr: seq<TimePoint>, m: nat,
                      es: seq<Entry>, ls: seq<Option<Table>>) {
    |es| == |ls| == m && EntriesOk(phir, rlay, es, tr) && LeftsOk(phil, t, rlay, ls, tr)
  }

  lemma FedNone(phil: Formula, phir: Formula, t: LeftTest, rlay: Layout, tr: seq<TimePoint>)
    ensures Fed(phil, phir, t, rlay, tr, 0, [], [])
  {}

  lemma {:induction false} EntriesMore(phir: Formula, rlay: Layout, tr: seq<TimePoint>, es: seq<Entry>, tabR: Table)
    requires EntriesOk(phir, rlay, es, tr) && Represents(phir, rlay, tabR, tr, |es|)
    ensures EntriesOk(phir, rlay, es + [Entry(tr[|es|].ts, tabR)], tr)
  {
  }

  lemma {:induction false} LeftsMore(phil: Formula, t: LeftTest, rlay: Layout, tr: seq<TimePoint>,
                                     ls: seq<Option<Table>>, left: Option<Table>)
    requires LeftsOk(phil, t, rlay, ls, tr) && |ls| < |tr|
    requires forall v: Env :: LeftOk(t, left, Project(rlay, v)) <==> Sat(phil, tr, |ls|, v)
    ensures LeftsOk(phil, t, rlay, ls + [left], tr)
  {
    hide LeftOk;
  }

  lemma {:induction false} FedMore(psi: Formula, llay: Layout, phil: Formula, phir: Formula, t: LeftTest,
                                   rlay: Layout, tr: seq<TimePoint>, m: nat, es: seq<Entry>, ls: seq<Option<Table>>,
                                   tabL: Table, tabR: Table)
    requires Fed(phil, phir, t, rlay, tr, m, es, ls) && TestOk(t, psi, llay, rlay, phil)
    requires Represents(psi, llay, tabL, tr, m) && Represents(phir, rlay, tabR, tr, m)
    ensures Fed(phil, phir, t, rlay, tr, m + 1, es + [Entry(tr[m].ts, tabR)], ls + [Some(tabL)])
  {
    hide EntriesOk, LeftsOk;
    forall v: Env ensures LeftOk(t, Some(tabL), Project(rlay, v)) <==> Sat(phil, tr, m, v) {
      FilterProject(t.idx, rlay, v);
      assert Project(llay, v) in tabL <==> Sat(psi, tr, m, v);
    }
    EntriesMore(phir, rlay, tr, es, tabR);
    LeftsMore(phil, t, rlay, tr, ls, Some(tabL));
  }

  lemma {:induction false} FedMoreRight(phil: Formula, phir: Formula, t: LeftTest, rlay: Layout, tr: seq<TimePoint>,
                                        m: nat, es: seq<Entry>, ls: seq<Option<Table>>, tabR: Table)
    requires Fed(phil, phir, t, rlay, tr, m, es, ls) && phil.IsAlwaysTrue() && Represents(phir, rlay, tabR, tr, m)
    ensures Fed(phil, phir, t, rlay, tr, m + 1, es + [Entry(tr[m].ts, tabR)], ls + [None])
  {
    hide EntriesOk, LeftsOk;
    forall v: Env ensures Sat(phil, tr, m, v) {
      assert Eval(phil.l, v) == Eval(phil.r, v);
    }
    EntriesMore(phir, rlay, tr, es, tabR);
    LeftsMore(phil, t, rlay, tr, ls, None);
  }

  /** What an operator needs to know of the tables and timestamps it is fed. */
  lemma {:induction false} FedFacts(phil: Formula, phir: Formula, t: LeftTest, rlay: Layout, tr: seq<TimePoint>,
                                    m: nat, es: seq<Entry>, ls: seq<Option<Table>>, tabR: Table)
    requires Fed(phil, phir, t, rlay, tr, m, es, ls) && WellFormedTrace(tr) && Represents(phir, rlay, tabR, tr, m)
    ensures m < |tr| && (forall e | e in tabR :: |e| == |rlay|) && |es| == m
    ensures forall j :: 0 <= j < |es| ==> es[j].ts <= tr[m].ts
    ensures m + 1 < |tr| ==> tr[m].ts <= tr[m + 1].ts
  {}

  // ----- since and once -----

  lemma {:induction false} SinceResult(inter: Interval, phil: Formula, phir: Formula, t: LeftTest, rlay: Layout,
                                       tr: seq<TimePoint>, m: nat, es: seq<Entry>, ls: seq<Option<Table>>, r: Table)
    requires Fed(phil, phir, t, rlay, tr, m + 1, es, ls)
    requires forall e :: e in r <==> SinceSat(inter, t, es, ls, m, e)
    ensures Represents(Since(inter, phil, phir), rlay, r, tr, m)
  {
    forall v: Env ensures Project(rlay, v) in r <==> Sat(Since(inter, phil, phir), tr, m, v) {
      SinceMeaning(inter, phil, phir, t, rlay, es, ls, tr, m, v);
    }
    forall e | e in r ensures |e| == |rlay| {
      var j :| 0 <= j <= m && inter.Contains(es[m].ts - es[j].ts) && e in es[j].tab
               && forall k :: j < k <= m ==> LeftOk(t, ls[k], e);
      assert Represents(phir, rlay, es[j].tab, tr, j);
    }
  }

  method SinceTables(impl: SinceImpl, pairs: seq<(Table, Table)>, ts: seq<nat>, ghost psi: Formula,
                     ghost llay: Layout, ghost phil: Formula, ghost phir: Formula, ghost rlay: Layout,
                     ghost tr: seq<TimePoint>, ghost m: nat)
    returns (res: seq<Table>, rest: seq<nat>)
    requires impl.Valid() && impl.agg == null && impl.nfvs == |rlay| && WellFormedTrace(tr)
    requires Fed(phil, phir, impl.test, rlay, tr, m, impl.es, impl.ls) && TestOk(impl.test, psi, llay, rlay, phil)
    requires PairsOk(psi, llay, phir, rlay, pairs, tr, m)
    requires |pairs| <= |ts| && m + |ts| <= |tr| && forall k :: 0 <= k < |ts| ==> ts[k] == tr[m + k].ts
    modifies impl
    ensures impl.Valid() && Fed(phil, phir, impl.test, rlay, tr, m + |pairs|, impl.es, impl.ls)
    ensures |res| == |pairs| && Verdicts(Since(impl.inter, phil, phir), rlay, res, tr, m) && rest == ts[|pairs|..]
  {
    hide SinceImpl.Valid, Fed, TestOk, Represents, WellFormedTrace;
    res, rest := [], ts;
    for k := 0 to |pairs|
      invariant impl.Valid() && Fed(phil, phir, impl.test, rlay, tr, m + k, impl.es, impl.ls)
      invariant |res| == k && Verdicts(Since(impl.inter, phil, phir), rlay, res, tr, m) && rest == ts[k..]
    {
      var newTs, tabL, tabR := rest[0], pairs[k].0, pairs[k].1;
      FedFacts(phil, phir, impl.test, rlay, tr, m + k, impl.es, impl.ls, tabR);
      FedMore(psi, llay, phil, phir, impl.test, rlay, tr, m + k, impl.es, impl.ls, tabL, tabR);
      rest := rest[1..];
      var ret := impl.EvalSince(tabL, tabR, newTs);
      SinceResult(impl.inter, phil, phir, impl.test, rlay, tr, m + k, impl.es, impl.ls, ret);
      res := res + [ret];
    }
  }

  method OnceTables(impl: SinceImpl, tabs: seq<Table>, ts: seq<nat>, ghost phil: Formula, ghost phir: Formula,
                    ghost rlay: Layout, ghost tr: seq<TimePoint>, ghost m: nat)
    returns (res: seq<Table>, rest: seq<nat>)
    requires impl.Valid() && impl.agg == null && impl.nfvs == |rlay| && WellFormedTrace(tr) && phil.IsAlwaysTrue()
    requires Fed(phil, phir, impl.test, rlay, tr, m, impl.es, impl.ls)
    requires Verdicts(phir, rlay, tabs, tr, m)
    requires |tabs| <= |ts| && m + |ts| <= |tr| && forall k :: 0 <= k < |ts| ==> ts[k] == tr[m + k].ts
    modifies impl
    ensures impl.Valid() && Fed(phil, phir, impl.test, rlay, tr, m + |tabs|, impl.es, impl.ls)
    ensures |res| == |tabs| && Verdicts(Since(impl.inter, phil, phir), rlay, res, tr, m) && rest == ts[|tabs|..]
  {
    hide SinceImpl.Valid, Fed, Represents, WellFormedTrace;
    res, rest := [], ts;
    for k := 0 to |tabs|
      invariant impl.Valid() && Fed(phil, phir, impl.test, rlay, tr, m + k, impl.es, impl.ls)
      invariant |res| == k && Verdicts(Since(impl.inter, phil, phir), rlay, res, tr, m) && rest == ts[k..]
    {
      var newTs, tabR := rest[0], tabs[k];
      FedFacts(phil, phir, impl.test, rlay, tr, m + k, impl.es, impl.ls, tabR);
      FedMoreRight(phil, phir, impl.test, rlay, tr, m + k, impl.es, impl.ls, tabR);
      rest := rest[1..];
      var ret := impl.EvalOnce(tabR, newTs);
      SinceResult(impl.inter, phil, phir, impl.test, rlay, tr, m + k, impl.es, impl.ls, ret);
      res := res + [ret];
    }
  }

  // ----- until and eventually -----

  lemma {:induction false} FirstFound(inter: Interval, tr: seq<TimePoint>, m: nat, look: nat, first: nat,
                                      es: seq<Entry>)
    requires m == |es| <= |tr| && (forall k :: 0 <= k < m ==> es[k].ts == tr[k].ts)
    requires U.Horizon(inter, es, first, look)
    ensures first == FirstWithin(tr, inter, m, look)
  {
    var f := FirstWithin(tr, inter, m, look);
    assert f < m ==> es[f].ts == tr[f].ts;
    assert first < m ==> es[first].ts == tr[first].ts;
  }

  lemma {:induction false} UntilResult(inter: Interval, phil: Formula, phir: Formula, t: LeftTest, rlay: Layout,
                                       tr: seq<TimePoint>, m: nat, es: seq<Entry>, ls: seq<Option<Table>>,
                                       out: seq<Table>, look: nat, i: nat)
    requires Fed(phil, phir, t, rlay, tr, m, es, ls) && WellFormedTrace(tr) && (m < |tr| ==> look <= tr[m].ts)
    requires i < |out| && U.Horizon(inter, es, |out|, look) && U.EmittedOk(inter, t, es, ls, out)
    ensures Represents(Until(inter, phil, phir), rlay, out[i], tr, i)
  {
    forall j | m <= j < |tr| ensures !inter.LeqUpper(tr[j].ts - tr[i].ts) {
      assert es[i].ts == tr[i].ts && tr[m].ts <= tr[j].ts;
    }
    forall v: Env ensures Project(rlay, v) in out[i] <==> Sat(Until(inter, phil, phir), tr, i, v) {
      UntilMeaning(inter, phil, phir, t, rlay, es, ls, tr, i, v);
    }
    forall e | e in out[i] ensures |e| == |rlay| {
      assert U.UntilSat(inter, t, es, ls, i, e);
      var j :| U.Witness(inter, t, es, ls, i, j, e);
      assert Represents(phir, rlay, es[j].tab, tr, j);
    }
  }

  lemma UntilImplFacts(impl: UntilImpl)
    requires impl.Valid()
    ensures U.Horizon(impl.inter, impl.es, |impl.out|, impl.look)
            && U.EmittedOk(impl.inter, impl.test, impl.es, impl.ls, impl.out)
  {}

  /** What a valid operator that has been fed `m` time points has emitted. */
  lemma {:induction false} UntilResults(impl: UntilImpl, phil: Formula, phir: Formula, rlay: Layout,
                                        tr: seq<TimePoint>, m: nat, done: nat)
    requires impl.Valid() && Fed(phil, phir, impl.test, rlay, tr, m, impl.es, impl.ls) && WellFormedTrace(tr)
    requires AtRest(impl, tr, m) && done <= |impl.out|
    ensures Verdicts(Until(impl.inter, phil, phir), rlay, impl.out[done..], tr, done)
    ensures m <= |tr| && |impl.out| == FirstWithin(tr, impl.inter, m, impl.look)
  {
    hide U.Sound, U.Complete, U.A1Ok, U.EmittedOk, U.Horizon, Represents;
    UntilImplFacts(impl);
    FirstFound(impl.inter, tr, m, impl.look, |impl.out|, impl.es);
    forall k | 0 <= k < |impl.out[done..]| ensures Represents(Until(impl.inter, phil, phir), rlay,
        impl.out[done..][k], tr, done + k) {
      UntilResult(impl.inter, phil, phir, impl.test, rlay, tr, m, impl.es, impl.ls, impl.out, impl.look, done + k);
    }
  }

  /** The timestamp an operator looks ahead to after being fed the time point before `m`, with those up to `n` known. */
  ghost function LookAhead(tr: seq<TimePoint>, m: nat, n: nat): nat
    requires 0 < m <= n <= |tr|
  {
    tr[Min(m, n - 1)].ts
  }

  /** At rest: all that could be handed out has been, without looking past the timestamp of the next table. */
  ghost predicate AtRest(impl: UntilImpl, tr: seq<TimePoint>, m: nat)
    reads impl
  {
    impl.returned == |impl.out| && (m < |tr| ==> impl.look <= tr[m].ts)
  }

  /** One call of the reduction of MUntil. */
  method UntilStep(impl: UntilImpl, tabL: Table, tabR: Table, ts: seq<nat>, ghost psi: Formula, ghost llay: Layout,
                   ghost phil: Formula, ghost phir: Formula, ghost rlay: Layout, ghost tr: seq<TimePoint>,
                   ghost m: nat)
    returns (ret: seq<Table>, rest: seq<nat>)
    requires impl.Valid() && impl.nfvs == |rlay| && WellFormedTrace(tr) && AtRest(impl, tr, m)
    requires Fed(phil, phir, impl.test, rlay, tr, m, impl.es, impl.ls) && TestOk(impl.test, psi, llay, rlay, phil)
    requires Represents(psi, llay, tabL, tr, m) && Represents(phir, rlay, tabR, tr, m)
    requires ts != [] && m + |ts| <= |tr| && forall k :: 0 <= k < |ts| ==> ts[k] == tr[m + k].ts
    modifies impl
    ensures impl.Valid() && Fed(phil, phir, impl.test, rlay, tr, m + 1, impl.es, impl.ls) && rest == ts[1..]
    ensures AtRest(impl, tr, m + 1) && impl.look == LookAhead(tr, m + 1, m + |ts|)
    ensures impl.out == old(impl.out) + ret
  {
    hide UntilImpl.Valid, Fed, TestOk, Represents, WellFormedTrace;
    FedFacts(phil, phir, impl.test, rlay, tr, m, impl.es, impl.ls, tabR);
    FedMore(psi, llay, phil, phir, impl.test, rlay, tr, m, impl.es, impl.ls, tabL, tabR);
    var newTs := ts[0];
    rest := ts[1..];
    impl.AddTables(tabL, tabR, newTs);
    newTs := if rest == [] then newTs else rest[0];
    ret := impl.Eval(newTs);
  }

  method UntilTables(impl: UntilImpl, pairs: seq<(Table, Table)>, ts: seq<nat>, ghost psi: Formula,
                     ghost llay: Layout, ghost phil: Formula, ghost phir: Formula, ghost rlay: Layout,
                     ghost tr: seq<TimePoint>, ghost m: nat)
    returns (res: seq<Table>, rest: seq<nat>)
    requires impl.Valid() && impl.nfvs == |rlay| && WellFormedTrace(tr) && AtRest(impl, tr, m)
    requires Fed(phil, phir, impl.test, rlay, tr, m, impl.es, impl.ls) && TestOk(impl.test, psi, llay, rlay, phil)
    requires PairsOk(psi, llay, phir, rlay, pairs, tr, m)
    requires |pairs| <= |ts| && m + |ts| <= |tr| && forall k :: 0 <= k < |ts| ==> ts[k] == tr[m + k].ts
    modifies impl
    ensures impl.Valid() && Fed(phil, phir, impl.test, rlay, tr, m + |pairs|, impl.es, impl.ls) && rest == ts[|pairs|..]
    ensures AtRest(impl, tr, m + |pairs|) && impl.out == old(impl.out) + res
    ensures if pairs == [] then impl.look == old(impl.look)
            && res == [] else impl.look == LookAhead(tr, m + |pairs|, m + |ts|)
  {
    hide UntilImpl.Valid, Fed, TestOk, Represents, WellFormedTrace, AtRest;
    res, rest := [], ts;
    for k := 0 to |pairs|
      invariant impl.Valid() && Fed(phil, phir, impl.test, rlay, tr, m + k, impl.es, impl.ls)
      invariant AtRest(impl, tr, m + k) && impl.out == old(impl.out) + res && rest == ts[k..]
      invariant if k == 0 then impl.look == old(impl.look) && res == [] else impl.look == LookAhead(tr, m + k, m + |ts|)
    {
      ghost var out0, res0 := impl.out, res;
      var ret;
      ret, rest := UntilStep(impl, pairs[k].0, pairs[k].1, rest, psi, llay, phil, phir, rlay, tr, m + k);
      res := res + ret;
    }
  }

  /** One round of the loop of MEventually. */
  method EventuallyStep(impl: UntilImpl, tabR: Table, ts: seq<nat>, ghost phil: Formula, ghost phir: Formula,
                        ghost rlay: Layout, ghost tr: seq<TimePoint>, ghost m: nat)
    returns (ret: seq<Table>, rest: seq<nat>)
    requires impl.Valid() && impl.NoLeft() && impl.nfvs == |rlay| && WellFormedTrace(tr) && AtRest(impl, tr, m)
    requires Fed(phil, phir, impl.test, rlay, tr, m, impl.es, impl.ls) && phil.IsAlwaysTrue()
    requires Represents(phir, rlay, tabR, tr, m)
    requires ts != [] && m + |ts| <= |tr| && forall k :: 0 <= k < |ts| ==> ts[k] == tr[m + k].ts
    modifies impl
    ensures impl.Valid() && impl.NoLeft() && Fed(phil, phir, impl.test, rlay, tr, m + 1, impl.es, impl.ls)
            && rest == ts[1..]
    ensures AtRest(impl, tr, m + 1) && impl.look == LookAhead(tr, m + 1, m + |ts|)
    ensures impl.out == old(impl.out) + ret
  {
    hide UntilImpl.Valid, Fed, Represents, WellFormedTrace;
    FedFacts(phil, phir, impl.test, rlay, tr, m, impl.es, impl.ls, tabR);
    FedMoreRight(phil, phir, impl.test, rlay, tr, m, impl.es, impl.ls, tabR);
    var newTs := ts[0];
    rest := ts[1..];
    impl.AddRightTable(tabR, newTs);
    newTs := if rest == [] then newTs else rest[0];
    ret := impl.Eval(newTs);
  }

  method EventuallyTables(impl: UntilImpl, tabs: seq<Table>, ts: seq<nat>, ghost phil: Formula, ghost phir: Formula,
                          ghost rlay: Layout, ghost tr: seq<TimePoint>, ghost m: nat)
    returns (res: seq<Table>, rest: seq<nat>)
    requires impl.Valid() && impl.NoLeft() && impl.nfvs == |rlay| && WellFormedTrace(tr) && AtRest(impl, tr, m)
    requires Fed(phil, phir, impl.test, rlay, tr, m, impl.es, impl.ls) && phil.IsAlwaysTrue()
    requires Verdicts(phir, rlay, tabs, tr, m)
    requires |tabs| <= |ts| && m + |ts| <= |tr| && forall k :: 0 <= k < |ts| ==> ts[k] == tr[m + k].ts
    modifies impl
    ensures impl.Valid() && impl.NoLeft() && Fed(phil, phir, impl.test, rlay, tr, m + |tabs|, impl.es, impl.ls)
            && rest == ts[|tabs|..]
    ensures AtRest(impl, tr, m + |tabs|) && impl.out == old(impl.out) + res
    ensures if tabs == [] then impl.look == old(impl.look)
            && res == [] else impl.look == LookAhead(tr, m + |tabs|, m + |ts|)
  {
    hide UntilImpl.Valid, UntilImpl.NoLeft, Fed, Represents, WellFormedTrace, AtRest;
    res, rest := [], ts;
    for k := 0 to |tabs|
      invariant impl.Valid() && impl.NoLeft() && Fed(phil, phir, impl.test, rlay, tr, m + k, impl.es, impl.ls)
      invariant AtRest(impl, tr, m + k) && impl.out == old(impl.out) + res && rest == ts[k..]
      invariant if k == 0 then impl.look == old(impl.look) && res == [] else impl.look == LookAhead(tr, m + k, m + |ts|)
    {
      ghost var out0, res0 := impl.out, res;
      var ret;
      ret, rest := EventuallyStep(impl, tabs[k], rest, phil, phir, rlay, tr, m + k);
      res := res + ret;
    }
  }
}
