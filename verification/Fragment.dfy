/**
 * The fragment that compiles correctly against the source's own safety check
 * and against what compilation does to any formula; and what goes wrong at the
 * end of a log.
 */
module Fragment {
  import opened Wrappers
  import opened Intervals
  import opened Tables
  import opened Temporal
  import opened Formulas
  import opened Joins
  import opened Meaning
  import opened Buffers
  import opened Layouts
  import opened Streams
  import opened StreamProgress
  import opened Decisions
  import opened MonitorLoop
  import opened MonitorRuns

  // ----- is_safe_formula -----

  /** Everything in the fragment passes the source's safety check. */
  lemma {:induction false} MonitorableIsSafe(phi: Formula)
    requires phi.Monitorable()
    ensures phi.IsSafeFormula()
    decreases phi, 1
  {
    match phi
    case Eq(_, _) =>
    case Neg(psi) =>
      if !phi.IsVacuous() {
        MonitorableIsSafe(psi);
        if psi.Eq? {
          EqVariables(psi.l, psi.r);
        }
      }
    case Pred(_, _) =>
    case Or(l, r) => MonitorableIsSafe(l); MonitorableIsSafe(r);
    case And(l, r) =>
      MonitorableIsSafe(l);
      ColumnsAreFree(l);
      if !r.IsSafeAssignment(l.FVs()) && !r.IsSafeFormula() && !r.IsConstraint() {
        MonitorableIsSafe(r.phi);
      }
    case Exists(psi) => MonitorableIsSafe(psi);
    case Prev(_, psi) => MonitorableIsSafe(psi);
    case Next(_, psi) => MonitorableIsSafe(psi);
    case Since(_, _, _) => TemporalIsSafe(phi);
    case Until(_, _, _) => TemporalIsSafe(phi);
  }

  lemma EqVariables(l: Term, r: Term)
    ensures l.Var? ==> l.idx in Eq(l, r).FVs()
  {}

  lemma {:induction false} TemporalIsSafe(phi: Formula)
    requires (phi.Since? || phi.Until?) && phi.Monitorable()
    ensures phi.IsSafeFormula()
    decreases phi, 0
  {
    var l, r := phi.phil, phi.phir;
    MonitorableIsSafe(r);
    if !l.IsAlwaysTrue() {
      MonitorableIsSafe(if l.Neg? then l.phi else l);
    }
  }

  // ----- compilation -----

  /**
   * Safe or not, a formula compiles without failure and without losing a variable
   * exactly if it is in the fragment, and has no vacuous negation in it.
   */
  lemma {:induction false} KeepsVariablesIff(phi: Formula)
    requires phi.Constructed()
    ensures phi.KeepsVariables() <==> phi.Monitorable() && phi.VacuousFree()
    decreases phi, 1
  {
    match phi
    case Neg(psi) => KeepsVariablesIff(psi); assert phi.FVs() == psi.FVs();
    case Or(l, r) =>
      KeepsVariablesIff(l);
      KeepsVariablesIff(r);
      Unions(l.FVs(), r.FVs());
    case And(l, r) =>
      assert phi.FVs() == l.FVs() + r.FVs();
      KeepsVariablesIff(l);
      KeepsVariablesIff(r);
      if r.Neg? {
        KeepsVariablesIff(r.phi);
      }
      AndKeeps(l, r);
    case Exists(psi) =>
      KeepsVariablesIff(psi);
      if psi.Columns() == psi.FVs() {
        ExistsKeeps(psi);
      }
    case Prev(_, psi) => KeepsVariablesIff(psi);
    case Next(_, psi) => KeepsVariablesIff(psi);
    case Since(_, _, _) => TemporalKeepsIff(phi);
    case Until(_, _, _) => TemporalKeepsIff(phi);
    case _ =>
  }

  lemma Unions(a: set<nat>, b: set<nat>)
    ensures a + b == a <==> b <= a
    ensures a + b == b <==> a <= b
    ensures a == b ==> a + b == a
  {
    assert b <= a + b && a <= a + b;
  }

  lemma AndKeeps(l: Formula, r: Formula)
    requires l.KeepsVariables() <==> l.Monitorable() && l.VacuousFree()
    requires r.KeepsVariables() <==> r.Monitorable() && r.VacuousFree()
    requires r.Neg? ==> (r.phi.KeepsVariables() <==> r.phi.Monitorable() && r.phi.VacuousFree())
    ensures And(l, r).KeepsVariables() <==> And(l, r).Monitorable() && And(l, r).VacuousFree()
  {
    var phi := And(l, r);
    assert phi.FVs() == l.FVs() + r.FVs();
    ColumnsAreFree(l);
    Unions(l.FVs(), r.FVs());
    if r.IsSafeAssignment(l.FVs()) {
      AssignmentVariables(r, l.FVs());
      assert phi.FVs() == l.FVs() + {r.Assigned(l.FVs()).0};
    } else if r.IsSafeFormula() {
      assert l.KeepsVariables() ==> l.Columns() == l.FVs();
      assert r.KeepsVariables() ==> r.Columns() == r.FVs();
      assert phi.KeepsVariables() <==> l.KeepsVariables() && r.KeepsVariables();
    } else if r.IsConstraint() {
      assert phi.KeepsVariables() ==> r.IsComparison() || r.phi.IsComparison();
    } else if r.Neg? {
      assert r.FVs() == r.phi.FVs();
      assert phi.KeepsVariables() <==> l.KeepsVariables() && r.phi.KeepsVariables() && r.FVs() <= l.FVs();
    }
  }

  lemma ExistsKeeps(psi: Formula)
    requires psi.Columns() == psi.FVs()
    ensures Exists(psi).Columns() == Exists(psi).FVs()
  {
    ExistsColumns(psi);
    forall x: nat ensures x in Exists(psi).Columns() <==> x in Exists(psi).FVs() {
      FVIShift(psi, 0, x);
    }
  }

  lemma {:induction false} TemporalKeepsIff(phi: Formula)
    requires (phi.Since? || phi.Until?) && phi.Constructed()
    ensures phi.KeepsVariables() <==> phi.Monitorable() && phi.VacuousFree()
    decreases phi, 0
  {
    var l, r := phi.phil, phi.phir;
    assert phi.FVs() == l.FVs() + r.FVs();
    Unions(l.FVs(), r.FVs());
    KeepsVariablesIff(r);
    if l.IsAlwaysTrue() {
      assert l.FVs() == {};
    } else {
      var psi := if l.Neg? then l.phi else l;
      assert l.FVs() == psi.FVs();
      KeepsVariablesIff(psi);
    }
  }

  // ----- where the check is not enough -----

  const FOREVER := Interval(0, 0, false)
  const PRED_P := User("P", 1)
  const PRED_Q := User("Q", 1)

  lemma VarArg(id: PredId, x: nat)
    ensures Pred(id, [Var(x)]).FVs() == {x}
  {
    assert [Var(x)][1..] == [];
    assert ArgsFVI([Var(x)], 0) == Var(x).FVI(0) + ArgsFVI([], 0);
  }

  /** A right operand of since that is not checked at all: compilation throws. */
  lemma UncheckedRight()
    ensures var phi := Since(FOREVER, Eq(Const(0), Const(0)), Less(Var(0), Const(1)));
            phi.IsSafeFormula() && phi.LayoutVars().None?
  {}

  /** A doubly negated comparison, of which only one negation is stripped: compilation throws. */
  lemma DoublyNegated()
    ensures var phi := And(Pred(PRED_P, [Var(0)]), Neg(Neg(Less(Var(0), Const(1)))));
            phi.IsSafeFormula() && phi.LayoutVars().None?
  {
    VarArg(PRED_P, 0);
    assert Neg(Neg(Less(Var(0), Const(1)))).FVs() == Neg(Less(Var(0), Const(1))).FVs()
        == Less(Var(0), Const(1)).FVs() == {0};
  }

  /**
   * A vacuous negation by itself: its layout has no column for its variable, so the
   * constructor of the monitor refuses it; joined with a predicate it does no harm.
   */
  lemma LostColumn()
    ensures var phi := Neg(Eq(Var(0), Var(0)));
            phi.IsSafeFormula() && phi.LayoutVars() == Some({}) && phi.FVs() == {0}
    ensures var phi := And(Pred(PRED_P, [Var(0)]), Neg(Eq(Var(0), Var(0))));
            phi.IsSafeFormula() && phi.Monitorable() && Numbered(phi, 1)
  {
    VacuousLayout(Neg(Eq(Var(0), Var(0))));
    VarArg(PRED_P, 0);
    var p, phi := Pred(PRED_P, [Var(0)]), And(Pred(PRED_P, [Var(0)]), Neg(Eq(Var(0), Var(0))));
    assert phi.FVs() == p.FVs() + {0} == {0};
    assert phi.Columns() == p.Columns() + {} == {0};
  }

  lemma BlockedAt(tr: seq<TimePoint>, v: Env)
    requires |tr| == 2 && PRED_P in tr[1].db && [5] in tr[1].db[PRED_P] && PRED_Q !in tr[1].db && |v| == 2 && v[0] == 5
    ensures !Sat(Since(FOREVER, Neg(Pred(PRED_P, [Var(0)])), Pred(PRED_Q, [Var(1)])), tr, 1, v)
  {
    assert EvalArgs([Var(0)], v) == [5];
    assert Sat(Pred(PRED_P, [Var(0)]), tr, 1, v);
    assert !Sat(Neg(Pred(PRED_P, [Var(0)])), tr, 1, v);
    assert !Sat(Pred(PRED_Q, [Var(1)]), tr, 1, v);
  }

  lemma HoldsAt(tr: seq<TimePoint>, v: Env)
    requires |tr| == 2 && tr[0].ts == tr[1].ts && PRED_Q in tr[0].db && [7] in tr[0].db[PRED_Q]
    requires PRED_P in tr[1].db && tr[1].db[PRED_P] == [[5]] && |v| == 2 && v[0] != 5 && v[1] == 7
    ensures Sat(Since(FOREVER, Neg(Pred(PRED_P, [Var(0)])), Pred(PRED_Q, [Var(1)])), tr, 1, v)
  {
    assert EvalArgs([Var(0)], v) == [v[0]] && EvalArgs([Var(1)], v) == [7];
    assert Sat(Pred(PRED_Q, [Var(1)]), tr, 0, v);
    assert !Sat(Pred(PRED_P, [Var(0)]), tr, 1, v);
    assert forall k: nat :: 0 < k <= 1 ==> Sat(Neg(Pred(PRED_P, [Var(0)])), tr, k, v);
  }

  lemma NoTable(tr: seq<TimePoint>)
    requires |tr| == 2 && tr[0].ts == tr[1].ts && PRED_Q in tr[0].db && [7] in tr[0].db[PRED_Q]
    requires PRED_P in tr[1].db && tr[1].db[PRED_P] == [[5]] && PRED_Q !in tr[1].db
    ensures forall tab: Table ::
              !Represents(Since(FOREVER, Neg(Pred(PRED_P, [Var(0)])), Pred(PRED_Q, [Var(1)])), [1], tab, tr, 1)
  {
    hide Sat;
    var phi := Since(FOREVER, Neg(Pred(PRED_P, [Var(0)])), Pred(PRED_Q, [Var(1)]));
    var blocked, other := [5, 7], [6, 7];
    BlockedAt(tr, blocked);
    HoldsAt(tr, other);
    assert Project([1], blocked) == Project([1], other) == [7];
    forall tab: Table ensures !Represents(phi, [1], tab, tr, 1) {
      assert Project([1], blocked) in tab <==> Project([1], other) in tab;
    }
  }

  /**
   * A negated left operand of since with a variable that the right operand lacks:
   * it compiles to a layout without that variable, and on some log no table
   * under that layout represents the formula.
   */
  lemma LostVariable()
    ensures var phi := Since(FOREVER, Neg(Pred(PRED_P, [Var(0)])), Pred(PRED_Q, [Var(1)]));
            phi.IsSafeFormula() && phi.LayoutVars() == Some({1}) && 0 in phi.FVs()
            && exists tr :: WellFormedTrace(tr) && |tr| == 2 && forall tab: Table :: !Represents(phi, [1], tab, tr, 1)
  {
    var l, r := Pred(PRED_P, [Var(0)]), Pred(PRED_Q, [Var(1)]);
    var phi := Since(FOREVER, Neg(l), r);
    VarArg(PRED_P, 0);
    VarArg(PRED_Q, 1);
    assert Neg(l).FVs() == l.FVs() && phi.FVs() == Neg(l).FVs() + r.FVs();
    var tr := [TimePoint(0, map[PRED_Q := [[7]]]), TimePoint(0, map[PRED_P := [[5]]])];
    NoTable(tr);
  }

  // ----- the end of a log -----

  /** The verdict for the last time point is the same with and without the sentinel. */
  ghost predicate SameAtEnd(phi: Formula, tr: seq<TimePoint>, v: Env)
    requires |tr| > 0
  {
    Sat(phi, Sealed(tr), |tr| - 1, v) <==> Sat(phi, tr, |tr| - 1, v)
  }

  ghost predicate NothingAtSentinel(psi: Formula, tr: seq<TimePoint>) {
    forall v: Env :: !Sat(psi, Sealed(tr), |tr|, v)
  }

  /**
   * A next at the end of the log is false by definition, but the verdict that is
   * reported for it takes the sentinel for a successor.  The two verdicts are the
   * same exactly if the interval keeps the sentinel out, or nothing satisfies the
   * operand there.
   */
  lemma {:induction false} NextAtEnd(inter: Interval, psi: Formula, tr: seq<TimePoint>)
    requires |tr| > 0 && FutureFree(psi)
    ensures Progress(Next(inter, psi), Sealed(tr), |tr| + 1) == |tr|
    ensures (forall v: Env :: SameAtEnd(Next(inter, psi), tr, v)) <==>
            !inter.Contains(MAXIMUM_TIMESTAMP - tr[|tr| - 1].ts) || NothingAtSentinel(psi, tr)
  {
    var full, last := Sealed(tr), |tr| - 1;
    FutureFreeImmediate(psi, full, |tr| + 1);
    assert full[last] == tr[last];
    var reached := inter.Contains(MAXIMUM_TIMESTAMP - tr[last].ts);
    forall v: Env ensures SameAtEnd(Next(inter, psi), tr, v) <==> !reached || !Sat(psi, full, |tr|, v) {
      assert !Sat(Next(inter, psi), tr, last, v);
      assert Sat(Next(inter, psi), full, last, v) <==> reached && Sat(psi, full, last + 1, v);
    }
    if !reached {
      assert forall v: Env :: SameAtEnd(Next(inter, psi), tr, v);
    } else if v: Env :| Sat(psi, full, |tr|, v) {
      assert !SameAtEnd(Next(inter, psi), tr, v);
    } else {
      forall v: Env ensures SameAtEnd(Next(inter, psi), tr, v) {
        assert !Sat(psi, full, |tr|, v);
      }
    }
  }

  /** It happens: on a log of one time point, the next one is reported to have the timestamp of the sentinel. */
  lemma NextSeesSentinel()
    ensures var phi, tr := Next(FOREVER, Pred(Ts, [Var(0)])), [TimePoint(7, map[])];
            phi.Monitorable() && Numbered(phi, 1) && WellFormedTrace(tr) && BelowMaximum(tr)
            && Progress(phi, Sealed(tr), 2) == 1 && Sat(phi, Sealed(tr), 0, [-1]) && !Sat(phi, tr, 0, [-1])
  {
    var psi, tr := Pred(Ts, [Var(0)]), [TimePoint(7, map[])];
    VarArg(Ts, 0);
    assert Next(FOREVER, psi).FVs() == psi.FVs();
    assert EvalArgs([Var(0)], [-1]) == [-1] == [Int64(MAXIMUM_TIMESTAMP)];
    assert Sat(psi, Sealed(tr), 1, [-1]);
  }

  /** Close to the maximum timestamp an until with an upper bound is never decided, and its verdict is left out. */
  lemma UntilNotFlushed()
    ensures var tr := [TimePoint(MAXIMUM_TIMESTAMP - 1, map[])];
            var phi := Until(Interval(0, 5, true), Eq(Const(0), Const(0)), Pred(PRED_P, [Var(0)]));
            phi.Monitorable() && Numbered(phi, 1) && WellFormedTrace(tr) && BelowMaximum(tr)
            && Progress(phi, Sealed(tr), 2) == 0 && !Flushable(phi, tr)
  {
    var tr := [TimePoint(MAXIMUM_TIMESTAMP - 1, map[])];
    var phi := Until(Interval(0, 5, true), Eq(Const(0), Const(0)), Pred(PRED_P, [Var(0)]));
    VarArg(PRED_P, 0);
    assert phi.FVs() == {0} && phi.Columns() == phi.phir.Columns() == {0};
    FlushedIff(phi, tr);
  }

  /** Previous of an undecided until may be complete all the same. */
  lemma PrevRunsAhead()
    ensures var tr := [TimePoint(0, map[]), TimePoint(MAXIMUM_TIMESTAMP - 1, map[])];
            var psi := Until(Interval(0, 5, true), Eq(Const(0), Const(0)), Pred(PRED_P, [Var(0)]));
            var phi := Prev(FOREVER, psi);
            WellFormedTrace(tr) && BelowMaximum(tr) && !Flushable(phi, tr) && Progress(phi, Sealed(tr), 3) == 2
  {
    var tr := [TimePoint(0, map[]), TimePoint(MAXIMUM_TIMESTAMP - 1, map[])];
    var psi := Until(Interval(0, 5, true), Eq(Const(0), Const(0)), Pred(PRED_P, [Var(0)]));
    UntilUnfold(psi.inter, psi.phil, psi.phir, Sealed(tr), 1);
    UntilUnfold(psi.inter, psi.phil, psi.phir, Sealed(tr), 2);
    assert !psi.inter.LeqUpper(MAXIMUM_TIMESTAMP - tr[0].ts);
    PrevFlushedIff(FOREVER, psi, tr);
  }
}
