/** How the progress of each operator follows from that of its operands. */
module StreamProgress {
  import opened Intervals
  import opened Temporal
  import opened Tables
  import opened Formulas
  import opened Joins
  import opened Buffers
  import opened UnaryOps
  import opened Streams
  import opened Reductions
  import opened TemporalStreams
  import opened UntilOperator

  lemma {:induction false} AndProgress(info: AndInfo, phil: Formula, llay: Layout, phir: Formula, rlay: Layout,
                                       phi: Formula, lay: Layout, tr: seq<TimePoint>, n: nat)
    requires n <= |tr| && AndOk(info, phil, llay, phir, rlay, phi, lay)
    ensures Progress(phi, tr, n) == Min(Progress(phil, tr, n), Progress(phir, tr, n))
  {
    hide IsJoinInfo, IsAntiJoinInfo, DupFree;
  }

  lemma {:induction false} OrProgress(phil: Formula, phir: Formula, tr: seq<TimePoint>, n: nat)
    requires n <= |tr|
    ensures Progress(Or(phil, phir), tr, n) == Min(Progress(phil, tr, n), Progress(phir, tr, n))
  {}

  lemma {:induction false} PrevProgress(inter: Interval, psi: Formula, tr: seq<TimePoint>, n: nat)
    requires n < |tr|
    ensures Progress(Prev(inter, psi), tr, n + 1) ==
            if Progress(psi, tr, n + 1) == Progress(psi, tr, n) then Progress(Prev(inter, psi), tr, n)
            else Min(Progress(psi, tr, n + 1) + 1, n + 1)
  {}

  lemma {:induction false} NextProgress(inter: Interval, psi: Formula, tr: seq<TimePoint>, n: nat)
    requires n <= |tr|
    ensures Progress(Next(inter, psi), tr, n) == if Progress(psi, tr, n) == 0 then 0 else Progress(psi, tr, n) - 1
  {}

  /** Negating the left operand does not change what is known of it. */
  lemma {:induction false} SinceProgress(phi: Formula, t: LeftTest, psi: Formula, llay: Layout, rlay: Layout,
                                         tr: seq<TimePoint>, n: nat)
    requires n <= |tr| && phi.Since? && TestOk(t, psi, llay, rlay, phi.phil)
    ensures Progress(phi, tr, n) == Min(Progress(psi, tr, n), Progress(phi.phir, tr, n))
  {}

  lemma {:induction false} OnceProgress(phi: Formula, tr: seq<TimePoint>, n: nat)
    requires n <= |tr| && phi.Since? && phi.phil.IsAlwaysTrue()
    ensures Progress(phi, tr, n) == Progress(phi.phir, tr, n)
  {}

  lemma {:induction false} UntilProgress(phi: Formula, t: LeftTest, psi: Formula, llay: Layout, rlay: Layout,
                                         tr: seq<TimePoint>, n: nat, m: nat, m': nat)
    requires n < |tr| && phi.Until? && TestOk(t, psi, llay, rlay, phi.phil)
    requires m == Min(Progress(psi, tr, n), Progress(phi.phir, tr, n))
             && m' == Min(Progress(psi, tr, n + 1), Progress(phi.phir, tr, n + 1))
    requires m <= m'
    ensures Progress(phi, tr, n + 1) == if m == m' then Progress(phi, tr, n)
            else FirstWithin(tr, phi.inter, m', LookAhead(tr, m', n + 1))
  {}

  lemma {:induction false} EventuallyProgress(phi: Formula, tr: seq<TimePoint>, n: nat, m: nat, m': nat)
    requires n < |tr| && phi.Until? && phi.phil.IsAlwaysTrue()
    requires m == Progress(phi.phir, tr, n) && m' == Progress(phi.phir, tr, n + 1) && m <= m'
    ensures Progress(phi, tr, n + 1) == if m == m' then Progress(phi, tr, n)
            else FirstWithin(tr, phi.inter, m', LookAhead(tr, m', n + 1))
  {}

  /** What an until operator that has caught up with its operands has delivered for time point `n`. */
  lemma {:induction false} UntilDelivered(until: UntilImpl, phi: Formula, lay: Layout, tr: seq<TimePoint>, n: nat,
                                          m: nat, m': nat, out0: seq<Table>, out: seq<Table>)
    requires n < |tr| && WellFormedTrace(tr) && phi.Until? && until.inter == phi.inter && m <= m' <= n + 1
    requires until.Valid() && Fed(phi.phil, phi.phir, until.test, lay, tr, m', until.es, until.ls)
             && AtRest(until, tr, m')
    requires until.out == out0 + out && |out0| == Progress(phi, tr, n)
    requires if m == m' then out == [] else until.look == LookAhead(tr, m', n + 1)
    requires Progress(phi, tr, n + 1) == if m == m' then Progress(phi, tr, n)
             else FirstWithin(tr, phi.inter, m', LookAhead(tr, m', n + 1))
    ensures Delivered(phi, lay, tr, n, out) && |until.out| == Progress(phi, tr, n + 1)
  {
    hide UntilImpl.Valid, Fed, AtRest, Progress, Verdicts, FirstWithin, LookAhead, WellFormedTrace;
    UntilResults(until, phi.phil, phi.phir, lay, tr, m', |out0|);
    assert until.out[|out0|..] == out;
  }

  /** The reductions of MUntil for time point `n`, whose timestamp is the last one of `ts`. */
  method UntilRound(until: UntilImpl, pairs: seq<(Table, Table)>, ts: seq<nat>, ghost phi: Formula,
                    ghost psi: Formula, ghost llay: Layout, ghost lay: Layout, ghost tr: seq<TimePoint>, ghost n: nat,
                    ghost m: nat, ghost m': nat)
    returns (out: seq<Table>, rest: seq<nat>)
    requires until.Valid() && until.nfvs == |lay| && WellFormedTrace(tr) && AtRest(until, tr, m)
    requires phi.Until? && until.inter == phi.inter && TestOk(until.test, psi, llay, lay, phi.phil)
    requires Fed(phi.phil, phi.phir, until.test, lay, tr, m, until.es, until.ls)
    requires PairsOk(psi, llay, phi.phir, lay, pairs, tr, m) && m' == m + |pairs| <= n + 1
    requires n < |tr| && |ts| == n + 1 - m && forall k :: 0 <= k < |ts| ==> ts[k] == tr[m + k].ts
    requires m == Min(Progress(psi, tr, n), Progress(phi.phir, tr, n))
    requires m' == Min(Progress(psi, tr, n + 1), Progress(phi.phir, tr, n + 1))
    requires |until.out| == Progress(phi, tr, n)
    modifies until
    ensures until.Valid() && Fed(phi.phil, phi.phir, until.test, lay, tr, m', until.es, until.ls)
            && AtRest(until, tr, m')
    ensures Delivered(phi, lay, tr, n, out) && |until.out| == Progress(phi, tr, n + 1) && rest == ts[|pairs|..]
  {
    hide Fed, TestOk, PairsOk, UntilImpl.Valid, WellFormedTrace, AtRest, Progress, Delivered, LookAhead, FirstWithin;
    UntilProgress(phi, until.test, psi, llay, lay, tr, n, m, m');
    ghost var out0 := until.out;
    out, rest := UntilTables(until, pairs, ts, psi, llay, phi.phil, phi.phir, lay, tr, m);
    UntilDelivered(until, phi, lay, tr, n, m, m', out0, out);
  }

  /** The loop of MEventually for time point `n`. */
  method EventuallyRound(until: UntilImpl, tabs: seq<Table>, ts: seq<nat>, ghost phi: Formula, ghost lay: Layout,
                         ghost tr: seq<TimePoint>, ghost n: nat, ghost m: nat, ghost m': nat)
    returns (out: seq<Table>, rest: seq<nat>)
    requires until.Valid() && until.NoLeft() && until.nfvs == |lay| && WellFormedTrace(tr) && AtRest(until, tr, m)
    requires phi.Until? && until.inter == phi.inter && phi.phil.IsAlwaysTrue()
    requires Fed(phi.phil, phi.phir, until.test, lay, tr, m, until.es, until.ls)
    requires Verdicts(phi.phir, lay, tabs, tr, m) && m' == m + |tabs| <= n + 1
    requires n < |tr| && |ts| == n + 1 - m && forall k :: 0 <= k < |ts| ==> ts[k] == tr[m + k].ts
    requires m == Progress(phi.phir, tr, n) && m' == Progress(phi.phir, tr, n + 1)
    requires |until.out| == Progress(phi, tr, n)
    modifies until
    ensures until.Valid() && until.NoLeft() && Fed(phi.phil, phi.phir, until.test, lay, tr, m', until.es, until.ls)
            && AtRest(until, tr, m')
    ensures Delivered(phi, lay, tr, n, out) && |until.out| == Progress(phi, tr, n + 1) && rest == ts[|tabs|..]
  {
    hide Fed, Verdicts, UntilImpl.Valid, UntilImpl.NoLeft, WellFormedTrace, AtRest, Progress, Delivered, LookAhead,
        FirstWithin;
    EventuallyProgress(phi, tr, n, m, m');
    ghost var out0 := until.out;
    out, rest := EventuallyTables(until, tabs, ts, phi.phil, phi.phir, lay, tr, m);
    UntilDelivered(until, phi, lay, tr, n, m, m', out0, out);
  }

  /** The right operand of a fused conjunction is decided at once. */
  lemma {:induction false} ConstraintProgress(c: Formula, tr: seq<TimePoint>, n: nat)
    requires n <= |tr| && (c.IsComparison() || (c.Neg? && c.phi.IsComparison()))
    ensures Progress(c, tr, n) == n
  {}

  lemma {:induction false} StageProgress(op: UnaryOp, s: Stage, s': Stage, tr: seq<TimePoint>, n: nat)
    requires OpStage(op, s, s') && n <= |tr|
    ensures Progress(s'.phi, tr, n) == Progress(s.phi, tr, n)
  {
    if !op.DropColumn? {
      ConstraintProgress(s'.phi.phir, tr, n);
    }
  }

  lemma {:induction false} StagesProgress(ops: seq<UnaryOp>, stages: seq<Stage>, tr: seq<TimePoint>, n: nat)
    requires StagesOk(ops, stages) && n <= |tr|
    ensures Progress(stages[|ops|].phi, tr, n) == Progress(stages[0].phi, tr, n)
    decreases |ops|
  {
    if ops != [] {
      StagesProgress(ops[1..], stages[1..], tr, n);
      StageProgress(ops[0], stages[0], stages[1], tr, n);
    }
  }

  // ----- slices -----

  lemma StampsRest(tr: seq<TimePoint>, n: nat, m: nat, m': nat)
    requires m <= m' <= n <= |tr|
    ensures Stamps(tr, n)[m..][m' - m..] == Stamps(tr, n)[m'..]
  {}

  lemma NoVerdicts(phi: Formula, lay: Layout, tr: seq<TimePoint>, done: nat)
    ensures Verdicts(phi, lay, [], tr, done)
  {}
}
