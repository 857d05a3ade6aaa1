/**
 * Formulas as streams of tables: how many time points an operator has decided
 * after reading a prefix of the trace, and how the temporal operators'
 * verdicts over their input tables relate to the meaning of formulas.
 */
module Streams {
  import opened Wrappers
  import opened Intervals
  import opened Tables
  import opened Temporal
  import opened Formulas
  import opened Joins
  import opened Meaning
  import opened Buffers
  import opened PrevNext
  import opened SinceSpec
  import U = UntilSpec

  /** The first of `m` time points that is still within reach of timestamp `look`, if any. */
  ghost function FirstWithin(tr: seq<TimePoint>, inter: Interval, m: nat, look: nat): (f: nat)
    requires m <= |tr|
    ensures f <= m && (f < m ==> inter.LeqUpper(look - tr[f].ts))
    ensures forall i :: 0 <= i < f ==> !inter.LeqUpper(look - tr[i].ts)
    decreases m
  {
    if m == 0 then 0 else
      var f := FirstWithin(tr, inter, m - 1, look);
      if f < m - 1 || inter.LeqUpper(look - tr[m - 1].ts) then f else m
  }

  /**
   * How many time points have been decided after reading the first `n`.  Previous
   * and until only move on when their operands deliver something: until then looks
   * one timestamp ahead of what it has consumed, if that timestamp is known.
   */
  ghost function Progress(phi: Formula, tr: seq<TimePoint>, n: nat): (p: nat)
    requires n <= |tr|
    ensures p <= n
    decreases phi, n
  {
    match phi
    case Neg(psi) => Progress(psi, tr, n)
    case Exists(psi) => Progress(psi, tr, n)
    case Or(l, r) => Min(Progress(l, tr, n), Progress(r, tr, n))
    case And(l, r) => Min(Progress(l, tr, n), Progress(r, tr, n))
    case Since(_, l, r) => Min(Progress(l, tr, n), Progress(r, tr, n))
    case Prev(_, psi) =>
      if n == 0 then 0
      else if Progress(psi, tr, n) == Progress(psi, tr, n - 1) then Progress(phi, tr, n - 1)
      else Min(Progress(psi, tr, n) + 1, n)
    case Next(_, psi) => if Progress(psi, tr, n) == 0 then 0 else Progress(psi, tr, n) - 1
    case Until(inter, l, r) =>
      if n == 0 then 0 else
        var m, m0 := Min(Progress(l, tr, n), Progress(r, tr, n)), Min(Progress(l, tr, n - 1), Progress(r, tr, n - 1));
        if m == m0 then Progress(phi, tr, n - 1) else FirstWithin(tr, inter, m, tr[Min(m, n - 1)].ts)
    case _ => n
  }

  /** The timestamps of the first `n` time points. */
  function Stamps(tr: seq<TimePoint>, n: nat): (ts: seq<nat>)
    requires n <= |tr|
    ensures |ts| == n && forall k :: 0 <= k < n ==> ts[k] == tr[k].ts
  {
    seq(n, k requires 0 <= k < n => tr[k].ts)
  }

  lemma StampsMonotone(tr: seq<TimePoint>, n: nat)
    requires n <= |tr| && WellFormedTrace(tr)
    ensures Monotone(Stamps(tr, n))
  {}

  lemma StampsAppend(tr: seq<TimePoint>, n: nat)
    requires n < |tr|
    ensures Stamps(tr, n + 1) == Stamps(tr, n) + [tr[n].ts]
  {}

  /** Table `k` of `tabs` is the one for time point `from + k`. */
  ghost predicate Verdicts(phi: Formula, lay: Layout, tabs: seq<Table>, tr: seq<TimePoint>, from: nat) {
    forall k :: 0 <= k < |tabs| ==> Represents(phi, lay, tabs[k], tr, from + k)
  }

  lemma {:induction false} VerdictsAppend(phi: Formula, lay: Layout, tabs: seq<Table>, more: seq<Table>,
                                          tr: seq<TimePoint>)
    requires Verdicts(phi, lay, tabs, tr, 0) && Verdicts(phi, lay, more, tr, |tabs|)
    ensures Verdicts(phi, lay, tabs + more, tr, 0)
  {
    forall k | 0 <= k < |tabs + more| ensures Represents(phi, lay, (tabs + more)[k], tr, k) {
      if k >= |tabs| {
        assert Represents(phi, lay, more[k - |tabs|], tr, |tabs| + (k - |tabs|));
      }
    }
  }

  /** `out` is what an operator for `phi` owes for time point `n`: the tables of the time points this one decides. */
  ghost predicate Delivered(phi: Formula, lay: Layout, tr: seq<TimePoint>, n: nat, out: seq<Table>) {
    && n < |tr| && Progress(phi, tr, n) + |out| == Progress(phi, tr, n + 1)
    && Verdicts(phi, lay, out, tr, Progress(phi, tr, n))
  }

  /** `tabs` is all that was delivered for the first `n` time points. */
  ghost predicate Received(phi: Formula, lay: Layout, tr: seq<TimePoint>, n: nat, tabs: seq<Table>) {
    n <= |tr| && |tabs| == Progress(phi, tr, n) && Verdicts(phi, lay, tabs, tr, 0)
  }

  lemma {:induction false} ReceivedNone(phi: Formula, lay: Layout, tr: seq<TimePoint>)
    ensures Received(phi, lay, tr, 0, [])
  {}

  lemma {:induction false} ReceivedMore(phi: Formula, lay: Layout, tr: seq<TimePoint>, n: nat, tabs: seq<Table>,
                                        out: seq<Table>)
    requires Received(phi, lay, tr, n, tabs) && Delivered(phi, lay, tr, n, out)
    ensures Received(phi, lay, tr, n + 1, tabs + out)
  {
    hide Progress;
    VerdictsAppend(phi, lay, tabs, out, tr);
  }

  // ----- pairs of operands -----

  /** Pair `k` of `pairs` is for time point `from + k`. */
  ghost predicate PairsOk(phil: Formula, llay: Layout, phir: Formula, rlay: Layout, pairs: seq<(Table, Table)>,
                          tr: seq<TimePoint>, from: nat) {
    forall k :: 0 <= k < |pairs| ==>
        Represents(phil, llay, pairs[k].0, tr, from + k) && Represents(phir, rlay, pairs[k].1, tr, from + k)
  }

  lemma {:induction false} ZippedPairs(phil: Formula, llay: Layout, phir: Formula, rlay: Layout, tr: seq<TimePoint>,
                                       left: seq<Table>, right: seq<Table>, done: nat, pairs: seq<(Table, Table)>)
    requires Verdicts(phil, llay, left, tr, 0) && Verdicts(phir, rlay, right, tr, 0) && Zipped(left, right, done, pairs)
    ensures PairsOk(phil, llay, phir, rlay, pairs, tr, done)
  {
    forall k | 0 <= k < |pairs|
      ensures Represents(phil, llay, pairs[k].0, tr, done + k) && Represents(phir, rlay, pairs[k].1, tr, done + k)
    {
      assert pairs[(done + k) - done] == (left[done + k], right[done + k]);
      assert Represents(phil, llay, left[done + k], tr, 0 + (done + k));
      assert Represents(phir, rlay, right[done + k], tr, 0 + (done + k));
    }
  }

  // ----- previous and next -----

  lemma {:induction false} PrevMeaning(inter: Interval, psi: Formula, lay: Layout, tabs: seq<Table>,
                                       tr: seq<TimePoint>, n: nat, done: nat, res: seq<Table>)
    requires n <= |tr| && WellFormedTrace(tr) && Verdicts(psi, lay, tabs, tr, 0)
    requires PrevOut(inter, Stamps(tr, n), tabs, done, res)
    ensures Verdicts(Prev(inter, psi), lay, res, tr, done)
  {
    forall k | 0 <= k < |res| ensures Represents(Prev(inter, psi), lay, res[k], tr, done + k) {
      var i, ts := done + k, Stamps(tr, n);
      assert ts[i] == tr[i].ts;
      assert i > 0 ==> res[i - done] == Gated(inter, ts[i - 1], ts[i], tabs[i - 1]);
      if i > 0 {
        assert Represents(psi, lay, tabs[i - 1], tr, i - 1);
      }
    }
  }

  lemma {:induction false} NextMeaning(inter: Interval, psi: Formula, lay: Layout, tabs: seq<Table>,
                                       tr: seq<TimePoint>, n: nat, done: nat, res: seq<Table>)
    requires n <= |tr| && WellFormedTrace(tr) && Verdicts(psi, lay, tabs, tr, 0)
    requires NextOut(inter, Stamps(tr, n), tabs, done, res)
    ensures Verdicts(Next(inter, psi), lay, res, tr, done)
  {
    forall k | 0 <= k < |res| ensures Represents(Next(inter, psi), lay, res[k], tr, done + k) {
      var i := done + k;
      assert res[i - done] == Gated(inter, tr[i].ts, tr[i + 1].ts, tabs[i + 1]);
      assert Represents(psi, lay, tabs[i + 1], tr, i + 1);
    }
  }

  // ----- since and until -----

  /** The right operand's tables, as fed to a temporal operator. */
  ghost predicate EntriesOk(psi: Formula, lay: Layout, es: seq<Entry>, tr: seq<TimePoint>) {
    |es| <= |tr| && forall k :: 0 <= k < |es| ==> es[k].ts == tr[k].ts && Represents(psi, lay, es[k].tab, tr, k)
  }

  /** The recorded left conditions are those of formula `phil`, for assignments projected to the right layout. */
  ghost predicate LeftsOk(phil: Formula, t: LeftTest, rlay: Layout, ls: seq<Option<Table>>, tr: seq<TimePoint>) {
    |ls| <= |tr| && forall k, v: Env | 0 <= k < |ls| :: LeftOk(t, ls[k], Project(rlay, v)) <==> Sat(phil, tr, k, v)
  }

  /** The two tests of a temporal operator, read as formulas, for the row of one assignment. */
  lemma {:induction false} Tests(phil: Formula, phir: Formula, t: LeftTest, rlay: Layout, es: seq<Entry>,
                                 ls: seq<Option<Table>>, tr: seq<TimePoint>, v: Env)
    requires |es| == |ls| && EntriesOk(phir, rlay, es, tr) && LeftsOk(phil, t, rlay, ls, tr)
    ensures |es| <= |tr| && forall k: nat | k < |es| :: es[k].ts == tr[k].ts
    ensures forall k: nat | k < |es| :: Project(rlay, v) in es[k].tab <==> Sat(phir, tr, k, v)
    ensures forall k: nat | k < |es| :: LeftOk(t, ls[k], Project(rlay, v)) <==> Sat(phil, tr, k, v)
  {}

  lemma {:induction false} SinceMeaning(inter: Interval, phil: Formula, phir: Formula, t: LeftTest, rlay: Layout,
                                        es: seq<Entry>, ls: seq<Option<Table>>, tr: seq<TimePoint>, i: nat, v: Env)
    requires i < |es| == |ls| && EntriesOk(phir, rlay, es, tr) && LeftsOk(phil, t, rlay, ls, tr)
    ensures SinceSat(inter, t, es, ls, i, Project(rlay, v)) <==> Sat(Since(inter, phil, phir), tr, i, v)
  {
    hide EntriesOk, LeftsOk, LeftOk;
    var e := Project(rlay, v);
    Tests(phil, phir, t, rlay, es, ls, tr, v);
    if SinceSat(inter, t, es, ls, i, e) {
      var j :| 0 <= j <= i && inter.Contains(es[i].ts - es[j].ts) && e in es[j].tab
               && forall k :: j < k <= i ==> LeftOk(t, ls[k], e);
      assert inter.Contains(tr[i].ts - tr[j].ts) && Sat(phir, tr, j, v);
      assert forall k: nat :: j < k <= i ==> Sat(phil, tr, k, v);
    }
    if Sat(Since(inter, phil, phir), tr, i, v) {
      var j: nat :| j <= i && inter.Contains(tr[i].ts - tr[j].ts) && Sat(phir, tr, j, v)
                    && forall k: nat :: j < k <= i ==> Sat(phil, tr, k, v);
      assert forall k: nat :: j < k <= i ==> LeftOk(t, ls[k], e);
    }
  }

  lemma {:induction false} UntilMeaning(inter: Interval, phil: Formula, phir: Formula, t: LeftTest, rlay: Layout,
                                        es: seq<Entry>, ls: seq<Option<Table>>, tr: seq<TimePoint>, i: nat, v: Env)
    requires i < |es| == |ls| && EntriesOk(phir, rlay, es, tr) && LeftsOk(phil, t, rlay, ls, tr)
    // time points that have not been fed are beyond the upper bound
    requires forall j :: |es| <= j < |tr| ==> !inter.LeqUpper(tr[j].ts - tr[i].ts)
    ensures U.UntilSat(inter, t, es, ls, i, Project(rlay, v)) <==> Sat(Until(inter, phil, phir), tr, i, v)
  {
    hide EntriesOk, LeftsOk, LeftOk;
    var e := Project(rlay, v);
    Tests(phil, phir, t, rlay, es, ls, tr, v);
    if U.UntilSat(inter, t, es, ls, i, e) {
      var j :| U.Witness(inter, t, es, ls, i, j, e);
      assert inter.Contains(tr[j].ts - tr[i].ts) && Sat(phir, tr, j, v);
      assert forall k: nat :: i <= k < j ==> Sat(phil, tr, k, v);
    }
    if Sat(Until(inter, phil, phir), tr, i, v) {
      var j: nat :| i <= j < |tr| && inter.Contains(tr[j].ts - tr[i].ts) && Sat(phir, tr, j, v)
                    && forall k: nat :: i <= k < j ==> Sat(phil, tr, k, v);
      assert j < |es|;
      assert U.LeftHolds(t, ls, i, j, e);
      assert U.Witness(inter, t, es, ls, i, j, e);
    }
  }
}
