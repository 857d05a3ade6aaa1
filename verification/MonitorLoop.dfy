/** The monitor: stepping the compiled state through a trace and reporting verdicts (src/monitor.cpp, class monitor). */
module MonitorLoop {
  import opened Tables
  import opened Formulas
  import opened Joins
  import opened Meaning
  import opened Streams
  import opened OperatorTree
  import opened Layouts
  import opened StateInit

  const MAXIMUM_TIMESTAMP: nat := 0xFFFF_FFFF_FFFF_FFFF

  /** The satisfying assignments at one time point, as rows over the variables 0, 1, ... */
  datatype Verdict = Verdict(ts: nat, tp: nat, rows: set<Row>)

  /** The free variables are 0, ..., n - 1, and the constructor's assertion holds: each has its column. */
  ghost predicate Numbered(phi: Formula, n: nat) {
    phi.Columns() == phi.FVs() && forall x: nat :: x in phi.FVs() <==> x < n
  }

  /** The verdict for time point `i`: its own timestamp, and exactly the satisfying assignments. */
  ghost predicate Correct(phi: Formula, nfvs: nat, tr: seq<TimePoint>, i: nat, v: Verdict) {
    && i < |tr| && v.tp == i && v.ts == tr[i].ts
    && forall row: Row :: row in v.rows <==> |row| == nfvs && Sat(phi, tr, i, row)
  }

  /** `sats` reports the time points of `[from, end)` below the maximum timestamp, each once and in order. */
  ghost predicate Reports(phi: Formula, nfvs: nat, tr: seq<TimePoint>, from: nat, end: nat, sats: seq<Verdict>)
    requires from <= end <= |tr|
    decreases end
  {
    if from == end then sats == []
    else if tr[end - 1].ts < MAXIMUM_TIMESTAMP then
      && sats != [] && Correct(phi, nfvs, tr, end - 1, sats[|sats| - 1])
      && Reports(phi, nfvs, tr, from, end - 1, sats[..|sats| - 1])
    else Reports(phi, nfvs, tr, from, end - 1, sats)
  }

  lemma {:induction false} ReportsMore(phi: Formula, nfvs: nat, tr: seq<TimePoint>, from: nat, end: nat,
                                       sats: seq<Verdict>, v: Verdict)
    requires from <= end < |tr| && Reports(phi, nfvs, tr, from, end, sats)
    requires tr[end].ts < MAXIMUM_TIMESTAMP ==> Correct(phi, nfvs, tr, end, v)
    ensures Reports(phi, nfvs, tr, from, end + 1, if tr[end].ts < MAXIMUM_TIMESTAMP then sats + [v] else sats)
  {
    assert (sats + [v])[..|sats|] == sats;
  }

  lemma {:induction false} ReportsAppend(phi: Formula, nfvs: nat, tr: seq<TimePoint>, from: nat, mid: nat, end: nat,
                                         s1: seq<Verdict>, s2: seq<Verdict>)
    requires from <= mid <= end <= |tr| && Reports(phi, nfvs, tr, from, mid, s1) && Reports(phi, nfvs, tr, mid, end, s2)
    ensures Reports(phi, nfvs, tr, from, end, s1 + s2)
    decreases end
  {
    hide Correct;
    if mid == end {
      assert s1 + s2 == s1;
    } else if tr[end - 1].ts < MAXIMUM_TIMESTAMP {
      assert (s1 + s2)[..|s1 + s2| - 1] == s1 + s2[..|s2| - 1];
      ReportsAppend(phi, nfvs, tr, from, mid, end - 1, s1, s2[..|s2| - 1]);
    } else {
      ReportsAppend(phi, nfvs, tr, from, mid, end - 1, s1, s2);
    }
  }

  lemma ReportsNone(phi: Formula, nfvs: nat, tr: seq<TimePoint>, at: nat)
    requires at <= |tr|
    ensures Reports(phi, nfvs, tr, at, at, [])
  {}

  /** `id_permutation`. */
  function IdPermutation(n: nat): (lay: Layout)
    ensures |lay| == n && forall k :: 0 <= k < n ==> lay[k] == k
  {
    seq(n, k requires 0 <= k < n => k)
  }

  /** `make_verdicts`. */
  function MakeVerdicts(perm: seq<nat>, n: nat, tab: Table): set<Row>
    requires InRange(perm, n)
  {
    set row | row in tab && |row| == n :: FilterRow(perm, row)
  }

  /** The rows of a permuted table are the satisfying assignments themselves. */
  lemma VerdictRows(phi: Formula, lay: Layout, tab: Table, tr: seq<TimePoint>, i: nat, perm: seq<nat>)
    requires IsLayout(phi, lay) && Numbered(phi, |lay|) && Represents(phi, lay, tab, tr, i)
    requires IsPermutation(IdPermutation(|lay|), lay, perm)
    ensures forall row: Row :: row in MakeVerdicts(perm, |lay|, tab) <==> |row| == |lay| && Sat(phi, tr, i, row)
  {
    var n := |lay|;
    forall row: Row ensures row in MakeVerdicts(perm, n, tab) <==> |row| == n && Sat(phi, tr, i, row) {
      if |row| == n {
        assert Project(IdPermutation(n), row) == row;
        var p := Project(lay, row);
        PermutedProjection(IdPermutation(n), lay, perm, row, p);
        assert FilterRow(perm, p) == row;
        if r2 :| r2 in tab && |r2| == n && FilterRow(perm, r2) == row {
          PermutedProjection(IdPermutation(n), lay, perm, row, r2);
        }
      }
    }
  }

  class Monitor {
    const state: MState
    const outputVarPermutation: seq<nat>
    const nfvs: nat
    var tpTsMap: map<nat, nat>
    var currTp: nat
    var maxTp: nat

    ghost const phi: Formula
    ghost const tr: seq<TimePoint>

    /** The time points that have been read but not reported, with their timestamps. */
    ghost predicate Pending()
      reads this
    {
      && currTp <= maxTp <= |tr|
      && (forall i :: i in tpTsMap <==> currTp <= i < maxTp)
      && (forall i | i in tpTsMap :: tpTsMap[i] == tr[i].ts)
    }

    ghost predicate Valid()
      reads this, state, state.repr
    {
      && this !in state.repr && state.Valid() && state.n == maxTp && state.phi == phi && state.tr == tr
      && IsLayout(phi, state.lay) && Numbered(phi, nfvs) && |state.lay| == nfvs
      && IsPermutation(IdPermutation(nfvs), state.lay, outputVarPermutation)
      && Pending() && currTp == Progress(phi, tr, maxTp)
    }

    constructor (phi: Formula, nfvs: nat, ghost tr: seq<TimePoint>)
      requires phi.Monitorable() && Numbered(phi, nfvs) && WellFormedTrace(tr)
      ensures Valid() && fresh(state.repr) && maxTp == 0 && this.phi == phi && this.tr == tr && this.nfvs == nfvs
    {
      var st, lay := InitMState(phi, tr);
      NumberedLayout(phi, nfvs, lay);
      var perm := FindPermutation(IdPermutation(|lay|), lay);
      this.phi, this.tr, this.nfvs, state, outputVarPermutation := phi, tr, nfvs, st, perm;
      tpTsMap, currTp, maxTp := map[], 0, 0;
    }

    method Step(db: map<PredId, seq<Row>>, ts: nat) returns (sats: seq<Verdict>)
      requires Valid() && maxTp < |tr| && tr[maxTp] == TimePoint(ts, db)
      modifies this, state.repr
      ensures Valid() && maxTp == old(maxTp) + 1
      ensures old(currTp) <= currTp && Reports(phi, nfvs, tr, old(currTp), currTp, sats)
    {
      hide MState.Valid, Verdicts, Progress, IsLayout, Numbered, IsPermutation;
      tpTsMap := tpTsMap[maxTp := ts];
      maxTp := maxTp + 1;
      var tabs := state.Eval(db, ts);
      sats := Report(tabs);
    }

    /** One time point has been decided: its timestamp is looked up and forgotten. */
    method TakeTs() returns (ts: nat)
      requires Pending() && currTp < maxTp
      modifies this`tpTsMap, this`currTp
      ensures Pending() && currTp == old(currTp) + 1 && ts == tr[old(currTp)].ts
    {
      ts := tpTsMap[currTp];
      tpTsMap := tpTsMap - {currTp};
      currTp := currTp + 1;
    }

    lemma PermutationRange()
      requires |state.lay| == nfvs && IsPermutation(IdPermutation(nfvs), state.lay, outputVarPermutation)
      ensures InRange(outputVarPermutation, nfvs)
    {}

    /** The loop of `step` over the tables that have become available. */
    method Report(tabs: seq<Table>) returns (sats: seq<Verdict>)
      requires IsLayout(phi, state.lay) && Numbered(phi, nfvs) && |state.lay| == nfvs && Pending()
               && currTp + |tabs| <= maxTp
      requires IsPermutation(IdPermutation(nfvs), state.lay, outputVarPermutation)
      requires Verdicts(phi, state.lay, tabs, tr, currTp)
      modifies this`tpTsMap, this`currTp
      ensures Pending() && currTp == old(currTp) + |tabs| && Reports(phi, nfvs, tr, old(currTp), currTp, sats)
    {
      ghost var first := currTp;
      hide IsLayout, Numbered, Represents, Correct, Reports, IsPermutation;
      ReportsNone(phi, nfvs, tr, first);
      assert InRange(outputVarPermutation, nfvs) by { PermutationRange(); }
      sats := [];
      for k := 0 to |tabs|
        invariant Pending() && currTp == first + k && Reports(phi, nfvs, tr, first, currTp, sats)
      {
        var ts := TakeTs();
        var v := Verdict(ts, currTp - 1, MakeVerdicts(outputVarPermutation, nfvs, tabs[k]));
        VerdictRows(phi, state.lay, tabs[k], tr, first + k, outputVarPermutation);
        IsCorrect(phi, nfvs, tr, first + k, v);
        ReportsMore(phi, nfvs, tr, first, first + k, sats, v);
        if ts < MAXIMUM_TIMESTAMP {
          sats := sats + [v];
        }
      }
    }

    method LastStep() returns (sats: seq<Verdict>)
      requires Valid() && maxTp < |tr| && tr[maxTp] == TimePoint(MAXIMUM_TIMESTAMP, map[])
      modifies this, state.repr
      ensures Valid() && maxTp == old(maxTp) + 1
      ensures old(currTp) <= currTp && Reports(phi, nfvs, tr, old(currTp), currTp, sats)
    {
      sats := Step(map[], MAXIMUM_TIMESTAMP);
    }
  }

  lemma IsCorrect(phi: Formula, nfvs: nat, tr: seq<TimePoint>, i: nat, v: Verdict)
    requires i < |tr| && v.tp == i && v.ts == tr[i].ts
    requires forall row: Row :: row in v.rows <==> |row| == nfvs && Sat(phi, tr, i, row)
    ensures Correct(phi, nfvs, tr, i, v)
  {}

  lemma NumberedLayout(phi: Formula, nfvs: nat, lay: Layout)
    requires IsLayout(phi, lay) && Numbered(phi, nfvs)
    ensures |lay| == nfvs && forall x | x in IdPermutation(nfvs) :: x in lay
  {
    var ids := IdPermutation(nfvs);
    forall x: nat ensures x in ids <==> x in lay {
      if x < nfvs {
        assert ids[x] == x;
      }
    }
    SameLength(lay, ids);
  }
}
