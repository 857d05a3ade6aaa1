/**
 * Whole runs of the monitor over a log (src/file_monitor_driver.cpp): one step
 * per time point, then `last_step`, which feeds one more time point with the
 * largest timestamp to flush what is still waiting.
 */
module MonitorRuns {
  import opened Intervals
  import opened Tables
  import opened Formulas
  import opened Buffers
  import opened Streams
  import opened StreamProgress
  import opened Decisions
  import opened MonitorLoop

  /** The trace as the state sees it: the log and the sentinel. */
  function Sealed(tr: seq<TimePoint>): (full: seq<TimePoint>)
    ensures |full| == |tr| + 1 && (forall i :: 0 <= i < |tr| ==> full[i] == tr[i])
    ensures full[|tr|] == TimePoint(MAXIMUM_TIMESTAMP, map[])
  {
    tr + [TimePoint(MAXIMUM_TIMESTAMP, map[])]
  }

  ghost predicate BelowMaximum(tr: seq<TimePoint>) {
    forall i :: 0 <= i < |tr| ==> tr[i].ts < MAXIMUM_TIMESTAMP
  }

  /** The sentinel is out of reach of the interval from every time point of the log. */
  ghost predicate OutOfReach(inter: Interval, tr: seq<TimePoint>) {
    inter.bounded && forall i :: 0 <= i < |tr| ==> tr[i].ts + inter.u < MAXIMUM_TIMESTAMP
  }

  /** Formulas that look at the past and the present only. */
  predicate FutureFree(phi: Formula) {
    match phi
    case Neg(psi) => FutureFree(psi)
    case Exists(psi) => FutureFree(psi)
    case Or(l, r) => FutureFree(l) && FutureFree(r)
    case And(l, r) => FutureFree(l) && FutureFree(r)
    case Prev(_, psi) => FutureFree(psi)
    case Since(_, l, r) => FutureFree(l) && FutureFree(r)
    case Next(_, _) => false
    case Until(_, _, _) => false
    case _ => true
  }

  predicate PrevFree(phi: Formula) {
    match phi
    case Neg(psi) => PrevFree(psi)
    case Exists(psi) => PrevFree(psi)
    case Or(l, r) => PrevFree(l) && PrevFree(r)
    case And(l, r) => PrevFree(l) && PrevFree(r)
    case Prev(_, _) => false
    case Next(_, psi) => PrevFree(psi)
    case Since(_, l, r) => PrevFree(l) && PrevFree(r)
    case Until(_, l, r) => PrevFree(l) && PrevFree(r)
    case _ => true
  }

  /** Every until has an upper bound that keeps the sentinel out of its reach, and next looks at the past only. */
  ghost predicate Flushable(phi: Formula, tr: seq<TimePoint>) {
    match phi
    case Neg(psi) => Flushable(psi, tr)
    case Exists(psi) => Flushable(psi, tr)
    case Or(l, r) => Flushable(l, tr) && Flushable(r, tr)
    case And(l, r) => Flushable(l, tr) && Flushable(r, tr)
    case Prev(_, psi) => Flushable(psi, tr)
    case Next(_, psi) => FutureFree(psi)
    case Since(_, l, r) => Flushable(l, tr) && Flushable(r, tr)
    case Until(inter, l, r) => Flushable(l, tr) && Flushable(r, tr) && OutOfReach(inter, tr)
    case _ => true
  }

  /** No next takes the sentinel for the successor of the last time point. */
  ghost predicate NextsMissSentinel(phi: Formula, tr: seq<TimePoint>)
    requires |tr| > 0
  {
    match phi
    case Neg(psi) => NextsMissSentinel(psi, tr)
    case Exists(psi) => NextsMissSentinel(psi, tr)
    case Or(l, r) => NextsMissSentinel(l, tr) && NextsMissSentinel(r, tr)
    case And(l, r) => NextsMissSentinel(l, tr) && NextsMissSentinel(r, tr)
    case Prev(_, psi) => NextsMissSentinel(psi, tr)
    case Next(inter, psi) => NextsMissSentinel(psi, tr) && !inter.Contains(MAXIMUM_TIMESTAMP - tr[|tr| - 1].ts)
    case Since(_, l, r) => NextsMissSentinel(l, tr) && NextsMissSentinel(r, tr)
    case Until(_, l, r) => NextsMissSentinel(l, tr) && NextsMissSentinel(r, tr)
    case _ => true
  }

  // ----- the sentinel is never a witness -----

  /** Time point `i` is decided by the end of the run. */
  ghost predicate DecidedAt(phi: Formula, tr: seq<TimePoint>, i: nat) {
    i < |tr| && i < Progress(phi, Sealed(tr), |tr| + 1)
  }

  /** The first `k` time points are decided by the end of the run. */
  ghost predicate ReachedByEnd(phi: Formula, tr: seq<TimePoint>, k: nat) {
    Reached(phi, Sealed(tr), |tr| + 1, k)
  }

  /** Appending the sentinel changes no verdict that is reported. */
  lemma {:induction false} SentinelUnused(phi: Formula, tr: seq<TimePoint>, i: nat, v: Env)
    requires DecidedAt(phi, tr, i) && WellFormedTrace(Sealed(tr)) && NextsMissSentinel(phi, tr)
    ensures Sat(phi, Sealed(tr), i, v) <==> Sat(phi, tr, i, v)
    decreases phi, 1
  {
    hide WellFormedTrace;
    match phi
    case Neg(psi) => SentinelUnused(psi, tr, i, v);
    case Or(l, r) => SentinelUnused(l, tr, i, v); SentinelUnused(r, tr, i, v);
    case And(l, r) => SentinelUnused(l, tr, i, v); SentinelUnused(r, tr, i, v);
    case Exists(psi) => ExistsSealed(psi, tr, i, v);
    case Prev(inter, psi) => PrevSealed(inter, psi, tr, i, v);
    case Next(inter, psi) => NextSealed(inter, psi, tr, i, v);
    case Since(inter, l, r) => SinceSealed(inter, l, r, tr, i, v);
    case Until(inter, l, r) => UntilSealed(inter, l, r, tr, i, v);
    case _ =>
  }

  lemma {:induction false} ExistsSealed(psi: Formula, tr: seq<TimePoint>, i: nat, v: Env)
    requires DecidedAt(Exists(psi), tr, i) && WellFormedTrace(Sealed(tr)) && NextsMissSentinel(psi, tr)
    ensures Sat(Exists(psi), Sealed(tr), i, v) <==> Sat(Exists(psi), tr, i, v)
    decreases Exists(psi), 0
  {
    hide WellFormedTrace, NextsMissSentinel;
    forall x: Value ensures Sat(psi, Sealed(tr), i, [x] + v) <==> Sat(psi, tr, i, [x] + v) {
      SentinelUnused(psi, tr, i, [x] + v);
    }
  }

  lemma {:induction false} PrevSealed(inter: Interval, psi: Formula, tr: seq<TimePoint>, i: nat, v: Env)
    requires DecidedAt(Prev(inter, psi), tr, i) && WellFormedTrace(Sealed(tr)) && NextsMissSentinel(psi, tr)
    ensures Sat(Prev(inter, psi), Sealed(tr), i, v) <==> Sat(Prev(inter, psi), tr, i, v)
    decreases Prev(inter, psi), 0
  {
    hide WellFormedTrace, NextsMissSentinel, Progress;
    PrevBound(inter, psi, Sealed(tr), |tr| + 1);
    if i > 0 {
      SentinelUnused(psi, tr, i - 1, v);
    }
  }

  lemma {:induction false} NextSealed(inter: Interval, psi: Formula, tr: seq<TimePoint>, i: nat, v: Env)
    requires DecidedAt(Next(inter, psi), tr, i) && WellFormedTrace(Sealed(tr))
    requires NextsMissSentinel(Next(inter, psi), tr)
    ensures Sat(Next(inter, psi), Sealed(tr), i, v) <==> Sat(Next(inter, psi), tr, i, v)
    decreases Next(inter, psi), 0
  {
    hide WellFormedTrace;
    if i + 1 < |tr| {
      SentinelUnused(psi, tr, i + 1, v);
    }
  }

  lemma {:induction false} SinceSealed(inter: Interval, l: Formula, r: Formula, tr: seq<TimePoint>, i: nat, v: Env)
    requires DecidedAt(Since(inter, l, r), tr, i) && WellFormedTrace(Sealed(tr))
    requires NextsMissSentinel(l, tr) && NextsMissSentinel(r, tr)
    ensures Sat(Since(inter, l, r), Sealed(tr), i, v) <==> Sat(Since(inter, l, r), tr, i, v)
    decreases Since(inter, l, r), 0
  {
    hide WellFormedTrace, Truth, NextsMissSentinel;
    SatSince(inter, l, r, tr, i, v);
    SatSince(inter, l, r, Sealed(tr), i, v);
    forall k | 0 <= k <= i ensures Truth(l, Sealed(tr), v)[k] == Truth(l, tr, v)[k]
                                   && Truth(r, Sealed(tr), v)[k] == Truth(r, tr, v)[k] {
      SentinelUnused(l, tr, k, v);
      SentinelUnused(r, tr, k, v);
    }
    SinceHoldsSealed(inter, tr, Truth(l, Sealed(tr), v), Truth(r, Sealed(tr), v), Truth(l, tr, v), Truth(r, tr, v), i);
  }

  lemma {:induction false} UntilSealed(inter: Interval, l: Formula, r: Formula, tr: seq<TimePoint>, i: nat, v: Env)
    requires DecidedAt(Until(inter, l, r), tr, i) && WellFormedTrace(Sealed(tr))
    requires NextsMissSentinel(l, tr) && NextsMissSentinel(r, tr)
    ensures Sat(Until(inter, l, r), Sealed(tr), i, v) <==> Sat(Until(inter, l, r), tr, i, v)
    decreases Until(inter, l, r), 0
  {
    hide WellFormedTrace, Truth, NextsMissSentinel, Progress;
    var full, n := Sealed(tr), |tr| + 1;
    SatUntil(inter, l, r, tr, i, v);
    SatUntil(inter, l, r, full, i, v);
    var m := UntilWindow(inter, l, r, full, n, i);
    forall k | 0 <= k < m ensures Truth(l, full, v)[k] == Truth(l, tr, v)[k]
                                  && Truth(r, full, v)[k] == Truth(r, tr, v)[k] {
      SentinelUnused(l, tr, k, v);
      SentinelUnused(r, tr, k, v);
    }
    UntilHoldsSealed(inter, tr, Truth(l, full, v), Truth(r, full, v), Truth(l, tr, v), Truth(r, tr, v), i, m);
  }

  /** At which time points a formula holds, for one assignment. */
  ghost function Truth(phi: Formula, tr: seq<TimePoint>, v: Env): (bits: seq<bool>)
    ensures |bits| == |tr| && forall k :: 0 <= k < |tr| ==> bits[k] == Sat(phi, tr, k, v)
  {
    seq(|tr|, k requires 0 <= k < |tr| => Sat(phi, tr, k, v))
  }

  ghost predicate SinceHolds(inter: Interval, tr: seq<TimePoint>, left: seq<bool>, right: seq<bool>, i: nat)
    requires i < |tr| == |left| == |right|
  {
    exists j: nat :: j <= i && inter.Contains(tr[i].ts - tr[j].ts) && right[j]
        && forall k: nat :: j < k <= i ==> left[k]
  }

  ghost predicate UntilHolds(inter: Interval, tr: seq<TimePoint>, left: seq<bool>, right: seq<bool>, i: nat)
    requires i < |tr| == |left| == |right|
  {
    exists j: nat :: i <= j < |tr| && inter.Contains(tr[j].ts - tr[i].ts) && right[j]
        && forall k: nat :: i <= k < j ==> left[k]
  }

  lemma {:induction false} SatSince(inter: Interval, l: Formula, r: Formula, tr: seq<TimePoint>, i: nat, v: Env)
    requires i < |tr|
    ensures Sat(Since(inter, l, r), tr, i, v) <==> SinceHolds(inter, tr, Truth(l, tr, v), Truth(r, tr, v), i)
  {
    hide Truth;
    var left, right := Truth(l, tr, v), Truth(r, tr, v);
    if Sat(Since(inter, l, r), tr, i, v) {
      var j: nat :| j <= i && inter.Contains(tr[i].ts - tr[j].ts) && Sat(r, tr, j, v)
                    && forall k: nat :: j < k <= i ==> Sat(l, tr, k, v);
      assert right[j] && forall k: nat :: j < k <= i ==> left[k];
    }
    if SinceHolds(inter, tr, left, right, i) {
      var j: nat :| j <= i && inter.Contains(tr[i].ts - tr[j].ts) && right[j]
          && forall k: nat :: j < k <= i ==> left[k];
      assert Sat(r, tr, j, v) && forall k: nat :: j < k <= i ==> Sat(l, tr, k, v);
    }
  }

  lemma {:induction false} SatUntil(inter: Interval, l: Formula, r: Formula, tr: seq<TimePoint>, i: nat, v: Env)
    requires i < |tr|
    ensures Sat(Until(inter, l, r), tr, i, v) <==> UntilHolds(inter, tr, Truth(l, tr, v), Truth(r, tr, v), i)
  {
    hide Truth;
    var left, right := Truth(l, tr, v), Truth(r, tr, v);
    if Sat(Until(inter, l, r), tr, i, v) {
      var j: nat :| i <= j < |tr| && inter.Contains(tr[j].ts - tr[i].ts) && Sat(r, tr, j, v)
                    && forall k: nat :: i <= k < j ==> Sat(l, tr, k, v);
      assert right[j] && forall k: nat :: i <= k < j ==> left[k];
    }
    if UntilHolds(inter, tr, left, right, i) {
      var j: nat :| i <= j < |tr| && inter.Contains(tr[j].ts - tr[i].ts) && right[j]
          && forall k: nat :: i <= k < j ==> left[k];
      assert Sat(r, tr, j, v) && forall k: nat :: i <= k < j ==> Sat(l, tr, k, v);
    }
  }

  lemma SinceHoldsSealed(inter: Interval, tr: seq<TimePoint>, left: seq<bool>, right: seq<bool>, left': seq<bool>,
                         right': seq<bool>, i: nat)
    requires i < |tr| == |left'| == |right'| && |left| == |right| == |tr| + 1
    requires forall k :: 0 <= k <= i ==> left[k] == left'[k] && right[k] == right'[k]
    ensures SinceHolds(inter, Sealed(tr), left, right, i) <==> SinceHolds(inter, tr, left', right', i)
  {
    var full := Sealed(tr);
    if SinceHolds(inter, full, left, right, i) {
      var j: nat :| j <= i && inter.Contains(full[i].ts - full[j].ts) && right[j]
          && forall k: nat :: j < k <= i ==> left[k];
      assert right'[j] && forall k: nat :: j < k <= i ==> left'[k] == left[k];
    }
    if SinceHolds(inter, tr, left', right', i) {
      var j: nat :| j <= i && inter.Contains(tr[i].ts - tr[j].ts) && right'[j]
          && forall k: nat :: j < k <= i ==> left'[k];
      assert right[j] && forall k: nat :: j < k <= i ==> left[k] == left'[k];
    }
  }

  lemma UntilHoldsSealed(inter: Interval, tr: seq<TimePoint>, left: seq<bool>, right: seq<bool>, left': seq<bool>,
                         right': seq<bool>, i: nat, m: nat)
    requires i < |tr| == |left'| == |right'| && |left| == |right| == |tr| + 1 && m <= |tr|
    requires forall k :: 0 <= k < m ==> left[k] == left'[k] && right[k] == right'[k]
    requires WindowEnds(inter, Sealed(tr), i, m)
    ensures UntilHolds(inter, Sealed(tr), left, right, i) <==> UntilHolds(inter, tr, left', right', i)
  {
    var full := Sealed(tr);
    if UntilHolds(inter, full, left, right, i) {
      var j: nat :| i <= j < |full| && inter.Contains(full[j].ts - full[i].ts) && right[j]
          && forall k: nat :: i <= k < j ==> left[k];
      assert j < m;
      assert right'[j] && forall k: nat :: i <= k < j ==> left'[k] == left[k];
    }
    if UntilHolds(inter, tr, left', right', i) {
      var j: nat :| i <= j < |tr| && inter.Contains(tr[j].ts - tr[i].ts) && right'[j]
          && forall k: nat :: i <= k < j ==> left'[k];
      assert full[j] == tr[j] && j < m;
      assert right[j] && forall k: nat :: i <= k < j ==> left[k] == left'[k];
    }
  }

  // ----- the sentinel decides everything before it -----

  /** An until never decides the newest time point: its own timestamp is within reach. */
  lemma {:induction false} UntilLags(inter: Interval, l: Formula, r: Formula, tr: seq<TimePoint>, n: nat)
    requires 0 < n <= |tr|
    ensures Progress(Until(inter, l, r), tr, n) < n
    decreases n
  {
    if n > 1 {
      UntilLags(inter, l, r, tr, n - 1);
    }
    var m := Min(Progress(l, tr, n), Progress(r, tr, n));
    var f := FirstWithin(tr, inter, m, tr[Min(m, n - 1)].ts);
    assert inter.LeqUpper(tr[n - 1].ts - tr[n - 1].ts);
    assert m == n ==> f != n;
  }

  lemma SentinelFlushes(inter: Interval, tr: seq<TimePoint>, m: nat)
    requires |tr| <= m <= |tr| + 1 && OutOfReach(inter, tr)
    ensures FirstWithin(Sealed(tr), inter, m, MAXIMUM_TIMESTAMP) >= |tr|
  {
    assert forall i :: 0 <= i < |tr| ==> !inter.LeqUpper(MAXIMUM_TIMESTAMP - Sealed(tr)[i].ts);
  }

  /** By the last step every time point of the log is decided, and something new is. */
  ghost predicate Decided(phi: Formula, tr: seq<TimePoint>) {
    && Progress(phi, Sealed(tr), |tr| + 1) >= |tr|
    && (|tr| > 0 ==> Progress(phi, Sealed(tr), |tr| + 1) > Progress(phi, Sealed(tr), |tr|))
  }

  lemma {:induction false} PrevDecides(inter: Interval, psi: Formula, tr: seq<TimePoint>)
    requires Decided(psi, tr)
    ensures Decided(Prev(inter, psi), tr)
  {
    PrevProgress(inter, psi, Sealed(tr), |tr|);
  }

  lemma {:induction false} UntilDecides(inter: Interval, l: Formula, r: Formula, tr: seq<TimePoint>)
    requires Decided(l, tr) && Decided(r, tr) && OutOfReach(inter, tr)
    ensures Decided(Until(inter, l, r), tr)
  {
    hide Progress, OutOfReach;
    var full, n := Sealed(tr), |tr|;
    if n > 0 {
      UntilUnfold(inter, l, r, full, n);
      UntilLags(inter, l, r, full, n);
      SentinelFlushes(inter, tr, Min(Progress(l, full, n + 1), Progress(r, full, n + 1)));
    }
  }

  /** Formulas without future operators are decided at once. */
  lemma {:induction false} FutureFreeImmediate(phi: Formula, tr: seq<TimePoint>, n: nat)
    requires n <= |tr| && FutureFree(phi)
    ensures Progress(phi, tr, n) == n
    decreases phi, n
  {
    match phi
    case Neg(psi) => FutureFreeImmediate(psi, tr, n);
    case Exists(psi) => FutureFreeImmediate(psi, tr, n);
    case Or(l, r) => FutureFreeImmediate(l, tr, n); FutureFreeImmediate(r, tr, n);
    case And(l, r) => FutureFreeImmediate(l, tr, n); FutureFreeImmediate(r, tr, n);
    case Since(_, l, r) => FutureFreeImmediate(l, tr, n); FutureFreeImmediate(r, tr, n);
    case Prev(_, psi) =>
      FutureFreeImmediate(psi, tr, n);
      if n > 0 {
        FutureFreeImmediate(psi, tr, n - 1);
      }
    case _ =>
  }

  /** Without previous, the others never catch up with the newest time point. */
  lemma {:induction false} ImmediateIff(phi: Formula, tr: seq<TimePoint>, n: nat)
    requires 0 < n <= |tr| && PrevFree(phi)
    ensures Progress(phi, tr, n) == n <==> FutureFree(phi)
  {
    match phi
    case Neg(psi) => ImmediateIff(psi, tr, n);
    case Exists(psi) => ImmediateIff(psi, tr, n);
    case Or(l, r) => ImmediateIff(l, tr, n); ImmediateIff(r, tr, n);
    case And(l, r) => ImmediateIff(l, tr, n); ImmediateIff(r, tr, n);
    case Since(_, l, r) => ImmediateIff(l, tr, n); ImmediateIff(r, tr, n);
    case Until(inter, l, r) => UntilLags(inter, l, r, tr, n);
    case _ =>
  }

  lemma {:induction false} LastStepDecides(phi: Formula, tr: seq<TimePoint>)
    requires Flushable(phi, tr)
    ensures Decided(phi, tr)
    decreases phi
  {
    match phi
    case Neg(psi) => LastStepDecides(psi, tr);
    case Exists(psi) => LastStepDecides(psi, tr);
    case Or(l, r) => LastStepDecides(l, tr); LastStepDecides(r, tr);
    case And(l, r) => LastStepDecides(l, tr); LastStepDecides(r, tr);
    case Since(_, l, r) => LastStepDecides(l, tr); LastStepDecides(r, tr);
    case Prev(inter, psi) =>
      LastStepDecides(psi, tr);
      PrevDecides(inter, psi, tr);
    case Next(_, psi) =>
      FutureFreeImmediate(psi, Sealed(tr), |tr|);
      FutureFreeImmediate(psi, Sealed(tr), |tr| + 1);
    case Until(inter, l, r) =>
      LastStepDecides(l, tr);
      LastStepDecides(r, tr);
      UntilDecides(inter, l, r, tr);
    case _ =>
  }

  /** An until that is decided up to the end of the log looks no further than the log. */
  lemma {:induction false} UntilReaches(inter: Interval, l: Formula, r: Formula, tr: seq<TimePoint>)
    requires |tr| > 0 && Progress(Until(inter, l, r), Sealed(tr), |tr| + 1) >= |tr|
    ensures Progress(l, Sealed(tr), |tr| + 1) >= |tr| && Progress(r, Sealed(tr), |tr| + 1) >= |tr|
    ensures OutOfReach(inter, tr)
  {
    hide Progress;
    var full, n := Sealed(tr), |tr|;
    UntilLags(inter, l, r, full, n);
    UntilUnfold(inter, l, r, full, n);
    var m' := Min(Progress(l, full, n + 1), Progress(r, full, n + 1));
    assert FirstWithin(full, inter, m', MAXIMUM_TIMESTAMP) >= n;
    assert forall i :: 0 <= i < n ==> !inter.LeqUpper(MAXIMUM_TIMESTAMP - full[i].ts);
    assert !inter.LeqUpper(MAXIMUM_TIMESTAMP - full[0].ts);
  }

  /** Without previous, nothing else is decided by the last step. */
  lemma {:induction false} FlushedIff(phi: Formula, tr: seq<TimePoint>)
    requires |tr| > 0 && PrevFree(phi)
    ensures Progress(phi, Sealed(tr), |tr| + 1) >= |tr| <==> Flushable(phi, tr)
  {
    if Flushable(phi, tr) {
      LastStepDecides(phi, tr);
    }
    match phi
    case Neg(psi) => FlushedIff(psi, tr);
    case Exists(psi) => FlushedIff(psi, tr);
    case Or(l, r) => FlushedIff(l, tr); FlushedIff(r, tr);
    case And(l, r) => FlushedIff(l, tr); FlushedIff(r, tr);
    case Since(_, l, r) => FlushedIff(l, tr); FlushedIff(r, tr);
    case Next(_, psi) => ImmediateIff(psi, Sealed(tr), |tr| + 1);
    case Until(inter, l, r) =>
      if Progress(phi, Sealed(tr), |tr| + 1) >= |tr| {
        UntilReaches(inter, l, r, tr);
        FlushedIff(l, tr);
        FlushedIff(r, tr);
      }
    case _ =>
  }

  /** Previous may run one ahead of its operand, and does so exactly if the operand has decided something. */
  lemma {:induction false} PrevFlushedIff(inter: Interval, psi: Formula, tr: seq<TimePoint>)
    requires |tr| > 0 && PrevFree(psi)
    ensures Progress(Prev(inter, psi), Sealed(tr), |tr| + 1) >= |tr| <==>
            Progress(psi, Sealed(tr), |tr| + 1) >= (if |tr| == 1 then 1 else |tr| - 1)
  {
    var full, n := Sealed(tr), |tr|;
    PrevProgress(inter, psi, full, n);
    PrevProgress(inter, psi, full, n - 1);
    PrevBound(inter, psi, full, n + 1);
    ImmediateIff(psi, full, n);
    ImmediateIff(psi, full, n + 1);
    if n > 1 {
      ImmediateIff(psi, full, n - 1);
    }
  }

  // ----- runs -----

  /** What is reported below the maximum timestamp is one verdict per time point. */
  lemma {:induction false} AllReported(phi: Formula, nfvs: nat, tr: seq<TimePoint>, end: nat, sats: seq<Verdict>)
    requires end <= |tr| && BelowMaximum(tr) && Reports(phi, nfvs, Sealed(tr), 0, end, sats)
    ensures |sats| == end && forall k :: 0 <= k < end ==> Correct(phi, nfvs, Sealed(tr), k, sats[k])
    decreases end
  {
    hide Correct;
    if end > 0 {
      assert Sealed(tr)[end - 1].ts < MAXIMUM_TIMESTAMP;
      AllReported(phi, nfvs, tr, end - 1, sats[..|sats| - 1]);
    }
  }

  /** The sentinel itself is never reported. */
  lemma {:induction false} SentinelNotReported(phi: Formula, nfvs: nat, tr: seq<TimePoint>, end: nat,
                                               sats: seq<Verdict>)
    requires end <= |tr| + 1 && BelowMaximum(tr) && Reports(phi, nfvs, Sealed(tr), 0, end, sats)
    ensures |sats| == Min(end, |tr|) && forall k :: 0 <= k < |sats| ==> Correct(phi, nfvs, Sealed(tr), k, sats[k])
  {
    AllReported(phi, nfvs, tr, Min(end, |tr|), sats);
  }

  lemma SealedWellFormed(tr: seq<TimePoint>)
    requires WellFormedTrace(tr) && BelowMaximum(tr)
    ensures WellFormedTrace(Sealed(tr))
  {}

  /** The meaning of a verdict for the log alone. */
  lemma CorrectForLog(phi: Formula, nfvs: nat, tr: seq<TimePoint>, i: nat, v: Verdict)
    requires DecidedAt(phi, tr, i) && WellFormedTrace(Sealed(tr)) && NextsMissSentinel(phi, tr)
    requires Correct(phi, nfvs, Sealed(tr), i, v)
    ensures Correct(phi, nfvs, tr, i, v)
  {
    forall row: Row ensures Sat(phi, Sealed(tr), i, row) <==> Sat(phi, tr, i, row) {
      SentinelUnused(phi, tr, i, row);
    }
  }

  /**
   * Monitoring a log: every verdict is for its own time point, in order, and
   * holds exactly the satisfying assignments.  The log alone determines them
   * unless a next takes the sentinel for a successor.  For flushable formulas no
   * time point is left out, and without previous for no others.
   */
  method MonitorTrace(phi: Formula, nfvs: nat, tr: seq<TimePoint>) returns (verdicts: seq<Verdict>)
    requires phi.Monitorable() && Numbered(phi, nfvs) && WellFormedTrace(tr) && BelowMaximum(tr)
    ensures |verdicts| == Min(Progress(phi, Sealed(tr), |tr| + 1), |tr|)
    ensures forall k: nat :: |verdicts| >= k <==> k <= |tr| && ReachedByEnd(phi, tr, k)
    ensures forall k :: 0 <= k < |verdicts| ==> Correct(phi, nfvs, Sealed(tr), k, verdicts[k])
    ensures |tr| > 0 && NextsMissSentinel(phi, tr) ==>
            forall k :: 0 <= k < |verdicts| ==> Correct(phi, nfvs, tr, k, verdicts[k])
    ensures Flushable(phi, tr) ==> |verdicts| == |tr|
    ensures |tr| > 0 && PrevFree(phi) ==> (|verdicts| == |tr| <==> Flushable(phi, tr))
  {
    hide Numbered, Correct, Flushable, NextsMissSentinel, PrevFree, Reports, WellFormedTrace, Sat, Progress, Reached;
    SealedWellFormed(tr);
    ghost var full := Sealed(tr);
    var monitor := new Monitor(phi, nfvs, full);
    verdicts := [];
    ReportsNone(phi, nfvs, full, 0);
    for i := 0 to |tr|
      invariant monitor.Valid() && fresh(monitor) && fresh(monitor.state.repr)
      invariant monitor.phi == phi && monitor.tr == full && monitor.nfvs == nfvs && monitor.maxTp == i
      invariant monitor.currTp <= |full| && Reports(phi, nfvs, full, 0, monitor.currTp, verdicts)
    {
      ghost var done := monitor.currTp;
      var sats := monitor.Step(tr[i].db, tr[i].ts);
      ReportsAppend(phi, nfvs, full, 0, done, monitor.currTp, verdicts, sats);
      verdicts := verdicts + sats;
    }
    ghost var done := monitor.currTp;
    var sats := monitor.LastStep();
    ReportsAppend(phi, nfvs, full, 0, done, monitor.currTp, verdicts, sats);
    verdicts := verdicts + sats;
    SentinelNotReported(phi, nfvs, tr, monitor.currTp, verdicts);
    forall k: nat ensures |verdicts| >= k <==> k <= |tr| && ReachedByEnd(phi, tr, k) {
      ReachedIff(phi, full, |tr| + 1, k);
    }
    if Flushable(phi, tr) {
      LastStepDecides(phi, tr);
    }
    if |tr| > 0 && PrevFree(phi) {
      FlushedIff(phi, tr);
    }
    if |tr| > 0 && NextsMissSentinel(phi, tr) {
      forall k | 0 <= k < |verdicts| ensures Correct(phi, nfvs, tr, k, verdicts[k]) {
        CorrectForLog(phi, nfvs, tr, k, verdicts[k]);
      }
    }
  }
}
