/**
 * Which time points have been decided after a prefix of the trace has been read,
 * stated by the steps at which the operands deliver something new.
 */
module Decisions {
  import opened Intervals
  import opened Formulas
  import opened Buffers
  import opened Streams
  import opened StreamProgress

  // ----- progress, step by step -----

  lemma {:induction false} UntilUnfold(inter: Interval, l: Formula, r: Formula, tr: seq<TimePoint>, n: nat)
    requires n < |tr|
    ensures var m, m' := Min(Progress(l, tr, n), Progress(r, tr, n)),
            Min(Progress(l, tr, n + 1), Progress(r, tr, n + 1));
            Progress(Until(inter, l, r), tr, n + 1) ==
            if m == m' then Progress(Until(inter, l, r), tr, n) else FirstWithin(tr, inter, m', tr[Min(m', n)].ts)
  {}

  /** What lies within the upper bound from `i` comes before `end`. */
  ghost predicate WindowEnds(inter: Interval, tr: seq<TimePoint>, i: nat, end: nat)
    requires i < |tr|
  {
    forall j :: 0 <= j < |tr| && inter.LeqUpper(tr[j].ts - tr[i].ts) ==> j < end
  }

  lemma BeforeLook(inter: Interval, tr: seq<TimePoint>, m: nat, end: nat, i: nat)
    requires end < |tr| && end <= m <= |tr| && WellFormedTrace(tr) && i < FirstWithin(tr, inter, m, tr[end].ts)
    ensures WindowEnds(inter, tr, i, end)
  {
    assert !inter.LeqUpper(tr[end].ts - tr[i].ts);
  }

  lemma UntilStarts(inter: Interval, l: Formula, r: Formula, tr: seq<TimePoint>)
    ensures Progress(Until(inter, l, r), tr, 0) == 0
  {}

  /** Whatever an until that is decided may look at is decided too, and not the newest time point. */
  lemma {:induction false} UntilWindow(inter: Interval, l: Formula, r: Formula, tr: seq<TimePoint>, n: nat, i: nat)
    returns (end: nat)
    requires n <= |tr| && WellFormedTrace(tr) && i < Progress(Until(inter, l, r), tr, n)
    ensures WindowEnds(inter, tr, i, end) && end < n && end <= Progress(l, tr, n) && end <= Progress(r, tr, n)
    decreases n
  {
    hide Progress, WellFormedTrace, WindowEnds, FirstWithin;
    UntilStarts(inter, l, r, tr);
    var m := Min(Progress(l, tr, n), Progress(r, tr, n));
    UntilUnfold(inter, l, r, tr, n - 1);
    if m == Min(Progress(l, tr, n - 1), Progress(r, tr, n - 1)) {
      end := UntilWindow(inter, l, r, tr, n - 1, i);
    } else {
      end := Min(m, n - 1);
      BeforeLook(inter, tr, m, end, i);
    }
  }

  lemma {:induction false} PrevBound(inter: Interval, psi: Formula, tr: seq<TimePoint>, n: nat)
    requires n <= |tr|
    ensures Progress(Prev(inter, psi), tr, n) <= Progress(psi, tr, n) + 1
    decreases n
  {
    PrevStarts(inter, psi, tr);
    hide Progress;
    if n > 0 {
      PrevProgress(inter, psi, tr, n - 1);
      PrevBound(inter, psi, tr, n - 1);
    }
  }

  lemma PrevStarts(inter: Interval, psi: Formula, tr: seq<TimePoint>)
    ensures Progress(Prev(inter, psi), tr, 0) == 0
  {}

  /** What has been decided stays decided. */
  lemma {:induction false} ProgressMonotone(phi: Formula, tr: seq<TimePoint>, n: nat)
    requires n < |tr| && WellFormedTrace(tr)
    ensures Progress(phi, tr, n) <= Progress(phi, tr, n + 1)
    decreases phi
  {
    hide WellFormedTrace;
    match phi
    case Neg(psi) => ProgressMonotone(psi, tr, n);
    case Exists(psi) => ProgressMonotone(psi, tr, n);
    case Or(l, r) => ProgressMonotone(l, tr, n); ProgressMonotone(r, tr, n);
    case And(l, r) => ProgressMonotone(l, tr, n); ProgressMonotone(r, tr, n);
    case Since(_, l, r) => ProgressMonotone(l, tr, n); ProgressMonotone(r, tr, n);
    case Next(_, psi) => ProgressMonotone(psi, tr, n);
    case Prev(inter, psi) =>
      ProgressMonotone(psi, tr, n);
      PrevBound(inter, psi, tr, n);
      PrevProgress(inter, psi, tr, n);
    case Until(inter, l, r) =>
      ProgressMonotone(l, tr, n);
      ProgressMonotone(r, tr, n);
      UntilMonotone(inter, l, r, tr, n);
    case _ =>
  }

  lemma UntilMonotone(inter: Interval, l: Formula, r: Formula, tr: seq<TimePoint>, n: nat)
    requires n < |tr| && WellFormedTrace(tr)
    requires Progress(l, tr, n) <= Progress(l, tr, n + 1) && Progress(r, tr, n) <= Progress(r, tr, n + 1)
    ensures Progress(Until(inter, l, r), tr, n) <= Progress(Until(inter, l, r), tr, n + 1)
  {
    hide Progress, WellFormedTrace;
    UntilUnfold(inter, l, r, tr, n);
    var m' := Min(Progress(l, tr, n + 1), Progress(r, tr, n + 1));
    var f := FirstWithin(tr, inter, m', tr[Min(m', n)].ts);
    if f < Progress(Until(inter, l, r), tr, n) {
      var end := UntilWindow(inter, l, r, tr, n, f);
      assert Min(m', n) >= end;
    }
  }

  lemma {:induction false} ProgressLater(phi: Formula, tr: seq<TimePoint>, s: nat, n: nat)
    requires s <= n <= |tr| && WellFormedTrace(tr)
    ensures Progress(phi, tr, s) <= Progress(phi, tr, n)
    decreases n
  {
    hide Progress, WellFormedTrace;
    if s < n {
      ProgressLater(phi, tr, s, n - 1);
      ProgressMonotone(phi, tr, n - 1);
    }
  }

  // ----- the same without progress -----

  /** The first `k` time points are out of reach from timestamp `look`. */
  ghost predicate Passed(inter: Interval, tr: seq<TimePoint>, k: nat, look: nat) {
    forall i :: 0 <= i < k && i < |tr| ==> !inter.LeqUpper(look - tr[i].ts)
  }

  /**
   * The first `k` time points are decided once `n` have been read.  Previous and until
   * move on only at the steps at which their operands have something new: previous
   * runs one ahead of it, and until looks one timestamp ahead, if that has been read.
   */
  ghost predicate Reached(phi: Formula, tr: seq<TimePoint>, n: nat, k: nat)
    requires n <= |tr|
    decreases phi, 1
  {
    match phi
    case Neg(psi) => Reached(psi, tr, n, k)
    case Exists(psi) => Reached(psi, tr, n, k)
    case Or(l, r) => Reached(l, tr, n, k) && Reached(r, tr, n, k)
    case And(l, r) => Reached(l, tr, n, k) && Reached(r, tr, n, k)
    case Since(_, l, r) => Reached(l, tr, n, k) && Reached(r, tr, n, k)
    case Next(_, psi) => k == 0 || Reached(psi, tr, n, k + 1)
    case Prev(_, psi) =>
      k == 0 ||
      exists s: nat, j: nat {:trigger Reached(psi, tr, s, j)} ::
        k <= s <= n && k <= j + 1 && Reached(psi, tr, s, j) && !Reached(psi, tr, s - 1, j)
    case Until(inter, l, r) =>
      k == 0 ||
      exists s: nat, j: nat {:trigger Reached(r, tr, s, j)} ::
        0 < s <= n && k <= j && Reached(l, tr, s, j) && Reached(r, tr, s, j)
        && !(Reached(l, tr, s - 1, j) && Reached(r, tr, s - 1, j))
        && Passed(inter, tr, k, tr[Min(j, s - 1)].ts)
    case _ => k <= n
  }

  lemma {:induction false} PrevSteps(inter: Interval, psi: Formula, tr: seq<TimePoint>, n: nat, k: nat)
    returns (s: nat)
    requires n <= |tr| && 0 < k <= Progress(Prev(inter, psi), tr, n)
    ensures k <= s <= n && Progress(psi, tr, s) != Progress(psi, tr, s - 1) && k <= Progress(psi, tr, s) + 1
    decreases n
  {
    PrevStarts(inter, psi, tr);
    hide Progress;
    PrevProgress(inter, psi, tr, n - 1);
    if Progress(psi, tr, n) == Progress(psi, tr, n - 1) {
      s := PrevSteps(inter, psi, tr, n - 1, k);
    } else {
      s := n;
    }
  }

  lemma {:induction false} UntilSteps(inter: Interval, l: Formula, r: Formula, tr: seq<TimePoint>, n: nat, k: nat)
    returns (s: nat, m: nat)
    requires n <= |tr| && 0 < k <= Progress(Until(inter, l, r), tr, n)
    ensures 0 < s <= n && k <= m == Min(Progress(l, tr, s), Progress(r, tr, s))
    ensures m != Min(Progress(l, tr, s - 1), Progress(r, tr, s - 1)) && Passed(inter, tr, k, tr[Min(m, s - 1)].ts)
    decreases n
  {
    UntilStarts(inter, l, r, tr);
    hide Progress;
    UntilUnfold(inter, l, r, tr, n - 1);
    m := Min(Progress(l, tr, n), Progress(r, tr, n));
    if m == Min(Progress(l, tr, n - 1), Progress(r, tr, n - 1)) {
      s, m := UntilSteps(inter, l, r, tr, n - 1, k);
    } else {
      s := n;
    }
  }

  lemma {:induction false} ReachedIff(phi: Formula, tr: seq<TimePoint>, n: nat, k: nat)
    requires n <= |tr| && WellFormedTrace(tr)
    ensures Progress(phi, tr, n) >= k <==> Reached(phi, tr, n, k)
    decreases phi, 2
  {
    hide WellFormedTrace;
    match phi
    case Neg(psi) => ReachedIff(psi, tr, n, k);
    case Exists(psi) => ReachedIff(psi, tr, n, k);
    case Or(l, r) => ReachedIff(l, tr, n, k); ReachedIff(r, tr, n, k);
    case And(l, r) => ReachedIff(l, tr, n, k); ReachedIff(r, tr, n, k);
    case Since(_, l, r) => ReachedIff(l, tr, n, k); ReachedIff(r, tr, n, k);
    case Next(_, psi) => ReachedIff(psi, tr, n, k + 1);
    case Prev(inter, psi) => if k > 0 { PrevReachedIff(inter, psi, tr, n, k); }
    case Until(inter, l, r) => if k > 0 { UntilReachedIff(inter, l, r, tr, n, k); }
    case _ =>
  }

  lemma {:induction false} PrevReachedIff(inter: Interval, psi: Formula, tr: seq<TimePoint>, n: nat, k: nat)
    requires n <= |tr| && WellFormedTrace(tr) && k > 0
    ensures Progress(Prev(inter, psi), tr, n) >= k <==> Reached(Prev(inter, psi), tr, n, k)
    decreases Prev(inter, psi), 1
  {
    hide WellFormedTrace, Progress, Reached;
    if Progress(Prev(inter, psi), tr, n) >= k {
      var s := PrevSteps(inter, psi, tr, n, k);
      var j := Progress(psi, tr, s);
      ProgressMonotone(psi, tr, s - 1);
      ReachedIff(psi, tr, s, j);
      ReachedIff(psi, tr, s - 1, j);
      PrevReachedAt(inter, psi, tr, n, k, s, j);
    }
    if Reached(Prev(inter, psi), tr, n, k) {
      var s, j := PrevWitness(inter, psi, tr, n, k);
      ReachedIff(psi, tr, s, j);
      ReachedIff(psi, tr, s - 1, j);
      PrevProgress(inter, psi, tr, s - 1);
      ProgressLater(Prev(inter, psi), tr, s, n);
    }
  }

  lemma {:induction false} PrevReachedAt(inter: Interval, psi: Formula, tr: seq<TimePoint>, n: nat, k: nat, s: nat,
                                         j: nat)
    requires 0 < k <= s <= n <= |tr| && k <= j + 1 && Reached(psi, tr, s, j) && !Reached(psi, tr, s - 1, j)
    ensures Reached(Prev(inter, psi), tr, n, k)
  {}

  lemma {:induction false} PrevWitness(inter: Interval, psi: Formula, tr: seq<TimePoint>, n: nat, k: nat)
    returns (s: nat, j: nat)
    requires n <= |tr| && k > 0 && Reached(Prev(inter, psi), tr, n, k)
    ensures k <= s <= n && k <= j + 1 && Reached(psi, tr, s, j) && !Reached(psi, tr, s - 1, j)
  {
    s, j :| k <= s <= n && k <= j + 1 && Reached(psi, tr, s, j) && !Reached(psi, tr, s - 1, j);
  }

  lemma {:induction false} UntilReachedIff(inter: Interval, l: Formula, r: Formula, tr: seq<TimePoint>, n: nat, k: nat)
    requires n <= |tr| && WellFormedTrace(tr) && k > 0
    ensures Progress(Until(inter, l, r), tr, n) >= k <==> Reached(Until(inter, l, r), tr, n, k)
    decreases Until(inter, l, r), 1
  {
    hide WellFormedTrace, Progress, Reached, Passed;
    if Progress(Until(inter, l, r), tr, n) >= k {
      var s, m := UntilSteps(inter, l, r, tr, n, k);
      ProgressMonotone(l, tr, s - 1);
      ProgressMonotone(r, tr, s - 1);
      BothNewIff(Until(inter, l, r), tr, s, m);
      UntilReachedAt(inter, l, r, tr, n, k, s, m);
    }
    if Reached(Until(inter, l, r), tr, n, k) {
      var s, j := UntilWitness(inter, l, r, tr, n, k);
      BothNewIff(Until(inter, l, r), tr, s, j);
      UntilUnfold(inter, l, r, tr, s - 1);
      PassedLater(inter, tr, k, j, Min(Progress(l, tr, s), Progress(r, tr, s)), s);
      ProgressLater(Until(inter, l, r), tr, s, n);
    }
  }

  lemma {:induction false} UntilReachedAt(inter: Interval, l: Formula, r: Formula, tr: seq<TimePoint>, n: nat, k: nat,
                                          s: nat, j: nat)
    requires 0 < s <= n <= |tr| && k <= j && Reached(l, tr, s, j) && Reached(r, tr, s, j)
    requires !(Reached(l, tr, s - 1, j) && Reached(r, tr, s - 1, j)) && Passed(inter, tr, k, tr[Min(j, s - 1)].ts)
    ensures Reached(Until(inter, l, r), tr, n, k)
  {
    hide Passed;
    assert Reached(r, tr, s, j);
  }

  lemma {:induction false} UntilWitness(inter: Interval, l: Formula, r: Formula, tr: seq<TimePoint>, n: nat, k: nat)
    returns (s: nat, j: nat)
    requires n <= |tr| && k > 0 && Reached(Until(inter, l, r), tr, n, k)
    ensures 0 < s <= n && k <= j && Reached(l, tr, s, j) && Reached(r, tr, s, j)
            && !(Reached(l, tr, s - 1, j) && Reached(r, tr, s - 1, j)) && Passed(inter, tr, k, tr[Min(j, s - 1)].ts)
  {
    hide Passed;
    s, j :| 0 < s <= n && k <= j && Reached(l, tr, s, j) && Reached(r, tr, s, j)
            && !(Reached(l, tr, s - 1, j) && Reached(r, tr, s - 1, j)) && Passed(inter, tr, k, tr[Min(j, s - 1)].ts);
  }

  /** At step `s` both operands of an until get up to `j`, and had not before. */
  lemma {:induction false} BothNewIff(phi: Formula, tr: seq<TimePoint>, s: nat, j: nat)
    requires 0 < s <= |tr| && WellFormedTrace(tr) && phi.Until?
    ensures Reached(phi.phil, tr, s, j) && Reached(phi.phir, tr, s, j) <==>
            j <= Min(Progress(phi.phil, tr, s), Progress(phi.phir, tr, s))
    ensures Reached(phi.phil, tr, s - 1, j) && Reached(phi.phir, tr, s - 1, j) <==>
            j <= Min(Progress(phi.phil, tr, s - 1), Progress(phi.phir, tr, s - 1))
    decreases phi, 0
  {
    hide WellFormedTrace, Progress, Reached;
    ReachedIff(phi.phil, tr, s, j);
    ReachedIff(phi.phir, tr, s, j);
    ReachedIff(phi.phil, tr, s - 1, j);
    ReachedIff(phi.phir, tr, s - 1, j);
  }

  /** Looking further ahead, no fewer time points are out of reach. */
  lemma PassedLater(inter: Interval, tr: seq<TimePoint>, k: nat, j: nat, m: nat, s: nat)
    requires 0 < s <= |tr| && k <= j <= m <= s && WellFormedTrace(tr) && Passed(inter, tr, k, tr[Min(j, s - 1)].ts)
    ensures FirstWithin(tr, inter, m, tr[Min(m, s - 1)].ts) >= k
  {
    var f := FirstWithin(tr, inter, m, tr[Min(m, s - 1)].ts);
    forall i | 0 <= i < k ensures !inter.LeqUpper(tr[Min(m, s - 1)].ts - tr[i].ts) {
      assert !inter.LeqUpper(tr[Min(j, s - 1)].ts - tr[i].ts);
    }
  }
}
