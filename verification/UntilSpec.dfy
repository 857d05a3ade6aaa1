/**
 * What `phi UNTIL[I] psi` means for the tables seen so far, and the invariant
 * lemmas behind the sliding buckets of UntilOperator.
 */
module UntilSpec {
  import opened Wrappers
  import opened Intervals
  import opened Tables
  import opened Temporal

  type Bucket = map<Row, nat>

  /** The left condition holds at all time points of `[i, j)`. */
  ghost predicate LeftHolds(t: LeftTest, ls: seq<Option<Table>>, i: int, j: int, e: Row) {
    forall k :: 0 <= k < |ls| && i <= k < j ==> LeftOk(t, ls[k], e)
  }

  /** Row `e` satisfies the until formula at `i` because of its occurrence at `j`. */
  ghost predicate Witness(inter: Interval, t: LeftTest, es: seq<Entry>, ls: seq<Option<Table>>, i: int, j: int, e: Row)
    requires 0 <= i < |es|
  {
    i <= j < |es| && inter.Contains(es[j].ts - es[i].ts) && e in es[j].tab && LeftHolds(t, ls, i, j, e)
  }

  ghost predicate UntilSat(inter: Interval, t: LeftTest, es: seq<Entry>, ls: seq<Option<Table>>, i: int, e: Row)
    requires 0 <= i < |es|
  {
    exists j :: Witness(inter, t, es, ls, i, j, e)
  }

  /** A table beyond the upper bound does not change the verdict. */
  lemma UntilSatStable(inter: Interval, t: LeftTest, es: seq<Entry>, ls: seq<Option<Table>>, x: Entry,
                       l: Option<Table>, i: int, e: Row)
    requires 0 <= i < |es| == |ls| && !inter.LeqUpper(x.ts - es[i].ts)
    ensures UntilSat(inter, t, es + [x], ls + [l], i, e) == UntilSat(inter, t, es, ls, i, e)
  {
    var es', ls' := es + [x], ls + [l];
    assert forall k :: 0 <= k < |ls| ==> ls'[k] == ls[k];
    assert forall k :: 0 <= k < |es| ==> es'[k] == es[k];
    if UntilSat(inter, t, es, ls, i, e) {
      var j :| Witness(inter, t, es, ls, i, j, e);
      assert Witness(inter, t, es', ls', i, j, e);
    }
    if UntilSat(inter, t, es', ls', i, e) {
      var j :| Witness(inter, t, es', ls', i, j, e);
      assert Witness(inter, t, es, ls, i, j, e);
    }
  }

  /** Dropping a left operand that always holds does not change the verdicts. */
  lemma UnitLeftIsEventually(inter: Interval, t: LeftTest, es: seq<Entry>, ls: seq<Option<Table>>,
                             ones: seq<Option<Table>>, i: int, e: Row)
    requires 0 <= i < |es| == |ls| == |ones| && AllNone(ls) && AllUnit(ones)
    ensures UntilSat(inter, LeftTest(false, []), es, ones, i, e) == UntilSat(inter, t, es, ls, i, e)
  {
    var u := LeftTest(false, []);
    forall k | 0 <= k < |ls| ensures LeftOk(t, ls[k], e) && LeftOk(u, ones[k], e) {
      assert FilterRow([], e) == [];
    }
    assert forall j :: Witness(inter, u, es, ones, i, j, e) <==> Witness(inter, t, es, ls, i, j, e);
  }

  // ----- the stamps of the buckets -----

  /** `new_ts_tp`: the time point of the occurrence, or the first timestamp too late to start from. */
  function Stamp(inter: Interval, tp: nat, ts: nat): nat {
    if inter.Contains(0) then tp else ts - (if inter.l - 1 <= ts then inter.l - 1 else ts)
  }

  /** The test that the erase condition of `shift` negates. */
  predicate Passes(inter: Interval, tp: nat, ts: nat, stamp: nat) {
    if inter.Contains(0) then tp <= stamp else ts < stamp
  }

  /** A stamp passes exactly for the starting points that the occurrence is not too early for. */
  lemma PassesIff(inter: Interval, es: seq<Entry>, i: nat, j: nat)
    requires i < |es| && j < |es| && Sorted(es)
    ensures Passes(inter, i, es[i].ts, Stamp(inter, j, es[j].ts)) <==> i <= j && !inter.LtLower(es[j].ts - es[i].ts)
  {}

  /** Every stamp in bucket `k` stands for an occurrence that the left condition reaches from `first + k` on. */
  ghost predicate SoundEntry(inter: Interval, t: LeftTest, es: seq<Entry>, ls: seq<Option<Table>>, start: int, e: Row,
                             v: nat) {
    exists j :: 0 <= j < |es| && e in es[j].tab && v == Stamp(inter, j, es[j].ts) && LeftHolds(t, ls, start, j, e)
  }

  ghost predicate Sound(inter: Interval, t: LeftTest, es: seq<Entry>, ls: seq<Option<Table>>, first: nat,
                        a2: seq<Bucket>) {
    forall k, e | 0 <= k < |a2| && e in a2[k] :: SoundEntry(inter, t, es, ls, first + k, e, a2[k][e])
  }

  /** Some bucket that has been merged into the one of `i` by the time it is emitted holds a stamp at least as good. */
  ghost predicate Covered(a2: seq<Bucket>, last: int, e: Row, v: nat) {
    exists k :: 0 <= k <= last && k < |a2| && e in a2[k] && v <= a2[k][e]
  }

  /** The occurrence at `j` is one that a verdict for `i` must not miss. */
  ghost predicate Pending(inter: Interval, t: LeftTest, es: seq<Entry>, ls: seq<Option<Table>>, i: int, j: int, e: Row)
    requires 0 <= i <= j < |es|
  {
    e in es[j].tab && !inter.LtLower(es[j].ts - es[i].ts) && LeftHolds(t, ls, i, j, e)
  }

  ghost predicate Complete(inter: Interval, t: LeftTest, es: seq<Entry>, ls: seq<Option<Table>>, first: nat,
                           a2: seq<Bucket>) {
    forall i, j, e | first <= i <= j < |es| && Pending(inter, t, es, ls, i, j, e) ::
      Covered(a2, i - first, e, Stamp(inter, j, es[j].ts))
  }

  // ----- emitting the first time point -----

  ghost predicate Filtered(inter: Interval, tp: nat, ts: nat, m: Bucket, m': Bucket) {
    && (forall e :: e in m' <==> e in m && Passes(inter, tp, ts, m[e]))
    && (forall e | e in m' :: m'[e] == m[e])
  }

  /** The filtered first bucket is the verdict for the first time point. */
  lemma EmitExact(inter: Interval, t: LeftTest, es: seq<Entry>, ls: seq<Option<Table>>, first: nat, a2: seq<Bucket>,
                  m: Bucket, e: Row)
    requires first < |es| == |ls| && |a2| > 0 && Sorted(es)
    requires Sound(inter, t, es, ls, first, a2) && Complete(inter, t, es, ls, first, a2)
    requires forall j :: first <= j < |es| ==> inter.LeqUpper(es[j].ts - es[first].ts)
    requires Filtered(inter, first, es[first].ts, a2[0], m)
    ensures e in m <==> UntilSat(inter, t, es, ls, first, e)
  {
    if e in m {
      assert SoundEntry(inter, t, es, ls, first + 0, e, a2[0][e]);
      var j :| 0 <= j < |es| && e in es[j].tab && a2[0][e] == Stamp(inter, j, es[j].ts)
          && LeftHolds(t, ls, first, j, e);
      PassesIff(inter, es, first, j);
      assert Witness(inter, t, es, ls, first, j, e);
    }
    if UntilSat(inter, t, es, ls, first, e) {
      var j :| Witness(inter, t, es, ls, first, j, e);
      assert Pending(inter, t, es, ls, first, j, e);
      assert Covered(a2, 0, e, Stamp(inter, j, es[j].ts));
      PassesIff(inter, es, first, j);
    }
  }

  /** `combine_max(m1, m2)`. */
  ghost predicate Combined(m1: Bucket, m2: Bucket, m: Bucket) {
    && m.Keys == m1.Keys + m2.Keys
    && (forall e | e in m :: (e in m1 ==> m1[e] <= m[e]) && (e in m2 ==> m2[e] <= m[e]))
    && (forall e | e in m :: (e in m1 && m[e] == m1[e]) || (e in m2 && m[e] == m2[e]))
  }

  lemma PopSound(inter: Interval, t: LeftTest, es: seq<Entry>, ls: seq<Option<Table>>, first: nat, a2: seq<Bucket>,
                 m: Bucket, m': Bucket, a2': seq<Bucket>)
    requires first < |es| && |a2| >= 2 && Sound(inter, t, es, ls, first, a2)
    requires Filtered(inter, first, es[first].ts, a2[0], m) && Combined(m, a2[1], m') && a2' == [m'] + a2[2..]
    ensures Sound(inter, t, es, ls, first + 1, a2')
  {
    forall k, e | 0 <= k < |a2'| && e in a2'[k] ensures SoundEntry(inter, t, es, ls, first + 1 + k, e, a2'[k][e]) {
      if k > 0 {
        assert a2'[k] == a2[k + 1];
        assert SoundEntry(inter, t, es, ls, first + (k + 1), e, a2[k + 1][e]);
      } else if e in m && m'[e] == m[e] {
        assert SoundEntry(inter, t, es, ls, first + 0, e, a2[0][e]);
        var j :| 0 <= j < |es| && e in es[j].tab && a2[0][e] == Stamp(inter, j, es[j].ts)
            && LeftHolds(t, ls, first, j, e);
        assert LeftHolds(t, ls, first + 1, j, e);
      } else {
        assert SoundEntry(inter, t, es, ls, first + 1, e, a2[1][e]);
      }
    }
  }

  /** What the filter erases passes for no later time point either. */
  lemma PassesLater(inter: Interval, es: seq<Entry>, first: nat, i: nat, v: nat)
    requires first <= i < |es| && Sorted(es) && Passes(inter, i, es[i].ts, v)
    ensures Passes(inter, first, es[first].ts, v)
  {}

  lemma PassesMonotone(inter: Interval, tp: nat, ts: nat, v: nat, w: nat)
    requires Passes(inter, tp, ts, v) && v <= w
    ensures Passes(inter, tp, ts, w)
  {}

  lemma PopComplete(inter: Interval, t: LeftTest, es: seq<Entry>, ls: seq<Option<Table>>, first: nat, a2: seq<Bucket>,
                    m: Bucket, m': Bucket, a2': seq<Bucket>)
    requires first < |es| && |a2| >= 2 && Sorted(es)
    requires Complete(inter, t, es, ls, first, a2)
    requires Filtered(inter, first, es[first].ts, a2[0], m) && Combined(m, a2[1], m') && a2' == [m'] + a2[2..]
    ensures Complete(inter, t, es, ls, first + 1, a2')
  {
    forall i, j, e | first + 1 <= i <= j < |es| && Pending(inter, t, es, ls, i, j, e)
      ensures Covered(a2', i - (first + 1), e, Stamp(inter, j, es[j].ts))
    {
      var v := Stamp(inter, j, es[j].ts);
      var k :| 0 <= k <= i - first && k < |a2| && e in a2[k] && v <= a2[k][e];
      if k >= 2 {
        assert a2'[k - 1] == a2[k];
        assert e in a2'[k - 1] && v <= a2'[k - 1][e];
      } else {
        if k == 0 {
          PassesIff(inter, es, i, j);
          PassesLater(inter, es, first, i, v);
          PassesMonotone(inter, first, es[first].ts, v, a2[0][e]);
        }
        assert e in a2'[0] && v <= a2'[0][e];
      }
    }
  }

  // ----- the map of left tuples -----

  /** A left tuple, rather than a right row, passes the left test. */
  ghost predicate TupleOk(t: LeftTest, left: Option<Table>, l: Row) {
    left.None? || (l in left.value) != t.negated
  }

  /** The first time point from which the left condition has held for `l` up to `n`, as `a1_map` records it. */
  function Start(t: LeftTest, a1: map<Row, nat>, n: nat, l: Row): nat {
    if t.negated then (if l in a1 then a1[l] + 1 else 0) else (if l in a1 then a1[l] else n)
  }

  ghost predicate StartOk(t: LeftTest, ls: seq<Option<Table>>, a1: map<Row, nat>, l: Row) {
    var start := Start(t, a1, |ls|, l);
    && start <= |ls|
    && (forall m :: start <= m < |ls| ==> TupleOk(t, ls[m], l))
    && (0 < start ==> !TupleOk(t, ls[start - 1], l))
  }

  ghost predicate A1Ok(t: LeftTest, ls: seq<Option<Table>>, a1: map<Row, nat>) {
    && (forall l :: StartOk(t, ls, a1, l))
    && (forall l | l in a1 :: a1[l] < |ls|)
  }

  lemma StartIff(t: LeftTest, ls: seq<Option<Table>>, a1: map<Row, nat>, i: nat, e: Row)
    requires A1Ok(t, ls, a1) && InRange(t.idx, |e|) && i <= |ls|
    ensures LeftHolds(t, ls, i, |ls|, e) <==> Start(t, a1, |ls|, FilterRow(t.idx, e)) <= i
  {
    var l := FilterRow(t.idx, e);
    assert StartOk(t, ls, a1, l);
    assert forall k :: 0 <= k < |ls| ==> (LeftOk(t, ls[k], e) <==> TupleOk(t, ls[k], l));
  }

  // ----- adding a table -----

  /** `update_a2_inner_map` at one position. */
  function Raised(m: Bucket, e: Row, v: nat): Bucket {
    m[e := if e in m && v <= m[e] then m[e] else v]
  }

  /**
   * Where row `e` of a new right table is entered: its own time point, and the bucket from which
   * the left side holds.
   */
  predicate Targets(inter: Interval, t: LeftTest, a1: map<Row, nat>, first: nat, n: nat, e: Row, k: nat)
    requires InRange(t.idx, |e|)
  {
    var s := Start(t, a1, n, FilterRow(t.idx, e));
    || (inter.Contains(0) && k == n - first)
    || (((t.negated || FilterRow(t.idx, e) in a1)) && k == if s <= first then 0 else s - first)
  }

  /** Bucket `k` after entering the rows of `done` with stamp `v`. */
  ghost predicate BucketEntered(inter: Interval, t: LeftTest, a1: map<Row, nat>, first: nat, n: nat, v: nat,
                                done: Table, k: nat, m: Bucket, m': Bucket)
    requires forall e | e in done :: InRange(t.idx, |e|)
  {
    && m.Keys <= m'.Keys
    && (forall e | e in m :: m[e] <= m'[e])
    && (forall e | e in done && Targets(inter, t, a1, first, n, e, k) :: e in m' && v <= m'[e])
    && (forall e | e in m' :: (e in m && m'[e] == m[e])
                              || (e in done && Targets(inter, t, a1, first, n, e, k) && m'[e] == v))
  }

  ghost predicate Entered(inter: Interval, t: LeftTest, a1: map<Row, nat>, first: nat, n: nat, v: nat, done: Table,
                          a2: seq<Bucket>, a2': seq<Bucket>)
  {
    && |a2'| == |a2|
    && (forall e | e in done :: InRange(t.idx, |e|))
    && (forall k | 0 <= k < |a2| :: BucketEntered(inter, t, a1, first, n, v, done, k, a2[k], a2'[k]))
  }

  lemma TargetHolds(inter: Interval, t: LeftTest, ls: seq<Option<Table>>, a1: map<Row, nat>, first: nat, e: Row, k: nat)
    requires A1Ok(t, ls, a1) && first <= |ls| && InRange(t.idx, |e|) && Targets(inter, t, a1, first, |ls|, e, k)
    requires k <= |ls| - first
    ensures LeftHolds(t, ls, first + k, |ls|, e)
  {
    if k < |ls| - first {
      StartIff(t, ls, a1, first + k, e);
    }
  }

  lemma LeftHoldsPrefix(t: LeftTest, ls: seq<Option<Table>>, l: Option<Table>, i: int, j: int, e: Row)
    requires j <= |ls|
    ensures LeftHolds(t, ls + [l], i, j, e) <==> LeftHolds(t, ls, i, j, e)
  {
    assert forall k :: 0 <= k < |ls| ==> (ls + [l])[k] == ls[k];
  }

  lemma AddSound(inter: Interval, t: LeftTest, es: seq<Entry>, ls: seq<Option<Table>>, first: nat, a1: map<Row, nat>,
                 a2: seq<Bucket>, a2': seq<Bucket>, x: Entry, l: Option<Table>)
    requires first <= |es| == |ls| && |a2| == |es| - first + 1 && A1Ok(t, ls, a1)
    requires Sound(inter, t, es, ls, first, a2)
    requires Entered(inter, t, a1, first, |es|, Stamp(inter, |es|, x.ts), x.tab, a2, a2')
    ensures Sound(inter, t, es + [x], ls + [l], first, a2' + [map[]])
  {
    var es', ls', n, v := es + [x], ls + [l], |es|, Stamp(inter, |es|, x.ts);
    forall k, e | 0 <= k < |a2'| && e in a2'[k] ensures SoundEntry(inter, t, es', ls', first + k, e, a2'[k][e]) {
      if e in a2[k] && a2'[k][e] == a2[k][e] {
        assert SoundEntry(inter, t, es, ls, first + k, e, a2[k][e]);
        var j :| 0 <= j < n && e in es[j].tab && a2[k][e] == Stamp(inter, j, es[j].ts)
            && LeftHolds(t, ls, first + k, j, e);
        LeftHoldsPrefix(t, ls, l, first + k, j, e);
        assert es'[j] == es[j];
      } else {
        TargetHolds(inter, t, ls, a1, first, e, k);
        LeftHoldsPrefix(t, ls, l, first + k, n, e);
        assert es'[n] == x;
      }
    }
  }

  lemma AddComplete(inter: Interval, t: LeftTest, es: seq<Entry>, ls: seq<Option<Table>>, first: nat,
                    a1: map<Row, nat>, a2: seq<Bucket>, a2': seq<Bucket>, x: Entry, l: Option<Table>)
    requires first <= |es| == |ls| && |a2| == |es| - first + 1 && A1Ok(t, ls, a1)
    requires Complete(inter, t, es, ls, first, a2)
    requires Entered(inter, t, a1, first, |es|, Stamp(inter, |es|, x.ts), x.tab, a2, a2')
    ensures Complete(inter, t, es + [x], ls + [l], first, a2' + [map[]])
  {
    var es', ls', n, a2'' := es + [x], ls + [l], |es|, a2' + [map[]];
    forall i, j, e | first <= i <= j < |es'| && Pending(inter, t, es', ls', i, j, e)
      ensures Covered(a2'', i - first, e, Stamp(inter, j, es'[j].ts))
    {
      var v := Stamp(inter, j, es'[j].ts);
      LeftHoldsPrefix(t, ls, l, i, j, e);
      if j < n {
        assert es'[j] == es[j] && es'[i] == es[i];
        assert Pending(inter, t, es, ls, i, j, e);
        var k :| 0 <= k <= i - first && k < |a2| && e in a2[k] && v <= a2[k][e];
        assert a2''[k] == a2'[k];
      } else {
        assert es'[j] == x;
        var k := AddTarget(inter, t, ls, a1, first, i, e, es', x);
        assert a2''[k] == a2'[k];
        assert e in a2''[k] && v <= a2''[k][e];
      }
    }
  }

  /** A new occurrence enters some bucket that covers every starting point it is a witness for. */
  lemma AddTarget(inter: Interval, t: LeftTest, ls: seq<Option<Table>>, a1: map<Row, nat>, first: nat, i: nat, e: Row,
                  es': seq<Entry>, x: Entry) returns (k: nat)
    requires first <= i <= |ls| && |es'| == |ls| + 1 && es'[|ls|] == x && A1Ok(t, ls, a1) && InRange(t.idx, |e|)
    requires LeftHolds(t, ls, i, |ls|, e) && !inter.LtLower(x.ts - es'[i].ts)
    ensures k <= i - first && Targets(inter, t, a1, first, |ls|, e, k)
  {
    var s := Start(t, a1, |ls|, FilterRow(t.idx, e));
    StartIff(t, ls, a1, i, e);
    k := if inter.Contains(0) && i == |ls| then i - first else if s <= first then 0 else s - first;
  }

  /** `update_a1_map` on a left table. */
  ghost predicate A1Updated(t: LeftTest, tabL: Table, n: nat, a1: map<Row, nat>, a1': map<Row, nat>) {
    && (forall l :: l in a1' <==> l in tabL || (t.negated && l in a1))
    && (forall l | l in a1' :: a1'[l] == if l in a1 && !(t.negated && l in tabL) then a1[l] else n)
  }

  lemma A1UpdateOk(t: LeftTest, ls: seq<Option<Table>>, tabL: Table, a1: map<Row, nat>, a1': map<Row, nat>)
    requires A1Ok(t, ls, a1) && A1Updated(t, tabL, |ls|, a1, a1')
    ensures A1Ok(t, ls + [Some(tabL)], a1')
  {
    var ls', n := ls + [Some(tabL)], |ls|;
    forall l ensures StartOk(t, ls', a1', l) {
      assert StartOk(t, ls, a1, l);
      assert forall k :: 0 <= k < n ==> ls'[k] == ls[k];
      assert ls'[n] == Some(tabL);
    }
  }

  lemma A1NoneOk(t: LeftTest, ls: seq<Option<Table>>)
    requires t.negated && AllNone(ls)
    ensures A1Ok(t, ls, map[])
  {}

  /** `idx` is the bucket the source computes for row `e`, or none if the left side does not hold now. */
  predicate OverrideIdx(t: LeftTest, a1: map<Row, nat>, first: nat, n: nat, e: Row, idx: Option<nat>)
    requires InRange(t.idx, |e|)
  {
    var l := FilterRow(t.idx, e);
    var s := Start(t, a1, n, l);
    idx == if t.negated || l in a1 then Some(if s <= first then 0 else s - first) else None
  }

  function RaisedAt(a2: seq<Bucket>, k: nat, e: Row, v: nat): seq<Bucket>
    requires k < |a2|
  {
    a2[k := Raised(a2[k], e, v)]
  }

  /** The two updates made for one row. */
  function TwiceRaised(inter: Interval, a2: seq<Bucket>, idx: Option<nat>, e: Row, v: nat): seq<Bucket>
    requires |a2| > 0 && (idx.Some? ==> idx.value < |a2|)
  {
    var b := if inter.Contains(0) then RaisedAt(a2, |a2| - 1, e, v) else a2;
    if idx.Some? then RaisedAt(b, idx.value, e, v) else b
  }

  lemma EnteredNone(inter: Interval, t: LeftTest, a1: map<Row, nat>, first: nat, n: nat, v: nat, a2: seq<Bucket>)
    ensures Entered(inter, t, a1, first, n, v, {}, a2, a2)
  {}

  lemma EnteredStep(inter: Interval, t: LeftTest, a1: map<Row, nat>, first: nat, n: nat, v: nat, done: Table, e: Row,
                    idx: Option<nat>, a2: seq<Bucket>, a2': seq<Bucket>, a2'': seq<Bucket>)
    requires first <= n && |a2| == n - first + 1 && Entered(inter, t, a1, first, n, v, done, a2, a2')
    requires InRange(t.idx, |e|) && OverrideIdx(t, a1, first, n, e, idx) && (idx.Some? ==> idx.value < |a2|)
    requires a2'' == TwiceRaised(inter, a2', idx, e, v)
    ensures Entered(inter, t, a1, first, n, v, done + {e}, a2, a2'')
  {
    hide BucketEntered;
    forall k | 0 <= k < |a2| ensures BucketEntered(inter, t, a1, first, n, v, done + {e}, k, a2[k], a2''[k]) {
      assert BucketEntered(inter, t, a1, first, n, v, done, k, a2[k], a2'[k]);
      assert Targets(inter, t, a1, first, n, e, k) <==> (inter.Contains(0) && k == |a2| - 1) || idx == Some(k);
      BucketStep(inter, t, a1, first, n, v, done, e, k, a2[k], a2'[k], a2''[k]);
    }
  }

  lemma BucketStep(inter: Interval, t: LeftTest, a1: map<Row, nat>, first: nat, n: nat, v: nat, done: Table, e: Row,
                   k: nat, m: Bucket, m': Bucket, m'': Bucket)
    requires (forall f | f in done :: InRange(t.idx, |f|)) && InRange(t.idx, |e|)
    requires BucketEntered(inter, t, a1, first, n, v, done, k, m, m')
    requires if Targets(inter, t, a1, first, n, e, k) then m'' == Raised(m', e, v)
             || m'' == Raised(Raised(m', e, v), e, v) else m'' == m'
    ensures BucketEntered(inter, t, a1, first, n, v, done + {e}, k, m, m'')
  {
    assert Raised(Raised(m', e, v), e, v) == Raised(m', e, v);
  }

  // ----- what has been emitted -----

  /** Everything emitted so far is exact. */
  ghost predicate EmittedOk(inter: Interval, t: LeftTest, es: seq<Entry>, ls: seq<Option<Table>>, out: seq<Table>) {
    |out| <= |es| && forall i, e | 0 <= i < |out| :: e in out[i] <==> UntilSat(inter, t, es, ls, i, e)
  }

  lemma EmittedAppend(inter: Interval, t: LeftTest, es: seq<Entry>, ls: seq<Option<Table>>, out: seq<Table>, x: Entry,
                      l: Option<Table>)
    requires |es| == |ls| && EmittedOk(inter, t, es, ls, out)
    requires forall i :: 0 <= i < |out| ==> !inter.LeqUpper(x.ts - es[i].ts)
    ensures EmittedOk(inter, t, es + [x], ls + [l], out)
  {
    forall i, e | 0 <= i < |out| ensures e in out[i] <==> UntilSat(inter, t, es + [x], ls + [l], i, e) {
      UntilSatStable(inter, t, es, ls, x, l, i, e);
    }
  }

  /**
   * `look` is a timestamp that every later table reaches: the first `first` time points are beyond
   * its reach, the next is not.
   */
  ghost predicate Horizon(inter: Interval, es: seq<Entry>, first: nat, look: nat) {
    && first <= |es|
    && (forall j :: 0 <= j < |es| ==> es[j].ts <= look)
    && (forall i :: 0 <= i < first ==> !inter.LeqUpper(look - es[i].ts))
    && (first < |es| ==> inter.LeqUpper(look - es[first].ts))
  }

  lemma EmittedMore(inter: Interval, t: LeftTest, es: seq<Entry>, ls: seq<Option<Table>>, out: seq<Table>,
                    a2: seq<Bucket>, m: Bucket)
    requires |out| < |es| == |ls| && |a2| > 0 && Sorted(es)
    requires Sound(inter, t, es, ls, |out|, a2) && Complete(inter, t, es, ls, |out|, a2)
    requires forall j :: |out| <= j < |es| ==> inter.LeqUpper(es[j].ts - es[|out|].ts)
    requires Filtered(inter, |out|, es[|out|].ts, a2[0], m) && EmittedOk(inter, t, es, ls, out)
    ensures EmittedOk(inter, t, es, ls, out + [m.Keys])
  {
    forall e ensures e in m <==> UntilSat(inter, t, es, ls, |out|, e) {
      EmitExact(inter, t, es, ls, |out|, a2, m, e);
    }
  }

  lemma SortedFrom(inter: Interval, es: seq<Entry>, first: nat, look: nat)
    requires first < |es| && Sorted(es) && inter.LeqUpper(look - es[first].ts)
    requires forall j :: 0 <= j < |es| ==> es[j].ts <= look
    ensures forall j :: first <= j < |es| ==> inter.LeqUpper(es[j].ts - es[first].ts)
    ensures first + 1 < |es| ==> inter.LeqUpper(look - es[first + 1].ts)
  {}
}
