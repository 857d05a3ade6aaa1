/**
 * What `phi SINCE[I] psi` means for the tables seen so far, and the invariant
 * lemmas behind the incremental operator in SinceOperator.
 */
module SinceSpec {
  import opened Wrappers
  import opened Intervals
  import opened Tables
  import opened Temporal

  /** Row `e` occurs on the right at `j`, and the left condition has held ever since. */
  ghost predicate Justified(t: LeftTest, es: seq<Entry>, ls: seq<Option<Table>>, j: int, e: Row) {
    0 <= j < |es| && e in es[j].tab && forall k :: j < k < |ls| ==> LeftOk(t, ls[k], e)
  }

  /** Row `e` satisfies the since formula at time point `i`. */
  ghost predicate SinceSat(inter: Interval, t: LeftTest, es: seq<Entry>, ls: seq<Option<Table>>, i: int, e: Row)
    requires 0 <= i < |es| == |ls|
  {
    exists j :: 0 <= j <= i && inter.Contains(es[i].ts - es[j].ts) && e in es[j].tab
                && forall k :: j < k <= i ==> LeftOk(t, ls[k], e)
  }

  /** Later tables do not change earlier verdicts. */
  lemma SinceSatPrefix(inter: Interval, t: LeftTest, es: seq<Entry>, ls: seq<Option<Table>>, x: Entry,
                       l: Option<Table>, i: int, e: Row)
    requires 0 <= i < |es| == |ls|
    ensures SinceSat(inter, t, es, ls, i, e) == SinceSat(inter, t, es + [x], ls + [l], i, e)
  {
    var es', ls' := es + [x], ls + [l];
    if SinceSat(inter, t, es, ls, i, e) {
      var j :| 0 <= j <= i && inter.Contains(es[i].ts - es[j].ts) && e in es[j].tab
               && forall k :: j < k <= i ==> LeftOk(t, ls[k], e);
      assert es'[j] == es[j] && es'[i] == es[i];
      assert forall k :: j < k <= i ==> ls'[k] == ls[k];
    }
    if SinceSat(inter, t, es', ls', i, e) {
      var j :| 0 <= j <= i && inter.Contains(es'[i].ts - es'[j].ts) && e in es'[j].tab
               && forall k :: j < k <= i ==> LeftOk(t, ls'[k], e);
      assert es'[j] == es[j] && es'[i] == es[i];
      assert forall k :: j < k <= i ==> ls'[k] == ls[k];
    }
  }

  /** Row `e` is in the window at `now`, before the tables of the new time point are looked at. */
  ghost predicate Pending(inter: Interval, t: LeftTest, es: seq<Entry>, ls: seq<Option<Table>>, now: nat, e: Row) {
    exists j :: 0 <= j < |es| && inter.Contains(now - es[j].ts) && Justified(t, es, ls, j, e)
  }

  ghost predicate PendingRows(inter: Interval, t: LeftTest, es: seq<Entry>, ls: seq<Option<Table>>, now: nat,
                              rows: set<Row>) {
    forall e :: e in rows <==> Pending(inter, t, es, ls, now, e)
  }

  /** Dropping a left operand that always holds does not change the verdicts. */
  lemma UnitLeftIsOnce(inter: Interval, t: LeftTest, es: seq<Entry>, ls: seq<Option<Table>>, ones: seq<Option<Table>>,
                       i: int, e: Row)
    requires 0 <= i < |es| == |ls| == |ones| && AllNone(ls) && AllUnit(ones)
    ensures SinceSat(inter, LeftTest(false, []), es, ones, i, e) == SinceSat(inter, t, es, ls, i, e)
  {
    var u := LeftTest(false, []);
    assert forall k :: 0 <= k <= i ==> LeftOk(t, ls[k], e);
    forall k | 0 <= k <= i ensures LeftOk(u, ones[k], e) {
      assert FilterRow([], e) == [];
    }
    if SinceSat(inter, t, es, ls, i, e) {
      var j :| 0 <= j <= i && inter.Contains(es[i].ts - es[j].ts) && e in es[j].tab
               && forall k :: j < k <= i ==> LeftOk(t, ls[k], e);
      assert forall k :: j < k <= i ==> LeftOk(u, ones[k], e);
    }
    if SinceSat(inter, u, es, ones, i, e) {
      var j :| 0 <= j <= i && inter.Contains(es[i].ts - es[j].ts) && e in es[j].tab
               && forall k :: j < k <= i ==> LeftOk(u, ones[k], e);
      assert forall k :: j < k <= i ==> LeftOk(t, ls[k], e);
    }
  }

  // ----- the reference count of all_data_counted -----

  /** In how many tables from position `lo` on does `e` occur? */
  ghost function Cnt(es: seq<Entry>, lo: nat, e: Row): nat
    decreases |es| - lo
  {
    if lo >= |es| then 0 else (if e in es[lo].tab then 1 else 0) + Cnt(es, lo + 1, e)
  }

  lemma {:induction false} CntAppend(es: seq<Entry>, x: Entry, lo: nat, e: Row)
    requires lo <= |es|
    ensures Cnt(es + [x], lo, e) == Cnt(es, lo, e) + if e in x.tab then 1 else 0
    decreases |es| - lo
  {
    if lo < |es| {
      CntAppend(es, x, lo + 1, e);
      assert (es + [x])[lo] == es[lo];
    } else {
      assert (es + [x])[lo] == x;
      assert Cnt(es + [x], lo + 1, e) == 0;
    }
  }

  lemma {:induction false} CntPositive(es: seq<Entry>, lo: nat, e: Row)
    ensures Cnt(es, lo, e) > 0 <==> exists j :: lo <= j < |es| && e in es[j].tab
    decreases |es| - lo
  {
    if lo < |es| {
      CntPositive(es, lo + 1, e);
      if e in es[lo].tab {
      } else if j :| lo <= j < |es| && e in es[j].tab {
        assert lo + 1 <= j;
      }
    }
  }

  // ----- invariants of the timestamp maps -----

  /** `tin[e]` is the latest timestamp in `[a, b)` at which `e` is still justified. */
  ghost predicate TinOk(t: LeftTest, es: seq<Entry>, ls: seq<Option<Table>>, a: nat, b: nat, tin: map<Row, nat>)
    requires b <= |es|
  {
    && (forall e | e in tin :: exists j :: a <= j < b && Justified(t, es, ls, j, e) && es[j].ts == tin[e])
    && (forall e, j | a <= j < b && Justified(t, es, ls, j, e) :: e in tin && es[j].ts <= tin[e])
  }

  /** `since[e]` is a timestamp at which `e` is justified, and no retained justification is older. */
  ghost predicate SinceOk(t: LeftTest, es: seq<Entry>, ls: seq<Option<Table>>, a: nat, since: map<Row, nat>) {
    && (forall e | e in since :: exists j :: a <= j < |es| && Justified(t, es, ls, j, e))
    && (forall e | e in since :: exists j :: 0 <= j < |es| && Justified(t, es, ls, j, e) && es[j].ts == since[e])
    && (forall e, j | a <= j < |es| && Justified(t, es, ls, j, e) :: e in since && since[e] <= es[j].ts)
  }

  /** Positions `[a, b)` are exactly those whose distance to `now` lies in the interval. */
  ghost predicate Window(inter: Interval, es: seq<Entry>, a: nat, b: nat, now: nat)
    requires a <= b <= |es|
  {
    && (forall j :: 0 <= j < a ==> !inter.LeqUpper(now - es[j].ts))
    && (forall j :: a <= j < |es| ==> inter.LeqUpper(now - es[j].ts))
    && (forall j :: a <= j < b ==> !inter.LtLower(now - es[j].ts))
    && (forall j :: b <= j < |es| ==> inter.LtLower(now - es[j].ts))
  }

  /** What dropping old tables does to `tuple_in`. */
  ghost function Fresh(inter: Interval, now: nat, tin: map<Row, nat>): map<Row, nat> {
    map e | e in tin && inter.LeqUpper(now - tin[e]) :: tin[e]
  }

  lemma DropKeepsTin(inter: Interval, t: LeftTest, es: seq<Entry>, ls: seq<Option<Table>>, a0: nat, b0: nat, a: nat,
                     b: nat, now: nat, tin: map<Row, nat>)
    requires a0 <= b0 <= |es| && a0 <= a <= |es| && b == if a <= b0 then b0 else a
    requires TinOk(t, es, ls, a0, b0, tin)
    requires forall j :: a0 <= j < a ==> !inter.LeqUpper(now - es[j].ts)
    requires forall j :: a <= j < |es| ==> inter.LeqUpper(now - es[j].ts)
    ensures TinOk(t, es, ls, a, b, Fresh(inter, now, tin))
  {
    forall e | e in Fresh(inter, now, tin)
      ensures exists j :: a <= j < b && Justified(t, es, ls, j, e) && es[j].ts == tin[e]
    {
      var j :| a0 <= j < b0 && Justified(t, es, ls, j, e) && es[j].ts == tin[e];
      assert a <= j;
    }
    forall e, j | a <= j < b && Justified(t, es, ls, j, e)
      ensures e in Fresh(inter, now, tin) && es[j].ts <= tin[e]
    {
      assert j < b0;
      var j' :| a0 <= j' < b0 && Justified(t, es, ls, j', e) && es[j'].ts == tin[e];
      assert e in tin && es[j].ts <= tin[e];
    }
  }

  lemma DropKeepsSince(t: LeftTest, es: seq<Entry>, ls: seq<Option<Table>>, a0: nat, a: nat, since: map<Row, nat>,
                       since': map<Row, nat>)
    requires a0 <= a <= |es|
    requires SinceOk(t, es, ls, a0, since)
    requires forall e :: e in since' <==> e in since && Cnt(es, a, e) > 0
    requires forall e | e in since' :: since'[e] == since[e]
    ensures SinceOk(t, es, ls, a, since')
  {
    forall e | e in since' ensures exists j :: a <= j < |es| && Justified(t, es, ls, j, e) {
      CntPositive(es, a, e);
      var j :| a0 <= j < |es| && Justified(t, es, ls, j, e);
      var j' :| a <= j' < |es| && e in es[j'].tab;
      assert j < a ==> Justified(t, es, ls, j', e);
    }
    forall e, j | a <= j < |es| && Justified(t, es, ls, j, e) ensures e in since' && since'[e] <= es[j].ts {
      CntPositive(es, a, e);
    }
  }

  /**
   * Moving the table at `j` into the window refreshes `e`: it occurs there and its `tuple_since`
   * stamp is not newer.
   */
  ghost predicate Promotes(es: seq<Entry>, since: map<Row, nat>, j: int, e: Row) {
    0 <= j < |es| && e in es[j].tab && e in since && since[e] <= es[j].ts
  }

  /** `tin` is `tin0` after moving tables `[b0, b)` into the window. */
  ghost predicate Promoted(es: seq<Entry>, since: map<Row, nat>, tin0: map<Row, nat>, b0: nat, b: nat,
                           tin: map<Row, nat>)
    requires b <= |es|
  {
    && (forall e | e in tin :: (e in tin0 && tin[e] == tin0[e])
                               || exists j :: b0 <= j < b && Promotes(es, since, j, e) && es[j].ts == tin[e])
    && (forall e | e in tin0 :: e in tin && tin0[e] <= tin[e])
    && (forall e, j | b0 <= j < b && Promotes(es, since, j, e) :: e in tin && es[j].ts <= tin[e])
  }

  /**
   * `tuple_since` is compared by timestamp: a table may refresh a row that was
   * dropped and came back at a later time point of the same timestamp.  That
   * later occurrence then justifies the stamp.
   */
  lemma PromotionJustified(t: LeftTest, es: seq<Entry>, ls: seq<Option<Table>>, a: nat, since: map<Row, nat>, j: int,
                           e: Row)
    returns (j': int)
    requires Sorted(es) && SinceOk(t, es, ls, a, since) && Promotes(es, since, j, e)
    ensures j <= j' < |es| && Justified(t, es, ls, j', e) && es[j'].ts == es[j].ts
  {
    var j0 :| 0 <= j0 < |es| && Justified(t, es, ls, j0, e) && es[j0].ts == since[e];
    j' := if j0 <= j then j else j0;
  }

  lemma AdvanceKeepsTin(t: LeftTest, es: seq<Entry>, ls: seq<Option<Table>>, a: nat, b0: nat, b: nat,
                        since: map<Row, nat>, tin0: map<Row, nat>, tin: map<Row, nat>)
    requires a <= b0 <= b <= |es| && Sorted(es)
    requires TinOk(t, es, ls, a, b0, tin0) && SinceOk(t, es, ls, a, since)
    requires Promoted(es, since, tin0, b0, b, tin)
    // time points of one timestamp enter the window together
    requires forall i, j :: a <= i < b <= j < |es| ==> es[i].ts < es[j].ts
    ensures TinOk(t, es, ls, a, b, tin)
  {
    forall e | e in tin ensures exists j :: a <= j < b && Justified(t, es, ls, j, e) && es[j].ts == tin[e] {
      if e in tin0 && tin[e] == tin0[e] {
        var j :| a <= j < b0 && Justified(t, es, ls, j, e) && es[j].ts == tin0[e];
      } else {
        var j :| b0 <= j < b && Promotes(es, since, j, e) && es[j].ts == tin[e];
        var j' := PromotionJustified(t, es, ls, a, since, j, e);
      }
    }
    forall e, j | a <= j < b && Justified(t, es, ls, j, e) ensures e in tin && es[j].ts <= tin[e] {
      if b0 <= j {
        assert Promotes(es, since, j, e);
      } else {
        assert e in tin0 && es[j].ts <= tin0[e];
      }
    }
  }

  /** The rows of a map that pass the left condition. */
  ghost predicate Joined(t: LeftTest, left: Option<Table>, m: map<Row, nat>, m': map<Row, nat>) {
    && (forall e :: e in m' <==> e in m && LeftOk(t, left, e))
    && (forall e | e in m' :: m'[e] == m[e])
  }

  lemma JustifiedJoin(t: LeftTest, es: seq<Entry>, ls: seq<Option<Table>>, left: Option<Table>, j: int, e: Row)
    requires |es| == |ls|
    ensures Justified(t, es, ls + [left], j, e) <==> Justified(t, es, ls, j, e) && LeftOk(t, left, e)
  {
    var ls' := ls + [left];
    if Justified(t, es, ls', j, e) {
      assert LeftOk(t, ls'[|ls|], e);
      forall k | j < k < |ls| ensures LeftOk(t, ls[k], e) {
        assert ls'[k] == ls[k];
      }
    }
  }

  lemma JoinKeeps(t: LeftTest, es: seq<Entry>, ls: seq<Option<Table>>, left: Option<Table>, a: nat, b: nat,
                  tin: map<Row, nat>, tin': map<Row, nat>, since: map<Row, nat>, since': map<Row, nat>)
    requires a <= b <= |es| == |ls|
    requires TinOk(t, es, ls, a, b, tin) && SinceOk(t, es, ls, a, since)
    requires Joined(t, left, tin, tin') && Joined(t, left, since, since')
    ensures TinOk(t, es, ls + [left], a, b, tin') && SinceOk(t, es, ls + [left], a, since')
  {
    forall e, j ensures Justified(t, es, ls + [left], j, e) <==> Justified(t, es, ls, j, e) && LeftOk(t, left, e) {
      JustifiedJoin(t, es, ls, left, j, e);
    }
    JoinKeepsTin(t, es, ls, ls + [left], left, a, b, tin, tin');
    JoinKeepsSince(t, es, ls, ls + [left], left, a, since, since');
  }

  lemma JoinKeepsTin(t: LeftTest, es: seq<Entry>, ls: seq<Option<Table>>, ls': seq<Option<Table>>,
                     left: Option<Table>, a: nat, b: nat, tin: map<Row, nat>, tin': map<Row, nat>)
    requires a <= b <= |es| && TinOk(t, es, ls, a, b, tin) && Joined(t, left, tin, tin')
    requires forall j, e :: Justified(t, es, ls', j, e) <==> Justified(t, es, ls, j, e) && LeftOk(t, left, e)
    ensures TinOk(t, es, ls', a, b, tin')
  {
    forall e | e in tin' ensures exists j :: a <= j < b && Justified(t, es, ls', j, e) && es[j].ts == tin'[e] {
      var j :| a <= j < b && Justified(t, es, ls, j, e) && es[j].ts == tin[e];
      assert Justified(t, es, ls', j, e);
    }
  }

  lemma JoinKeepsSince(t: LeftTest, es: seq<Entry>, ls: seq<Option<Table>>, ls': seq<Option<Table>>,
                       left: Option<Table>, a: nat, since: map<Row, nat>, since': map<Row, nat>)
    requires SinceOk(t, es, ls, a, since) && Joined(t, left, since, since')
    requires forall j, e :: Justified(t, es, ls', j, e) <==> Justified(t, es, ls, j, e) && LeftOk(t, left, e)
    ensures SinceOk(t, es, ls', a, since')
  {
    forall e | e in since'
      ensures exists j :: a <= j < |es| && Justified(t, es, ls', j, e)
      ensures exists j :: 0 <= j < |es| && Justified(t, es, ls', j, e) && es[j].ts == since'[e]
    {
      var j :| a <= j < |es| && Justified(t, es, ls, j, e);
      assert Justified(t, es, ls', j, e);
      var j0 :| 0 <= j0 < |es| && Justified(t, es, ls, j0, e) && es[j0].ts == since[e];
      assert Justified(t, es, ls', j0, e);
    }
  }

  /** `m` with every row of `tab` that it lacks stamped `ts`; with `overwrite`, every row of `tab`. */
  ghost predicate Stamped(m: map<Row, nat>, tab: Table, ts: nat, overwrite: bool, m': map<Row, nat>) {
    && m'.Keys == m.Keys + tab
    && (forall e | e in m' :: m'[e] == if e in tab && (overwrite || e !in m) then ts else m[e])
  }

  lemma JustifiedAppend(t: LeftTest, es: seq<Entry>, ls: seq<Option<Table>>, x: Entry, j: int, e: Row)
    requires |ls| == |es| + 1
    ensures Justified(t, es + [x], ls, j, e) <==> Justified(t, es, ls, j, e) || (j == |es| && e in x.tab)
  {
    if 0 <= j < |es| {
      assert (es + [x])[j] == es[j];
    }
  }

  lemma AppendKeepsSince(t: LeftTest, es: seq<Entry>, ls: seq<Option<Table>>, x: Entry, a: nat, since: map<Row, nat>,
                         since': map<Row, nat>)
    requires a <= |es| && |ls| == |es| + 1 && Sorted(es + [x])
    requires SinceOk(t, es, ls, a, since) && Stamped(since, x.tab, x.ts, false, since')
    ensures SinceOk(t, es + [x], ls, a, since')
  {
    var es' := es + [x];
    forall e, j ensures Justified(t, es', ls, j, e) <==> Justified(t, es, ls, j, e) || (j == |es| && e in x.tab) {
      JustifiedAppend(t, es, ls, x, j, e);
    }
    forall e | e in since'
      ensures exists j :: a <= j < |es'| && Justified(t, es', ls, j, e)
      ensures exists j :: 0 <= j < |es'| && Justified(t, es', ls, j, e) && es'[j].ts == since'[e]
    {
      if e in since {
        var j :| a <= j < |es| && Justified(t, es, ls, j, e);
        assert Justified(t, es', ls, j, e);
        var j0 :| 0 <= j0 < |es| && Justified(t, es, ls, j0, e) && es[j0].ts == since[e];
        assert Justified(t, es', ls, j0, e) && es'[j0] == es[j0];
      } else {
        assert Justified(t, es', ls, |es|, e);
      }
    }
    forall e, j | a <= j < |es'| && Justified(t, es', ls, j, e) ensures e in since' && since'[e] <= es'[j].ts {
      if e in since {
        var j0 :| 0 <= j0 < |es| && Justified(t, es, ls, j0, e) && es[j0].ts == since[e];
        assert es'[j0].ts <= es'[|es|].ts;
        assert j < |es| ==> es'[j] == es[j];
      }
    }
  }

  /** The new table joins the window at once exactly when the interval contains 0. */
  lemma AppendKeepsTin(t: LeftTest, es: seq<Entry>, ls: seq<Option<Table>>, x: Entry, a: nat, b: nat, inWindow: bool,
                       tin: map<Row, nat>, tin': map<Row, nat>)
    requires a <= b <= |es| && |ls| == |es| + 1 && Sorted(es + [x])
    requires TinOk(t, es, ls, a, b, tin)
    requires if inWindow then b == |es| && Stamped(tin, x.tab, x.ts, true, tin') else tin' == tin
    ensures TinOk(t, es + [x], ls, a, if inWindow then b + 1 else b, tin')
  {
    var es', b' := es + [x], if inWindow then b + 1 else b;
    forall e, j ensures Justified(t, es', ls, j, e) <==> Justified(t, es, ls, j, e) || (j == |es| && e in x.tab) {
      JustifiedAppend(t, es, ls, x, j, e);
    }
    forall e | e in tin' ensures exists j :: a <= j < b' && Justified(t, es', ls, j, e) && es'[j].ts == tin'[e] {
      if inWindow && e in x.tab {
        assert Justified(t, es', ls, |es|, e);
      } else {
        var j :| a <= j < b && Justified(t, es, ls, j, e) && es[j].ts == tin[e];
        assert Justified(t, es', ls, j, e) && es'[j] == es[j];
      }
    }
    forall e, j | a <= j < b' && Justified(t, es', ls, j, e) ensures e in tin' && es'[j].ts <= tin'[e] {
      assert j < |es| ==> es'[j] == es[j];
      assert es'[j].ts <= es'[|es|].ts;
    }
  }

  /** With the window exact, the keys of `tuple_in` are the satisfying rows. */
  lemma TinIsSat(inter: Interval, t: LeftTest, es: seq<Entry>, ls: seq<Option<Table>>, a: nat, b: nat,
                 tin: map<Row, nat>, e: Row)
    requires 0 < |es| == |ls| && a <= b <= |es|
    requires TinOk(t, es, ls, a, b, tin) && Window(inter, es, a, b, es[|es| - 1].ts)
    ensures e in tin <==> SinceSat(inter, t, es, ls, |es| - 1, e)
  {
    var i := |es| - 1;
    if e in tin {
      var j :| a <= j < b && Justified(t, es, ls, j, e) && es[j].ts == tin[e];
      assert inter.Contains(es[i].ts - es[j].ts);
    }
    if SinceSat(inter, t, es, ls, i, e) {
      var j :| 0 <= j <= i && inter.Contains(es[i].ts - es[j].ts) && e in es[j].tab
               && forall k :: j < k <= i ==> LeftOk(t, ls[k], e);
      assert Justified(t, es, ls, j, e);
      assert a <= j < b;
    }
  }

  lemma TinIsPending(inter: Interval, t: LeftTest, es: seq<Entry>, ls: seq<Option<Table>>, a: nat, b: nat, now: nat,
                     tin: map<Row, nat>)
    requires a <= b <= |es| && TinOk(t, es, ls, a, b, tin) && Window(inter, es, a, b, now)
    ensures forall e :: e in tin <==> Pending(inter, t, es, ls, now, e)
  {
    forall e ensures e in tin <==> Pending(inter, t, es, ls, now, e) {
      if e in tin {
        var j :| a <= j < b && Justified(t, es, ls, j, e) && es[j].ts == tin[e];
        assert inter.Contains(now - es[j].ts);
      }
      if Pending(inter, t, es, ls, now, e) {
        var j :| 0 <= j < |es| && inter.Contains(now - es[j].ts) && Justified(t, es, ls, j, e);
        assert a <= j < b;
      }
    }
  }
}
