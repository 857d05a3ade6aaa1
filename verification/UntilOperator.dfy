/**
 * The incremental until and eventually operators (src/until_impl.h,
 * src/until_impl.cpp): a sliding sequence of buckets that map rows to stamps.
 */
module UntilOperator {
  import opened Wrappers
  import opened Intervals
  import opened Tables
  import opened Temporal
  import opened UntilSpec

  class UntilImpl {
    const inter: Interval
    const containsZero: bool
    const test: LeftTest
    const nfvs: nat

    var firstTp: nat
    var currTp: nat
    var tsBuf: seq<nat>
    var a1Map: map<Row, nat>
    var a2Map: seq<Bucket>
    var resAcc: seq<Table>

    /** Everything fed so far, everything produced so far, and how much of that has been handed out. */
    ghost var es: seq<Entry>
    ghost var ls: seq<Option<Table>>
    ghost var out: seq<Table>
    ghost var returned: nat
    /** The newest timestamp the operator has been shown. */
    ghost var look: nat

    /**
     * `a2Map` has one bucket more than there are buffered time points, and `extra` more while a
     * table is being added.
     */
    ghost predicate BuffersWith(extra: nat)
      reads this`firstTp, this`currTp, this`tsBuf, this`a2Map, this`es, this`ls
    {
      && containsZero == inter.Contains(0)
      && currTp == |es| == |ls| && firstTp <= currTp
      && |tsBuf| == currTp - firstTp && (forall k :: 0 <= k < |tsBuf| ==> tsBuf[k] == es[firstTp + k].ts)
      && |a2Map| == |tsBuf| + 1 + extra
      && Sorted(es) && InRange(test.idx, nfvs)
      && forall j :: 0 <= j < |es| ==> forall e | e in es[j].tab :: |e| == nfvs
    }

    ghost predicate Buffers()
      reads this`firstTp, this`currTp, this`tsBuf, this`a2Map, this`es, this`ls
    {
      BuffersWith(0)
    }

    ghost predicate Buckets()
      reads this`firstTp, this`a2Map, this`es, this`ls
    {
      Sound(inter, test, es, ls, firstTp, a2Map) && Complete(inter, test, es, ls, firstTp, a2Map)
    }

    ghost predicate Results()
      reads this`firstTp, this`es, this`ls, this`out, this`returned, this`resAcc
    {
      && |out| == firstTp && EmittedOk(inter, test, es, ls, out)
      && returned <= |out| && resAcc == out[returned..]
    }

    ghost predicate Valid()
      reads this
    {
      Buffers() && Buckets() && Results() && A1Ok(test, ls, a1Map) && Horizon(inter, es, firstTp, look)
    }

    constructor (inter: Interval, test: LeftTest, nfvs: nat)
      requires InRange(test.idx, nfvs)
      ensures Valid() && es == [] && ls == [] && a1Map == map[] && returned == 0 && look == 0 && out == []
      ensures this.inter == inter && this.test == test && this.nfvs == nfvs
    {
      this.inter, this.test, this.nfvs, containsZero := inter, test, nfvs, inter.Contains(0);
      firstTp, currTp, tsBuf, a1Map, a2Map, resAcc := 0, 0, [], map[], [map[]], [];
      es, ls, out, returned, look := [], [], [], 0, 0;
    }

    // ----- shifting -----

    static method CombineMax(mapping1: Bucket, mapping2: Bucket) returns (m: Bucket)
      ensures Combined(mapping1, mapping2, m)
    {
      m := mapping2;
      ghost var done := {};
      var todo := mapping1.Keys;
      while todo != {}
        invariant done !! todo && done + todo == mapping1.Keys
        invariant m.Keys == done + mapping2.Keys
        invariant forall e | e in m :: (e in done ==> mapping1[e] <= m[e]) && (e in mapping2 ==> mapping2[e] <= m[e])
        invariant forall e | e in m :: (e in done && m[e] == mapping1[e]) || (e in mapping2 && m[e] == mapping2[e])
      {
        var e :| e in todo;
        m := m[e := if e in m && mapping1[e] <= m[e] then m[e] else mapping1[e]];
        done, todo := done + {e}, todo - {e};
      }
    }

    /** What is left of the first bucket, and the next one after merging that into it. */
    method MergeFirst() returns (kept: Bucket, merged: Bucket)
      requires Buffers() && tsBuf != []
      ensures firstTp < |es| && Filtered(inter, firstTp, es[firstTp].ts, a2Map[0], kept)
              && Combined(kept, a2Map[1], merged)
    {
      var oldTs := tsBuf[0];
      assert oldTs == es[firstTp].ts;
      kept := map e | e in a2Map[0] && (if containsZero then firstTp <= a2Map[0][e]
          else oldTs < a2Map[0][e]) :: a2Map[0][e];
      merged := CombineMax(kept, a2Map[1]);
    }

    method PopFirst(emitted: Table, merged: Bucket)
      requires Buffers() && tsBuf != [] && returned <= |out| == firstTp && resAcc == out[returned..]
      modifies this`firstTp, this`tsBuf, this`a2Map, this`resAcc, this`out
      ensures Buffers() && returned <= |out| == firstTp && resAcc == out[returned..]
      ensures firstTp == old(firstTp) + 1 && tsBuf == old(tsBuf)[1..] && out == old(out) + [emitted]
      ensures a2Map == [merged] + old(a2Map)[2..]
    {
      resAcc := resAcc + [emitted];
      out := out + [emitted];
      a2Map := [merged] + a2Map[2..];
      tsBuf := tsBuf[1..];
      firstTp := firstTp + 1;
    }

    /** One round of `shift`: emits the first time point. */
    method EmitFirst()
      requires Buffers() && Buckets() && Results() && tsBuf != []
      requires forall j :: firstTp <= j < |es| ==> inter.LeqUpper(es[j].ts - es[firstTp].ts)
      modifies this`firstTp, this`tsBuf, this`a2Map, this`resAcc, this`out
      ensures Buffers() && Buckets() && Results() && firstTp == old(firstTp) + 1 && tsBuf == old(tsBuf)[1..]
      ensures old(out) <= out
    {
      hide Sound, Complete, EmittedOk, Filtered, Combined, Buffers;
      BufferFacts();
      ghost var a2, out0 := a2Map, out;
      var kept, merged := MergeFirst();
      EmittedMore(inter, test, es, ls, out, a2, kept);
      PopFirst(kept.Keys, merged);
      PopSound(inter, test, es, ls, |out0|, a2, kept, merged, a2Map);
      PopComplete(inter, test, es, ls, |out0|, a2, kept, merged, a2Map);
    }

    lemma BufferFacts()
      requires Buffers()
      ensures Sorted(es) && currTp == |es| == |ls| && firstTp <= currTp && |tsBuf| == currTp - firstTp
              && |a2Map| == |tsBuf| + 1
      ensures InRange(test.idx, nfvs)
    {}

    method Shift(newTs: nat)
      requires Buffers() && Buckets() && Results() && Horizon(inter, es, firstTp, look) && look <= newTs
      modifies this`firstTp, this`tsBuf, this`a2Map, this`resAcc, this`out, this`look
      ensures Buffers() && Buckets() && Results() && Horizon(inter, es, firstTp, look) && look == newTs
      ensures (forall j :: 0 <= j < |es| ==> es[j].ts <= newTs) && old(out) <= out
    {
      hide Buckets, Results, Sorted;
      ghost var h, look0, out0 := es, look, out;
      while tsBuf != []
        invariant Buffers() && Buckets() && Results() && h == es && look == look0 && out0 <= out
        invariant forall i :: 0 <= i < firstTp ==> !inter.LeqUpper(newTs - h[i].ts)
        invariant firstTp < |h| ==> inter.LeqUpper(look0 - h[firstTp].ts)
        decreases |tsBuf|
      {
        assert tsBuf[0] == es[firstTp].ts;
        if inter.LeqUpper(newTs - tsBuf[0]) {
          break;
        }
        SortedFrom(inter, es, firstTp, look);
        EmitFirst();
      }
      look := newTs;
    }

    // ----- a new right table -----

    method UpdateA2InnerMap(idx: nat, e: Row, newTsTp: nat)
      requires idx < |a2Map|
      modifies this`a2Map
      ensures a2Map == RaisedAt(old(a2Map), idx, e, newTsTp)
    {
      var nestMap: Bucket := a2Map[idx];
      if e !in nestMap {
        a2Map := a2Map[idx := nestMap[e := newTsTp]];
      } else {
        a2Map := a2Map[idx := nestMap[e := if newTsTp <= nestMap[e] then nestMap[e] else newTsTp]];
      }
    }

    /** The bucket from which the left side has held for row `e`, if it holds now. */
    method FindOverrideIdx(e: Row) returns (idx: Option<nat>)
      requires Buffers() && |e| == nfvs && A1Ok(test, ls, a1Map)
      ensures OverrideIdx(test, a1Map, firstTp, currTp, e, idx) && (idx.Some? ==> idx.value < |a2Map|)
    {
      var l := FilterRow(test.idx, e);
      assert StartOk(test, ls, a1Map, l);
      if l !in a1Map {
        idx := if test.negated then Some(0) else None;
      } else if test.negated {
        idx := Some(if a1Map[l] + 1 <= firstTp then 0 else a1Map[l] + 1 - firstTp);
      } else {
        idx := Some(if a1Map[l] <= firstTp then 0 else a1Map[l] - firstTp);
      }
    }

    /** One row of a new right table. */
    method EnterRow(e: Row, v: nat) returns (ghost idx: Option<nat>)
      requires Buffers() && |e| == nfvs && A1Ok(test, ls, a1Map)
      modifies this`a2Map
      ensures Buffers()
      ensures OverrideIdx(test, a1Map, firstTp, currTp, e, idx) && (idx.Some? ==> idx.value < |a2Map|)
      ensures a2Map == TwiceRaised(inter, old(a2Map), idx, e, v)
    {
      if containsZero {
        UpdateA2InnerMap(|a2Map| - 1, e, v);
      }
      var overrideIdx := FindOverrideIdx(e);
      if overrideIdx.Some? {
        UpdateA2InnerMap(overrideIdx.value, e, v);
      }
      idx := overrideIdx;
    }

    method UpdateA2Map(newTs: nat, tabR: Table)
      requires Buffers() && A1Ok(test, ls, a1Map) && forall e | e in tabR :: |e| == nfvs
      modifies this`a2Map
      ensures exists a2 :: Entered(inter, test, a1Map, firstTp, currTp, Stamp(inter, currTp, newTs), tabR, old(a2Map),
              a2)
                           && a2Map == a2 + [map[]]
      ensures BuffersWith(1)
    {
      hide A1Ok, Entered, Sorted;
      BufferFacts();
      var newTsTp := if containsZero then currTp else newTs - (if inter.l - 1 <= newTs then inter.l - 1 else newTs);
      ghost var a20, done := a2Map, {};
      EnteredNone(inter, test, a1Map, firstTp, currTp, newTsTp, a2Map);
      var todo := tabR;
      while todo != {}
        invariant done !! todo && done + todo == tabR && Buffers()
        invariant Entered(inter, test, a1Map, firstTp, currTp, newTsTp, done, a20, a2Map)
      {
        var e :| e in todo;
        ghost var a2 := a2Map;
        ghost var idx := EnterRow(e, newTsTp);
        EnteredStep(inter, test, a1Map, firstTp, currTp, newTsTp, done, e, idx, a20, a2, a2Map);
        done, todo := done + {e}, todo - {e};
      }
      assert done == tabR;
      a2Map := a2Map + [map[]];
    }

    method UpdateA1Map(tabL: Table)
      requires currTp == |ls| && A1Ok(test, ls, a1Map)
      modifies this`a1Map
      ensures A1Updated(test, tabL, currTp, old(a1Map), a1Map)
    {
      if !test.negated {
        if tabL != {} {
          a1Map := map l | l in a1Map && l in tabL :: a1Map[l];
          a1Map := map l | l in tabL :: if l in a1Map then a1Map[l] else currTp;
        } else {
          a1Map := map[];
        }
      } else {
        a1Map := map l | l in a1Map.Keys + tabL :: if l in tabL then currTp else a1Map[l];
      }
    }

    /** Appending a time point once the buckets and the left map have been updated. */
    lemma AddOk(es0: seq<Entry>, ls0: seq<Option<Table>>, a1: map<Row, nat>, a20: seq<Bucket>, a2: seq<Bucket>,
                x: Entry, left: Option<Table>)
      requires es == es0 + [x] && ls == ls0 + [left] && |es0| == |ls0| && firstTp <= |es0|
               && |a20| == |es0| - firstTp + 1
      requires A1Ok(test, ls0, a1) && Sound(inter, test, es0, ls0, firstTp, a20)
               && Complete(inter, test, es0, ls0, firstTp, a20)
      requires Entered(inter, test, a1, firstTp, |es0|, Stamp(inter, |es0|, x.ts), x.tab, a20, a2)
               && a2Map == a2 + [map[]]
      requires |out| == firstTp && EmittedOk(inter, test, es0, ls0, out) && returned <= |out|
               && resAcc == out[returned..]
      requires Horizon(inter, es0, firstTp, look) && look == x.ts
      ensures Buckets() && Results() && Horizon(inter, es, firstTp, look)
    {
      hide A1Ok, Entered, Sound, Complete, EmittedOk;
      AddSound(inter, test, es0, ls0, firstTp, a1, a20, a2, x, left);
      AddComplete(inter, test, es0, ls0, firstTp, a1, a20, a2, x, left);
      EmittedAppend(inter, test, es0, ls0, out, x, left);
    }

    method AddTables(tabL: Table, tabR: Table, newTs: nat)
      requires Valid() && look <= newTs && forall e | e in tabR :: |e| == nfvs
      modifies this
      ensures Valid() && es == old(es) + [Entry(newTs, tabR)] && ls == old(ls) + [Some(tabL)]
      ensures look == newTs && returned == old(returned) && old(out) <= out
    {
      hide A1Ok, Entered, Sound, Complete, EmittedOk, A1Updated, Sorted, Horizon, BuffersWith;
      Shift(newTs);
      BufferFacts();
      ghost var es0, ls0, a1, a20 := es, ls, a1Map, a2Map;
      UpdateA2Map(newTs, tabR);
      ghost var a2 :| Entered(inter, test, a1, firstTp, currTp, Stamp(inter, currTp, newTs), tabR, a20, a2)
          && a2Map == a2 + [map[]];
      UpdateA1Map(tabL);
      A1UpdateOk(test, ls, tabL, a1, a1Map);
      Push(Entry(newTs, tabR), Some(tabL));
      AddOk(es0, ls0, a1, a20, a2, Entry(newTs, tabR), Some(tabL));
    }

    method Push(x: Entry, ghost left: Option<Table>)
      requires BuffersWith(1) && (forall j :: 0 <= j < |es| ==> es[j].ts <= x.ts)
               && forall e | e in x.tab :: |e| == nfvs
      modifies this`tsBuf, this`currTp, this`es, this`ls
      ensures Buffers() && es == old(es) + [x] && ls == old(ls) + [left]
    {
      tsBuf := tsBuf + [x.ts];
      currTp := currTp + 1;
      es := es + [x];
      ls := ls + [left];
    }

    // ----- results -----

    lemma ResultFacts()
      requires Results()
      ensures EmittedOk(inter, test, es, ls, out) && |out| == firstTp
    {}

    method Eval(newTs: nat) returns (ret: seq<Table>)
      requires Valid() && look <= newTs
      modifies this
      ensures Valid() && es == old(es) && ls == old(ls) && a1Map == old(a1Map) && look == newTs
      ensures ret == out[old(returned)..] && returned == |out| && old(out) <= out
      // exact verdicts, for exactly the time points whose upper bound `newTs` has passed
      ensures EmittedOk(inter, test, es, ls, out) && Horizon(inter, es, |out|, newTs)
    {
      hide A1Ok, Sound, Complete, EmittedOk, Sorted, Horizon;
      Shift(newTs);
      ResultFacts();
      ret := resAcc;
      resAcc := [];
      returned := |out|;
    }

    // ----- eventually -----

    /** The operator has been built for, and only used as, `eventually`: there is no left operand to keep track of. */
    ghost predicate NoLeft()
      reads this`ls, this`a1Map
    {
      test.negated && AllNone(ls) && a1Map == map[]
    }

    /** One row of a new right table, without a left operand. */
    method EnterRowFromStart(e: Row, v: nat)
      requires Buffers()
      modifies this`a2Map
      ensures Buffers() && a2Map == TwiceRaised(inter, old(a2Map), Some(0), e, v)
    {
      if containsZero {
        UpdateA2InnerMap(|a2Map| - 1, e, v);
      }
      UpdateA2InnerMap(0, e, v);
    }

    /** `eventually_impl::update_a2_map`: the left side holds from the first buffered time point on. */
    method UpdateA2MapFromStart(newTs: nat, tabR: Table)
      requires Buffers() && NoLeft() && forall e | e in tabR :: |e| == nfvs
      modifies this`a2Map
      ensures exists a2 :: Entered(inter, test, a1Map, firstTp, currTp, Stamp(inter, currTp, newTs), tabR, old(a2Map),
              a2)
                           && a2Map == a2 + [map[]]
      ensures BuffersWith(1)
    {
      hide Entered, Sorted;
      BufferFacts();
      var newTsTp := if containsZero then currTp else newTs - (if inter.l - 1 <= newTs then inter.l - 1 else newTs);
      ghost var a20, done := a2Map, {};
      EnteredNone(inter, test, a1Map, firstTp, currTp, newTsTp, a2Map);
      var todo := tabR;
      while todo != {}
        invariant done !! todo && done + todo == tabR && Buffers()
        invariant Entered(inter, test, a1Map, firstTp, currTp, newTsTp, done, a20, a2Map)
      {
        var e :| e in todo;
        ghost var a2 := a2Map;
        EnterRowFromStart(e, newTsTp);
        EnteredStep(inter, test, a1Map, firstTp, currTp, newTsTp, done, e, Some(0), a20, a2, a2Map);
        done, todo := done + {e}, todo - {e};
      }
      assert done == tabR;
      a2Map := a2Map + [map[]];
    }

    method AddRightTable(tabR: Table, newTs: nat)
      requires Valid() && NoLeft() && look <= newTs && forall e | e in tabR :: |e| == nfvs
      modifies this
      ensures Valid() && NoLeft() && es == old(es) + [Entry(newTs, tabR)] && ls == old(ls) + [None]
      ensures look == newTs && returned == old(returned) && old(out) <= out
    {
      hide A1Ok, Entered, Sound, Complete, EmittedOk, Sorted, Horizon, BuffersWith;
      Shift(newTs);
      BufferFacts();
      ghost var es0, ls0, a1, a20 := es, ls, a1Map, a2Map;
      UpdateA2MapFromStart(newTs, tabR);
      ghost var a2 :| Entered(inter, test, a1, firstTp, currTp, Stamp(inter, currTp, newTs), tabR, a20, a2)
          && a2Map == a2 + [map[]];
      Push(Entry(newTs, tabR), None);
      A1NoneOk(test, ls);
      AddOk(es0, ls0, a1, a20, a2, Entry(newTs, tabR), None);
    }
  }
}
