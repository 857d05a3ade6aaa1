/**
 * Operators that are fed chunks of tables: whatever the chunks, the results
 * over a whole run are those of the concatenated inputs.
 */
module ChunkRuns {
  import opened Intervals
  import opened Tables
  import opened Buffers
  import opened PrevNext

  function Flat<T>(chunks: seq<seq<T>>): seq<T> {
    if chunks == [] then [] else Flat(chunks[..|chunks| - 1]) + chunks[|chunks| - 1]
  }

  lemma FlatStep<T>(chunks: seq<seq<T>>, k: nat)
    requires k < |chunks|
    ensures Flat(chunks[..k + 1]) == Flat(chunks[..k]) + chunks[k]
  {
    assert chunks[..k + 1][..k] == chunks[..k];
  }

  // ----- pairing two streams -----

  /** `res` pairs the two streams as far as both go. */
  ghost predicate AllPairs<T>(left: seq<T>, right: seq<T>, res: seq<(T, T)>) {
    |res| == Min(|left|, |right|) && forall k :: 0 <= k < |res| ==> res[k] == (left[k], right[k])
  }

  lemma MorePairs<T>(left: seq<T>, right: seq<T>, newL: seq<T>, newR: seq<T>, res: seq<(T, T)>, more: seq<(T, T)>)
    requires AllPairs(left, right, res) && Zipped(left + newL, right + newR, |res|, more)
    ensures AllPairs(left + newL, right + newR, res + more)
  {
    forall k | 0 <= k < |res + more| ensures (res + more)[k] == ((left + newL)[k], (right + newR)[k]) {
      if k >= |res| {
        assert more[k - |res|] == ((left + newL)[k], (right + newR)[k]);
      }
    }
  }

  method PairUp<T>(lefts: seq<seq<T>>, rights: seq<seq<T>>) returns (res: seq<(T, T)>, surplus: seq<T>, ofLeft: bool)
    requires |lefts| == |rights|
    ensures AllPairs(Flat(lefts), Flat(rights), res)
    ensures if ofLeft then Flat(lefts) == Flat(lefts)[..|res|] + surplus
            else Flat(rights) == Flat(rights)[..|res|] + surplus
  {
    hide AllPairs, Zipped, Flat;
    var buffer := new BinaryBuffer<T>();
    res := [];
    FlatNone<T>();
    assert lefts[..0] == [] && rights[..0] == [];
    NoPairs<T>();
    for k := 0 to |lefts|
      invariant fresh(buffer) && buffer.Valid() && buffer.left == Flat(lefts[..k]) && buffer.right == Flat(rights[..k])
      invariant AllPairs(buffer.left, buffer.right, res)
    {
      PairsLength(buffer.left, buffer.right, res);
      ghost var l, r := buffer.left, buffer.right;
      var more := buffer.UpdateAndReduce(lefts[k], rights[k]);
      MorePairs(l, r, lefts[k], rights[k], res, more);
      FlatStep(lefts, k);
      FlatStep(rights, k);
      res := res + more;
    }
    assert lefts[..|lefts|] == lefts && rights[..|rights|] == rights;
    PairsLength(Flat(lefts), Flat(rights), res);
    surplus, ofLeft := buffer.buf, buffer.isL;
  }

  lemma FlatNone<T>()
    ensures Flat<T>([]) == []
  {}

  lemma NoPairs<T>()
    ensures AllPairs<T>([], [], [])
  {}

  lemma PairsLength<T>(left: seq<T>, right: seq<T>, res: seq<(T, T)>)
    requires AllPairs(left, right, res)
    ensures |res| == Min(|left|, |right|)
  {}

  // ----- previous and next -----

  /** The child never delivers more tables than there are timestamps. */
  ghost predicate InStep(tabs: seq<seq<Table>>, ts: seq<seq<nat>>) {
    |ts| == |tabs| && Monotone(Flat(ts)) && forall k :: 0 <= k <= |tabs| ==> |Flat(tabs[..k])| <= |Flat(ts[..k])|
  }

  lemma {:induction false} FlatPrefix<T>(chunks: seq<seq<T>>, k: nat)
    requires k <= |chunks|
    ensures Flat(chunks[..k]) <= Flat(chunks)
    decreases |chunks|
  {
    if k == |chunks| {
      assert chunks[..k] == chunks;
    } else {
      var init := chunks[..|chunks| - 1];
      assert init[..k] == chunks[..k];
      FlatPrefix(init, k);
    }
  }

  lemma PrevOutMore(inter: Interval, ts: seq<nat>, tabs: seq<Table>, ts': seq<nat>, tabs': seq<Table>,
                    res: seq<Table>, more: seq<Table>)
    requires PrevOut(inter, ts, tabs, 0, res) && ts <= ts' && tabs <= tabs' && PrevOut(inter, ts', tabs', |res|, more)
    ensures PrevOut(inter, ts', tabs', 0, res + more)
  {
    forall k | 0 < k < |res + more| ensures (res + more)[k] == Gated(inter, ts'[k - 1], ts'[k], tabs'[k - 1])
    {
      if k < |res| {
        assert ts[k] == ts'[k];
        assert res[k - 0] == Gated(inter, ts[k - 1], ts[k], tabs[k - 1]);
      } else {
        assert ts'[k] == ts'[k];
        assert more[k - |res|] == Gated(inter, ts'[k - 1], ts'[k], tabs'[k - 1]);
      }
    }
  }

  /**
   * However tables and timestamps are chunked, the output is a prefix of the
   * specified one; after a chunk with a table in it, it is as long as the inputs allow.
   */
  method RunPrev(inter: Interval, tabs: seq<seq<Table>>, ts: seq<seq<nat>>) returns (res: seq<Table>)
    requires InStep(tabs, ts)
    ensures PrevOut(inter, Flat(ts), Flat(tabs), 0, res)
    ensures tabs != [] && tabs[|tabs| - 1] != [] ==> |res| == Min(|Flat(tabs)| + 1, |Flat(ts)|)
  {
    hide PrevOut, Monotone, PrevState.Valid, Flat;
    var prev := new PrevState(inter);
    res := [];
    FlatNone<Table>();
    FlatNone<nat>();
    assert tabs[..0] == [] && ts[..0] == [];
    PrevNothing(inter, [], [], 0);
    for k := 0 to |tabs|
      invariant fresh(prev) && prev.Valid() && prev.inter == inter && prev.tsIn == Flat(ts[..k])
                && prev.tabsIn == Flat(tabs[..k])
      invariant |res| == prev.Emitted() && PrevOut(inter, prev.tsIn, prev.tabsIn, 0, res)
      invariant k > 0 && tabs[k - 1] != [] ==> |res| == Min(|prev.tabsIn| + 1, |prev.tsIn|)
    {
      FlatStep(tabs, k);
      FlatStep(ts, k);
      FlatPrefix(ts, k + 1);
      MonotonePrefix(Flat(ts), Flat(ts[..k + 1]));
      ghost var ts0, tabs0 := prev.tsIn, prev.tabsIn;
      var more := prev.Eval(tabs[k], ts[k]);
      PrevOutMore(inter, ts0, tabs0, prev.tsIn, prev.tabsIn, res, more);
      res := res + more;
    }
    assert tabs[..|tabs|] == tabs && ts[..|ts|] == ts;
  }

  lemma MonotonePrefix(ts: seq<nat>, pre: seq<nat>)
    requires Monotone(ts) && pre <= ts
    ensures Monotone(pre)
  {}

  /** `res` is the specified output of next, up to the child's last table. */
  ghost predicate NextAll(inter: Interval, ts: seq<nat>, tabs: seq<Table>, res: seq<Table>) {
    && |tabs| <= |ts| && |res| == (if tabs == [] then 0 else |tabs| - 1)
    && forall k :: 0 <= k < |res| ==> res[k] == Gated(inter, ts[k], ts[k + 1], tabs[k + 1])
  }

  lemma NextAllMore(inter: Interval, ts: seq<nat>, tabs: seq<Table>, ts': seq<nat>, tabs': seq<Table>,
                    res: seq<Table>, more: seq<Table>)
    requires NextAll(inter, ts, tabs, res) && ts <= ts' && tabs <= tabs' && |tabs'| <= |ts'|
    requires |res| + |more| == if tabs' == [] then 0 else |tabs'| - 1
    requires if tabs' == tabs then more == [] else NextOut(inter, ts', tabs', |res|, more)
    ensures NextAll(inter, ts', tabs', res + more)
  {
    forall k | 0 <= k < |res + more| ensures (res + more)[k] == Gated(inter, ts'[k], ts'[k + 1], tabs'[k + 1]) {
      if k >= |res| {
        assert more[k - |res|] == Gated(inter, ts'[k], ts'[k + 1], tabs'[k + 1]);
      }
    }
  }

  method RunNext(inter: Interval, tabs: seq<seq<Table>>, ts: seq<seq<nat>>) returns (res: seq<Table>)
    requires InStep(tabs, ts)
    ensures NextAll(inter, Flat(ts), Flat(tabs), res)
  {
    hide Monotone, NextOut, NextAll, Flat;
    var next := new NextState(inter);
    res := [];
    FlatNone<Table>();
    FlatNone<nat>();
    assert tabs[..0] == [] && ts[..0] == [];
    NothingNext(inter);
    for k := 0 to |tabs|
      invariant fresh(next) && next.Valid() && next.inter == inter && next.tsIn == Flat(ts[..k])
                && next.tabsIn == Flat(tabs[..k])
      invariant |res| == next.Emitted() && NextAll(inter, next.tsIn, next.tabsIn, res)
    {
      FlatStep(tabs, k);
      FlatStep(ts, k);
      FlatPrefix(ts, k + 1);
      MonotonePrefix(Flat(ts), Flat(ts[..k + 1]));
      ghost var ts0, tabs0 := next.tsIn, next.tabsIn;
      var more := next.Eval(tabs[k], ts[k]);
      assert tabs[k] == [] <==> next.tabsIn == tabs0;
      NextAllMore(inter, ts0, tabs0, next.tsIn, next.tabsIn, res, more);
      res := res + more;
    }
    assert tabs[..|tabs|] == tabs && ts[..|ts|] == ts;
  }

  lemma NothingNext(inter: Interval)
    ensures NextAll(inter, [], [], [])
  {}
}
