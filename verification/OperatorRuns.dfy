/** The temporal operators over whole runs, against the meaning of since and until for everything that was fed. */
module OperatorRuns {
  import opened Wrappers
  import opened Intervals
  import opened Tables
  import opened Temporal
  import opened SinceSpec
  import opened SinceOperator
  import opened UntilOperator
  import opened ChunkRuns
  import J = Joins
  import U = UntilSpec

  /** One time point: both operands' tables and the timestamp. */
  datatype Input = Input(left: Table, right: Table, ts: nat)

  /** Right tables have the arity of the operator, and timestamps do not decrease. */
  ghost predicate Inputs(ins: seq<Input>, nfvs: nat) {
    && (forall k :: 0 <= k < |ins| ==> J.RowsOf(nfvs, ins[k].right))
    && forall i, j :: 0 <= i <= j < |ins| ==> ins[i].ts <= ins[j].ts
  }

  function Rights(ins: seq<Input>): (es: seq<Entry>)
    ensures |es| == |ins| && forall j :: 0 <= j < |ins| ==> es[j] == Entry(ins[j].ts, ins[j].right)
  {
    seq(|ins|, j requires 0 <= j < |ins| => Entry(ins[j].ts, ins[j].right))
  }

  function Lefts(ins: seq<Input>): (ls: seq<Option<Table>>)
    ensures |ls| == |ins| && forall j :: 0 <= j < |ins| ==> ls[j] == Some(ins[j].left)
  {
    seq(|ins|, j requires 0 <= j < |ins| => Some(ins[j].left))
  }

  lemma HistoryStep(ins: seq<Input>, k: nat)
    requires k < |ins|
    ensures Rights(ins[..k + 1]) == Rights(ins[..k]) + [Entry(ins[k].ts, ins[k].right)]
    ensures Lefts(ins[..k + 1]) == Lefts(ins[..k]) + [Some(ins[k].left)]
  {}

  // ----- since -----

  /** Table `k` is the verdict at time point `k`. */
  ghost predicate SinceVerdicts(inter: Interval, t: LeftTest, es: seq<Entry>, ls: seq<Option<Table>>,
                                outs: seq<Table>) {
    |outs| == |es| == |ls| && forall k, e | 0 <= k < |outs| :: e in outs[k] <==> SinceSat(inter, t, es, ls, k, e)
  }

  lemma SinceVerdictsMore(inter: Interval, t: LeftTest, es: seq<Entry>, ls: seq<Option<Table>>, outs: seq<Table>,
                          x: Entry, l: Option<Table>, r: Table)
    requires SinceVerdicts(inter, t, es, ls, outs)
    requires forall e :: e in r <==> SinceSat(inter, t, es + [x], ls + [l], |es|, e)
    ensures SinceVerdicts(inter, t, es + [x], ls + [l], outs + [r])
  {
    forall k, e | 0 <= k < |outs + [r]| ensures e in (outs + [r])[k] <==> SinceSat(inter, t, es + [x], ls + [l], k, e) {
      if k < |outs| {
        SinceSatPrefix(inter, t, es, ls, x, l, k, e);
      }
    }
  }

  /** Each result is exact for the inputs so far, and no later input changes it. */
  method RunSince(inter: Interval, test: LeftTest, nfvs: nat, ins: seq<Input>) returns (outs: seq<Table>)
    requires InRange(test.idx, nfvs) && Inputs(ins, nfvs)
    ensures SinceVerdicts(inter, test, Rights(ins), Lefts(ins), outs)
  {
    hide SinceImpl.Valid, SinceVerdicts, SinceSat;
    var impl := new SinceImpl(inter, test, nfvs, null);
    assert impl.Hooked() == {};
    outs := [];
    assert ins[..0] == [];
    NoVerdicts(inter, test);
    for k := 0 to |ins|
      invariant fresh(impl) && impl.Valid() && impl.agg == null && impl.nfvs == nfvs && impl.inter == inter
                && impl.test == test
      invariant impl.es == Rights(ins[..k]) && impl.ls == Lefts(ins[..k])
      invariant SinceVerdicts(inter, test, impl.es, impl.ls, outs)
    {
      HistoryStep(ins, k);
      assert J.RowsOf(nfvs, ins[k].right);
      ghost var es, ls := impl.es, impl.ls;
      var r := impl.EvalSince(ins[k].left, ins[k].right, ins[k].ts);
      SinceVerdictsMore(inter, test, es, ls, outs, Entry(ins[k].ts, ins[k].right), Some(ins[k].left), r);
      outs := outs + [r];
    }
    assert ins[..|ins|] == ins;
  }

  lemma NoVerdicts(inter: Interval, t: LeftTest)
    ensures SinceVerdicts(inter, t, Rights([]), Lefts([]), [])
  {}

  // ----- until -----

  /** `looks[k]` is the timestamp looked ahead to after input `k`: at least its own, at most the next one's. */
  ghost predicate Looks(ins: seq<Input>, looks: seq<nat>) {
    |looks| == |ins| &&
        forall k :: 0 <= k < |ins| ==> ins[k].ts <= looks[k] && (k + 1 < |ins| ==> looks[k] <= ins[k + 1].ts)
  }

  /** After input `k`, exactly the time points whose upper bound `looks[k]` has passed have been emitted. */
  ghost predicate OnTime(inter: Interval, ins: seq<Input>, looks: seq<nat>, outs: seq<seq<Table>>, k: nat) {
    k < |ins| && k < |looks| && k < |outs| && U.Horizon(inter, Rights(ins[..k + 1]), |Flat(outs[..k + 1])|, looks[k])
  }

  lemma OnTimeMore(inter: Interval, ins: seq<Input>, looks: seq<nat>, outs: seq<seq<Table>>, ret: seq<Table>)
    requires |outs| < |ins| == |looks| && forall k :: 0 <= k < |outs| ==> OnTime(inter, ins, looks, outs, k)
    requires U.Horizon(inter, Rights(ins[..|outs| + 1]), |Flat(outs) + ret|, looks[|outs|])
    ensures Flat(outs + [ret]) == Flat(outs) + ret
    ensures forall k :: 0 <= k <= |outs| ==> OnTime(inter, ins, looks, outs + [ret], k)
  {
    hide U.Horizon, Flat;
    var more := outs + [ret];
    assert more[..|outs|] == outs && more[..|outs| + 1] == more;
    FlatStep(more, |outs|);
    forall k | 0 <= k < |outs| ensures OnTime(inter, ins, looks, more, k) {
      assert OnTime(inter, ins, looks, outs, k) && more[..k + 1] == outs[..k + 1];
    }
  }

  /**
   * The results of all calls together are the verdicts of the time points, in
   * order and each once; each is exact for everything that was fed; and it comes
   * with the first call whose look-ahead passes its upper bound.
   */
  method RunUntil(inter: Interval, test: LeftTest, nfvs: nat, ins: seq<Input>, looks: seq<nat>)
    returns (outs: seq<seq<Table>>)
    requires InRange(test.idx, nfvs) && Inputs(ins, nfvs) && Looks(ins, looks)
    ensures |outs| == |ins| && U.EmittedOk(inter, test, Rights(ins), Lefts(ins), Flat(outs))
    ensures forall k :: 0 <= k < |ins| ==> OnTime(inter, ins, looks, outs, k)
  {
    hide UntilImpl.Valid, U.EmittedOk, U.Horizon, Flat, OnTime;
    var impl := new UntilImpl(inter, test, nfvs);
    outs := [];
    assert ins[..0] == [];
    FlatNone<Table>();
    NothingEmitted(inter, test);
    for k := 0 to |ins|
      invariant fresh(impl) && impl.Valid() && impl.nfvs == nfvs && impl.inter == inter && impl.test == test
      invariant impl.es == Rights(ins[..k]) && impl.ls == Lefts(ins[..k]) && (k < |ins| ==> impl.look <= ins[k].ts)
      invariant |outs| == k && impl.out == Flat(outs) && impl.returned == |impl.out|
      invariant U.EmittedOk(inter, test, impl.es, impl.ls, Flat(outs))
      invariant forall j :: 0 <= j < k ==> OnTime(inter, ins, looks, outs, j)
    {
      HistoryStep(ins, k);
      assert J.RowsOf(nfvs, ins[k].right);
      ghost var before, outs0 := impl.out, outs;
      impl.AddTables(ins[k].left, ins[k].right, ins[k].ts);
      var ret := impl.Eval(looks[k]);
      assert impl.out == before + ret;
      outs := outs + [ret];
      OnTimeMore(inter, ins, looks, outs0, ret);
    }
    assert ins[..|ins|] == ins;
  }

  lemma NothingEmitted(inter: Interval, t: LeftTest)
    ensures U.EmittedOk(inter, t, Rights([]), Lefts([]), [])
  {}
}
