/**
 * A left operand `0 = 0` is compiled away: since becomes once and until becomes
 * eventually (src/monitor.h, init_since_until).  Over every run the specialised
 * operators give what the general ones give for the unit table on the left,
 * although their states differ.
 */
module Specialisation {
  import opened Wrappers
  import opened Intervals
  import opened Tables
  import opened Temporal
  import opened SinceSpec
  import opened SinceOperator
  import opened UntilOperator
  import J = Joins
  import U = UntilSpec

  const UNIT_TABLE: Table := {[]}

  /** The inputs of a run: right tables of the right arity, with timestamps that do not decrease. */
  ghost predicate Inputs(tabs: seq<Table>, ts: seq<nat>, nfvs: nat) {
    && |ts| == |tabs| && (forall k :: 0 <= k < |tabs| ==> J.RowsOf(nfvs, tabs[k]))
    && forall i, j :: 0 <= i <= j < |ts| ==> ts[i] <= ts[j]
  }

  ghost predicate FedSame(es: seq<Entry>, tabs: seq<Table>, ts: seq<nat>, k: nat) {
    |ts| == |tabs| && |es| == k <= |tabs| && forall j :: 0 <= j < k ==> es[j] == Entry(ts[j], tabs[j])
  }

  // ----- once -----

  /** Both operators have been fed the first `k` right tables. */
  ghost predicate Twins(o: SinceImpl, s: SinceImpl, inter: Interval, nfvs: nat, tabs: seq<Table>, ts: seq<nat>, k: nat)
    reads o, s, o.Hooked(), s.Hooked()
  {
    && o.Valid() && o.agg == null && o.nfvs == nfvs && o.inter == inter
    && s.Valid() && s.agg == null && s.nfvs == nfvs && s.inter == inter && s.test == LeftTest(false, [])
    && o.es == s.es && FedSame(o.es, tabs, ts, k) && |o.ls| == |s.ls| == k && AllNone(o.ls) && AllUnit(s.ls)
  }

  method OnceStep(o: SinceImpl, s: SinceImpl, ghost inter: Interval, ghost nfvs: nat, tabs: seq<Table>, ts: seq<nat>,
                  k: nat)
    returns (r1: Table, r2: Table)
    requires o != s && k < |tabs| && Inputs(tabs, ts, nfvs) && Twins(o, s, inter, nfvs, tabs, ts, k)
    modifies o, s
    ensures Twins(o, s, inter, nfvs, tabs, ts, k + 1) && r1 == r2
  {
    hide SinceImpl.Valid, SinceSat;
    assert o.Hooked() == {} && s.Hooked() == {};
    assert J.RowsOf(nfvs, tabs[k]);
    r1 := o.EvalOnce(tabs[k], ts[k]);
    r2 := s.EvalSince(UNIT_TABLE, tabs[k], ts[k]);
    SameVerdict(inter, o.test, o.es, o.ls, s.ls, r1, r2);
  }

  method OnceIsSince(inter: Interval, nfvs: nat, tabs: seq<Table>, ts: seq<nat>)
    returns (once: seq<Table>, since: seq<Table>)
    requires Inputs(tabs, ts, nfvs)
    ensures |once| == |tabs| && once == since
  {
    hide SinceImpl.Valid, Inputs;
    assert |ts| == |tabs| by { InputLengths(tabs, ts, nfvs); }
    var onceImpl := new SinceImpl(inter, LeftTest(true, []), nfvs, null);
    var sinceImpl := new SinceImpl(inter, LeftTest(false, []), nfvs, null);
    assert onceImpl.Hooked() == {} && sinceImpl.Hooked() == {};
    once, since := [], [];
    for k := 0 to |tabs|
      invariant fresh(onceImpl) && fresh(sinceImpl) && onceImpl != sinceImpl
                && Twins(onceImpl, sinceImpl, inter, nfvs, tabs, ts, k)
      invariant |once| == k && once == since
    {
      var r1, r2 := OnceStep(onceImpl, sinceImpl, inter, nfvs, tabs, ts, k);
      once, since := once + [r1], since + [r2];
    }
  }

  lemma InputLengths(tabs: seq<Table>, ts: seq<nat>, nfvs: nat)
    requires Inputs(tabs, ts, nfvs)
    ensures |ts| == |tabs|
  {}

  lemma SameVerdict(inter: Interval, t: LeftTest, es: seq<Entry>, ls: seq<Option<Table>>, ones: seq<Option<Table>>,
                    r1: Table, r2: Table)
    requires 0 < |es| == |ls| == |ones| && AllNone(ls) && AllUnit(ones)
    requires forall e :: e in r1 <==> SinceSat(inter, t, es, ls, |es| - 1, e)
    requires forall e :: e in r2 <==> SinceSat(inter, LeftTest(false, []), es, ones, |es| - 1, e)
    ensures r1 == r2
  {
    forall e ensures e in r1 <==> e in r2 {
      UnitLeftIsOnce(inter, t, es, ls, ones, |es| - 1, e);
    }
  }

  // ----- eventually -----

  /** Two operators that have seen the same right tables and timestamps have emitted the same. */
  lemma SameEmitted(inter: Interval, t: LeftTest, es: seq<Entry>, ls: seq<Option<Table>>, ones: seq<Option<Table>>,
                    look: nat, out1: seq<Table>, out2: seq<Table>)
    requires |es| == |ls| == |ones| && AllNone(ls) && AllUnit(ones)
    requires U.Horizon(inter, es, |out1|, look) && U.Horizon(inter, es, |out2|, look)
    requires U.EmittedOk(inter, t, es, ls, out1) && U.EmittedOk(inter, LeftTest(false, []), es, ones, out2)
    ensures out1 == out2
  {
    assert |out1| == |out2|;
    forall i | 0 <= i < |out1| ensures out1[i] == out2[i] {
      forall e ensures e in out1[i] <==> e in out2[i] {
        U.UnitLeftIsEventually(inter, t, es, ls, ones, i, e);
      }
    }
  }

  lemma OperatorsAgree(ev: UntilImpl, un: UntilImpl)
    requires ev.Valid() && un.Valid() && ev.inter == un.inter && un.test == LeftTest(false, [])
    requires ev.es == un.es && |ev.ls| == |un.ls| == |ev.es| && AllNone(ev.ls) && AllUnit(un.ls) && ev.look == un.look
    ensures ev.out == un.out
  {
    hide U.Sound, U.Complete, U.A1Ok, U.EmittedOk, U.Horizon;
    SameEmitted(ev.inter, ev.test, ev.es, ev.ls, un.ls, ev.look, ev.out, un.out);
  }

  /** `looks[k]` is the timestamp looked ahead to after table `k`: at least its own, at most the next one's. */
  ghost predicate Looks(ts: seq<nat>, looks: seq<nat>) {
    |looks| == |ts| && forall k :: 0 <= k < |ts| ==> ts[k] <= looks[k] && (k + 1 < |ts| ==> looks[k] <= ts[k + 1])
  }

  /** Both operators have been fed the same right tables and have handed out the same results. */
  ghost predicate FutureTwins(ev: UntilImpl, un: UntilImpl, inter: Interval, nfvs: nat)
    reads ev, un
  {
    && ev.Valid() && ev.NoLeft() && ev.nfvs == nfvs && ev.inter == inter
    && un.Valid() && un.nfvs == nfvs && un.inter == inter && un.test == LeftTest(false, [])
    && ev.es == un.es && |ev.ls| == |un.ls| == |ev.es| && AllUnit(un.ls) && ev.look == un.look
        && ev.returned == un.returned
  }

  method EventuallyStep(ev: UntilImpl, un: UntilImpl, tab: Table, t: nat, look: nat, ghost inter: Interval,
                        ghost nfvs: nat)
    returns (r1: seq<Table>, r2: seq<Table>)
    requires ev != un && FutureTwins(ev, un, inter, nfvs) && J.RowsOf(nfvs, tab) && ev.look <= t <= look
    modifies ev, un
    ensures FutureTwins(ev, un, inter, nfvs) && ev.look == look && r1 == r2
  {
    hide UntilImpl.Valid;
    ev.AddRightTable(tab, t);
    un.AddTables(UNIT_TABLE, tab, t);
    r1 := ev.Eval(look);
    r2 := un.Eval(look);
    OperatorsAgree(ev, un);
  }

  method EventuallyIsUntil(inter: Interval, nfvs: nat, tabs: seq<Table>, ts: seq<nat>, looks: seq<nat>)
    returns (eventually: seq<seq<Table>>, until: seq<seq<Table>>)
    requires Inputs(tabs, ts, nfvs) && Looks(ts, looks)
    ensures |eventually| == |tabs| && eventually == until
  {
    hide UntilImpl.Valid;
    var ev := new UntilImpl(inter, LeftTest(true, []), nfvs);
    var un := new UntilImpl(inter, LeftTest(false, []), nfvs);
    eventually, until := [], [];
    for k := 0 to |tabs|
      invariant fresh(ev) && fresh(un) && ev != un && FutureTwins(ev, un, inter, nfvs)
      invariant k < |tabs| ==> ev.look <= ts[k]
      invariant |eventually| == k && eventually == until
    {
      var r1, r2 := EventuallyStep(ev, un, tabs[k], ts[k], looks[k], inter, nfvs);
      eventually, until := eventually + [r1], until + [r2];
    }
  }
}
