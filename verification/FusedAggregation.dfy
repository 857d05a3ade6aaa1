/**
 * The aggregator fused into since and once against aggregating the plain
 * result of the same operator, over whole runs.
 */
module FusedAggregation {
  import opened Wrappers
  import opened Intervals
  import opened Tables
  import opened Temporal
  import J = Joins
  import opened AggSpec
  import opened SinceSpec
  import opened SinceOperator
  import opened TemporalAggregation
  import opened Aggregation

  /** One time point: the left operand (`None` for once), the right operand and the timestamp. */
  datatype Input = Input(left: Option<Table>, right: Table, ts: nat)

  ghost predicate Inputs(ins: seq<Input>, nfvs: nat) {
    && (forall k :: 0 <= k < |ins| ==> J.RowsOf(nfvs, ins[k].right))
    && (forall i, j :: 0 <= i <= j < |ins| ==> ins[i].ts <= ins[j].ts)
  }

  function Entries(ins: seq<Input>, k: nat): (es: seq<Entry>)
    requires k <= |ins|
    ensures |es| == k && forall j :: 0 <= j < k ==> es[j] == Entry(ins[j].ts, ins[j].right)
  {
    seq(k, j requires 0 <= j < k => Entry(ins[j].ts, ins[j].right))
  }

  function Lefts(ins: seq<Input>, k: nat): (ls: seq<Option<Table>>)
    requires k <= |ins|
    ensures |ls| == k && forall j :: 0 <= j < k ==> ls[j] == ins[j].left
  {
    seq(k, j requires 0 <= j < k => ins[j].left)
  }

  lemma HistoryGrows(ins: seq<Input>, k: nat)
    requires k < |ins|
    ensures Entries(ins, k + 1) == Entries(ins, k) + [Entry(ins[k].ts, ins[k].right)]
    ensures Lefts(ins, k + 1) == Lefts(ins, k) + [ins[k].left]
  {}

  /** The rows in the window that an empty positive left table clears at input `k`. */
  ghost function ClearedRows(inter: Interval, t: LeftTest, ins: seq<Input>, k: nat): set<Row>
    requires k < |ins|
  {
    if ins[k].left == Some({}) && !t.negated then
      set j, e | 0 <= j < k && e in ins[j].right && Pending(inter, t, Entries(ins, k), Lefts(ins, k), ins[k].ts, e) :: e
    else {}
  }

  lemma ClearedPending(inter: Interval, t: LeftTest, ins: seq<Input>, k: nat)
    requires k < |ins| && ins[k].left == Some({}) && !t.negated
    ensures PendingRows(inter, t, Entries(ins, k), Lefts(ins, k), ins[k].ts, ClearedRows(inter, t, ins, k))
  {
    var es, ls := Entries(ins, k), Lefts(ins, k);
    forall e | Pending(inter, t, es, ls, ins[k].ts, e) ensures e in ClearedRows(inter, t, ins, k) {
      var j :| 0 <= j < |es| && inter.Contains(ins[k].ts - es[j].ts) && Justified(t, es, ls, j, e);
      assert e in ins[j].right;
    }
  }

  /** All rows cleared by the first `k` inputs: the aggregator still has them. */
  ghost function StaleRows(inter: Interval, t: LeftTest, ins: seq<Input>, k: nat): multiset<Row>
    requires k <= |ins|
  {
    if k == 0 then multiset{} else StaleRows(inter, t, ins, k - 1) + multiset(ClearedRows(inter, t, ins, k - 1))
  }

  lemma {:induction false} StaleFit(inter: Interval, t: LeftTest, ins: seq<Input>, k: nat, nfvs: nat)
    requires k <= |ins| && Inputs(ins, nfvs)
    ensures forall e | e in StaleRows(inter, t, ins, k) :: |e| == nfvs
  {
    if k > 0 {
      StaleFit(inter, t, ins, k - 1, nfvs);
      forall e | e in ClearedRows(inter, t, ins, k - 1) ensures |e| == nfvs {
        var j :| 0 <= j < k - 1 && e in ins[j].right;
        assert J.RowsOf(nfvs, ins[j].right);
      }
    }
  }

  /** Two inputs at the same time: a row that the left operand admits, and one with an empty left table. */
  function TwoInputs(second: Table): (ins: seq<Input>)
    ensures |ins| == 2
  {
    [Input(Some({[]}), {[1, 5]}, 5), Input(Some({}), second, 5)]
  }

  /** It happens: the second, empty left table clears the row of the first right table. */
  lemma ClearingRun()
    ensures Inputs(TwoInputs({}), 2)
    ensures StaleRows(Interval(0, 0, false), LeftTest(false, []), TwoInputs({}), 2) == multiset{[1, 5]}
    ensures SatisfyingRows(Interval(0, 0, false), LeftTest(false, []), TwoInputs({}), 1, {})
  {
    var inter, t, e: Row := Interval(0, 0, false), LeftTest(false, []), [1, 5];
    var ins := TwoInputs({});
    assert Justified(t, Entries(ins, 1), Lefts(ins, 1), 0, e);
    assert Pending(inter, t, Entries(ins, 1), Lefts(ins, 1), ins[1].ts, e);
    assert ClearedRows(inter, t, ins, 0) == {};
    assert ClearedRows(inter, t, ins, 1) == {e};
    assert StaleRows(inter, t, ins, 1) == StaleRows(inter, t, ins, 0) + multiset({}) == multiset{};
    assert StaleRows(inter, t, ins, 2) == multiset{} + multiset({e}) == multiset{e};
    var es, ls := Entries(ins, 2), Lefts(ins, 2);
    forall f ensures !SinceSat(inter, t, es, ls, 1, f) {
      assert !LeftOk(t, ls[1], f);
      assert f !in es[1].tab;
    }
  }

  // ----- one group -----

  /** Stale values `ws` do not show in the result of a group with values `vs`. */
  ghost predicate Hidden(ty: AggType, vs: multiset<Value>, ws: multiset<Value>) {
    vs != multiset{} &&
    match ty
    case CNT => false
    case AVG => Sum(ws) * |vs| == Sum(vs) * |ws|
    case SUM => Sum(ws) == 0
    case MIN => forall w | w in ws :: exists v | v in vs :: v <= w
    case MAX => forall w | w in ws :: exists v | v in vs :: w <= v
  }

  lemma {:induction false} SumUnion(a: multiset<Value>, b: multiset<Value>)
    ensures Sum(a + b) == Sum(a) + Sum(b)
    decreases |b|
  {
    if |b| == 0 {
      assert b == multiset{} && a + b == a;
    } else {
      var v := Pick(b);
      SumRemove(a + b, v);
      assert a + b - multiset{v} == a + (b - multiset{v});
      SumUnion(a, b - multiset{v});
    }
  }

  lemma {:induction false} LeastValue(vs: multiset<Value>) returns (v: Value)
    requires vs != multiset{}
    ensures IsMin(vs, v)
    decreases |vs|
  {
    var w := Pick(vs);
    var rest := vs - multiset{w};
    assert forall x | x in vs :: x == w || x in rest;
    if rest == multiset{} {
      v := w;
    } else {
      var u := LeastValue(rest);
      v := if u <= w then u else w;
    }
  }

  lemma {:induction false} GreatestValue(vs: multiset<Value>) returns (v: Value)
    requires vs != multiset{}
    ensures IsMax(vs, v)
    decreases |vs|
  {
    var w := Pick(vs);
    var rest := vs - multiset{w};
    assert forall x | x in vs :: x == w || x in rest;
    if rest == multiset{} {
      v := w;
    } else {
      var u := GreatestValue(rest);
      v := if w <= u then u else w;
    }
  }

  lemma SomeResult(ty: AggType, vs: multiset<Value>) returns (r: AggResult)
    requires vs != multiset{}
    ensures IsResult(ty, vs, r)
  {
    match ty
    case CNT => r := IntResult(|vs|);
    case SUM => r := IntResult(Sum(vs));
    case AVG => r := FloatResult(Average(Sum(vs), |vs|));
    case MIN => var v := LeastValue(vs); r := IntResult(v);
    case MAX => var v := GreatestValue(vs); r := IntResult(v);
  }

  /** The group has the same result with and without further values `ws`, or none both times. */
  ghost predicate SameResults(ty: AggType, vs: multiset<Value>, ws: multiset<Value>) {
    forall r :: vs + ws != multiset{} && IsResult(ty, vs + ws, r) <==> vs != multiset{} && IsResult(ty, vs, r)
  }

  lemma MinHidden(vs: multiset<Value>, ws: multiset<Value>, v0: Value, v: Value)
    requires IsMin(vs, v0) && IsMin(vs + ws, v)
    ensures v == v0 <==> forall w | w in ws :: exists u | u in vs :: u <= w
  {
    assert v in vs || v in ws;
    assert v0 in vs + ws;
    forall w | w in ws ensures w in vs + ws {}
  }

  lemma MaxHidden(vs: multiset<Value>, ws: multiset<Value>, v0: Value, v: Value)
    requires IsMax(vs, v0) && IsMax(vs + ws, v)
    ensures v == v0 <==> forall w | w in ws :: exists u | u in vs :: w <= u
  {
    assert v in vs || v in ws;
    assert v0 in vs + ws;
    forall w | w in ws ensures w in vs + ws {}
  }

  /** Further values leave an average as it is exactly if they have the same average. */
  lemma AverageIff(s: int, m: nat, t: int, n: nat, u: int, k: nat)
    requires m > 0 && u == s + t && k == m + n
    ensures Average(u, k) == Average(s, m) <==> t * m == s * n
  {
    AverageCross(s, m, u, k);
    assert u * m == s * m + t * m && s * k == s * m + s * n;
  }

  lemma AverageCross(s: int, m: nat, u: int, k: nat)
    requires m > 0 && k > 0
    ensures Average(s, m) == Average(u, k) <==> u * m == s * k
  {
    var a, b, x, y := Average(s, m), Average(u, k), m as real, k as real;
    assert a * x == s as real && b * y == u as real;
    assert (u * m) as real == b * y * x && (s * k) as real == a * x * y;
    assert b * y * x == a * x * y <==> b == a;
  }

  lemma AverageHidden(vs: multiset<Value>, ws: multiset<Value>)
    requires |vs| > 0 && |ws| > 0
    ensures |vs + ws| > 0
    ensures Average(Sum(vs + ws), |vs + ws|) == Average(Sum(vs), |vs|) <==> Sum(ws) * |vs| == Sum(vs) * |ws|
  {
    hide Sum, Average;
    SumUnion(vs, ws);
    AverageIff(Sum(vs), |vs|, Sum(ws), |ws|, Sum(vs + ws), |vs + ws|);
  }

  lemma SameResultIff(ty: AggType, vs: multiset<Value>, ws: multiset<Value>, r0: AggResult, r: AggResult)
    requires vs != multiset{} && ws != multiset{} && IsResult(ty, vs, r0) && IsResult(ty, vs + ws, r)
    ensures r == r0 <==> Hidden(ty, vs, ws)
  {
    hide IsMin, IsMax;
    match ty
    case MIN => MinHidden(vs, ws, r0.i, r.i);
    case MAX => MaxHidden(vs, ws, r0.i, r.i);
    case AVG => AverageHidden(vs, ws);
    case _ =>
      SumUnion(vs, ws);
      assert |vs + ws| == |vs| + |ws| > |vs|;
  }

  lemma HiddenIff(ty: AggType, vs: multiset<Value>, ws: multiset<Value>)
    requires ws != multiset{}
    ensures SameResults(ty, vs, ws) <==> Hidden(ty, vs, ws)
  {
    var all := vs + ws;
    var r := SomeResult(ty, all);
    if vs != multiset{} {
      var r0 := SomeResult(ty, vs);
      SameResultIff(ty, vs, ws, r0, r);
      ResultUnique(ty, vs, r0);
      ResultUnique(ty, all, r);
      hide IsResult, Hidden;
      assert SameResults(ty, vs, ws) <==> r == r0;
    }
  }

  // ----- one time point -----

  lemma {:induction false} TotalSum<T(!new)>(share: T -> multiset<Value>, a: multiset<T>, b: multiset<T>)
    ensures Total(share, a + b) == Total(share, a) + Total(share, b)
    decreases |b|
  {
    if |b| == 0 {
      assert b == multiset{} && a + b == a;
    } else {
      var e := Pick(b);
      TotalRemove(share, a + b, e);
      TotalRemove(share, b, e);
      assert a + b - multiset{e} == a + (b - multiset{e});
      TotalSum(share, a, b - multiset{e});
      SumSwap(Total(share, a), share(e), Total(share, b - multiset{e}));
    }
  }

  /** A group has values exactly if it has rows. */
  lemma {:induction false} ValsOccur(c: AggConfig, bag: multiset<Row>, g: Row)
    ensures Vals(c, bag, g) != multiset{} <==> exists e | e in bag :: Fits(c, e) && GroupOf(c, e) == g
    decreases |bag|
  {
    if |bag| > 0 {
      var e := Pick(bag);
      ValsOccur(c, bag - multiset{e}, g);
      assert forall f | f in bag :: f == e || f in bag - multiset{e};
      assert Vals(c, bag, g) == Share(c, g)(e) + Vals(c, bag - multiset{e}, g);
    }
  }

  /**
   * The stale rows do not show: every group that they belong to hides them.  With
   * nothing to group and no satisfying row, the fused aggregator never gives the
   * default value itself, so stale rows have to aggregate to it.
   */
  ghost predicate Unnoticed(c: AggConfig, defaultVal: AggResult, rows: set<Row>, stale: multiset<Row>) {
    if rows == {} && c.groupIdxs == [] then stale != multiset{} && IsResult(c.ty, Vals(c, stale, []), defaultVal)
    else AllHidden(c, multiset(rows), stale)
  }

  /** Every group that a stale row belongs to hides its stale values. */
  ghost predicate AllHidden(c: AggConfig, rows: multiset<Row>, stale: multiset<Row>) {
    forall e | e in stale && Fits(c, e) :: Hidden(c.ty, Vals(c, rows, GroupOf(c, e)), Vals(c, stale, GroupOf(c, e)))
  }

  /** Without rows and groups: the aggregate of the stale rows against the default value. */
  lemma DefaultIff(c: AggConfig, defaultVal: AggResult, stale: multiset<Row>, fused: set<ResultRow>)
    requires Aggregates(c, stale, fused) && c.groupIdxs == [] && forall e | e in stale :: Fits(c, e)
    ensures fused == {ResultRow([], defaultVal)} <==>
            stale != multiset{} && IsResult(c.ty, Vals(c, stale, []), defaultVal)
  {
    hide Vals, IsResult;
    ValsOccur(c, stale, []);
    assert forall e | e in stale :: GroupOf(c, e) == [];
    if stale != multiset{} {
      var e := Pick(stale);
      assert Vals(c, stale, []) != multiset{};
      forall x: ResultRow ensures x in fused <==> x.group == [] && IsResult(c.ty, Vals(c, stale, []), x.value) {
        ValsOccur(c, stale, x.group);
      }
      assert ResultRow([], defaultVal) in fused <==> IsResult(c.ty, Vals(c, stale, []), defaultVal);
      if IsResult(c.ty, Vals(c, stale, []), defaultVal) {
        ResultUnique(c.ty, Vals(c, stale, []), defaultVal);
      }
    } else {
      assert ResultRow([], defaultVal) !in fused;
    }
  }

  /** The aggregates with and without stale rows are the same exactly if the stale rows do not show in any group. */
  lemma GroupsIff(c: AggConfig, rows: multiset<Row>, stale: multiset<Row>, fused: set<ResultRow>,
                  plain: set<ResultRow>)
    requires Aggregates(c, rows + stale, fused) && Aggregates(c, rows, plain) && forall e | e in stale :: Fits(c, e)
    ensures fused == plain <==> AllHidden(c, rows, stale)
  {
    hide Vals, IsResult, Hidden, GroupOf;
    forall g: Row ensures Vals(c, rows + stale, g) == Vals(c, rows, g) + Vals(c, stale, g) {
      ValsUnion(c, rows, stale, g);
    }
    forall e | e in stale && fused == plain
      ensures Hidden(c.ty, Vals(c, rows, GroupOf(c, e)), Vals(c, stale, GroupOf(c, e)))
    {
      var g := GroupOf(c, e);
      ValsOccur(c, stale, g);
      var vs, ws := Vals(c, rows, g), Vals(c, stale, g);
      forall r
        ensures vs + ws != multiset{} && IsResult(c.ty, vs + ws, r) <==> vs != multiset{} && IsResult(c.ty, vs, r)
      {
        assert ResultRow(g, r) in fused <==> ResultRow(g, r) in plain;
      }
      assert SameResults(c.ty, Vals(c, rows, g), Vals(c, stale, g));
      HiddenIff(c.ty, Vals(c, rows, g), Vals(c, stale, g));
    }
    if AllHidden(c, rows, stale) {
      forall x: ResultRow ensures x in fused <==> x in plain {
        var g := x.group;
        ValsOccur(c, stale, g);
        if Vals(c, stale, g) == multiset{} {
          assert Vals(c, rows + stale, g) == Vals(c, rows, g);
        } else {
          HiddenIff(c.ty, Vals(c, rows, g), Vals(c, stale, g));
        }
      }
    }
  }

  lemma ValsUnion(c: AggConfig, rows: multiset<Row>, stale: multiset<Row>, g: Row)
    ensures Vals(c, rows + stale, g) == Vals(c, rows, g) + Vals(c, stale, g)
  {
    TotalSum(Share(c, g), rows, stale);
  }

  /** When both ways of aggregating give the same table, for any rows and any stale rows. */
  lemma FusedIff(c: AggConfig, defaultVal: AggResult, rows: set<Row>, stale: multiset<Row>, fused: set<ResultRow>,
                 plain: set<ResultRow>)
    requires Aggregates(c, multiset(rows) + stale, fused) && OneShot(c, defaultVal, rows, plain)
    requires forall e | e in stale :: Fits(c, e)
    ensures fused == plain <==> Unnoticed(c, defaultVal, rows, stale)
  {
    if rows == {} && c.groupIdxs == [] {
      assert multiset(rows) + stale == stale;
      DefaultIff(c, defaultVal, stale, fused);
    } else {
      GroupsIff(c, multiset(rows), stale, fused, plain);
    }
  }

  // ----- whole runs -----

  /** The rows that satisfy the formula at input `k`. */
  ghost predicate SatisfyingRows(inter: Interval, t: LeftTest, ins: seq<Input>, k: nat, rows: set<Row>)
    requires k < |ins|
  {
    forall e :: e in rows <==> SinceSat(inter, t, Entries(ins, k + 1), Lefts(ins, k + 1), k, e)
  }

  lemma StaleStep(impl: SinceImpl, ins: seq<Input>, k: nat, stale0: multiset<Row>, stale1: multiset<Row>)
    requires k < |ins| && stale0 == StaleRows(impl.inter, impl.test, ins, k)
    requires impl.Cleared(ins[k].left, Entries(ins, k), Lefts(ins, k), ins[k].ts, stale0, stale1)
    ensures stale1 == StaleRows(impl.inter, impl.test, ins, k + 1)
  {
    if ins[k].left == Some({}) && !impl.test.negated {
      ClearedPending(impl.inter, impl.test, ins, k);
      var rows: set<Row> :| stale1 == stale0 + multiset(rows)
                            && PendingRows(impl.inter, impl.test, Entries(ins, k), Lefts(ins, k), ins[k].ts, rows);
      assert rows == ClearedRows(impl.inter, impl.test, ins, k);
    }
  }

  /** An operator that has been fed the first `k` inputs. */
  ghost predicate FedUpTo(impl: SinceImpl, ins: seq<Input>, k: nat, inter: Interval, test: LeftTest, nfvs: nat)
    reads impl, impl.Hooked()
  {
    && impl.Valid() && impl.inter == inter && impl.test == test && impl.nfvs == nfvs
    && k <= |ins| && impl.es == Entries(ins, k) && impl.ls == Lefts(ins, k)
  }

  method FusedStep(impl: SinceImpl, agg: TemporalAgg, ins: seq<Input>, k: nat, ghost inter: Interval,
                   ghost test: LeftTest, ghost nfvs: nat)
    returns (out: set<ResultRow>, ghost rows: set<Row>)
    requires k < |ins| && Inputs(ins, nfvs) && impl.agg == agg && FedUpTo(impl, ins, k, inter, test, nfvs)
    requires impl.stale == StaleRows(inter, test, ins, k)
    modifies impl, agg
    ensures FedUpTo(impl, ins, k + 1, inter, test, nfvs) && impl.stale == StaleRows(inter, test, ins, k + 1)
    ensures SatisfyingRows(inter, test, ins, k, rows) && Aggregates(agg.config, multiset(rows) + impl.stale, out)
  {
    hide SinceImpl.Valid, SinceImpl.Cleared, StaleRows, Aggregates, SinceSat;
    HistoryGrows(ins, k);
    ghost var stale0 := impl.stale;
    assert J.RowsOf(nfvs, ins[k].right);
    out, rows := impl.EvalAgg(ins[k].left, ins[k].right, ins[k].ts);
    StaleStep(impl, ins, k, stale0, impl.stale);
  }

  method PlainStep(impl: SinceImpl, agg: AggregationImpl, ins: seq<Input>, k: nat, ghost inter: Interval,
                   ghost test: LeftTest, ghost nfvs: nat)
    returns (out: set<ResultRow>, rows: set<Row>)
    requires k < |ins| && Inputs(ins, nfvs) && impl.agg == null && FedUpTo(impl, ins, k, inter, test, nfvs)
    requires agg.Valid() && InRange(agg.config.groupIdxs, nfvs) && agg.config.termIdx < nfvs
    modifies impl, agg
    ensures FedUpTo(impl, ins, k + 1, inter, test, nfvs) && agg.Valid()
    ensures SatisfyingRows(inter, test, ins, k, rows) && OneShot(agg.config, agg.defaultVal, rows, out)
  {
    hide SinceImpl.Valid, AggregationImpl.Valid, OneShot, SinceSat;
    HistoryGrows(ins, k);
    assert impl.Hooked() == {};
    assert J.RowsOf(nfvs, ins[k].right);
    var tab;
    match ins[k].left {
      case Some(tabL) => tab := impl.EvalSince(tabL, ins[k].right, ins[k].ts);
      case None => tab := impl.EvalOnce(ins[k].right, ins[k].ts);
    }
    assert SatisfyingRows(inter, test, ins, k, tab);
    SatisfyingFit(inter, test, ins, k, nfvs, tab);
    rows := tab;
    out := agg.Eval(tab);
  }

  lemma SatisfyingFit(inter: Interval, t: LeftTest, ins: seq<Input>, k: nat, nfvs: nat, rows: set<Row>)
    requires k < |ins| && Inputs(ins, nfvs) && SatisfyingRows(inter, t, ins, k, rows)
    ensures forall e | e in rows :: |e| == nfvs
  {
    forall e | e in rows ensures |e| == nfvs {
      assert SinceSat(inter, t, Entries(ins, k + 1), Lefts(ins, k + 1), k, e);
      var es, ls := Entries(ins, k + 1), Lefts(ins, k + 1);
      var j :| 0 <= j <= k && inter.Contains(es[k].ts - es[j].ts) && e in es[j].tab
               && forall h :: j < h <= k ==> LeftOk(t, ls[h], e);
      assert J.RowsOf(nfvs, ins[j].right);
    }
  }

  method NewOperator(inter: Interval, test: LeftTest, nfvs: nat, agg: TemporalAgg?, ghost ins: seq<Input>)
    returns (impl: SinceImpl)
    requires InRange(test.idx, nfvs)
    requires agg != null ==> agg.Valid() && agg.bag == multiset{}
    requires agg != null ==> InRange(agg.config.groupIdxs, nfvs) && agg.config.termIdx < nfvs
    ensures fresh(impl) && impl.agg == agg && FedUpTo(impl, ins, 0, inter, test, nfvs)
    ensures impl.stale == StaleRows(inter, test, ins, 0)
  {
    impl := new SinceImpl(inter, test, nfvs, agg);
  }

  /**
   * The results for the first `|rows|` inputs: the fused aggregate covers the stale
   * rows, the other one does not, and they are the same exactly if this does not show.
   */
  ghost predicate Compared(inter: Interval, t: LeftTest, c: AggConfig, defaultVal: AggResult, ins: seq<Input>,
                           fused: seq<set<ResultRow>>, plain: seq<set<ResultRow>>, rows: seq<set<Row>>) {
    && |fused| == |plain| == |rows| <= |ins|
    && forall k :: 0 <= k < |rows| ==> ComparedAt(inter, t, c, defaultVal, ins, k, fused[k], plain[k], rows[k])
  }

  ghost predicate ComparedAt(inter: Interval, t: LeftTest, c: AggConfig, defaultVal: AggResult, ins: seq<Input>, k: nat,
                             fused: set<ResultRow>, plain: set<ResultRow>, rows: set<Row>)
    requires k < |ins|
  {
    && SatisfyingRows(inter, t, ins, k, rows)
    && OneShot(c, defaultVal, rows, plain)
    && Aggregates(c, multiset(rows) + StaleRows(inter, t, ins, k + 1), fused)
    && (fused == plain <==> Unnoticed(c, defaultVal, rows, StaleRows(inter, t, ins, k + 1)))
  }

  lemma StepCompared(inter: Interval, t: LeftTest, c: AggConfig, defaultVal: AggResult, ins: seq<Input>, k: nat,
                     nfvs: nat, rows: set<Row>, rows': set<Row>, fused: set<ResultRow>, plain: set<ResultRow>)
    requires k < |ins| && Inputs(ins, nfvs) && InRange(c.groupIdxs, nfvs) && c.termIdx < nfvs
    requires SatisfyingRows(inter, t, ins, k, rows) && SatisfyingRows(inter, t, ins, k, rows')
    requires Aggregates(c, multiset(rows') + StaleRows(inter, t, ins, k + 1), fused)
    requires OneShot(c, defaultVal, rows, plain)
    ensures ComparedAt(inter, t, c, defaultVal, ins, k, fused, plain, rows)
  {
    assert rows == rows';
    hide OneShot, Aggregates, SinceSat, StaleRows, Unnoticed;
    StaleFit(inter, t, ins, k + 1, nfvs);
    FusedIff(c, defaultVal, rows, StaleRows(inter, t, ins, k + 1), fused, plain);
  }

  lemma ComparedMore(inter: Interval, t: LeftTest, c: AggConfig, defaultVal: AggResult, ins: seq<Input>,
                     fused: seq<set<ResultRow>>, plain: seq<set<ResultRow>>, rows: seq<set<Row>>, f: set<ResultRow>,
                     p: set<ResultRow>, r: set<Row>)
    requires Compared(inter, t, c, defaultVal, ins, fused, plain, rows) && |rows| < |ins|
    requires ComparedAt(inter, t, c, defaultVal, ins, |rows|, f, p, r)
    ensures Compared(inter, t, c, defaultVal, ins, fused + [f], plain + [p], rows + [r])
  {
    hide ComparedAt;
  }

  lemma OneRowVals(c: AggConfig, e: Row)
    requires Fits(c, e)
    ensures Vals(c, multiset{e}, GroupOf(c, e)) == multiset{e[c.termIdx]} && Sum(multiset{e[c.termIdx]}) == e[c.termIdx]
  {
    ValsAdd(c, multiset{}, e, GroupOf(c, e));
    assert multiset{} + multiset{e} == multiset{e};
    SumAdd(multiset{}, e[c.termIdx]);
    assert multiset{} + multiset{e[c.termIdx]} == multiset{e[c.termIdx]};
  }

  lemma OneRowTwice(c: AggConfig, defaultVal: AggResult, e: Row)
    requires Fits(c, e) && (c.ty == AVG || c.ty == CNT)
    ensures Unnoticed(c, defaultVal, {e}, multiset{e}) <==> c.ty == AVG
  {
    OneRowVals(c, e);
    assert multiset({e}) == multiset{e};
    hide Vals, Sum;
    var vs := Vals(c, multiset{e}, GroupOf(c, e));
    assert |vs| == 1 && Hidden(c.ty, vs, vs) <==> c.ty == AVG;
  }

  /**
   * Stale rows may go unnoticed: the row that the second input clears is in its right
   * table again, so the fused average is taken over it twice.  A count shows it.
   */
  lemma SameAverage()
    ensures Inputs(TwoInputs({[1, 5]}), 2)
    ensures SatisfyingRows(Interval(0, 0, false), LeftTest(false, []), TwoInputs({[1, 5]}), 1, {[1, 5]})
    ensures StaleRows(Interval(0, 0, false), LeftTest(false, []), TwoInputs({[1, 5]}), 2) == multiset{[1, 5]}
    ensures forall d :: Unnoticed(AggConfig(AVG, [0], 1), d, {[1, 5]}, multiset{[1, 5]})
    ensures forall d :: !Unnoticed(AggConfig(CNT, [0], 1), d, {[1, 5]}, multiset{[1, 5]})
  {
    var inter, t, e: Row := Interval(0, 0, false), LeftTest(false, []), [1, 5];
    var ins := TwoInputs({e});
    assert Justified(t, Entries(ins, 1), Lefts(ins, 1), 0, e);
    assert Pending(inter, t, Entries(ins, 1), Lefts(ins, 1), ins[1].ts, e);
    assert ClearedRows(inter, t, ins, 0) == {};
    assert ClearedRows(inter, t, ins, 1) == {e};
    assert StaleRows(inter, t, ins, 1) == StaleRows(inter, t, ins, 0) + multiset({}) == multiset{};
    assert StaleRows(inter, t, ins, 2) == multiset{} + multiset({e}) == multiset{e};
    var es, ls := Entries(ins, 2), Lefts(ins, 2);
    forall f ensures SinceSat(inter, t, es, ls, 1, f) <==> f == e {
      assert inter.Contains(es[1].ts - es[1].ts) && (f in es[1].tab <==> f == e);
    }
    forall d ensures Unnoticed(AggConfig(AVG, [0], 1), d, {e}, multiset{e})
                     && !Unnoticed(AggConfig(CNT, [0], 1), d, {e}, multiset{e}) {
      OneRowTwice(AggConfig(AVG, [0], 1), d, e);
      OneRowTwice(AggConfig(CNT, [0], 1), d, e);
    }
  }

  /**
   * Both ways of computing an aggregate of since or once over the same inputs:
   * with the aggregator fused into the operator, and by aggregating the plain
   * result.
   */
  method CompareRuns(inter: Interval, test: LeftTest, nfvs: nat, config: AggConfig, defaultVal: AggResult,
                     ins: seq<Input>)
    returns (fused: seq<set<ResultRow>>, plain: seq<set<ResultRow>>, rows: seq<set<Row>>)
    requires InRange(test.idx, nfvs) && InRange(config.groupIdxs, nfvs) && config.termIdx < nfvs && Inputs(ins, nfvs)
    ensures |rows| == |ins| && Compared(inter, test, config, defaultVal, ins, fused, plain, rows)
  {
    hide OneShot, Aggregates, ComparedAt, SatisfyingRows, Inputs, Compared, FedUpTo, StaleRows;
    var oneShot := new AggregationImpl(config, defaultVal);
    var plainImpl := NewOperator(inter, test, nfvs, null, ins);
    var agg := new TemporalAgg(config);
    var fusedImpl := NewOperator(inter, test, nfvs, agg, ins);
    assert plainImpl.Hooked() == {} && fusedImpl.Hooked() == {agg};
    fused, plain, rows := [], [], [];
    NothingCompared(inter, test, config, defaultVal, ins);
    for k := 0 to |ins|
      invariant fresh(agg) && fresh(fusedImpl) && fresh(plainImpl) && fresh(oneShot)
      invariant fusedImpl.agg == agg && plainImpl.agg == null && agg.config == config
      invariant oneShot.Valid() && oneShot.config == config && oneShot.defaultVal == defaultVal
      invariant FedUpTo(fusedImpl, ins, k, inter, test, nfvs) && fusedImpl.stale == StaleRows(inter, test, ins, k)
      invariant FedUpTo(plainImpl, ins, k, inter, test, nfvs)
      invariant |rows| == k && Compared(inter, test, config, defaultVal, ins, fused, plain, rows)
    {
      var f, satisfying := FusedStep(fusedImpl, agg, ins, k, inter, test, nfvs);
      var p, plainRows := PlainStep(plainImpl, oneShot, ins, k, inter, test, nfvs);
      StepCompared(inter, test, config, defaultVal, ins, k, nfvs, plainRows, satisfying, f, p);
      ComparedMore(inter, test, config, defaultVal, ins, fused, plain, rows, f, p, plainRows);
      fused, plain, rows := fused + [f], plain + [p], rows + [plainRows];
    }
  }

  lemma NothingCompared(inter: Interval, t: LeftTest, c: AggConfig, defaultVal: AggResult, ins: seq<Input>)
    ensures Compared(inter, t, c, defaultVal, ins, [], [], [])
  {}
}
