/** Aggregating one table at a time (src/aggregation_impl.h, src/aggregation_impl.cpp), and the layout of the result. */
module Aggregation {
  import opened Tables
  import opened Formulas
  import opened Joins
  import opened Meaning
  import opened AggSpec

  // ----- layout -----

  /** The columns to group by are those of the variables that stay free, in order; the result comes last. */
  ghost predicate IsAggLayout(lay: Layout, termVar: nat, resVar: nat, numBound: nat, groupIdxs: seq<nat>,
                              termIdx: nat, resLayout: Layout) {
    && InRange(groupIdxs, |lay|) && termIdx < |lay| && lay[termIdx] == termVar
    && (forall i, j :: 0 <= i < j < |groupIdxs| ==> groupIdxs[i] < groupIdxs[j])
    && (forall k :: 0 <= k < |lay| ==> (k in groupIdxs <==> lay[k] >= numBound))
    && |resLayout| == |groupIdxs| + 1 && resLayout[|groupIdxs|] == resVar
    && forall k :: 0 <= k < |groupIdxs| ==> resLayout[k] + numBound == lay[groupIdxs[k]]
  }

  /** The loop of both constructors.  The term is a variable of the aggregated formula. */
  method AggLayout(lay: Layout, termVar: nat, resVar: nat, numBound: nat)
    returns (groupIdxs: seq<nat>, termIdx: nat, resLayout: Layout, allBound: bool)
    requires DupFree(lay) && termVar in lay
    ensures IsAggLayout(lay, termVar, resVar, numBound, groupIdxs, termIdx, resLayout)
    ensures allBound <==> groupIdxs == []
  {
    groupIdxs, resLayout, allBound, termIdx := [], [], true, 0;
    for idx := 0 to |lay|
      invariant InRange(groupIdxs, idx) && |resLayout| == |groupIdxs| && (allBound <==> groupIdxs == [])
      invariant forall i, j :: 0 <= i < j < |groupIdxs| ==> groupIdxs[i] < groupIdxs[j]
      invariant forall k :: 0 <= k < idx ==> (k in groupIdxs <==> lay[k] >= numBound)
      invariant forall k :: 0 <= k < |groupIdxs| ==> resLayout[k] + numBound == lay[groupIdxs[k]]
      invariant termVar in lay[..idx] ==> termIdx < |lay| && lay[termIdx] == termVar
    {
      var x := lay[idx];
      assert lay[..idx + 1] == lay[..idx] + [x];
      if x == termVar {
        termIdx := idx;
      }
      if x >= numBound {
        groupIdxs := groupIdxs + [idx];
        resLayout := resLayout + [x - numBound];
        allBound := false;
      }
    }
    assert lay[..|lay|] == lay;
    resLayout := resLayout + [resVar];
  }

  /** The group of an assignment's row is what the assignment gives to the variables that stay free. */
  lemma GroupIsProjection(lay: Layout, termVar: nat, resVar: nat, numBound: nat, groupIdxs: seq<nat>, termIdx: nat,
                          resLayout: Layout, xs: Env, v: Env)
    requires IsAggLayout(lay, termVar, resVar, numBound, groupIdxs, termIdx, resLayout) && |xs| == numBound
    ensures FilterRow(groupIdxs, Project(lay, xs + v)) == Project(resLayout[..|groupIdxs|], v)
  {
    var g := FilterRow(groupIdxs, Project(lay, xs + v));
    forall k | 0 <= k < |groupIdxs| ensures g[k] == Lookup(v, resLayout[k]) {
      assert g[k] == Lookup(xs + v, resLayout[k] + numBound);
    }
  }

  /** Values for the bound variables that, with those of the group, give back a row. */
  lemma RowFromGroup(lay: Layout, termVar: nat, resVar: nat, numBound: nat, groupIdxs: seq<nat>, termIdx: nat,
                     resLayout: Layout, v: Env, row: Row)
    returns (xs: Env)
    requires DupFree(lay) && |row| == |lay| && IsAggLayout(lay, termVar, resVar, numBound, groupIdxs, termIdx,
             resLayout)
    requires FilterRow(groupIdxs, row) == Project(resLayout[..|groupIdxs|], v)
    ensures |xs| == numBound && row == Project(lay, xs + v)
  {
    var env := EnvOf(lay, row);
    xs := seq(numBound, k requires 0 <= k < numBound => Lookup(env, k));
    forall j | 0 <= j < |lay| ensures Lookup(xs + v, lay[j]) == row[j] {
      assert Project(lay, env)[j] == row[j];
      if lay[j] >= numBound {
        var k :| 0 <= k < |groupIdxs| && groupIdxs[k] == j;
        assert FilterRow(groupIdxs, row)[k] == Lookup(v, resLayout[k]);
      }
    }
  }

  /**
   * The rows of a group: those of the satisfying assignments that extend the
   * group's assignment by values for the bound variables.
   */
  lemma GroupRows(phi: Formula, tab: Table, tr: seq<TimePoint>, i: nat, lay: Layout, termVar: nat, resVar: nat,
                  numBound: nat, groupIdxs: seq<nat>, termIdx: nat, resLayout: Layout, v: Env, row: Row)
    requires Represents(phi, lay, tab, tr, i) && DupFree(lay)
    requires IsAggLayout(lay, termVar, resVar, numBound, groupIdxs, termIdx, resLayout)
    ensures (row in tab && |row| == |lay| && FilterRow(groupIdxs, row) == Project(resLayout[..|groupIdxs|], v))
            <==> exists xs: Env :: |xs| == numBound && row == Project(lay, xs + v) && Sat(phi, tr, i, xs + v)
  {
    assert IsAggLayout(lay, termVar, resVar, numBound, groupIdxs, termIdx, resLayout) ==> InRange(groupIdxs, |lay|);
    hide DupFree, IsAggLayout, Sat;
    if row in tab && |row| == |lay| && FilterRow(groupIdxs, row) == Project(resLayout[..|groupIdxs|], v) {
      var xs := RowFromGroup(lay, termVar, resVar, numBound, groupIdxs, termIdx, resLayout, v, row);
      assert Sat(phi, tr, i, xs + v);
    }
    if xs: Env :| |xs| == numBound && row == Project(lay, xs + v) && Sat(phi, tr, i, xs + v) {
      GroupIsProjection(lay, termVar, resVar, numBound, groupIdxs, termIdx, resLayout, xs, v);
    }
  }

  // ----- groups -----

  lemma ExtremesAdd(vs: multiset<Value>, v: Value)
    ensures forall r :: IsMin(vs, r) ==> IsMin(vs + multiset{v}, if v < r then v else r)
    ensures forall r :: IsMax(vs, r) ==> IsMax(vs + multiset{v}, if v > r then v else r)
  {
    assert forall w :: w in vs + multiset{v} <==> w in vs || w == v;
  }

  datatype BaseGroup =
    | CountBase(counter: nat)
    | AvgBase(sum: int, counter: nat)
    | CombinedBase(res: Value)
  {
    /** Does this state stand for the term values `vs`? */
    ghost predicate Stores(ty: AggType, vs: multiset<Value>) {
      |vs| > 0 &&
      match ty
      case CNT => this == CountBase(|vs|)
      case SUM => this == CombinedBase(Sum(vs))
      case AVG => this == AvgBase(Sum(vs), |vs|)
      case MIN => CombinedBase? && IsMin(vs, res)
      case MAX => CombinedBase? && IsMax(vs, res)
    }

    function AddEvent(ty: AggType, v: Value): BaseGroup {
      match this
      case CountBase(n) => CountBase(n + 1)
      case AvgBase(s, n) => AvgBase(s + v, n + 1)
      case CombinedBase(r) => CombinedBase(
        match ty
        case MIN => if v < r then v else r
        case MAX => if v > r then v else r
        case _ => r + v)
    }

    lemma AddStores(ty: AggType, vs: multiset<Value>, v: Value)
      requires Stores(ty, vs)
      ensures AddEvent(ty, v).Stores(ty, vs + multiset{v})
    {
      if ty == MIN || ty == MAX {
        ExtremesAdd(vs, v);
      } else {
        SumAdd(vs, v);
        AddThenRemove(vs, v);
      }
    }

    function FinalizeGroup(): AggResult
      requires AvgBase? ==> counter > 0
    {
      match this
      case CountBase(n) => IntResult(n)
      case AvgBase(s, n) => FloatResult(Average(s, n))
      case CombinedBase(r) => IntResult(r)
    }

    lemma Finalized(ty: AggType, vs: multiset<Value>)
      requires Stores(ty, vs)
      ensures AvgBase? ==> counter > 0
      ensures IsResult(ty, vs, FinalizeGroup())
    {}
  }

  function NewBase(ty: AggType, v: Value): BaseGroup {
    match ty
    case CNT => CountBase(1)
    case AVG => AvgBase(v, 1)
    case _ => CombinedBase(v)
  }

  lemma NewBaseStores(ty: AggType, v: Value)
    ensures NewBase(ty, v).Stores(ty, multiset{v})
  {
    SumRemove(multiset{v}, v);
    assert multiset{v} - multiset{v} == multiset{};
  }

  ghost predicate BaseOk(ty: AggType, groups: map<Row, BaseGroup>, g: Row, vs: multiset<Value>) {
    if g in groups then vs != multiset{} && groups[g].Stores(ty, vs) else vs == multiset{}
  }

  ghost predicate BasesOk(c: AggConfig, groups: map<Row, BaseGroup>, bag: multiset<Row>) {
    forall g :: BaseOk(c.ty, groups, g, Vals(c, bag, g))
  }

  function AddedBase(ty: AggType, groups: map<Row, BaseGroup>, g: Row, v: Value): map<Row, BaseGroup> {
    groups[g := if g in groups then groups[g].AddEvent(ty, v) else NewBase(ty, v)]
  }

  lemma AddedBaseOk(ty: AggType, groups: map<Row, BaseGroup>, g: Row, vs: multiset<Value>, v: Value)
    requires BaseOk(ty, groups, g, vs)
    ensures BaseOk(ty, AddedBase(ty, groups, g, v), g, vs + multiset{v})
  {
    assert v in vs + multiset{v};
    if g in groups {
      groups[g].AddStores(ty, vs, v);
    } else {
      NewBaseStores(ty, v);
      assert vs + multiset{v} == multiset{v};
    }
  }

  lemma AddKeepsBases(c: AggConfig, groups: map<Row, BaseGroup>, bag: multiset<Row>, e: Row)
    requires BasesOk(c, groups, bag) && Fits(c, e)
    ensures BasesOk(c, AddedBase(c.ty, groups, GroupOf(c, e), e[c.termIdx]), bag + multiset{e})
  {
    var g, v := GroupOf(c, e), e[c.termIdx];
    forall h ensures BaseOk(c.ty, AddedBase(c.ty, groups, g, v), h, Vals(c, bag + multiset{e}, h)) {
      ValsAdd(c, bag, e, h);
      assert BaseOk(c.ty, groups, h, Vals(c, bag, h));
      if h == g {
        AddedBaseOk(c.ty, groups, g, Vals(c, bag, g), v);
      }
    }
  }

  lemma MultisetAdd(done: set<Row>, e: Row)
    requires e !in done
    ensures multiset(done + {e}) == multiset(done) + multiset{e}
  {}

  /** The result of aggregating one table: the default value if there is nothing to group and nothing to aggregate. */
  ghost predicate OneShot(c: AggConfig, defaultVal: AggResult, rows: set<Row>, out: set<ResultRow>) {
    if rows == {} && c.groupIdxs == [] then out == {ResultRow([], defaultVal)}
    else Aggregates(c, multiset(rows), out)
  }

  class AggregationImpl {
    const config: AggConfig
    const allBound: bool
    const defaultVal: AggResult
    var groups: map<Row, BaseGroup>

    /** Between two tables there are no groups. */
    ghost predicate Valid()
      reads this
    {
      groups == map[] && (allBound <==> config.groupIdxs == [])
    }

    constructor (config: AggConfig, defaultVal: AggResult)
      ensures Valid() && this.config == config && this.defaultVal == defaultVal
    {
      this.config, this.defaultVal, allBound, groups := config, defaultVal, config.groupIdxs == [], map[];
    }

    method AddResult(g: Row, v: Value)
      modifies this
      ensures groups == AddedBase(config.ty, old(groups), g, v)
    {
      if g !in groups {
        groups := groups[g := NewBase(config.ty, v)];
      } else {
        groups := groups[g := groups[g].AddEvent(config.ty, v)];
      }
    }

    method Eval(tab: Table) returns (out: set<ResultRow>)
      requires Valid() && forall e | e in tab :: Fits(config, e)
      modifies this
      ensures Valid() && OneShot(config, defaultVal, tab, out)
    {
      if tab == {} && allBound {
        return {ResultRow([], defaultVal)};
      }
      ghost var done := {};
      var todo := tab;
      while todo != {}
        invariant done !! todo && done + todo == tab && BasesOk(config, groups, multiset(done))
      {
        var e :| e in todo;
        AddKeepsBases(config, groups, multiset(done), e);
        MultisetAdd(done, e);
        AddResult(FilterRow(config.groupIdxs, e), e[config.termIdx]);
        done, todo := done + {e}, todo - {e};
      }
      assert done == tab;
      out := FinalizeTable(multiset(tab));
    }

    method FinalizeTable(ghost bag: multiset<Row>) returns (out: set<ResultRow>)
      requires BasesOk(config, groups, bag)
      modifies this
      ensures groups == map[] && Aggregates(config, bag, out)
    {
      out := {};
      var todo := groups.Keys;
      while todo != {}
        invariant todo <= groups.Keys && groups == old(groups)
        invariant forall x: ResultRow :: x in out <==> x.group in groups && x.group !in todo
                                                       && IsResult(config.ty, Vals(config, bag, x.group), x.value)
      {
        var g :| g in todo;
        assert BaseOk(config.ty, groups, g, Vals(config, bag, g));
        groups[g].Finalized(config.ty, Vals(config, bag, g));
        var r := groups[g].FinalizeGroup();
        ResultUnique(config.ty, Vals(config, bag, g), r);
        out := out + {ResultRow(g, r)};
        todo := todo - {g};
      }
      forall x: ResultRow ensures x.group in groups <==> Vals(config, bag, x.group) != multiset{} {
        assert BaseOk(config.ty, groups, x.group, Vals(config, bag, x.group));
      }
      groups := map[];
    }
  }
}
