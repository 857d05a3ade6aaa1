/**
 * The incremental aggregator fused into since and once
 * (src/temporal_aggregation_impl.h, src/temporal_aggregation_impl.cpp).
 */
module TemporalAggregation {
  import opened Tables
  import opened AggSpec

  /** `counted_group<...>`: the nested group state and how many rows it covers. */
  datatype Group =
    | CountGroup(counter: nat)
    | SumGroup(res: int, counter: nat)
    | AvgGroup(sum: int, count: nat, counter: nat)
    | MinMaxGroup(values: multiset<Value>, counter: nat)
  {
    /** Does this state stand for the term values `vs`? */
    ghost predicate Stores(ty: AggType, vs: multiset<Value>) {
      counter == |vs| && vs != multiset{} &&
      match ty
      case CNT => CountGroup?
      case SUM => SumGroup? && res == Sum(vs)
      case AVG => AvgGroup? && sum == Sum(vs) && count == |vs|
      case MIN => MinMaxGroup? && values == vs
      case MAX => MinMaxGroup? && values == vs
    }

    function AddEvent(v: Value): Group {
      match this
      case CountGroup(n) => CountGroup(n + 1)
      case SumGroup(r, n) => SumGroup(r + v, n + 1)
      case AvgGroup(s, k, n) => AvgGroup(s + v, k + 1, n + 1)
      case MinMaxGroup(vs, n) => MinMaxGroup(vs + multiset{v}, n + 1)
    }

    function RemoveEvent(v: Value): Group
      requires counter > 0 && (AvgGroup? ==> count > 0)
    {
      match this
      case CountGroup(n) => CountGroup(n - 1)
      case SumGroup(r, n) => SumGroup(r - v, n - 1)
      case AvgGroup(s, k, n) => AvgGroup(s - v, k - 1, n - 1)
      case MinMaxGroup(vs, n) => MinMaxGroup(vs - multiset{v}, n - 1)
    }

    lemma AddStores(ty: AggType, vs: multiset<Value>, v: Value)
      requires Stores(ty, vs)
      ensures AddEvent(v).Stores(ty, vs + multiset{v})
    {
      SumAdd(vs, v);
      AddThenRemove(vs, v);
    }

    lemma RemoveStores(ty: AggType, vs: multiset<Value>, v: Value)
      requires Stores(ty, vs) && v in vs
      ensures counter == 1 <==> vs == multiset{v}
      ensures counter > 1 ==> RemoveEvent(v).Stores(ty, vs - multiset{v})
    {
      SumRemove(vs, v);
      RemoveThenAdd(vs, v);
    }
  }

  function NewGroup(ty: AggType, v: Value): Group {
    match ty
    case CNT => CountGroup(1)
    case SUM => SumGroup(v, 1)
    case AVG => AvgGroup(v, 1, 1)
    case MIN => MinMaxGroup(multiset{v}, 1)
    case MAX => MinMaxGroup(multiset{v}, 1)
  }

  lemma NewGroupStores(ty: AggType, v: Value)
    ensures NewGroup(ty, v).Stores(ty, multiset{v})
  {
    SumRemove(multiset{v}, v);
    assert multiset{v} - multiset{v} == multiset{};
  }

  /** The first element of the ordered multiset: its least or greatest value. */
  method FirstValue(ty: AggType, values: multiset<Value>) returns (v: Value)
    requires |values| > 0
    ensures v in values && forall w | w in values :: if ty == MIN then v <= w else w <= v
  {
    ghost var p := Pick(values);
    v :| v in values;
    var todo := values;
    while |todo| > 0
      invariant todo <= values && v in values
      invariant forall w | w in values && w !in todo :: if ty == MIN then v <= w else w <= v
      decreases |todo|
    {
      ghost var q := Pick(todo);
      var w :| w in todo;
      if if ty == MIN then w < v else v < w {
        v := w;
      }
      todo := todo[w := 0];
    }
  }

  method FinalizeGroup(ty: AggType, g: Group, ghost vs: multiset<Value>) returns (r: AggResult)
    requires g.Stores(ty, vs)
    ensures IsResult(ty, vs, r)
  {
    match g
    case CountGroup(n) => r := IntResult(n);
    case SumGroup(s, _) => r := IntResult(s);
    case AvgGroup(s, k, _) => r := FloatResult(Average(s, k));
    case MinMaxGroup(values, _) =>
      var v := FirstValue(ty, values);
      r := IntResult(v);
  }

  /** The state kept for group `g`, when its rows have the term values `vs`. */
  ghost predicate GroupOk(ty: AggType, groups: map<Row, Group>, g: Row, vs: multiset<Value>) {
    if g in groups then groups[g].Stores(ty, vs) else vs == multiset{}
  }

  function Added(ty: AggType, groups: map<Row, Group>, g: Row, v: Value): map<Row, Group> {
    groups[g := if g in groups then groups[g].AddEvent(v) else NewGroup(ty, v)]
  }

  lemma AddedOk(ty: AggType, groups: map<Row, Group>, g: Row, vs: multiset<Value>, v: Value)
    requires GroupOk(ty, groups, g, vs)
    ensures GroupOk(ty, Added(ty, groups, g, v), g, vs + multiset{v})
  {
    if g in groups {
      groups[g].AddStores(ty, vs, v);
    } else {
      NewGroupStores(ty, v);
      assert vs + multiset{v} == multiset{v};
    }
  }

  /** An emptied group is erased. */
  function Removed(groups: map<Row, Group>, g: Row, v: Value): map<Row, Group>
    requires g in groups && groups[g].counter > 0 && (groups[g].AvgGroup? ==> groups[g].count > 0)
  {
    var next := groups[g].RemoveEvent(v);
    if next.counter == 0 then groups - {g} else groups[g := next]
  }

  lemma RemovedOk(ty: AggType, groups: map<Row, Group>, g: Row, vs: multiset<Value>, v: Value)
    requires GroupOk(ty, groups, g, vs) && v in vs
    ensures g in groups && groups[g].counter > 0 && (groups[g].AvgGroup? ==> groups[g].count > 0)
    ensures GroupOk(ty, Removed(groups, g, v), g, vs - multiset{v})
  {
    groups[g].RemoveStores(ty, vs, v);
    RemoveThenAdd(vs, v);
  }

  ghost predicate GroupsOk(c: AggConfig, groups: map<Row, Group>, bag: multiset<Row>) {
    forall g :: GroupOk(c.ty, groups, g, Vals(c, bag, g))
  }

  lemma AddKeepsGroups(c: AggConfig, groups: map<Row, Group>, bag: multiset<Row>, e: Row)
    requires GroupsOk(c, groups, bag) && Fits(c, e)
    ensures GroupsOk(c, Added(c.ty, groups, GroupOf(c, e), e[c.termIdx]), bag + multiset{e})
  {
    var g, v := GroupOf(c, e), e[c.termIdx];
    forall h ensures GroupOk(c.ty, Added(c.ty, groups, g, v), h, Vals(c, bag + multiset{e}, h)) {
      ValsAdd(c, bag, e, h);
      assert GroupOk(c.ty, groups, h, Vals(c, bag, h));
      if h == g {
        AddedOk(c.ty, groups, g, Vals(c, bag, g), v);
      }
    }
  }

  lemma RemoveKeepsGroups(c: AggConfig, groups: map<Row, Group>, bag: multiset<Row>, e: Row)
    requires GroupsOk(c, groups, bag) && Fits(c, e) && e in bag
    ensures var g := GroupOf(c, e);
            g in groups && groups[g].counter > 0 && (groups[g].AvgGroup? ==> groups[g].count > 0)
    ensures GroupsOk(c, Removed(groups, GroupOf(c, e), e[c.termIdx]), bag - multiset{e})
  {
    var g, v, bag' := GroupOf(c, e), e[c.termIdx], bag - multiset{e};
    ValsRemove(c, bag, e, g);
    RemovedOk(c.ty, groups, g, Vals(c, bag, g), v);
    forall h ensures GroupOk(c.ty, Removed(groups, g, v), h, Vals(c, bag', h)) {
      if h != g {
        assert Vals(c, bag', h) == Vals(c, bag, h) by { ValsRemove(c, bag, e, h); }
      }
    }
  }

  class TemporalAgg {
    const config: AggConfig
    var groups: map<Row, Group>
    /** Every row added and not removed again. */
    ghost var bag: multiset<Row>

    ghost predicate Valid()
      reads this
    {
      GroupsOk(config, groups, bag)
    }

    constructor (config: AggConfig)
      ensures Valid() && bag == multiset{} && this.config == config
    {
      this.config := config;
      groups := map[];
      bag := multiset{};
    }

    method AddResult(e: Row)
      requires Valid() && Fits(config, e)
      modifies this
      ensures Valid() && bag == old(bag) + multiset{e}
    {
      var g, v := GroupOf(config, e), e[config.termIdx];
      AddKeepsGroups(config, groups, bag, e);
      if g !in groups {
        groups := groups[g := NewGroup(config.ty, v)];
      } else {
        groups := groups[g := groups[g].AddEvent(v)];
      }
      bag := bag + multiset{e};
    }

    method RemoveResult(e: Row)
      requires Valid() && Fits(config, e) && e in bag
      modifies this
      ensures Valid() && bag == old(bag) - multiset{e}
    {
      var g, v := GroupOf(config, e), e[config.termIdx];
      RemoveKeepsGroups(config, groups, bag, e);
      var next := groups[g].RemoveEvent(v);
      if next.counter == 0 {
        groups := groups - {g};
      } else {
        groups := groups[g := next];
      }
      bag := bag - multiset{e};
    }

    method FinalizeTable() returns (out: set<ResultRow>)
      requires Valid()
      ensures Aggregates(config, bag, out)
    {
      out := {};
      var todo := groups.Keys;
      while todo != {}
        invariant todo <= groups.Keys
        invariant forall x: ResultRow :: x in out <==> x.group in groups && x.group !in todo
                                                       && IsResult(config.ty, Vals(config, bag, x.group), x.value)
      {
        var g :| g in todo;
        assert GroupOk(config.ty, groups, g, Vals(config, bag, g));
        var r := FinalizeGroup(config.ty, groups[g], Vals(config, bag, g));
        ResultUnique(config.ty, Vals(config, bag, g), r);
        out := out + {ResultRow(g, r)};
        todo := todo - {g};
      }
      forall x: ResultRow ensures x.group in groups <==> Vals(config, bag, x.group) != multiset{} {
        assert GroupOk(config.ty, groups, x.group, Vals(config, bag, x.group));
      }
    }
  }
}
