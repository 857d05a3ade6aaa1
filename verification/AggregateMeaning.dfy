/** What the table of an aggregation means, under the layout that its constructor computes. */
module AggregateMeaning {
  import opened Wrappers
  import opened Tables
  import opened Formulas
  import opened Joins
  import opened Meaning
  import opened AggSpec
  import opened Aggregation

  ghost function TermValue(termIdx: nat): Row -> multiset<Value> {
    e => if termIdx < |e| then multiset{e[termIdx]} else multiset{}
  }

  /** The term values of `rows`, each as often as it occurs. */
  ghost function TermValues(termIdx: nat, rows: set<Row>): multiset<Value> {
    Total(TermValue(termIdx), multiset(rows))
  }

  /** `rows` are those of the satisfying assignments that extend `v` by values for the bound variables. */
  ghost predicate Extensions(phi: Formula, lay: Layout, numBound: nat, tr: seq<TimePoint>, i: nat, v: Env,
                             rows: set<Row>)
    requires i < |tr|
  {
    forall row :: row in rows <==>
      exists xs: Env :: |xs| == numBound && row == Project(lay, xs + v) && Sat(phi, tr, i, xs + v)
  }

  predicate AllBound(lay: Layout, numBound: nat) {
    forall x | x in lay :: x < numBound
  }

  /**
   * The aggregate of column `k` over `rows`, or the default value, if there is one, when there
   * are no rows and all variables are bound.
   */
  ghost predicate ResultOf(ty: AggType, default: Option<AggResult>, allBound: bool, k: nat, rows: set<Row>,
                           r: AggResult) {
    if rows != {} then IsResult(ty, TermValues(k, rows), r) else allBound && default == Some(r)
  }

  /** Assignment `v` has the aggregate `r`: that of the term values of its satisfying extensions. */
  ghost predicate AggregateIs(ty: AggType, default: Option<AggResult>, phi: Formula, lay: Layout, termVar: nat,
                              numBound: nat, tr: seq<TimePoint>, i: nat, v: Env, r: AggResult)
    requires i < |tr|
  {
    exists rows, k :: Extensions(phi, lay, numBound, tr, i, v, rows) && 0 <= k < |lay| && lay[k] == termVar
                      && ResultOf(ty, default, AllBound(lay, numBound), k, rows, r)
  }

  ghost function GroupRowsOf(c: AggConfig, tab: set<Row>, g: Row): set<Row> {
    set e | e in tab && Fits(c, e) && GroupOf(c, e) == g
  }

  lemma TotalPick(share: Row -> multiset<Value>, rows: set<Row>, e: Row)
    requires e in rows
    ensures Total(share, multiset(rows)) == share(e) + Total(share, multiset(rows - {e}))
  {
    hide Total;
    TotalRemove(share, multiset(rows), e);
    PickedSet(rows, e);
  }

  lemma PickedSet(rows: set<Row>, e: Row)
    requires e in rows
    ensures e in multiset(rows) && multiset(rows) - multiset{e} == multiset(rows - {e})
  {}

  lemma {:induction false} ValsOfGroup(c: AggConfig, tab: set<Row>, g: Row)
    ensures Vals(c, multiset(tab), g) == TermValues(c.termIdx, GroupRowsOf(c, tab, g))
    decreases |tab|
  {
    hide Total, GroupOf;
    var rows := GroupRowsOf(c, tab, g);
    if tab == {} {
      assert rows == {};
      TotalNone(Share(c, g));
      TotalNone(TermValue(c.termIdx));
    } else {
      var e :| e in tab;
      ValsOfGroup(c, tab - {e}, g);
      TotalPick(Share(c, g), tab, e);
      if e in rows {
        assert GroupRowsOf(c, tab - {e}, g) == rows - {e};
        TotalPick(TermValue(c.termIdx), rows, e);
      } else {
        assert GroupRowsOf(c, tab - {e}, g) == rows;
      }
    }
  }

  lemma TotalNone(share: Row -> multiset<Value>)
    ensures Total(share, multiset({})) == multiset{}
  {}

  /** Groups without rows have no values, the others have. */
  lemma TermValuesEmpty(c: AggConfig, rows: set<Row>)
    requires forall e | e in rows :: c.termIdx < |e|
    ensures TermValues(c.termIdx, rows) == multiset{} <==> rows == {}
  {
    if rows == {} {
      TotalNone(TermValue(c.termIdx));
    } else {
      var e :| e in rows;
      TotalPick(TermValue(c.termIdx), rows, e);
    }
  }

  /** The rows of the group of `v` are its satisfying extensions. */
  lemma GroupIsExtensions(phi: Formula, tab: Table, tr: seq<TimePoint>, i: nat, lay: Layout, termVar: nat, resVar: nat,
                          numBound: nat, c: AggConfig, resLayout: Layout, v: Env)
    requires Represents(phi, lay, tab, tr, i) && DupFree(lay)
    requires IsAggLayout(lay, termVar, resVar, numBound, c.groupIdxs, c.termIdx, resLayout)
    ensures Extensions(phi, lay, numBound, tr, i, v, GroupRowsOf(c, tab, Project(resLayout[..|c.groupIdxs|], v)))
  {
    var g := Project(resLayout[..|c.groupIdxs|], v);
    hide DupFree, Sat;
    forall row ensures row in GroupRowsOf(c, tab, g) <==>
                       exists xs: Env :: |xs| == numBound && row == Project(lay, xs + v) && Sat(phi, tr, i, xs + v) {
      GroupRows(phi, tab, tr, i, lay, termVar, resVar, numBound, c.groupIdxs, c.termIdx, resLayout, v, row);
    }
  }

  /** With all variables bound there is one group. */
  lemma OneGroup(lay: Layout, termVar: nat, resVar: nat, numBound: nat, c: AggConfig, resLayout: Layout, tab: set<Row>)
    requires IsAggLayout(lay, termVar, resVar, numBound, c.groupIdxs, c.termIdx, resLayout)
    requires forall e | e in tab :: Fits(c, e)
    ensures c.groupIdxs == [] <==> AllBound(lay, numBound)
    ensures c.groupIdxs == [] ==> GroupRowsOf(c, tab, []) == tab
  {
    if c.groupIdxs == [] {
      forall x | x in lay ensures x < numBound {
        var k :| 0 <= k < |lay| && lay[k] == x;
      }
      forall e | e in tab ensures e in GroupRowsOf(c, tab, []) {
        assert GroupOf(c, e) == [];
      }
    } else {
      var k := c.groupIdxs[0];
      assert k in c.groupIdxs && lay[k] in lay;
    }
  }

  /** Without a default value, the results are those of the groups that have rows. */
  lemma GroupedIff(phi: Formula, tab: Table, tr: seq<TimePoint>, i: nat, lay: Layout, termVar: nat, resVar: nat,
                   numBound: nat, c: AggConfig, resLayout: Layout, out: set<ResultRow>, v: Env, r: AggResult)
    requires Represents(phi, lay, tab, tr, i) && DupFree(lay)
    requires IsAggLayout(lay, termVar, resVar, numBound, c.groupIdxs, c.termIdx, resLayout)
    requires Aggregates(c, multiset(tab), out)
    ensures ResultRow(Project(resLayout[..|c.groupIdxs|], v), r) in out <==>
            AggregateIs(c.ty, None, phi, lay, termVar, numBound, tr, i, v, r)
  {
    var g := Project(resLayout[..|c.groupIdxs|], v);
    var rows := GroupRowsOf(c, tab, g);
    GroupIsExtensions(phi, tab, tr, i, lay, termVar, resVar, numBound, c, resLayout, v);
    ValsOfGroup(c, tab, g);
    TermValuesEmpty(c, rows);
    AggregateFor(c.ty, None, phi, lay, termVar, c.termIdx, numBound, tr, i, v, r, rows);
  }

  /**
   * The table of the aggregation, under its layout: an assignment to the variables
   * that stay free has a result exactly if that is the aggregate of its satisfying
   * extensions, or the default value.
   */
  lemma AggregateIff(phi: Formula, tab: Table, tr: seq<TimePoint>, i: nat, lay: Layout, termVar: nat, resVar: nat,
                     numBound: nat, c: AggConfig, resLayout: Layout, defaultVal: AggResult, out: set<ResultRow>, v: Env,
                     r: AggResult)
    requires Represents(phi, lay, tab, tr, i) && DupFree(lay)
    requires IsAggLayout(lay, termVar, resVar, numBound, c.groupIdxs, c.termIdx, resLayout)
    requires OneShot(c, defaultVal, tab, out)
    ensures ResultRow(Project(resLayout[..|c.groupIdxs|], v), r) in out <==>
            AggregateIs(c.ty, Some(defaultVal), phi, lay, termVar, numBound, tr, i, v, r)
  {
    var g := Project(resLayout[..|c.groupIdxs|], v);
    var rows := GroupRowsOf(c, tab, g);
    assert forall e | e in tab :: Fits(c, e);
    GroupIsExtensions(phi, tab, tr, i, lay, termVar, resVar, numBound, c, resLayout, v);
    OneGroup(lay, termVar, resVar, numBound, c, resLayout, tab);
    AggregateFor(c.ty, Some(defaultVal), phi, lay, termVar, c.termIdx, numBound, tr, i, v, r, rows);
    AggregateFor(c.ty, None, phi, lay, termVar, c.termIdx, numBound, tr, i, v, r, rows);
    if tab == {} && c.groupIdxs == [] {
      assert g == [] && rows == {};
    } else {
      GroupedIff(phi, tab, tr, i, lay, termVar, resVar, numBound, c, resLayout, out, v, r);
      assert c.groupIdxs == [] ==> g == [];
    }
  }

  /** The extensions of an assignment are determined, and so is the column of the term. */
  lemma AggregateFor(ty: AggType, default: Option<AggResult>, phi: Formula, lay: Layout, termVar: nat, termIdx: nat,
                     numBound: nat, tr: seq<TimePoint>, i: nat, v: Env, r: AggResult, rows: set<Row>)
    requires i < |tr| && DupFree(lay) && termIdx < |lay| && lay[termIdx] == termVar
    requires Extensions(phi, lay, numBound, tr, i, v, rows)
    ensures AggregateIs(ty, default, phi, lay, termVar, numBound, tr, i, v, r) <==>
            ResultOf(ty, default, AllBound(lay, numBound), termIdx, rows, r)
  {
    hide Extensions, ResultOf, DupFree;
    if AggregateIs(ty, default, phi, lay, termVar, numBound, tr, i, v, r) {
      var rows', k :| Extensions(phi, lay, numBound, tr, i, v, rows') && 0 <= k < |lay| && lay[k] == termVar
                      && ResultOf(ty, default, AllBound(lay, numBound), k, rows', r);
      ExtensionsUnique(phi, lay, numBound, tr, i, v, rows, rows');
      ColumnUnique(lay, k, termIdx);
    }
  }

  lemma ExtensionsUnique(phi: Formula, lay: Layout, numBound: nat, tr: seq<TimePoint>, i: nat, v: Env, rows: set<Row>,
                         rows': set<Row>)
    requires i < |tr| && Extensions(phi, lay, numBound, tr, i, v, rows)
    requires Extensions(phi, lay, numBound, tr, i, v, rows')
    ensures rows == rows'
  {
    hide Sat;
    assert forall row :: row in rows <==> row in rows';
  }

  lemma ColumnUnique(lay: Layout, j: nat, k: nat)
    requires DupFree(lay) && j < |lay| && k < |lay| && lay[j] == lay[k]
    ensures j == k
  {}

  /** The aggregation as it stands in the formula, without its operand. */
  datatype AggOp = AggOp(ty: AggType, termVar: nat, resVar: nat, numBound: nat, defaultVal: AggResult)

  /** `out` is the table for the group variables and the result, at time point `i`. */
  ghost predicate IsAggregate(a: AggOp, default: Option<AggResult>, phi: Formula, lay: Layout, groupVars: Layout,
                              tr: seq<TimePoint>, i: nat, out: set<ResultRow>)
  {
    && i < |tr| && (forall x | x in out :: |x.group| == |groupVars|)
    && forall v: Env, r ::
         ResultRow(Project(groupVars, v), r) in out <==>
         AggregateIs(a.ty, default, phi, lay, a.termVar, a.numBound, tr, i, v, r)
  }

  /** What the layout computation of both aggregators gives. */
  ghost predicate Laid(a: AggOp, lay: Layout, c: AggConfig, groupVars: Layout) {
    && c.ty == a.ty && DupFree(lay)
    && IsAggLayout(lay, a.termVar, a.resVar, a.numBound, c.groupIdxs, c.termIdx, groupVars + [a.resVar])
  }

  method LayOut(a: AggOp, lay: Layout) returns (c: AggConfig, groupVars: Layout)
    requires DupFree(lay) && a.termVar in lay
    ensures Laid(a, lay, c, groupVars) && InRange(c.groupIdxs, |lay|) && c.termIdx < |lay|
    ensures DupFree(groupVars) && forall x: nat :: x in groupVars <==> x + a.numBound in lay
  {
    var groupIdxs, termIdx, resLayout, allBound := AggLayout(lay, a.termVar, a.resVar, a.numBound);
    c := AggConfig(a.ty, groupIdxs, termIdx);
    groupVars := resLayout[..|groupIdxs|];
    assert resLayout == groupVars + [a.resVar];
    GroupVars(lay, a.termVar, a.resVar, a.numBound, c, resLayout);
  }

  lemma OneShotMeans(a: AggOp, lay: Layout, c: AggConfig, groupVars: Layout, phi: Formula, tab: Table,
                     tr: seq<TimePoint>, i: nat, out: set<ResultRow>)
    requires Laid(a, lay, c, groupVars) && Represents(phi, lay, tab, tr, i) && OneShot(c, a.defaultVal, tab, out)
    ensures IsAggregate(a, Some(a.defaultVal), phi, lay, groupVars, tr, i, out)
  {
    hide OneShot, AggregateIs, IsAggLayout, DupFree;
    var resLayout := groupVars + [a.resVar];
    LaidOut(a, lay, c, groupVars);
    RowsFit(phi, lay, tab, tr, i, c);
    ResultGroups(c, a.defaultVal, tab, out);
    forall v: Env, r ensures ResultRow(Project(groupVars, v), r) in out <==>
                             AggregateIs(a.ty, Some(a.defaultVal), phi, lay, a.termVar, a.numBound, tr, i, v, r) {
      AggregateIff(phi, tab, tr, i, lay, a.termVar, a.resVar, a.numBound, c, resLayout, a.defaultVal, out, v, r);
    }
  }

  lemma AggregatesMean(a: AggOp, lay: Layout, c: AggConfig, groupVars: Layout, phi: Formula, tab: Table,
                       tr: seq<TimePoint>, i: nat, out: set<ResultRow>)
    requires Laid(a, lay, c, groupVars) && Represents(phi, lay, tab, tr, i) && Aggregates(c, multiset(tab), out)
    ensures IsAggregate(a, None, phi, lay, groupVars, tr, i, out)
  {
    hide Aggregates, AggregateIs, IsAggLayout, DupFree;
    var resLayout := groupVars + [a.resVar];
    LaidOut(a, lay, c, groupVars);
    RowsFit(phi, lay, tab, tr, i, c);
    GroupsOfRows(c, tab, out);
    forall v: Env, r ensures ResultRow(Project(groupVars, v), r) in out <==>
                             AggregateIs(a.ty, None, phi, lay, a.termVar, a.numBound, tr, i, v, r) {
      GroupedIff(phi, tab, tr, i, lay, a.termVar, a.resVar, a.numBound, c, resLayout, out, v, r);
    }
  }

  lemma LaidOut(a: AggOp, lay: Layout, c: AggConfig, groupVars: Layout)
    requires Laid(a, lay, c, groupVars)
    ensures InRange(c.groupIdxs, |lay|) && c.termIdx < |lay| && |groupVars| == |c.groupIdxs|
    ensures (groupVars + [a.resVar])[..|c.groupIdxs|] == groupVars
  {}

  /** An aggregation as it is compiled and then evaluated on one table. */
  method AggregateTable(a: AggOp, lay: Layout, tab: Table, ghost phi: Formula, ghost tr: seq<TimePoint>, ghost i: nat)
    returns (groupVars: Layout, out: set<ResultRow>)
    requires DupFree(lay) && a.termVar in lay && Represents(phi, lay, tab, tr, i)
    ensures DupFree(groupVars) && forall x: nat :: x in groupVars <==> x + a.numBound in lay
    ensures IsAggregate(a, Some(a.defaultVal), phi, lay, groupVars, tr, i, out)
  {
    hide Represents, OneShot, IsAggregate, Laid;
    var c;
    c, groupVars := LayOut(a, lay);
    var impl := new AggregationImpl(c, a.defaultVal);
    RowsFit(phi, lay, tab, tr, i, c);
    out := impl.Eval(tab);
    OneShotMeans(a, lay, c, groupVars, phi, tab, tr, i, out);
  }

  lemma RowsFit(phi: Formula, lay: Layout, tab: Table, tr: seq<TimePoint>, i: nat, c: AggConfig)
    requires Represents(phi, lay, tab, tr, i) && InRange(c.groupIdxs, |lay|) && c.termIdx < |lay|
    ensures forall e | e in tab :: Fits(c, e)
  {}

  lemma GroupVars(lay: Layout, termVar: nat, resVar: nat, numBound: nat, c: AggConfig, resLayout: Layout)
    requires DupFree(lay) && IsAggLayout(lay, termVar, resVar, numBound, c.groupIdxs, c.termIdx, resLayout)
    ensures DupFree(resLayout[..|c.groupIdxs|])
    ensures forall x: nat :: x in resLayout[..|c.groupIdxs|] <==> x + numBound in lay
  {
    var vars, idxs := resLayout[..|c.groupIdxs|], c.groupIdxs;
    assert forall k :: 0 <= k < |idxs| ==> vars[k] + numBound == lay[idxs[k]];
    forall j, k | 0 <= j < k < |vars| ensures vars[j] != vars[k] {
      assert idxs[j] < idxs[k];
      assert lay[idxs[j]] != lay[idxs[k]];
    }
    hide DupFree;
    forall x: nat ensures x in vars <==> x + numBound in lay {
      GroupVar(lay, numBound, idxs, vars, x);
    }
  }

  lemma GroupVar(lay: Layout, numBound: nat, idxs: seq<nat>, vars: Layout, x: nat)
    requires InRange(idxs, |lay|) && |vars| == |idxs|
    requires forall k :: 0 <= k < |lay| ==> (k in idxs <==> lay[k] >= numBound)
    requires forall k :: 0 <= k < |idxs| ==> vars[k] + numBound == lay[idxs[k]]
    ensures x in vars <==> x + numBound in lay
  {
    if x + numBound in lay {
      var k :| 0 <= k < |lay| && lay[k] == x + numBound;
      var j :| 0 <= j < |idxs| && idxs[j] == k;
      assert vars[j] == x;
    }
    if x in vars {
      var j :| 0 <= j < |vars| && vars[j] == x;
      assert lay[idxs[j]] == x + numBound;
    }
  }

  /** Every result belongs to the group of some row. */
  lemma GroupsOfRows(c: AggConfig, tab: set<Row>, out: set<ResultRow>)
    requires Aggregates(c, multiset(tab), out) && forall e | e in tab :: Fits(c, e)
    ensures forall x | x in out :: |x.group| == |c.groupIdxs|
  {
    forall x | x in out ensures |x.group| == |c.groupIdxs| {
      ValsOfGroup(c, tab, x.group);
      var rows := GroupRowsOf(c, tab, x.group);
      TermValuesEmpty(c, rows);
      var e :| e in rows;
    }
  }

  lemma ResultGroups(c: AggConfig, defaultVal: AggResult, tab: set<Row>, out: set<ResultRow>)
    requires OneShot(c, defaultVal, tab, out) && forall e | e in tab :: Fits(c, e)
    ensures forall x | x in out :: |x.group| == |c.groupIdxs|
  {
    if !(tab == {} && c.groupIdxs == []) {
      GroupsOfRows(c, tab, out);
    }
  }
}
