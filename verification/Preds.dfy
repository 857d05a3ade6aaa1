/** Matching the events of a predicate against its arguments (src/monitor.cpp, init_pred_state and MPred::match). */
module Preds {
  import opened Wrappers
  import opened Tables
  import opened Formulas
  import opened Joins
  import opened Meaning

  predicate Simple(args: seq<Term>) {
    forall k :: 0 <= k < |args| ==> args[k].Var? || args[k].Const?
  }

  /**
   * The compiled argument list: `varPos[k]` are the positions of variable `lay[k]`, and
   * `pos2cst` pairs the positions of the constants with their values.
   */
  ghost predicate Compiled(args: seq<Term>, lay: Layout, varPos: seq<seq<nat>>, pos2cst: seq<(nat, Value)>) {
    && |varPos| == |lay| && DupFree(lay)
    && (forall k :: 0 <= k < |lay| ==>
          varPos[k] != [] && forall p :: p in varPos[k] ==> p < |args| && args[p] == Var(lay[k]))
    && (forall p :: 0 <= p < |args| && args[p].Var? ==> exists k :: 0 <= k < |lay| && p in varPos[k])
    && (forall q | q in pos2cst :: q.0 < |args| && args[q.0] == Const(q.1))
    && (forall p :: 0 <= p < |args| && args[p].Const? ==> (p, args[p].c) in pos2cst)
  }

  method InitPredState(args: seq<Term>) returns (lay: Layout, varPos: seq<seq<nat>>, pos2cst: seq<(nat, Value)>)
    requires Simple(args)
    ensures Compiled(args, lay, varPos, pos2cst)
  {
    var var2pos: map<nat, seq<nat>> := map[];
    pos2cst := [];
    for i := 0 to |args|
      invariant forall x | x in var2pos :: var2pos[x] != [] && forall p | p in var2pos[x] :: p < i && args[p] == Var(x)
      invariant forall p :: 0 <= p < i && args[p].Var? ==> args[p].idx in var2pos && p in var2pos[args[p].idx]
      invariant forall q | q in pos2cst :: q.0 < i && args[q.0] == Const(q.1)
      invariant forall p :: 0 <= p < i && args[p].Const? ==> (p, args[p].c) in pos2cst
    {
      match args[i]
      case Var(x) => var2pos := var2pos[x := (if x in var2pos then var2pos[x] else []) + [i]];
      case Const(c) => pos2cst := pos2cst + [(i, c)];
    }
    // the columns come in the iteration order of the map
    lay, varPos := [], [];
    var todo := var2pos.Keys;
    while todo != {}
      invariant todo <= var2pos.Keys && |varPos| == |lay| && DupFree(lay)
      invariant forall x :: x in lay <==> x in var2pos && x !in todo
      invariant forall k :: 0 <= k < |lay| ==> lay[k] in var2pos && varPos[k] == var2pos[lay[k]]
    {
      var x :| x in todo;
      lay, varPos, todo := lay + [x], varPos + [var2pos[x]], todo - {x};
    }
    forall p | 0 <= p < |args| && args[p].Var? ensures exists k :: 0 <= k < |lay| && p in varPos[k] {
      var k :| 0 <= k < |lay| && lay[k] == args[p].idx;
    }
  }

  lemma {:induction false} ArgsFVIElements(args: seq<Term>, bound: nat, x: nat)
    ensures x in ArgsFVI(args, bound) <==> exists p :: 0 <= p < |args| && x in args[p].FVI(bound)
  {
    if args != [] {
      ArgsFVIElements(args[1..], bound, x);
      if p :| 0 <= p < |args| && x in args[p].FVI(bound) {
        assert p > 0 ==> args[1..][p - 1] == args[p];
      }
      if p :| 0 <= p < |args[1..]| && x in args[1..][p].FVI(bound) {
        assert args[p + 1] == args[1..][p];
      }
    }
  }

  lemma CompiledIsLayout(id: PredId, args: seq<Term>, lay: Layout, varPos: seq<seq<nat>>, pos2cst: seq<(nat, Value)>)
    requires Simple(args) && Compiled(args, lay, varPos, pos2cst)
    ensures IsLayout(Pred(id, args), lay)
  {
    assert Pred(id, args).Columns() == ArgsFVI(args, 0);
    forall x ensures x in lay <==> x in ArgsFVI(args, 0) {
      ArgsFVIElements(args, 0, x);
      if x in lay {
        var k :| 0 <= k < |lay| && lay[k] == x;
        var p := varPos[k][0];
        assert p in varPos[k] && args[p] == Var(x);
      }
      if p :| 0 <= p < |args| && x in args[p].FVI(0) {
        var k :| 0 <= k < |lay| && p in varPos[k];
      }
    }
  }

  /** What matching an event must give: the row of the assignments that make the arguments equal to it. */
  ghost predicate Matches(args: seq<Term>, lay: Layout, ev: Row, res: Option<Row>) {
    && (res.Some? ==> |res.value| == |lay|)
    && forall v: Env :: EvalArgs(args, v) == ev <==> res == Some(Project(lay, v))
  }

  /** All positions of one variable carry the same value. */
  predicate Uniform(ev: Row, poss: seq<nat>, x: Value) {
    forall p | p in poss :: p < |ev| && ev[p] == x
  }

  method Match(args: seq<Term>, ghost lay: Layout, varPos: seq<seq<nat>>, pos2cst: seq<(nat, Value)>, ev: Row)
    returns (res: Option<Row>)
    requires Simple(args) && Compiled(args, lay, varPos, pos2cst) && |ev| == |args|
    ensures Matches(args, lay, ev, res)
  {
    for i := 0 to |pos2cst|
      invariant forall q | q in pos2cst[..i] :: ev[q.0] == q.1
    {
      if ev[pos2cst[i].0] != pos2cst[i].1 {
        ConstMismatch(args, lay, ev, pos2cst[i]);
        return None;
      }
      assert pos2cst[..i + 1] == pos2cst[..i] + [pos2cst[i]];
    }
    assert pos2cst[..|pos2cst|] == pos2cst;
    var row := [];
    for k := 0 to |varPos|
      invariant |row| == k && forall h :: 0 <= h < k ==> Uniform(ev, varPos[h], row[h])
    {
      var poss := varPos[k];
      assert poss[0] in poss;
      var expected := ev[poss[0]];
      for j := 1 to |poss|
        invariant forall h :: 0 <= h < j ==> poss[h] < |ev| && ev[poss[h]] == expected
      {
        assert poss[j] in poss;
        if ev[poss[j]] != expected {
          VarMismatch(args, lay, ev, poss[0], poss[j]);
          return None;
        }
      }
      row := row + [expected];
    }
    MatchFound(args, lay, varPos, pos2cst, ev, row);
    res := Some(row);
  }

  lemma ConstMismatch(args: seq<Term>, lay: Layout, ev: Row, q: (nat, Value))
    requires q.0 < |args| == |ev| && args[q.0] == Const(q.1) && ev[q.0] != q.1
    ensures Matches(args, lay, ev, None)
  {
    forall v: Env ensures EvalArgs(args, v) != ev {
      assert EvalArgs(args, v)[q.0] == q.1;
    }
  }

  lemma VarMismatch(args: seq<Term>, lay: Layout, ev: Row, p: nat, p': nat)
    requires p < |args| == |ev| && p' < |args| && args[p] == args[p'] && ev[p] != ev[p']
    ensures Matches(args, lay, ev, None)
  {
    forall v: Env ensures EvalArgs(args, v) != ev {
      assert EvalArgs(args, v)[p] == EvalArgs(args, v)[p'];
    }
  }

  lemma MatchFound(args: seq<Term>, lay: Layout, varPos: seq<seq<nat>>, pos2cst: seq<(nat, Value)>, ev: Row, row: Row)
    requires Simple(args) && Compiled(args, lay, varPos, pos2cst) && |ev| == |args| && |row| == |lay|
    requires forall q | q in pos2cst :: ev[q.0] == q.1
    requires forall h :: 0 <= h < |lay| ==> Uniform(ev, varPos[h], row[h])
    ensures Matches(args, lay, ev, Some(row))
  {
    forall v: Env ensures EvalArgs(args, v) == ev <==> row == Project(lay, v) {
      if row == Project(lay, v) {
        forall p | 0 <= p < |args| ensures Eval(args[p], v) == ev[p] {
          if args[p].Const? {
            assert (p, args[p].c) in pos2cst;
          } else {
            var k :| 0 <= k < |lay| && p in varPos[k];
            assert Uniform(ev, varPos[k], row[k]);
          }
        }
      }
      if EvalArgs(args, v) == ev {
        forall k | 0 <= k < |lay| ensures row[k] == Lookup(v, lay[k]) {
          var p := varPos[k][0];
          assert p in varPos[k] && Uniform(ev, varPos[k], row[k]);
          assert EvalArgs(args, v)[p] == Lookup(v, lay[k]);
        }
      }
    }
  }

  /** The rows of all matching events. */
  method MatchAll(args: seq<Term>, ghost lay: Layout, varPos: seq<seq<nat>>, pos2cst: seq<(nat, Value)>,
                  events: seq<Row>)
    returns (tab: Table)
    requires Simple(args) && Compiled(args, lay, varPos, pos2cst)
    requires forall k :: 0 <= k < |events| ==> |events[k]| == |args|
    ensures RowsOf(|lay|, tab) && forall v: Env :: Project(lay, v) in tab <==> EvalArgs(args, v) in events
  {
    tab := {};
    for i := 0 to |events|
      invariant RowsOf(|lay|, tab) && forall v: Env :: Project(lay, v) in tab <==> EvalArgs(args, v) in events[..i]
    {
      var res := Match(args, lay, varPos, pos2cst, events[i]);
      assert events[..i + 1] == events[..i] + [events[i]];
      if res.Some? {
        tab := tab + {res.value};
      }
    }
    assert events[..|events|] == events;
  }
}
