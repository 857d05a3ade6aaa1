/**
 * What the stateless operators do with the tables of their operands
 * (src/monitor.cpp, the reductions of MAnd, MOr, MNeg and MFusedUnaryOps).
 */
module Reductions {
  import opened Tables
  import opened Formulas
  import opened Joins
  import opened Meaning
  import opened UnaryOps
  import opened Streams

  datatype AndInfo = NaturalInfo(join: JoinInfo) | AntiInfo(anti: AntiJoinInfo)

  /** The formula, layout and join data of a conjunction fit its operands. */
  ghost predicate AndOk(info: AndInfo, phil: Formula, llay: Layout, phir: Formula, rlay: Layout, phi: Formula,
                        lay: Layout) {
    DupFree(llay) && DupFree(rlay) &&
    match info
    case NaturalInfo(join) => phi == And(phil, phir) && IsJoinInfo(llay, rlay, join) && lay == join.resultLayout
    case AntiInfo(anti) =>
      && phi == And(phil, Neg(phir)) && IsAntiJoinInfo(llay, rlay, anti) && lay == anti.resultLayout
      && forall x | x in rlay :: x in llay
  }

  method AndTable(info: AndInfo, tab1: Table, tab2: Table, ghost phil: Formula, ghost llay: Layout,
                  ghost phir: Formula, ghost rlay: Layout, ghost phi: Formula, ghost lay: Layout,
                  ghost tr: seq<TimePoint>, ghost i: nat) returns (res: Table)
    requires AndOk(info, phil, llay, phir, rlay, phi, lay)
    requires Represents(phil, llay, tab1, tr, i) && Represents(phir, rlay, tab2, tr, i)
    ensures Represents(phi, lay, res, tr, i)
  {
    match info
    case AntiInfo(anti) =>
      if tab1 == {} || tab2 == {} {
        res := tab1;
        forall v: Env ensures Project(llay, v) in tab1 <==> Sat(And(phil, Neg(phir)), tr, i, v) {
          assert Project(rlay, v) in tab2 <==> Sat(phir, tr, i, v);
        }
      } else {
        res := AntiJoin(tab1, tab2, llay, rlay, anti);
        AntiRepresents(tab1, tab2, phil, llay, phir, rlay, anti, res, tr, i);
      }
    case NaturalInfo(join) =>
      if tab1 == {} || tab2 == {} {
        res := {};
        forall v: Env ensures !Sat(And(phil, phir), tr, i, v) {
          assert Project(llay, v) in tab1 <==> Sat(phil, tr, i, v);
          assert Project(rlay, v) in tab2 <==> Sat(phir, tr, i, v);
        }
      } else {
        res := NaturalJoin(tab1, tab2, llay, rlay, join);
        JoinRepresents(tab1, tab2, phil, llay, phir, rlay, join, res, tr, i);
      }
  }

  lemma JoinRepresents(tab1: Table, tab2: Table, phil: Formula, llay: Layout, phir: Formula, rlay: Layout,
                       info: JoinInfo, res: Table, tr: seq<TimePoint>, i: nat)
    requires IsJoinInfo(llay, rlay, info) && DupFree(rlay)
    requires Represents(phil, llay, tab1, tr, i) && Represents(phir, rlay, tab2, tr, i)
    requires IsJoin(tab1, tab2, |llay|, |rlay|, info, res)
    ensures Represents(And(phil, phir), info.resultLayout, res, tr, i)
  {
    forall v: Env ensures Project(info.resultLayout, v) in res <==> Sat(And(phil, phir), tr, i, v) {
      JoinMeaning(tab1, tab2, llay, rlay, info, res, v);
    }
    forall r | r in res ensures |r| == |info.resultLayout| {
      var r1, r2 :| |r1| == |llay| && |r2| == |rlay| && Joined(tab1, tab2, info, r, r1, r2);
    }
  }

  lemma AntiRepresents(tab1: Table, tab2: Table, phil: Formula, llay: Layout, phir: Formula, rlay: Layout,
                       info: AntiJoinInfo, res: Table, tr: seq<TimePoint>, i: nat)
    requires IsAntiJoinInfo(llay, rlay, info) && DupFree(rlay) && forall x | x in rlay :: x in llay
    requires Represents(phil, llay, tab1, tr, i) && Represents(phir, rlay, tab2, tr, i)
    requires forall r :: r in res <==> r in tab1 && |r| == |llay| && Unmatched(tab2, |rlay|, info, r)
    ensures Represents(And(phil, Neg(phir)), llay, res, tr, i)
  {
    forall v: Env ensures Project(llay, v) in res <==> Sat(And(phil, Neg(phir)), tr, i, v) {
      AntiJoinMeaning(tab1, tab2, llay, rlay, info, res, v);
    }
  }

  method AndTables(info: AndInfo, pairs: seq<(Table, Table)>, ghost phil: Formula, ghost llay: Layout,
                   ghost phir: Formula, ghost rlay: Layout, ghost phi: Formula, ghost lay: Layout,
                   ghost tr: seq<TimePoint>, ghost from: nat)
    returns (out: seq<Table>)
    requires AndOk(info, phil, llay, phir, rlay, phi, lay)
    requires PairsOk(phil, llay, phir, rlay, pairs, tr, from)
    ensures |out| == |pairs| && Verdicts(phi, lay, out, tr, from)
  {
    hide AndOk, Represents;
    out := [];
    for k := 0 to |pairs|
      invariant |out| == k && Verdicts(phi, lay, out, tr, from)
    {
      var tab := AndTable(info, pairs[k].0, pairs[k].1, phil, llay, phir, rlay, phi, lay, tr, from + k);
      out := out + [tab];
    }
  }

  ghost predicate OrOk(perm: seq<nat>, llay: Layout, rlay: Layout) {
    && DupFree(llay) && DupFree(rlay) && |llay| == |rlay| && (forall x | x in rlay :: x in llay)
    && IsPermutation(llay, rlay, perm)
  }

  lemma UnionRepresents(perm: seq<nat>, tab1: Table, tab2: Table, phil: Formula, llay: Layout, phir: Formula,
                        rlay: Layout, res: Table, tr: seq<TimePoint>, i: nat)
    requires OrOk(perm, llay, rlay)
    requires Represents(phil, llay, tab1, tr, i) && Represents(phir, rlay, tab2, tr, i)
    requires forall r :: r in res <==>
             r in tab1 || exists r2 :: r2 in tab2 && |r2| == |rlay| && FilterRow(perm, r2) == r
    ensures Represents(Or(phil, phir), llay, res, tr, i)
  {
    forall v: Env ensures Project(llay, v) in res <==> Sat(Or(phil, phir), tr, i, v) {
      UnionMeaning(tab1, tab2, llay, rlay, perm, res, v);
      assert Project(rlay, v) in tab2 <==> Sat(phir, tr, i, v);
    }
  }

  method OrTable(perm: seq<nat>, tab1: Table, tab2: Table, ghost phil: Formula, ghost llay: Layout,
                 ghost phir: Formula, ghost rlay: Layout, ghost tr: seq<TimePoint>, ghost i: nat) returns (res: Table)
    requires OrOk(perm, llay, rlay)
    requires Represents(phil, llay, tab1, tr, i) && Represents(phir, rlay, tab2, tr, i)
    ensures Represents(Or(phil, phir), llay, res, tr, i)
  {
    if tab2 == {} {
      res := tab1;
      forall v: Env ensures Project(llay, v) in tab1 <==> Sat(Or(phil, phir), tr, i, v) {
        assert Project(rlay, v) in tab2 <==> Sat(phir, tr, i, v);
      }
    } else {
      res := UnionInPlace(tab1, tab2, perm, |rlay|);
      UnionRepresents(perm, tab1, tab2, phil, llay, phir, rlay, res, tr, i);
    }
  }

  method OrTables(perm: seq<nat>, pairs: seq<(Table, Table)>, ghost phil: Formula, ghost llay: Layout,
                  ghost phir: Formula, ghost rlay: Layout, ghost tr: seq<TimePoint>, ghost from: nat)
    returns (out: seq<Table>)
    requires OrOk(perm, llay, rlay)
    requires PairsOk(phil, llay, phir, rlay, pairs, tr, from)
    ensures |out| == |pairs| && Verdicts(Or(phil, phir), llay, out, tr, from)
  {
    hide OrOk, Represents;
    out := [];
    for k := 0 to |pairs|
      invariant |out| == k && Verdicts(Or(phil, phir), llay, out, tr, from)
    {
      var tab := OrTable(perm, pairs[k].0, pairs[k].1, phil, llay, phir, rlay, tr, from + k);
      out := out + [tab];
    }
  }

  /** A table without columns is `{[]}` or empty; negation swaps them. */
  lemma NegMeaning(phi: Formula, tab: Table, tr: seq<TimePoint>, i: nat)
    requires Represents(phi, [], tab, tr, i)
    ensures Represents(Neg(phi), [], if tab == {} then {[]} else {}, tr, i)
  {
    forall v: Env ensures Project([], v) in tab <==> tab != {} {
      assert Project([], v) == [];
      if tab != {} {
        var r :| r in tab;
        assert r == [];
      }
    }
  }

  method NegTables(tabs: seq<Table>, ghost phi: Formula, ghost tr: seq<TimePoint>, ghost from: nat)
    returns (out: seq<Table>)
    requires Verdicts(phi, [], tabs, tr, from)
    ensures |out| == |tabs| && Verdicts(Neg(phi), [], out, tr, from)
  {
    hide Represents;
    out := [];
    for k := 0 to |tabs|
      invariant |out| == k && Verdicts(Neg(phi), [], out, tr, from)
    {
      NegMeaning(phi, tabs[k], tr, from + k);
      out := out + [if tabs[k] == {} then {[]} else {}];
    }
  }

  method FusedTable(ops: seq<UnaryOp>, tab: Table, ghost stages: seq<Stage>, ghost tr: seq<TimePoint>, ghost i: nat)
    returns (res: Table)
    requires StagesOk(ops, stages) && Represents(stages[0].phi, stages[0].lay, tab, tr, i)
    ensures Represents(stages[|ops|].phi, stages[|ops|].lay, res, tr, i)
  {
    StagesFit(ops, stages);
    hide OpsFit, IsFusedImage, OpStage;
    ghost var n := |stages[0].lay|;
    assert RowsOf(n, tab);
    hide Represents;
    if tab == {} {
      NoRows(ops, n);
      res := {};
    } else {
      res := EvalTable(ops, tab, n);
    }
    FusedMeaning(ops, stages, tab, res, tr, i);
  }

  lemma NoRows(ops: seq<UnaryOp>, n: nat)
    requires OpsFit(ops, n)
    ensures IsFusedImage(ops, n, {}, {})
  {}

  method FusedTables(ops: seq<UnaryOp>, tabs: seq<Table>, ghost stages: seq<Stage>, ghost tr: seq<TimePoint>,
                     ghost from: nat)
    returns (out: seq<Table>)
    requires StagesOk(ops, stages) && Verdicts(stages[0].phi, stages[0].lay, tabs, tr, from)
    ensures |out| == |tabs| && Verdicts(stages[|ops|].phi, stages[|ops|].lay, out, tr, from)
  {
    hide OpStage, Represents;
    out := [];
    for k := 0 to |tabs|
      invariant |out| == k && Verdicts(stages[|ops|].phi, stages[|ops|].lay, out, tr, from)
    {
      var tab := FusedTable(ops, tabs[k], stages, tr, from + k);
      out := out + [tab];
    }
  }
}
