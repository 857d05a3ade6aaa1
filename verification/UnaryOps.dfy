/**
 * The fused unary operators (src/monitor.cpp, MFusedUnaryOps): assignments,
 * comparisons and column drops that are applied to one row after the other.
 */
module UnaryOps {
  import opened Wrappers
  import opened Tables
  import opened Formulas
  import opened Joins
  import opened Meaning

  datatype CstType = CstEq | CstLess | CstLessEq

  datatype UnaryOp =
    | AndAssign(var2idx: seq<nat>, t: Term)
    | AndRel(var2idx: seq<nat>, l: Term, r: Term, cstType: CstType, cstNeg: bool)
    | DropColumn(dropIdx: Option<nat>)

  // ----- terms over rows -----

  /** Every variable of `t` has a column among the first `n`. */
  predicate TermFits(t: Term, var2idx: seq<nat>, n: nat) {
    match t
    case Var(idx) => idx < |var2idx| && var2idx[idx] < n
    case Const(_) => true
    case UMinus(t) => TermFits(t, var2idx, n)
    case Plus(l, r) => TermFits(l, var2idx, n) && TermFits(r, var2idx, n)
    case Minus(l, r) => TermFits(l, var2idx, n) && TermFits(r, var2idx, n)
    case Mult(l, r) => TermFits(l, var2idx, n) && TermFits(r, var2idx, n)
  }

  function TermEval(t: Term, var2idx: seq<nat>, row: Row): Value
    requires TermFits(t, var2idx, |row|)
  {
    match t
    case Var(idx) => row[var2idx[idx]]
    case Const(c) => c
    case Plus(l, r) => TermEval(l, var2idx, row) + TermEval(r, var2idx, row)
    case Minus(l, r) => TermEval(l, var2idx, row) - TermEval(r, var2idx, row)
    case UMinus(t) => -TermEval(t, var2idx, row)
    case Mult(l, r) => TermEval(l, var2idx, row) * TermEval(r, var2idx, row)
  }

  /** `var2idx` maps every variable of the layout to its column. */
  ghost predicate Indexes(lay: Layout, var2idx: seq<nat>) {
    forall i :: 0 <= i < |lay| ==> lay[i] < |var2idx| && var2idx[lay[i]] == i
  }

  /** `get_sparse_var_2_idx`. */
  method GetSparseVar2Idx(lay: Layout) returns (var2idx: seq<nat>)
    requires DupFree(lay)
    ensures Indexes(lay, var2idx)
  {
    var size: nat := 0;
    for i := 0 to |lay|
      invariant forall k :: 0 <= k < i ==> lay[k] < size
    {
      if size <= lay[i] {
        size := lay[i] + 1;
      }
    }
    var2idx := seq(size, k => 0);
    for i := 0 to |lay|
      invariant |var2idx| == size
      invariant forall k :: 0 <= k < i ==> var2idx[lay[k]] == k
    {
      var2idx := var2idx[lay[i] := i];
    }
  }

  lemma {:induction false} TermEvalProject(t: Term, lay: Layout, var2idx: seq<nat>, v: Env)
    requires Indexes(lay, var2idx) && forall x | x in t.FVI(0) :: x in lay
    ensures TermFits(t, var2idx, |lay|)
    ensures TermEval(t, var2idx, Project(lay, v)) == Eval(t, v)
  {
    match t
    case Var(idx) =>
      assert idx in t.FVI(0);
      var i :| 0 <= i < |lay| && lay[i] == idx;
    case Const(_) =>
    case UMinus(t1) => TermEvalProject(t1, lay, var2idx, v);
    case Plus(l, r) => TermEvalProject(l, lay, var2idx, v); TermEvalProject(r, lay, var2idx, v);
    case Minus(l, r) => TermEvalProject(l, lay, var2idx, v); TermEvalProject(r, lay, var2idx, v);
    case Mult(l, r) => TermEvalProject(l, lay, var2idx, v); TermEvalProject(r, lay, var2idx, v);
  }

  // ----- one operator on one row -----

  ghost predicate OpFits(op: UnaryOp, n: nat) {
    match op
    case AndAssign(var2idx, t) => TermFits(t, var2idx, n)
    case AndRel(var2idx, l, r, _, _) => TermFits(l, var2idx, n) && TermFits(r, var2idx, n)
    case DropColumn(dropIdx) => dropIdx.Some? ==> dropIdx.value < n
  }

  /** How many columns the result has. */
  function OutCols(op: UnaryOp, n: nat): int {
    match op
    case AndAssign(_, _) => n + 1
    case AndRel(_, _, _, _, _) => n
    case DropColumn(dropIdx) => if dropIdx.Some? then n - 1 else n
  }

  function Compare(cstType: CstType, l: Value, r: Value): bool {
    match cstType
    case CstEq => l == r
    case CstLess => l < r
    case CstLessEq => l <= r
  }

  function RemoveCol<T>(row: seq<T>, col: nat): seq<T>
    requires col < |row|
  {
    row[..col] + row[col + 1..]
  }

  function EvalOp(op: UnaryOp, row: Row): (r: Option<Row>)
    requires OpFits(op, |row|)
    ensures r.Some? ==> |r.value| == OutCols(op, |row|)
  {
    match op
    case AndAssign(var2idx, t) => Some(row + [TermEval(t, var2idx, row)])
    case AndRel(var2idx, l, r, cstType, cstNeg) =>
      if Compare(cstType, TermEval(l, var2idx, row), TermEval(r, var2idx, row)) != cstNeg then Some(row) else None
    case DropColumn(dropIdx) => if dropIdx.Some? then Some(RemoveCol(row, dropIdx.value)) else Some(row)
  }

  // ----- fusion -----

  ghost predicate OpsFit(ops: seq<UnaryOp>, n: int)
    decreases |ops|
  {
    n >= 0 && (ops == [] || (OpFits(ops[0], n) && OpsFit(ops[1..], OutCols(ops[0], n))))
  }

  /** All operators on one row, stopping at the first that drops it. */
  method EvalRow(ops: seq<UnaryOp>, row: Row) returns (r: Option<Row>)
    requires OpsFit(ops, |row|)
    ensures r == EvalOps(ops, row)
  {
    var lastRes := row;
    for i := 0 to |ops|
      invariant OpsFit(ops[i..], |lastRes|)
      invariant EvalOps(ops, row) == EvalOps(ops[i..], lastRes)
    {
      var newRes := EvalOp(ops[i], lastRes);
      assert ops[i..][1..] == ops[i + 1..];
      if newRes.None? {
        return None;
      }
      lastRes := newRes.value;
    }
    r := Some(lastRes);
  }

  function EvalOps(ops: seq<UnaryOp>, row: Row): Option<Row>
    requires OpsFit(ops, |row|)
    decreases |ops|
  {
    if ops == [] then Some(row) else
      var r := EvalOp(ops[0], row);
      if r.None? then None else EvalOps(ops[1..], r.value)
  }

  /** The set-level meaning of one operator. */
  ghost predicate IsImage(op: UnaryOp, n: nat, tab: Table, res: Table)
    requires OpFits(op, n)
  {
    forall r :: r in res <==> exists row :: row in tab && |row| == n && EvalOp(op, row) == Some(r)
  }

  /** Evaluating row by row. */
  ghost predicate IsFusedImage(ops: seq<UnaryOp>, n: nat, tab: Table, res: Table)
    requires OpsFit(ops, n)
  {
    forall r :: r in res <==> exists row :: row in tab && |row| == n && EvalOps(ops, row) == Some(r)
  }

  method EvalTable(ops: seq<UnaryOp>, tab: Table, ghost n: nat) returns (res: Table)
    requires RowsOf(n, tab) && OpsFit(ops, n)
    ensures IsFusedImage(ops, n, tab, res)
  {
    res := {};
    ghost var done := {};
    var todo := tab;
    while todo != {}
      invariant done !! todo && done + todo == tab && IsFusedImage(ops, n, done, res)
    {
      var row :| row in todo;
      var r := EvalRow(ops, row);
      if r.Some? {
        res := res + {r.value};
      }
      done, todo := done + {row}, todo - {row};
    }
    assert done == tab;
  }

  /** The set-level image exists: it is what filtering and mapping the rows gives. */
  lemma ImageExists(op: UnaryOp, n: nat, tab: Table) returns (res: Table)
    requires OpFits(op, n)
    ensures IsImage(op, n, tab, res)
    ensures forall r | r in res :: |r| == OutCols(op, n)
  {
    res := set row | row in tab && |row| == n && EvalOp(op, row).Some? :: EvalOp(op, row).value;
    forall r ensures r in res <==> exists row :: row in tab && |row| == n && EvalOp(op, row) == Some(r) {
      if row :| row in tab && |row| == n && EvalOp(op, row) == Some(r) {
        assert EvalOp(op, row).value in res;
      }
    }
  }

  /** Fusing an operator in front of others is composing their set-level meanings. */
  lemma FusedImageCons(ops: seq<UnaryOp>, n: nat, tab: Table, mid: Table, res: Table)
    requires OpsFit(ops, n) && ops != [] && IsImage(ops[0], n, tab, mid)
    requires IsFusedImage(ops, n, tab, res)
    ensures IsFusedImage(ops[1..], OutCols(ops[0], n), mid, res)
  {
    forall r ensures r in res <==>
        exists row :: row in mid && |row| == OutCols(ops[0], n) && EvalOps(ops[1..], row) == Some(r) {
      if r in res {
        var row :| row in tab && |row| == n && EvalOps(ops, row) == Some(r);
        var m := EvalOp(ops[0], row).value;
        assert m in mid && EvalOps(ops[1..], m) == Some(r);
      }
      if m :| m in mid && |m| == OutCols(ops[0], n) && EvalOps(ops[1..], m) == Some(r) {
        var row :| row in tab && |row| == n && EvalOp(ops[0], row) == Some(m);
        assert EvalOps(ops, row) == Some(r);
      }
    }
  }

  // ----- what the operators mean -----

  /** A formula and the layout of the tables for it. */
  datatype Stage = Stage(phi: Formula, lay: Layout)

  /** The comparison that `AndRel` makes is the constraint `c`. */
  ghost predicate Compares(l: Term, r: Term, cstType: CstType, cstNeg: bool, c: Formula) {
    var d := if cstNeg then (if c.Neg? then c.phi else c) else c;
    (cstNeg ==> c.Neg?) &&
    match cstType
    case CstEq => d == Eq(l, r)
    case CstLess => d == Less(l, r)
    case CstLessEq => d == LessEq(l, r)
  }

  /** Operator `op` turns tables for stage `s` into tables for stage `s'`. */
  ghost predicate OpStage(op: UnaryOp, s: Stage, s': Stage) {
    match op
    case AndAssign(var2idx, t) =>
      && s'.phi.And? && s'.phi.phil == s.phi && Indexes(s.lay, var2idx) && (forall x | x in t.FVI(0) :: x in s.lay)
      && exists x: nat :: x !in s.lay && s'.lay == s.lay + [x]
          && (s'.phi.phir == Eq(Var(x), t) || s'.phi.phir == Eq(t, Var(x)))
    case AndRel(var2idx, l, r, cstType, cstNeg) =>
      && s'.phi.And? && s'.phi.phil == s.phi && s'.lay == s.lay && Indexes(s.lay, var2idx)
      && (forall x | x in l.FVI(0) + r.FVI(0) :: x in s.lay)
      && Compares(l, r, cstType, cstNeg, s'.phi.phir)
    case DropColumn(dropIdx) =>
      && s'.phi == Exists(s.phi)
      && (if dropIdx.Some? then dropIdx.value < |s.lay| && s.lay[dropIdx.value] == 0 else true)
      && DroppedLayout(s.lay, dropIdx, s'.lay)
  }

  /** Without column `dropIdx`, variables move down by one. */
  ghost predicate DroppedLayout(lay: Layout, dropIdx: Option<nat>, lay': Layout)
    requires dropIdx.Some? ==> dropIdx.value < |lay|
  {
    var kept := if dropIdx.Some? then RemoveCol(lay, dropIdx.value) else lay;
    |lay'| == |kept| && forall k :: 0 <= k < |kept| ==> kept[k] == lay'[k] + 1
  }

  lemma StageFits(op: UnaryOp, s: Stage, s': Stage)
    requires OpStage(op, s, s')
    ensures OpFits(op, |s.lay|) && OutCols(op, |s.lay|) == |s'.lay|
  {
    match op
    case AndAssign(var2idx, t) => TermEvalProject(t, s.lay, var2idx, []);
    case AndRel(var2idx, l, r, _, _) => TermEvalProject(l, s.lay, var2idx, []); TermEvalProject(r, s.lay, var2idx, []);
    case DropColumn(_) =>
  }

  /** One operator, as a transformation of tables, does what its formula adds. */
  lemma OpMeaning(op: UnaryOp, s: Stage, s': Stage, tab: Table, res: Table, tr: seq<TimePoint>, i: nat)
    requires OpStage(op, s, s') && OpFits(op, |s.lay|) && Represents(s.phi, s.lay, tab, tr, i)
    requires IsImage(op, |s.lay|, tab, res)
    ensures Represents(s'.phi, s'.lay, res, tr, i)
  {
    StageFits(op, s, s');
    forall v: Env ensures Project(s'.lay, v) in res <==> Sat(s'.phi, tr, i, v) {
      match op
      case AndAssign(var2idx, t) => AssignMeaning(var2idx, t, s, s', tab, res, tr, i, v);
      case AndRel(var2idx, l, r, _, _) => RelMeaning(op, s, s', tab, res, tr, i, v);
      case DropColumn(dropIdx) => DropMeaning(dropIdx, s, s', tab, res, tr, i, v);
    }
    forall r | r in res ensures |r| == |s'.lay| {
      var row :| row in tab && |row| == |s.lay| && EvalOp(op, row) == Some(r);
    }
  }

  lemma AssignMeaning(var2idx: seq<nat>, t: Term, s: Stage, s': Stage, tab: Table, res: Table, tr: seq<TimePoint>,
                      i: nat, v: Env)
    requires var op := AndAssign(var2idx, t);
             OpStage(op, s, s') && OpFits(op, |s.lay|) && IsImage(op, |s.lay|, tab, res)
    requires Represents(s.phi, s.lay, tab, tr, i)
    ensures Project(s'.lay, v) in res <==> Sat(s'.phi, tr, i, v)
  {
    var op, p, p' := AndAssign(var2idx, t), Project(s.lay, v), Project(s'.lay, v);
    TermEvalProject(t, s.lay, var2idx, v);
    var x: nat :| x !in s.lay && s'.lay == s.lay + [x]
        && (s'.phi.phir == Eq(Var(x), t) || s'.phi.phir == Eq(t, Var(x)));
    assert p' == p + [Lookup(v, x)];
    assert Sat(s'.phi.phir, tr, i, v) <==> Lookup(v, x) == Eval(t, v) by { assert Eval(Var(x), v) == Lookup(v, x); }
    if p' in res {
      var row :| row in tab && |row| == |s.lay| && EvalOp(op, row) == Some(p');
      assert row == p'[..|s.lay|] == p;
    }
    if Sat(s'.phi, tr, i, v) {
      assert EvalOp(op, p) == Some(p');
    }
  }

  lemma RelMeaning(op: UnaryOp, s: Stage, s': Stage, tab: Table, res: Table, tr: seq<TimePoint>, i: nat, v: Env)
    requires op.AndRel? && OpStage(op, s, s') && OpFits(op, |s.lay|) && IsImage(op, |s.lay|, tab, res)
    requires Represents(s.phi, s.lay, tab, tr, i)
    ensures Project(s'.lay, v) in res <==> Sat(s'.phi, tr, i, v)
  {
    var p := Project(s.lay, v);
    TermEvalProject(op.l, s.lay, op.var2idx, v);
    TermEvalProject(op.r, s.lay, op.var2idx, v);
    assert Compare(op.cstType, Eval(op.l, v), Eval(op.r, v)) != op.cstNeg <==> Sat(s'.phi.phir, tr, i, v);
    if p in res {
      var row :| row in tab && |row| == |s.lay| && EvalOp(op, row) == Some(p);
      assert row == p;
    }
    if Sat(s'.phi, tr, i, v) {
      assert EvalOp(op, p) == Some(p);
    }
  }

  lemma DropMeaning(dropIdx: Option<nat>, s: Stage, s': Stage, tab: Table, res: Table, tr: seq<TimePoint>, i: nat,
                    v: Env)
    requires var op := DropColumn(dropIdx);
             OpStage(op, s, s') && OpFits(op, |s.lay|) && IsImage(op, |s.lay|, tab, res)
    requires Represents(s.phi, s.lay, tab, tr, i)
    ensures Project(s'.lay, v) in res <==> Sat(s'.phi, tr, i, v)
  {
    hide DroppedLayout;
    var op, p' := DropColumn(dropIdx), Project(s'.lay, v);
    if p' in res {
      var row :| row in tab && |row| == |s.lay| && EvalOp(op, row) == Some(p');
      var x := if dropIdx.Some? then row[dropIdx.value] else 0;
      DropProject(dropIdx, s.lay, s'.lay, row, x, v);
      assert Sat(s.phi, tr, i, [x] + v);
    }
    if Sat(s'.phi, tr, i, v) {
      var x: Value :| Sat(s.phi, tr, i, [x] + v);
      var row := Project(s.lay, [x] + v);
      DropProject(dropIdx, s.lay, s'.lay, row, x, v);
      assert EvalOp(op, row) == Some(p');
    }
  }

  /** The row of `[x] + v` is the row of `v` with value `x` in the dropped column. */
  lemma DropProject(dropIdx: Option<nat>, lay: Layout, lay': Layout, row: Row, x: Value, v: Env)
    requires dropIdx.Some? ==> dropIdx.value < |lay| && lay[dropIdx.value] == 0
    requires DroppedLayout(lay, dropIdx, lay') && |row| == |lay|
    requires dropIdx.Some? ==> row[dropIdx.value] == x
    ensures (if dropIdx.Some? then RemoveCol(row, dropIdx.value) else row) == Project(lay', v)
            <==> row == Project(lay, [x] + v)
  {
    var p := Project(lay, [x] + v);
    if dropIdx.Some? {
      var d := dropIdx.value;
      assert row == row[..d] + [x] + row[d + 1..];
      assert p == p[..d] + [x] + p[d + 1..];
      assert RemoveCol(p, d) == Project(lay', v) by { DropColumnProject(d, lay, lay', x, v); }
      if RemoveCol(row, d) == RemoveCol(p, d) {
        assert row[..d] == RemoveCol(row, d)[..d] == p[..d];
        assert row[d + 1..] == RemoveCol(row, d)[d..] == p[d + 1..];
      }
    } else {
      assert p == Project(lay', v);
    }
  }

  lemma DropColumnProject(d: nat, lay: Layout, lay': Layout, x: Value, v: Env)
    requires d < |lay| && DroppedLayout(lay, Some(d), lay')
    ensures RemoveCol(Project(lay, [x] + v), d) == Project(lay', v)
  {
    var p, kept := Project(lay, [x] + v), RemoveCol(lay, d);
    forall k | 0 <= k < |lay'| ensures RemoveCol(p, d)[k] == Lookup(v, lay'[k]) {
      assert kept[k] == lay'[k] + 1;
      assert RemoveCol(p, d)[k] == Lookup([x] + v, kept[k]);
    }
  }

  // ----- a whole list of operators -----

  /** `stages` leads from the tables of the child to the tables of the fused node. */
  ghost predicate StagesOk(ops: seq<UnaryOp>, stages: seq<Stage>) {
    |stages| == |ops| + 1 && forall k :: 0 <= k < |ops| ==> OpStage(ops[k], stages[k], stages[k + 1])
  }

  lemma {:induction false} StagesFit(ops: seq<UnaryOp>, stages: seq<Stage>)
    requires StagesOk(ops, stages)
    ensures OpsFit(ops, |stages[0].lay|)
    decreases |ops|
  {
    if ops != [] {
      StageFits(ops[0], stages[0], stages[1]);
      StagesFit(ops[1..], stages[1..]);
    }
  }

  /** Row-by-row evaluation of the fused list computes the tables of the last stage. */
  lemma {:induction false} FusedMeaning(ops: seq<UnaryOp>, stages: seq<Stage>, tab: Table, res: Table,
                                        tr: seq<TimePoint>, i: nat)
    requires StagesOk(ops, stages) && OpsFit(ops, |stages[0].lay|)
    requires Represents(stages[0].phi, stages[0].lay, tab, tr, i) && IsFusedImage(ops, |stages[0].lay|, tab, res)
    ensures Represents(stages[|ops|].phi, stages[|ops|].lay, res, tr, i)
    decreases |ops|
  {
    if ops == [] {
      assert forall r :: r in res <==> r in tab;
    } else {
      StageFits(ops[0], stages[0], stages[1]);
      var mid := ImageExists(ops[0], |stages[0].lay|, tab);
      OpMeaning(ops[0], stages[0], stages[1], tab, mid, tr, i);
      FusedImageCons(ops, |stages[0].lay|, tab, mid, res);
      FusedMeaning(ops[1..], stages[1..], mid, res, tr, i);
    }
  }
}
