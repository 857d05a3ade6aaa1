/** Compiling formulas to operator trees (src/monitor.cpp and src/monitor.h, MState::init_mstate and its helpers). */
module StateInit {
  import opened Wrappers
  import opened Intervals
  import opened Tables
  import opened Temporal
  import opened Formulas
  import opened Joins
  import opened Meaning
  import opened Buffers
  import opened PrevNext
  import opened Preds
  import opened UnaryOps
  import opened Streams
  import opened Reductions
  import opened SinceOperator
  import opened UntilOperator
  import opened TemporalStreams
  import opened OperatorTree
  import opened Layouts

  // ----- what compilation establishes -----

  /** A fresh state for `phi` that has read nothing, with its layout. */
  ghost predicate Initial(st: MState, phi: Formula, lay: Layout, tr: seq<TimePoint>)
    reads st, st.repr
  {
    st.Valid() && st.n == 0 && st.phi == phi && st.lay == lay && st.tr == tr && IsLayout(phi, lay)
  }

  method InitEq(l: Term, r: Term, ghost tr: seq<TimePoint>) returns (st: MState, lay: Layout)
    requires Eq(l, r).Monitorable() && WellFormedTrace(tr)
    ensures Initial(st, Eq(l, r), lay, tr) && fresh(st.repr)
  {
    hide MState.Valid;
    ghost var phi := Eq(l, r);
    assert phi.Columns() == phi.FVs();
    var tab: Table;
    if l.Const? && r.Const? {
      tab, lay := if l.c == r.c then {[]} else {}, [];
    } else if r.Var? {
      tab, lay := {[l.c]}, [r.idx];
    } else {
      tab, lay := {[r.c]}, [l.idx];
    }
    forall v: Env ensures Project(lay, v) in tab <==> Eval(l, v) == Eval(r, v) {
      assert Project(lay, v) == if lay == [] then [] else [Lookup(v, lay[0])];
    }
    st := new MState(MRel(tab), phi, lay, tr, [], 0, {});
    st.Unfold();
  }

  method InitPred(id: PredId, args: seq<Term>, ghost tr: seq<TimePoint>) returns (st: MState, lay: Layout)
    requires Pred(id, args).Monitorable() && WellFormedTrace(tr)
    ensures Initial(st, Pred(id, args), lay, tr) && fresh(st.repr)
  {
    hide MState.Valid;
    var varPos, pos2cst;
    lay, varPos, pos2cst := InitPredState(args);
    CompiledIsLayout(id, args, lay, varPos, pos2cst);
    st := new MState(MPred(id, args, varPos, pos2cst), Pred(id, args), lay, tr, [], 0, {});
    st.Unfold();
  }

  method InitPrev(inter: Interval, ghost psi: Formula, rec: MState, lay: Layout, ghost tr: seq<TimePoint>)
    returns (st: MState)
    requires Initial(rec, psi, lay, tr) && WellFormedTrace(tr)
    ensures Initial(st, Prev(inter, psi), lay, tr) && fresh(st.repr - rec.repr)
  {
    hide MState.Valid;
    KeptLayout(psi, lay);
    var prev := new PrevState(inter);
    st := new MState(MPrev(rec, prev), Prev(inter, psi), lay, tr, [], rec.height + 1, rec.repr + {prev});
    ReceivedNone(psi, lay, tr);
    assert Stamps(tr, 0) == [];
    rec.InRepr();
    st.Unfold();
  }

  method InitNext(inter: Interval, ghost psi: Formula, rec: MState, lay: Layout, ghost tr: seq<TimePoint>)
    returns (st: MState)
    requires Initial(rec, psi, lay, tr) && WellFormedTrace(tr)
    ensures Initial(st, Next(inter, psi), lay, tr) && fresh(st.repr - rec.repr)
  {
    hide MState.Valid;
    KeptLayout(psi, lay);
    var next := new NextState(inter);
    st := new MState(MNext(rec, next), Next(inter, psi), lay, tr, [], rec.height + 1, rec.repr + {next});
    ReceivedNone(psi, lay, tr);
    assert Stamps(tr, 0) == [];
    rec.InRepr();
    st.Unfold();
  }

  method InitNeg(ghost psi: Formula, rec: MState, ghost lay: Layout, ghost tr: seq<TimePoint>) returns (st: MState)
    requires Initial(rec, psi, lay, tr) && WellFormedTrace(tr) && psi.FVs() == {}
    ensures Initial(st, Neg(psi), [], tr) && fresh(st.repr - rec.repr)
  {
    hide MState.Valid;
    ColumnsAreFree(psi);
    ghost var columns := SetOfLayout(lay);
    assert columns == {};
    st := new MState(MNeg(rec), Neg(psi), [], tr, [], rec.height + 1, rec.repr);
    rec.InRepr();
    st.Unfold();
  }

  /** A negation with free variables becomes an empty table, whatever it negates. */
  method InitOpenNeg(l: Term, r: Term, ghost tr: seq<TimePoint>) returns (st: MState)
    requires Neg(Eq(l, r)).IsVacuous() && WellFormedTrace(tr)
    ensures Initial(st, Neg(Eq(l, r)), [], tr) && fresh(st.repr)
  {
    hide MState.Valid;
    VacuousLayout(Neg(Eq(l, r)));
    assert Eq(l, r).FVs() == {l.idx};
    forall i: nat, v: Env | i < |tr| ensures !Sat(Neg(Eq(l, r)), tr, i, v) {
      assert Sat(Eq(l, r), tr, i, v);
    }
    st := new MState(MRel({}), Neg(Eq(l, r)), [], tr, [], 0, {});
    st.Unfold();
  }

  // ----- fused unary operators -----

  method WrapFused(op: UnaryOp, ghost s: Stage, ghost s': Stage, rec: MState, ghost tr: seq<TimePoint>)
    returns (st: MState)
    requires Initial(rec, s.phi, s.lay, tr) && OpStage(op, s, s') && WellFormedTrace(tr) && IsLayout(s'.phi, s'.lay)
    ensures Initial(st, s'.phi, s'.lay, tr) && fresh(st.repr - rec.repr)
  {
    hide MState.Valid, OpStage, IsLayout, WellFormedTrace;
    st := new MState(MFused(rec, [op]), s'.phi, s'.lay, tr, [s, s'], rec.height + 1, rec.repr);
    rec.InRepr();
    st.Unfold();
  }

  method ExtendFused(op: UnaryOp, ghost s: Stage, ghost s': Stage, rec: MState, ghost tr: seq<TimePoint>)
    returns (st: MState)
    requires Initial(rec, s.phi, s.lay, tr) && OpStage(op, s, s') && WellFormedTrace(tr) && IsLayout(s'.phi, s'.lay)
             && rec.op.MFused?
    ensures Initial(st, s'.phi, s'.lay, tr) && fresh(st.repr - rec.repr)
  {
    hide MState.Valid, StagesOk, IsLayout, WellFormedTrace;
    rec.Unfold();
    var child, ops := rec.op.child, rec.op.ops;
    StagesMore(ops, rec.stages, op, s, s');
    st := new MState(MFused(child, ops + [op]), s'.phi, s'.lay, tr, rec.stages + [s'], child.height + 1, child.repr);
    st.Unfold();
  }

  /** `combine_fused_state`: a fused operator is extended, any other is wrapped. */
  method CombineFusedState(op: UnaryOp, ghost s: Stage, ghost s': Stage, rec: MState, ghost tr: seq<TimePoint>)
    returns (st: MState)
    requires Initial(rec, s.phi, s.lay, tr) && OpStage(op, s, s') && WellFormedTrace(tr) && IsLayout(s'.phi, s'.lay)
    ensures Initial(st, s'.phi, s'.lay, tr) && fresh(st.repr - rec.repr)
  {
    if rec.op.MFused? {
      st := ExtendFused(op, s, s', rec, tr);
    } else {
      st := WrapFused(op, s, s', rec, tr);
    }
  }

  lemma StagesMore(ops: seq<UnaryOp>, stages: seq<Stage>, op: UnaryOp, s: Stage, s': Stage)
    requires StagesOk(ops, stages) && stages[|ops|] == s && OpStage(op, s, s')
    ensures StagesOk(ops + [op], stages + [s']) && |stages| == |ops| + 1
  {
    hide OpStage;
  }

  method InitAndRel(phil: Formula, phir: Formula, rec: MState, lay: Layout, ghost tr: seq<TimePoint>)
    returns (st: MState)
    requires Initial(rec, phil, lay, tr) && WellFormedTrace(tr) && phir.FVs() <= phil.Columns()
    requires !phir.IsSafeAssignment(phil.FVs()) && !phir.IsSafeFormula()
    requires phir.IsComparison() || (phir.Neg? && phir.phi.IsComparison())
    ensures Initial(st, And(phil, phir), lay, tr) && fresh(st.repr - rec.repr)
  {
    var cstNeg, c := phir.Neg?, phir;
    if phir.Neg? {
      c := phir.phi;
    }
    var cstType := match c
      case Eq(_, _) => CstEq
      case Less(_, _) => CstLess
      case _ => CstLessEq;
    var var2idx := GetSparseVar2Idx(lay);
    var op := AndRel(var2idx, c.l, c.r, cstType, cstNeg);
    ghost var s, s' := Stage(phil, lay), Stage(And(phil, phir), lay);
    assert phir.FVI(0) == c.FVI(0) == c.l.FVI(0) + c.r.FVI(0);
    assert OpStage(op, s, s');
    FilterLayout(phil, phir, lay);
    hide OpStage, IsLayout;
    st := CombineFusedState(op, s, s', rec, tr);
  }

  method InitAndSafeAssign(phil: Formula, phir: Formula, rec: MState, recLay: Layout, ghost tr: seq<TimePoint>)
    returns (st: MState, lay: Layout)
    requires Initial(rec, phil, recLay, tr) && WellFormedTrace(tr) && phir.IsSafeAssignment(phil.FVs())
    requires phir.Assigned(phil.FVs()).1.FVI(0) <= phil.Columns()
    ensures Initial(st, And(phil, phir), lay, tr) && fresh(st.repr - rec.repr)
  {
    var fvL := phil.FVs();
    var l, r := phir.l, phir.r;
    var newVar, trmToEval;
    if l.Var? && r.Var? {
      newVar, trmToEval := if l.idx in fvL then r.idx else l.idx, if l.idx in fvL then l else r;
    } else if l.Var? {
      newVar, trmToEval := l.idx, r;
    } else {
      newVar, trmToEval := r.idx, l;
    }
    var var2idx := GetSparseVar2Idx(recLay);
    lay := recLay + [newVar];
    var op := AndAssign(var2idx, trmToEval);
    ghost var s, s' := Stage(phil, recLay), Stage(And(phil, phir), lay);
    assert phir.Assigned(fvL) == (newVar, trmToEval);
    AssignLayout(phil, phir, recLay);
    st := CombineFusedState(op, s, s', rec, tr);
  }

  lemma AssignLayout(phil: Formula, phir: Formula, lay: Layout)
    requires IsLayout(phil, lay) && phir.IsSafeAssignment(phil.FVs())
    ensures var (x, t) := phir.Assigned(phil.FVs());
            x !in lay && (phir == Eq(Var(x), t) || phir == Eq(t, Var(x))) && IsLayout(And(phil, phir), lay + [x])
  {
    AssignmentVariables(phir, phil.FVs());
    ColumnsAreFree(phil);
    assert And(phil, phir).LayoutVars() == Some(phil.Columns() + {phir.Assigned(phil.FVs()).0});
  }

  method InitExists(ghost psi: Formula, rec: MState, recLay: Layout, ghost tr: seq<TimePoint>)
    returns (st: MState, lay: Layout)
    requires Initial(rec, psi, recLay, tr) && WellFormedTrace(tr)
    ensures Initial(st, Exists(psi), lay, tr) && fresh(st.repr - rec.repr)
  {
    var dropIdx;
    lay, dropIdx := DropBound(recLay);
    ExistsIsLayout(psi, recLay, dropIdx, lay);
    st := CombineFusedState(DropColumn(dropIdx), Stage(psi, recLay), Stage(Exists(psi), lay), rec, tr);
  }

  /** The column of the bound variable, if there is one, and the layout of the others. */
  method DropBound(recLay: Layout) returns (lay: Layout, dropIdx: Option<nat>)
    requires DupFree(recLay)
    ensures dropIdx.Some? ==> dropIdx.value < |recLay| && recLay[dropIdx.value] == 0
    ensures DroppedLayout(recLay, dropIdx, lay)
  {
    dropIdx := None;
    for i := 0 to |recLay|
      invariant dropIdx.None? ==> forall k :: 0 <= k < i ==> recLay[k] != 0
      invariant dropIdx.Some? ==> dropIdx.value < |recLay| && recLay[dropIdx.value] == 0
    {
      if dropIdx.None? && recLay[i] == 0 {
        dropIdx := Some(i);
      }
    }
    ghost var kept := if dropIdx.Some? then RemoveCol(recLay, dropIdx.value) else recLay;
    lay := [];
    for i := 0 to |recLay|
      invariant |lay| == if dropIdx.Some? && dropIdx.value < i then i - 1 else i
      invariant forall k :: 0 <= k < |lay| ==> kept[k] == lay[k] + 1
    {
      if dropIdx.None? || i != dropIdx.value {
        lay := lay + [recLay[i] - 1];
      }
    }
  }

  // ----- binary operators -----

  /** The branches of `init_and_state` that join, and that an anti-join finds its columns on the left. */
  predicate Joinable(phil: Formula, phir: Formula, rightNegated: bool) {
    var r := if rightNegated then Neg(phir) else phir;
    !r.IsSafeAssignment(phil.FVs()) &&
    if rightNegated then !r.IsSafeFormula() && !r.IsConstraint() && phir.Columns() <= phil.Columns()
    else r.IsSafeFormula()
  }

  method JoinInfoFor(phil: Formula, phir: Formula, rightNegated: bool, lLay: Layout, rLay: Layout)
    returns (info: AndInfo, lay: Layout)
    requires IsLayout(phil, lLay) && IsLayout(phir, rLay) && Joinable(phil, phir, rightNegated)
    ensures var phi := And(phil, if rightNegated then Neg(phir) else phir);
            AndOk(info, phil, lLay, phir, rLay, phi, lay) && IsLayout(phi, lay)
  {
    if rightNegated {
      var anti := GetAntiJoinInfo(lLay, rLay);
      info, lay := AntiInfo(anti), anti.resultLayout;
    } else {
      var join := GetJoinInfo(lLay, rLay);
      info, lay := NaturalInfo(join), join.resultLayout;
      JoinLayout(lLay, rLay, join);
      AndLayout(phil, phir, lLay, rLay, lay);
    }
  }

  method InitAndJoin(phil: Formula, phir: Formula, rightNegated: bool, l: MState, lLay: Layout, r: MState,
                     rLay: Layout, ghost tr: seq<TimePoint>)
    returns (st: MState, lay: Layout)
    requires Initial(l, phil, lLay, tr) && Initial(r, phir, rLay, tr) && l.repr !! r.repr && WellFormedTrace(tr)
    requires Joinable(phil, phir, rightNegated)
    ensures Initial(st, And(phil, if rightNegated then Neg(phir) else phir), lay, tr)
            && fresh(st.repr - l.repr - r.repr)
  {
    hide MState.Valid, AndOk, IsLayout, WellFormedTrace, Received;
    var info;
    info, lay := JoinInfoFor(phil, phir, rightNegated, lLay, rLay);
    ghost var phi := And(phil, if rightNegated then Neg(phir) else phir);
    var buf := new BinaryBuffer<Table>();
    st := new MState(MAnd(l, r, buf, info), phi, lay, tr, [], l.height + r.height + 1, l.repr + r.repr + {buf});
    ReceivedNone(phil, lLay, tr);
    ReceivedNone(phir, rLay, tr);
    l.InRepr();
    r.InRepr();
    st.Unfold();
  }

  method UnionInfoFor(ghost phil: Formula, ghost phir: Formula, lLay: Layout, rLay: Layout) returns (perm: seq<nat>)
    requires IsLayout(phil, lLay) && IsLayout(phir, rLay) && phil.Columns() == phir.Columns()
    ensures OrOk(perm, lLay, rLay) && IsLayout(Or(phil, phir), lLay)
  {
    perm := FindPermutation(lLay, rLay);
    SameLength(lLay, rLay);
  }

  method InitOr(ghost phil: Formula, ghost phir: Formula, l: MState, lLay: Layout, r: MState, rLay: Layout,
                ghost tr: seq<TimePoint>)
    returns (st: MState)
    requires Initial(l, phil, lLay, tr) && Initial(r, phir, rLay, tr) && l.repr !! r.repr && WellFormedTrace(tr)
    requires phil.Columns() == phir.Columns()
    ensures Initial(st, Or(phil, phir), lLay, tr) && fresh(st.repr - l.repr - r.repr)
  {
    hide MState.Valid, OrOk, WellFormedTrace, Received;
    var perm := UnionInfoFor(phil, phir, lLay, rLay);
    var buf := new BinaryBuffer<Table>();
    st := new MState(MOr(l, r, buf, perm), Or(phil, phir), lLay, tr, [], l.height + r.height + 1,
        l.repr + r.repr + {buf});
    ReceivedNone(phil, lLay, tr);
    ReceivedNone(phir, rLay, tr);
    l.InRepr();
    r.InRepr();
    st.Unfold();
  }

  // ----- since and until -----

  method InitOnce(phi: Formula, r: MState, rLay: Layout, ghost tr: seq<TimePoint>) returns (st: MState)
    requires phi.Since? && phi.phil.IsAlwaysTrue() && Initial(r, phi.phir, rLay, tr) && WellFormedTrace(tr)
    ensures Initial(st, phi, rLay, tr) && fresh(st.repr - r.repr)
  {
    hide MState.Valid, SinceImpl.Valid, IsLayout;
    TemporalLayout(phi, rLay);
    var impl := new SinceImpl(phi.inter, LeftTest(true, []), |rLay|, null);
    assert impl.Hooked() == {};
    st := new MState(MOnce(r, impl), phi, rLay, tr, [], r.height + 1, r.repr + {impl});
    FedNone(phi.phil, phi.phir, impl.test, rLay, tr);
    r.InRepr();
    st.Unfold();
  }

  method InitEventually(phi: Formula, r: MState, rLay: Layout, ghost tr: seq<TimePoint>) returns (st: MState)
    requires phi.Until? && phi.phil.IsAlwaysTrue() && Initial(r, phi.phir, rLay, tr) && WellFormedTrace(tr)
    ensures Initial(st, phi, rLay, tr) && fresh(st.repr - r.repr)
  {
    hide MState.Valid, UntilImpl.Valid, IsLayout;
    TemporalLayout(phi, rLay);
    var impl := new UntilImpl(phi.inter, LeftTest(true, []), |rLay|);
    st := new MState(MEventually(r, impl), phi, rLay, tr, [], r.height + 1, r.repr + {impl});
    FedNone(phi.phil, phi.phir, impl.test, rLay, tr);
    r.InRepr();
    st.Unfold();
  }

  /** The columns of the right operand that the left operand is looked up by. */
  method LeftTestFor(ghost phil: Formula, ghost psi: Formula, ghost phir: Formula, leftNegated: bool, lLay: Layout,
                     rLay: Layout)
    returns (test: LeftTest)
    requires IsLayout(psi, lLay) && IsLayout(phir, rLay) && psi.Columns() <= phir.Columns()
    requires phil == if leftNegated then Neg(psi) else psi
    ensures TestOk(test, psi, lLay, rLay, phil) && test.negated == leftNegated
  {
    var info := GetJoinInfo(lLay, rLay);
    test := LeftTest(leftNegated, info.commIdx2);
  }

  method NewSince(phi: Formula, ghost psi: Formula, l: MState, ghost lLay: Layout, r: MState, ghost rLay: Layout,
                  impl: SinceImpl, ghost tr: seq<TimePoint>)
    returns (st: MState)
    requires phi.Since? && IsLayout(phi, rLay) && TestOk(impl.test, psi, lLay, rLay, phi.phil)
    requires Initial(l, psi, lLay, tr) && Initial(r, phi.phir, rLay, tr) && l.repr !! r.repr && WellFormedTrace(tr)
    requires impl.Valid() && impl.agg == null && impl.nfvs == |rLay| && impl.inter == phi.inter && impl.es == []
             && impl.ls == []
    requires impl !in l.repr && impl !in r.repr
    ensures Initial(st, phi, rLay, tr) && fresh(st.repr - l.repr - r.repr - {impl})
  {
    hide MState.Valid, SinceImpl.Valid, TestOk, IsLayout, Fed, WellFormedTrace, Progress;
    assert impl.Hooked() == {};
    var buf := new BinaryBuffer<Table>();
    st := new MState(MSince(l, r, buf, impl), phi, rLay, tr, [], l.height + r.height + 1,
        l.repr + r.repr + {buf, impl});
    FedNone(phi.phil, phi.phir, impl.test, rLay, tr);
    ReceivedNone(psi, lLay, tr);
    ReceivedNone(phi.phir, rLay, tr);
    l.InRepr();
    r.InRepr();
    st.Unfold();
  }

  method InitSince(phi: Formula, leftNegated: bool, ghost psi: Formula, l: MState, lLay: Layout, r: MState,
                   rLay: Layout, ghost tr: seq<TimePoint>)
    returns (st: MState)
    requires phi.Since? && phi.phil == (if leftNegated then Neg(psi) else psi) && leftNegated == phi.phil.Neg?
    requires psi.Columns() <= phi.phir.Columns()
    requires Initial(l, psi, lLay, tr) && Initial(r, phi.phir, rLay, tr) && l.repr !! r.repr && WellFormedTrace(tr)
    ensures Initial(st, phi, rLay, tr) && fresh(st.repr - l.repr - r.repr)
  {
    hide MState.Valid, SinceImpl.Valid, TestOk, WellFormedTrace;
    TemporalLayout(phi, rLay);
    var test := LeftTestFor(phi.phil, psi, phi.phir, leftNegated, lLay, rLay);
    var impl := MakeSince(phi.inter, test, psi, lLay, rLay, phi.phil);
    assert impl.Hooked() == {};
    st := NewSince(phi, psi, l, lLay, r, rLay, impl, tr);
  }

  method MakeSince(inter: Interval, test: LeftTest, ghost psi: Formula, ghost lLay: Layout, rLay: Layout,
                   ghost phil: Formula)
    returns (impl: SinceImpl)
    requires TestOk(test, psi, lLay, rLay, phil)
    ensures fresh(impl) && impl.Valid() && impl.agg == null && impl.nfvs == |rLay| && impl.inter == inter
            && impl.test == test
    ensures impl.es == [] && impl.ls == []
  {
    impl := new SinceImpl(inter, test, |rLay|, null);
  }

  method NewUntil(phi: Formula, ghost psi: Formula, l: MState, ghost lLay: Layout, r: MState, ghost rLay: Layout,
                  impl: UntilImpl, ghost tr: seq<TimePoint>)
    returns (st: MState)
    requires phi.Until? && IsLayout(phi, rLay) && TestOk(impl.test, psi, lLay, rLay, phi.phil)
    requires Initial(l, psi, lLay, tr) && Initial(r, phi.phir, rLay, tr) && l.repr !! r.repr && WellFormedTrace(tr)
    requires impl.Valid() && impl.nfvs == |rLay| && impl.inter == phi.inter && impl.es == [] && impl.ls == [] &&
             impl.returned == 0 && impl.look == 0 && impl.out == []
    requires impl !in l.repr && impl !in r.repr
    ensures Initial(st, phi, rLay, tr) && fresh(st.repr - l.repr - r.repr - {impl})
  {
    hide MState.Valid, UntilImpl.Valid, TestOk, IsLayout, Fed, WellFormedTrace, Progress;
    var buf := new BinaryBuffer<Table>();
    st := new MState(MUntil(l, r, buf, impl), phi, rLay, tr, [], l.height + r.height + 1,
        l.repr + r.repr + {buf, impl});
    FedNone(phi.phil, phi.phir, impl.test, rLay, tr);
    ReceivedNone(psi, lLay, tr);
    ReceivedNone(phi.phir, rLay, tr);
    l.InRepr();
    r.InRepr();
    st.Unfold();
  }

  method InitUntil(phi: Formula, leftNegated: bool, ghost psi: Formula, l: MState, lLay: Layout, r: MState,
                   rLay: Layout, ghost tr: seq<TimePoint>)
    returns (st: MState)
    requires phi.Until? && phi.phil == (if leftNegated then Neg(psi) else psi) && leftNegated == phi.phil.Neg?
    requires psi.Columns() <= phi.phir.Columns()
    requires Initial(l, psi, lLay, tr) && Initial(r, phi.phir, rLay, tr) && l.repr !! r.repr && WellFormedTrace(tr)
    ensures Initial(st, phi, rLay, tr) && fresh(st.repr - l.repr - r.repr)
  {
    hide MState.Valid, UntilImpl.Valid, TestOk, WellFormedTrace;
    TemporalLayout(phi, rLay);
    var test := LeftTestFor(phi.phil, psi, phi.phir, leftNegated, lLay, rLay);
    var impl := MakeUntil(phi.inter, test, psi, lLay, rLay, phi.phil);
    st := NewUntil(phi, psi, l, lLay, r, rLay, impl, tr);
  }

  method MakeUntil(inter: Interval, test: LeftTest, ghost psi: Formula, ghost lLay: Layout, rLay: Layout,
                   ghost phil: Formula)
    returns (impl: UntilImpl)
    requires TestOk(test, psi, lLay, rLay, phil)
    ensures fresh(impl) && impl.Valid() && impl.nfvs == |rLay| && impl.inter == inter && impl.test == test
    ensures impl.es == [] && impl.ls == [] && impl.returned == 0 && impl.look == 0 && impl.out == []
  {
    impl := new UntilImpl(inter, test, |rLay|);
  }

  // ----- compilation -----

  method InitAnd(phil: Formula, phir: Formula, ghost tr: seq<TimePoint>) returns (st: MState, lay: Layout)
    requires And(phil, phir).Monitorable() && WellFormedTrace(tr)
    ensures Initial(st, And(phil, phir), lay, tr) && fresh(st.repr)
    decreases And(phil, phir), 0
  {
    hide Initial;
    var l, lLay := InitMState(phil, tr);
    if phir.IsSafeAssignment(phil.FVs()) {
      st, lay := InitAndSafeAssign(phil, phir, l, lLay, tr);
    } else if phir.IsSafeFormula() {
      var r, rLay := InitMState(phir, tr);
      st, lay := InitAndJoin(phil, phir, false, l, lLay, r, rLay, tr);
    } else if phir.IsConstraint() {
      lay := lLay;
      st := InitAndRel(phil, phir, l, lLay, tr);
    } else {
      var r, rLay := InitMState(phir.phi, tr);
      st, lay := InitAndJoin(phil, phir.phi, true, l, lLay, r, rLay, tr);
    }
  }

  method InitSinceUntil(phi: Formula, ghost tr: seq<TimePoint>) returns (st: MState, lay: Layout)
    requires (phi.Since? || phi.Until?) && phi.Monitorable() && WellFormedTrace(tr)
    ensures Initial(st, phi, lay, tr) && fresh(st.repr)
    decreases phi, 0
  {
    hide Initial;
    var r;
    r, lay := InitMState(phi.phir, tr);
    if phi.phil.IsAlwaysTrue() {
      if phi.Since? {
        st := InitOnce(phi, r, lay, tr);
      } else {
        st := InitEventually(phi, r, lay, tr);
      }
    } else {
      var leftNegated := phi.phil.Neg?;
      var psi := if phi.phil.Neg? then phi.phil.phi else phi.phil;
      var l, lLay := InitMState(psi, tr);
      if phi.Since? {
        st := InitSince(phi, leftNegated, psi, l, lLay, r, lay, tr);
      } else {
        st := InitUntil(phi, leftNegated, psi, l, lLay, r, lay, tr);
      }
    }
  }

  method InitMState(phi: Formula, ghost tr: seq<TimePoint>) returns (st: MState, lay: Layout)
    requires phi.Monitorable() && WellFormedTrace(tr)
    ensures Initial(st, phi, lay, tr) && fresh(st.repr)
    decreases phi, 1
  {
    hide Initial;
    match phi
    case Neg(psi) =>
      lay := [];
      if psi.FVs() == {} {
        var rec, recLay := InitMState(psi, tr);
        st := InitNeg(psi, rec, recLay, tr);
      } else {
        st := InitOpenNeg(psi.l, psi.r, tr);
      }
    case Eq(l, r) => st, lay := InitEq(l, r, tr);
    case Pred(id, args) => st, lay := InitPred(id, args, tr);
    case Or(phil, phir) =>
      var l, rLay, r;
      l, lay := InitMState(phil, tr);
      r, rLay := InitMState(phir, tr);
      st := InitOr(phil, phir, l, lay, r, rLay, tr);
    case And(phil, phir) => st, lay := InitAnd(phil, phir, tr);
    case Exists(psi) =>
      var rec, recLay := InitMState(psi, tr);
      st, lay := InitExists(psi, rec, recLay, tr);
    case Prev(inter, psi) =>
      var rec;
      rec, lay := InitMState(psi, tr);
      st := InitPrev(inter, psi, rec, lay, tr);
    case Next(inter, psi) =>
      var rec;
      rec, lay := InitMState(psi, tr);
      st := InitNext(inter, psi, rec, lay, tr);
    case Since(_, _, _) => st, lay := InitSinceUntil(phi, tr);
    case Until(_, _, _) => st, lay := InitSinceUntil(phi, tr);
  }
}
