/** Free variables and layouts under binders. */
module Layouts {
  import opened Wrappers
  import opened Formulas
  import opened Joins
  import opened Meaning
  import opened UnaryOps

  lemma {:induction false} TermShift(t: Term, bound: nat, x: nat)
    ensures x in t.FVI(bound + 1) <==> x + 1 in t.FVI(bound)
  {
    match t
    case Var(_) =>
    case Const(_) =>
    case UMinus(t1) => TermShift(t1, bound, x);
    case Plus(l, r) => TermShift(l, bound, x); TermShift(r, bound, x);
    case Minus(l, r) => TermShift(l, bound, x); TermShift(r, bound, x);
    case Mult(l, r) => TermShift(l, bound, x); TermShift(r, bound, x);
  }

  lemma {:induction false} ArgsShift(args: seq<Term>, bound: nat, x: nat)
    ensures x in ArgsFVI(args, bound + 1) <==> x + 1 in ArgsFVI(args, bound)
  {
    if args != [] {
      TermShift(args[0], bound, x);
      ArgsShift(args[1..], bound, x);
    }
  }

  /** Under one more binder, variables are numbered one lower. */
  lemma {:induction false} FVIShift(phi: Formula, bound: nat, x: nat)
    ensures x in phi.FVI(bound + 1) <==> x + 1 in phi.FVI(bound)
    decreases phi
  {
    match phi
    case Pred(_, args) => ArgsShift(args, bound, x);
    case Eq(l, r) => TermShift(l, bound, x); TermShift(r, bound, x);
    case Less(l, r) => TermShift(l, bound, x); TermShift(r, bound, x);
    case LessEq(l, r) => TermShift(l, bound, x); TermShift(r, bound, x);
    case Neg(psi) => FVIShift(psi, bound, x);
    case Or(l, r) => FVIShift(l, bound, x); FVIShift(r, bound, x);
    case And(l, r) => FVIShift(l, bound, x); FVIShift(r, bound, x);
    case Exists(psi) => FVIShift(psi, bound + 1, x);
    case Prev(_, psi) => FVIShift(psi, bound, x);
    case Next(_, psi) => FVIShift(psi, bound, x);
    case Since(_, l, r) => FVIShift(l, bound, x); FVIShift(r, bound, x);
    case Until(_, l, r) => FVIShift(l, bound, x); FVIShift(r, bound, x);
  }

  lemma KeptColumns(lay: Layout, d: nat, y: nat)
    requires DupFree(lay) && d < |lay|
    ensures DupFree(RemoveCol(lay, d)) && (y in RemoveCol(lay, d) <==> y in lay && y != lay[d])
  {
    var kept := RemoveCol(lay, d);
    if y in lay && y != lay[d] {
      var j :| 0 <= j < |lay| && lay[j] == y;
      assert kept[if d < j then j - 1 else j] == y;
    }
    if y in kept {
      var k :| 0 <= k < |kept| && kept[k] == y;
      assert lay[if k < d then k else k + 1] == y;
    }
  }

  lemma ShiftedColumns(kept: Layout, lay': Layout, x: nat)
    requires DupFree(kept) && |lay'| == |kept| && forall k :: 0 <= k < |kept| ==> kept[k] == lay'[k] + 1
    ensures DupFree(lay') && (x in lay' <==> x + 1 in kept)
  {
    forall i, j | 0 <= i < j < |lay'| ensures lay'[i] != lay'[j] {
      assert kept[i] == lay'[i] + 1 && kept[j] == lay'[j] + 1;
    }
    if x + 1 in kept {
      var k :| 0 <= k < |kept| && kept[k] == x + 1;
      assert lay'[k] == x;
    }
  }

  lemma ExistsIsLayout(psi: Formula, lay: Layout, dropIdx: Option<nat>, lay': Layout)
    requires IsLayout(psi, lay) && (dropIdx.Some? ==> dropIdx.value < |lay| && lay[dropIdx.value] == 0)
    requires DroppedLayout(lay, dropIdx, lay')
    ensures IsLayout(Exists(psi), lay')
  {
    hide DupFree;
    ExistsColumns(psi);
    var kept := if dropIdx.Some? then RemoveCol(lay, dropIdx.value) else lay;
    assert DupFree(lay') by {
      if dropIdx.Some? {
        KeptColumns(lay, dropIdx.value, 0);
      }
      ShiftedColumns(kept, lay', 0);
    }
    forall x: nat ensures x in lay' <==> x + 1 in psi.Columns() {
      if dropIdx.Some? {
        KeptColumns(lay, dropIdx.value, x + 1);
      }
      ShiftedColumns(kept, lay', x);
    }
  }

  lemma {:induction false} SetOfLayout(lay: Layout) returns (s: set<nat>)
    requires DupFree(lay)
    ensures |s| == |lay| && forall x :: x in s <==> x in lay
  {
    if lay == [] {
      s := {};
    } else {
      var s0 := SetOfLayout(lay[1..]);
      s := s0 + {lay[0]};
    }
  }

  /** Layouts of the same variables have the same length. */
  lemma SameLength(l1: Layout, l2: Layout)
    requires DupFree(l1) && DupFree(l2) && forall x :: x in l1 <==> x in l2
    ensures |l1| == |l2|
  {
    var s1 := SetOfLayout(l1);
    var s2 := SetOfLayout(l2);
    assert s1 == s2;
  }

  lemma AndLayout(phil: Formula, phir: Formula, lLay: Layout, rLay: Layout, lay: Layout)
    requires IsLayout(phil, lLay) && IsLayout(phir, rLay) && DupFree(lay)
    requires !phir.IsSafeAssignment(phil.FVs()) && phir.IsSafeFormula()
    requires forall x :: x in lay <==> x in lLay || x in rLay
    ensures IsLayout(And(phil, phir), lay)
  {
    assert And(phil, phir).LayoutVars() == Some(phil.Columns() + phir.Columns());
  }

  lemma KeptLayout(psi: Formula, lay: Layout)
    requires IsLayout(psi, lay)
    ensures forall inter :: IsLayout(Prev(inter, psi), lay)
    ensures forall inter :: IsLayout(Next(inter, psi), lay)
  {
    hide DupFree;
    forall inter ensures IsLayout(Prev(inter, psi), lay) {
      assert Prev(inter, psi).LayoutVars() == psi.LayoutVars();
    }
    forall inter ensures IsLayout(Next(inter, psi), lay) {
      assert Next(inter, psi).LayoutVars() == psi.LayoutVars();
    }
  }

  lemma FilterLayout(phil: Formula, phir: Formula, lay: Layout)
    requires IsLayout(phil, lay) && !phir.IsSafeAssignment(phil.FVs()) && !phir.IsSafeFormula()
    requires phir.IsComparison() || (phir.Neg? && phir.phi.IsComparison())
    ensures IsLayout(And(phil, phir), lay)
  {
    assert phir.IsConstraint() by {
      assert phir.Neg? ==> phir.phi.IsConstraint();
    }
    assert And(phil, phir).LayoutVars() == phil.LayoutVars();
  }

  lemma VacuousLayout(phi: Formula)
    requires phi.IsVacuous()
    ensures IsLayout(phi, []) && phi.FVs() == {phi.phi.l.idx}
  {
    assert phi.FVs() == phi.phi.FVs() == phi.phi.l.FVI(0) + phi.phi.r.FVI(0);
    assert phi.phi.l.idx in phi.phi.FVs();
  }

  /** A temporal formula has the layout of its right operand. */
  lemma TemporalLayout(phi: Formula, rLay: Layout)
    requires (phi.Since? || phi.Until?) && IsLayout(phi.phir, rLay)
    requires phi.phil.IsAlwaysTrue() || (if phi.phil.Neg? then phi.phil.phi else phi.phil).LayoutVars().Some?
    ensures IsLayout(phi, rLay)
  {
    assert phi.LayoutVars() == phi.phir.LayoutVars();
  }

  // ----- columns and free variables -----

  lemma ExistsColumns(psi: Formula)
    ensures Exists(psi).LayoutVars().Some? <==> psi.LayoutVars().Some?
    ensures forall x: nat :: x in Exists(psi).Columns() <==> x + 1 in psi.Columns()
  {
    forall x: nat ensures x in Exists(psi).Columns() <==> x + 1 in psi.Columns() {
      if psi.LayoutVars().Some? {
        assert Exists(psi).Columns() == set y | y in psi.Columns() && y > 0 :: y - 1;
        assert x + 1 in psi.Columns() ==> x + 1 > 0 && (x + 1) - 1 == x;
      }
    }
  }

  lemma AssignmentVariables(phi: Formula, vars: set<nat>)
    requires phi.IsSafeAssignment(vars)
    ensures var (x, t) := phi.Assigned(vars);
            x !in vars && t.FVI(0) <= vars && phi.FVs() == {x} + t.FVI(0)
            && (phi == Eq(Var(x), t) || phi == Eq(t, Var(x)))
  {
    var (x, t) := phi.Assigned(vars);
    assert Var(x).FVI(0) == {x};
    assert phi.FVs() == phi.l.FVI(0) + phi.r.FVI(0);
  }

  /** Whatever compiles has columns for free variables only. */
  lemma {:induction false} ColumnsAreFree(phi: Formula)
    ensures phi.Columns() <= phi.FVs()
  {
    match phi
    case Or(l, _) => ColumnsAreFree(l);
    case And(l, r) =>
      ColumnsAreFree(l);
      ColumnsAreFree(r);
      assert phi.FVs() == l.FVs() + r.FVs();
      if r.IsSafeAssignment(l.FVs()) {
        AssignmentVariables(r, l.FVs());
      }
    case Exists(psi) =>
      ColumnsAreFree(psi);
      ExistsColumns(psi);
      forall x | x in phi.Columns() ensures x in phi.FVs() {
        FVIShift(psi, 0, x);
      }
    case Prev(_, psi) => ColumnsAreFree(psi);
    case Next(_, psi) => ColumnsAreFree(psi);
    case Since(_, l, r) =>
      ColumnsAreFree(r);
      assert phi.FVs() == l.FVs() + r.FVs();
    case Until(_, l, r) =>
      ColumnsAreFree(r);
      assert phi.FVs() == l.FVs() + r.FVs();
    case _ =>
  }

  /** The fragment compiles without failure. */
  lemma {:induction false} MonitorableCompiles(phi: Formula)
    requires phi.Monitorable()
    ensures phi.LayoutVars().Some?
    decreases phi, 1
  {
    match phi
    case Neg(psi) => if !phi.IsVacuous() { MonitorableCompiles(psi); }
    case Or(l, r) => MonitorableCompiles(l); MonitorableCompiles(r);
    case And(l, r) =>
      MonitorableCompiles(l);
      if r.IsSafeAssignment(l.FVs()) {
      } else if r.IsSafeFormula() {
        MonitorableCompiles(r);
      } else if !r.IsConstraint() {
        MonitorableCompiles(r.phi);
      }
    case Exists(psi) => MonitorableCompiles(psi);
    case Prev(_, psi) => MonitorableCompiles(psi);
    case Next(_, psi) => MonitorableCompiles(psi);
    case Since(_, l, r) => OperandsCompile(phi);
    case Until(_, l, r) => OperandsCompile(phi);
    case _ =>
  }

  lemma {:induction false} OperandsCompile(phi: Formula)
    requires (phi.Since? || phi.Until?) && phi.Monitorable()
    ensures phi.LayoutVars().Some?
    decreases phi, 0
  {
    MonitorableCompiles(phi.phir);
    if !phi.phil.IsAlwaysTrue() {
      MonitorableCompiles(if phi.phil.Neg? then phi.phil.phi else phi.phil);
    }
  }
}
