/**
 * Terms and formulas of metric first-order temporal logic, with de Bruijn
 * variables (src/formula.h, src/formula.cpp), and their meaning over a trace.
 */
module Formulas {
  import opened Wrappers
  import opened Intervals
  import opened Tables

  datatype Term =
    | Var(idx: nat)
    | Const(c: Value)
    | Plus(l: Term, r: Term)
    | Minus(l: Term, r: Term)
    | UMinus(t: Term)
    | Mult(l: Term, r: Term)
  {
    function FVI(bound: nat): set<nat> {
      match this
      case Var(idx) => if idx >= bound then {idx - bound} else {}
      case Const(_) => {}
      case UMinus(t) => t.FVI(bound)
      case Plus(l, r) => l.FVI(bound) + r.FVI(bound)
      case Minus(l, r) => l.FVI(bound) + r.FVI(bound)
      case Mult(l, r) => l.FVI(bound) + r.FVI(bound)
    }
  }

  /** User predicates are told apart by name and arity; the others are built in. */
  datatype PredId = User(name: string, arity: nat) | Tp | Ts | TpTs

  datatype Formula =
    | Pred(id: PredId, args: seq<Term>)
    | Eq(l: Term, r: Term)
    | Less(l: Term, r: Term)
    | LessEq(l: Term, r: Term)
    | Neg(phi: Formula)
    | Or(phil: Formula, phir: Formula)
    | And(phil: Formula, phir: Formula)
    | Exists(phi: Formula)
    | Prev(inter: Interval, phi: Formula)
    | Next(inter: Interval, phi: Formula)
    | Since(inter: Interval, phil: Formula, phir: Formula)
    | Until(inter: Interval, phil: Formula, phir: Formula)
  {
    function FVI(bound: nat): set<nat> {
      match this
      case Pred(_, args) => ArgsFVI(args, bound)
      case Eq(l, r) => l.FVI(bound) + r.FVI(bound)
      case Less(l, r) => l.FVI(bound) + r.FVI(bound)
      case LessEq(l, r) => l.FVI(bound) + r.FVI(bound)
      case Neg(phi) => phi.FVI(bound)
      case Or(l, r) => l.FVI(bound) + r.FVI(bound)
      case And(l, r) => l.FVI(bound) + r.FVI(bound)
      case Exists(phi) => phi.FVI(bound + 1)
      case Prev(_, phi) => phi.FVI(bound)
      case Next(_, phi) => phi.FVI(bound)
      case Since(_, l, r) => l.FVI(bound) + r.FVI(bound)
      case Until(_, l, r) => l.FVI(bound) + r.FVI(bound)
    }

    function FVs(): set<nat> {
      FVI(0)
    }

    predicate IsAlwaysTrue() {
      Eq? && l == Const(0) && r == Const(0)
    }

    predicate IsConstraint() {
      match this
      case Eq(_, _) => true
      case Less(_, _) => true
      case LessEq(_, _) => true
      case Neg(phi) => phi.IsConstraint()
      case _ => false
    }

    predicate IsSafeAssignment(vars: set<nat>) {
      Eq? &&
      if l.Var? && r.Var? then (l.idx in vars) != (r.idx in vars)
      else if l.Var? then l.idx !in vars && r.FVI(0) <= vars
      else if r.Var? then r.idx !in vars && l.FVI(0) <= vars
      else false
    }

    predicate IsSafeFormula() {
      match this
      case Eq(l, r) => (l.Const? && (r.Const? || r.Var?)) || (l.Var? && r.Const?)
      case Less(_, _) => false
      case LessEq(_, _) => false
      case Neg(phi) =>
        if phi.Eq? && phi.l.Var? && phi.r.Var? then phi.l.idx == phi.r.idx
        else phi.FVs() == {} && phi.IsSafeFormula()
      case Pred(_, args) => forall k :: 0 <= k < |args| ==> args[k].Var? || args[k].Const?
      case Or(l, r) => l.FVs() == r.FVs() && l.IsSafeFormula() && r.IsSafeFormula()
      case And(l, r) =>
        l.IsSafeFormula() &&
        (r.IsSafeAssignment(l.FVs()) || r.IsSafeFormula() ||
         (r.FVs() <= l.FVs() && (r.IsConstraint() || (r.Neg? && r.phi.IsSafeFormula()))))
      case Exists(phi) => phi.IsSafeFormula()
      case Prev(_, phi) => phi.IsSafeFormula()
      case Next(_, phi) => phi.IsSafeFormula()
      case Since(_, _, _) | Until(_, _, _) =>
        || (phil.FVs() <= phir.FVs() && phil.IsSafeFormula())
        || (phir.IsSafeFormula() && phil.Neg? && phil.phi.IsSafeFormula())
    }

    /** A comparison, possibly under one negation: what a constraint may look like after stripping it. */
    predicate IsComparison() {
      Eq? || Less? || LessEq?
    }

    /** The variable that a safe assignment defines, and the term that it is set to. */
    function Assigned(vars: set<nat>): (nat, Term)
      requires IsSafeAssignment(vars)
    {
      if l.Var? && r.Var? then (if l.idx in vars then (r.idx, l) else (l.idx, r))
      else if l.Var? then (l.idx, r)
      else (r.idx, l)
    }

    /** A negated equation of a variable with itself, which nothing satisfies. */
    predicate IsVacuous() {
      Neg? && phi.Eq? && phi.l.Var? && phi.r == phi.l
    }

    /**
     * What compiling any formula leads to: the variables that the layout has columns
     * for, or `None` if compilation throws or fails an assertion.  A negation with
     * free variables becomes an empty table without columns, a filter or an anti-join
     * has the columns of its left operand, and since and until those of the right one.
     */
    function LayoutVars(): Option<set<nat>>
      decreases this, 0
    {
      match this
      case Eq(l, r) => if (l.Const? && (r.Const? || r.Var?)) || (l.Var? && r.Const?) then Some(FVs()) else None
      case Less(_, _) => None
      case LessEq(_, _) => None
      case Neg(phi) => if phi.FVs() == {} && phi.LayoutVars().None? then None else Some({})
      case Pred(_, args) =>
        if forall k :: 0 <= k < |args| ==> args[k].Var? || args[k].Const? then Some(FVs()) else None
      case Or(l, r) => if l.LayoutVars() == r.LayoutVars() then l.LayoutVars() else None
      case And(l, r) =>
        if l.LayoutVars().None? then None
        else if r.IsSafeAssignment(l.FVs()) then Some(l.Columns() + {r.Assigned(l.FVs()).0})
        else if r.IsSafeFormula() then
          if r.LayoutVars().None? then None else Some(l.Columns() + r.Columns())
        else if r.IsConstraint() then
          if r.IsComparison() || r.phi.IsComparison() then l.LayoutVars() else None
        else if r.Neg? && r.phi.LayoutVars().Some? then l.LayoutVars()
        else None
      case Exists(phi) =>
        if phi.LayoutVars().None? then None else Some(set y | y in phi.Columns() && y > 0 :: y - 1)
      case Prev(_, phi) => phi.LayoutVars()
      case Next(_, phi) => phi.LayoutVars()
      case Since(_, _, _) | Until(_, _, _) =>
        if phil.IsAlwaysTrue() then phir.LayoutVars()
        else if phil.Neg? then (if phil.phi.LayoutVars().None? then None else phir.LayoutVars())
        else if phil.LayoutVars().None? then None
        else phir.LayoutVars()
    }

    /** The variables with a column, if compilation succeeds. */
    function Columns(): set<nat>
      decreases this, 1
    {
      match LayoutVars()
      case Some(vars) => vars
      case None => {}
    }

    /** Nothing that is compiled for the formula fails, and every layout has a column for every free variable. */
    predicate KeepsVariables() {
      LayoutVars() == Some(FVs()) &&
      match this
      case Neg(phi) => phi.KeepsVariables()
      case Or(l, r) => l.KeepsVariables() && r.KeepsVariables()
      case And(l, r) =>
        l.KeepsVariables() &&
        (r.IsSafeAssignment(l.FVs()) ||
         if r.IsSafeFormula() then r.KeepsVariables() else r.IsConstraint() || r.phi.KeepsVariables())
      case Exists(phi) => phi.KeepsVariables()
      case Prev(_, phi) => phi.KeepsVariables()
      case Next(_, phi) => phi.KeepsVariables()
      case Since(_, _, _) | Until(_, _, _) =>
        && phir.KeepsVariables()
        && (phil.IsAlwaysTrue() || if phil.Neg? then phil.phi.KeepsVariables() else phil.KeepsVariables())
      case _ => true
    }

    /** No vacuous negation is compiled. */
    predicate VacuousFree() {
      match this
      case Neg(phi) => !IsVacuous() && phi.VacuousFree()
      case Or(l, r) => l.VacuousFree() && r.VacuousFree()
      case And(l, r) =>
        l.VacuousFree() &&
        (r.IsSafeAssignment(l.FVs()) ||
         if r.IsSafeFormula() then r.VacuousFree() else r.IsConstraint() || (r.Neg? && r.phi.VacuousFree()))
      case Exists(phi) => phi.VacuousFree()
      case Prev(_, phi) => phi.VacuousFree()
      case Next(_, phi) => phi.VacuousFree()
      case Since(_, _, _) | Until(_, _, _) =>
        && phir.VacuousFree()
        && (phil.IsAlwaysTrue() || if phil.Neg? then phil.phi.VacuousFree() else phil.VacuousFree())
      case _ => true
    }

    /** The constructor of predicates identifies them by name and number of arguments. */
    predicate Constructed() {
      match this
      case Pred(id, args) => |args| == Arity(id)
      case Neg(phi) => phi.Constructed()
      case Or(l, r) => l.Constructed() && r.Constructed()
      case And(l, r) => l.Constructed() && r.Constructed()
      case Exists(phi) => phi.Constructed()
      case Prev(_, phi) => phi.Constructed()
      case Next(_, phi) => phi.Constructed()
      case Since(_, l, r) => l.Constructed() && r.Constructed()
      case Until(_, l, r) => l.Constructed() && r.Constructed()
      case _ => true
    }

    /**
     * The formulas that compile to operators computing their meaning: no operator
     * needs a column that its operand lacks.
     */
    predicate Monitorable() {
      match this
      case Eq(l, r) => (l.Const? && (r.Const? || r.Var?)) || (l.Var? && r.Const?)
      case Less(_, _) => false
      case LessEq(_, _) => false
      case Neg(phi) => IsVacuous() || (phi.FVs() == {} && phi.Monitorable())
      case Pred(id, args) => |args| == Arity(id) && forall k :: 0 <= k < |args| ==> args[k].Var? || args[k].Const?
      case Or(l, r) => l.FVs() == r.FVs() && l.Columns() == r.Columns() && l.Monitorable() && r.Monitorable()
      case And(l, r) =>
        l.Monitorable() &&
        if r.IsSafeAssignment(l.FVs()) then r.Assigned(l.FVs()).1.FVI(0) <= l.Columns()
        else if r.IsSafeFormula() then r.Monitorable()
        else if r.IsConstraint() then r.FVs() <= l.Columns() && (r.IsComparison() || r.phi.IsComparison())
        else r.Neg? && r.FVs() <= l.FVs() && r.phi.Columns() <= l.Columns() && r.phi.Monitorable()
      case Exists(phi) => phi.Monitorable()
      case Prev(_, phi) => phi.Monitorable()
      case Next(_, phi) => phi.Monitorable()
      case Since(_, _, _) | Until(_, _, _) =>
        && phir.Monitorable()
        && (phil.IsAlwaysTrue() ||
            if phil.Neg? then phil.phi.Columns() <= phir.Columns() && phil.phi.Monitorable()
            else phil.FVs() <= phir.FVs() && phil.Columns() <= phir.Columns() && phil.Monitorable())
    }
  }

  function Arity(id: PredId): nat {
    match id
    case User(_, arity) => arity
    case TpTs => 2
    case _ => 1
  }

  function ArgsFVI(args: seq<Term>, bound: nat): set<nat> {
    if args == [] then {} else args[0].FVI(bound) + ArgsFVI(args[1..], bound)
  }

  // ----- traces -----

  /** One timestamped database: the events of each user predicate. */
  datatype TimePoint = TimePoint(ts: nat, db: map<PredId, seq<Row>>)

  ghost predicate WellFormedDb(db: map<PredId, seq<Row>>) {
    forall id, k | id in db && 0 <= k < |db[id]| :: |db[id][k]| == Arity(id)
  }

  /** Timestamps never decrease, and events have the arity of their predicate. */
  ghost predicate WellFormedTrace(tr: seq<TimePoint>) {
    && (forall i, j :: 0 <= i <= j < |tr| ==> tr[i].ts <= tr[j].ts)
    && (forall i :: 0 <= i < |tr| ==> WellFormedDb(tr[i].db))
  }

  /** `static_cast<int64_t>` of a 64-bit counter or timestamp. */
  function Int64(x: nat): int {
    var w := x % 0x1_0000_0000_0000_0000;
    if w < 0x8000_0000_0000_0000 then w else w - 0x1_0000_0000_0000_0000
  }

  function Events(id: PredId, tp: nat, ts: nat, db: map<PredId, seq<Row>>): seq<Row> {
    match id
    case Tp => [[Int64(tp)]]
    case Ts => [[Int64(ts)]]
    case TpTs => [[Int64(tp), Int64(ts)]]
    case User(_, _) => if id in db then db[id] else []
  }

  // ----- meaning -----

  /** An assignment to the variables 0, 1, ...; variables past its end are 0. */
  type Env = seq<Value>

  function Lookup(v: Env, k: nat): Value {
    if k < |v| then v[k] else 0
  }

  function Eval(t: Term, v: Env): Value {
    match t
    case Var(idx) => Lookup(v, idx)
    case Const(c) => c
    case Plus(l, r) => Eval(l, v) + Eval(r, v)
    case Minus(l, r) => Eval(l, v) - Eval(r, v)
    case UMinus(t) => -Eval(t, v)
    case Mult(l, r) => Eval(l, v) * Eval(r, v)
  }

  function EvalArgs(args: seq<Term>, v: Env): (r: Row)
    ensures |r| == |args| && forall k :: 0 <= k < |r| ==> r[k] == Eval(args[k], v)
  {
    seq(|args|, k requires 0 <= k < |args| => Eval(args[k], v))
  }

  ghost predicate Sat(phi: Formula, tr: seq<TimePoint>, i: nat, v: Env)
    requires i < |tr|
    decreases phi
  {
    match phi
    case Pred(id, args) => EvalArgs(args, v) in Events(id, i, tr[i].ts, tr[i].db)
    case Eq(l, r) => Eval(l, v) == Eval(r, v)
    case Less(l, r) => Eval(l, v) < Eval(r, v)
    case LessEq(l, r) => Eval(l, v) <= Eval(r, v)
    case Neg(psi) => !Sat(psi, tr, i, v)
    case Or(l, r) => Sat(l, tr, i, v) || Sat(r, tr, i, v)
    case And(l, r) => Sat(l, tr, i, v) && Sat(r, tr, i, v)
    case Exists(psi) => exists x: Value :: Sat(psi, tr, i, [x] + v)
    case Prev(inter, psi) => i > 0 && inter.Contains(tr[i].ts - tr[i - 1].ts) && Sat(psi, tr, i - 1, v)
    case Next(inter, psi) => i + 1 < |tr| && inter.Contains(tr[i + 1].ts - tr[i].ts) && Sat(psi, tr, i + 1, v)
    case Since(inter, l, r) =>
      exists j: nat :: j <= i && inter.Contains(tr[i].ts - tr[j].ts) && Sat(r, tr, j, v)
                       && forall k: nat :: j < k <= i ==> Sat(l, tr, k, v)
    case Until(inter, l, r) =>
      exists j: nat :: i <= j < |tr| && inter.Contains(tr[j].ts - tr[i].ts) && Sat(r, tr, j, v)
                       && forall k: nat :: i <= k < j ==> Sat(l, tr, k, v)
  }
}
