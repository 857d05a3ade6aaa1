/**
 * The operator tree (src/monitor.h, src/monitor.cpp, class MState).  Every node
 * has a ghost formula, a ghost layout and a ghost trace; evaluating the root
 * time point by time point delivers the tables of the formula's satisfying
 * assignments.  The trace is not readable by the operators: it stands for
 * whatever the input turns out to be, including what has not been read yet.
 */
module OperatorTree {
  import opened Wrappers
  import opened Intervals
  import opened Tables
  import opened Temporal
  import opened Formulas
  import opened Joins
  import opened Meaning
  import opened Buffers
  import opened PrevNext
  import opened Preds
  import opened UnaryOps
  import opened Streams
  import opened StreamProgress
  import opened Reductions
  import opened SinceOperator
  import opened UntilOperator
  import opened TemporalStreams

  datatype Op =
    | MRel(tab: Table)
    | MPred(id: PredId, args: seq<Term>, varPos: seq<seq<nat>>, pos2cst: seq<(nat, Value)>)
    | MNeg(child: MState)
    | MFused(child: MState, ops: seq<UnaryOp>)
    | MAnd(l: MState, r: MState, buf: BinaryBuffer<Table>, info: AndInfo)
    | MOr(l: MState, r: MState, buf: BinaryBuffer<Table>, perm: seq<nat>)
    | MPrev(child: MState, prev: PrevState)
    | MNext(child: MState, next: NextState)
    | MSince(l: MState, r: MState, buf: BinaryBuffer<Table>, since: SinceImpl)
    | MOnce(child: MState, since: SinceImpl)
    | MUntil(l: MState, r: MState, buf: BinaryBuffer<Table>, until: UntilImpl)
    | MEventually(child: MState, until: UntilImpl)

  class MState {
    const op: Op
    var currTp: nat
    var tsBuf: seq<nat>

    ghost const phi: Formula
    ghost const lay: Layout
    ghost const tr: seq<TimePoint>
    /** For fused operators, the formulas and layouts along the way. */
    ghost const stages: seq<Stage>
    ghost const height: nat
    ghost const repr: set<object>
    /** How many time points have been read. */
    ghost var n: nat

    constructor (op: Op, ghost phi: Formula, ghost lay: Layout, ghost tr: seq<TimePoint>, ghost stages: seq<Stage>,
                 ghost height: nat, ghost owned: set<object>)
      ensures this.op == op && this.phi == phi && this.lay == lay && this.tr == tr && this.stages == stages
      ensures this.height == height && repr == owned + {this}
      ensures currTp == 0 && tsBuf == [] && n == 0
    {
      this.op, this.phi, this.lay, this.tr, this.stages, this.height := op, phi, lay, tr, stages, height;
      repr := owned + {this};
      currTp, tsBuf, n := 0, [], 0;
    }

    // ----- the state of a node -----

    /** A child is smaller, shares nothing with this node, and has read `n` time points. */
    ghost predicate Child(c: MState, n: nat)
      reads c
    {
      && c in c.repr && c.repr <= repr && this !in c.repr && c.height < height && c.tr == tr
      && c.n == n
    }

    /** A mutable part of this node, apart from its children. */
    ghost predicate Part(o: object, c: MState) {
      o in repr && o !in c.repr
    }

    /** The buffer has received all that the operands have delivered. */
    ghost predicate Buffered(l: MState, r: MState, buf: BinaryBuffer<Table>, n: nat)
      reads buf
    {
      buf.Valid() && Received(l.phi, l.lay, tr, n, buf.left) && Received(r.phi, r.lay, tr, n, buf.right)
    }

    ghost predicate Operands(l: MState, r: MState, buf: BinaryBuffer<Table>, n: nat)
      reads l, r, buf
    {
      && Child(l, n) && Child(r, n) && l.repr !! r.repr
      && Part(buf, l) && Part(buf, r) && Buffered(l, r, buf, n)
    }

    /** How many pairs of tables a binary operator has been given. */
    ghost function Paired(l: MState, r: MState, n: nat): nat
      requires n <= |tr|
    {
      Min(Progress(l.phi, tr, n), Progress(r.phi, tr, n))
    }

    /** `m` time points have been taken from the buffered timestamps. */
    ghost predicate Waiting(m: nat)
      reads this`tsBuf, this`n
    {
      m <= n <= |tr| && tsBuf == Stamps(tr, n)[m..]
    }

    ghost predicate RelNode(tab: Table) {
      (phi.Eq? || phi.IsVacuous()) && forall i: nat | i < |tr| :: Represents(phi, lay, tab, tr, i)
    }

    ghost predicate PredNode(id: PredId, args: seq<Term>, varPos: seq<seq<nat>>, pos2cst: seq<(nat, Value)>)
      reads this`n, this`currTp
    {
      && phi == Pred(id, args) && |args| == Arity(id) && Simple(args) && Compiled(args, lay, varPos, pos2cst)
      && (id == Tp || id == TpTs ==> currTp == n)
    }

    ghost predicate NegNode(c: MState)
      reads this`n, c
    {
      Child(c, n) && phi == Neg(c.phi) && c.lay == lay == []
    }

    ghost predicate FusedNode(c: MState, ops: seq<UnaryOp>)
      reads this`n, c
    {
      && Child(c, n) && StagesOk(ops, stages)
      && stages[0] == Stage(c.phi, c.lay) && stages[|ops|] == Stage(phi, lay)
    }

    ghost predicate AndNode(l: MState, r: MState, buf: BinaryBuffer<Table>, info: AndInfo)
      reads this`n, l, r, buf
    {
      Operands(l, r, buf, n) && AndOk(info, l.phi, l.lay, r.phi, r.lay, phi, lay)
    }

    ghost predicate OrNode(l: MState, r: MState, buf: BinaryBuffer<Table>, perm: seq<nat>)
      reads this`n, l, r, buf
    {
      Operands(l, r, buf, n) && phi == Or(l.phi, r.phi) && lay == l.lay && OrOk(perm, l.lay, r.lay)
    }

    ghost predicate PrevNode(c: MState, prev: PrevState)
      reads this`n, c, prev
    {
      && Child(c, n) && Part(prev, c) && phi == Prev(prev.inter, c.phi) && lay == c.lay && n <= |tr|
      && prev.Valid() && prev.tsIn == Stamps(tr, n) && Received(c.phi, lay, tr, n, prev.tabsIn)
      && prev.Emitted() == Progress(phi, tr, n)
    }

    ghost predicate NextNode(c: MState, next: NextState)
      reads this`n, c, next
    {
      && Child(c, n) && Part(next, c) && phi == Next(next.inter, c.phi) && lay == c.lay && n <= |tr|
      && next.Valid() && next.tsIn == Stamps(tr, n) && Received(c.phi, lay, tr, n, next.tabsIn)
    }

    ghost predicate SinceFits(since: SinceImpl) {
      phi.Since? && since.agg == null && since.nfvs == |lay| && phi.inter == since.inter
    }

    /** The operator `since`, for this node's formula, has been fed `m` time points. */
    ghost predicate SinceState(since: SinceImpl, m: nat)
      requires SinceFits(since)
      reads this`tsBuf, this`n, since
    {
      && since.Valid() && Waiting(m) && Fed(phi.phil, phi.phir, since.test, lay, tr, m, since.es, since.ls)
    }

    ghost predicate SinceNode(l: MState, r: MState, buf: BinaryBuffer<Table>, since: SinceImpl)
      reads this`n, this`tsBuf, l, r, buf, since
    {
      && Operands(l, r, buf, n) && Part(since, l) && Part(since, r) && n <= |tr|
      && SinceFits(since) && SinceState(since, Paired(l, r, n))
      && phi.phir == r.phi && lay == r.lay && TestOk(since.test, l.phi, l.lay, lay, phi.phil)
    }

    ghost predicate OnceNode(c: MState, since: SinceImpl)
      reads this`n, this`tsBuf, c, since
    {
      && Child(c, n) && Part(since, c) && n <= |tr|
      && SinceFits(since) && SinceState(since, Progress(c.phi, tr, n))
      && phi.phir == c.phi && lay == c.lay && phi.phil.IsAlwaysTrue()
    }

    ghost predicate UntilFits(until: UntilImpl) {
      phi.Until? && until.nfvs == |lay| && phi.inter == until.inter
    }

    /** The operator `until`, for this node's formula, has been fed `m` time points and emitted all it could. */
    ghost predicate UntilState(until: UntilImpl, m: nat)
      requires UntilFits(until)
      reads this`tsBuf, this`n, until
    {
      && until.Valid() && Waiting(m) && Fed(phi.phil, phi.phir, until.test, lay, tr, m, until.es, until.ls)
      && AtRest(until, tr, m) && |until.out| == Progress(phi, tr, n)
    }

    ghost predicate UntilNode(l: MState, r: MState, buf: BinaryBuffer<Table>, until: UntilImpl)
      reads this`n, this`tsBuf, l, r, buf, until
    {
      && Operands(l, r, buf, n) && Part(until, l) && Part(until, r) && n <= |tr|
      && UntilFits(until) && UntilState(until, Paired(l, r, n))
      && phi.phir == r.phi && lay == r.lay && TestOk(until.test, l.phi, l.lay, lay, phi.phil)
    }

    ghost predicate EventuallyNode(c: MState, until: UntilImpl)
      reads this`n, this`tsBuf, c, until
    {
      && Child(c, n) && Part(until, c) && n <= |tr|
      && UntilFits(until) && UntilState(until, Progress(c.phi, tr, n)) && until.NoLeft()
      && phi.phir == c.phi && lay == c.lay && phi.phil.IsAlwaysTrue()
    }

    ghost predicate Valid()
      reads this, repr
      decreases height, 1
    {
      Node()
    }

    /** The invariant of this node, and the validity of its children. */
    ghost predicate Node()
      reads this, repr
      decreases height, 0
    {
      && this in repr && n <= |tr| && WellFormedTrace(tr) &&
      match op
      case MRel(tab) => RelNode(tab)
      case MPred(id, args, varPos, pos2cst) => PredNode(id, args, varPos, pos2cst)
      case MNeg(c) => {c} <= repr && NegNode(c) && c.Valid()
      case MFused(c, ops) => {c} <= repr && FusedNode(c, ops) && c.Valid()
      case MAnd(l, r, buf, info) => {l, r, buf} <= repr && AndNode(l, r, buf, info) && l.Valid() && r.Valid()
      case MOr(l, r, buf, perm) => {l, r, buf} <= repr && OrNode(l, r, buf, perm) && l.Valid() && r.Valid()
      case MPrev(c, prev) => {c, prev} <= repr && PrevNode(c, prev) && c.Valid()
      case MNext(c, next) => {c, next} <= repr && NextNode(c, next) && c.Valid()
      case MSince(l, r, buf, since) => {l, r, buf, since} <= repr && SinceNode(l, r, buf, since) && l.Valid()
          && r.Valid()
      case MOnce(c, since) => {c, since} <= repr && OnceNode(c, since) && c.Valid()
      case MUntil(l, r, buf, until) => {l, r, buf, until} <= repr && UntilNode(l, r, buf, until) && l.Valid()
          && r.Valid()
      case MEventually(c, until) => {c, until} <= repr && EventuallyNode(c, until) && c.Valid()
    }

    lemma Unfold()
      ensures Valid() <==> Node()
    {}

    lemma InRepr()
      requires Valid()
      ensures this in repr
    {}

    /** The next time point of the trace is what is being read now. */
    ghost predicate Reads(db: map<PredId, seq<Row>>, ts: nat)
      reads this`n
    {
      n < |tr| && tr[n] == TimePoint(ts, db)
    }

    // ----- evaluation -----

    method Eval(db: map<PredId, seq<Row>>, ts: nat) returns (out: seq<Table>)
      requires Valid() && Reads(db, ts)
      modifies repr
      ensures Valid() && n == old(n) + 1 && Delivered(phi, lay, tr, old(n), out)
      decreases height, 5
    {
      hide Valid;
      match op
      case MRel(tab) => out := EvalRel(tab, db, ts);
      case MPred(id, args, varPos, pos2cst) => out := EvalPred(id, args, varPos, pos2cst, db, ts);
      case MNeg(c) => out := EvalNeg(c, db, ts);
      case MFused(c, ops) => out := EvalFused(c, ops, db, ts);
      case MAnd(l, r, buf, info) => out := EvalAnd(l, r, buf, info, db, ts);
      case MOr(l, r, buf, perm) => out := EvalOr(l, r, buf, perm, db, ts);
      case MPrev(c, prev) => out := EvalPrev(c, prev, db, ts);
      case MNext(c, next) => out := EvalNext(c, next, db, ts);
      case MSince(l, r, buf, since) => out := EvalSince(l, r, buf, since, db, ts);
      case MOnce(c, since) => out := EvalOnce(c, since, db, ts);
      case MUntil(l, r, buf, until) => out := EvalUntil(l, r, buf, until, db, ts);
      case MEventually(c, until) => out := EvalEventually(c, until, db, ts);
    }

    method EvalRel(tab: Table, db: map<PredId, seq<Row>>, ts: nat) returns (out: seq<Table>)
      requires op == MRel(tab) && Valid() && Reads(db, ts)
      modifies repr
      ensures Valid() && n == old(n) + 1 && Delivered(phi, lay, tr, old(n), out)
      decreases height, 4
    {
      hide Valid;
      Unfold();
      ConstraintProgress(phi, tr, n);
      ConstraintProgress(phi, tr, n + 1);
      out := [tab];
      n := n + 1;
      Unfold();
    }

    method EvalPred(id: PredId, args: seq<Term>, varPos: seq<seq<nat>>, pos2cst: seq<(nat, Value)>,
                    db: map<PredId, seq<Row>>, ts: nat)
      returns (out: seq<Table>)
      requires op == MPred(id, args, varPos, pos2cst) && Valid() && Reads(db, ts)
      modifies repr
      ensures Valid() && n == old(n) + 1 && Delivered(phi, lay, tr, old(n), out)
      decreases height, 4
    {
      hide Valid, Compiled, Simple;
      Unfold();
      var tab := {};
      assert WellFormedDb(tr[n].db);
      match id {
        case Tp =>
          tab := MatchAll(args, lay, varPos, pos2cst, [[Int64(currTp)]]);
          currTp := currTp + 1;
        case Ts =>
          tab := MatchAll(args, lay, varPos, pos2cst, [[Int64(ts)]]);
        case TpTs =>
          tab := MatchAll(args, lay, varPos, pos2cst, [[Int64(currTp), Int64(ts)]]);
          currTp := currTp + 1;
        case User(_, _) =>
          if id in db {
            tab := MatchAll(args, lay, varPos, pos2cst, db[id]);
          }
      }
      assert Represents(phi, lay, tab, tr, n);
      out := [tab];
      n := n + 1;
      Unfold();
    }

    method EvalNeg(c: MState, db: map<PredId, seq<Row>>, ts: nat) returns (out: seq<Table>)
      requires op == MNeg(c) && Valid() && Reads(db, ts)
      modifies repr
      ensures Valid() && n == old(n) + 1 && Delivered(phi, lay, tr, old(n), out)
      decreases height, 4
    {
      hide Valid, Verdicts;
      Unfold();
      ghost var n0 := n;
      var recTabs := c.Eval(db, ts);
      out := NegTables(recTabs, c.phi, tr, Progress(c.phi, tr, n0));
      n := n + 1;
      Unfold();
    }

    method EvalFused(c: MState, ops: seq<UnaryOp>, db: map<PredId, seq<Row>>, ts: nat) returns (out: seq<Table>)
      requires op == MFused(c, ops) && Valid() && Reads(db, ts)
      modifies repr
      ensures Valid() && n == old(n) + 1 && Delivered(phi, lay, tr, old(n), out)
      decreases height, 4
    {
      hide Valid, Verdicts, OpStage, Progress;
      Unfold();
      ghost var n0 := n;
      var recTabs := c.Eval(db, ts);
      out := FusedTables(ops, recTabs, stages, tr, Progress(c.phi, tr, n0));
      n := n + 1;
      StagesProgress(ops, stages, tr, n0);
      StagesProgress(ops, stages, tr, n0 + 1);
      Unfold();
    }

    /** `apply_recursive_bin_reduction`, up to the reduction. */
    method RecReduce(l: MState, r: MState, buf: BinaryBuffer<Table>, db: map<PredId, seq<Row>>, ts: nat)
      returns (pairs: seq<(Table, Table)>)
      requires Operands(l, r, buf, n) && l.Valid() && r.Valid() && Reads(db, ts)
      modifies l.repr, r.repr, buf
      ensures Operands(l, r, buf, n + 1) && l.Valid() && r.Valid() && n + 1 <= |tr|
      ensures Paired(l, r, n) + |pairs| == Paired(l, r, n + 1)
              && PairsOk(l.phi, l.lay, r.phi, r.lay, pairs, tr, Paired(l, r, n))
      decreases height, 3
    {
      hide Valid, Progress, Verdicts, PairsOk;
      var newL := l.Eval(db, ts);
      var newR := r.Eval(db, ts);
      ReceivedMore(l.phi, l.lay, tr, n, buf.left, newL);
      ReceivedMore(r.phi, r.lay, tr, n, buf.right, newR);
      ghost var done := Paired(l, r, n);
      pairs := buf.UpdateAndReduce(newL, newR);
      ZippedPairs(l.phi, l.lay, r.phi, r.lay, tr, buf.left, buf.right, done, pairs);
    }

    method EvalAnd(l: MState, r: MState, buf: BinaryBuffer<Table>, info: AndInfo, db: map<PredId, seq<Row>>, ts: nat)
      returns (out: seq<Table>)
      requires op == MAnd(l, r, buf, info) && Valid() && Reads(db, ts)
      modifies repr
      ensures Valid() && n == old(n) + 1 && Delivered(phi, lay, tr, old(n), out)
      decreases height, 4
    {
      hide Valid, Verdicts, PairsOk, Buffered, AndOk, Progress;
      Unfold();
      ghost var n0 := n;
      AndProgress(info, l.phi, l.lay, r.phi, r.lay, phi, lay, tr, n0);
      AndProgress(info, l.phi, l.lay, r.phi, r.lay, phi, lay, tr, n0 + 1);
      var pairs := RecReduce(l, r, buf, db, ts);
      out := AndTables(info, pairs, l.phi, l.lay, r.phi, r.lay, phi, lay, tr, Paired(l, r, n0));
      n := n + 1;
      Unfold();
    }

    method EvalOr(l: MState, r: MState, buf: BinaryBuffer<Table>, perm: seq<nat>, db: map<PredId, seq<Row>>, ts: nat)
      returns (out: seq<Table>)
      requires op == MOr(l, r, buf, perm) && Valid() && Reads(db, ts)
      modifies repr
      ensures Valid() && n == old(n) + 1 && Delivered(phi, lay, tr, old(n), out)
      decreases height, 4
    {
      hide Valid, Verdicts, PairsOk, Buffered, OrOk, Progress;
      Unfold();
      ghost var n0 := n;
      OrProgress(l.phi, r.phi, tr, n0);
      OrProgress(l.phi, r.phi, tr, n0 + 1);
      var pairs := RecReduce(l, r, buf, db, ts);
      out := OrTables(perm, pairs, l.phi, l.lay, r.phi, r.lay, tr, Paired(l, r, n0));
      n := n + 1;
      Unfold();
    }

    method EvalPrev(c: MState, prev: PrevState, db: map<PredId, seq<Row>>, ts: nat) returns (out: seq<Table>)
      requires op == MPrev(c, prev) && Valid() && Reads(db, ts)
      modifies repr
      ensures Valid() && n == old(n) + 1 && Delivered(phi, lay, tr, old(n), out)
      decreases height, 4
    {
      hide Valid, Verdicts, PrevOut, Monotone, Progress, PrevState.Valid;
      Unfold();
      ghost var n0, done := n, prev.Emitted();
      PrevProgress(prev.inter, c.phi, tr, n0);
      var recTabs := c.Eval(db, ts);
      ReceivedMore(c.phi, lay, tr, n0, prev.tabsIn, recTabs);
      StampsAppend(tr, n0);
      StampsMonotone(tr, n0 + 1);
      out := prev.Eval(recTabs, [ts]);
      PrevMeaning(prev.inter, c.phi, lay, prev.tabsIn, tr, n0 + 1, done, out);
      n := n + 1;
      Unfold();
    }

    method EvalNext(c: MState, next: NextState, db: map<PredId, seq<Row>>, ts: nat) returns (out: seq<Table>)
      requires op == MNext(c, next) && Valid() && Reads(db, ts)
      modifies repr
      ensures Valid() && n == old(n) + 1 && Delivered(phi, lay, tr, old(n), out)
      decreases height, 4
    {
      hide Valid, Verdicts, NextOut, Monotone, Progress, NextState.Valid;
      Unfold();
      ghost var n0, done := n, next.Emitted();
      NextEmitted(c, next);
      var recTabs := c.Eval(db, ts);
      ReceivedMore(c.phi, lay, tr, n0, next.tabsIn, recTabs);
      StampsAppend(tr, n0);
      StampsMonotone(tr, n0 + 1);
      out := next.Eval(recTabs, [ts]);
      if recTabs != [] {
        NextMeaning(next.inter, c.phi, lay, next.tabsIn, tr, n0 + 1, done, out);
      } else {
        NoVerdicts(phi, lay, tr, done);
      }
      n := n + 1;
      NextEmitted(c, next);
      Unfold();
    }

    lemma NextEmitted(c: MState, next: NextState)
      requires n <= |tr| && NextNode(c, next)
      ensures next.Emitted() == Progress(phi, tr, n)
    {
      NextProgress(next.inter, c.phi, tr, n);
    }

    /** The timestamp of the new time point is buffered until the operands have caught up with it. */
    method BufferTs(ts: nat, ghost m: nat)
      requires Waiting(m) && n < |tr| && tr[n].ts == ts
      modifies this`tsBuf
      ensures |tsBuf| == n + 1 - m && (forall k :: 0 <= k < |tsBuf| ==> tsBuf[k] == tr[m + k].ts)
      ensures tsBuf == Stamps(tr, n + 1)[m..]
    {
      StampsAppend(tr, n);
      tsBuf := tsBuf + [ts];
    }

    /** The reductions of MSince for one time point. */
    method FeedSince(since: SinceImpl, pairs: seq<(Table, Table)>, ts: nat, ghost psi: Formula, ghost llay: Layout,
                     ghost m: nat)
      returns (out: seq<Table>)
      requires WellFormedTrace(tr) && n < |tr| && tr[n].ts == ts && SinceFits(since) && SinceState(since, m)
      requires PairsOk(psi, llay, phi.phir, lay, pairs, tr, m) && m + |pairs| <= n + 1
      requires TestOk(since.test, psi, llay, lay, phi.phil)
      modifies this`tsBuf, this`n, since
      ensures n == old(n) + 1 && SinceState(since, m + |pairs|)
      ensures |out| == |pairs| && Verdicts(phi, lay, out, tr, m)
    {
      hide Fed, TestOk, PairsOk, Verdicts, SinceImpl.Valid, WellFormedTrace;
      assert since.Hooked() == {};
      BufferTs(ts, m);
      n := n + 1;
      out, tsBuf := SinceTables(since, pairs, tsBuf, psi, llay, phi.phil, phi.phir, lay, tr, m);
      StampsRest(tr, n, m, m + |pairs|);
    }

    method EvalSince(l: MState, r: MState, buf: BinaryBuffer<Table>, since: SinceImpl, db: map<PredId, seq<Row>>,
                     ts: nat) returns (out: seq<Table>)
      requires op == MSince(l, r, buf, since) && Valid() && Reads(db, ts)
      modifies repr
      ensures Valid() && n == old(n) + 1 && Delivered(phi, lay, tr, old(n), out)
      decreases height, 4
    {
      hide Valid, Verdicts, PairsOk, Buffered, TestOk, SinceState, WellFormedTrace, Progress;
      Unfold();
      SinceProgress(phi, since.test, l.phi, l.lay, lay, tr, n);
      SinceProgress(phi, since.test, l.phi, l.lay, lay, tr, n + 1);
      ghost var m := Paired(l, r, n);
      var pairs := RecReduce(l, r, buf, db, ts);
      out := FeedSince(since, pairs, ts, l.phi, l.lay, m);
      Unfold();
    }

    /** The loop of MOnce for one time point. */
    method FeedOnce(since: SinceImpl, recTabs: seq<Table>, ts: nat, ghost m: nat) returns (out: seq<Table>)
      requires WellFormedTrace(tr) && n < |tr| && tr[n].ts == ts && SinceFits(since) && SinceState(since, m)
      requires Verdicts(phi.phir, lay, recTabs, tr, m) && m + |recTabs| <= n + 1 && phi.phil.IsAlwaysTrue()
      modifies this`tsBuf, this`n, since
      ensures n == old(n) + 1 && SinceState(since, m + |recTabs|)
      ensures |out| == |recTabs| && Verdicts(phi, lay, out, tr, m)
    {
      hide Fed, Verdicts, SinceImpl.Valid, WellFormedTrace;
      assert since.Hooked() == {};
      BufferTs(ts, m);
      n := n + 1;
      out, tsBuf := OnceTables(since, recTabs, tsBuf, phi.phil, phi.phir, lay, tr, m);
      StampsRest(tr, n, m, m + |recTabs|);
    }

    method EvalOnce(c: MState, since: SinceImpl, db: map<PredId, seq<Row>>, ts: nat) returns (out: seq<Table>)
      requires op == MOnce(c, since) && Valid() && Reads(db, ts)
      modifies repr
      ensures Valid() && n == old(n) + 1 && Delivered(phi, lay, tr, old(n), out)
      decreases height, 4
    {
      hide Valid, Verdicts, SinceState, WellFormedTrace, Progress;
      Unfold();
      OnceProgress(phi, tr, n);
      OnceProgress(phi, tr, n + 1);
      ghost var m := Progress(c.phi, tr, n);
      var recTabs := c.Eval(db, ts);
      out := FeedOnce(since, recTabs, ts, m);
      Unfold();
    }

    /** The reductions of MUntil for one time point. */
    method FeedUntil(until: UntilImpl, pairs: seq<(Table, Table)>, ts: nat, ghost psi: Formula, ghost llay: Layout,
                     ghost m: nat)
      returns (out: seq<Table>)
      requires WellFormedTrace(tr) && n < |tr| && tr[n].ts == ts && UntilFits(until) && UntilState(until, m)
      requires PairsOk(psi, llay, phi.phir, lay, pairs, tr, m) && m + |pairs| <= n + 1
      requires TestOk(until.test, psi, llay, lay, phi.phil)
      requires m == Min(Progress(psi, tr, n), Progress(phi.phir, tr, n))
      requires m + |pairs| == Min(Progress(psi, tr, n + 1), Progress(phi.phir, tr, n + 1))
      modifies this`tsBuf, this`n, until
      ensures n == old(n) + 1 && UntilState(until, m + |pairs|) && Delivered(phi, lay, tr, old(n), out)
    {
      hide Fed, TestOk, PairsOk, UntilImpl.Valid, WellFormedTrace, AtRest, Progress, Delivered, Min, Stamps;
      BufferTs(ts, m);
      n := n + 1;
      out, tsBuf := UntilRound(until, pairs, tsBuf, phi, psi, llay, lay, tr, n - 1, m, m + |pairs|);
      StampsRest(tr, n, m, m + |pairs|);
    }

    method EvalUntil(l: MState, r: MState, buf: BinaryBuffer<Table>, until: UntilImpl, db: map<PredId, seq<Row>>,
                     ts: nat) returns (out: seq<Table>)
      requires op == MUntil(l, r, buf, until) && Valid() && Reads(db, ts)
      modifies repr
      ensures Valid() && n == old(n) + 1 && Delivered(phi, lay, tr, old(n), out)
      decreases height, 4
    {
      hide Valid, Delivered, PairsOk, Buffered, TestOk, UntilState, WellFormedTrace, Progress;
      Unfold();
      ghost var m := Paired(l, r, n);
      var pairs := RecReduce(l, r, buf, db, ts);
      out := FeedUntil(until, pairs, ts, l.phi, l.lay, m);
      Unfold();
    }

    /** The loop of MEventually for one time point. */
    method FeedEventually(until: UntilImpl, recTabs: seq<Table>, ts: nat, ghost m: nat) returns (out: seq<Table>)
      requires WellFormedTrace(tr) && n < |tr| && tr[n].ts == ts && UntilFits(until) && UntilState(until, m)
               && until.NoLeft()
      requires Verdicts(phi.phir, lay, recTabs, tr, m) && m + |recTabs| <= n + 1 && phi.phil.IsAlwaysTrue()
      requires m == Progress(phi.phir, tr, n) && m + |recTabs| == Progress(phi.phir, tr, n + 1)
      modifies this`tsBuf, this`n, until
      ensures n == old(n) + 1 && UntilState(until, m + |recTabs|) && until.NoLeft()
              && Delivered(phi, lay, tr, old(n), out)
    {
      hide Fed, Verdicts, UntilImpl.Valid, UntilImpl.NoLeft, WellFormedTrace, AtRest, Progress, Delivered;
      BufferTs(ts, m);
      n := n + 1;
      out, tsBuf := EventuallyRound(until, recTabs, tsBuf, phi, lay, tr, n - 1, m, m + |recTabs|);
      StampsRest(tr, n, m, m + |recTabs|);
    }

    method EvalEventually(c: MState, until: UntilImpl, db: map<PredId, seq<Row>>, ts: nat) returns (out: seq<Table>)
      requires op == MEventually(c, until) && Valid() && Reads(db, ts)
      modifies repr
      ensures Valid() && n == old(n) + 1 && Delivered(phi, lay, tr, old(n), out)
      decreases height, 4
    {
      hide Valid, Verdicts, UntilState, UntilImpl.NoLeft, WellFormedTrace, Progress;
      Unfold();
      ghost var m := Progress(c.phi, tr, n);
      var recTabs := c.Eval(db, ts);
      out := FeedEventually(until, recTabs, ts, m);
      Unfold();
    }
  }
}
