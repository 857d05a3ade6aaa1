/**
 * Table layouts and the hash joins over them (src/table.h, src/table.cpp).  A
 * layout names the variable of each column, and rows are read as assignments.
 */
module Joins {
  import opened Tables
  import opened Formulas

  type Layout = seq<nat>

  ghost predicate DupFree(lay: Layout) {
    forall i, j :: 0 <= i < j < |lay| ==> lay[i] != lay[j]
  }

  /** The row that assignment `v` has under a layout. */
  function Project(lay: Layout, v: Env): (r: Row)
    ensures |r| == |lay| && forall k :: 0 <= k < |r| ==> r[k] == Lookup(v, lay[k])
  {
    seq(|lay|, k requires 0 <= k < |lay| => Lookup(v, lay[k]))
  }

  ghost predicate RowsOf(n: nat, tab: Table) {
    forall r | r in tab :: |r| == n
  }

  lemma FilterProject(idxs: seq<nat>, lay: Layout, v: Env)
    requires InRange(idxs, |lay|)
    ensures FilterRow(idxs, Project(lay, v)) == Project(FilterRow(idxs, lay), v)
  {}

  /** `get_var_2_idx`. */
  method GetVar2Idx(l: Layout) returns (res: map<nat, nat>)
    requires DupFree(l)
    ensures forall x :: x in res <==> x in l
    ensures forall x | x in res :: res[x] < |l| && l[res[x]] == x
  {
    res := map[];
    for i := 0 to |l|
      invariant forall x :: x in res <==> x in l[..i]
      invariant forall x | x in res :: res[x] < i && l[res[x]] == x
    {
      res := res[l[i] := i];
      assert l[..i + 1] == l[..i] + [l[i]];
    }
    assert l[..|l|] == l;
  }

  // ----- common columns -----

  /** `c1` and `c2` are the positions of the common variables in both layouts, in the order of the first. */
  ghost predicate Common(l1: Layout, l2: Layout, c1: seq<nat>, c2: seq<nat>) {
    && |c1| == |c2| && InRange(c1, |l1|) && InRange(c2, |l2|)
    && FilterRow(c1, l1) == FilterRow(c2, l2)
    && (forall x | x in l1 && x in l2 :: x in FilterRow(c1, l1))
    && ((forall x | x in l1 :: x in l2) ==> FilterRow(c1, l1) == l1)
  }

  method CommonIdxs(l1: Layout, l2: Layout, var2idx1: map<nat, nat>, var2idx2: map<nat, nat>)
    returns (c1: seq<nat>, c2: seq<nat>)
    requires forall x :: x in var2idx1 <==> x in l1
    requires forall x | x in var2idx1 :: var2idx1[x] < |l1| && l1[var2idx1[x]] == x
    requires forall x :: x in var2idx2 <==> x in l2
    requires forall x | x in var2idx2 :: var2idx2[x] < |l2| && l2[var2idx2[x]] == x
    ensures Common(l1, l2, c1, c2)
  {
    c1, c2 := [], [];
    ghost var vars := [];
    for i := 0 to |l1|
      invariant |c1| == |c2| == |vars| && InRange(c1, |l1|) && InRange(c2, |l2|)
      invariant forall k :: 0 <= k < |vars| ==> vars[k] == l1[c1[k]] == l2[c2[k]]
      invariant forall x | x in l1[..i] && x in l2 :: x in vars
      invariant (forall x | x in l1[..i] :: x in l2) ==> vars == l1[..i]
    {
      var var1 := l1[i];
      assert l1[..i + 1] == l1[..i] + [var1];
      assert var1 in l1[..i + 1];
      if var1 in var2idx2 {
        c1, c2 := c1 + [var2idx1[var1]], c2 + [var2idx2[var1]];
        vars := vars + [var1];
      }
    }
    assert l1[..|l1|] == l1;
    assert FilterRow(c1, l1) == vars == FilterRow(c2, l2);
  }

  // ----- natural join -----

  datatype JoinInfo = JoinInfo(commIdx1: seq<nat>, commIdx2: seq<nat>, keepIdx2: seq<nat>, resultLayout: Layout)

  ghost predicate IsJoinInfo(l1: Layout, l2: Layout, info: JoinInfo) {
    && Common(l1, l2, info.commIdx1, info.commIdx2)
    && InRange(info.keepIdx2, |l2|)
    && info.resultLayout == l1 + FilterRow(info.keepIdx2, l2)
    && (forall x :: x in l2 && x !in l1 <==> x in FilterRow(info.keepIdx2, l2))
    && DupFree(FilterRow(info.keepIdx2, l2))
  }

  method GetJoinInfo(l1: Layout, l2: Layout) returns (info: JoinInfo)
    requires DupFree(l1) && DupFree(l2)
    ensures IsJoinInfo(l1, l2, info)
  {
    var var2idx1 := GetVar2Idx(l1);
    var var2idx2 := GetVar2Idx(l2);
    var c1, c2 := CommonIdxs(l1, l2, var2idx1, var2idx2);
    var layout, keep := l1, [];
    ghost var vars := [];
    for i := 0 to |l2|
      invariant InRange(keep, |l2|) && |keep| == |vars| && layout == l1 + vars
      invariant forall k :: 0 <= k < |vars| ==> vars[k] == l2[keep[k]]
      invariant forall x :: x in l2[..i] && x !in l1 <==> x in vars
      invariant DupFree(vars)
    {
      var var2 := l2[i];
      assert l2[..i + 1] == l2[..i] + [var2];
      assert var2 !in l2[..i];
      if var2 !in var2idx1 {
        layout, keep := layout + [var2], keep + [var2idx2[var2]];
        vars := vars + [var2];
      }
    }
    assert l2[..|l2|] == l2;
    info := JoinInfo(c1, c2, keep, layout);
    assert FilterRow(keep, l2) == vars;
  }

  lemma JoinLayout(l1: Layout, l2: Layout, info: JoinInfo)
    requires DupFree(l1) && DupFree(l2) && IsJoinInfo(l1, l2, info)
    ensures DupFree(info.resultLayout)
    ensures forall x :: x in info.resultLayout <==> x in l1 || x in l2
  {
    var keep := FilterRow(info.keepIdx2, l2);
    forall i, j | 0 <= i < j < |info.resultLayout| ensures info.resultLayout[i] != info.resultLayout[j] {
      if |l1| <= j {
        assert info.resultLayout[j] == keep[j - |l1|];
        assert keep[j - |l1|] in keep;
        if |l1| <= i {
          assert info.resultLayout[i] == keep[i - |l1|];
        }
      }
    }
  }

  /** Row `r` combines a row of each table that agree on the common columns. */
  ghost predicate Joined(t1: Table, t2: Table, info: JoinInfo, r: Row, r1: Row, r2: Row)
    requires InRange(info.commIdx1, |r1|) && InRange(info.commIdx2, |r2|) && InRange(info.keepIdx2, |r2|)
  {
    && r1 in t1 && r2 in t2
    && FilterRow(info.commIdx1, r1) == FilterRow(info.commIdx2, r2)
    && r == r1 + FilterRow(info.keepIdx2, r2)
  }

  /** `res` holds the combinations of all pairs of rows that agree. */
  ghost predicate IsJoin(t1: Table, t2: Table, n1: nat, n2: nat, info: JoinInfo, res: Table)
    requires InRange(info.commIdx1, n1) && InRange(info.commIdx2, n2) && InRange(info.keepIdx2, n2)
  {
    forall r :: r in res <==> exists r1, r2 :: |r1| == n1 && |r2| == n2 && Joined(t1, t2, info, r, r1, r2)
  }

  lemma JoinedNone(t2: Table, n1: nat, n2: nat, info: JoinInfo)
    requires InRange(info.commIdx1, n1) && InRange(info.commIdx2, n2) && InRange(info.keepIdx2, n2)
    ensures IsJoin({}, t2, n1, n2, info, {})
  {}

  /** `compute_join_hash_map`: the rows of a table by the values of their common columns. */
  method ComputeJoinHashMap(tab: Table, idxs: seq<nat>) returns (res: map<Row, set<Row>>)
    requires forall r | r in tab :: InRange(idxs, |r|)
    ensures forall key, r :: key in res && r in res[key] <==>
            r in tab && InRange(idxs, |r|) && FilterRow(idxs, r) == key
  {
    res := map[];
    ghost var done := {};
    var todo := tab;
    while todo != {}
      invariant done !! todo && done + todo == tab
      invariant forall key, r :: key in res && r in res[key] <==>
                r in done && InRange(idxs, |r|) && FilterRow(idxs, r) == key
    {
      var row :| row in todo;
      var colVals := FilterRow(idxs, row);
      res := res[colVals := (if colVals in res then res[colVals] else {}) + {row}];
      done, todo := done + {row}, todo - {row};
    }
    assert done == tab;
  }

  method NaturalJoin(t1: Table, t2: Table, ghost l1: Layout, ghost l2: Layout, info: JoinInfo) returns (res: Table)
    requires RowsOf(|l1|, t1) && RowsOf(|l2|, t2) && IsJoinInfo(l1, l2, info)
    ensures IsJoin(t1, t2, |l1|, |l2|, info, res)
  {
    hide IsJoin, DupFree;
    var hashMap := ComputeJoinHashMap(t2, info.commIdx2);
    res := {};
    ghost var done := {};
    var todo := t1;
    JoinedNone(t2, |l1|, |l2|, info);
    while todo != {}
      invariant done !! todo && done + todo == t1
      invariant IsJoin(done, t2, |l1|, |l2|, info, res)
    {
      var row :| row in todo;
      var colVals := FilterRow(info.commIdx1, row);
      var matches := if colVals in hashMap then hashMap[colVals] else {};
      forall r2 | r2 in matches ensures |r2| == |l2| {}
      var new_ := set r2 | r2 in matches :: row + FilterRow(info.keepIdx2, r2);
      JoinedStep(done, row, t2, l1, l2, info, res, matches, new_);
      res := res + new_;
      done, todo := done + {row}, todo - {row};
    }
    assert done == t1;
  }

  lemma JoinedStep(done: Table, row: Row, t2: Table, l1: Layout, l2: Layout, info: JoinInfo, res: Table,
                   matches: Table, new_: Table)
    requires |row| == |l1| && RowsOf(|l2|, t2) && IsJoinInfo(l1, l2, info)
    requires IsJoin(done, t2, |l1|, |l2|, info, res)
    requires forall r2 :: r2 in matches <==>
             r2 in t2 && |r2| == |l2| && FilterRow(info.commIdx2, r2) == FilterRow(info.commIdx1, row)
    requires new_ == set r2 | r2 in matches :: row + FilterRow(info.keepIdx2, r2)
    ensures IsJoin(done + {row}, t2, |l1|, |l2|, info, res + new_)
  {
    forall r ensures r in res + new_ <==>
        exists r1, r2 :: |r1| == |l1| && |r2| == |l2| && Joined(done + {row}, t2, info, r, r1, r2) {
      if r in res {
        var r1, r2 :| |r1| == |l1| && |r2| == |l2| && Joined(done, t2, info, r, r1, r2);
        assert Joined(done + {row}, t2, info, r, r1, r2);
      } else if r in new_ {
        var r2 :| r2 in matches && r == row + FilterRow(info.keepIdx2, r2);
        assert Joined(done + {row}, t2, info, r, row, r2);
      } else if r1, r2 :| |r1| == |l1| && |r2| == |l2| && Joined(done + {row}, t2, info, r, r1, r2) {
        if r1 in done {
          assert Joined(done, t2, info, r, r1, r2);
        }
      }
    }
  }

  /** Read as assignments, a natural join is a conjunction. */
  lemma JoinMeaning(t1: Table, t2: Table, l1: Layout, l2: Layout, info: JoinInfo, res: Table, v: Env)
    requires RowsOf(|l1|, t1) && RowsOf(|l2|, t2) && IsJoinInfo(l1, l2, info) && DupFree(l2)
    requires IsJoin(t1, t2, |l1|, |l2|, info, res)
    ensures Project(info.resultLayout, v) in res <==> Project(l1, v) in t1 && Project(l2, v) in t2
  {
    var r, p1, p2 := Project(info.resultLayout, v), Project(l1, v), Project(l2, v);
    FilterProject(info.commIdx1, l1, v);
    FilterProject(info.commIdx2, l2, v);
    ProjectResult(l1, l2, info, v);
    if p1 in t1 && p2 in t2 {
      assert Joined(t1, t2, info, r, p1, p2);
    }
    if r in res {
      var r1, r2 :| |r1| == |l1| && |r2| == |l2| && Joined(t1, t2, info, r, r1, r2);
      JoinedIsProjection(l1, l2, info, v, r1, r2);
    }
  }

  lemma ProjectResult(l1: Layout, l2: Layout, info: JoinInfo, v: Env)
    requires IsJoinInfo(l1, l2, info)
    ensures Project(info.resultLayout, v) == Project(l1, v) + FilterRow(info.keepIdx2, Project(l2, v))
  {
    FilterProject(info.keepIdx2, l2, v);
  }

  lemma JoinedIsProjection(l1: Layout, l2: Layout, info: JoinInfo, v: Env, r1: Row, r2: Row)
    requires IsJoinInfo(l1, l2, info) && DupFree(l2) && |r1| == |l1| && |r2| == |l2|
    requires FilterRow(info.commIdx1, r1) == FilterRow(info.commIdx2, r2)
    requires Project(info.resultLayout, v) == r1 + FilterRow(info.keepIdx2, r2)
    ensures r1 == Project(l1, v) && r2 == Project(l2, v)
  {
    var r, p1, p2 := Project(info.resultLayout, v), Project(l1, v), Project(l2, v);
    ProjectResult(l1, l2, info, v);
    assert r1 == r[..|l1|] == p1;
    assert FilterRow(info.keepIdx2, r2) == r[|l1|..] == FilterRow(info.keepIdx2, p2);
    FilterProject(info.commIdx1, l1, v);
    FilterProject(info.commIdx2, l2, v);
    ColumnsDetermine(l1, l2, info, r2, p2);
  }

  /** The common and the kept columns together are all columns of the second table. */
  lemma ColumnsDetermine(l1: Layout, l2: Layout, info: JoinInfo, r2: Row, p2: Row)
    requires IsJoinInfo(l1, l2, info) && |r2| == |p2| == |l2| && DupFree(l2)
    requires FilterRow(info.keepIdx2, r2) == FilterRow(info.keepIdx2, p2)
    requires FilterRow(info.commIdx2, r2) == FilterRow(info.commIdx2, p2)
    ensures r2 == p2
  {
    forall j | 0 <= j < |l2| ensures r2[j] == p2[j] {
      if l2[j] in l1 {
        var k :| 0 <= k < |info.commIdx2| && FilterRow(info.commIdx2, l2)[k] == l2[j];
        assert info.commIdx2[k] == j;
        assert FilterRow(info.commIdx2, r2)[k] == r2[j];
      } else {
        var k :| 0 <= k < |info.keepIdx2| && FilterRow(info.keepIdx2, l2)[k] == l2[j];
        assert info.keepIdx2[k] == j;
        assert FilterRow(info.keepIdx2, r2)[k] == r2[j];
      }
    }
  }

  // ----- anti join -----

  datatype AntiJoinInfo = AntiJoinInfo(commIdx1: seq<nat>, commIdx2: seq<nat>, resultLayout: Layout)

  ghost predicate IsAntiJoinInfo(l1: Layout, l2: Layout, info: AntiJoinInfo) {
    Common(l1, l2, info.commIdx1, info.commIdx2) && info.resultLayout == l1
  }

  method GetAntiJoinInfo(l1: Layout, l2: Layout) returns (info: AntiJoinInfo)
    requires DupFree(l1) && DupFree(l2)
    ensures IsAntiJoinInfo(l1, l2, info)
  {
    var var2idx1 := GetVar2Idx(l1);
    var var2idx2 := GetVar2Idx(l2);
    var c1, c2 := CommonIdxs(l1, l2, var2idx1, var2idx2);
    info := AntiJoinInfo(c1, c2, l1);
  }

  method ComputeJoinHashSet(tab: Table, idxs: seq<nat>, ghost n: nat) returns (res: set<Row>)
    requires RowsOf(n, tab) && InRange(idxs, n)
    ensures forall key :: key in res <==> exists r :: r in tab && |r| == n && FilterRow(idxs, r) == key
  {
    res := {};
    ghost var done := {};
    var todo := tab;
    while todo != {}
      invariant done !! todo && done + todo == tab
      invariant forall key :: key in res <==> exists r :: r in done && |r| == n && FilterRow(idxs, r) == key
    {
      var row :| row in todo;
      res := res + {FilterRow(idxs, row)};
      done, todo := done + {row}, todo - {row};
    }
    assert done == tab;
  }

  /** No row of the second table agrees with `r` on the common columns. */
  ghost predicate Unmatched(t2: Table, n: nat, info: AntiJoinInfo, r: Row)
    requires InRange(info.commIdx1, |r|) && InRange(info.commIdx2, n)
  {
    forall r2 | r2 in t2 && |r2| == n :: FilterRow(info.commIdx2, r2) != FilterRow(info.commIdx1, r)
  }

  method AntiJoin(t1: Table, t2: Table, ghost l1: Layout, ghost l2: Layout, info: AntiJoinInfo) returns (res: Table)
    requires RowsOf(|l1|, t1) && RowsOf(|l2|, t2) && IsAntiJoinInfo(l1, l2, info)
    ensures forall r :: r in res <==> r in t1 && |r| == |l1| && Unmatched(t2, |l2|, info, r)
  {
    var hashSet := ComputeJoinHashSet(t2, info.commIdx2, |l2|);
    res := set row | row in t1 && FilterRow(info.commIdx1, row) !in hashSet;
  }

  /** With the right variables among the left ones, an anti join is a conjunction with a negation. */
  lemma AntiJoinMeaning(t1: Table, t2: Table, l1: Layout, l2: Layout, info: AntiJoinInfo, res: Table, v: Env)
    requires RowsOf(|l1|, t1) && RowsOf(|l2|, t2) && IsAntiJoinInfo(l1, l2, info) && DupFree(l2)
    requires forall x | x in l2 :: x in l1
    requires forall r :: r in res <==> r in t1 && |r| == |l1| && Unmatched(t2, |l2|, info, r)
    ensures Project(l1, v) in res <==> Project(l1, v) in t1 && Project(l2, v) !in t2
  {
    var p1, p2 := Project(l1, v), Project(l2, v);
    FilterProject(info.commIdx1, l1, v);
    FilterProject(info.commIdx2, l2, v);
    if r2 :| r2 in t2 && |r2| == |l2| && FilterRow(info.commIdx2, r2) == FilterRow(info.commIdx1, p1) {
      forall j | 0 <= j < |l2| ensures r2[j] == p2[j] {
        assert l2[j] in l2 && l2[j] in FilterRow(info.commIdx2, l2);
        var k :| 0 <= k < |info.commIdx2| && FilterRow(info.commIdx2, l2)[k] == l2[j];
        assert info.commIdx2[k] == j;
        assert FilterRow(info.commIdx2, r2)[k] == r2[j];
      }
      assert r2 == p2;
    }
  }

  // ----- union -----

  /** `perm` reads a row of layout `l2` as one of layout `l1`. */
  ghost predicate IsPermutation(l1: Layout, l2: Layout, perm: seq<nat>) {
    InRange(perm, |l2|) && FilterRow(perm, l2) == l1
  }

  method FindPermutation(l1: Layout, l2: Layout) returns (perm: seq<nat>)
    requires DupFree(l2) && forall x | x in l1 :: x in l2
    ensures IsPermutation(l1, l2, perm)
  {
    var var2idx2 := GetVar2Idx(l2);
    perm := [];
    for i := 0 to |l1|
      invariant |perm| == i && InRange(perm, |l2|)
      invariant forall k :: 0 <= k < i ==> l2[perm[k]] == l1[k]
    {
      assert l1[i] in l1;
      perm := perm + [var2idx2[l1[i]]];
    }
  }

  method UnionInPlace(t1: Table, t2: Table, perm: seq<nat>, ghost n: nat) returns (res: Table)
    requires RowsOf(n, t2) && InRange(perm, n)
    ensures forall r :: r in res <==> r in t1 || exists r2 :: r2 in t2 && |r2| == n && FilterRow(perm, r2) == r
  {
    res := t1;
    ghost var done := {};
    var todo := t2;
    while todo != {}
      invariant done !! todo && done + todo == t2
      invariant forall r :: r in res <==> r in t1 || exists r2 :: r2 in done && |r2| == n && FilterRow(perm, r2) == r
    {
      var row :| row in todo;
      res := res + {FilterRow(perm, row)};
      done, todo := done + {row}, todo - {row};
    }
    assert done == t2;
  }

  lemma PermutedProjection(l1: Layout, l2: Layout, perm: seq<nat>, v: Env, r2: Row)
    requires IsPermutation(l1, l2, perm) && DupFree(l1) && |l1| == |l2| && |r2| == |l2| && DupFree(l2)
    requires forall x | x in l2 :: x in l1
    ensures FilterRow(perm, r2) == Project(l1, v) <==> r2 == Project(l2, v)
  {
    var p2 := Project(l2, v);
    FilterProject(perm, l2, v);
    if FilterRow(perm, r2) == Project(l1, v) {
      forall j | 0 <= j < |l2| ensures r2[j] == p2[j] {
        assert l2[j] in l2;
        var k :| 0 <= k < |l1| && l1[k] == l2[j];
        assert FilterRow(perm, l2)[k] == l2[j];
        assert perm[k] == j;
        assert FilterRow(perm, r2)[k] == r2[j];
      }
      assert r2 == p2;
    }
  }

  lemma UnionMeaning(t1: Table, t2: Table, l1: Layout, l2: Layout, perm: seq<nat>, res: Table, v: Env)
    requires RowsOf(|l2|, t2) && IsPermutation(l1, l2, perm) && DupFree(l1) && DupFree(l2) && |l1| == |l2|
    requires forall x | x in l2 :: x in l1
    requires forall r :: r in res <==> r in t1 || exists r2 :: r2 in t2 && |r2| == |l2| && FilterRow(perm, r2) == r
    ensures Project(l1, v) in res <==> Project(l1, v) in t1 || Project(l2, v) in t2
  {
    PermutedProjection(l1, l2, perm, v, Project(l2, v));
    if r2 :| r2 in t2 && |r2| == |l2| && FilterRow(perm, r2) == Project(l1, v) {
      PermutedProjection(l1, l2, perm, v, r2);
    }
  }
}
