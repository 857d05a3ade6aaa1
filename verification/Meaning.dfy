/** When a table is the set of satisfying assignments of a formula. */
module Meaning {
  import opened Wrappers
  import opened Tables
  import opened Formulas
  import opened Joins

  /** Under layout `lay`, `tab` holds exactly the assignments that satisfy `phi` at time point `i`. */
  ghost predicate Represents(phi: Formula, lay: Layout, tab: Table, tr: seq<TimePoint>, i: nat) {
    i < |tr| && RowsOf(|lay|, tab) && forall v: Env :: Project(lay, v) in tab <==> Sat(phi, tr, i, v)
  }

  /** The layout that `phi` compiles to: each of its columns once. */
  ghost predicate IsLayout(phi: Formula, lay: Layout) {
    phi.LayoutVars().Some? && DupFree(lay) && forall x :: x in lay <==> x in phi.Columns()
  }

  /** An assignment whose projection is a given row. */
  ghost function EnvOf(lay: Layout, row: Row): (v: Env)
    requires DupFree(lay) && |row| == |lay|
    ensures Project(lay, v) == row
  {
    if lay == [] then assert Project(lay, []) == row; [] else
      var n := |lay| - 1;
      var v := EnvOf(lay[..n], row[..n]);
      var x := lay[n];
      var w := v + seq(if |v| <= x then x + 1 - |v| else 0, k => 0);
      var u := w[x := row[n]];
      assert Project(lay, u) == row by {
        forall k | 0 <= k < |lay| ensures Lookup(u, lay[k]) == row[k] {
          if k < n {
            assert Project(lay[..n], v)[k] == row[..n][k];
            assert Lookup(v, lay[k]) == row[k];
          }
        }
      }
      u
  }

  /** So the rows of a representing table are exactly those whose assignments satisfy the formula. */
  lemma RepresentsRow(phi: Formula, lay: Layout, tab: Table, tr: seq<TimePoint>, i: nat, row: Row)
    requires Represents(phi, lay, tab, tr, i) && DupFree(lay) && |row| == |lay|
    ensures row in tab <==> Sat(phi, tr, i, EnvOf(lay, row))
  {
    assert Project(lay, EnvOf(lay, row)) == row;
  }

  /** A formula and a layout determine the table. */
  lemma RepresentsUnique(phi: Formula, lay: Layout, tab1: Table, tab2: Table, tr: seq<TimePoint>, i: nat)
    requires Represents(phi, lay, tab1, tr, i) && Represents(phi, lay, tab2, tr, i) && DupFree(lay)
    ensures tab1 == tab2
  {
    forall row ensures row in tab1 <==> row in tab2 {
      if |row| == |lay| {
        RepresentsRow(phi, lay, tab1, tr, i, row);
        RepresentsRow(phi, lay, tab2, tr, i, row);
      }
    }
  }
}
