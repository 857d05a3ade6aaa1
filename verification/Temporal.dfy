/** Notions shared by the temporal operators: the tables they are fed, and the test against the left operand. */
module Temporal {
  import opened Wrappers
  import opened Tables

  /** A right-hand table with its timestamp. */
  datatype Entry = Entry(ts: nat, tab: Table)

  /** How a right-hand row is tested against a left-hand table (`left_negated`, `comm_idx_r`). */
  datatype LeftTest = LeftTest(negated: bool, idx: seq<nat>)

  /** The left condition at one time point; `None` is the left operand of `once`, which always holds. */
  ghost predicate LeftOk(t: LeftTest, left: Option<Table>, e: Row) {
    left.None? || (InRange(t.idx, |e|) && (FilterRow(t.idx, e) in left.value) != t.negated)
  }

  ghost predicate Sorted(es: seq<Entry>) {
    forall i, j :: 0 <= i <= j < |es| ==> es[i].ts <= es[j].ts
  }

  /** The left operand of `once` and `eventually`: no condition at any time point. */
  ghost predicate AllNone(ls: seq<Option<Table>>) {
    forall k :: 0 <= k < |ls| ==> ls[k].None?
  }

  /** The table of `0 = 0` at every time point. */
  ghost predicate AllUnit(ls: seq<Option<Table>>) {
    forall k :: 0 <= k < |ls| ==> ls[k] == Some({[]})
  }
}
