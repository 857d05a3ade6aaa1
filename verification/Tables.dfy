/**
 * Rows and tables (src/table.h).  An optional table of the source is a set of
 * rows here: the source never keeps a present but empty table, so the empty set
 * stands for the absent one.
 */
module Tables {

  type Value = int
  type Row = seq<Value>
  type Table = set<Row>

  predicate InRange(idxs: seq<nat>, n: nat) {
    forall k :: 0 <= k < |idxs| ==> idxs[k] < n
  }

  /** The entries of `row` at the positions `idxs`; layouts are filtered the same way as rows. */
  function FilterRow<T>(idxs: seq<nat>, row: seq<T>): (r: seq<T>)
    requires InRange(idxs, |row|)
    ensures |r| == |idxs| && forall k :: 0 <= k < |r| ==> r[k] == row[idxs[k]]
  {
    seq(|idxs|, k requires 0 <= k < |idxs| => row[idxs[k]])
  }
}
