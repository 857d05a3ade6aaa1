/** Metric intervals (src/formula.cpp, class Interval). */
module Intervals {

  /** `[l, u]` when `bounded`, `[l, oo)` otherwise. */
  datatype Interval = Interval(l: nat, u: nat, bounded: bool) {

    predicate LeqUpper(n: int) {
      bounded ==> n <= u
    }

    predicate LtLower(n: int) {
      n < l
    }

    predicate Contains(n: int) {
      l <= n && LeqUpper(n)
    }
  }
}
