/**
 * What an aggregation computes: rows are grouped, and each non-empty group
 * contributes one result.  Rows come as a multiset, so that the incremental
 * aggregator, which adds and removes rows one by one, has a meaning even when
 * a row was added twice.
 */
module AggSpec {
  import opened Tables

  datatype AggType = CNT | MIN | MAX | SUM | AVG

  /** Averages are floating-point numbers in the source; here they are exact, and equal if their values are. */
  datatype AggResult = IntResult(i: int) | FloatResult(d: real)

  /** `ty`, `group_var_idxs_` and `term_var_idx_`. */
  datatype AggConfig = AggConfig(ty: AggType, groupIdxs: seq<nat>, termIdx: nat)

  datatype ResultRow = ResultRow(group: Row, value: AggResult)

  predicate Fits(c: AggConfig, e: Row) {
    InRange(c.groupIdxs, |e|) && c.termIdx < |e|
  }

  function GroupOf(c: AggConfig, e: Row): Row
    requires Fits(c, e)
  {
    FilterRow(c.groupIdxs, e)
  }

  ghost function Pick<T>(m: multiset<T>): (e: T)
    requires |m| > 0
    ensures e in m
  {
    var e :| e in m;
    e
  }

  /** The shares of all elements of `bag` together. */
  ghost function Total<T(!new)>(share: T -> multiset<Value>, bag: multiset<T>): multiset<Value>
    decreases |bag|
  {
    if |bag| == 0 then multiset{} else
      var e := Pick(bag);
      share(e) + Total(share, bag - multiset{e})
  }

  lemma SumSwap<T>(a: multiset<T>, b: multiset<T>, c: multiset<T>)
    ensures a + (b + c) == b + (a + c)
  {}

  lemma RemoveSwap<T>(m: multiset<T>, e: T, f: T)
    ensures m - multiset{e} - multiset{f} == m - multiset{f} - multiset{e}
  {}

  lemma RemoveOther<T>(m: multiset<T>, e: T, f: T)
    requires e in m && f in m && e != f
    ensures e in m - multiset{f} && |m - multiset{f}| < |m|
  {}

  /** `Total` does not depend on which element is taken out first. */
  lemma {:induction false} TotalRemove<T(!new)>(share: T -> multiset<Value>, bag: multiset<T>, e: T)
    requires e in bag
    ensures Total(share, bag) == share(e) + Total(share, bag - multiset{e})
    decreases |bag|
  {
    var f := Pick(bag);
    if f != e {
      RemoveOther(bag, e, f);
      RemoveOther(bag, f, e);
      TotalRemove(share, bag - multiset{f}, e);
      TotalRemove(share, bag - multiset{e}, f);
      RemoveSwap(bag, e, f);
      SumSwap(share(e), share(f), Total(share, bag - multiset{f} - multiset{e}));
    }
  }

  /** What one row contributes to group `g`. */
  ghost function Share(c: AggConfig, g: Row): Row -> multiset<Value> {
    e => if Fits(c, e) && GroupOf(c, e) == g then multiset{e[c.termIdx]} else multiset{}
  }

  /** The term values of the rows of `bag` that belong to group `g`. */
  ghost function Vals(c: AggConfig, bag: multiset<Row>, g: Row): multiset<Value> {
    Total(Share(c, g), bag)
  }

  ghost function Sum(vs: multiset<Value>): int
    decreases |vs|
  {
    if |vs| == 0 then 0 else
      var v := Pick(vs);
      v + Sum(vs - multiset{v})
  }

  lemma {:induction false} SumRemove(vs: multiset<Value>, v: Value)
    requires v in vs
    ensures Sum(vs) == v + Sum(vs - multiset{v})
    decreases |vs|
  {
    var w := Pick(vs);
    if w != v {
      RemoveOther(vs, v, w);
      RemoveOther(vs, w, v);
      SumRemove(vs - multiset{w}, v);
      SumRemove(vs - multiset{v}, w);
      RemoveSwap(vs, v, w);
    }
  }

  lemma AddThenRemove<T>(m: multiset<T>, e: T)
    ensures m + multiset{e} - multiset{e} == m
    ensures multiset{e} + m - multiset{e} == m
    ensures e in m + multiset{e} && e in multiset{e} + m
    ensures |m + multiset{e}| == |m| + 1
  {}

  lemma RemoveThenAdd<T>(m: multiset<T>, e: T)
    requires e in m
    ensures m - multiset{e} + multiset{e} == m && |m - multiset{e}| == |m| - 1
    ensures |m| == 1 <==> m == multiset{e}
  {
    assert m == m - multiset{e} + multiset{e};
    if |m| == 1 {
      assert |m - multiset{e}| == 0;
    }
  }

  lemma SumAdd(vs: multiset<Value>, v: Value)
    ensures Sum(vs + multiset{v}) == Sum(vs) + v
  {
    SumRemove(vs + multiset{v}, v);
    AddThenRemove(vs, v);
  }

  /** Adding a row changes its own group only. */
  lemma ValsAdd(c: AggConfig, bag: multiset<Row>, e: Row, g: Row)
    requires Fits(c, e)
    ensures Vals(c, bag + multiset{e}, g)
         == if GroupOf(c, e) == g then Vals(c, bag, g) + multiset{e[c.termIdx]} else Vals(c, bag, g)
  {
    TotalRemove(Share(c, g), bag + multiset{e}, e);
    AddThenRemove(bag, e);
  }

  lemma ValsRemove(c: AggConfig, bag: multiset<Row>, e: Row, g: Row)
    requires Fits(c, e) && e in bag
    ensures GroupOf(c, e) == g ==> e[c.termIdx] in Vals(c, bag, g)
    ensures Vals(c, bag - multiset{e}, g)
         == if GroupOf(c, e) == g then Vals(c, bag, g) - multiset{e[c.termIdx]} else Vals(c, bag, g)
  {
    TotalRemove(Share(c, g), bag, e);
    AddThenRemove(Vals(c, bag - multiset{e}, g), e[c.termIdx]);
  }

  ghost predicate IsMin(vs: multiset<Value>, v: Value) {
    v in vs && forall w | w in vs :: v <= w
  }

  ghost predicate IsMax(vs: multiset<Value>, v: Value) {
    v in vs && forall w | w in vs :: w <= v
  }

  /** The one number that an average is reported as. */
  function Average(sum: int, count: nat): (d: real)
    requires count > 0
    ensures d * count as real == sum as real
  {
    sum as real / count as real
  }

  /** `r` is the result for a group with term values `vs`. */
  ghost predicate IsResult(ty: AggType, vs: multiset<Value>, r: AggResult) {
    match ty
    case CNT => r == IntResult(|vs|)
    case SUM => r == IntResult(Sum(vs))
    case AVG => |vs| > 0 && r == FloatResult(Average(Sum(vs), |vs|))
    case MIN => r.IntResult? && IsMin(vs, r.i)
    case MAX => r.IntResult? && IsMax(vs, r.i)
  }

  lemma ResultUnique(ty: AggType, vs: multiset<Value>, r: AggResult)
    requires IsResult(ty, vs, r)
    ensures forall r' :: IsResult(ty, vs, r') ==> r' == r
  {}

  /** `out` holds exactly one result row for every group that occurs in `bag`. */
  ghost predicate Aggregates(c: AggConfig, bag: multiset<Row>, out: set<ResultRow>)
  {
    forall x: ResultRow :: x in out <==>
        Vals(c, bag, x.group) != multiset{} && IsResult(c.ty, Vals(c, bag, x.group), x.value)
  }

  /** The aggregate of a bag is unique. */
  lemma AggregatesUnique(c: AggConfig, bag: multiset<Row>, out1: set<ResultRow>, out2: set<ResultRow>)
    requires Aggregates(c, bag, out1) && Aggregates(c, bag, out2)
    ensures out1 == out2
  {
    assert forall x :: x in out1 <==> x in out2;
  }
}
