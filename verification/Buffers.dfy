/**
 * Pairing up two table streams that arrive in chunks of different sizes
 * (src/common/buffers.h).  The pairs are handed out in order; callers map their
 * reduction over them, which never looks at the buffer.
 */
module Buffers {

  function Min(a: nat, b: nat): nat {
    if a <= b then a else b
  }

  /** A pair of a value of the buffered side and one of the other side, left value first. */
  function Ordered<T>(isL: bool, own: T, other: T): (T, T) {
    if isL then (own, other) else (other, own)
  }

  /** Pairs `own[k]` with `other[k]` until one of them is exhausted. */
  method Pair<T>(own: seq<T>, other: seq<T>, isL: bool) returns (res: seq<(T, T)>)
    ensures |res| == Min(|own|, |other|)
    ensures forall k :: 0 <= k < |res| ==> res[k] == Ordered(isL, own[k], other[k])
  {
    res := [];
    var i := 0;
    while i < |own| && i < |other|
      invariant i == |res| <= Min(|own|, |other|)
      invariant forall k :: 0 <= k < i ==> res[k] == Ordered(isL, own[k], other[k])
    {
      res := res + [if isL then (own[i], other[i]) else (other[i], own[i])];
      i := i + 1;
    }
  }

  /** `queue` is what `own` has received in excess of `other`. */
  ghost predicate Surplus<T>(own: seq<T>, other: seq<T>, queue: seq<T>) {
    |other| <= |own| && queue == own[|other|..]
  }

  lemma SurplusStep<T>(own: seq<T>, other: seq<T>, queue: seq<T>, s1: seq<T>, s2: seq<T>)
    requires Surplus(own, other, queue)
    ensures |own + s1| == |other| + |queue + s1|
    ensures |s2| <= |queue + s1| ==> Surplus(own + s1, other + s2, (queue + s1)[|s2|..])
    ensures |queue + s1| <= |s2| ==> Surplus(other + s2, own + s1, s2[|queue + s1|..])
  {
    assert own + s1 == own[..|other|] + (queue + s1);
  }

  /** `res` pairs the two streams from position `done` on, as far as both go. */
  ghost predicate Zipped<T>(left: seq<T>, right: seq<T>, done: nat, res: seq<(T, T)>) {
    && done + |res| == Min(|left|, |right|)
    && forall k :: done <= k < done + |res| ==> res[k - done] == (left[k], right[k])
  }

  /** Pairing the queue and the new values is pairing the streams from where both have been consumed. */
  lemma ReducedPairs<T>(own: seq<T>, other: seq<T>, queue: seq<T>, s1: seq<T>, s2: seq<T>, isL: bool, res: seq<(T, T)>)
    requires Surplus(own, other, queue) && |res| == Min(|queue + s1|, |s2|)
    requires forall k :: 0 <= k < |res| ==> res[k] == Ordered(isL, (queue + s1)[k], s2[k])
    ensures isL ==> Zipped(own + s1, other + s2, |other|, res)
    ensures !isL ==> Zipped(other + s2, own + s1, |other|, res)
  {
    assert own + s1 == own[..|other|] + (queue + s1);
  }

  lemma Paired<T>(queue: seq<T>, s1: seq<T>, s2: seq<T>, isL: bool, res1: seq<(T, T)>, res2: seq<(T, T)>)
    requires |res1| == Min(|queue|, |s2|) && |res2| == Min(|s1|, |s2| - |res1|)
    requires forall k :: 0 <= k < |res1| ==> res1[k] == Ordered(isL, queue[k], s2[k])
    requires forall k :: 0 <= k < |res2| ==> res2[k] == Ordered(isL, s1[k], s2[|res1|..][k])
    ensures |res1 + res2| == Min(|queue + s1|, |s2|)
    ensures forall k :: 0 <= k < |res1 + res2| ==> (res1 + res2)[k] == Ordered(isL, (queue + s1)[k], s2[k])
    ensures queue[|res1|..] + s1[|res2|..] == (queue + s1)[|res1 + res2|..]
  {}

  class BinaryBuffer<T> {
    var buf: seq<T>
    var isL: bool
    /** All inputs so far. */
    ghost var left: seq<T>
    ghost var right: seq<T>

    /** The buffer holds exactly the surplus of the side that `isL` names. */
    ghost predicate Valid()
      reads this
    {
      if isL then Surplus(left, right, buf) else Surplus(right, left, buf)
    }

    constructor ()
      ensures Valid() && left == [] && right == []
    {
      buf, isL, left, right := [], false, [], [];
    }

    method UpdateAndReduce(newL: seq<T>, newR: seq<T>) returns (res: seq<(T, T)>)
      requires Valid()
      modifies this
      ensures Valid() && left == old(left) + newL && right == old(right) + newR
      ensures Zipped(left, right, Min(|old(left)|, |old(right)|), res)
    {
      hide Ordered, Zipped;
      var s1, s2 := if isL then newL else newR, if isL then newR else newL;
      ghost var queue, wasL := buf, isL;
      res := ReduceInto(s1, s2);
      if wasL {
        SurplusStep(left, right, queue, newL, newR);
        ReducedPairs(left, right, queue, newL, newR, wasL, res);
      } else {
        SurplusStep(right, left, queue, newR, newL);
        ReducedPairs(right, left, queue, newR, newL, wasL, res);
      }
      left, right := left + newL, right + newR;
    }

    /** The loops of `update_and_reduce`: the buffered values are paired first, then the new ones of the same side. */
    method ReduceInto(s1: seq<T>, s2: seq<T>) returns (res: seq<(T, T)>)
      modifies this`buf, this`isL
      ensures |res| == Min(|old(buf) + s1|, |s2|)
      ensures forall k :: 0 <= k < |res| ==> res[k] == Ordered(old(isL), (old(buf) + s1)[k], s2[k])
      ensures if |old(buf) + s1| <= |s2| then isL == !old(isL) && buf == s2[|old(buf) + s1|..]
              else isL == old(isL) && buf == (old(buf) + s1)[|s2|..]
    {
      var res1 := Pair(buf, s2, isL);
      var res2 := Pair(s1, s2[|res1|..], isL);
      res := res1 + res2;
      Paired(buf, s1, s2, isL, res1, res2);
      var rest := buf[|res1|..];
      if rest == [] && |res2| == |s1| {
        isL := !isL;
        buf := s2[|res|..];
      } else {
        buf := rest + s1[|res2|..];
      }
    }
  }
}
