/**
 * The bounded single-producer single-consumer queue
 * (src/socket_interface/SPSCQueue.h), at the granularity of its atomic loads
 * and stores: each step below touches the other thread's index at most once.
 */
module SPSC {
  import opened Wrappers

  // ----- positions in the ring -----

  /** The slot of position `n` in a ring of `m` slots. */
  function Slot(n: nat, m: nat): (r: nat)
    requires m > 0
    ensures r < m
    decreases n
  {
    if n < m then n else Slot(n - m, m)
  }

  lemma {:induction false} SlotNext(n: nat, m: nat)
    requires m > 0
    ensures Slot(n + 1, m) == if Slot(n, m) + 1 == m then 0 else Slot(n, m) + 1
    decreases n
  {
    if n >= m {
      SlotNext(n - m, m);
    }
  }

  lemma SlotWraps(n: nat, m: nat)
    requires m > 0
    ensures Slot(n + m, m) == Slot(n, m)
  {}

  /** Different positions less than a whole ring apart are different slots. */
  lemma {:induction false} SlotDistinct(a: nat, b: nat, m: nat)
    requires m > 0 && a < b < a + m
    ensures Slot(a, m) != Slot(b, m)
    decreases a
  {
    if a >= m {
      SlotDistinct(a - m, b - m, m);
    }
  }

  // ----- the queue -----

  /** Where the producer is: about to enqueue, waiting for room, having reserved a slot, or having filled it. */
  datatype Producing<T> = Ready | Waiting(v: T) | Reserved(v: T) | Stored(v: T)

  /**
   * Where the consumer is: about to look, having found the queue empty by its cache, having seen an
   * element, or having destroyed it.
   */
  datatype Consuming = Looking | Reloading | Seen | Destroyed

  class Queue<T> {
    /** With one slack slot; `None` is raw storage. */
    const slots: array<Option<T>>
    const capacity: nat
    var writeIdx: nat
    var readIdx: nat
    var readIdxCache: nat
    var writeIdxCache: nat
    var producing: Producing<T>
    var consuming: Consuming

    /** Everything published, how much of it has been released, and the counts the cached indices stand for. */
    ghost var produced: seq<T>
    ghost var released: nat
    ghost var cachedReleased: nat
    ghost var cachedProduced: nat

    /** The indices and their caches, as counts. */
    ghost predicate Indices()
      reads this
    {
      && capacity >= 2
      && released <= |produced| < released + capacity
      && cachedReleased <= released && |produced| < cachedReleased + capacity
      && released <= cachedProduced <= |produced|
      && writeIdx == Slot(|produced|, capacity) && readIdx == Slot(released, capacity)
      && readIdxCache == Slot(cachedReleased, capacity) && writeIdxCache == Slot(cachedProduced, capacity)
    }

    /** What the slot of position `k` holds, for `k` from the oldest element on. */
    ghost function Expected(k: nat): Option<T>
      reads this
    {
      if k == released && consuming == Destroyed then None
      else if k < |produced| then Some(produced[k])
      else if k == |produced| && producing.Stored? then Some(producing.v)
      else None
    }

    ghost predicate Contents()
      requires Indices()
      reads this, slots
    {
      slots.Length == capacity &&
          forall k: nat :: released <= k < released + capacity ==> slots[Slot(k, capacity)] == Expected(k)
    }

    ghost predicate Valid()
      reads this, slots
    {
      && Indices() && Contents()
      && (producing.Reserved? || producing.Stored? ==> |produced| + 1 < cachedReleased + capacity)
      && (consuming == Seen || consuming == Destroyed ==> released < cachedProduced)
      && (consuming == Reloading ==> readIdx == writeIdxCache)
    }

    constructor (requested: nat)
      ensures Valid() && fresh(slots) && produced == [] && released == 0 && producing == Ready && consuming == Looking
      ensures capacity == (if requested < 1 then 1 else requested) + 1
    {
      var n := (if requested < 1 then 1 else requested) + 1;
      capacity := n;
      slots := new Option<T>[n](_ => None);
      writeIdx, readIdx, readIdxCache, writeIdxCache, producing, consuming := 0, 0, 0, 0, Ready, Looking;
      produced, released, cachedReleased, cachedProduced := [], 0, 0, 0;
    }

    // ----- the producer -----

    function NextWriteIdx(): nat
      reads this
    {
      if writeIdx + 1 == capacity then 0 else writeIdx + 1
    }

    /** There is room by the cached read index exactly if the next slot is not the oldest cached one. */
    lemma RoomIff()
      requires Indices()
      ensures NextWriteIdx() != readIdxCache <==> |produced| + 1 < cachedReleased + capacity
    {
      SlotNext(|produced|, capacity);
      if |produced| + 1 != cachedReleased + capacity {
        SlotDistinct(cachedReleased, |produced| + 1, capacity);
      }
    }

    method BeginEmplace(v: T)
      requires Valid() && producing == Ready
      modifies this`producing
      ensures Valid() && (producing == Waiting(v) || producing == Reserved(v))
    {
      RoomIff();
      producing := if NextWriteIdx() == readIdxCache then Waiting(v) else Reserved(v);
    }

    /** Loading the consumer's index; `emplace` repeats this while there is no room. */
    method ReloadReadIdx()
      requires Valid() && producing.Waiting?
      modifies this`producing, this`readIdxCache, this`cachedReleased
      ensures Valid() && (producing == Waiting(old(producing.v)) || producing == Reserved(old(producing.v)))
      ensures producing.Waiting? <==> |produced| - released == capacity - 1
    {
      readIdxCache := readIdx;
      cachedReleased := released;
      RoomIff();
      if NextWriteIdx() != readIdxCache {
        producing := Reserved(producing.v);
      }
    }

    /** `try_emplace` loads the consumer's index once, and returns false if there is still no room. */
    method ReloadOrGiveUp() returns (refused: bool)
      requires Valid() && producing.Waiting?
      modifies this`producing, this`readIdxCache, this`cachedReleased
      ensures Valid() && producing == if refused then Ready else Reserved(old(producing.v))
      ensures refused <==> |produced| - released == capacity - 1
    {
      ReloadReadIdx();
      refused := producing.Waiting?;
      if refused {
        producing := Ready;
      }
    }

    /** The reserved slot is raw storage when the element is constructed in it. */
    method Construct()
      requires Valid() && producing.Reserved?
      modifies this`producing, slots
      ensures old(slots[writeIdx]) == None && slots[writeIdx] == Some(old(producing.v))
      ensures forall k | 0 <= k < slots.Length && k != writeIdx :: slots[k] == old(slots[k])
      ensures Valid() && producing == Stored(old(producing.v))
    {
      var n := |produced|;
      assert Expected(n) == None;
      assert slots[writeIdx] == None;
      forall k: nat | released <= k < released + capacity && k != n ensures Slot(k, capacity) != Slot(n, capacity) {
        if k < n { SlotDistinct(k, n, capacity); } else { SlotDistinct(n, k, capacity); }
      }
      slots[writeIdx] := Some(producing.v);
      producing := Stored(producing.v);
    }

    method Publish()
      requires Valid() && producing.Stored?
      modifies this`producing, this`writeIdx, this`produced
      ensures Valid() && producing == Ready && produced == old(produced) + [old(producing.v)]
    {
      SlotNext(|produced|, capacity);
      writeIdx := NextWriteIdx();
      produced := produced + [producing.v];
      producing := Ready;
    }

    // ----- the consumer -----

    lemma EmptyIff()
      requires Indices()
      ensures readIdx == writeIdxCache <==> released == cachedProduced
    {
      if released < cachedProduced {
        SlotDistinct(released, cachedProduced, capacity);
      }
    }

    method BeginFront()
      requires Valid() && consuming == Looking
      modifies this`consuming
      ensures Valid() && (consuming == Reloading || consuming == Seen)
    {
      EmptyIff();
      consuming := if readIdx == writeIdxCache then Reloading else Seen;
    }

    /** Loading the producer's index; if the queue is still empty, `front` returns null. */
    method ReloadWriteIdx()
      requires Valid() && consuming == Reloading
      modifies this`consuming, this`writeIdxCache, this`cachedProduced
      ensures Valid() && (consuming == Looking <==> released == |produced|)
              && (consuming == Looking || consuming == Seen)
    {
      writeIdxCache := writeIdx;
      cachedProduced := |produced|;
      EmptyIff();
      consuming := if writeIdxCache == readIdx then Looking else Seen;
    }

    /** The element that `front` points to is the oldest one published and not released. */
    method Peek() returns (v: T)
      requires Valid() && consuming == Seen
      ensures released < |produced| && v == produced[released]
    {
      assert slots[readIdx] == Expected(released);
      v := slots[readIdx].value;
    }

    /** The slack slot keeps a full ring from looking like an empty one. */
    lemma NeverOverfull()
      requires Valid()
      ensures |produced| - released <= capacity - 1
    {}

    method Destroy()
      requires Valid() && consuming == Seen
      modifies this`consuming, slots
      ensures Valid() && consuming == Destroyed
    {
      forall k: nat | released < k < released + capacity ensures Slot(k, capacity) != Slot(released, capacity) {
        SlotDistinct(released, k, capacity);
      }
      slots[readIdx] := None;
      consuming := Destroyed;
    }

    method Release()
      requires Valid() && consuming == Destroyed
      modifies this`consuming, this`readIdx, this`released
      ensures Valid() && consuming == Looking && released == old(released) + 1
    {
      hide Slot;
      SlotNext(released, capacity);
      SlotWraps(released, capacity);
      assert slots[Slot(released + capacity, capacity)] == Expected(released) == None;
      readIdx := if readIdx + 1 == capacity then 0 else readIdx + 1;
      released := released + 1;
      consuming := Looking;
    }
  }

  datatype Step = ProducerStep | ConsumerStep

  /** What the producer enqueues: waiting until there is room, or trying once. */
  datatype Offer<T> = Emplace(v: T) | TryEmplace(v: T)

  /** The elements of the offers that have succeeded. */
  function Accepted<T>(offers: seq<Offer<T>>, oks: seq<bool>): seq<T>
    requires |oks| <= |offers|
    decreases |oks|
  {
    if oks == [] then [] else
      var n := |oks| - 1;
      Accepted(offers, oks[..n]) + if oks[n] then [offers[n].v] else []
  }

  /** `emplace` always succeeds. */
  ghost predicate Answers<T>(offers: seq<Offer<T>>, oks: seq<bool>) {
    |oks| <= |offers| && forall k :: 0 <= k < |oks| ==> offers[k].Emplace? ==> oks[k]
  }

  lemma OneMore<T>(offers: seq<Offer<T>>, oks: seq<bool>, ok: bool)
    requires |oks| < |offers|
    ensures Accepted(offers, oks + [ok]) == Accepted(offers, oks) + if ok then [offers[|oks|].v] else []
  {
    assert (oks + [ok])[..|oks|] == oks;
  }

  /** The queue has taken the offers that were answered, and may be working on the next one. */
  ghost predicate TakesOffers<T>(q: Queue<T>, offers: seq<Offer<T>>, oks: seq<bool>)
    reads q
  {
    && Answers(offers, oks) && q.produced == Accepted(offers, oks)
    && (q.producing.Ready? || (|oks| < |offers| && q.producing.v == offers[|oks|].v))
  }

  /**
   * Any interleaving of the two threads' steps: what the consumer gets is a
   * prefix, in order, of what has been enqueued successfully, and never more than
   * the capacity is in the ring.
   */
  method RunQueue<T>(requested: nat, offers: seq<Offer<T>>, schedule: seq<Step>)
    returns (consumed: seq<T>, oks: seq<bool>)
    ensures Answers(offers, oks) && consumed <= Accepted(offers, oks)
    ensures |Accepted(offers, oks)| <= |consumed| + if requested < 1 then 1 else requested
  {
    hide Queue.Valid, Accepted, Answers;
    var q := new Queue<T>(requested);
    consumed, oks := [], [];
    NoneAccepted(offers);
    for i := 0 to |schedule|
      invariant fresh(q) && fresh(q.slots) && q.Valid() && q.capacity == (if requested < 1 then 1 else requested) + 1
      invariant TakesOffers(q, offers, oks)
      invariant |consumed| == Taken(q) <= |q.produced| && consumed == q.produced[..|consumed|]
    {
      match schedule[i] {
        case ProducerStep =>
          oks := StepProducer(q, offers, oks);
        case ConsumerStep =>
          consumed := StepConsumer(q, consumed);
      }
    }
    q.NeverOverfull();
  }

  lemma NoneAccepted<T>(offers: seq<Offer<T>>)
    ensures Accepted(offers, []) == [] && Answers(offers, [])
  {}

  /** A step that refuses an offer does so because the ring is full. */
  method StepProducer<T>(q: Queue<T>, offers: seq<Offer<T>>, oks: seq<bool>) returns (oks': seq<bool>)
    requires q.Valid() && TakesOffers(q, offers, oks)
    modifies q, q.slots
    ensures q.Valid() && TakesOffers(q, offers, oks') && old(q.produced) <= q.produced && Taken(q) == old(Taken(q))
    ensures oks' == oks || oks' == oks + [true]
            || (oks' == oks + [false] && |q.produced| - q.released == q.capacity - 1)
  {
    hide Queue.Valid, Accepted;
    oks' := oks;
    match q.producing {
      case Ready =>
        if |oks| < |offers| {
          q.BeginEmplace(offers[|oks|].v);
        }
      case Waiting(_) =>
        if offers[|oks|].Emplace? {
          q.ReloadReadIdx();
        } else {
          var refused := q.ReloadOrGiveUp();
          if refused {
            OneMore(offers, oks, false);
            oks' := oks + [false];
          }
        }
      case Reserved(_) => q.Construct();
      case Stored(_) =>
        q.Publish();
        OneMore(offers, oks, true);
        oks' := oks + [true];
    }
  }

  /** How many elements the consumer has taken: those released, and one that is destroyed but not released. */
  ghost function Taken<T>(q: Queue<T>): nat
    reads q
  {
    q.released + if q.consuming == Destroyed then 1 else 0
  }

  method StepConsumer<T>(q: Queue<T>, consumed: seq<T>) returns (consumed': seq<T>)
    requires q.Valid() && |consumed| == Taken(q) <= |q.produced| && consumed == q.produced[..|consumed|]
    modifies q, q.slots
    ensures q.Valid() && q.produced == old(q.produced) && q.producing == old(q.producing)
    ensures |consumed'| == Taken(q) <= |q.produced| && consumed' == q.produced[..|consumed'|]
  {
    hide Queue.Valid;
    consumed' := consumed;
    match q.consuming {
      case Looking => q.BeginFront();
      case Reloading => q.ReloadWriteIdx();
      case Seen =>
        var v := q.Peek();
        q.Destroy();
        consumed' := consumed + [v];
      case Destroyed => q.Release();
    }
  }
}
