/**
 * A PIFO: a priority queue of entries whose top is an entry of least rank,
 * which also remembers when it was last popped.
 */
module Pifos {
  import opened PifoEntries
  import opened PifoHeap

  /**
   * `out` is what popping a PIFO holding `m` until it is empty returns, in
   * order: each entry is one of least rank among those still held.
   */
  ghost predicate IsDrainOf(out: seq<PifoEntry>, m: multiset<PifoEntry>)
    decreases |out|
  {
    if out == [] then m == multiset{}
    else IsMinOf(out[0], m) && IsDrainOf(out[1..], m - multiset{out[0]})
  }

  /** Popping a PIFO until it is empty returns every entry it held, each once. */
  lemma {:induction false} DrainKeepsEntries(out: seq<PifoEntry>, m: multiset<PifoEntry>)
    requires IsDrainOf(out, m)
    ensures multiset(out) == m
  {
    if out != [] {
      var head, tail := out[0], out[1..];
      DrainKeepsEntries(tail, m - multiset{head});
      assert out == [head] + tail;
      assert multiset(out) == multiset{head} + multiset(tail);
    }
  }

  /** Successive pops come out in non-decreasing rank. */
  lemma {:induction false} DrainIsSorted(out: seq<PifoEntry>, m: multiset<PifoEntry>)
    requires IsDrainOf(out, m)
    ensures forall a, b :: 0 <= a < b < |out| ==> out[a].rank <= out[b].rank
  {
    if out != [] {
      var head, tail := out[0], out[1..];
      var rest := m - multiset{head};
      DrainIsSorted(tail, rest);
      DrainKeepsEntries(tail, rest);
      forall a, b | 0 <= a < b < |out| ensures out[a].rank <= out[b].rank {
        assert out[b] == tail[b - 1];
        if a == 0 {
          assert out[b] in multiset(tail);
        } else {
          assert out[a] == tail[a - 1];
        }
      }
    }
  }

  class Pifo {
    /** The container underneath the priority queue, kept in heap order. */
    var heap: seq<PifoEntry>
    /** Time (ns) of the last successful `Dequeue`; 0 until the first one. */
    var lastPopTime: int64

    ghost predicate Valid()
      reads this
    {
      IsMinHeap(heap)
    }

    /** The entries held, without their order. */
    ghost function Contents(): multiset<PifoEntry>
      reads this
    {
      multiset(heap)
    }

    constructor ()
      ensures Valid() && Contents() == multiset{} && lastPopTime == 0
    {
      heap := [];
      lastPopTime := 0;
    }

    function Size(): (n: nat)
      reads this
      ensures n == |Contents()|
    {
      |heap|
    }

    function Empty(): (b: bool)
      reads this
      ensures b <==> Contents() == multiset{}
    {
      |heap| == 0
    }

    /** The entry the next `Dequeue` removes: one of least rank. */
    function Top(): (e: PifoEntry)
      reads this
      requires Valid() && |heap| > 0
      ensures IsMinOf(e, Contents())
    {
      HeapRootIsMin(heap);
      heap[0]
    }

    /** The time of the last dequeue, 0 if there was none. */
    function LastPopTime(): (t: int64)
      reads this
      ensures t == lastPopTime
    {
      lastPopTime
    }

    method Push(e: PifoEntry)
      requires Valid()
      modifies this
      ensures Valid()
      ensures Contents() == old(Contents()) + multiset{e}
      ensures lastPopTime == old(lastPopTime)
    {
      heap := PushHeap(heap, e);
    }

    /**
     * Pop the top entry and stamp the pop time with `now`, the simulator's
     * current time in nanoseconds.
     */
    method Dequeue(now: int64)
      requires Valid() && |heap| > 0
      modifies this
      ensures Valid()
      ensures Contents() == old(Contents()) - multiset{old(Top())}
      ensures |Contents()| == |old(Contents())| - 1
      ensures lastPopTime == now
      ensures |heap| > 0 ==> old(Top()).rank <= Top().rank
    {
      heap := PopHeap(heap);
      lastPopTime := now;
    }
  }

  /**
   * Dequeue `p` until it is empty, collecting the top before each dequeue:
   * the result is a drain of what `p` held, so it holds every entry once
   * and comes out in non-decreasing rank.  The pop time is that of the last
   * dequeue, and untouched when there was nothing to dequeue.
   */
  method Drain(p: Pifo, now: int64) returns (out: seq<PifoEntry>)
    requires p.Valid()
    modifies p
    ensures p.Valid() && p.Contents() == multiset{}
    ensures IsDrainOf(out, old(p.Contents()))
    ensures multiset(out) == old(p.Contents())
    ensures forall a, b :: 0 <= a < b < |out| ==> out[a].rank <= out[b].rank
    ensures p.lastPopTime == if old(p.Contents()) == multiset{} then old(p.lastPopTime) else now
    decreases |p.Contents()|
  {
    if p.Empty() {
      return [];
    }
    var t := p.Top();
    p.Dequeue(now);
    var rest := Drain(p, now);
    out := [t] + rest;
    assert out[1..] == rest;
    DrainKeepsEntries(out, old(p.Contents()));
    DrainIsSorted(out, old(p.Contents()));
  }
}
