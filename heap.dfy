/**
 * The binary heap underneath a PIFO: the sequence plays the role of the
 * `std::vector` a `std::priority_queue` keeps, and PushHeap / PopHeap the
 * role of the push and pop it performs on it (append then sift up; move the
 * last element to the root then sift down), ordered by PifoEntryComp.
 */
module PifoHeap {
  import opened PifoEntries

  function Parent(i: nat): nat
    requires i > 0
  {
    (i - 1) / 2
  }

  /** Every element's rank is at least its parent's. */
  ghost predicate IsMinHeap(h: seq<PifoEntry>) {
    forall i :: 0 < i < |h| ==> h[Parent(i)].rank <= h[i].rank
  }

  /** The root of a heap has least rank: the ancestors chain down to index i. */
  lemma {:induction false} HeapRootBelow(h: seq<PifoEntry>, i: nat)
    requires IsMinHeap(h) && i < |h|
    ensures h[0].rank <= h[i].rank
    decreases i
  {
    if i > 0 {
      HeapRootBelow(h, Parent(i));
    }
  }

  /** The root of a non-empty heap is an entry of least rank of its contents. */
  lemma HeapRootIsMin(h: seq<PifoEntry>)
    requires IsMinHeap(h) && |h| > 0
    ensures IsMinOf(h[0], multiset(h))
  {
    forall x | x in multiset(h) ensures h[0].rank <= x.rank {
      var i :| 0 <= i < |h| && h[i] == x;
      HeapRootBelow(h, i);
    }
  }

  /** The heap order holds everywhere except between `k` and its parent. */
  ghost predicate HeapExceptAbove(r: seq<PifoEntry>, k: nat) {
    forall i :: 0 < i < |r| && i != k ==> r[Parent(i)].rank <= r[i].rank
  }

  /** The heap order holds everywhere except between `k` and its children. */
  ghost predicate HeapExceptBelow(r: seq<PifoEntry>, k: nat) {
    forall i :: 0 < i < |r| && Parent(i) != k ==> r[Parent(i)].rank <= r[i].rank
  }

  /** The parent of `k` may stand above the children of `k`. */
  ghost predicate ParentBoundsChildren(r: seq<PifoEntry>, k: nat) {
    k > 0 ==> forall i :: 0 < i < |r| && Parent(i) == k ==> r[Parent(k)].rank <= r[i].rank
  }

  function Swap(r: seq<PifoEntry>, a: nat, b: nat): (r': seq<PifoEntry>)
    requires a < |r| && b < |r|
    ensures |r'| == |r| && r'[a] == r[b] && r'[b] == r[a]
    ensures forall i :: 0 <= i < |r| && i != a && i != b ==> r'[i] == r[i]
    ensures multiset(r') == multiset(r)
  {
    r[a := r[b]][b := r[a]]
  }

  /** One step of sifting up keeps the sift-up invariant, one level higher. */
  lemma SiftUpStep(r: seq<PifoEntry>, k: nat)
    requires 0 < k < |r|
    requires HeapExceptAbove(r, k) && ParentBoundsChildren(r, k)
    requires PifoEntryComp(r[Parent(k)], r[k])
    ensures HeapExceptAbove(Swap(r, Parent(k), k), Parent(k))
    ensures ParentBoundsChildren(Swap(r, Parent(k), k), Parent(k))
  {
    var p := Parent(k);
    var r' := Swap(r, p, k);
    forall i | 0 < i < |r'| && i != p
      ensures r'[Parent(i)].rank <= r'[i].rank
    {
      if i == k {
      } else if Parent(i) == p {
        assert r[p].rank <= r[i].rank;
      } else if Parent(i) == k {
        assert r[p].rank <= r[i].rank;
      } else {
        assert r[Parent(i)].rank <= r[i].rank;
      }
    }
    if p > 0 {
      forall i | 0 < i < |r'| && Parent(i) == p
        ensures r'[Parent(p)].rank <= r'[i].rank
      {
        assert r[Parent(p)].rank <= r[p].rank;
        if i != k {
          assert r[p].rank <= r[i].rank;
        }
      }
    }
  }

  /** One step of sifting down keeps the sift-down invariant, one level lower. */
  lemma SiftDownStep(r: seq<PifoEntry>, k: nat, c: nat)
    requires 0 < c < |r| && Parent(c) == k
    requires HeapExceptBelow(r, k) && ParentBoundsChildren(r, k)
    requires forall i :: 0 < i < |r| && Parent(i) == k ==> r[c].rank <= r[i].rank
    requires PifoEntryComp(r[k], r[c])
    ensures HeapExceptBelow(Swap(r, k, c), c)
    ensures ParentBoundsChildren(Swap(r, k, c), c)
  {
    var r' := Swap(r, k, c);
    forall i | 0 < i < |r'| && Parent(i) != c
      ensures r'[Parent(i)].rank <= r'[i].rank
    {
      if i == c {
      } else if Parent(i) == k {
        assert r[c].rank <= r[i].rank;
      } else if i == k {
        assert r[Parent(k)].rank <= r[c].rank;
      } else {
        assert r[Parent(i)].rank <= r[i].rank;
      }
    }
    forall i | 0 < i < |r'| && Parent(i) == c
      ensures r'[Parent(c)].rank <= r'[i].rank
    {
      assert r[c].rank <= r[i].rank;
    }
  }

  /** Append `e` and sift it up while its parent does not come strictly first. */
  method PushHeap(h: seq<PifoEntry>, e: PifoEntry) returns (r: seq<PifoEntry>)
    requires IsMinHeap(h)
    ensures IsMinHeap(r)
    ensures multiset(r) == multiset(h) + multiset{e}
    ensures |r| == |h| + 1
  {
    r := h + [e];
    var k := |h|;
    while k > 0 && PifoEntryComp(r[Parent(k)], r[k])
      invariant 0 <= k < |r| == |h| + 1
      invariant multiset(r) == multiset(h) + multiset{e}
      invariant HeapExceptAbove(r, k) && ParentBoundsChildren(r, k)
      decreases k
    {
      SiftUpStep(r, k);
      r := Swap(r, Parent(k), k);
      k := Parent(k);
    }
  }

  /** The children of `k` are at 2k+1 and 2k+2; `c` is the one of least rank. */
  lemma LeastChild(r: seq<PifoEntry>, k: nat, c: nat)
    requires c == 2 * k + 1 || c == 2 * k + 2
    requires c < |r|
    requires c == 2 * k + 1 && c + 1 < |r| ==> r[c].rank <= r[c + 1].rank
    requires c == 2 * k + 2 ==> r[c].rank <= r[c - 1].rank
    ensures forall i :: 0 < i < |r| && Parent(i) == k ==> r[c].rank <= r[i].rank
  {
    forall i | 0 < i < |r| && Parent(i) == k
      ensures i == 2 * k + 1 || i == 2 * k + 2
    {
    }
  }

  /** Sifting down may stop once `k` comes strictly before its least child. */
  lemma SiftDownDone(r: seq<PifoEntry>, k: nat)
    requires k < |r| && HeapExceptBelow(r, k)
    requires forall i :: 0 < i < |r| && Parent(i) == k ==> r[k].rank <= r[i].rank
    ensures IsMinHeap(r)
  {
  }

  /** A position without children that is out of order only below itself is no longer out of order. */
  lemma SiftDownLeaf(r: seq<PifoEntry>, k: nat)
    requires k < |r| <= 2 * k + 1 && HeapExceptBelow(r, k)
    ensures IsMinHeap(r)
  {
    forall i | 0 < i < |r| ensures Parent(i) != k {
    }
    SiftDownDone(r, k);
  }

  /**
   * With `c` the child of `k` of least rank (the left one on ties): either
   * `k` already stands above it and the heap is whole, or swapping `k` and
   * `c` moves the disorder down to `c`.
   */
  lemma SiftDownAt(r: seq<PifoEntry>, k: nat, c: nat)
    requires c == 2 * k + 1 || c == 2 * k + 2
    requires c < |r|
    requires c == 2 * k + 1 && c + 1 < |r| ==> r[c].rank <= r[c + 1].rank
    requires c == 2 * k + 2 ==> r[c].rank <= r[c - 1].rank
    requires HeapExceptBelow(r, k) && ParentBoundsChildren(r, k)
    ensures PifoEntryComp(r[k], r[c]) ==> HeapExceptBelow(Swap(r, k, c), c) && ParentBoundsChildren(Swap(r, k, c), c)
    ensures !PifoEntryComp(r[k], r[c]) ==> IsMinHeap(r)
  {
    LeastChild(r, k, c);
    if PifoEntryComp(r[k], r[c]) {
      SiftDownStep(r, k, c);
    } else {
      SiftDownDone(r, k);
    }
  }

  /** Moving the last element to the root breaks the order only below the root. */
  lemma PopHeapStart(h: seq<PifoEntry>)
    requires IsMinHeap(h) && |h| > 1
    ensures HeapExceptBelow([h[|h| - 1]] + h[1..|h| - 1], 0)
    ensures multiset([h[|h| - 1]] + h[1..|h| - 1]) == multiset(h) - multiset{h[0]}
  {
    var n := |h| - 1;
    var r := [h[n]] + h[1..n];
    assert h == [h[0]] + h[1..n] + [h[n]];
    forall i | 0 < i < n && Parent(i) != 0
      ensures r[Parent(i)].rank <= r[i].rank
    {
      assert r[i] == h[i] && r[Parent(i)] == h[Parent(i)];
    }
  }

  /** Sift the root of `s` down until the whole sequence is a heap again. */
  method SiftDown(s: seq<PifoEntry>) returns (r: seq<PifoEntry>)
    requires |s| > 0 && HeapExceptBelow(s, 0)
    ensures IsMinHeap(r) && multiset(r) == multiset(s) && |r| == |s|
  {
    r := s;
    var n, k := |s|, 0;
    var done := false;
    while !done
      invariant 0 <= k < |r| == n
      invariant multiset(r) == multiset(s)
      invariant HeapExceptBelow(r, k) && ParentBoundsChildren(r, k)
      invariant done ==> IsMinHeap(r)
      decreases n - k, !done
    {
      var c := 2 * k + 1;
      if c >= n {
        SiftDownLeaf(r, k);
        done := true;
      } else {
        if c + 1 < n && !PifoEntryComp(r[c + 1], r[c]) {
          c := c + 1;
        }
        SiftDownAt(r, k, c);
        if !PifoEntryComp(r[k], r[c]) {
          done := true;
        } else {
          r := Swap(r, k, c);
          k := c;
        }
      }
    }
  }

  /** Remove the root: move the last element there and sift it down. */
  method PopHeap(h: seq<PifoEntry>) returns (r: seq<PifoEntry>)
    requires IsMinHeap(h) && |h| > 0
    ensures IsMinHeap(r)
    ensures multiset(r) == multiset(h) - multiset{h[0]}
    ensures |r| == |h| - 1
  {
    var n := |h| - 1;
    if n == 0 {
      return [];
    }
    PopHeapStart(h);
    r := SiftDown([h[n]] + h[1..n]);
  }
}
