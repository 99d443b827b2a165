/**
 * A PIFO scheduling tree: an arena of nodes, each owning PIFOs whose entries
 * are packets (in leaves) or references to a PIFO of a child (in inner
 * nodes).  The enqueue and dequeue pipelines of a node are not modelled;
 * their decisions are parameters.
 */
module PifoTrees {
  import opened PifoEntries
  import opened Pifos
  import opened PifoTreeNodes
  import opened PifoTreeSpec

  /** What a node's enqueue pipeline decided: drop, or insert into a PIFO with these fields. */
  datatype EnqDecision =
    | Drop
    | Place(pifoId: nat, rank: uint32, txTime: int64, txDelta: uint32)

  /** All PIFO objects of the arena. */
  function PifoSet(nodes: seq<PifoTreeNode>): set<Pifo> {
    set g, i | 0 <= g < |nodes| && 0 <= i < |nodes[g].pifos| :: nodes[g].pifos[i]
  }

  /** No PIFO object is shared between two places of the arena. */
  ghost predicate PifosDistinct(nodes: seq<PifoTreeNode>) {
    forall g, i, h, j ::
      && 0 <= g < |nodes| && 0 <= i < |nodes[g].pifos|
      && 0 <= h < |nodes| && 0 <= j < |nodes[h].pifos|
      && (g != h || i != j)
      ==> nodes[g].pifos[i] != nodes[h].pifos[j]
  }

  /** Every node's local IDs are consistent and its edges name nodes of the arena. */
  ghost predicate ArenaOk(nodes: seq<PifoTreeNode>) {
    forall g :: 0 <= g < |nodes| ==>
      && LocalIdsOk(nodes[g])
      && (forall k :: 0 <= k < |nodes[g].children| ==> nodes[g].children[k] < |nodes|)
      && (nodes[g].parent.Some? ==> nodes[g].parent.value < |nodes|)
  }

  /** The heap-independent part of a tree's invariant: `s` is the tree's state. */
  ghost predicate TreeOk(nodes: seq<PifoTreeNode>, s: Snapshot) {
    PifosDistinct(nodes) && ArenaOk(nodes) && WellAddressed(nodes, s)
  }

  /** Appending a fresh node without PIFOs, edges or parent keeps the invariant. */
  lemma TreeOkAppend(nodes: seq<PifoTreeNode>, s: Snapshot, n: PifoTreeNode)
    requires TreeOk(nodes, s)
    requires n.pifos == [] && n.children == [] && n.parent.None? && LocalIdsOk(n)
    ensures TreeOk(nodes + [n], s + [[]])
  {
    var ns := nodes + [n];
    assert forall g :: 0 <= g < |nodes| ==> ns[g] == nodes[g];
    WellAddressedGrow(nodes, s, ns, s + [[]]);
  }

  /** Giving a node without PIFOs a row of new, empty PIFOs keeps the invariant. */
  lemma TreeOkSetPifos(nodes: seq<PifoTreeNode>, s: Snapshot, g: nat, ps: seq<Pifo>)
    requires TreeOk(nodes, s) && g < |nodes| && nodes[g].pifos == []
    requires forall k, l :: 0 <= k < l < |ps| ==> ps[k] != ps[l]
    requires forall k, h, j :: 0 <= k < |ps| && 0 <= h < |nodes| && 0 <= j < |nodes[h].pifos| ==>
               ps[k] != nodes[h].pifos[j]
    ensures TreeOk(nodes[g := nodes[g].(pifos := ps)], s[g := seq(|ps|, i => PifoView(multiset{}, 0))])
  {
    var ns := nodes[g := nodes[g].(pifos := ps)];
    var s' := s[g := seq(|ps|, i => PifoView(multiset{}, 0))];
    forall a, i, b, j |
      && 0 <= a < |ns| && 0 <= i < |ns[a].pifos|
      && 0 <= b < |ns| && 0 <= j < |ns[b].pifos|
      && (a != b || i != j)
      ensures ns[a].pifos[i] != ns[b].pifos[j]
    {
      if a == g && b == g {
      } else if a == g {
        assert ns[b].pifos[j] == nodes[b].pifos[j];
      } else if b == g {
        assert ns[a].pifos[i] == nodes[a].pifos[i];
      } else {
        assert ns[a].pifos[i] == nodes[a].pifos[i] && ns[b].pifos[j] == nodes[b].pifos[j];
      }
    }
    WellAddressedGrow(nodes, s, ns, s');
  }

  /**
   * Changing a node's parent, adding edges to nodes of the arena or
   * installing its pipelines, with its PIFOs and its kind left alone, keeps the invariant.
   */
  lemma TreeOkEdit(nodes: seq<PifoTreeNode>, s: Snapshot, g: nat, n: PifoTreeNode)
    requires TreeOk(nodes, s) && g < |nodes|
    requires n.pifos == nodes[g].pifos && n.isLeaf == nodes[g].isLeaf && nodes[g].children <= n.children
    requires LocalIdsOk(n) && (forall k :: 0 <= k < |n.children| ==> n.children[k] < |nodes|)
    requires n.parent.Some? ==> n.parent.value < |nodes|
    ensures TreeOk(nodes[g := n], s)
  {
    var ns := nodes[g := n];
    assert forall h :: 0 <= h < |nodes| ==> ns[h].pifos == nodes[h].pifos;
    WellAddressedGrow(nodes, s, ns, s);
  }

  ghost function View(p: Pifo): PifoView
    reads p
  {
    PifoView(p.Contents(), p.lastPopTime)
  }

  class PifoTree {
    /** The nodes, indexed by global ID. */
    var nodes: seq<PifoTreeNode>

    ghost function Snapshot(): (s: Snapshot)
      reads this, PifoSet(nodes)
      ensures Shaped(nodes, s)
      ensures forall g, i :: 0 <= g < |nodes| && 0 <= i < |nodes[g].pifos| ==> s[g][i] == View(nodes[g].pifos[i])
    {
      seq(|nodes|, g requires 0 <= g < |nodes| reads this, PifoSet(nodes) =>
        seq(|nodes[g].pifos|, i requires 0 <= g < |nodes| && 0 <= i < |nodes[g].pifos| reads this, PifoSet(nodes) =>
          View(nodes[g].pifos[i])))
    }

    /** Every PIFO object keeps its heap invariant. */
    ghost predicate PifosValid()
      reads this, PifoSet(nodes)
    {
      forall g, i :: 0 <= g < |nodes| && 0 <= i < |nodes[g].pifos| ==> nodes[g].pifos[i].Valid()
    }

    ghost predicate Valid()
      reads this, PifoSet(nodes)
    {
      TreeOk(nodes, Snapshot()) && PifosValid()
    }

    constructor ()
      ensures Valid() && nodes == []
    {
      nodes := [];
    }

    /** Create a node; its global ID is its position in the arena. */
    method AddNode(isLeaf: bool) returns (gid: nat)
      requires Valid()
      modifies this
      ensures Valid()
      ensures gid == |old(nodes)| && nodes == old(nodes) + [NewNode(isLeaf)]
      ensures Snapshot() == old(Snapshot()) + [[]]
    {
      ghost var s0 := Snapshot();
      TreeOkAppend(nodes, s0, NewNode(isLeaf));
      gid := |nodes|;
      nodes := nodes + [NewNode(isLeaf)];
      forall h, j | 0 <= h < |nodes| && 0 <= j < |nodes[h].pifos|
        ensures nodes[h].pifos[j].Valid() && View(nodes[h].pifos[j]) == (s0 + [[]])[h][j]
      {
        assert nodes[h].pifos[j] == old(nodes[h].pifos[j]);
      }
      ValidIn(s0 + [[]]);
    }

    /** `n` new, distinct, empty PIFOs (none when `n` is not positive). */
    static method NewPifos(n: int) returns (ps: seq<Pifo>)
      ensures |ps| == if n > 0 then n else 0
      ensures forall k :: 0 <= k < |ps| ==>
                fresh(ps[k]) && ps[k].Valid() && ps[k].Contents() == multiset{} && ps[k].lastPopTime == 0
      ensures forall k, l :: 0 <= k < l < |ps| ==> ps[k] != ps[l]
    {
      ps := [];
      while |ps| < n
        invariant |ps| <= if n > 0 then n else 0
        invariant forall k :: 0 <= k < |ps| ==>
                    fresh(ps[k]) && ps[k].Valid() && ps[k].Contents() == multiset{} && ps[k].lastPopTime == 0
        invariant forall k, l :: 0 <= k < l < |ps| ==> ps[k] != ps[l]
        decreases n - |ps|
      {
        var p := new Pifo();
        ps := ps + [p];
      }
    }

    /** Give node g `numPifos` empty PIFOs; refused when it already has PIFOs. */
    method AddPifos(g: nat, numPifos: int) returns (ok: bool)
      requires Valid() && g < |nodes|
      modifies this
      ensures Valid()
      ensures ok == (old(nodes[g].pifos) == [])
      ensures !ok ==> nodes == old(nodes)
      ensures ok ==> |nodes| == |old(nodes)| && nodes == old(nodes)[g := old(nodes[g]).(pifos := nodes[g].pifos)]
      ensures ok ==> |nodes[g].pifos| == if numPifos > 0 then numPifos else 0
      ensures ok ==> forall i :: 0 <= i < |nodes[g].pifos| ==> fresh(nodes[g].pifos[i])
      ensures ok ==> Snapshot() == old(Snapshot())[g := seq(|nodes[g].pifos|, i => PifoView(multiset{}, 0))]
    {
      if nodes[g].pifos != [] {
        return false;
      }
      ghost var s0 := Snapshot();
      var ps := NewPifos(numPifos);
      TreeOkSetPifos(nodes, s0, g, ps);
      nodes := nodes[g := nodes[g].(pifos := ps)];
      ok := true;
      ghost var s1 := s0[g := seq(|ps|, i => PifoView(multiset{}, 0))];
      forall h, j | 0 <= h < |nodes| && 0 <= j < |nodes[h].pifos|
        ensures nodes[h].pifos[j].Valid() && View(nodes[h].pifos[j]) == s1[h][j]
      {
        if h != g {
          assert nodes[h].pifos[j] == old(nodes[h].pifos[j]);
        }
      }
      ValidIn(s1);
    }

    /** Replace node g by `n`, which keeps g's PIFOs and kind and only adds edges. */
    method SetNode(g: nat, n: PifoTreeNode)
      requires Valid() && g < |nodes|
      requires n.pifos == nodes[g].pifos && n.isLeaf == nodes[g].isLeaf && nodes[g].children <= n.children
      requires LocalIdsOk(n) && (forall k :: 0 <= k < |n.children| ==> n.children[k] < |nodes|)
      requires n.parent.Some? ==> n.parent.value < |nodes|
      modifies this
      ensures Valid() && nodes == old(nodes)[g := n] && Snapshot() == old(Snapshot())
    {
      ghost var s0 := Snapshot();
      TreeOkEdit(nodes, s0, g, n);
      nodes := nodes[g := n];
      forall h, j | 0 <= h < |nodes| && 0 <= j < |nodes[h].pifos|
        ensures nodes[h].pifos[j].Valid() && View(nodes[h].pifos[j]) == s0[h][j]
      {
        assert nodes[h].pifos[j] == old(nodes[h].pifos[j]);
      }
      ValidIn(s0);
    }

    /** Record node p as the parent of node g; refused when g already has a parent. */
    method AddParent(g: nat, p: nat) returns (ok: bool)
      requires Valid() && g < |nodes| && p < |nodes|
      modifies this
      ensures Valid()
      ensures ok == old(nodes[g].parent).None?
      ensures nodes == if ok then old(nodes)[g := old(nodes[g]).(parent := Some(p))] else old(nodes)
      ensures Snapshot() == old(Snapshot())
    {
      if nodes[g].parent.Some? {
        return false;
      }
      SetNode(g, nodes[g].(parent := Some(p)));
      ok := true;
    }

    /**
     * Append node c to the children of node g; its local ID is its position.
     * Refused for a node that is already a child, or when no 8-bit local ID is left.
     */
    method AddChild(g: nat, c: nat) returns (ok: bool)
      requires Valid() && g < |nodes| && c < |nodes|
      modifies this
      ensures Valid()
      ensures ok == (c !in old(nodes)[g].children && |old(nodes)[g].children| < MaxChildren)
      ensures nodes == if ok then old(nodes)[g := WithChild(old(nodes)[g], c)] else old(nodes)
      ensures Snapshot() == old(Snapshot())
    {
      var node := nodes[g];
      if c in node.global2Local || |node.children| >= MaxChildren {
        return false;
      }
      SetNode(g, WithChild(node, c));
      ok := true;
    }

    /**
     * Install the enqueue pipeline of node g; `built` says whether the
     * program description could be turned into a pipeline.
     */
    method AddEnqLogic(g: nat, built: bool) returns (ok: bool)
      requires Valid() && g < |nodes|
      modifies this
      ensures Valid() && ok == built
      ensures nodes == if ok then old(nodes)[g := old(nodes[g]).(hasEnqLogic := true)] else old(nodes)
      ensures Snapshot() == old(Snapshot())
    {
      if !built {
        return false;
      }
      SetNode(g, nodes[g].(hasEnqLogic := true));
      ok := true;
    }

    /** Install the dequeue pipeline of node g, as AddEnqLogic does for enqueue. */
    method AddDeqLogic(g: nat, built: bool) returns (ok: bool)
      requires Valid() && g < |nodes|
      modifies this
      ensures Valid() && ok == built
      ensures nodes == if ok then old(nodes)[g := old(nodes[g]).(hasDeqLogic := true)] else old(nodes)
      ensures Snapshot() == old(Snapshot())
    {
      if !built {
        return false;
      }
      SetNode(g, nodes[g].(hasDeqLogic := true));
      ok := true;
    }

    /** The tree is valid, in state `s`, when every PIFO is valid and shows the view `s` gives it. */
    lemma ValidIn(s: Snapshot)
      requires TreeOk(nodes, s)
      requires forall h, j :: 0 <= h < |nodes| && 0 <= j < |nodes[h].pifos| ==>
                 nodes[h].pifos[j].Valid() && View(nodes[h].pifos[j]) == s[h][j]
      ensures Valid() && Snapshot() == s
    {
      SnapshotExt(nodes, Snapshot(), s);
    }

    /**
     * The tree is valid again, in the state that differs from a valid state
     * `s0` of the same arena only by view `v` of PIFO (g, i), once every PIFO
     * is valid and shows the view that state gives it, and that state is well addressed.
     */
    lemma RestoreValid(g: nat, i: nat, s0: Snapshot, v: PifoView)
      requires TreeOk(nodes, s0) && g < |nodes| && i < |nodes[g].pifos|
      requires WellAddressed(nodes, s0[g := s0[g][i := v]])
      requires nodes[g].pifos[i].Valid() && View(nodes[g].pifos[i]) == v
      requires forall h, j :: 0 <= h < |nodes| && 0 <= j < |nodes[h].pifos| && (h != g || j != i) ==>
                 View(nodes[h].pifos[j]) == s0[h][j] && nodes[h].pifos[j].Valid()
      ensures Valid() && Snapshot() == s0[g := s0[g][i := v]]
    {
      SnapshotExt(nodes, Snapshot(), s0[g := s0[g][i := v]]);
    }

    /** Push `e` into PIFO i of node g; nothing else changes. */
    method PushInto(g: nat, i: nat, e: PifoEntry)
      requires Valid() && g < |nodes| && i < |nodes[g].pifos| && EntryOk(nodes, g, e)
      modifies PifoSet(nodes)
      ensures Valid() && nodes == old(nodes)
      ensures Snapshot() == PushAt(old(Snapshot()), g, i, e)
    {
      ghost var s0 := Snapshot();
      var p := nodes[g].pifos[i];
      p.Push(e);
      forall h, j | 0 <= h < |nodes| && 0 <= j < |nodes[h].pifos| && (h != g || j != i)
        ensures View(nodes[h].pifos[j]) == s0[h][j] && nodes[h].pifos[j].Valid()
      {
        assert nodes[h].pifos[j] != p;
      }
      PushAtWellAddressed(nodes, s0, g, i, e);
      RestoreValid(g, i, s0, PifoView(s0[g][i].contents + multiset{e}, s0[g][i].lastPopTime));
    }

    /**
     * Leaf enqueue: the pipeline's decision `d` drops the packet or names the
     * PIFO and the scheduling fields of its entry.  False when nothing was inserted.
     */
    method Enqueue(g: nat, item: ItemRef, pktLen: uint32, d: EnqDecision) returns (ok: bool)
      requires Valid() && g < |nodes| && nodes[g].isLeaf
      modifies PifoSet(nodes)
      ensures Valid() && nodes == old(nodes)
      ensures ok == (d.Place? && d.pifoId < |nodes[g].pifos|)
      ensures Snapshot() == if ok
                            then PushAt(old(Snapshot()), g, d.pifoId,
                                        PifoEntry(Item(item), d.rank, d.txTime, d.txDelta, pktLen))
                            else old(Snapshot())
    {
      if d.Drop? || d.pifoId >= |nodes[g].pifos| {
        return false;
      }
      PushInto(g, d.pifoId, PifoEntry(Item(item), d.rank, d.txTime, d.txDelta, pktLen));
      ok := true;
    }

    /**
     * Inner-node enqueue: announce PIFO `childPifoId` of the child whose
     * global ID is `childGid`.  The entry records the child's local ID.
     * False when the pipeline dropped it, when its PIFO does not exist,
     * or when the child or its PIFO is unknown.
     */
    method EnqueueChildRef(g: nat, childGid: nat, childPifoId: uint8, pktLen: uint32, d: EnqDecision)
      returns (ok: bool)
      requires Valid() && g < |nodes| && !nodes[g].isLeaf
      modifies PifoSet(nodes)
      ensures Valid() && nodes == old(nodes)
      ensures ok == (&& d.Place? && d.pifoId < |nodes[g].pifos|
                     && childGid in nodes[g].children && childGid < |nodes|
                     && childPifoId < |nodes[childGid].pifos|)
      ensures Snapshot() == if ok
                            then PushAt(old(Snapshot()), g, d.pifoId,
                                        PifoEntry(ChildRef(GetLocalNodeID(nodes[g], childGid).value, childPifoId),
                                                  d.rank, d.txTime, d.txDelta, pktLen))
                            else old(Snapshot())
    {
      if d.Drop? || d.pifoId >= |nodes[g].pifos| {
        return false;
      }
      var local := GetLocalNodeID(nodes[g], childGid);
      if local.None? || childPifoId >= |nodes[childGid].pifos| {
        return false;
      }
      PushInto(g, d.pifoId, PifoEntry(ChildRef(local.value, childPifoId), d.rank, d.txTime, d.txDelta, pktLen));
      ok := true;
    }

    /** Whether every PIFO of node g is empty. */
    method AllPifosEmpty(g: nat) returns (b: bool)
      requires Valid() && g < |nodes|
      ensures b <==> AllEmpty(Snapshot(), g)
    {
      var i := 0;
      while i < |nodes[g].pifos|
        invariant 0 <= i <= |nodes[g].pifos|
        invariant forall k :: 0 <= k < i ==> Snapshot()[g][k].contents == multiset{}
      {
        if !nodes[g].pifos[i].Empty() {
          return false;
        }
        i := i + 1;
      }
      return true;
    }

    /** Pop the top entry `e` of the non-empty PIFO i of node g at time `now`; nothing else changes. */
    method PopFrom(g: nat, i: nat, now: int64) returns (e: PifoEntry)
      requires Valid() && g < |nodes| && i < |nodes[g].pifos|
      requires !nodes[g].pifos[i].Empty()
      modifies PifoSet(nodes)
      ensures Valid() && nodes == old(nodes)
      ensures IsMinOf(e, old(Snapshot())[g][i].contents) && EntryOk(nodes, g, e)
      ensures Snapshot() == PopAt(old(Snapshot()), g, i, e, now)
    {
      ghost var s0 := Snapshot();
      var p := nodes[g].pifos[i];
      e := p.Top();
      p.Dequeue(now);
      forall h, j | 0 <= h < |nodes| && 0 <= j < |nodes[h].pifos| && (h != g || j != i)
        ensures View(nodes[h].pifos[j]) == s0[h][j] && nodes[h].pifos[j].Valid()
      {
        assert nodes[h].pifos[j] != p;
      }
      PopAtWellAddressed(nodes, s0, g, i, e, now);
      RestoreValid(g, i, s0, PifoView(s0[g][i].contents - multiset{e}, now));
    }

    /**
     * Pop the top of PIFO `pifoId` of node g; when it refers to a child's
     * PIFO, dequeue that PIFO in turn, until a packet entry is popped.
     * At time `now`, every PIFO popped records `now` as its last pop time.
     */
    method DequeuePifo(g: nat, pifoId: uint8, now: int64) returns (r: DeqOutcome, ghost hops: seq<Hop>)
      requires Valid() && g < |nodes| && pifoId < |nodes[g].pifos|
      modifies PifoSet(nodes)
      ensures Valid() && nodes == old(nodes)
      ensures DequeuePifoSpec(nodes, old(Snapshot()), Snapshot(), g, pifoId, now, r, hops)
      decreases Load(Snapshot(), AllNodes(Snapshot()))
    {
      ghost var s0 := Snapshot();
      if nodes[g].pifos[pifoId].Empty() {
        EmptyChain(nodes, s0, g, pifoId, now);
        return NoItem, [];
      }
      var e := PopFrom(g, pifoId, now);
      match e.ref {
        case Item(x) =>
          ItemChain(nodes, s0, g, pifoId, e, now);
          r, hops := Dequeued(x), [Hop(g, pifoId, e)];
        case ChildRef(nid, pid) =>
          PopAtLoad(s0, g, pifoId, e, now, AllNodes(s0));
          assert AllNodes(Snapshot()) == AllNodes(s0);
          ghost var rest;
          r, rest := DequeuePifo(nodes[g].children[nid], pid, now);
          ChildChain(nodes, s0, Snapshot(), g, pifoId, e, now, r, rest);
          hops := [Hop(g, pifoId, e)] + rest;
      }
    }

    /**
     * Dequeue from node g, the dequeue pipeline having chosen PIFO `choice`:
     * nothing when all of g's PIFOs are empty, BadPifo when the choice names
     * no PIFO, otherwise DequeuePifo of the chosen PIFO.
     */
    method Dequeue(g: nat, choice: uint8, now: int64) returns (r: DeqOutcome, ghost hops: seq<Hop>)
      requires Valid() && g < |nodes|
      modifies PifoSet(nodes)
      ensures Valid() && nodes == old(nodes)
      ensures DequeueNodeSpec(nodes, old(Snapshot()), Snapshot(), g, choice, now, r, hops)
    {
      var empty := AllPifosEmpty(g);
      if empty {
        return NoItem, [];
      }
      if choice >= |nodes[g].pifos| {
        return BadPifo, [];
      }
      r, hops := DequeuePifo(g, choice, now);
    }

    /**
     * Dequeue PIFO `pifoId` of node g when it names one of g's PIFOs, and
     * otherwise fall back to Dequeue with the pipeline's choice.
     */
    method DequeueAt(g: nat, pifoId: uint8, choice: uint8, now: int64) returns (r: DeqOutcome, ghost hops: seq<Hop>)
      requires Valid() && g < |nodes|
      modifies PifoSet(nodes)
      ensures Valid() && nodes == old(nodes)
      ensures pifoId < |nodes[g].pifos| ==>
                DequeuePifoSpec(nodes, old(Snapshot()), Snapshot(), g, pifoId, now, r, hops)
      ensures pifoId >= |nodes[g].pifos| ==>
                DequeueNodeSpec(nodes, old(Snapshot()), Snapshot(), g, choice, now, r, hops)
    {
      if pifoId < |nodes[g].pifos| {
        r, hops := DequeuePifo(g, pifoId, now);
      } else {
        r, hops := Dequeue(g, choice, now);
      }
    }
  }
}
