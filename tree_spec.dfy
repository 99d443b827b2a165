/**
 * The abstract state of a PIFO tree, and what a dequeue does to it.
 *
 * A Snapshot gives, per node and per PIFO, the entries held (as a multiset:
 * the order between entries of equal rank is deliberately not part of the
 * model) and the time of the PIFO's last pop.  A dequeue pops a chain of
 * entries: an entry of least rank from the chosen PIFO and then, while the
 * popped entry refers to a child's PIFO, an entry of least rank from that one.
 */
module PifoTreeSpec {
  import opened PifoEntries
  import opened PifoTreeNodes

  datatype PifoView = PifoView(contents: multiset<PifoEntry>, lastPopTime: int64)

  type Snapshot = seq<seq<PifoView>>

  /** Result of a dequeue: a packet, nothing, or a pipeline choice naming no PIFO. */
  datatype DeqOutcome = Dequeued(item: ItemRef) | NoItem | BadPifo

  /** One step of a dequeue: `entry` was popped from PIFO `pifo` of node `node`. */
  datatype Hop = Hop(node: nat, pifo: nat, entry: PifoEntry)

  /** The snapshot has one view per PIFO of every node of the arena. */
  ghost predicate Shaped(nodes: seq<PifoTreeNode>, s: Snapshot) {
    |s| == |nodes| && forall g :: 0 <= g < |s| ==> |s[g]| == |nodes[g].pifos|
  }

  /**
   * Entry `e` may sit in a PIFO of node `g`: a packet only in a leaf, a child
   * reference only in an inner node and only naming an existing child and an
   * existing PIFO of that child.
   */
  ghost predicate EntryOk(nodes: seq<PifoTreeNode>, g: nat, e: PifoEntry)
    requires g < |nodes|
  {
    match e.ref
    case Item(_) => nodes[g].isLeaf
    case ChildRef(nid, pid) =>
      && !nodes[g].isLeaf
      && nid < |nodes[g].children|
      && nodes[g].children[nid] < |nodes|
      && pid < |nodes[nodes[g].children[nid]].pifos|
  }

  ghost predicate WellAddressed(nodes: seq<PifoTreeNode>, s: Snapshot) {
    && Shaped(nodes, s)
    && forall g, i, e :: 0 <= g < |s| && 0 <= i < |s[g]| && e in s[g][i].contents ==> EntryOk(nodes, g, e)
  }

  /** Remove `e` from PIFO (g, i) and stamp that PIFO's pop time. */
  function PopAt(s: Snapshot, g: nat, i: nat, e: PifoEntry, now: int64): Snapshot
    requires g < |s| && i < |s[g]|
  {
    s[g := s[g][i := PifoView(s[g][i].contents - multiset{e}, now)]]
  }

  /** Add `e` to PIFO (g, i); its pop time is left alone. */
  function PushAt(s: Snapshot, g: nat, i: nat, e: PifoEntry): Snapshot
    requires g < |s| && i < |s[g]|
  {
    s[g := s[g][i := s[g][i].(contents := s[g][i].contents + multiset{e})]]
  }

  /** The state after popping every hop of a chain, in order. */
  ghost function ApplyHops(s: Snapshot, hops: seq<Hop>, now: int64): Snapshot
    decreases |hops|
  {
    if hops == [] then s
    else if hops[0].node < |s| && hops[0].pifo < |s[hops[0].node]| then
      ApplyHops(PopAt(s, hops[0].node, hops[0].pifo, hops[0].entry, now), hops[1..], now)
    else ApplyHops(s, hops[1..], now)
  }

  /**
   * `hops` is what dequeuing PIFO (g, i) of state `s` pops: nothing if that
   * PIFO is empty, otherwise an entry of least rank, followed, when that entry
   * refers to a child PIFO, by the chain dequeued from that child PIFO.
   */
  ghost predicate IsChain(nodes: seq<PifoTreeNode>, s: Snapshot, g: nat, i: nat, hops: seq<Hop>, now: int64)
    decreases |hops|
  {
    && g < |s| && i < |s[g]| && g < |nodes|
    && if s[g][i].contents == multiset{} then hops == []
       else
         && |hops| > 0
         && hops[0] == Hop(g, i, hops[0].entry)
         && IsMinOf(hops[0].entry, s[g][i].contents)
         && match hops[0].entry.ref
            case Item(_) => |hops| == 1
            case ChildRef(nid, pid) =>
              && nid < |nodes[g].children|
              && IsChain(nodes, PopAt(s, g, i, hops[0].entry, now), nodes[g].children[nid], pid, hops[1..], now)
  }

  /** What a chain delivers: the packet of its final entry, if it is one. */
  function ChainOutcome(hops: seq<Hop>): DeqOutcome {
    if hops == [] then NoItem
    else match hops[|hops| - 1].entry.ref
      case Item(x) => Dequeued(x)
      case ChildRef(_, _) => NoItem
  }

  function PifosLoad(ps: seq<PifoView>): nat {
    if ps == [] then 0 else PifosLoad(ps[..|ps| - 1]) + |ps[|ps| - 1].contents|
  }

  /** A set of node IDs, as a mask over the arena: g is counted when counted[g]. */
  type NodeMask = seq<bool>

  predicate Counts(counted: NodeMask, g: nat) {
    g < |counted| && counted[g]
  }

  /** Number of entries held by the nodes that `counted` counts. */
  function Load(s: Snapshot, counted: NodeMask): nat {
    if s == [] then 0
    else Load(s[..|s| - 1], counted) + (if Counts(counted, |s| - 1) then PifosLoad(s[|s| - 1]) else 0)
  }

  function AllNodes(s: Snapshot): (m: NodeMask)
    ensures forall g :: 0 <= g < |s| ==> Counts(m, g)
  {
    seq(|s|, g => true)
  }

  function Leaves(nodes: seq<PifoTreeNode>): (m: NodeMask)
    ensures forall g :: 0 <= g < |nodes| ==> (Counts(m, g) <==> nodes[g].isLeaf)
  {
    seq(|nodes|, g requires 0 <= g < |nodes| => nodes[g].isLeaf)
  }

  /** Number of hops of the chain taken in nodes that `counted` counts. */
  function HopsIn(hops: seq<Hop>, counted: NodeMask): nat {
    if hops == [] then 0 else (if Counts(counted, hops[0].node) then 1 else 0) + HopsIn(hops[1..], counted)
  }

  // ---------------------------------------------------------------- loads

  lemma {:induction false} PifosLoadUpdate(ps: seq<PifoView>, i: nat, v: PifoView)
    requires i < |ps|
    ensures PifosLoad(ps[i := v]) == PifosLoad(ps) - |ps[i].contents| + |v.contents|
    ensures PifosLoad(ps) >= |ps[i].contents|
    decreases |ps|
  {
    var n := |ps| - 1;
    var ps' := ps[i := v];
    if i == n {
      assert ps'[..n] == ps[..n];
    } else {
      assert ps'[..n] == ps[..n][i := v];
      PifosLoadUpdate(ps[..n], i, v);
    }
  }

  lemma {:induction false} LoadUpdate(s: Snapshot, g: nat, ps: seq<PifoView>, counted: NodeMask)
    requires g < |s|
    ensures Counts(counted, g) ==> Load(s[g := ps], counted) == Load(s, counted) - PifosLoad(s[g]) + PifosLoad(ps)
    ensures Counts(counted, g) ==> Load(s, counted) >= PifosLoad(s[g])
    ensures !Counts(counted, g) ==> Load(s[g := ps], counted) == Load(s, counted)
    decreases |s|
  {
    var n := |s| - 1;
    var s' := s[g := ps];
    if g == n {
      assert s'[..n] == s[..n];
    } else {
      assert s'[..n] == s[..n][g := ps];
      LoadUpdate(s[..n], g, ps, counted);
    }
  }

  /** Popping an entry that is present lowers the load of its node by one. */
  lemma PopAtLoad(s: Snapshot, g: nat, i: nat, e: PifoEntry, now: int64, counted: NodeMask)
    requires g < |s| && i < |s[g]| && e in s[g][i].contents
    ensures Load(PopAt(s, g, i, e, now), counted) == Load(s, counted) - (if Counts(counted, g) then 1 else 0)
  {
    var v := PifoView(s[g][i].contents - multiset{e}, now);
    PifosLoadUpdate(s[g], i, v);
    LoadUpdate(s, g, s[g][i := v], counted);
  }

  // ---------------------------------------------------- addressing invariant

  lemma PopAtWellAddressed(nodes: seq<PifoTreeNode>, s: Snapshot, g: nat, i: nat, e: PifoEntry, now: int64)
    requires WellAddressed(nodes, s) && g < |s| && i < |s[g]|
    ensures WellAddressed(nodes, PopAt(s, g, i, e, now))
  {
    var s': Snapshot := PopAt(s, g, i, e, now);
    forall h, j, x | 0 <= h < |s'| && 0 <= j < |s'[h]| && x in s'[h][j].contents
      ensures EntryOk(nodes, h, x)
    {
      assert x in s[h][j].contents;
    }
  }

  lemma PushAtWellAddressed(nodes: seq<PifoTreeNode>, s: Snapshot, g: nat, i: nat, e: PifoEntry)
    requires WellAddressed(nodes, s) && g < |s| && i < |s[g]| && EntryOk(nodes, g, e)
    ensures WellAddressed(nodes, PushAt(s, g, i, e))
  {
    var s': Snapshot := PushAt(s, g, i, e);
    forall h, j, x | 0 <= h < |s'| && 0 <= j < |s'[h]| && x in s'[h][j].contents
      ensures EntryOk(nodes, h, x)
    {
      if (h, j) != (g, i) || x != e {
        assert x in s[h][j].contents;
      }
    }
  }

  // ------------------------------------------------------ chain properties

  /**
   * Every hop of a dequeue chain removes one entry: the tree holds exactly
   * as many fewer entries, in every set of nodes, as the chain has hops there.
   */
  lemma {:induction false} ChainLoad(nodes: seq<PifoTreeNode>, s: Snapshot, g: nat, i: nat,
                                     hops: seq<Hop>, now: int64, counted: NodeMask)
    requires IsChain(nodes, s, g, i, hops, now)
    ensures Load(ApplyHops(s, hops, now), counted) == Load(s, counted) - HopsIn(hops, counted)
    decreases |hops|
  {
    if hops != [] {
      var e := hops[0].entry;
      var s1 := PopAt(s, g, i, e, now);
      PopAtLoad(s, g, i, e, now, counted);
      match e.ref
      case Item(_) =>
        assert hops[1..] == [];
      case ChildRef(nid, pid) =>
        ChainLoad(nodes, s1, nodes[g].children[nid], pid, hops[1..], now, counted);
    }
  }

  /**
   * In a well-addressed tree every hop but the last pops a child reference
   * from an inner node, and the last one pops either a packet from a leaf
   * (the chain then delivers that packet) or a child reference whose child
   * PIFO is empty (the chain then delivers nothing).
   */
  lemma {:induction false} ChainShape(nodes: seq<PifoTreeNode>, s: Snapshot, g: nat, i: nat,
                                      hops: seq<Hop>, now: int64)
    requires WellAddressed(nodes, s) && IsChain(nodes, s, g, i, hops, now)
    ensures forall k :: 0 <= k < |hops| ==> hops[k].node < |nodes|
    ensures forall k :: 0 <= k < |hops| - 1 ==> hops[k].entry.ref.ChildRef? && !nodes[hops[k].node].isLeaf
    ensures hops != [] ==> (hops[|hops| - 1].entry.ref.Item? <==> nodes[hops[|hops| - 1].node].isLeaf)
    ensures ChainOutcome(hops).Dequeued? <==> hops != [] && hops[|hops| - 1].entry.ref.Item?
    decreases |hops|
  {
    if hops != [] {
      var e := hops[0].entry;
      assert EntryOk(nodes, g, e);
      match e.ref
      case Item(_) =>
      case ChildRef(nid, pid) =>
        var s1 := PopAt(s, g, i, e, now);
        PopAtWellAddressed(nodes, s, g, i, e, now);
        ChainShape(nodes, s1, nodes[g].children[nid], pid, hops[1..], now);
        if |hops| > 1 {
          assert hops[|hops| - 1] == hops[1..][|hops[1..]| - 1];
        }
    }
  }

  /**
   * A dequeue takes exactly one packet out of the leaves when it delivers one,
   * and none otherwise: announcements are removed only from inner nodes.
   */
  lemma {:induction false} ChainRemovesAtMostOnePacket(nodes: seq<PifoTreeNode>, s: Snapshot, g: nat, i: nat,
                                                        hops: seq<Hop>, now: int64)
    requires WellAddressed(nodes, s) && IsChain(nodes, s, g, i, hops, now)
    ensures Load(ApplyHops(s, hops, now), Leaves(nodes))
         == Load(s, Leaves(nodes)) - (if ChainOutcome(hops).Dequeued? then 1 else 0)
    ensures Load(ApplyHops(s, hops, now), AllNodes(s)) == Load(s, AllNodes(s)) - |hops|
  {
    ChainLoad(nodes, s, g, i, hops, now, Leaves(nodes));
    ChainLoad(nodes, s, g, i, hops, now, AllNodes(s));
    ChainShape(nodes, s, g, i, hops, now);
    HopsInLeaves(nodes, hops);
    HopsInAll(s, hops);
  }

  lemma {:induction false} HopsInLeaves(nodes: seq<PifoTreeNode>, hops: seq<Hop>)
    requires forall k :: 0 <= k < |hops| ==> hops[k].node < |nodes|
    requires forall k :: 0 <= k < |hops| - 1 ==> !nodes[hops[k].node].isLeaf
    ensures HopsIn(hops, Leaves(nodes)) == if hops != [] && nodes[hops[|hops| - 1].node].isLeaf then 1 else 0
    decreases |hops|
  {
    if hops != [] {
      HopsInLeaves(nodes, hops[1..]);
    }
  }

  lemma {:induction false} HopsInAll(s: Snapshot, hops: seq<Hop>)
    requires forall k :: 0 <= k < |hops| ==> hops[k].node < |s|
    ensures HopsIn(hops, AllNodes(s)) == |hops|
    decreases |hops|
  {
    if hops != [] {
      HopsInAll(s, hops[1..]);
    }
  }

  /** Every entry a chain pops was held, in the state it started from, by the PIFO it was popped from. */
  lemma {:induction false} ChainPopsResidentEntries(nodes: seq<PifoTreeNode>, s: Snapshot, g: nat, i: nat,
                                                    hops: seq<Hop>, now: int64)
    requires IsChain(nodes, s, g, i, hops, now)
    ensures forall k :: 0 <= k < |hops| ==>
              hops[k].node < |s| && hops[k].pifo < |s[hops[k].node]| &&
              hops[k].entry in s[hops[k].node][hops[k].pifo].contents
    decreases |hops|
  {
    if hops != [] {
      var e := hops[0].entry;
      match e.ref
      case Item(_) =>
      case ChildRef(nid, pid) =>
        var s1 := PopAt(s, g, i, e, now);
        ChainPopsResidentEntries(nodes, s1, nodes[g].children[nid], pid, hops[1..], now);
        forall k | 1 <= k < |hops|
          ensures hops[k].node < |s| && hops[k].pifo < |s[hops[k].node]|
          ensures hops[k].entry in s[hops[k].node][hops[k].pifo].contents
        {
          assert hops[k] == hops[1..][k - 1];
        }
    }
  }

  /**
   * A dequeue that delivers packet x took it from a leaf: the chain's last
   * hop popped the packet entry of x from a leaf PIFO that held it.
   */
  lemma ChainDeliversLeafPacket(nodes: seq<PifoTreeNode>, s: Snapshot, g: nat, i: nat,
                                hops: seq<Hop>, now: int64, x: ItemRef)
    requires WellAddressed(nodes, s) && IsChain(nodes, s, g, i, hops, now)
    requires ChainOutcome(hops) == Dequeued(x)
    ensures hops != []
    ensures var last := hops[|hops| - 1];
      && last.node < |nodes| && nodes[last.node].isLeaf
      && last.entry.ref == Item(x)
      && last.pifo < |s[last.node]| && last.entry in s[last.node][last.pifo].contents
  {
    ChainShape(nodes, s, g, i, hops, now);
    ChainPopsResidentEntries(nodes, s, g, i, hops, now);
  }

  // ------------------------------------------------ dequeue specifications

  /** Every PIFO of node g is empty. */
  ghost predicate AllEmpty(s: Snapshot, g: nat)
    requires g < |s|
  {
    forall i :: 0 <= i < |s[g]| ==> s[g][i].contents == multiset{}
  }

  /**
   * Dequeuing PIFO i of node g turns state s into s' and yields r: the
   * chain it pops starts there, the new state is the old one minus the
   * chain's entries, and r is what the chain's last entry holds.
   */
  ghost predicate DequeuePifoSpec(nodes: seq<PifoTreeNode>, s: Snapshot, s': Snapshot, g: nat, i: nat,
                                  now: int64, r: DeqOutcome, hops: seq<Hop>)
  {
    && IsChain(nodes, s, g, i, hops, now)
    && s' == ApplyHops(s, hops, now)
    && r == ChainOutcome(hops)
  }

  /** Dequeuing an empty PIFO pops nothing. */
  lemma EmptyChain(nodes: seq<PifoTreeNode>, s: Snapshot, g: nat, i: nat, now: int64)
    requires g < |s| && i < |s[g]| && g < |nodes| && s[g][i].contents == multiset{}
    ensures DequeuePifoSpec(nodes, s, s, g, i, now, NoItem, [])
  {
  }

  /** Popping a least packet entry of PIFO (g, i) is a complete chain. */
  lemma ItemChain(nodes: seq<PifoTreeNode>, s: Snapshot, g: nat, i: nat, e: PifoEntry, now: int64)
    requires g < |s| && i < |s[g]| && g < |nodes| && IsMinOf(e, s[g][i].contents) && e.ref.Item?
    ensures DequeuePifoSpec(nodes, s, PopAt(s, g, i, e, now), g, i, now, Dequeued(e.ref.item), [Hop(g, i, e)])
  {
    var hops := [Hop(g, i, e)];
    assert hops[1..] == [];
  }

  /**
   * Popping a least entry of PIFO (g, i) that refers to PIFO `pid` of the
   * child with local ID `nid`, then dequeuing that child PIFO, is a chain of (g, i).
   */
  lemma ChildChain(nodes: seq<PifoTreeNode>, s: Snapshot, s': Snapshot, g: nat, i: nat, e: PifoEntry,
                   now: int64, r: DeqOutcome, rest: seq<Hop>)
    requires g < |s| && i < |s[g]| && g < |nodes| && IsMinOf(e, s[g][i].contents) && e.ref.ChildRef?
    requires e.ref.nodeId < |nodes[g].children|
    requires DequeuePifoSpec(nodes, PopAt(s, g, i, e, now), s', nodes[g].children[e.ref.nodeId], e.ref.pifoId,
                             now, r, rest)
    ensures DequeuePifoSpec(nodes, s, s', g, i, now, r, [Hop(g, i, e)] + rest)
  {
    var hops := [Hop(g, i, e)] + rest;
    assert hops[1..] == rest;
    if rest != [] {
      assert hops[|hops| - 1] == rest[|rest| - 1];
    }
  }

  /**
   * Dequeuing node g with the dequeue pipeline choosing PIFO `choice`:
   * nothing when all the node's PIFOs are empty, a report when the choice
   * names no PIFO, and otherwise the dequeue of the chosen PIFO.
   */
  ghost predicate DequeueNodeSpec(nodes: seq<PifoTreeNode>, s: Snapshot, s': Snapshot, g: nat, choice: nat,
                                  now: int64, r: DeqOutcome, hops: seq<Hop>)
  {
    && g < |s|
    && if AllEmpty(s, g) then r == NoItem && hops == [] && s' == s
       else if choice >= |s[g]| then r == BadPifo && hops == [] && s' == s
       else DequeuePifoSpec(nodes, s, s', g, choice, now, r, hops)
  }

  /**
   * What every node dequeue guarantees in a well-addressed tree: it removes
   * exactly one packet from the leaves when it returns one, and that packet
   * was held by a leaf; otherwise every packet stays where it was.  The
   * entries held drop by the number of hops, and the tree stays well addressed.
   */
  lemma DequeueNodeEffect(nodes: seq<PifoTreeNode>, s: Snapshot, s': Snapshot, g: nat, choice: nat,
                          now: int64, r: DeqOutcome, hops: seq<Hop>)
    requires WellAddressed(nodes, s) && DequeueNodeSpec(nodes, s, s', g, choice, now, r, hops)
    ensures WellAddressed(nodes, s')
    ensures Load(s', Leaves(nodes)) == Load(s, Leaves(nodes)) - (if r.Dequeued? then 1 else 0)
    ensures Load(s', AllNodes(s)) == Load(s, AllNodes(s)) - |hops|
    ensures r.Dequeued? ==> exists h, j, e :: 0 <= h < |nodes| && nodes[h].isLeaf && 0 <= j < |s[h]|
                                            && e in s[h][j].contents && e.ref == Item(r.item)
  {
    if !AllEmpty(s, g) && choice < |s[g]| {
      ChainRemovesAtMostOnePacket(nodes, s, g, choice, hops, now);
      ChainWellAddressed(nodes, s, g, choice, hops, now);
      if r.Dequeued? {
        ChainDeliversLeafPacket(nodes, s, g, choice, hops, now, r.item);
        var last := hops[|hops| - 1];
        assert last.entry in s[last.node][last.pifo].contents;
      }
    }
  }

  lemma {:induction false} ChainWellAddressed(nodes: seq<PifoTreeNode>, s: Snapshot, g: nat, i: nat,
                                              hops: seq<Hop>, now: int64)
    requires WellAddressed(nodes, s) && IsChain(nodes, s, g, i, hops, now)
    ensures WellAddressed(nodes, ApplyHops(s, hops, now))
    decreases |hops|
  {
    if hops != [] {
      var e := hops[0].entry;
      PopAtWellAddressed(nodes, s, g, i, e, now);
      match e.ref
      case Item(_) =>
        assert hops[1..] == [];
      case ChildRef(nid, pid) =>
        ChainWellAddressed(nodes, PopAt(s, g, i, e, now), nodes[g].children[nid], pid, hops[1..], now);
    }
  }

  // ------------------------------------------------ configuration changes

  /**
   * Growing the configuration (more nodes, more children appended, more
   * PIFOs where there were none) keeps every resident entry well addressed,
   * provided the new PIFOs start empty.
   */
  lemma WellAddressedGrow(nodes: seq<PifoTreeNode>, s: Snapshot, nodes': seq<PifoTreeNode>, s': Snapshot)
    requires WellAddressed(nodes, s) && Shaped(nodes', s') && |nodes| <= |nodes'|
    requires forall g :: 0 <= g < |nodes| ==>
               && nodes'[g].isLeaf == nodes[g].isLeaf
               && nodes[g].children <= nodes'[g].children
               && |nodes[g].pifos| <= |nodes'[g].pifos|
    requires forall g, i :: 0 <= g < |s'| && 0 <= i < |s'[g]| ==>
               s'[g][i].contents == if g < |s| && i < |s[g]| then s[g][i].contents else multiset{}
    ensures WellAddressed(nodes', s')
  {
    forall g, i, e | 0 <= g < |s'| && 0 <= i < |s'[g]| && e in s'[g][i].contents
      ensures EntryOk(nodes', g, e)
    {
      assert g < |s| && i < |s[g]| && e in s[g][i].contents;
      assert EntryOk(nodes, g, e);
      match e.ref
      case Item(_) =>
      case ChildRef(nid, pid) =>
        assert nodes'[g].children[nid] == nodes[g].children[nid];
    }
  }

  /** Two snapshots of the same shape that agree PIFO by PIFO are equal. */
  lemma SnapshotExt(nodes: seq<PifoTreeNode>, a: Snapshot, b: Snapshot)
    requires Shaped(nodes, a) && Shaped(nodes, b)
    requires forall g, i :: 0 <= g < |a| && 0 <= i < |a[g]| ==> a[g][i] == b[g][i]
    ensures a == b
  {
    forall g | 0 <= g < |a| ensures a[g] == b[g] {
      assert |a[g]| == |b[g]|;
    }
  }
}
