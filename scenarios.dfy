/**
 * Concrete runs of a PIFO and of a small tree, with their proved outcomes.
 */
module PifoScenarios {
  import opened PifoEntries
  import opened Pifos
  import opened PifoTreeNodes
  import opened PifoTreeSpec
  import opened PifoTrees

  /** A packet entry with rank `rank` and no timing constraint. */
  function Packet(item: ItemRef, rank: uint32): (e: PifoEntry)
    ensures e.ref == Item(item) && GetPriority(e) == rank
  {
    PifoEntry(Item(item), rank, 0, 0, 1500)
  }

  /** A new PIFO into which entries of ranks 30, 20 and 10 were pushed, in that order. */
  method ThreeRanks() returns (p: Pifo)
    ensures fresh(p) && p.Valid() && p.lastPopTime == 0
    ensures p.Contents() == multiset{Packet(0, 30), Packet(1, 20), Packet(2, 10)}
  {
    p := new Pifo();
    p.Push(Packet(0, 30));
    p.Push(Packet(1, 20));
    p.Push(Packet(2, 10));
  }

  /**
   * One PIFO: entries of ranks 30, 20 and 10 pushed in that order come out
   * as 10, 20, 30, the last pop time is that of the last dequeue, and the
   * PIFO is empty afterwards.
   */
  method PifoInRankOrder(now: int64) returns (first: uint32, second: uint32, third: uint32, left: nat, popped: int64)
    ensures first == 10 && second == 20 && third == 30 && left == 0 && popped == now
  {
    var p := ThreeRanks();
    var t := p.Top();
    assert Packet(2, 10) in p.Contents();
    first := t.rank;
    assert t == Packet(2, 10);
    p.Dequeue(now);
    assert p.Contents() == multiset{Packet(0, 30), Packet(1, 20)};
    t := p.Top();
    assert Packet(1, 20) in p.Contents();
    second := t.rank;
    assert t == Packet(1, 20);
    p.Dequeue(now);
    assert p.Contents() == multiset{Packet(0, 30)};
    t := p.Top();
    third := t.rank;
    p.Dequeue(now);
    left := p.Size();
    popped := p.LastPopTime();
  }

  /** A child reference with rank `rank` to PIFO 0 of the child with local ID `nid`. */
  function ChildEntry(nid: uint8, rank: uint32): (e: PifoEntry)
    ensures e.ref == ChildRef(nid, 0) && GetPriority(e) == rank
  {
    PifoEntry(ChildRef(nid, 0), rank, 0, 0, 1500)
  }

  /**
   * A root (global ID 0) whose children are the leaves 1 and 2, in that
   * order, every node with one PIFO.
   */
  ghost predicate TwoLeafTree(nodes: seq<PifoTreeNode>) {
    && |nodes| == 3
    && !nodes[0].isLeaf && nodes[0].children == [1, 2]
    && nodes[1].isLeaf && nodes[2].isLeaf
    && |nodes[0].pifos| == 1 && |nodes[1].pifos| == 1 && |nodes[2].pifos| == 1
  }

  /** The tree as configured, before anything is queued. */
  function Idle(): Snapshot {
    [[PifoView(multiset{}, 0)], [PifoView(multiset{}, 0)], [PifoView(multiset{}, 0)]]
  }

  // ------------------------------------------------ building the tree

  /** Three new nodes: an inner node with global ID 0 and leaves 1 and 2. */
  method ThreeNodes() returns (t: PifoTree)
    ensures fresh(t) && t.Valid()
    ensures t.nodes == [NewNode(false), NewNode(true), NewNode(true)] && t.Snapshot() == [[], [], []]
  {
    t := new PifoTree();
    var root := t.AddNode(false);
    var a := t.AddNode(true);
    var b := t.AddNode(true);
  }

  /** Node g of the three is as created, apart from the PIFOs it has by now. */
  ghost predicate AsCreated(nodes: seq<PifoTreeNode>, g: nat)
    requires g < |nodes|
  {
    nodes[g] == NewNode(g != 0).(pifos := nodes[g].pifos)
  }

  /** The three nodes as created, each with one PIFO. */
  ghost predicate Provisioned(nodes: seq<PifoTreeNode>) {
    && |nodes| == 3
    && AsCreated(nodes, 0) && AsCreated(nodes, 1) && AsCreated(nodes, 2)
    && |nodes[0].pifos| == 1 && |nodes[1].pifos| == 1 && |nodes[2].pifos| == 1
  }

  /** Give node g, which has no PIFO yet, one new PIFO. */
  method OnePifo(t: PifoTree, g: nat)
    requires t.Valid() && g < |t.nodes| && t.nodes[g].pifos == []
    modifies t
    ensures t.Valid() && |t.nodes| == |old(t.nodes)| && |t.nodes[g].pifos| == 1 && fresh(t.nodes[g].pifos[0])
    ensures t.nodes == old(t.nodes)[g := old(t.nodes)[g].(pifos := t.nodes[g].pifos)]
    ensures t.Snapshot() == old(t.Snapshot())[g := [PifoView(multiset{}, 0)]]
  {
    var ok := t.AddPifos(g, 1);
    assert seq(1, i => PifoView(multiset{}, 0)) == [PifoView(multiset{}, 0)];
  }

  lemma IdleSteps()
    ensures [[], [], []][0 := [PifoView(multiset{}, 0)]][1 := [PifoView(multiset{}, 0)]][2 := [PifoView(multiset{}, 0)]]
            == Idle()
  {
  }

  /** Give each of the three new nodes one PIFO. */
  method OnePifoEach(t: PifoTree)
    requires t.Valid() && t.nodes == [NewNode(false), NewNode(true), NewNode(true)] && t.Snapshot() == [[], [], []]
    modifies t
    ensures t.Valid() && Provisioned(t.nodes) && t.Snapshot() == Idle()
    ensures fresh(t.nodes[0].pifos[0]) && fresh(t.nodes[1].pifos[0]) && fresh(t.nodes[2].pifos[0])
  {
    IdleSteps();
    OnePifo(t, 0);
    OnePifo(t, 1);
    OnePifo(t, 2);
  }

  /**
   * Nodes 1 and 2 become the root's children, in that order, and get the
   * root as parent; the root gets both pipelines.
   */
  ghost function Wired(n: seq<PifoTreeNode>): seq<PifoTreeNode>
    requires Provisioned(n)
  {
    [WithChild(WithChild(n[0], 1), 2).(hasEnqLogic := true, hasDeqLogic := true),
     n[1].(parent := Some(0)),
     n[2].(parent := Some(0))]
  }

  /** The wired nodes form the two-leaf tree, and every node passes its configuration check. */
  lemma WiredPassesCheck(n: seq<PifoTreeNode>)
    requires Provisioned(n)
    ensures TwoLeafTree(Wired(n))
    ensures forall g :: 0 <= g < 3 ==> CheckConfig(Wired(n)[g])
  {
  }

  /** Append node c, not yet a child, to the root's children. */
  method AdoptChild(t: PifoTree, c: nat)
    requires t.Valid() && |t.nodes| == 3 && c < 3 && LocalIdsOk(t.nodes[0])
    requires c !in t.nodes[0].children && |t.nodes[0].children| < MaxChildren
    modifies t
    ensures t.Valid() && t.Snapshot() == old(t.Snapshot())
    ensures t.nodes == old(t.nodes)[0 := WithChild(old(t.nodes)[0], c)]
  {
    var ok := t.AddChild(0, c);
  }

  /** Make 1 and 2 the children of the root, in that order. */
  method Adopt(t: PifoTree)
    requires t.Valid() && Provisioned(t.nodes)
    modifies t
    ensures t.Valid() && t.Snapshot() == old(t.Snapshot())
    ensures t.nodes == old(t.nodes)[0 := WithChild(WithChild(old(t.nodes)[0], 1), 2)]
  {
    AdoptChild(t, 1);
    AdoptChild(t, 2);
  }

  /** Give nodes 1 and 2 the root as parent. */
  method Attach(t: PifoTree)
    requires t.Valid() && |t.nodes| == 3 && t.nodes[1].parent == None && t.nodes[2].parent == None
    modifies t
    ensures t.Valid() && t.Snapshot() == old(t.Snapshot())
    ensures t.nodes == old(t.nodes)[1 := old(t.nodes)[1].(parent := Some(0))][2 := old(t.nodes)[2].(parent := Some(0))]
  {
    var ok := t.AddParent(1, 0);
    ok := t.AddParent(2, 0);
  }

  /** Install both pipelines at the root. */
  method Program(t: PifoTree)
    requires t.Valid() && |t.nodes| == 3
    modifies t
    ensures t.Valid() && t.Snapshot() == old(t.Snapshot())
    ensures t.nodes == old(t.nodes)[0 := old(t.nodes)[0].(hasEnqLogic := true, hasDeqLogic := true)]
  {
    var ok := t.AddEnqLogic(0, true);
    ok := t.AddDeqLogic(0, true);
  }

  /**
   * Link the provisioned nodes into the two-leaf tree and program its root:
   * every node then passes its configuration check, and keeps its PIFO.
   */
  method Wire(t: PifoTree)
    requires t.Valid() && Provisioned(t.nodes)
    modifies t
    ensures t.Valid() && t.Snapshot() == old(t.Snapshot())
    ensures t.nodes == Wired(old(t.nodes)) && TwoLeafTree(t.nodes)
    ensures forall g :: 0 <= g < 3 ==> CheckConfig(t.nodes[g]) && t.nodes[g].pifos == old(t.nodes)[g].pifos
  {
    WiredPassesCheck(t.nodes);
    Adopt(t);
    Attach(t);
    Program(t);
  }

  /** The PIFO objects of the two-leaf tree are the one PIFO of each node. */
  lemma TwoLeafPifos(nodes: seq<PifoTreeNode>)
    requires TwoLeafTree(nodes)
    ensures PifoSet(nodes) == {nodes[0].pifos[0], nodes[1].pifos[0], nodes[2].pifos[0]}
  {
  }

  /** Three new nodes, each with one new PIFO. */
  method ProvisionedNodes() returns (t: PifoTree)
    ensures fresh(t) && t.Valid() && Provisioned(t.nodes) && t.Snapshot() == Idle()
    ensures fresh(t.nodes[0].pifos[0]) && fresh(t.nodes[1].pifos[0]) && fresh(t.nodes[2].pifos[0])
  {
    t := ThreeNodes();
    OnePifoEach(t);
  }

  /**
   * Build the two-leaf tree from nothing: every node passes its
   * configuration check, and nothing is queued yet.
   */
  method BuildTwoLeafTree() returns (t: PifoTree)
    ensures fresh(t) && t.Valid() && TwoLeafTree(t.nodes) && t.Snapshot() == Idle()
    ensures forall g :: 0 <= g < 3 ==> CheckConfig(t.nodes[g])
    ensures fresh(t.nodes[0].pifos[0]) && fresh(t.nodes[1].pifos[0]) && fresh(t.nodes[2].pifos[0])
  {
    t := ProvisionedNodes();
    Wire(t);
  }

  /** The state after packet 1 (rank 5) went to leaf 1 and packet 2 (rank 15) to leaf 2. */
  function Loaded(): Snapshot {
    [[PifoView(multiset{ChildEntry(0, 5), ChildEntry(1, 15)}, 0)],
     [PifoView(multiset{Packet(1, 5)}, 0)],
     [PifoView(multiset{Packet(2, 15)}, 0)]]
  }

  /** The state after the first dequeue at time `now`. */
  function AfterFirst(now: int64): Snapshot {
    [[PifoView(multiset{ChildEntry(1, 15)}, now)],
     [PifoView(multiset{}, now)],
     [PifoView(multiset{Packet(2, 15)}, 0)]]
  }

  /** The state after the second dequeue at time `later`. */
  function AfterSecond(now: int64, later: int64): Snapshot {
    [[PifoView(multiset{}, later)],
     [PifoView(multiset{}, now)],
     [PifoView(multiset{}, later)]]
  }

  /** The loaded state respects the tree's addressing rules. */
  lemma LoadedWellAddressed(nodes: seq<PifoTreeNode>)
    requires TwoLeafTree(nodes)
    ensures WellAddressed(nodes, Loaded())
  {
    var s: Snapshot := Loaded();
    forall g, i, e | 0 <= g < |s| && 0 <= i < |s[g]| && e in s[g][i].contents ensures EntryOk(nodes, g, e) {
      if g == 0 {
        assert e == ChildEntry(0, 5) || e == ChildEntry(1, 15);
      } else {
        assert e.ref.Item?;
      }
    }
  }

  /**
   * Dequeuing the root of the loaded tree, with the dequeue pipeline
   * choosing the root's only PIFO, pops the root's rank-5 reference, follows
   * it to leaf 1 and delivers packet 1.
   */
  lemma FirstDequeue(nodes: seq<PifoTreeNode>, now: int64, s': Snapshot, r: DeqOutcome, hops: seq<Hop>)
    requires TwoLeafTree(nodes) && DequeueNodeSpec(nodes, Loaded(), s', 0, 0, now, r, hops)
    ensures r == Dequeued(1) && s' == AfterFirst(now)
    ensures hops == [Hop(0, 0, ChildEntry(0, 5)), Hop(1, 0, Packet(1, 5))]
  {
    assert ChildEntry(0, 5) in Loaded()[0][0].contents;
    assert !AllEmpty(Loaded(), 0);
    FirstChain(nodes, now, s', r, hops);
  }

  /** The dequeue chain of the root's PIFO in the loaded tree. */
  lemma FirstChain(nodes: seq<PifoTreeNode>, now: int64, s': Snapshot, r: DeqOutcome, hops: seq<Hop>)
    requires TwoLeafTree(nodes) && DequeuePifoSpec(nodes, Loaded(), s', 0, 0, now, r, hops)
    ensures r == Dequeued(1) && s' == AfterFirst(now)
    ensures hops == [Hop(0, 0, ChildEntry(0, 5)), Hop(1, 0, Packet(1, 5))]
  {
    var s: Snapshot := Loaded();
    var top := hops[0].entry;
    assert ChildEntry(1, 15) in s[0][0].contents;
    assert top == ChildEntry(0, 5);
    var s1: Snapshot := PopAt(s, 0, 0, top, now);
    assert s1[1][0].contents == multiset{Packet(1, 5)};
    assert IsChain(nodes, s1, 1, 0, hops[1..], now);
    assert hops[1].entry == Packet(1, 5);
    assert hops == [hops[0], hops[1]];
    var s2: Snapshot := PopAt(s1, 1, 0, Packet(1, 5), now);
    assert ApplyHops(s1, hops[1..], now) == ApplyHops(s2, hops[2..], now) == s2;
    assert s1[0][0].contents == multiset{ChildEntry(1, 15)};
    assert s2[1][0].contents == multiset{};
    assert s2[0] == AfterFirst(now)[0] && s2[1] == AfterFirst(now)[1] && s2[2] == AfterFirst(now)[2];
    assert s2 == AfterFirst(now);
  }

  /**
   * Dequeuing the root again, with the same choice, pops its rank-15
   * reference, follows it to leaf 2 and delivers packet 2, which leaves
   * every PIFO empty.
   */
  lemma SecondDequeue(nodes: seq<PifoTreeNode>, now: int64, later: int64, s': Snapshot, r: DeqOutcome,
                      hops: seq<Hop>)
    requires TwoLeafTree(nodes) && DequeueNodeSpec(nodes, AfterFirst(now), s', 0, 0, later, r, hops)
    ensures r == Dequeued(2) && s' == AfterSecond(now, later)
    ensures hops == [Hop(0, 0, ChildEntry(1, 15)), Hop(2, 0, Packet(2, 15))]
  {
    assert ChildEntry(1, 15) in AfterFirst(now)[0][0].contents;
    assert !AllEmpty(AfterFirst(now), 0);
    SecondChain(nodes, now, later, s', r, hops);
  }

  /** The dequeue chain of the root's PIFO after the first dequeue. */
  lemma SecondChain(nodes: seq<PifoTreeNode>, now: int64, later: int64, s': Snapshot, r: DeqOutcome,
                    hops: seq<Hop>)
    requires TwoLeafTree(nodes) && DequeuePifoSpec(nodes, AfterFirst(now), s', 0, 0, later, r, hops)
    ensures r == Dequeued(2) && s' == AfterSecond(now, later)
    ensures hops == [Hop(0, 0, ChildEntry(1, 15)), Hop(2, 0, Packet(2, 15))]
  {
    var s: Snapshot := AfterFirst(now);
    var top := hops[0].entry;
    assert top == ChildEntry(1, 15);
    var s1: Snapshot := PopAt(s, 0, 0, top, later);
    assert s1[2][0].contents == multiset{Packet(2, 15)};
    assert IsChain(nodes, s1, 2, 0, hops[1..], later);
    assert hops[1].entry == Packet(2, 15);
    assert hops == [hops[0], hops[1]];
    var s2: Snapshot := PopAt(s1, 2, 0, Packet(2, 15), later);
    assert ApplyHops(s1, hops[1..], later) == ApplyHops(s2, hops[2..], later) == s2;
    assert s1[0][0].contents == multiset{};
    assert s2[2][0].contents == multiset{};
    assert s2[0] == AfterSecond(now, later)[0] && s2[1] == AfterSecond(now, later)[1];
    assert s2[2] == AfterSecond(now, later)[2];
    assert s2 == AfterSecond(now, later);
  }

  /** Enqueue packet `item` with rank `rank` at PIFO 0 of leaf `leaf`: it is placed there. */
  method PlacePacket(t: PifoTree, leaf: nat, item: ItemRef, rank: uint32)
    requires t.Valid() && TwoLeafTree(t.nodes) && (leaf == 1 || leaf == 2)
    modifies PifoSet(t.nodes)
    ensures t.Valid() && t.nodes == old(t.nodes)
    ensures t.Snapshot() == PushAt(old(t.Snapshot()), leaf, 0, Packet(item, rank))
  {
    var placed := t.Enqueue(leaf, item, 1500, Place(0, rank, 0, 0));
  }

  /**
   * Announce at the root, with rank `rank`, that PIFO 0 of leaf `leaf` has a
   * packet: the root gains a reference whose local ID is the leaf's position.
   */
  method Announce(t: PifoTree, leaf: nat, rank: uint32)
    requires t.Valid() && TwoLeafTree(t.nodes) && (leaf == 1 || leaf == 2)
    modifies PifoSet(t.nodes)
    ensures t.Valid() && t.nodes == old(t.nodes)
    ensures t.Snapshot() == PushAt(old(t.Snapshot()), 0, 0, ChildEntry(leaf as uint8 - 1, rank))
  {
    assert GetLocalNodeID(t.nodes[0], leaf) == Some(leaf as uint8 - 1);
    var announced := t.EnqueueChildRef(0, leaf, 0, 1500, Place(0, rank, 0, 0));
  }

  /** Leaf 1 holds packet 1 (rank 5); the root does not know yet. */
  function LeafOneFull(): Snapshot {
    [[PifoView(multiset{}, 0)], [PifoView(multiset{Packet(1, 5)}, 0)], [PifoView(multiset{}, 0)]]
  }

  /** Packet 1 (rank 5) is at leaf 1 and announced at the root. */
  function HalfLoaded(): Snapshot {
    [[PifoView(multiset{ChildEntry(0, 5)}, 0)],
     [PifoView(multiset{Packet(1, 5)}, 0)],
     [PifoView(multiset{}, 0)]]
  }

  /** Packet 2 (rank 15) has joined leaf 2; the root does not know yet. */
  function LeafTwoFull(): Snapshot {
    [[PifoView(multiset{ChildEntry(0, 5)}, 0)],
     [PifoView(multiset{Packet(1, 5)}, 0)],
     [PifoView(multiset{Packet(2, 15)}, 0)]]
  }

  /** The four enqueues of the loading sequence, one PIFO at a time. */
  lemma LoadSteps()
    ensures PushAt(Idle(), 1, 0, Packet(1, 5)) == LeafOneFull()
    ensures PushAt(LeafOneFull(), 0, 0, ChildEntry(0, 5)) == HalfLoaded()
    ensures PushAt(HalfLoaded(), 2, 0, Packet(2, 15)) == LeafTwoFull()
    ensures PushAt(LeafTwoFull(), 0, 0, ChildEntry(1, 15)) == Loaded()
  {
    assert multiset{} + multiset{Packet(1, 5)} == multiset{Packet(1, 5)};
    assert multiset{} + multiset{ChildEntry(0, 5)} == multiset{ChildEntry(0, 5)};
    assert multiset{} + multiset{Packet(2, 15)} == multiset{Packet(2, 15)};
    var s: Snapshot := PushAt(Idle(), 1, 0, Packet(1, 5));
    assert s[0] == LeafOneFull()[0] && s[1] == LeafOneFull()[1] && s[2] == LeafOneFull()[2];
    s := PushAt(LeafOneFull(), 0, 0, ChildEntry(0, 5));
    assert s[0] == HalfLoaded()[0] && s[1] == HalfLoaded()[1] && s[2] == HalfLoaded()[2];
    s := PushAt(HalfLoaded(), 2, 0, Packet(2, 15));
    assert s[0] == LeafTwoFull()[0] && s[1] == LeafTwoFull()[1] && s[2] == LeafTwoFull()[2];
    s := PushAt(LeafTwoFull(), 0, 0, ChildEntry(1, 15));
    assert s[0][0].contents == multiset{ChildEntry(0, 5), ChildEntry(1, 15)};
    assert s[0] == Loaded()[0] && s[1] == Loaded()[1] && s[2] == Loaded()[2];
  }

  /**
   * Packet 1 (rank 5) goes to leaf 1 and is announced at the root, then
   * packet 2 (rank 15) goes to leaf 2 and is announced at the root.
   */
  method LoadTwoLeafTree(t: PifoTree)
    requires t.Valid() && TwoLeafTree(t.nodes) && t.Snapshot() == Idle()
    modifies PifoSet(t.nodes)
    ensures t.Valid() && t.nodes == old(t.nodes) && t.Snapshot() == Loaded()
  {
    LoadSteps();
    PlacePacket(t, 1, 1, 5);
    Announce(t, 1, 5);
    PlacePacket(t, 2, 2, 15);
    Announce(t, 2, 15);
  }

  /**
   * The same two root dequeues on a tree object, the dequeue pipeline
   * choosing PIFO 0 each time: the root delivers packet 1 and then packet 2,
   * and every PIFO is empty afterwards.
   */
  method DrainTwoLeafTree(t: PifoTree, now: int64, later: int64) returns (first: DeqOutcome, second: DeqOutcome)
    requires t.Valid() && TwoLeafTree(t.nodes) && t.Snapshot() == Loaded()
    modifies PifoSet(t.nodes)
    ensures t.Valid() && t.nodes == old(t.nodes)
    ensures first == Dequeued(1) && second == Dequeued(2) && t.Snapshot() == AfterSecond(now, later)
  {
    ghost var hops;
    first, hops := t.Dequeue(0, 0, now);
    FirstDequeue(t.nodes, now, t.Snapshot(), first, hops);
    second, hops := t.Dequeue(0, 0, later);
    SecondDequeue(t.nodes, now, later, t.Snapshot(), second, hops);
  }

  /**
   * The whole run on a tree built from nothing: after packet 1 (rank 5) is
   * enqueued at leaf 1 and packet 2 (rank 15) at leaf 2, two root dequeues
   * return packet 1 and then packet 2.
   */
  method TwoLeafRun(now: int64, later: int64) returns (first: DeqOutcome, second: DeqOutcome)
    ensures first == Dequeued(1) && second == Dequeued(2)
  {
    var t := BuildTwoLeafTree();
    TwoLeafPifos(t.nodes);
    LoadTwoLeafTree(t);
    first, second := DrainTwoLeafTree(t, now, later);
  }
}

