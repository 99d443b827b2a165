# PIFO scheduling tree

This project models the scheduling tree of a PIFO ("push in, first out")
tree queue disc for a network simulator. The tree is made of nodes. A node
owns PIFOs (a configured leaf owns one or more), priority queues that always hand out an entry of
least rank. A PIFO of a leaf node holds packets. A PIFO of an inner node
holds announcements instead. An announcement is a reference to a PIFO of one
of the node's children, written as that child's local ID plus the PIFO's
index in the child.

To dequeue from a PIFO, the tree pops its top entry. If that entry is a
packet, the packet is returned. If it is an announcement, the tree dequeues
the child PIFO it names, and so on down the tree until a packet is returned.

The model has seven modules:

- `PifoEntries` (`entries.dfy`): the entry record (`PifoEntry`) with its
  two kinds of reference, the source's fixed-width fields (`uint8`,
  `uint32`, `int64`), and the comparator `PifoEntryComp`
  (`lhs.rank >= rhs.rank`, which makes the top the *lowest* rank).
- `PifoHeap` (`heap.dfy`): the binary heap underneath `std::priority_queue`,
  on a sequence. `PushHeap` sifts the new entry up in a loop, as
  `std::push_heap` does. `PopHeap` moves the last entry to the root and
  `SiftDown` sifts it down in a loop. Both compare with `PifoEntryComp`.
- `Pifos` (`pifo.dfy`): the `Pifo` class. Its fields are the heap and
  `lastPopTime`. `Push` and `Dequeue` update them in place. `Drain`
  dequeues a PIFO until it is empty.
- `PifoTreeNodes` (`tree_node.dfy`): the configuration of one node. This
  covers the leaf flag, the parent, the children and the map from global to
  local IDs, the PIFO objects, and whether pipelines are installed. It also
  holds the read-only queries `GetLocalNodeID` and `CheckConfig`.
- `PifoTreeSpec` (`tree_spec.dfy`): the abstract state of a tree, one multiset
  and last-pop time per PIFO. It defines what a dequeue does to that state,
  as a chain of hops (`IsChain`), and proves lemmas about chains.
- `PifoTrees` (`tree.dfy`): the `PifoTree` class. It is an arena of nodes
  indexed by global ID, with the configuration, enqueue and dequeue
  operations as methods proved against `PifoTreeSpec`.
- `PifoScenarios` (`scenarios.dfy`): concrete runs with their proved
  outcomes. One PIFO is filled with ranks 30, 20 and 10 and drained. A root
  with two leaves is built from new nodes with the configuration methods,
  and every node passes `CheckConfig`. The tree is loaded with two packets
  of different ranks, and two root dequeues deliver them in rank order.

The enqueue and dequeue pipelines are programs run by an external P4
pipeline. Here their decisions are parameters: an `EnqDecision` (drop, or a
PIFO index with rank and timing fields) and a dequeue `choice`. The
simulator's clock is a parameter `now` as well.

## Model

| member | source | states |
|---|---|---|
| PifoEntries.GetPriority | traffic-control/model/pifo-tree-node.h:89-92 | The priority of an entry is its rank. |
| PifoEntries.GetSize | traffic-control/model/pifo-tree-node.h:84-87 | The size of an entry is its packet length. |
| PifoEntries.PifoEntryComp | traffic-control/model/pifo-tree-node.h:33-38 | The comparator is true exactly when the left priority is at least the right one: a strictly higher or an equal priority compares true, so the order is not strict, and otherwise it is false. |
| PifoHeap.HeapRootIsMin | traffic-control/model/pifo-tree-node.h:33-38 | In a sequence kept in heap order by the `>=` comparator, the first element has the least rank of all the entries held. |
| PifoHeap.PushHeap | traffic-control/model/pifo-tree-node.h:45-48 | Pushing onto a heap gives a heap holding the old entries plus the new one, one element longer. |
| PifoHeap.SiftDown | traffic-control/model/pifo-tree-node.h:45-48 | A sequence out of order only below its root becomes a heap with the same entries. |
| PifoHeap.PopHeap | traffic-control/model/pifo-tree-node.h:53-56 | Popping a non-empty heap removes exactly its root and leaves a heap one element shorter. |
| Pifos.DrainKeepsEntries | traffic-control/model/pifo-tree-node.h:53-58 | A drain is a sequence of least-rank extractions that empties a multiset. It holds exactly the entries of that multiset, each once. |
| Pifos.DrainIsSorted | traffic-control/model/pifo-tree-node.h:33-58 | A drain comes out in non-decreasing rank. Ties are left unordered. |
| Pifos.Drain | traffic-control/model/pifo-tree-node.h:53-65 | Taking the top and dequeuing until the PIFO is empty yields a drain of its old contents. So every entry comes out once, in non-decreasing rank. The PIFO ends empty, and its pop time is that of the last dequeue, or unchanged if it was already empty. |
| Pifos.Pifo.constructor | traffic-control/model/pifo-tree-node.h:51 | A new PIFO is empty and its last pop time is 0. |
| Pifos.Pifo.Size | traffic-control/model/pifo-tree-node.h:48 | The size is the number of entries held. |
| Pifos.Pifo.Empty | traffic-control/model/pifo-tree-node.h:48 | The PIFO is empty exactly when it holds no entry. |
| Pifos.Pifo.LastPopTime | traffic-control/model/pifo-tree-node.h:60-65 | The query returns the time of the last dequeue, which is 0 before the first one. |
| Pifos.Pifo.Top | traffic-control/model/pifo-tree-node.h:33-48 | The top of a non-empty PIFO is an entry it holds, and no entry it holds has a lower rank. |
| Pifos.Pifo.Push | traffic-control/model/pifo-tree-node.h:48 | A push adds exactly the pushed entry and leaves the last pop time unchanged. |
| Pifos.Pifo.Dequeue | traffic-control/model/pifo-tree-node.h:53-58 | A dequeue removes exactly the old top and the size drops by one. The last pop time becomes `now`. The new top has rank no lower than the one removed. |
| PifoTreeNodes.NewNode | traffic-control/model/pifo-tree-node.h:126 | A new node has the requested kind, no parent, no children, no PIFOs and no pipelines, and its local-ID map is consistent. |
| PifoTreeNodes.GetLocalNodeID | traffic-control/model/pifo-tree-node.h:160-163 | The lookup finds an ID exactly when the global ID is a child. The local ID found is that child's position among the children. |
| PifoTreeNodes.WithChild | traffic-control/model/pifo-tree-node.h:150-153 | Appending a child gives it the next local ID. Every other global ID keeps its local ID or its lack of one, and the map stays consistent. |
| PifoTreeNodes.LocalIdsInjective | traffic-control/model/pifo-tree-node.h:234-235 | Two global IDs with the same local ID are the same child. |
| PifoTreeNodes.CheckConfig | traffic-control/model/pifo-tree-node.h:155-158 | A node passes exactly when it is a leaf with at least one PIFO and no children, or an inner node with a child and both pipelines installed. Both directions are stated. |
| PifoTreeSpec.ChainLoad | traffic-control/model/pifo-tree-node.h:215-220 | Every hop of a dequeue removes exactly one entry. In every set of nodes, the number of entries held drops by the number of hops taken there. |
| PifoTreeSpec.ChainShape | traffic-control/model/pifo-tree-node.h:94-99 | In a well-addressed tree every hop but the last pops an announcement from an inner node. The last hop pops a packet exactly when its node is a leaf, and the dequeue delivers a packet exactly then. |
| PifoTreeSpec.ChainRemovesAtMostOnePacket | traffic-control/model/pifo-tree-node.h:215-220 | A dequeue takes one packet out of the leaves when it delivers one and none otherwise. The whole tree loses exactly as many entries as there are hops. |
| PifoTreeSpec.ChainPopsResidentEntries | traffic-control/model/pifo-tree-node.h:215-220 | Every entry a dequeue pops was held, before the dequeue, by the PIFO it was popped from. |
| PifoTreeSpec.ChainDeliversLeafPacket | traffic-control/model/pifo-tree-node.h:94-95 | A delivered packet was held by a PIFO of a leaf node and was the packet of the last entry popped. |
| PifoTreeSpec.ChainWellAddressed | traffic-control/model/pifo-tree-node.h:94-99 | A dequeue keeps every resident entry well addressed. Packets stay in leaves only, and every announcement names an existing child and an existing PIFO of it. |
| PifoTreeSpec.DequeueNodeEffect | traffic-control/model/pifo-tree-node.h:200-205 | A node dequeue keeps the tree well addressed. The leaves lose one packet when a packet is returned and none otherwise, and the returned packet was held by a leaf. |
| PifoTrees.PifoTree.AddNode | traffic-control/model/pifo-tree-node.h:226-228 | A new node gets the next global ID, which is its arena position. The tree state gains one node with no PIFOs and nothing else changes. |
| PifoTrees.PifoTree.AddPifos | traffic-control/model/pifo-tree-node.h:140-143 | Installing the requested number of new, empty PIFOs succeeds exactly when the node had none. On failure nothing changes. |
| PifoTrees.PifoTree.AddParent | traffic-control/model/pifo-tree-node.h:145-148 | Setting the parent succeeds exactly when the node has none yet. Only the parent changes, and the PIFO contents do not. |
| PifoTrees.PifoTree.AddChild | traffic-control/model/pifo-tree-node.h:150-153 | Appending the child succeeds exactly when it is not a child yet and an 8-bit local ID is free. The child then gets local ID equal to its position, and nothing else changes. |
| PifoTrees.PifoTree.AddEnqLogic | traffic-control/model/pifo-tree-node.h:130-133 | Installing the enqueue pipeline succeeds exactly when it could be built. Only the pipeline flag changes. |
| PifoTrees.PifoTree.AddDeqLogic | traffic-control/model/pifo-tree-node.h:135-138 | Installing the dequeue pipeline succeeds exactly when it could be built. Only the pipeline flag changes. |
| PifoTrees.PifoTree.Enqueue | traffic-control/model/pifo-tree-node.h:175-181 | The leaf enqueue returns false exactly when the pipeline drops or names no PIFO, and then nothing changes. Otherwise exactly the packet entry is added to the chosen PIFO. |
| PifoTrees.PifoTree.EnqueueChildRef | traffic-control/model/pifo-tree-node.h:183-190 | The inner-node enqueue returns false exactly when the pipeline drops, names no PIFO, or the child or its PIFO is unknown, and then nothing changes. Otherwise an announcement holding the child's local ID is added. |
| PifoTrees.PifoTree.AllPifosEmpty | traffic-control/model/pifo-tree-node.h:200-205 | The result is true exactly when every PIFO of the node is empty. |
| PifoTrees.PifoTree.PopFrom | traffic-control/model/pifo-tree-node.h:53-58 | Popping one PIFO of the tree removes an entry of least rank from it and stamps it with `now`. Every other PIFO keeps its state. |
| PifoTrees.PifoTree.DequeuePifo | traffic-control/model/pifo-tree-node.h:215-220 | Dequeuing a PIFO follows announcements down the tree. It pops an entry of least rank at each level, terminates, and returns the packet popped last, or nothing if a PIFO on the way was empty. The new state is the old one with exactly those pops applied. |
| PifoTrees.PifoTree.Dequeue | traffic-control/model/pifo-tree-node.h:200-205 | A node dequeue returns nothing and changes nothing when all the node's PIFOs are empty. It returns BadPifo when the pipeline's choice names no PIFO. Otherwise it is the dequeue of the chosen PIFO. |
| PifoTrees.PifoTree.DequeueAt | traffic-control/model/pifo-tree-node.h:207-213 | With a valid PIFO index this is DequeuePifo of that PIFO. With an invalid one it is exactly the pipeline-driven Dequeue. |
| PifoScenarios.ThreeRanks | traffic-control/model/pifo-tree-node.h:48-51 | A new PIFO that receives pushes of ranks 30, 20 and 10 holds exactly those three entries, and its last pop time is still 0. |
| PifoScenarios.PifoInRankOrder | traffic-control/model/pifo-tree-node.h:33-58 | Those three entries come out as ranks 10, 20 and 30. The PIFO is then empty, and its last pop time is that of the last dequeue. |
| PifoScenarios.ThreeNodes | traffic-control/model/pifo-tree-node.h:126 | Three `AddNode` calls on a new tree give an inner node 0 and leaves 1 and 2, all as created, with no PIFOs. |
| PifoScenarios.OnePifo | traffic-control/model/pifo-tree-node.h:140-143 | `AddPifos(g, 1)` on a node without PIFOs gives it one new, empty PIFO and changes no other node. |
| PifoScenarios.OnePifoEach | traffic-control/model/pifo-tree-node.h:140-143 | After one PIFO for each of the three nodes, every node is as created apart from its one PIFO, and every PIFO is empty. |
| PifoScenarios.AdoptChild | traffic-control/model/pifo-tree-node.h:150-153 | Adding a node that is not yet a child appends it to the root's children and changes nothing else. |
| PifoScenarios.Adopt | traffic-control/model/pifo-tree-node.h:150-153 | Adding children 1 and then 2 gives them local IDs 0 and 1. |
| PifoScenarios.Attach | traffic-control/model/pifo-tree-node.h:145-148 | Setting the root as parent of nodes 1 and 2, which have none, changes only their parent fields. |
| PifoScenarios.Program | traffic-control/model/pifo-tree-node.h:130-138 | Installing both pipelines at the root sets only its two pipeline flags. |
| PifoScenarios.Wire | traffic-control/model/pifo-tree-node.h:145-158 | Linking and programming the provisioned nodes gives the two-leaf tree. Every node then passes `CheckConfig`, and the PIFOs are untouched. |
| PifoScenarios.WiredPassesCheck | traffic-control/model/pifo-tree-node.h:155-158 | A root whose children are the two leaves and which has both pipelines passes the check, as do both leaves with their one PIFO. |
| PifoScenarios.ProvisionedNodes | traffic-control/model/pifo-tree-node.h:126-143 | A new tree of three new nodes, each with one new and empty PIFO. |
| PifoScenarios.BuildTwoLeafTree | traffic-control/model/pifo-tree-node.h:126-158 | Building from nothing with the configuration methods gives the two-leaf tree. Every node passes `CheckConfig` and nothing is queued. |
| PifoScenarios.LoadedWellAddressed | traffic-control/model/pifo-tree-node.h:94-99 | In the two-leaf tree, packets held by the leaves and announcements of leaf PIFOs held by the root are well addressed. |
| PifoScenarios.PlacePacket | traffic-control/model/pifo-tree-node.h:175-181 | A leaf enqueue that names PIFO 0 of either leaf adds exactly that packet to it. |
| PifoScenarios.Announce | traffic-control/model/pifo-tree-node.h:183-190 | A root enqueue for leaf 1 or 2 adds an announcement whose local ID is 0 or 1, the leaf's position among the root's children. |
| PifoScenarios.LoadTwoLeafTree | traffic-control/model/pifo-tree-node.h:175-190 | Enqueuing packet 1 (rank 5) at leaf 1 and packet 2 (rank 15) at leaf 2, each followed by its announcement at the root, gives exactly the loaded state. |
| PifoScenarios.FirstChain | traffic-control/model/pifo-tree-node.h:215-220 | In the loaded state, any dequeue chain of the root's PIFO pops the rank-5 announcement, then packet 1 from leaf 1, and delivers packet 1. |
| PifoScenarios.FirstDequeue | traffic-control/model/pifo-tree-node.h:200-205 | In the loaded state, a root dequeue whose pipeline chooses PIFO 0 delivers packet 1 and leaves exactly the state after that chain. |
| PifoScenarios.SecondChain | traffic-control/model/pifo-tree-node.h:215-220 | The next chain pops the rank-15 announcement, then packet 2 from leaf 2, and delivers packet 2, which leaves every PIFO empty. |
| PifoScenarios.SecondDequeue | traffic-control/model/pifo-tree-node.h:200-205 | The next root dequeue with the same choice delivers packet 2 and leaves every PIFO empty. |
| PifoScenarios.DrainTwoLeafTree | traffic-control/model/pifo-tree-node.h:200-205 | Two pipeline-driven `Dequeue` calls at the root of the loaded tree object return packet 1 and then packet 2. The final state has every PIFO empty and carries the pop times of the dequeues. |
| PifoScenarios.TwoLeafRun | traffic-control/model/pifo-tree-node.h:126-220 | Building the tree, loading both packets and dequeuing twice at the root returns packet 1 and then packet 2. |

## Left out

- The method bodies of `PifoTreeNode` live in `pifo-tree-node.cc`, which is not part of this model. The operations follow the declarations and doc comments of `pifo-tree-node.h`. The choices made where those are silent are listed below.
- `EnqueueNext` (line 198) schedules a delayed re-announcement on the simulator timeline, which is not modelled. So an announcement can name a child PIFO that is already empty, and dequeuing it then yields nothing (`NoItem`).
- `AddEnqLogic` / `AddDeqLogic` parse a JSON program and a command file into a P4 pipeline, which is foreign code. The model keeps only whether building it succeeded, as the `built` parameter.
- `InitEnqMeta`, `InitDeqMeta` and the pipelines `m_enqPipe` / `m_deqPipe` (lines 165-173, 223-224) are not modelled. Each pipeline's decision is an input instead.
- `Simulator::Now` becomes the parameter `now`. `Ptr` reference counting, `GetTypeId`, the destructor, the trace variables and the packet statistics (lines 237-248) are framework plumbing and are left out.
- The static `nodeID` counter and `m_globalID` (lines 226-228) become the node's position in the arena. A packet (`Ptr<QueueDiscItem>`) is an opaque natural number. `node_id` and `pifo_id` are kept as 8-bit values.
- `traffic-control/model/p4-queue-disc.h` is not modelled at all: the queue-disc wrapper, the floating-point `Estimator` and `MapSize`, the idle timer and the configuration I/O.
- Pifos.Pifo.Dequeue: requires a non-empty PIFO, because `std::priority_queue::pop` on an empty queue is undefined. Every caller checks first.
- PifoHeap.PopHeap: the model does not reproduce libstdc++'s exact element layout. libstdc++ moves the hole down to a leaf and then sifts up; the model sifts the last element down from the root. Both keep heap order and the same entries. Among equal ranks they may hand out different entries, which is why no contract fixes the order of ties.
- PifoTrees.PifoTree.AddChild: does not check that the child has no other parent. Parent and child edges are set by separate calls, as in the source. Refusing a duplicate child and a 257th child (local IDs are 8 bits) are modelling decisions.
- PifoTreeNodes.GetLocalNodeID: returns `None` for a global ID that is not a child. The source returns a `uint8` whose value in that case is not documented.
- PifoTrees.PifoTree.Dequeue: when the dequeue pipeline names a PIFO the node does not have, the model reports `BadPifo` and changes nothing. The source's behaviour in that case is not documented.
- PifoTrees.PifoTree.DequeuePifo: does not promise that dequeuing a non-empty PIFO delivers a packet. Without `EnqueueNext`, an announcement can name a child PIFO that is empty. The chain then stops at that PIFO and the result is `NoItem`, although the PIFO dequeued first held an entry. What is promised is that a delivered packet came from a leaf.
- PifoTrees.PifoTree.DequeuePifo: after popping an announcement, the recursion dequeues the named child PIFO directly, as `DequeuePifo` of that child. Because `EnqueueChildRef` refuses an out-of-range child PIFO ID, every announcement names an existing child PIFO. A parent therefore never reaches the fallback in `DequeueAt` to the child's own pipeline.
- PifoTrees.PifoTree.Enqueue and PifoTrees.PifoTree.EnqueueChildRef: a PIFO index out of range, an unknown child or a missing child PIFO gets the same answer as a drop: `false`, with nothing changed. The model does not separate these cases from a drop the way `Dequeue` separates a bad choice as `BadPifo`. The source's behaviour there is not documented.
- PifoTrees.PifoTree.Enqueue requires a leaf node and PifoTrees.PifoTree.EnqueueChildRef an inner node. Calling the overload that does not fit the node's kind is not modelled.
- PifoTrees.PifoTree.AddNode takes the node kind as a parameter and fixes it at creation. The header's constructor (line 126) takes no argument and does not show how `m_isLeaf` (line 229) is set.
- PifoTrees.PifoTree.AddPifos: a count of zero or less succeeds, installs nothing and leaves the node without PIFOs, so `AddPifos` can be called again. Whether the source refuses such a count is not documented.
- PifoTrees.PifoTree.AddPifos: refuses, with `false` and nothing changed, a node that already has PIFOs. The doc comment at line 143 says only that the given number of PIFOs is added, so a second call adding more PIFOs is not modelled.
- PifoTrees.PifoTree.AddParent: refuses, with `false` and nothing changed, a node that already has a parent. It accepts a node as its own parent (`p == g`), and nothing checks that the parent lists the node as a child. The doc comment at line 147 says only that the parent is set.
- PifoTrees.PifoTree.AddChild: accepts a node as its own child (`AddChild(g, g)` returns true), so an inner node can announce one of its own PIFOs. No cycle check is modelled. `DequeuePifo` still terminates, because every hop removes one entry and its measure is the tree's total load.
- PifoTreeNodes.CheckConfig: the conditions are the model's own, because the doc comment at line 157 says only that the node's configuration is checked. A leaf passes when it has at least one PIFO and no children, and it need not have an enqueue pipeline, although the leaf `Enqueue` takes that pipeline's decision as input. An inner node passes when it has at least one child and both pipelines, even with no PIFO of its own.
- Pifos.Pifo: `std::priority_queue` requires its comparator to be a strict weak ordering. `PifoEntryComp` (line 36) uses `>=`, which is reflexive, so the C++ standard leaves the behaviour of `Pifo` (line 48) undefined. The model proves what libstdc++'s heap algorithm does with this comparator. `PifoHeap.PushHeap` follows `__push_heap`'s sift-up guard, and the `PopHeap` difference is described above. Only the order of equal-rank entries could differ.
- The node lifecycle (unconfigured, configured, active) is not enforced. `CheckConfig` is a query, and configuration and traffic calls may interleave.
