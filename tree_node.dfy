/**
 * The configuration of one node of a PIFO scheduling tree, as stored in the
 * tree's arena, and the read-only queries on it.
 */
module PifoTreeNodes {
  import opened PifoEntries
  import opened Pifos

  datatype Option<T> = None | Some(value: T)

  /**
   * One node.  Nodes live in an arena and are named by their global ID, their
   * position in it.  `children` holds the children's global IDs in the order
   * they were added, so a child's local ID is its position there, and
   * `global2Local` maps each child's global ID back to that position.
   * `hasEnqLogic` / `hasDeqLogic` record that a pipeline has been installed.
   */
  datatype PifoTreeNode = PifoTreeNode(
    isLeaf: bool,
    parent: Option<nat>,
    children: seq<nat>,
    global2Local: map<nat, uint8>,
    pifos: seq<Pifo>,
    hasEnqLogic: bool,
    hasDeqLogic: bool)

  /** Local IDs are 8 bits wide, which bounds the number of children. */
  const MaxChildren: nat := 0x100

  /** `global2Local` and `children` are inverse to each other. */
  ghost predicate LocalIdsOk(node: PifoTreeNode) {
    && |node.children| <= MaxChildren
    && (forall k :: 0 <= k < |node.children| ==>
          node.children[k] in node.global2Local && node.global2Local[node.children[k]] == k)
    && (forall gid :: gid in node.global2Local ==>
          node.global2Local[gid] < |node.children| && node.children[node.global2Local[gid]] == gid)
  }

  /** A freshly constructed node: no parent, no children, no PIFOs, no pipelines. */
  function NewNode(isLeaf: bool): (node: PifoTreeNode)
    ensures LocalIdsOk(node) && node.isLeaf == isLeaf
    ensures node.parent.None? && node.children == [] && node.pifos == []
    ensures !node.hasEnqLogic && !node.hasDeqLogic
  {
    PifoTreeNode(isLeaf, None, [], map[], [], false, false)
  }

  /**
   * The local ID of the child whose global ID is `gid`: its position among
   * the children, or None when `gid` is not a child of this node.
   */
  function GetLocalNodeID(node: PifoTreeNode, gid: nat): (r: Option<uint8>)
    requires LocalIdsOk(node)
    ensures r.Some? <==> gid in node.children
    ensures r.Some? ==> r.value < |node.children| && node.children[r.value] == gid
  {
    if gid in node.global2Local then Some(node.global2Local[gid]) else None
  }

  /**
   * The node with `c` appended to its children: `c` gets the next local ID,
   * every other global ID keeps the local ID it had (or its lack of one).
   */
  function WithChild(node: PifoTreeNode, c: nat): (n: PifoTreeNode)
    requires LocalIdsOk(node) && c !in node.children && |node.children| < MaxChildren
    ensures LocalIdsOk(n)
    ensures n.children == node.children + [c]
    ensures n == node.(children := n.children, global2Local := n.global2Local)
    ensures GetLocalNodeID(n, c) == Some(|node.children|)
    ensures forall x :: x != c ==> GetLocalNodeID(n, x) == GetLocalNodeID(node, x)
  {
    node.(children := node.children + [c], global2Local := node.global2Local[c := |node.children|])
  }

  /** Two different children never share a local ID. */
  lemma LocalIdsInjective(node: PifoTreeNode, a: nat, b: nat)
    requires LocalIdsOk(node)
    requires GetLocalNodeID(node, a).Some? && GetLocalNodeID(node, a) == GetLocalNodeID(node, b)
    ensures a == b
  {
  }

  /**
   * The node's own configuration check: a leaf needs a PIFO and no children;
   * an inner node needs a child and both pipelines.
   */
  function CheckConfig(node: PifoTreeNode): (ok: bool)
    ensures ok ==> (node.isLeaf <==> node.children == [])
    ensures ok && node.isLeaf ==> |node.pifos| > 0
    ensures ok && !node.isLeaf ==> node.hasEnqLogic && node.hasDeqLogic
    ensures node.isLeaf && node.pifos != [] && node.children == [] ==> ok
    ensures !node.isLeaf && node.children != [] && node.hasEnqLogic && node.hasDeqLogic ==> ok
  {
    if node.isLeaf then
      |node.pifos| >= 1 && |node.children| == 0
    else
      |node.children| >= 1 && node.hasEnqLogic && node.hasDeqLogic
  }
}
