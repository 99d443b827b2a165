/**
 * The records stored inside a PIFO (push-in first-out priority queue) of a
 * PIFO scheduling tree, and the fixed-width integer types their fields use.
 */
module PifoEntries {

  type uint8 = x: int | 0 <= x < 0x100
  type uint32 = x: int | 0 <= x < 0x1_0000_0000
  type int64 = x: int | -0x8000_0000_0000_0000 <= x < 0x8000_0000_0000_0000

  /** Handle of a queued packet (the queue disc item a leaf entry hands over). */
  type ItemRef = nat

  /**
   * What an entry stands for: a packet held by a leaf node, or, in a non-leaf
   * node, a reference to the PIFO `pifoId` of the child at position `nodeId`
   * of the node's children.  Exactly one of the two, fixed at creation.
   */
  datatype EntryRef =
    | Item(item: ItemRef)
    | ChildRef(nodeId: uint8, pifoId: uint8)

  /** One PIFO entry: what it refers to plus the scheduling fields. */
  datatype PifoEntry = PifoEntry(
    ref: EntryRef,
    rank: uint32,       // lower rank leaves the PIFO earlier
    txTime: int64,      // time at which the entry may be transmitted
    txDelta: uint32,    // the same, relative to the previous packet of the PIFO
    pktLen: uint32)     // length of the corresponding packet

  /** The priority of an entry is its rank. */
  function GetPriority(e: PifoEntry): (p: uint32)
    ensures p == e.rank
  {
    e.rank
  }

  /** The size of an entry is the length of its packet. */
  function GetSize(e: PifoEntry): (n: uint32)
    ensures n == e.pktLen
  {
    e.pktLen
  }

  /**
   * The PIFO's ordering functor: `lhs` sits below `rhs` in the heap when its
   * priority is greater than OR EQUAL to that of `rhs`.  Because it is not
   * strict, nothing orders entries of equal rank.
   */
  function PifoEntryComp(lhs: PifoEntry, rhs: PifoEntry): (below: bool)
    ensures GetPriority(lhs) == GetPriority(rhs) ==> below
    ensures GetPriority(lhs) > GetPriority(rhs) ==> below
    ensures below ==> GetPriority(rhs) <= GetPriority(lhs)
  {
    GetPriority(lhs) >= GetPriority(rhs)
  }

  /** `e` is an entry of least rank among `m`. */
  ghost predicate IsMinOf(e: PifoEntry, m: multiset<PifoEntry>) {
    e in m && forall x :: x in m ==> e.rank <= x.rank
  }
}
