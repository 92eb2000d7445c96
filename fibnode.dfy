/**
 * The node of a Fibonacci heap (struct Node of FibHeap/FibHeap.h) and its
 * ghost snapshot.
 *
 * A `Cell` holds the values of every field of one node. The heap keeps a
 * ghost map from its nodes to their cells that always agrees with the nodes
 * themselves, so that the shape of the structure can be described by pure
 * predicates over that map (module Forests) instead of over the object heap.
 */
module FibNodes {

  /** The C++ `unsigned int` of the `degree` field. */
  newtype u32 = x: int | 0 <= x < 0x1_0000_0000

  /** `++d` on an unsigned 32-bit value: addition modulo 2^32. */
  function Inc(d: u32): (r: u32)
    ensures r as int == (d as int + 1) % 0x1_0000_0000
  {
    if d == 0xFFFF_FFFF then 0 else d + 1
  }

  /** `--d` on an unsigned 32-bit value: subtraction modulo 2^32. */
  function Dec(d: u32): (r: u32)
    ensures r as int == (d as int - 1) % 0x1_0000_0000
  {
    if d == 0 then 0xFFFF_FFFF else d - 1
  }

  /** One key of the heap with its structural links. */
  class Node {
    var key: int
    var parent: Node?
    var child: Node?
    var left: Node?
    var right: Node?
    var degree: u32
    var mark: bool

    /** A fresh node: no links, degree 0, unmarked (FibHeap/FibHeap.h:7-9). */
    constructor (k: int)
      ensures CellOf(this) == Detached(k)
    {
      key := k;
      parent, child, left, right := null, null, null, null;
      degree := 0;
      mark := false;
    }

    /** Forget every link of the node; only its key survives
        (FibHeap/FibHeap.h:13-17). */
    method Clear()
      modifies this
      ensures CellOf(this) == Detached(old(key))
    {
      parent, child, left, right := null, null, null, null;
      degree := 0;
      mark := false;
    }
  }

  /** The field values of one node. */
  datatype Cell = Cell(key: int, parent: Node?, child: Node?, left: Node?, right: Node?,
                       degree: u32, mark: bool)

  /** The cell of a node with key `k` and no links: a fresh or a cleared node. */
  function Detached(k: int): Cell {
    Cell(k, null, null, null, null, 0, false)
  }

  /** The current field values of `nd`. */
  ghost function CellOf(nd: Node): Cell
    reads nd
  {
    Cell(nd.key, nd.parent, nd.child, nd.left, nd.right, nd.degree, nd.mark)
  }
}
