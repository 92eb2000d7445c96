/**
 * The union constructor (FibHeap/FibHeap.h:75-91) on forest values: the
 * root lists of two heaps are cut open after their minima and joined
 * crosswise, and the new minimum is the second heap's only when its key is
 * strictly smaller.
 */
module Uniting {
  import opened FibNodes
  import opened Rings
  import opened Forests

  /** What union needs of the two heaps: they share no node, and each
      minimum, when there is one, has a right neighbour in its own heap. */
  predicate Apart(c1: Cells, m1: Node?, c2: Cells, m2: Node?) {
    c1.Keys !! c2.Keys &&
    (m1 != null ==> m1 in c1 && c1[m1].right != null && c1[m1].right in c1) &&
    (m2 != null ==> m2 in c2 && c2[m2].right != null && c2[m2].right in c2)
  }

  /** The crosswise splice of FibHeap/FibHeap.h:79-84: `y1` and `y2` are
      the right neighbours of `m1` and `m2` before any write. */
  function CrossCells(c: Cells, m1: Node, m2: Node): Cells
    requires m1 in c && m2 in c
    requires c[m1].right != null && c[m1].right in c && c[m2].right != null && c[m2].right in c
  {
    var y1 := c[m1].right;
    var y2 := c[m2].right;
    WithRight(WithLeft(WithRight(WithLeft(c, y1, m2), m2, y1), y2, m1), m1, y2)
  }

  /** The cells of the united heap: the splice happens only when both
      heaps are non-empty. */
  function UnionCells(c1: Cells, m1: Node?, c2: Cells, m2: Node?): Cells
    requires Apart(c1, m1, c2, m2)
  {
    if m1 != null && m2 != null then CrossCells(c1 + c2, m1, m2) else c1 + c2
  }

  /** The new minimum: the second heap's when the first is empty or its key
      is strictly smaller; ties keep the first heap's. */
  function UnionMin(c1: Cells, m1: Node?, c2: Cells, m2: Node?): Node?
    requires Apart(c1, m1, c2, m2)
  {
    if m1 == null || (m2 != null && c2[m2].key < c1[m1].key) then m2 else m1
  }

  /** The joined root list, entered at the new minimum. */
  function UnionRoots(r1: seq<Node>, r2: seq<Node>, second: bool): seq<Node> {
    if r1 == [] then r2
    else if r2 == [] then r1
    else if second then [r2[0]] + r1[1..] + [r1[0]] + r2[1..]
    else [r1[0]] + r2[1..] + [r2[0]] + r1[1..]
  }

  /** The forest of the united heap. */
  function UnionForest(f1: Forest, m1: Node?, f2: Forest, m2: Node?): Forest
    requires Apart(f1.cells, m1, f2.cells, m2)
  {
    var second := m1 != null && m2 != null && f2.cells[m2].key < f1.cells[m1].key;
    Forest(UnionCells(f1.cells, m1, f2.cells, m2), f1.nodes + f2.nodes,
           UnionRoots(f1.roots, f2.roots, second), f1.kids + f2.kids, f1.level + f2.level,
           if f1.top < f2.top then f2.top else f1.top)
  }

  /** What the crosswise splice does, node by node: only the right links of
      `m1` and `m2` and the left links of their old right neighbours
      change. */
  lemma CrossFacts(c: Cells, m1: Node, m2: Node)
    requires m1 in c && m2 in c && m1 != m2
    requires c[m1].right != null && c[m1].right in c && c[m2].right != null && c[m2].right in c
    requires c[m1].right != m2 && c[m2].right != m1 && c[m1].right != c[m2].right
    ensures var c' := CrossCells(c, m1, m2); var y1, y2 := c[m1].right, c[m2].right;
            c'.Keys == c.Keys &&
            c'[m1].right == y2 && c'[y2].left == m1 && c'[m2].right == y1 && c'[y1].left == m2 &&
            (forall nd :: nd in c ==> SameFields(c'[nd], c[nd])) &&
            (forall nd :: nd in c && nd != m1 && nd != m2 ==> c'[nd].right == c[nd].right) &&
            (forall nd :: nd in c && nd != y1 && nd != y2 ==> c'[nd].left == c[nd].left) &&
            (forall nd :: nd in c && nd != m1 && nd != m2 && nd != y1 && nd != y2 ==> c'[nd] == c[nd])
  {
    var y1, y2 := c[m1].right, c[m2].right;
    var a := WithLeft(c, y1, m2);
    var b := WithRight(a, m2, y1);
    var d := WithLeft(b, y2, m1);
    var e := WithRight(d, m1, y2);
    assert CrossCells(c, m1, m2) == e;
    assert a[y1].left == m2;
    assert b[y1].left == m2 && b[m2].right == y1;
    assert d[y1].left == m2 && d[m2].right == y1 && d[y2].left == m1;
  }

  /** What union does to the cells, node by node. */
  lemma UnionCellsFacts(c1: Cells, m1: Node?, c2: Cells, m2: Node?)
    requires Apart(c1, m1, c2, m2)
    ensures var c := UnionCells(c1, m1, c2, m2);
            c.Keys == c1.Keys + c2.Keys &&
            (forall nd :: nd in c1 ==> SameFields(c[nd], c1[nd])) &&
            (forall nd :: nd in c2 ==> SameFields(c[nd], c2[nd]))
    ensures m1 == null || m2 == null ==> UnionCells(c1, m1, c2, m2) == c1 + c2
    ensures m1 != null && m2 != null ==>
            var c := UnionCells(c1, m1, c2, m2); var y1, y2 := c1[m1].right, c2[m2].right;
            c[m1].right == y2 && c[y2].left == m1 && c[m2].right == y1 && c[y1].left == m2 &&
            (forall nd :: nd in c1 && nd != m1 ==> c[nd].right == c1[nd].right) &&
            (forall nd :: nd in c2 && nd != m2 ==> c[nd].right == c2[nd].right) &&
            (forall nd :: nd in c1 && nd != y1 ==> c[nd].left == c1[nd].left) &&
            (forall nd :: nd in c2 && nd != y2 ==> c[nd].left == c2[nd].left)
  {
    hide CrossCells;
    if m1 != null && m2 != null {
      CrossFacts(c1 + c2, m1, m2);
    }
  }

  /** Union keeps every node tidy. */
  lemma UnionTidy(f1: Forest, m1: Node?, f2: Forest, m2: Node?)
    requires Closed(f1, m1) && Closed(f2, m2) && Apart(f1.cells, m1, f2.cells, m2)
    ensures var c := UnionCells(f1.cells, m1, f2.cells, m2);
            forall nd {:trigger Tidy(c, nd)} :: nd in c ==> Tidy(c, nd)
  {
    var c1, c2 := f1.cells, f2.cells;
    var c := UnionCells(c1, m1, c2, m2);
    UnionCellsFacts(c1, m1, c2, m2);
    if m1 != null && m2 != null {
      assert Tidy(c1, m1) && Tidy(c2, m2);
    }
    forall nd | nd in c ensures Tidy(c, nd) {
      if nd in c1 {
        assert Tidy(c1, nd);
        var k := c1[nd];
        assert k.right in c1 && k.left in c1;
        if m1 != null && m2 != null {
          assert Tidy(c1, k.right) && Tidy(c1, k.left);
        }
      } else {
        assert Tidy(c2, nd);
        var k := c2[nd];
        assert k.right in c2 && k.left in c2;
        if m1 != null && m2 != null {
          assert Tidy(c2, k.right) && Tidy(c2, k.left);
        }
      }
    }
  }

  /** Union keeps the node list and every node tidy. */
  lemma UnionClosed(f1: Forest, m1: Node?, f2: Forest, m2: Node?)
    requires Closed(f1, m1) && Closed(f2, m2) && Apart(f1.cells, m1, f2.cells, m2)
    ensures Closed(UnionForest(f1, m1, f2, m2), UnionMin(f1.cells, m1, f2.cells, m2))
  {
    var g := UnionForest(f1, m1, f2, m2);
    UnionCellsFacts(f1.cells, m1, f2.cells, m2);
    UnionTidy(f1, m1, f2, m2);
    var a, b := f1.nodes, f2.nodes;
    forall i, j | 0 <= i < j < |g.nodes| ensures g.nodes[i] != g.nodes[j] {
      if j < |a| {
        assert a[i] != a[j];
      } else if i >= |a| {
        assert b[i - |a|] != b[j - |a|];
      } else {
        assert a[i] in f1.cells && b[j - |a|] in f2.cells;
      }
    }
  }

  /** The ghost maps cover both heaps. */
  lemma UnionIndexed(f1: Forest, m1: Node?, f2: Forest, m2: Node?)
    requires Indexed(f1) && Indexed(f2) && Apart(f1.cells, m1, f2.cells, m2)
    ensures Indexed(UnionForest(f1, m1, f2, m2))
  {
    UnionCellsFacts(f1.cells, m1, f2.cells, m2);
  }

  /** The two orders of the joined list are rotations of each other and
      hold the members of both lists. */
  lemma CrossOrder(a: seq<Node>, b: seq<Node>)
    requires a != [] && b != []
    ensures var s := [a[0]] + b[1..] + [b[0]] + a[1..];
            s[|b|..] + s[..|b|] == [b[0]] + a[1..] + [a[0]] + b[1..] &&
            (forall v :: v in s <==> v in a || v in b) &&
            (forall v :: v in s[|b|..] + s[..|b|] <==> v in a || v in b)
  {
    var s := [a[0]] + b[1..] + [b[0]] + a[1..];
    assert s[..|b|] == [a[0]] + b[1..];
    assert s[|b|..] == [b[0]] + a[1..];
    assert a == [a[0]] + a[1..] && b == [b[0]] + b[1..];
  }

  /** A list drawn from parentless nodes is parentless. */
  lemma Parentless(rs: seq<Node>, c: Cells, a: seq<Node>, b: seq<Node>)
    requires forall v :: v in rs ==> v in a || v in b
    requires forall v :: v in a ==> v in c && c[v].parent == null
    requires forall v :: v in b ==> v in c && c[v].parent == null
    ensures forall i :: 0 <= i < |rs| ==> rs[i] in c && c[rs[i]].parent == null
  {
    forall i | 0 <= i < |rs| ensures rs[i] in c && c[rs[i]].parent == null {
      assert rs[i] in rs;
    }
  }

  /** When both heaps are non-empty, the crosswise splice joins their root
      lists into one. */
  lemma UnionRing(f1: Forest, m1: Node, f2: Forest, m2: Node)
    requires RootList(f1, m1) && RootList(f2, m2) && Apart(f1.cells, m1, f2.cells, m2)
    ensures var a, b := f1.roots, f2.roots;
            a != [] && b != [] &&
            Ring(UnionCells(f1.cells, m1, f2.cells, m2), [a[0]] + b[1..] + [b[0]] + a[1..])
  {
    hide UnionCells;
    var c1, c2 := f1.cells, f2.cells;
    var c := UnionCells(c1, m1, c2, m2);
    var a, b := f1.roots, f2.roots;
    UnionCellsFacts(c1, m1, c2, m2);
    SecondRoot(f1, m1);
    SecondRoot(f2, m2);
    RootsIn(f1, m1);
    RootsIn(f2, m2);
    RingFrame(c1, c1 + c2, a);
    RingFrame(c2, c1 + c2, b);
    RingCross(c1 + c2, c, a, b);
  }

  /** The joined root list, case by case, and its members. */
  lemma UnionRootsFacts(a: seq<Node>, b: seq<Node>, second: bool)
    ensures forall v :: v in UnionRoots(a, b, second) <==> v in a || v in b
    ensures a == [] ==> UnionRoots(a, b, second) == b
    ensures a != [] && b == [] ==> UnionRoots(a, b, second) == a
    ensures a != [] && b != [] ==>
            UnionRoots(a, b, second) != [] &&
            UnionRoots(a, b, second)[0] == if second then b[0] else a[0]
    ensures a != [] && b != [] ==>
            var s := [a[0]] + b[1..] + [b[0]] + a[1..];
            UnionRoots(a, b, second) == if second then s[|b|..] + s[..|b|] else s
  {
    if a != [] && b != [] {
      CrossOrder(a, b);
    }
  }

  /** The joined root list is a circular list in the united cells. */
  lemma UnionRootsRing(f1: Forest, m1: Node?, f2: Forest, m2: Node?)
    requires RootList(f1, m1) && RootList(f2, m2) && Apart(f1.cells, m1, f2.cells, m2)
    ensures var g := UnionForest(f1, m1, f2, m2); Ring(g.cells, g.roots)
  {
    hide UnionCells, UnionRoots;
    var c1, c2 := f1.cells, f2.cells;
    var g := UnionForest(f1, m1, f2, m2);
    var c := g.cells;
    var a, b := f1.roots, f2.roots;
    var second := m1 != null && m2 != null && c2[m2].key < c1[m1].key;
    assert g.roots == UnionRoots(a, b, second);
    UnionRootsFacts(a, b, second);
    UnionCellsFacts(c1, m1, c2, m2);
    RootsIn(f1, m1);
    RootsIn(f2, m2);
    if m1 != null && m2 != null {
      UnionRing(f1, m1, f2, m2);
      var s := [a[0]] + b[1..] + [b[0]] + a[1..];
      if second {
        RingRotate(c, s, |b|);
      }
    } else if m1 != null {
      RingFrame(c1, c, a);
    } else {
      RingFrame(c2, c, b);
    }
  }

  /** The joined root list is one circular list of parentless nodes
      entered at the new minimum, with the roots of both heaps. */
  lemma UnionRootList(f1: Forest, m1: Node?, f2: Forest, m2: Node?)
    requires RootList(f1, m1) && RootList(f2, m2) && Apart(f1.cells, m1, f2.cells, m2)
    ensures var g := UnionForest(f1, m1, f2, m2);
            RootList(g, UnionMin(f1.cells, m1, f2.cells, m2)) &&
            forall v :: v in g.roots <==> v in f1.roots || v in f2.roots
  {
    hide UnionCells, UnionRoots, Ring;
    var c1, c2 := f1.cells, f2.cells;
    var g := UnionForest(f1, m1, f2, m2);
    var c := g.cells;
    var a, b := f1.roots, f2.roots;
    var second := m1 != null && m2 != null && c2[m2].key < c1[m1].key;
    assert g.roots == UnionRoots(a, b, second);
    UnionRootsFacts(a, b, second);
    UnionCellsFacts(c1, m1, c2, m2);
    RootsIn(f1, m1);
    RootsIn(f2, m2);
    UnionRootsRing(f1, m1, f2, m2);
    forall v | v in a ensures v in c && c[v].parent == null {
      assert SameFields(c[v], c1[v]);
    }
    forall v | v in b ensures v in c && c[v].parent == null {
      assert SameFields(c[v], c2[v]);
    }
    Parentless(g.roots, c, a, b);
  }

  /** Union leaves every node that has a parent exactly as it was. */
  lemma UnionInner(f1: Forest, m1: Node?, f2: Forest, m2: Node?)
    requires RootList(f1, m1) && RootList(f2, m2) && Apart(f1.cells, m1, f2.cells, m2)
    ensures var c := UnionCells(f1.cells, m1, f2.cells, m2);
            (forall v :: v in f1.cells && f1.cells[v].parent != null ==> v in c && c[v] == f1.cells[v]) &&
            (forall v :: v in f2.cells && f2.cells[v].parent != null ==> v in c && c[v] == f2.cells[v])
  {
    hide CrossCells;
    var c1, c2 := f1.cells, f2.cells;
    if m1 != null && m2 != null {
      SecondRoot(f1, m1);
      SecondRoot(f2, m2);
      CrossFacts(c1 + c2, m1, m2);
    }
  }

  /** Union keeps every node of both heaps placed. */
  lemma UnionPlaced(f1: Forest, m1: Node?, f2: Forest, m2: Node?)
    requires Shape(f1, m1) && Shape(f2, m2) && Apart(f1.cells, m1, f2.cells, m2)
    ensures AllPlaced(UnionForest(f1, m1, f2, m2))
  {
    hide UnionCells;
    var g := UnionForest(f1, m1, f2, m2);
    var c1, c2, c := f1.cells, f2.cells, g.cells;
    UnionCellsFacts(c1, m1, c2, m2);
    UnionRootList(f1, m1, f2, m2);
    UnionInner(f1, m1, f2, m2);
    forall nd | nd in c1 ensures Placed(g, nd) {
      assert Placed(f1, nd) && Tidy(c1, nd);
      PlacedFrame(f1, g, nd);
    }
    forall nd | nd in c2 ensures Placed(g, nd) {
      assert Placed(f2, nd) && Tidy(c2, nd);
      PlacedFrame(f2, g, nd);
    }
  }

  /** The new minimum is the least key of both heaps. */
  lemma UnionLeast(f1: Forest, m1: Node?, f2: Forest, m2: Node?)
    requires MinIsLeast(f1, m1) && MinIsLeast(f2, m2) && Apart(f1.cells, m1, f2.cells, m2)
    requires m1 == null ==> f1.cells == map[]
    requires m2 == null ==> f2.cells == map[]
    ensures MinIsLeast(UnionForest(f1, m1, f2, m2), UnionMin(f1.cells, m1, f2.cells, m2))
  {
    UnionCellsFacts(f1.cells, m1, f2.cells, m2);
  }

  /** The united heap holds the keys of both. */
  lemma UnionKeys(f1: Forest, m1: Node?, f2: Forest, m2: Node?)
    requires forall nd :: nd in f1.nodes ==> nd in f1.cells
    requires forall nd :: nd in f2.nodes ==> nd in f2.cells
    requires Apart(f1.cells, m1, f2.cells, m2)
    ensures var g := UnionForest(f1, m1, f2, m2);
            (forall nd :: nd in g.nodes ==> nd in g.cells) && Keys(g) == Keys(f1) + Keys(f2)
  {
    hide UnionCells;
    var c := UnionCells(f1.cells, m1, f2.cells, m2);
    UnionCellsFacts(f1.cells, m1, f2.cells, m2);
    assert forall nd :: nd in f1.nodes ==> nd in c && c[nd].key == f1.cells[nd].key by {
      forall nd | nd in f1.nodes ensures nd in c && c[nd].key == f1.cells[nd].key {
        assert SameFields(c[nd], f1.cells[nd]);
      }
    }
    assert forall nd :: nd in f2.nodes ==> nd in c && c[nd].key == f2.cells[nd].key by {
      forall nd | nd in f2.nodes ensures nd in c && c[nd].key == f2.cells[nd].key {
        assert SameFields(c[nd], f2.cells[nd]);
      }
    }
    KeysOfAppend(c, f1.nodes, f2.nodes);
    KeysOfFrame(f1.cells, c, f1.nodes);
    KeysOfFrame(f2.cells, c, f2.nodes);
  }

  /** Union keeps the forest shape, holds the nodes and keys of both heaps,
      and its minimum is the least key. */
  lemma UnionValid(f1: Forest, m1: Node?, f2: Forest, m2: Node?)
    requires Valid(f1, m1) && Valid(f2, m2) && f1.cells.Keys !! f2.cells.Keys
    ensures Apart(f1.cells, m1, f2.cells, m2)
    ensures var g := UnionForest(f1, m1, f2, m2);
            Valid(g, UnionMin(f1.cells, m1, f2.cells, m2)) &&
            g.cells.Keys == f1.cells.Keys + f2.cells.Keys &&
            Keys(g) == Keys(f1) + Keys(f2)
  {
    EmptyIffNoMin(f1, m1);
    EmptyIffNoMin(f2, m2);
    if m1 != null {
      assert Tidy(f1.cells, m1);
    }
    if m2 != null {
      assert Tidy(f2.cells, m2);
    }
    UnionCellsFacts(f1.cells, m1, f2.cells, m2);
    UnionClosed(f1, m1, f2, m2);
    UnionIndexed(f1, m1, f2, m2);
    UnionRootList(f1, m1, f2, m2);
    UnionPlaced(f1, m1, f2, m2);
    UnionLeast(f1, m1, f2, m2);
    UnionKeys(f1, m1, f2, m2);
  }
}
