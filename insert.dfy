/**
 * insert (FibHeap/FibHeap.h:93-109) on the forest value: a fresh node
 * becomes a root just left of `min`, and the minimum when its key is
 * strictly smaller.
 */
module Inserting {
  import opened FibNodes
  import opened Rings
  import opened Forests

  /** `x` spliced into a circular list just left of `m`
      (FibHeap/FibHeap.h:101-104). */
  function SpliceCells(c: Cells, m: Node, x: Node): Cells
    requires m in c && x in c && c[m].left != null && c[m].left in c
  {
    var l := c[m].left;
    WithRight(WithLeft(WithLeft(WithRight(c, l, x), x, l), m, x), x, m)
  }

  /** What insert needs of the cells: `x` is new, and `min`, when there is
      one, has a left neighbour. */
  predicate Room(c: Cells, m: Node?, x: Node) {
    x !in c && (m != null ==> m in c && c[m].left != null && c[m].left in c)
  }

  /** The cells after insert links the fresh node `x` with key `k`: a
      self-loop when there is no `m`, otherwise spliced just left of `m`. */
  function InsertCells(c: Cells, m: Node?, x: Node, k: int): Cells
    requires Room(c, m, x)
  {
    var c0 := c[x := Detached(k)];
    if m == null then WithLeft(WithRight(c0, x, x), x, x) else SpliceCells(c0, m, x)
  }

  /** The new minimum: `x` when the heap was empty or `k` is strictly
      smaller than the old minimum's key; ties keep the old one. */
  function InsertMin(c: Cells, m: Node?, x: Node, k: int): Node?
    requires m != null ==> m in c
  {
    if m == null || k < c[m].key then x else m
  }

  /** The forest after insert. */
  function InsertForest(f: Forest, m: Node?, x: Node, k: int): Forest
    requires Room(f.cells, m, x)
  {
    var rs := if m == null then [x] else if k < f.cells[m].key then [x] + f.roots else f.roots + [x];
    Forest(InsertCells(f.cells, m, x, k), f.nodes + [x], rs,
           f.kids[x := []], f.level[x := 0], f.top)
  }

  /** What the splice of insert does to the cells, node by node. */
  lemma InsertCellsFacts(c: Cells, m: Node?, x: Node, k: int)
    requires Room(c, m, x)
    ensures var c1 := InsertCells(c, m, x, k);
            c1.Keys == c.Keys + {x} &&
            c1[x] == Cell(k, null, null, if m == null then x else c[m].left, if m == null then x else m, 0, false) &&
            (forall nd :: nd in c ==> SameFields(c1[nd], c[nd])) &&
            (forall nd :: nd in c && nd != m && (m == null || nd != c[m].left) ==> c1[nd] == c[nd])
    ensures m != null ==> var c1 := InsertCells(c, m, x, k); var l := c[m].left;
            c1[l].right == x && c1[m].left == x &&
            (l != m ==> c1[l].left == c[l].left && c1[m].right == c[m].right)
  {
  }

  /** insert changes no key but the new one. */
  lemma InsertCellsKeys(c: Cells, m: Node?, x: Node, k: int)
    requires Room(c, m, x)
    ensures var c1 := InsertCells(c, m, x, k);
            c1.Keys == c.Keys + {x} && c1[x].key == k &&
            forall nd :: nd in c ==> c1[nd].key == c[nd].key
  {
  }

  /** A change that only relinks roots, and adds the parentless and
      childless `x`, keeps every node placed. */
  lemma RelinkPlaced(f: Forest, g: Forest, x: Node)
    requires Indexed(f) && AllPlaced(f) && x !in f.cells
    requires g.cells.Keys == f.cells.Keys + {x}
    requires g.kids == f.kids[x := []] && g.level == f.level[x := 0] && g.top == f.top
    requires forall v :: v in f.roots ==> v in g.roots
    requires x in g.roots
    requires forall nd :: nd in f.cells ==> SameFields(g.cells[nd], f.cells[nd])
    requires forall nd :: nd in f.cells && f.cells[nd].parent != null ==> g.cells[nd] == f.cells[nd]
    requires g.cells[x].parent == null && g.cells[x].degree == 0 && g.cells[x].child == null
    ensures AllPlaced(g)
  {
    var c, c1 := f.cells, g.cells;
    forall nd | nd in c1 ensures Placed(g, nd) {
      if nd != x {
        assert Placed(f, nd);
        var ks := f.kids[nd];
        forall v | v in ks ensures v in c && v in c1 && c1[v].left == c[v].left && c1[v].right == c[v].right {
          var i := IndexOf(ks, v);
          assert c[ks[i]].parent == nd;
        }
        RingFrame(c, c1, ks);
      }
    }
  }

  /** insert keeps every node tidy. */
  lemma InsertTidy(f: Forest, m: Node?, x: Node, k: int)
    requires Closed(f, m)
    requires Room(f.cells, m, x)
    ensures var c1 := InsertCells(f.cells, m, x, k);
            forall nd {:trigger Tidy(c1, nd)} :: nd in c1 ==> Tidy(c1, nd)
  {
    var c := f.cells;
    var c1 := InsertCells(c, m, x, k);
    InsertCellsFacts(c, m, x, k);
    if m != null {
      assert Tidy(c, m);
      var l := c[m].left;
      assert c[l].right == m;
    }
    forall nd | nd in c1 ensures Tidy(c1, nd) {
      if nd != x {
        assert Tidy(c, nd);
      }
    }
  }

  /** The ghost maps gain an entry for `x`. */
  lemma InsertIndexed(f: Forest, m: Node?, x: Node, k: int)
    requires Indexed(f)
    requires Room(f.cells, m, x)
    ensures Indexed(InsertForest(f, m, x, k))
  {
    InsertCellsFacts(f.cells, m, x, k);
  }

  /** insert keeps the node list and every node tidy. */
  lemma InsertClosed(f: Forest, m: Node?, x: Node, k: int)
    requires Closed(f, m)
    requires Room(f.cells, m, x)
    ensures Closed(InsertForest(f, m, x, k), InsertMin(f.cells, m, x, k))
  {
    var g := InsertForest(f, m, x, k);
    InsertCellsFacts(f.cells, m, x, k);
    InsertTidy(f, m, x, k);
    forall i, j | 0 <= i < j < |g.nodes| ensures g.nodes[i] != g.nodes[j] {
      if j < |f.nodes| {
        assert f.nodes[i] != f.nodes[j];
      } else {
        assert f.nodes[i] in f.cells;
      }
    }
  }

  /** The root list grown by `x` at its back, just left of `m`. */
  lemma InsertSplice(f: Forest, m: Node, x: Node, k: int)
    requires RootList(f, m) && Room(f.cells, m, x)
    ensures Ring(InsertCells(f.cells, m, x, k), f.roots + [x])
  {
    var c := f.cells;
    var r0 := f.roots;
    var c1 := InsertCells(c, m, x, k);
    InsertCellsFacts(c, m, x, k);
    assert Linked(c, r0[|r0| - 1], r0[0]);
    assert forall v :: v in r0 ==> v in c && v in c1 by {
      forall v | v in r0 ensures v in c {
        var i := IndexOf(r0, v);
      }
    }
    RingAppend(c, c1, r0, x);
  }

  /** insert joins `x` to the root list: in front when it becomes the
      minimum, otherwise at the back, just left of `m`. */
  lemma InsertRoots(f: Forest, m: Node?, x: Node, k: int)
    requires RootList(f, m)
    requires Room(f.cells, m, x)
    ensures var g := InsertForest(f, m, x, k);
            RootList(g, InsertMin(f.cells, m, x, k)) &&
            (forall v :: v in g.roots <==> v in f.roots || v == x)
  {
    var g := InsertForest(f, m, x, k);
    InsertCellsFacts(f.cells, m, x, k);
    if m != null {
      InsertSplice(f, m, x, k);
      if k < f.cells[m].key {
        RotateLast(g.cells, f.roots, x);
      }
    }
    forall i | 0 <= i < |g.roots| ensures g.roots[i] in g.cells && g.cells[g.roots[i]].parent == null {
      if g.roots[i] != x {
        var j := IndexOf(f.roots, g.roots[i]);
      }
    }
  }

  /** After insert the minimum is still the least key. */
  lemma InsertLeast(f: Forest, m: Node?, x: Node, k: int)
    requires MinIsLeast(f, m) && (m == null ==> f.cells == map[])
    requires Room(f.cells, m, x)
    ensures MinIsLeast(InsertForest(f, m, x, k), InsertMin(f.cells, m, x, k))
  {
    InsertCellsFacts(f.cells, m, x, k);
  }

  /** insert adds exactly the key `k`. */
  lemma InsertKeys(f: Forest, m: Node?, x: Node, k: int)
    requires forall nd :: nd in f.nodes ==> nd in f.cells
    requires Room(f.cells, m, x)
    ensures var g := InsertForest(f, m, x, k);
            (forall nd :: nd in g.nodes ==> nd in g.cells) && Keys(g) == Keys(f) + multiset{k}
  {
    hide InsertCells;
    var c1 := InsertCells(f.cells, m, x, k);
    InsertCellsKeys(f.cells, m, x, k);
    KeysOfAppend(c1, f.nodes, [x]);
    KeysOfFrame(f.cells, c1, f.nodes);
    assert KeysOf(c1, [x]) == multiset{k};
  }

  /** insert keeps every node placed. */
  lemma InsertPlaced(f: Forest, m: Node?, x: Node, k: int)
    requires Indexed(f) && AllPlaced(f) && RootList(f, m)
    requires Room(f.cells, m, x)
    ensures AllPlaced(InsertForest(f, m, x, k))
  {
    InsertCellsFacts(f.cells, m, x, k);
    InsertRoots(f, m, x, k);
    RelinkPlaced(f, InsertForest(f, m, x, k), x);
  }

  /** insert keeps the forest shape. */
  lemma InsertShape(f: Forest, m: Node?, x: Node, k: int)
    requires Shape(f, m)
    requires Room(f.cells, m, x)
    ensures Shape(InsertForest(f, m, x, k), InsertMin(f.cells, m, x, k))
  {
    InsertRoots(f, m, x, k);
    InsertClosed(f, m, x, k);
    InsertIndexed(f, m, x, k);
    InsertPlaced(f, m, x, k);
  }

  /** insert keeps the forest, adds exactly the key `k`, and makes `x` a
      childless unmarked root of degree 0. */
  lemma InsertValid(f: Forest, m: Node?, x: Node, k: int)
    requires Valid(f, m) && x !in f.cells
    ensures Room(f.cells, m, x)
    ensures var g := InsertForest(f, m, x, k);
            Valid(g, InsertMin(f.cells, m, x, k)) &&
            g.cells.Keys == f.cells.Keys + {x} &&
            Keys(g) == Keys(f) + multiset{k}
    ensures var g := InsertForest(f, m, x, k);
            g.cells[x].key == k && g.cells[x].parent == null && g.cells[x].child == null &&
            g.cells[x].degree == 0 && !g.cells[x].mark
  {
    EmptyIffNoMin(f, m);
    if m != null {
      assert Tidy(f.cells, m);
    }
    InsertCellsFacts(f.cells, m, x, k);
    InsertShape(f, m, x, k);
    InsertLeast(f, m, x, k);
    InsertKeys(f, m, x, k);
  }

}
