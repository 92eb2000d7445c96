/**
 * The shape of a Fibonacci heap as a pure value.
 *
 * A `Forest` pairs the cells of the heap's nodes with a ghost description
 * of the structure they are meant to form:
 *   nodes  the nodes of the heap, once each (they carry the keys);
 *   roots  the root list in `right` order, starting at `min`;
 *   kids   for every node, its child list in `right` order, starting at the
 *          node designated by its `child` pointer;
 *   level  a rank that strictly shrinks from parent to child, bounded by
 *          `top` (so following parents always ends at a root).
 * The operations of FibHeap/FibHeap.h are described on this value in the
 * modules Inserting, Uniting, Decreasing and Extracting.
 */
module Forests {
  import opened FibNodes
  import opened Rings

  datatype Forest = Forest(cells: Cells, nodes: seq<Node>, roots: seq<Node>,
                           kids: map<Node, seq<Node>>, level: map<Node, nat>, top: nat)

  // ---------------------------------------------------------------------
  // Single-field writes. The effect of each operation on the cells is the
  // composition of these, in the order in which the source writes fields.

  function WithKey(c: Cells, nd: Node, v: int): Cells
    requires nd in c
  {
    c[nd := c[nd].(key := v)]
  }

  function WithParent(c: Cells, nd: Node, v: Node?): Cells
    requires nd in c
  {
    c[nd := c[nd].(parent := v)]
  }

  function WithChild(c: Cells, nd: Node, v: Node?): Cells
    requires nd in c
  {
    c[nd := c[nd].(child := v)]
  }

  function WithLeft(c: Cells, nd: Node, v: Node?): Cells
    requires nd in c
  {
    c[nd := c[nd].(left := v)]
  }

  function WithRight(c: Cells, nd: Node, v: Node?): Cells
    requires nd in c
  {
    c[nd := c[nd].(right := v)]
  }

  function WithDegree(c: Cells, nd: Node, v: u32): Cells
    requires nd in c
  {
    c[nd := c[nd].(degree := v)]
  }

  function WithMark(c: Cells, nd: Node, v: bool): Cells
    requires nd in c
  {
    c[nd := c[nd].(mark := v)]
  }

  /** A write of another field commutes with a write of a key. */
  lemma KeyCommutes(c: Cells, x: Node, k: int, nd: Node)
    requires x in c && nd in c
    ensures forall v :: WithLeft(WithKey(c, x, k), nd, v) == WithKey(WithLeft(c, nd, v), x, k)
    ensures forall v :: WithRight(WithKey(c, x, k), nd, v) == WithKey(WithRight(c, nd, v), x, k)
    ensures forall v :: WithChild(WithKey(c, x, k), nd, v) == WithKey(WithChild(c, nd, v), x, k)
    ensures forall v :: WithParent(WithKey(c, x, k), nd, v) == WithKey(WithParent(c, nd, v), x, k)
    ensures forall v :: WithDegree(WithKey(c, x, k), nd, v) == WithKey(WithDegree(c, nd, v), x, k)
    ensures forall v :: WithMark(WithKey(c, x, k), nd, v) == WithKey(WithMark(c, nd, v), x, k)
  {
  }

  /** `v` taken out of its circular list by linking its neighbours to each
      other (FibHeap/FibHeap.h:43-44, 132-133, 153-154); the links of `v`
      itself are left as they were. */
  function UnlinkCells(c: Cells, v: Node): (r: Cells)
    requires v in c && c[v].left != null && c[v].left in c && c[v].right != null && c[v].right in c
    ensures r.Keys == c.Keys
  {
    var l, r := c[v].left, c[v].right;
    WithLeft(WithRight(c, l, r), r, l)
  }

  // ---------------------------------------------------------------------
  // The shape.

  /** The links of `nd` are sound on their own: both siblings exist and
      point back at `nd`, the parent exists and has no larger key, and the
      child exists. */
  ghost predicate Tidy(c: Cells, nd: Node)
    requires nd in c
  {
    var k := c[nd];
    k.left != null && k.left in c && c[k.left].right == nd &&
    k.right != null && k.right in c && c[k.right].left == nd &&
    (k.parent != null ==> k.parent in c && c[k.parent].key <= k.key) &&
    (k.child != null ==> k.child in c)
  }

  /** Every node is tidy, and `nodes` lists the nodes of the heap once each. */
  ghost predicate Closed(f: Forest, min: Node?) {
    (min != null ==> min in f.cells) &&
    Distinct(f.nodes) && (forall nd :: nd in f.nodes ==> nd in f.cells) &&
    (forall nd :: nd in f.cells ==> nd in f.nodes) &&
    (forall nd {:trigger Tidy(f.cells, nd)} :: nd in f.cells ==> Tidy(f.cells, nd))
  }

  /** `ks` is the child list of `p`: a circular list of nodes whose parent
      is `p`, entered through `p.child`. The `degree`
      field is not tied to it: consolidate adds to the degree of a node
      other than the one that gains the child. */
  ghost predicate Family(c: Cells, p: Node, ks: seq<Node>)
    requires p in c
  {
    Ring(c, ks) &&
    (forall i :: 0 <= i < |ks| ==> ks[i] in c && c[ks[i]].parent == p) &&
    c[p].child == if ks == [] then null else ks[0]
  }

  /** Where `nd` sits in the forest: in the root list when parentless,
      otherwise in its parent's child list, below its parent's level; and
      `kids[nd]` is its own child list. */
  ghost predicate Placed(f: Forest, nd: Node)
    requires nd in f.cells
  {
    var p := f.cells[nd].parent;
    nd in f.kids && nd in f.level && f.level[nd] <= f.top &&
    (p == null ==> nd in f.roots) &&
    (p != null ==> p in f.kids && p in f.level && nd in f.kids[p] && f.level[nd] < f.level[p]) &&
    Family(f.cells, nd, f.kids[nd])
  }

  /** The ghost maps describe exactly the nodes of the heap. */
  ghost predicate Indexed(f: Forest) {
    f.kids.Keys == f.cells.Keys && f.level.Keys == f.cells.Keys
  }

  /** The roots form one circular list of parentless nodes entered at `min`. */
  ghost predicate RootList(f: Forest, min: Node?) {
    (forall i :: 0 <= i < |f.roots| ==> f.roots[i] in f.cells && f.cells[f.roots[i]].parent == null) &&
    Ring(f.cells, f.roots) && (min == null <==> f.roots == []) &&
    (f.roots != [] ==> f.roots[0] == min)
  }

  ghost predicate AllPlaced(f: Forest) {
    forall nd {:trigger Placed(f, nd)} :: nd in f.cells ==> Placed(f, nd)
  }

  /** The forest shape: one root list entered at `min`, one child list per
      node. Proofs that are costly with this predicate unfolded `hide` it;
      small lemmas with empty bodies (Extracting.ShapeClosed, ShapeNode,
      ShapeIndexed and the like) then hand its parts to the proof that needs
      them, in place of unfolding it there. */
  ghost predicate Shape(f: Forest, min: Node?) {
    Closed(f, min) && Indexed(f) && RootList(f, min) && AllPlaced(f)
  }

  /** `min` holds the smallest key. */
  ghost predicate MinIsLeast(f: Forest, min: Node?) {
    min != null ==> min in f.cells && forall nd :: nd in f.cells ==> f.cells[min].key <= f.cells[nd].key
  }

  /** The forest of the empty heap. */
  function Empty(): Forest {
    Forest(map[], [], [], map[], map[], 0)
  }

  ghost predicate Valid(f: Forest, min: Node?) {
    Shape(f, min) && MinIsLeast(f, min)
  }

  /** The multiset of keys held by the heap. */
  function Keys(f: Forest): multiset<int>
    requires forall nd :: nd in f.nodes ==> nd in f.cells
  {
    KeysOf(f.cells, f.nodes)
  }

  /** Two cells that agree on every field except perhaps the sibling links. */
  ghost predicate SameFields(a: Cell, b: Cell) {
    a.key == b.key && a.parent == b.parent && a.child == b.child &&
    a.degree == b.degree && a.mark == b.mark
  }

  /** Two cells with the same structural links. */
  ghost predicate SameLinks(a: Cell, b: Cell) {
    a.parent == b.parent && a.child == b.child && a.left == b.left && a.right == b.right
  }

  // ---------------------------------------------------------------------
  // Facts that follow from the shape.

  /** Every node lies below some root whose key is no larger. */
  lemma {:induction false} RootAbove(f: Forest, min: Node?, nd: Node)
    requires Shape(f, min) && nd in f.cells
    ensures exists i :: 0 <= i < |f.roots| && f.cells[f.roots[i]].key <= f.cells[nd].key
    decreases f.top - f.level[nd]
  {
    assert Placed(f, nd) && Tidy(f.cells, nd);
    var p := f.cells[nd].parent;
    if p == null {
      var i := IndexOf(f.roots, nd);
    } else {
      assert Placed(f, p);
      RootAbove(f, min, p);
    }
  }

  /** A node outside the root list hangs below a root that has children. */
  lemma {:induction false} RootWithChildren(f: Forest, min: Node?, nd: Node)
    requires Shape(f, min) && nd in f.cells && nd !in f.roots
    ensures exists i :: 0 <= i < |f.roots| && f.kids[f.roots[i]] != []
    decreases f.top - f.level[nd]
  {
    assert Placed(f, nd) && Tidy(f.cells, nd);
    var p := f.cells[nd].parent;
    assert nd in f.kids[p];
    assert Placed(f, p);
    if p in f.roots {
      var i := IndexOf(f.roots, p);
    } else {
      RootWithChildren(f, min, p);
    }
  }

  /** A node stays placed in a new forest that keeps its fields but
      perhaps its sibling links, its child list and the cells of its
      children, its own ghost entries, its membership of its parent's child
      list and its parent's level or a higher one, and, when it is
      parentless, its membership of the roots. */
  lemma PlacedFrame(f: Forest, g: Forest, nd: Node)
    requires nd in f.cells && Placed(f, nd) && Tidy(f.cells, nd)
    requires nd in g.cells && SameFields(g.cells[nd], f.cells[nd])
    requires nd in g.kids && g.kids[nd] == f.kids[nd] && nd in g.level && g.level[nd] == f.level[nd]
    requires f.top <= g.top
    requires var p := f.cells[nd].parent;
             p != null ==> p in g.kids && nd in g.kids[p] && p in g.level && f.level[p] <= g.level[p]
    requires f.cells[nd].parent == null ==> nd in g.roots
    requires forall v :: v in f.kids[nd] ==> v in g.cells && g.cells[v] == f.cells[v]
    ensures Placed(g, nd)
  {
    var ks := f.kids[nd];
    forall v | v in ks ensures v in f.cells && v in g.cells && g.cells[v].left == f.cells[v].left && g.cells[v].right == f.cells[v].right {
      var i := IndexOf(ks, v);
    }
    RingFrame(f.cells, g.cells, ks);
  }

  /** The right neighbour of the minimum is the second root, read
      circularly. */
  lemma SecondRoot(f: Forest, m: Node)
    requires RootList(f, m)
    ensures f.roots != [] && m in f.cells && f.cells[m].right == Second(f.roots)
    ensures Second(f.roots) in f.roots && Second(f.roots) in f.cells && f.cells[Second(f.roots)].parent == null
  {
    var r := f.roots;
    assert Linked(f.cells, r[|r| - 1], r[0]);
    if |r| > 1 {
      assert Linked(f.cells, r[0], r[1]);
    }
  }

  /** Every root is a node of its heap. */
  lemma RootsIn(f: Forest, m: Node?)
    requires RootList(f, m)
    ensures forall v :: v in f.roots ==> v in f.cells && f.cells[v].parent == null
  {
    forall v | v in f.roots ensures v in f.cells && f.cells[v].parent == null {
      var i := IndexOf(f.roots, v);
    }
  }

  /** A child list stays one when its members keep their sibling and
      parent links and the parent keeps its child pointer. */
  lemma FamilyFrame(c0: Cells, c1: Cells, p: Node, ks: seq<Node>)
    requires p in c0 && Family(c0, p, ks) && p in c1 && c1[p].child == c0[p].child
    requires forall i :: 0 <= i < |ks| ==>
               ks[i] in c1 && c1[ks[i]].left == c0[ks[i]].left && c1[ks[i]].right == c0[ks[i]].right && c1[ks[i]].parent == c0[ks[i]].parent
    ensures Family(c1, p, ks)
  {
    forall v | v in ks ensures v in c0 && v in c1 && c1[v].left == c0[v].left && c1[v].right == c0[v].right {
      var i := IndexOf(ks, v);
    }
    RingFrame(c0, c1, ks);
  }

  /** Cells that keep every structural link of other cells. */
  ghost predicate Relinked(c0: Cells, c1: Cells) {
    c1.Keys == c0.Keys && forall nd :: nd in c0 ==> SameLinks(c1[nd], c0[nd])
  }

  /** Cells in heap order: no node has a key below its parent's. */
  ghost predicate Ordered(c: Cells) {
    forall nd :: nd in c && c[nd].parent != null && c[nd].parent in c ==> c[c[nd].parent].key <= c[nd].key
  }

  lemma TidyFrame(c0: Cells, c1: Cells)
    requires forall nd {:trigger Tidy(c0, nd)} :: nd in c0 ==> Tidy(c0, nd)
    requires Relinked(c0, c1) && Ordered(c1)
    ensures forall nd {:trigger Tidy(c1, nd)} :: nd in c1 ==> Tidy(c1, nd)
  {
    forall nd | nd in c1 ensures Tidy(c1, nd) {
      assert Tidy(c0, nd);
      var k := c0[nd];
      assert SameLinks(c1[nd], k) && SameLinks(c1[k.left], c0[k.left]) && SameLinks(c1[k.right], c0[k.right]);
    }
  }

  lemma PlacedFrameAll(f: Forest, g: Forest)
    requires AllPlaced(f) && Relinked(f.cells, g.cells)
    requires g.roots == f.roots && g.kids == f.kids && g.level == f.level && g.top == f.top
    ensures AllPlaced(g)
  {
    var c0, c1 := f.cells, g.cells;
    forall nd | nd in c1 ensures Placed(g, nd) {
      assert Placed(f, nd);
      var ks := f.kids[nd];
      assert SameLinks(c1[nd], c0[nd]);
      forall i | 0 <= i < |ks|
        ensures ks[i] in c1 && c1[ks[i]].left == c0[ks[i]].left && c1[ks[i]].right == c0[ks[i]].right && c1[ks[i]].parent == c0[ks[i]].parent
      {
        assert SameLinks(c1[ks[i]], c0[ks[i]]);
      }
      FamilyFrame(c0, c1, nd, ks);
    }
  }

  lemma RootListFrame(f: Forest, g: Forest, m: Node?)
    requires RootList(f, m) && Relinked(f.cells, g.cells) && g.roots == f.roots
    ensures RootList(g, m)
  {
    var c0, c1 := f.cells, g.cells;
    RootsIn(f, m);
    forall v | v in f.roots ensures v in c0 && v in c1 && c1[v].left == c0[v].left && c1[v].right == c0[v].right {
      assert SameLinks(c1[v], c0[v]);
    }
    RingFrame(c0, c1, f.roots);
    forall i | 0 <= i < |g.roots| ensures g.roots[i] in c1 && c1[g.roots[i]].parent == null {
      assert g.roots[i] in f.roots;
      assert SameLinks(c1[g.roots[i]], c0[g.roots[i]]);
    }
  }

  /** A child list stays one, without `ks[i]`, once the neighbours of
      `ks[i]` are linked to each other and the parent's `child` pointer has
      moved on to the next sibling if it designated `ks[i]`. */
  lemma FamilyUnlink(c0: Cells, c1: Cells, p: Node, ks: seq<Node>, i: nat)
    requires p in c0 && Family(c0, p, ks) && i < |ks|
    requires |ks| >= 2 ==> Linked(c1, Pred(ks, i), Succ(ks, i))
    requires forall j :: 0 <= j < |ks| ==> ks[j] in c1
    requires forall j :: 0 <= j < |ks| && j != i ==>
               c1[ks[j]].parent == p &&
               (ks[j] != Pred(ks, i) ==> c1[ks[j]].right == c0[ks[j]].right) &&
               (ks[j] != Succ(ks, i) ==> c1[ks[j]].left == c0[ks[j]].left)
    requires p in c1 && c1[p].child == if c0[p].child != ks[i] then c0[p].child else if |ks| == 1 then null else Succ(ks, i)
    ensures Family(c1, p, Remove(ks, ks[i]))
  {
    var v := ks[i];
    RemoveAt(ks, i);
    var rest := ks[..i] + ks[i + 1..];
    forall j | 0 <= j < |rest| ensures rest[j] in c1 && c1[rest[j]].parent == p {
      var jj := if j < i then j else j + 1;
      assert rest[j] == ks[jj];
    }
    if |ks| >= 2 {
      RingUnlink(c0, c1, ks, i);
      if i > 0 {
        assert ks[0] != v && rest[0] == ks[0];
      } else {
        assert rest[0] == ks[1];
      }
    }
  }

  /** A change of cells that keeps every structural link, and the heap
      order, keeps the shape. */
  lemma ShapeFrame(f: Forest, g: Forest, m: Node?)
    requires Shape(f, m)
    requires g.nodes == f.nodes && g.roots == f.roots && g.kids == f.kids && g.level == f.level && g.top == f.top
    requires Relinked(f.cells, g.cells) && Ordered(g.cells)
    ensures Shape(g, m)
  {
    TidyFrame(f.cells, g.cells);
    PlacedFrameAll(f, g);
    RootListFrame(f, g, m);
  }

  /** A tidy forest is in heap order. */
  lemma ClosedOrdered(f: Forest, m: Node?)
    requires Closed(f, m)
    ensures Ordered(f.cells)
  {
    forall nd | nd in f.cells && f.cells[nd].parent != null && f.cells[nd].parent in f.cells
      ensures f.cells[f.cells[nd].parent].key <= f.cells[nd].key
    {
      assert Tidy(f.cells, nd);
    }
  }

  /** The root list may be entered at any root: with `x` as the minimum the
      forest keeps its shape. */
  lemma ShapeRotate(f: Forest, m: Node?, x: Node)
    requires Shape(f, m) && x in f.roots
    ensures Shape(f.(roots := RotateTo(f.roots, x)), x)
  {
    var g := f.(roots := RotateTo(f.roots, x));
    var j := Find(f.roots, x);
    RingRotate(f.cells, f.roots, j);
    assert forall v :: v in g.roots <==> v in f.roots by {
      forall v ensures v in g.roots <==> v in f.roots {
        assert v in g.roots <==> v in multiset(g.roots);
        assert v in f.roots <==> v in multiset(f.roots);
      }
    }
    RootsIn(f, m);
    forall i | 0 <= i < |g.roots| ensures g.roots[i] in g.cells && g.cells[g.roots[i]].parent == null {
      assert g.roots[i] in g.roots;
    }
    forall nd | nd in g.cells ensures Placed(g, nd) {
      assert Placed(f, nd);
    }
  }

  /** Changing the key of `x` alone changes exactly that key in the
      multiset. */
  lemma KeysOfChange(c0: Cells, c1: Cells, s: seq<Node>, x: Node)
    requires forall v :: v in s ==> v in c0 && v in c1
    requires forall v :: v in s && v != x ==> c1[v].key == c0[v].key
    requires Distinct(s) && x in s
    ensures KeysOf(c1, s) == KeysOf(c0, s) - multiset{c0[x].key} + multiset{c1[x].key}
  {
    KeysOfRemove(c0, s, x);
    KeysOfRemove(c1, s, x);
    RemoveMembers(s, x);
    KeysOfFrame(c0, c1, Remove(s, x));
  }

  /** `nodes` lists the nodes of the heap once each. */
  lemma NodesListed(f: Forest, m: Node?)
    requires Shape(f, m)
    ensures Distinct(f.nodes) && forall nd :: nd in f.nodes <==> nd in f.cells
  {
  }

  /** In a forest of the right shape every node has a child list. */
  lemma ShapeFamily(f: Forest, m: Node?, p: Node)
    ensures Shape(f, m) && p in f.cells ==> p in f.kids && Family(f.cells, p, f.kids[p])
  {
    if Shape(f, m) && p in f.cells {
      assert Placed(f, p);
    }
  }

  /** A parentless node is a root. */
  lemma RootListed(f: Forest, m: Node?, x: Node)
    requires Shape(f, m) && x in f.cells && f.cells[x].parent == null
    ensures x in f.roots
  {
    assert Placed(f, x);
  }

  /** A node with a parent has a key no smaller than the parent's, which is
      a node of the heap. */
  lemma ParentBelow(f: Forest, m: Node?, x: Node)
    requires Shape(f, m) && x in f.cells
    ensures var y := f.cells[x].parent; y != null ==> y in f.cells && f.cells[y].key <= f.cells[x].key
  {
    assert Tidy(f.cells, x);
  }

  /** No node is its own parent. */
  lemma ParentApart(f: Forest, m: Node?, x: Node)
    requires Shape(f, m) && x in f.cells
    ensures f.cells[x].parent != x
  {
    assert Placed(f, x);
  }

  /** The heap is empty exactly when `min` is null. */
  lemma EmptyIffNoMin(f: Forest, min: Node?)
    requires Shape(f, min)
    ensures min == null <==> f.cells == map[]
  {
    if min == null && f.cells != map[] {
      var nd :| nd in f.cells;
      RootAbove(f, min, nd);
    }
  }

  /** If the only root is a childless `x`, the heap holds `x` alone. */
  lemma SoleRoot(f: Forest, min: Node?, x: Node)
    requires Shape(f, min) && f.roots == [x] && f.kids[x] == []
    ensures f.cells.Keys == {x}
  {
    forall nd | nd in f.cells ensures nd == x {
      if nd !in f.roots {
        RootWithChildren(f, min, nd);
      }
    }
  }

  /** `min` is null exactly when there are no keys, and otherwise holds
      one of the keys, the least of them. */
  lemma MinHolds(f: Forest, min: Node?)
    requires Valid(f, min)
    ensures min == null <==> Keys(f) == multiset{}
    ensures min != null ==> min in f.cells && f.cells[min].key in Keys(f) &&
                            forall v :: v in Keys(f) ==> f.cells[min].key <= v
  {
    EmptyIffNoMin(f, min);
    KeysOfMembers(f.cells, f.nodes);
    if min != null {
      assert min in f.nodes;
    }
  }
}
