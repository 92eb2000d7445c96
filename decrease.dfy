/**
 * decrease_key (FibHeap/FibHeap.h:184-213) and the cut it is built from
 * (FibHeap/FibHeap.h:39-51) on the forest value.
 *
 * A cut takes a node out of its parent's child list and plugs it into the
 * root list just right of `min`; the parent loses one from its degree and
 * the node its parent and its mark. As written, the source never moves the
 * parent's `child` pointer off the node it cuts; `CutOutCellsAsWritten`
 * keeps that behaviour and `AsWrittenLosesFamily` shows what it breaks.
 * The rest of the model uses `CutOutCells`, which first moves the parent's
 * `child` pointer to the next sibling (or to null when there is none).
 */
module Decreasing {
  import opened FibNodes
  import opened Rings
  import opened Forests

  // ---------------------------------------------------------------------
  // The cut on the cells.

  /** What a cut of `v` next to `m` reads: both neighbours of `v` and the
      right neighbour of `m`. */
  predicate CutReady(c: Cells, m: Node, v: Node) {
    m in c && v in c &&
    c[v].left != null && c[v].left in c && c[v].right != null && c[v].right in c &&
    c[m].right != null && c[m].right in c
  }

  /** `v` plugged in just right of `m` (FibHeap/FibHeap.h:47-50). */
  function PlugCells(c: Cells, m: Node, v: Node): (r: Cells)
    requires m in c && v in c && c[m].right != null && c[m].right in c
    ensures r.Keys == c.Keys
  {
    var mr := c[m].right;
    WithRight(WithLeft(WithRight(WithLeft(c, mr, v), v, mr), v, m), m, v)
  }

  /** `cut(v, m)` (FibHeap/FibHeap.h:39-51): `v` leaves its list, unless it is
      alone there, and is plugged in just right of `m`. */
  function CutCells(c: Cells, m: Node, v: Node): Cells
    requires CutReady(c, m, v)
  {
    var c1 := if c[v].right != v then UnlinkCells(c, v) else c;
    PlugCells(c1, m, v)
  }

  /** The bookkeeping after a cut (FibHeap/FibHeap.h:193-195, 205-207): the
      parent `p` loses one from its degree, `v` its parent and its mark. */
  function SeverCells(c: Cells, p: Node, v: Node): (r: Cells)
    requires p in c && v in c
    ensures r.Keys == c.Keys
  {
    WithMark(WithParent(WithDegree(c, p, Dec(c[p].degree)), v, null), v, false)
  }

  /** Where the `child` pointer of `p` must go when `v` is cut away: to the
      next sibling, or to null when `v` was the only child. */
  function NewChild(c: Cells, p: Node, v: Node): Node?
    requires p in c && v in c
  {
    if c[p].child == v then (if c[v].right == v then null else c[v].right) else c[p].child
  }

  /** The cut of `v` from its parent as the source writes it: no write to
      the parent's `child` pointer. */
  function CutOutCellsAsWritten(c: Cells, m: Node, v: Node): Cells
    requires CutReady(c, m, v) && c[v].parent != null && c[v].parent in c
  {
    SeverCells(CutCells(c, m, v), c[v].parent, v)
  }

  /** The cut of `v` from its parent, with the parent's `child` pointer first
      moved off `v`. */
  function CutOutCells(c: Cells, m: Node, v: Node): (r: Cells)
    requires CutReady(c, m, v) && c[v].parent != null && c[v].parent in c
    ensures r.Keys == c.Keys
  {
    var p := c[v].parent;
    SeverCells(CutCells(WithChild(c, p, NewChild(c, p, v)), m, v), p, v)
  }

  /** Moving the parent's `child` pointer keeps a cut ready, and the cut of
      the result is the corrected cut. */
  lemma ChildReady(c: Cells, m: Node, v: Node, p: Node)
    requires CutReady(c, m, v) && c[v].parent == p && p in c
    ensures var c1 := WithChild(c, p, NewChild(c, p, v));
            CutReady(c1, m, v) && c1[v].parent == p &&
            CutOutCells(c, m, v) == SeverCells(CutCells(c1, m, v), p, v)
  {
  }

  lemma UnlinkFacts(c: Cells, v: Node)
    requires v in c && c[v].left != null && c[v].left in c && c[v].right != null && c[v].right in c
    ensures var c1, l, r := UnlinkCells(c, v), c[v].left, c[v].right;
            c1.Keys == c.Keys &&
            forall nd :: nd in c ==>
              SameFields(c1[nd], c[nd]) &&
              c1[nd].right == (if nd == l then r else c[nd].right) &&
              c1[nd].left == (if nd == r then l else c[nd].left)
  {
  }

  lemma PlugFacts(c: Cells, m: Node, v: Node)
    requires m in c && v in c && c[m].right != null && c[m].right in c
    requires v != m && v != c[m].right
    ensures var c1, mr := PlugCells(c, m, v), c[m].right;
            c1.Keys == c.Keys &&
            forall nd :: nd in c ==>
              SameFields(c1[nd], c[nd]) &&
              c1[nd].right == (if nd == v then mr else if nd == m then v else c[nd].right) &&
              c1[nd].left == (if nd == v then m else if nd == mr then v else c[nd].left)
  {
  }

  lemma PlugSame(c: Cells, m: Node, v: Node)
    requires m in c && v in c && c[m].right != null && c[m].right in c
    ensures var c1 := PlugCells(c, m, v);
            forall nd :: nd in c ==> SameFields(c1[nd], c[nd])
  {
  }

  lemma SeverFacts(c: Cells, p: Node, v: Node)
    requires p in c && v in c
    ensures var c1 := SeverCells(c, p, v);
            c1.Keys == c.Keys &&
            forall nd :: nd in c ==>
              c1[nd].key == c[nd].key && c1[nd].child == c[nd].child &&
              c1[nd].left == c[nd].left && c1[nd].right == c[nd].right &&
              c1[nd].parent == (if nd == v then null else c[nd].parent) &&
              c1[nd].degree == (if nd == p then Dec(c[p].degree) else c[nd].degree) &&
              c1[nd].mark == (if nd == v then false else c[nd].mark)
  {
  }

  /** The sibling links after `cut(v, m)`; every other field stays. */
  lemma CutFacts(c: Cells, m: Node, v: Node)
    requires CutReady(c, m, v)
    requires v != m && v != c[m].right && c[v].left != m && c[v].right != c[m].right
    ensures var c1 := CutCells(c, m, v);
            var l, r, mr := c[v].left, c[v].right, c[m].right;
            c1.Keys == c.Keys &&
            forall nd :: nd in c ==>
              SameFields(c1[nd], c[nd]) &&
              c1[nd].right == (if nd == v then mr else if nd == m then v else if nd == l && r != v then r else c[nd].right) &&
              c1[nd].left == (if nd == v then m else if nd == mr then v else if nd == r && r != v then l else c[nd].left)
  {
    hide UnlinkCells, PlugCells;
    if c[v].right != v {
      UnlinkFacts(c, v);
      PlugFacts(UnlinkCells(c, v), m, v);
    } else {
      PlugFacts(c, m, v);
    }
  }

  /** A cut changes no key, and no parent but that of `v`. */
  lemma CutOutKeeps(c: Cells, m: Node, v: Node)
    requires CutReady(c, m, v) && c[v].parent != null && c[v].parent in c
    ensures var c1 := CutOutCells(c, m, v);
            forall nd :: nd in c ==>
              c1[nd].key == c[nd].key && c1[nd].parent == (if nd == v then null else c[nd].parent)
  {
    hide UnlinkCells, PlugCells, SeverCells;
    var p := c[v].parent;
    var c1 := WithChild(c, p, NewChild(c, p, v));
    var c2 := if c1[v].right != v then UnlinkCells(c1, v) else c1;
    if c1[v].right != v {
      UnlinkFacts(c1, v);
    }
    PlugSame(c2, m, v);
    SeverFacts(PlugCells(c2, m, v), p, v);
  }

  /** A cut clears the mark of `v` and of no other node. */
  lemma CutOutMark(c: Cells, m: Node, v: Node)
    requires CutReady(c, m, v) && c[v].parent != null && c[v].parent in c
    ensures var c1 := CutOutCells(c, m, v);
            forall nd :: nd in c ==> c1[nd].mark == (if nd == v then false else c[nd].mark)
  {
    hide UnlinkCells, PlugCells, SeverCells;
    var p := c[v].parent;
    var c1 := WithChild(c, p, NewChild(c, p, v));
    var c2 := if c1[v].right != v then UnlinkCells(c1, v) else c1;
    if c1[v].right != v {
      UnlinkFacts(c1, v);
    }
    PlugSame(c2, m, v);
    SeverFacts(PlugCells(c2, m, v), p, v);
  }

  /** The effect of a cut, field by field. The four inequalities hold when
      `v` is a child and `m` a root. */
  lemma CutOutFacts(c: Cells, m: Node, v: Node)
    requires CutReady(c, m, v) && c[v].parent != null && c[v].parent in c
    requires v != m && v != c[m].right && c[v].left != m && c[v].right != c[m].right
    ensures var c1 := CutOutCells(c, m, v);
            var p, l, r, mr := c[v].parent, c[v].left, c[v].right, c[m].right;
            c1.Keys == c.Keys &&
            forall nd :: nd in c ==>
              c1[nd].key == c[nd].key &&
              c1[nd].parent == (if nd == v then null else c[nd].parent) &&
              c1[nd].child == (if nd == p then NewChild(c, p, v) else c[nd].child) &&
              c1[nd].degree == (if nd == p then Dec(c[p].degree) else c[nd].degree) &&
              c1[nd].mark == (if nd == v then false else c[nd].mark) &&
              c1[nd].right == (if nd == v then mr else if nd == m then v else if nd == l && r != v then r else c[nd].right) &&
              c1[nd].left == (if nd == v then m else if nd == mr then v else if nd == r && r != v then l else c[nd].left)
  {
    hide CutCells, SeverCells;
    var p := c[v].parent;
    var c1 := WithChild(c, p, NewChild(c, p, v));
    CutFacts(c1, m, v);
    SeverFacts(CutCells(c1, m, v), p, v);
  }

  // ---------------------------------------------------------------------
  // The cut on the forest.

  /** What the forest needs for the cut of `v` next to `m`. */
  predicate Cuttable(f: Forest, m: Node, v: Node) {
    CutReady(f.cells, m, v) && f.roots != [] &&
    f.cells[v].parent != null && f.cells[v].parent in f.cells && f.cells[v].parent in f.kids
  }

  /** The forest after `v` is cut from its parent and becomes the second
      root, just right of `m`. */
  function CutForest(f: Forest, m: Node, v: Node): Forest
    requires Cuttable(f, m, v)
  {
    var p := f.cells[v].parent;
    Forest(CutOutCells(f.cells, m, v), f.nodes, [m, v] + f.roots[1..],
           f.kids[p := Remove(f.kids[p], v)], f.level, f.top)
  }

  /** Where a child `v` and the minimum `m` sit before a cut. */
  lemma CutSetup(f: Forest, m: Node, v: Node) returns (i: nat)
    requires Shape(f, m) && v in f.cells && f.cells[v].parent != null
    ensures Cuttable(f, m, v)
    ensures var c, p := f.cells, f.cells[v].parent;
            var ks := f.kids[p];
            i < |ks| && ks[i] == v && p != v && Family(c, p, ks) &&
            c[v].left == Pred(ks, i) && c[v].right == Succ(ks, i) &&
            c[c[v].left].parent == p && c[c[v].right].parent == p &&
            f.roots[0] == m && c[m].right == Second(f.roots) && c[m].parent == null &&
            c[c[m].right].parent == null &&
            v != m && v != c[m].right && c[v].left != m && c[v].right != c[m].right
  {
    var c, p := f.cells, f.cells[v].parent;
    assert Placed(f, v);
    assert Placed(f, p);
    var ks := f.kids[p];
    i := IndexOf(ks, v);
    RingNeighbours(c, ks, i);
    var j := IndexOf(ks, Pred(ks, i));
    var k := IndexOf(ks, Succ(ks, i));
    SecondRoot(f, m);
    assert Tidy(c, v);
  }

  /** A cut keeps every node tidy. */
  lemma CutTidy(c: Cells, m: Node, v: Node)
    requires forall nd {:trigger Tidy(c, nd)} :: nd in c ==> Tidy(c, nd)
    requires CutReady(c, m, v) && c[v].parent != null && c[v].parent in c
    requires v != m && v != c[m].right && c[v].left != m && c[v].right != c[m].right
    ensures var c1 := CutOutCells(c, m, v);
            forall nd {:trigger Tidy(c1, nd)} :: nd in c1 ==> Tidy(c1, nd)
  {
    hide CutOutCells;
    var c1 := CutOutCells(c, m, v);
    CutOutFacts(c, m, v);
    var l, r, mr := c[v].left, c[v].right, c[m].right;
    assert Tidy(c, v) && Tidy(c, m) && Tidy(c, l) && Tidy(c, r) && Tidy(c, mr);
    forall nd | nd in c1 ensures Tidy(c1, nd) {
      assert Tidy(c, nd);
      var k := c[nd];
      assert Tidy(c, k.left) && Tidy(c, k.right);
    }
  }

  /** A cut makes `v` the second root. */
  lemma CutRootList(f: Forest, m: Node, v: Node)
    requires RootList(f, m) && Cuttable(f, m, v)
    requires var c := f.cells;
             v != m && v != c[m].right && c[v].left != m && c[v].right != c[m].right &&
             c[c[v].left].parent != null && c[c[v].right].parent != null
    ensures var g := CutForest(f, m, v);
            RootList(g, m) && forall u :: u in g.roots <==> u in f.roots || u == v
  {
    hide CutOutCells;
    var c, g := f.cells, CutForest(f, m, v);
    var c1 := g.cells;
    CutOutFacts(c, m, v);
    SecondRoot(f, m);
    RootsIn(f, m);
    assert v !in f.roots;
    RingPlug(c, c1, f.roots, v);
    forall i | 0 <= i < |g.roots| ensures g.roots[i] in c1 && c1[g.roots[i]].parent == null {
      if i >= 2 {
        assert g.roots[i] == f.roots[i - 1];
      }
    }
    assert f.roots == [m] + f.roots[1..];
  }

  /** The parent's child list loses `v` and stays a child list, entered
      through the retargeted `child` pointer. */
  lemma CutFamily(c: Cells, m: Node, v: Node, ks: seq<Node>, i: nat)
    requires CutReady(c, m, v) && c[v].parent != null && c[v].parent in c
    requires v != m && v != c[m].right && c[v].left != m && c[v].right != c[m].right
    requires Family(c, c[v].parent, ks) && i < |ks| && ks[i] == v
    requires c[v].left == Pred(ks, i) && c[v].right == Succ(ks, i)
    requires c[m].parent == null && c[c[m].right].parent == null
    ensures Family(CutOutCells(c, m, v), c[v].parent, Remove(ks, v))
  {
    hide CutOutCells;
    var c1, p := CutOutCells(c, m, v), c[v].parent;
    CutOutFacts(c, m, v);
    if |ks| >= 2 {
      PredSuccApart(ks, i);
    }
    FamilyUnlink(c, c1, p, ks, i);
  }

  /** A cut keeps every node placed. */
  lemma CutPlaced(f: Forest, m: Node, v: Node, i: nat)
    requires AllPlaced(f) && Cuttable(f, m, v) && f.roots[0] == m
    requires var c, p := f.cells, f.cells[v].parent;
             var ks := f.kids[p];
             i < |ks| && ks[i] == v && p != v && Family(c, p, ks) &&
             c[v].left == Pred(ks, i) && c[v].right == Succ(ks, i) &&
             c[c[v].left].parent == p && c[c[v].right].parent == p &&
             c[m].parent == null && c[c[m].right].parent == null &&
             v != m && v != c[m].right && c[v].left != m && c[v].right != c[m].right
    ensures AllPlaced(CutForest(f, m, v))
  {
    hide CutOutCells;
    var c, p, g := f.cells, f.cells[v].parent, CutForest(f, m, v);
    var c1, ks := g.cells, f.kids[p];
    CutOutFacts(c, m, v);
    RemoveMembers(ks, v);
    assert f.roots == [m] + f.roots[1..];
    forall nd | nd in c1 ensures Placed(g, nd) {
      assert Placed(f, nd);
      if nd == p {
        CutFamily(c, m, v, ks, i);
      } else {
        var kn := f.kids[nd];
        forall j | 0 <= j < |kn|
          ensures kn[j] in c1 && c1[kn[j]].left == c[kn[j]].left && c1[kn[j]].right == c[kn[j]].right && c1[kn[j]].parent == c[kn[j]].parent
        {
          assert c[kn[j]].parent == nd;
        }
        FamilyFrame(c, c1, nd, kn);
      }
    }
  }

  /** A cut of a child keeps the forest shape; it changes no key and no
      parent link but that of `v`, which becomes a root. */
  lemma CutShape(f: Forest, m: Node, v: Node)
    requires Shape(f, m) && v in f.cells && f.cells[v].parent != null
    ensures Cuttable(f, m, v)
    ensures var g := CutForest(f, m, v);
            Shape(g, m) && g.cells.Keys == f.cells.Keys && g.nodes == f.nodes &&
            g.level == f.level && g.top == f.top &&
            forall nd :: nd in f.cells ==>
              g.cells[nd].key == f.cells[nd].key &&
              g.cells[nd].parent == (if nd == v then null else f.cells[nd].parent)
  {
    CutKeepsShape(f, m, v);
    CutOutKeeps(f.cells, m, v);
  }

  /** The shape half of CutShape. */
  lemma CutKeepsShape(f: Forest, m: Node, v: Node)
    requires Shape(f, m) && v in f.cells && f.cells[v].parent != null
    ensures Cuttable(f, m, v) && Shape(CutForest(f, m, v), m)
  {
    var i := CutSetup(f, m, v);
    var c := f.cells;
    CutOutKeeps(c, m, v);
    CutTidy(c, m, v);
    CutRootList(f, m, v);
    CutPlaced(f, m, v, i);
  }

  // ---------------------------------------------------------------------
  // decrease_key.

  /** The forest with the key of `x` set to `k`. */
  function Rekey(f: Forest, x: Node, k: int): Forest
    requires x in f.cells
  {
    f.(cells := WithKey(f.cells, x, k))
  }

  /** Lowering a key keeps the shape as long as the parent's key is no
      larger than the new key. */
  lemma KeyShape(f: Forest, m: Node?, x: Node, k: int)
    requires Shape(f, m) && x in f.cells && k <= f.cells[x].key
    requires var p := f.cells[x].parent; p != null && p in f.cells ==> f.cells[p].key <= k
    ensures Shape(Rekey(f, x, k), m)
  {
    var c, c1 := f.cells, Rekey(f, x, k).cells;
    ClosedOrdered(f, m);
    forall nd | nd in c1 && c1[nd].parent != null && c1[nd].parent in c1 ensures c1[c1[nd].parent].key <= c1[nd].key {
      assert c[c[nd].parent].key <= c[nd].key;
    }
    ShapeFrame(f, Rekey(f, x, k), m);
  }

  /** Marking a node keeps the shape. */
  lemma MarkShape(f: Forest, m: Node?, y: Node, b: bool)
    requires Shape(f, m) && y in f.cells
    ensures Shape(f.(cells := WithMark(f.cells, y, b)), m)
  {
    ClosedOrdered(f, m);
    ShapeFrame(f, f.(cells := WithMark(f.cells, y, b)), m);
  }

  /** The cascading cut from `y` upwards (FibHeap/FibHeap.h:197-209): a root
      stops it; an unmarked `y` is marked and stops it; a marked `y` is cut
      from its parent `z` and the cascade goes on from `z`. */
  ghost function Cascade(f: Forest, m: Node, y: Node): Forest
    requires Shape(f, m) && y in f.cells
    decreases f.top - f.level[y]
  {
    assert Placed(f, y);
    var z := f.cells[y].parent;
    if z == null then f
    else if !f.cells[y].mark then f.(cells := WithMark(f.cells, y, true))
    else
      assert Placed(f, z);
      CutShape(f, m, y);
      Cascade(CutForest(f, m, y), m, z)
  }

  /** The cascade keeps the shape, every key, every root a root, and the
      mark of every root: it never marks a root. */
  lemma {:induction false} CascadeFacts(f: Forest, m: Node, y: Node)
    requires Shape(f, m) && y in f.cells
    ensures var g := Cascade(f, m, y);
            Shape(g, m) && g.cells.Keys == f.cells.Keys && g.nodes == f.nodes &&
            forall nd :: nd in f.cells ==>
              g.cells[nd].key == f.cells[nd].key &&
              (f.cells[nd].parent == null ==> g.cells[nd].parent == null) &&
              (f.cells[nd].parent == null ==> g.cells[nd].mark == f.cells[nd].mark)
    decreases f.top - f.level[y]
  {
    assert Placed(f, y);
    var z := f.cells[y].parent;
    if z != null {
      if !f.cells[y].mark {
        MarkShape(f, m, y, true);
      } else {
        assert Placed(f, z);
        var _ := CutSetup(f, m, y);
        CutShape(f, m, y);
        CutOutMark(f.cells, m, y);
        CascadeFacts(CutForest(f, m, y), m, z);
      }
    }
  }

  /** `x` sits right below a parent whose key is above `k`: lowering the
      key of `x` to `k` cuts it (FibHeap/FibHeap.h:190). */
  predicate Cuts(c: Cells, x: Node, k: int)
    requires x in c
  {
    var y := c[x].parent;
    y != null && y in c && k < c[y].key
  }

  /** The forest after decrease_key has set the key of `x` to the smaller
      `k` and, if that put `x` below its parent, cut `x` and cascaded from
      the parent (FibHeap/FibHeap.h:188-210); `min` is not yet updated. */
  ghost function LowerForest(f: Forest, m: Node, x: Node, k: int): Forest
    requires Shape(f, m) && x in f.cells && k < f.cells[x].key
  {
    assert Tidy(f.cells, x);
    if Cuts(f.cells, x, k) then
      CutShape(f, m, x);
      var g := CutForest(f, m, x);
      KeyShape(g, m, x, k);
      Cascade(Rekey(g, x, k), m, f.cells[x].parent)
    else
      KeyShape(f, m, x, k);
      Rekey(f, x, k)
  }

  /** The minimum after decrease_key (FibHeap/FibHeap.h:211): `x` when its
      new key is strictly below the key of `m`. */
  function DecreaseMin(c: Cells, m: Node, x: Node, k: int): Node
    requires m in c && x in c
  {
    if k < c[x].key && x != m && k < c[m].key then x else m
  }

  /** The forest after decrease_key(x, k): unchanged unless `k` is smaller
      than the key of `x`; a new minimum becomes the entry of the root list. */
  ghost function DecreaseForest(f: Forest, m: Node, x: Node, k: int): Forest
    requires Shape(f, m) && x in f.cells
  {
    if k >= f.cells[x].key then f
    else
      var g := LowerForest(f, m, x, k);
      if DecreaseMin(f.cells, m, x, k) == x then g.(roots := RotateTo(g.roots, x)) else g
  }

  /** The two ways of lowering a key: with a cut and a cascade, or
      without. */
  lemma LowerCases(f: Forest, m: Node, x: Node, k: int)
    requires Shape(f, m) && x in f.cells && k < f.cells[x].key
    ensures var c, y := f.cells, f.cells[x].parent;
            (Cuts(c, x, k) ==>
               Cuttable(f, m, x) && CutForest(f, m, x).cells == CutOutCells(c, m, x) &&
               x in CutForest(f, m, x).cells &&
               var h := Rekey(CutForest(f, m, x), x, k);
               Shape(h, m) && y in h.cells && LowerForest(f, m, x, k) == Cascade(h, m, y)) &&
            (!Cuts(c, x, k) ==> LowerForest(f, m, x, k) == Rekey(f, x, k))
  {
    hide Shape, Cascade, CutOutCells;
    if Cuts(f.cells, x, k) {
      CutShape(f, m, x);
      KeyShape(CutForest(f, m, x), m, x, k);
    }
  }

  /** decrease_key only rotates the roots after lowering a key. */
  lemma DecreaseCells(f: Forest, m: Node, x: Node, k: int)
    requires Shape(f, m) && x in f.cells && k < f.cells[x].key
    ensures DecreaseForest(f, m, x, k).cells == LowerForest(f, m, x, k).cells
  {
    hide LowerForest, Shape, Cascade, RotateTo;
  }

  /** Lowering the key of `x` to `k` keeps the shape and changes no other
      key; `x` is cut exactly when `k` is below its parent's key. */
  lemma LowerFacts(f: Forest, m: Node, x: Node, k: int)
    requires Shape(f, m) && x in f.cells && k < f.cells[x].key
    ensures var g := LowerForest(f, m, x, k);
            Shape(g, m) && g.cells.Keys == f.cells.Keys && g.nodes == f.nodes &&
            g.cells[x].key == k &&
            (forall nd :: nd in f.cells && nd != x ==> g.cells[nd].key == f.cells[nd].key) &&
            g.cells[x].parent == (if Cuts(f.cells, x, k) then null else f.cells[x].parent)
  {
    hide Shape, Cascade, CutForest;
    if Cuts(f.cells, x, k) {
      var y := f.cells[x].parent;
      CutShape(f, m, x);
      var g := CutForest(f, m, x);
      KeyShape(g, m, x, k);
      CascadeFacts(Rekey(g, x, k), m, y);
    } else {
      KeyShape(f, m, x, k);
    }
  }

  /** decrease_key(x, k) keeps the heap valid with the minimum it picks;
      when `k` is below the key of `x`, it replaces exactly that key by `k`
      and makes `x` a root exactly when `k` is below its parent's key;
      otherwise nothing changes. */
  lemma DecreaseValid(f: Forest, m: Node, x: Node, k: int)
    requires Forests.Valid(f, m) && x in f.cells
    ensures var g, m1 := DecreaseForest(f, m, x, k), DecreaseMin(f.cells, m, x, k);
            Forests.Valid(g, m1) && g.cells.Keys == f.cells.Keys && g.nodes == f.nodes &&
            (forall nd :: nd in f.cells && nd != x ==> g.cells[nd].key == f.cells[nd].key) &&
            (k < f.cells[x].key ==>
               g.cells[x].key == k &&
               g.cells[x].parent == (if Cuts(f.cells, x, k) then null else f.cells[x].parent) &&
               Keys(g) == Keys(f) - multiset{f.cells[x].key} + multiset{k}) &&
            (k >= f.cells[x].key ==> g == f && m1 == m)
  {
    hide Shape, LowerForest;
    var c := f.cells;
    if k < c[x].key {
      var g0 := LowerForest(f, m, x, k);
      LowerFacts(f, m, x, k);
      var g := DecreaseForest(f, m, x, k);
      var m1 := DecreaseMin(c, m, x, k);
      if m1 == x {
        ParentBelow(f, m, x);
        RootListed(g0, m, x);
        ShapeRotate(g0, m, x);
      }
      assert MinIsLeast(g, m1);
      NodesListed(f, m);
      KeysOfChange(c, g.cells, f.nodes, x);
    }
  }

  lemma UnlinkIgnoresKeys(c: Cells, v: Node, x: Node, k: int)
    requires v in c && c[v].left != null && c[v].left in c && c[v].right != null && c[v].right in c
    requires x in c
    ensures UnlinkCells(WithKey(c, x, k), v) == WithKey(UnlinkCells(c, v), x, k)
  {
    var l, r := c[v].left, c[v].right;
    KeyCommutes(c, x, k, l);
    KeyCommutes(WithRight(c, l, r), x, k, r);
  }

  lemma PlugIgnoresKeys(c: Cells, m: Node, v: Node, x: Node, k: int)
    requires m in c && v in c && c[m].right != null && c[m].right in c
    requires x in c
    ensures PlugCells(WithKey(c, x, k), m, v) == WithKey(PlugCells(c, m, v), x, k)
  {
    var mr := c[m].right;
    var b1 := WithLeft(c, mr, v);
    var b2 := WithRight(b1, v, mr);
    var b3 := WithLeft(b2, v, m);
    KeyCommutes(c, x, k, mr);
    KeyCommutes(b1, x, k, v);
    KeyCommutes(b2, x, k, v);
    KeyCommutes(b3, x, k, m);
  }

  lemma SeverIgnoresKeys(c: Cells, p: Node, v: Node, x: Node, k: int)
    requires p in c && v in c && x in c
    ensures SeverCells(WithKey(c, x, k), p, v) == WithKey(SeverCells(c, p, v), x, k)
  {
    var b1 := WithDegree(c, p, Dec(c[p].degree));
    var b2 := WithParent(b1, v, null);
    KeyCommutes(c, x, k, p);
    KeyCommutes(b1, x, k, v);
    KeyCommutes(b2, x, k, v);
  }

  lemma ReadyIgnoresKeys(c: Cells, m: Node, v: Node, x: Node, k: int)
    requires CutReady(c, m, v) && c[v].parent != null && c[v].parent in c && x in c
    ensures var c0 := WithKey(c, x, k);
            CutReady(c0, m, v) && c0[v].parent == c[v].parent && c0[v].parent in c0
  {
  }

  /** A cut reads no key: lowering a key before or after it gives the same
      cells. */
  lemma CutIgnoresKeys(c: Cells, m: Node, v: Node, x: Node, k: int)
    requires CutReady(c, m, v) && c[v].parent != null && c[v].parent in c
    requires x in c
    ensures CutReady(WithKey(c, x, k), m, v)
    ensures CutOutCells(WithKey(c, x, k), m, v) == WithKey(CutOutCells(c, m, v), x, k)
  {
    ReadyIgnoresKeys(c, m, v, x, k);
    hide UnlinkCells, PlugCells, SeverCells, CutReady;
    var p := c[v].parent;
    var nc := NewChild(c, p, v);
    var c1 := WithChild(c, p, nc);
    assert WithChild(WithKey(c, x, k), p, nc) == WithKey(c1, x, k);
    var c2 := if c1[v].right != v then UnlinkCells(c1, v) else c1;
    if c1[v].right != v {
      UnlinkFacts(c1, v);
      UnlinkIgnoresKeys(c1, v, x, k);
    }
    PlugIgnoresKeys(c2, m, v, x, k);
    SeverIgnoresKeys(PlugCells(c2, m, v), p, v, x, k);
  }

  // ---------------------------------------------------------------------
  // The cut as written.

  /** As written, a cut of the child that the parent's `child` pointer
      designates leaves that pointer on the cut node, which is now a root:
      the parent has no child list at all, so no forest describes the
      cells. */
  lemma AsWrittenLosesFamily(f: Forest, m: Node, v: Node)
    requires Shape(f, m) && v in f.cells && f.cells[v].parent != null && f.cells[v].parent in f.cells
    requires f.cells[f.cells[v].parent].child == v
    ensures Cuttable(f, m, v)
    ensures var c1, p := CutOutCellsAsWritten(f.cells, m, v), f.cells[v].parent;
            p in c1 && c1[p].child == v && v in c1 && c1[v].parent == null &&
            (forall ks :: !Family(c1, p, ks)) &&
            (forall g: Forest, m1: Node? :: g.cells == c1 ==> !Shape(g, m1))
  {
    var i := CutSetup(f, m, v);
    var c, p := f.cells, f.cells[v].parent;
    var c1 := CutOutCellsAsWritten(c, m, v);
    hide CutCells, SeverCells;
    CutFacts(c, m, v);
    SeverFacts(CutCells(c, m, v), p, v);
    forall g: Forest, m1: Node? | g.cells == c1 ensures !Shape(g, m1) {
      ShapeFamily(g, m1, p);
    }
  }
}
