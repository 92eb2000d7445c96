/**
 * extract_min (FibHeap/FibHeap.h:111-182) on the forest value: the children
 * of the minimum are promoted to roots, the minimum leaves the root list,
 * consolidate links roots of equal degree, and a scan of the degree table
 * picks the new minimum.
 */
module Extracting {
  import opened FibNodes
  import opened Rings
  import opened Forests
  import opened Decreasing

  // ---------------------------------------------------------------------
  // The link step of consolidate (FibHeap/FibHeap.h:151-168).

  /** What linking `z` below `p` reads: the siblings of `z`, and the child
      of `p` with its right sibling when there is one. */
  ghost predicate LinkReady(c: Cells, p: Node, z: Node) {
    p in c && z in c &&
    c[z].left != null && c[z].left in c && c[z].right != null && c[z].right in c &&
    (c[p].child != null ==> c[p].child in c && c[c[p].child].right != null && c[c[p].child].right in c)
  }

  /** `z` joins the child list of `p`: as its only child, or just right of
      `p.child` (FibHeap/FibHeap.h:156-166). */
  function AttachCells(c: Cells, p: Node, z: Node): (r: Cells)
    requires p in c && z in c
    requires c[p].child != null ==> c[p].child in c && c[c[p].child].right != null && c[c[p].child].right in c
    ensures r.Keys == c.Keys
  {
    if c[p].child == null then WithLeft(WithRight(WithChild(c, p, z), z, z), z, z)
    else var ch := c[p].child; var cr := c[ch].right;
         WithLeft(WithRight(WithRight(WithLeft(c, cr, z), z, cr), ch, z), z, ch)
  }

  /** The cells after `z` leaves the root list and joins the child list of
      `p`, unmarked (FibHeap/FibHeap.h:153-167). */
  function LinkCells(c: Cells, p: Node, z: Node): (r: Cells)
    requires LinkReady(c, p, z)
    ensures r.Keys == c.Keys
  {
    WithMark(AttachCells(WithParent(UnlinkCells(c, z), z, p), p, z), z, false)
  }

  /** The minimum after the link: it moves on to the right when `z` was it. */
  function LinkMin(c: Cells, m: Node, z: Node): Node?
    requires z in c
  {
    if z == m then c[z].right else m
  }

  /** The level `p` needs to stay above its new child `z`. */
  function LinkLevel(f: Forest, p: Node, z: Node): nat
    requires p in f.level && z in f.level
  {
    if f.level[p] <= f.level[z] then f.level[z] + 1 else f.level[p]
  }

  /** The forest after linking the root `z` below the root `p`. */
  ghost function LinkForest(f: Forest, p: Node, z: Node): Forest
    requires LinkReady(f.cells, p, z) && p in f.kids && p in f.level && z in f.level
  {
    var ks := f.kids[p];
    var lv := LinkLevel(f, p, z);
    Forest(LinkCells(f.cells, p, z), f.nodes, Remove(f.roots, z),
           f.kids[p := if ks == [] then [z] else [ks[0], z] + ks[1..]],
           f.level[p := lv], if f.top < lv then lv else f.top)
  }

  /** The effect of a link, field by field, when the nodes it touches are
      apart as they are for two roots. */
  lemma LinkFacts(c: Cells, p: Node, z: Node)
    requires LinkReady(c, p, z) && p != z && c[z].left != z
    requires c[p].child != null ==>
               var ch := c[p].child; var cr := c[ch].right;
               ch != z && cr != z && ch != c[z].left && ch != c[z].right && cr != c[z].left && cr != c[z].right
    ensures var c1 := LinkCells(c, p, z);
            var l, r, ch := c[z].left, c[z].right, c[p].child;
            var cr := if ch == null then z else c[ch].right;
            c1.Keys == c.Keys &&
            forall nd :: nd in c ==>
              c1[nd].key == c[nd].key && c1[nd].degree == c[nd].degree &&
              c1[nd].parent == (if nd == z then p else c[nd].parent) &&
              c1[nd].child == (if nd == p && ch == null then z else c[nd].child) &&
              c1[nd].mark == (if nd == z then false else c[nd].mark) &&
              c1[nd].right == (if nd == z then cr else if nd == ch then z else if nd == l then r else c[nd].right) &&
              c1[nd].left == (if nd == z then (if ch == null then z else ch) else if nd == cr then z else if nd == r then l else c[nd].left)
  {
    hide UnlinkCells, AttachCells;
    var c1 := WithParent(UnlinkCells(c, z), z, p);
    UnlinkFacts(c, z);
    AttachFacts(c1, p, z);
  }

  lemma AttachFacts(c: Cells, p: Node, z: Node)
    requires p in c && z in c && p != z
    requires c[p].child != null ==> c[p].child in c && c[c[p].child].right != null && c[c[p].child].right in c
    requires c[p].child != null ==> c[p].child != z && c[c[p].child].right != z
    ensures var c1, ch := AttachCells(c, p, z), c[p].child;
            var cr := if ch == null then z else c[ch].right;
            c1.Keys == c.Keys &&
            forall nd :: nd in c ==>
              c1[nd].key == c[nd].key && c1[nd].degree == c[nd].degree &&
              c1[nd].parent == c[nd].parent && c1[nd].mark == c[nd].mark &&
              c1[nd].child == (if nd == p && ch == null then z else c[nd].child) &&
              c1[nd].right == (if nd == z then cr else if nd == ch then z else c[nd].right) &&
              c1[nd].left == (if nd == z then (if ch == null then z else ch) else if nd == cr then z else c[nd].left)
  {
  }

  /** Two roots, seen by the link: the siblings of `z` are roots apart from
      `z`, and `p.child`, when there is one, starts the child list of `p`. */
  lemma LinkSetup(f: Forest, m: Node, p: Node, z: Node) returns (i: nat)
    requires Shape(f, m) && p in f.roots && z in f.roots && p != z
    ensures i < |f.roots| && f.roots[i] == z && |f.roots| >= 2
    ensures LinkReady(f.cells, p, z) && p in f.kids && p in f.level && z in f.level
    ensures var c := f.cells;
            c[z].left == Pred(f.roots, i) && c[z].right == Succ(f.roots, i) &&
            c[z].left != z && c[z].right != z &&
            c[p].parent == null && c[z].parent == null &&
            c[c[z].left].parent == null && c[c[z].right].parent == null &&
            Family(c, p, f.kids[p]) &&
            (c[p].child != null ==>
               f.kids[p] != [] && c[p].child == f.kids[p][0] && c[c[p].child].right == Second(f.kids[p]) &&
               c[c[p].child].parent == p && c[c[c[p].child].right].parent == p)
  {
    var c, r0 := f.cells, f.roots;
    RootsIn(f, m);
    i := IndexOf(r0, z);
    var j := IndexOf(r0, p);
    RingNeighbours(c, r0, i);
    PredSuccApart(r0, i);
    assert Placed(f, p) && Placed(f, z);
    var ks := f.kids[p];
    if ks != [] {
      RingNeighbours(c, ks, 0);
      assert Succ(ks, 0) == Second(ks);
      assert c[ks[0]].parent == p;
      var k := if |ks| == 1 then 0 else 1;
      assert c[ks[k]].parent == p;
    }
  }

  /** Two distinct roots, the first with no larger key: what consolidate
      links. */
  ghost predicate Linkable(f: Forest, m: Node, p: Node, z: Node) {
    Shape(f, m) && p in f.roots && z in f.roots && p != z &&
    p in f.cells && z in f.cells && f.cells[p].key <= f.cells[z].key
  }

  /** A link keeps every node tidy: the cells, seen on their own. */
  lemma LinkTidyCells(c: Cells, p: Node, z: Node)
    requires forall nd {:trigger Tidy(c, nd)} :: nd in c ==> Tidy(c, nd)
    requires LinkReady(c, p, z) && p != z && c[z].left != z && c[p].key <= c[z].key
    requires c[p].child != null ==>
               var ch := c[p].child; var cr := c[ch].right;
               ch != z && cr != z && ch != c[z].left && ch != c[z].right && cr != c[z].left && cr != c[z].right
    ensures var c1 := LinkCells(c, p, z);
            forall nd {:trigger Tidy(c1, nd)} :: nd in c1 ==> Tidy(c1, nd)
  {
    hide LinkCells;
    LinkFacts(c, p, z);
    var c1 := LinkCells(c, p, z);
    var l, r, ch := c[z].left, c[z].right, c[p].child;
    assert Tidy(c, z) && Tidy(c, l) && Tidy(c, r) && Tidy(c, p);
    if ch != null {
      assert Tidy(c, ch) && Tidy(c, c[ch].right);
    }
    forall nd | nd in c1 ensures Tidy(c1, nd) {
      assert Tidy(c, nd);
      var k := c[nd];
      assert Tidy(c, k.left) && Tidy(c, k.right);
    }
  }

  /** The four parts of the shape, for proofs that keep `Shape` hidden. */
  lemma ShapeClosed(f: Forest, m: Node?)
    requires Shape(f, m)
    ensures Closed(f, m) && Indexed(f) && RootList(f, m) && AllPlaced(f)
  {
  }

  /** A link keeps every node tidy. */
  lemma LinkTidy(f: Forest, m: Node, p: Node, z: Node)
    requires Linkable(f, m, p, z)
    ensures LinkReady(f.cells, p, z)
    ensures var c1 := LinkCells(f.cells, p, z);
            forall nd {:trigger Tidy(c1, nd)} :: nd in c1 ==> Tidy(c1, nd)
  {
    hide LinkCells, Shape;
    var i := LinkSetup(f, m, p, z);
    ShapeClosed(f, m);
    LinkTidyCells(f.cells, p, z);
  }

  /** A link takes `z` out of a list of parentless nodes. */
  lemma LinkRing(c: Cells, r0: seq<Node>, i: nat, p: Node, z: Node)
    requires Ring(c, r0) && 2 <= |r0| && i < |r0| && r0[i] == z
    requires forall v :: v in r0 ==> v in c && c[v].parent == null
    requires LinkReady(c, p, z) && p != z && c[z].left == Pred(r0, i) && c[z].right == Succ(r0, i)
    requires c[p].child != null ==> c[c[p].child].parent == p && c[c[c[p].child].right].parent == p
    ensures var c1 := LinkCells(c, p, z);
            Ring(c1, Remove(r0, z)) && forall v :: v in Remove(r0, z) ==> v in c && c1[v].parent == null
  {
    hide LinkCells;
    PredSuccApart(r0, i);
    LinkFacts(c, p, z);
    var c1 := LinkCells(c, p, z);
    RingUnlink(c, c1, r0, i);
    RemoveAt(r0, i);
    RemoveMembers(r0, z);
  }

  /** A link takes `z` out of the root list; the minimum moves on with it. */
  lemma LinkRootList(f: Forest, m: Node, p: Node, z: Node)
    requires Linkable(f, m, p, z)
    ensures LinkReady(f.cells, p, z) && p in f.kids && p in f.level && z in f.level
    ensures var g := LinkForest(f, p, z);
            RootList(g, LinkMin(f.cells, m, z)) && g.roots == Remove(f.roots, z)
  {
    hide LinkCells, Shape;
    var c, r0 := f.cells, f.roots;
    var i := LinkSetup(f, m, p, z);
    ShapeClosed(f, m);
    RootsIn(f, m);
    LinkRing(c, r0, i, p, z);
    var c1 := LinkCells(c, p, z);
    var rs := Remove(r0, z);
    LinkRootsHead(c, r0, i, m, z);
    hide Ring;
    forall j | 0 <= j < |rs| ensures rs[j] in c1 && c1[rs[j]].parent == null {
      assert rs[j] in rs;
    }
  }

  /** Once `z` is out of the root list, the list starts at the new minimum. */
  lemma LinkRootsHead(c: Cells, r0: seq<Node>, i: nat, m: Node, z: Node)
    requires Distinct(r0) && 2 <= |r0| && i < |r0| && r0[i] == z && r0[0] == m
    requires z in c && c[z].right == Succ(r0, i)
    ensures Remove(r0, z) != [] && Remove(r0, z)[0] == LinkMin(c, m, z)
  {
    RemoveAt(r0, i);
    var rs := Remove(r0, z);
    if i == 0 {
      assert rs[0] == r0[1];
    } else {
      assert rs[0] == r0[0] != r0[i];
    }
  }

  /** The child list of `p` gains `z`: as its only member, or just right of
      its first. */
  lemma LinkFamily(c: Cells, p: Node, z: Node, ks: seq<Node>)
    requires p in c && Family(c, p, ks) && z !in ks
    requires LinkReady(c, p, z) && p != z && c[z].left != z
    requires c[p].child != null ==>
               var ch := c[p].child; var cr := c[ch].right;
               ch != z && cr != z && ch != c[z].left && ch != c[z].right && cr != c[z].left && cr != c[z].right
    requires ks != [] ==> c[ks[0]].right == Second(ks)
    requires forall v :: v in ks ==> v != c[z].left && v != c[z].right
    ensures Family(LinkCells(c, p, z), p, if ks == [] then [z] else [ks[0], z] + ks[1..])
  {
    hide LinkCells;
    LinkFacts(c, p, z);
    var c1 := LinkCells(c, p, z);
    if ks != [] {
      forall v | v in ks ensures v in c {
        var j := IndexOf(ks, v);
      }
      RingPlug(c, c1, ks, z);
      var ks1 := [ks[0], z] + ks[1..];
      forall j | 0 <= j < |ks1| ensures ks1[j] in c1 && c1[ks1[j]].parent == p {
        if j >= 2 {
          assert ks1[j] == ks[j - 1];
        }
      }
    }
  }

  /** After a link `p` is placed, with `z` in its child list. */
  lemma LinkPlacedTop(f: Forest, m: Node, p: Node, z: Node)
    requires Linkable(f, m, p, z)
    ensures LinkReady(f.cells, p, z) && p in f.kids && p in f.level && z in f.level
    ensures p in LinkForest(f, p, z).cells && Placed(LinkForest(f, p, z), p)
  {
    hide LinkCells, Shape;
    var c := f.cells;
    var i := LinkSetup(f, m, p, z);
    ShapeClosed(f, m);
    RootsIn(f, m);
    LinkFacts(c, p, z);
    assert Placed(f, p);
    assert z !in f.kids[p];
    assert forall v :: v in f.kids[p] ==> v != c[z].left && v != c[z].right;
    LinkFamily(c, p, z, f.kids[p]);
    RemoveMembers(f.roots, z);
  }

  /** After a link `z` is placed, as a child of `p`. */
  lemma LinkPlacedChild(f: Forest, m: Node, p: Node, z: Node)
    requires Linkable(f, m, p, z)
    ensures LinkReady(f.cells, p, z) && p in f.kids && p in f.level && z in f.level
    ensures z in LinkForest(f, p, z).cells && Placed(LinkForest(f, p, z), z)
  {
    hide LinkCells, Shape;
    var c := f.cells;
    var i := LinkSetup(f, m, p, z);
    ShapeClosed(f, m);
    LinkFacts(c, p, z);
    var g := LinkForest(f, p, z);
    var c1 := g.cells;
    assert Placed(f, z);
    var ks := f.kids[z];
    forall j | 0 <= j < |ks|
      ensures ks[j] in c1 && c1[ks[j]].left == c[ks[j]].left && c1[ks[j]].right == c[ks[j]].right && c1[ks[j]].parent == c[ks[j]].parent
    {
      assert c[ks[j]].parent == z;
    }
    FamilyFrame(c, c1, z, ks);
    assert g.kids[p] == if f.kids[p] == [] then [z] else [f.kids[p][0], z] + f.kids[p][1..];
    assert z in g.kids[p];
  }

  /** A link changes no field but the parent and mark of `z` and the child
      pointer of `p`, and no cell but those of `z`, `p`, the siblings of
      `z` and the first two children of `p`. */
  lemma LinkSame(c: Cells, p: Node, z: Node)
    requires LinkReady(c, p, z) && p != z && c[z].left != z
    requires c[p].child != null ==>
               var ch := c[p].child; var cr := c[ch].right;
               ch != z && cr != z && ch != c[z].left && ch != c[z].right && cr != c[z].left && cr != c[z].right
    ensures var c1, l, r, ch := LinkCells(c, p, z), c[z].left, c[z].right, c[p].child;
            var cr := if ch == null then z else c[ch].right;
            c1.Keys == c.Keys &&
            (forall nd :: nd in c && nd != z && nd != p ==> SameFields(c1[nd], c[nd])) &&
            (forall nd :: nd in c && nd != z && nd != p && nd != l && nd != r && nd != ch && nd != cr ==> c1[nd] == c[nd])
  {
    hide LinkCells;
    LinkFacts(c, p, z);
  }

  /** What the shape says about one node. */
  lemma ShapeNode(f: Forest, m: Node?, nd: Node)
    requires Shape(f, m) && nd in f.cells
    ensures Placed(f, nd) && Tidy(f.cells, nd) && Distinct(f.roots) && Indexed(f)
  {
  }

  /** After a link every other node is placed. */
  lemma LinkPlacedOther(f: Forest, m: Node, p: Node, z: Node, nd: Node)
    requires Linkable(f, m, p, z) && nd in f.cells && nd != p && nd != z
    ensures LinkReady(f.cells, p, z) && p in f.kids && p in f.level && z in f.level
    ensures nd in LinkForest(f, p, z).cells && Placed(LinkForest(f, p, z), nd)
  {
    hide LinkCells, Shape;
    var c := f.cells;
    var i := LinkSetup(f, m, p, z);
    ShapeNode(f, m, nd);
    LinkSame(c, p, z);
    var g := LinkForest(f, p, z);
    var c1 := g.cells;
    forall v | v in f.kids[nd] ensures v in c1 && c1[v] == c[v] {
      var j := IndexOf(f.kids[nd], v);
    }
    var q := c[nd].parent;
    if q == null {
      RemoveMembers(f.roots, z);
    } else if q == p {
      var kp := f.kids[p];
      var j := IndexOf(kp, nd);
      assert g.kids[p] == [kp[0], z] + kp[1..];
      assert nd in g.kids[p] by {
        if j > 0 {
          assert g.kids[p][j + 1] == nd;
        }
      }
    }
    PlacedFrame(f, g, nd);
  }

  /** After a link every node is placed. */
  lemma LinkPlaced(f: Forest, m: Node, p: Node, z: Node)
    requires Linkable(f, m, p, z)
    ensures LinkReady(f.cells, p, z) && p in f.kids && p in f.level && z in f.level
    ensures AllPlaced(LinkForest(f, p, z))
  {
    hide LinkCells, Shape, Placed;
    var i := LinkSetup(f, m, p, z);
    var g := LinkForest(f, p, z);
    LinkPlacedTop(f, m, p, z);
    LinkPlacedChild(f, m, p, z);
    forall nd | nd in g.cells ensures Placed(g, nd) {
      if nd != p && nd != z {
        LinkPlacedOther(f, m, p, z, nd);
      }
    }
  }

  /** After a link the nodes are listed as before and every one is tidy. */
  lemma LinkClosed(f: Forest, m: Node, p: Node, z: Node)
    requires Linkable(f, m, p, z)
    ensures LinkReady(f.cells, p, z) && p in f.kids && p in f.level && z in f.level
    ensures Closed(LinkForest(f, p, z), LinkMin(f.cells, m, z)) && Indexed(LinkForest(f, p, z))
  {
    hide LinkCells, Shape, Tidy;
    var c := f.cells;
    var i := LinkSetup(f, m, p, z);
    LinkTidy(f, m, p, z);
    ShapeClosed(f, m);
  }

  /** Linking the root `z` below the root `p`, whose key is no larger,
      keeps the forest shape; it takes `z` out of the root list and changes
      no key and no degree. */
  lemma LinkShape(f: Forest, m: Node, p: Node, z: Node)
    requires Linkable(f, m, p, z)
    ensures LinkReady(f.cells, p, z) && p in f.kids && p in f.level && z in f.level
    ensures var g := LinkForest(f, p, z);
            Shape(g, LinkMin(f.cells, m, z)) && g.cells.Keys == f.cells.Keys && g.nodes == f.nodes &&
            g.roots == Remove(f.roots, z) &&
            forall nd :: nd in f.cells ==> g.cells[nd].key == f.cells[nd].key && g.cells[nd].degree == f.cells[nd].degree
  {
    hide LinkCells, Closed, RootList, AllPlaced, Indexed;
    var c := f.cells;
    var i := LinkSetup(f, m, p, z);
    LinkClosed(f, m, p, z);
    LinkRootList(f, m, p, z);
    LinkPlaced(f, m, p, z);
    LinkSame(c, p, z);
    LinkFacts(c, p, z);
  }

  /** A link changes the degree of nothing; consolidate then bumps the
      degree of one node, which keeps the shape since the shape does not
      look at degrees. */
  lemma DegreeShape(f: Forest, m: Node?, y: Node, d: u32)
    requires Shape(f, m) && y in f.cells
    ensures Shape(f.(cells := WithDegree(f.cells, y, d)), m)
  {
    ClosedOrdered(f, m);
    ShapeFrame(f, f.(cells := WithDegree(f.cells, y, d)), m);
  }

  // ---------------------------------------------------------------------
  // The children of the minimum become roots (FibHeap/FibHeap.h:116-125).

  /** The children of the minimum in the order in which they end up in the
      root list: from the second one round to the first. */
  function Promoted(ks: seq<Node>): (r: seq<Node>)
    ensures |r| == |ks|
  {
    if ks == [] then [] else ks[1..] + [ks[0]]
  }

  lemma PromotedMembers(ks: seq<Node>)
    ensures forall v :: v in Promoted(ks) <==> v in ks
    ensures Distinct(ks) ==> Distinct(Promoted(ks))
  {
    if ks != [] {
      assert ks == [ks[0]] + ks[1..];
      if Distinct(ks) {
        RotateDistinct(ks, 1);
      }
    }
  }

  /** The child list of `x` spliced into the root list just right of `x`
      (FibHeap/FibHeap.h:118-123). */
  function PromoteCells(c: Cells, x: Node): (r: Cells)
    requires x in c && c[x].right != null && c[x].right in c
    requires c[x].child != null && c[x].child in c && c[c[x].child].right != null && c[c[x].child].right in c
    ensures r.Keys == c.Keys
  {
    var y := c[x].child;
    var yr, xr := c[y].right, c[x].right;
    WithLeft(WithRight(WithRight(WithLeft(c, yr, x), x, yr), y, xr), xr, y)
  }

  /** The nodes of `s` made parentless (FibHeap/FibHeap.h:124). */
  function ClearParents(c: Cells, s: seq<Node>): (r: Cells)
    requires forall v :: v in s ==> v in c
    ensures r.Keys == c.Keys
  {
    if s == [] then c else WithParent(ClearParents(c, s[1..]), s[0], null)
  }

  /** What the promotion reads: the right neighbour of `x`, and the child of
      `x` with its right sibling when there is one. */
  ghost predicate Lifting(c: Cells, x: Node, ks: seq<Node>) {
    x in c && c[x].right != null && c[x].right in c && (forall v :: v in ks ==> v in c) &&
    (c[x].child != null ==> c[x].child in c && c[c[x].child].right != null && c[c[x].child].right in c)
  }

  /** The cells after the children `ks` of `x` have become roots. */
  ghost function LiftCells(c: Cells, x: Node, ks: seq<Node>): (r: Cells)
    requires Lifting(c, x, ks)
    ensures r.Keys == c.Keys
  {
    PromotedMembers(ks);
    ClearParents(if c[x].child == null then c else PromoteCells(c, x), Promoted(ks))
  }

  /** Lifting the children of `x` leaves the key of `x` alone. */
  lemma LiftKey(c: Cells, x: Node, ks: seq<Node>)
    requires Lifting(c, x, ks)
    ensures x in LiftCells(c, x, ks) && LiftCells(c, x, ks)[x].key == c[x].key
  {
    PromotedMembers(ks);
    var c0 := if c[x].child == null then c else PromoteCells(c, x);
    ClearFacts(c0, Promoted(ks));
  }

  lemma {:induction false} ClearFacts(c: Cells, s: seq<Node>)
    requires forall v :: v in s ==> v in c
    ensures var c1 := ClearParents(c, s);
            forall nd :: nd in c ==> c1[nd] == c[nd].(parent := if nd in s then null else c[nd].parent)
  {
    if s != [] {
      ClearFacts(c, s[1..]);
    }
  }

  /** The effect of the promotion, field by field, when the child `y` and
      its right sibling are apart from `x` and its right sibling. */
  lemma LiftFacts(c: Cells, x: Node, ks: seq<Node>)
    requires Lifting(c, x, ks)
    requires c[x].child != null ==>
               var y := c[x].child; var yr := c[y].right;
               y != x && yr != x && y != c[x].right && yr != c[x].right
    ensures var c1, y, xr := LiftCells(c, x, ks), c[x].child, c[x].right;
            var yr := if y == null then x else c[y].right;
            c1.Keys == c.Keys &&
            forall nd :: nd in c ==>
              SameFields(c1[nd], c[nd].(parent := c1[nd].parent)) &&
              c1[nd].parent == (if nd in ks then null else c[nd].parent) &&
              c1[nd].right == (if y != null && nd == x then yr else if y != null && nd == y then xr else c[nd].right) &&
              c1[nd].left == (if y != null && nd == yr then x else if y != null && nd == xr then y else c[nd].left)
  {
    hide PromoteCells, ClearParents;
    var c0 := if c[x].child == null then c else PromoteCells(c, x);
    if c[x].child != null {
      PromoteFacts(c, x);
    }
    PromotedMembers(ks);
    ClearFacts(c0, Promoted(ks));
  }

  lemma PromoteFacts(c: Cells, x: Node)
    requires x in c && c[x].right != null && c[x].right in c
    requires c[x].child != null && c[x].child in c && c[c[x].child].right != null && c[c[x].child].right in c
    requires var y := c[x].child; var yr := c[y].right;
             y != x && yr != x && y != c[x].right && yr != c[x].right
    ensures var c1, y, xr := PromoteCells(c, x), c[x].child, c[x].right;
            var yr := c[y].right;
            c1.Keys == c.Keys &&
            forall nd :: nd in c ==>
              SameFields(c1[nd], c[nd]) &&
              c1[nd].right == (if nd == x then yr else if nd == y then xr else c[nd].right) &&
              c1[nd].left == (if nd == yr then x else if nd == xr then y else c[nd].left)
  {
  }

  /** The minimum `x` of a forest, seen by the promotion: its children and
      the roots are two disjoint lists, entered at `x.child` and at `x`. */
  lemma LiftSetup(f: Forest, x: Node)
    requires Shape(f, x)
    ensures x in f.cells && x in f.kids && f.roots != [] && f.roots[0] == x
    ensures var c, ks := f.cells, f.kids[x];
            Lifting(c, x, ks) && Family(c, x, ks) && Ring(c, f.roots) &&
            c[x].right == Second(f.roots) && c[x].parent == null &&
            (forall v :: v in f.roots ==> v in c && c[v].parent == null) &&
            (forall v :: v in ks ==> v in c && c[v].parent == x) &&
            (ks != [] ==> c[x].child == ks[0] && c[ks[0]].right == Second(ks))
    ensures var c := f.cells;
            c[x].child != null ==>
              var y := c[x].child; var yr := c[y].right;
              y != x && yr != x && y != c[x].right && yr != c[x].right
  {
    var c, ks := f.cells, f.kids[x];
    SecondRoot(f, x);
    RootsIn(f, x);
    assert Placed(f, x);
    forall v | v in ks ensures v in c && c[v].parent == x {
      var i := IndexOf(ks, v);
    }
    if ks != [] {
      RingNeighbours(c, ks, 0);
      assert Succ(ks, 0) == Second(ks);
      var k := if |ks| == 1 then 0 else 1;
      assert ks[k] in ks;
    }
  }

  /** After the promotion the children of `x` follow `x` in the root list,
      ahead of the other roots, and none has a parent. */
  lemma LiftRing(f: Forest, x: Node)
    requires Shape(f, x)
    ensures x in f.cells && x in f.kids && f.roots != [] && Lifting(f.cells, x, f.kids[x])
    ensures var c1, rs := LiftCells(f.cells, x, f.kids[x]), Promoted(f.kids[x]) + f.roots[1..];
            Ring(c1, [x] + rs) && forall v :: v in rs ==> v in c1 && c1[v].parent == null
  {
    hide LiftCells, Shape;
    LiftSetup(f, x);
    var c, ks, r0 := f.cells, f.kids[x], f.roots;
    var c1 := LiftCells(c, x, ks);
    var rs := Promoted(ks) + r0[1..];
    LiftFacts(c, x, ks);
    PromotedMembers(ks);
    assert r0 == [x] + r0[1..];
    if ks == [] {
      forall v | v in r0 ensures v in c && v in c1 && c1[v].left == c[v].left && c1[v].right == c[v].right {
      }
      RingFrame(c, c1, r0);
    } else {
      assert [x] + rs == [r0[0]] + ks[1..] + [ks[0]] + r0[1..];
      RingCross(c, c1, r0, ks);
    }
    forall v | v in rs ensures v in c1 && c1[v].parent == null {
      if v !in ks {
        assert v in r0;
      }
    }
  }

  /** The cells after the splice of the promotion, before any parent
      is cleared. */
  function SpliceChildren(c: Cells, x: Node): (r: Cells)
    requires x in c && c[x].right != null && c[x].right in c
    requires c[x].child != null ==> c[x].child in c && c[c[x].child].right != null && c[c[x].child].right in c
    ensures r.Keys == c.Keys
  {
    if c[x].child == null then c else PromoteCells(c, x)
  }

  /** The loop that clears the parents of the promoted children
      (FibHeap/FibHeap.h:124) runs from `x.child`, the last promoted child,
      until it reaches `x`, which is none of them; clearing their parents
      gives the cells of the promotion. */
  lemma LiftWalk(f: Forest, x: Node)
    requires Shape(f, x)
    ensures x in f.cells && x in f.kids && Lifting(f.cells, x, f.kids[x])
    ensures var c, ks := f.cells, f.kids[x];
            var c0, ps := SpliceChildren(c, x), Promoted(ks);
            (c[x].child == null <==> ps == []) &&
            (forall v :: v in ps ==> v in c0 && v != x) &&
            (ps != [] ==> c[x].child == ps[|ps| - 1]) &&
            LiftCells(c, x, ks) == ClearParents(c0, ps)
  {
    hide Shape, PromoteCells, ClearParents;
    LiftSetup(f, x);
    var ks := f.kids[x];
    PromotedMembers(ks);
    if ks != [] {
      assert Promoted(ks)[|ks| - 1] == ks[0];
    }
  }

  /** The walk goes left: from each promoted child to the one before it,
      and from the first to `x`. */
  lemma LiftWalkLeft(f: Forest, x: Node, j: nat)
    requires Shape(f, x)
    ensures x in f.cells && x in f.kids && Lifting(f.cells, x, f.kids[x])
    ensures var c0, ps := SpliceChildren(f.cells, x), Promoted(f.kids[x]);
            j < |ps| ==> ps[j] in c0 && c0[ps[j]].left == (if j == 0 then x else ps[j - 1])
  {
    hide Shape, PromoteCells, ClearParents, LiftCells, Ring;
    LiftWalk(f, x);
    LiftRing(f, x);
    var c, ks := f.cells, f.kids[x];
    var c0, ps := SpliceChildren(c, x), Promoted(ks);
    if j < |ps| {
      var c1 := LiftCells(c, x, ks);
      var s := [x] + (ps + f.roots[1..]);
      ClearFacts(c0, ps);
      RingNeighbours(c1, s, j + 1);
      assert s[j + 1] == ps[j] && s[j] == (if j == 0 then x else ps[j - 1]);
    }
  }

  /** The left links of the splice lead from each promoted child to the one
      before it, and from the first to `x`, which is none of them. */
  ghost predicate WalksLeft(c0: Cells, ps: seq<Node>, x: Node) {
    (forall v :: v in ps ==> v in c0 && v != x) &&
    forall j {:trigger c0[ps[j]]} :: 0 <= j < |ps| ==> c0[ps[j]].left == if j == 0 then x else ps[j - 1]
  }

  /** The walk to the left over all the promoted children. */
  lemma LiftWalksLeft(f: Forest, x: Node)
    requires Shape(f, x)
    ensures x in f.cells && x in f.kids && Lifting(f.cells, x, f.kids[x])
    ensures WalksLeft(SpliceChildren(f.cells, x), Promoted(f.kids[x]), x)
  {
    hide Shape, PromoteCells, ClearParents, LiftCells, SpliceChildren, Ring;
    LiftWalk(f, x);
    var c0, ps := SpliceChildren(f.cells, x), Promoted(f.kids[x]);
    forall j | 0 <= j < |ps| ensures c0[ps[j]].left == if j == 0 then x else ps[j - 1] {
      LiftWalkLeft(f, x, j);
    }
    assert forall v :: v in ps ==> v in c0 && v != x;
    assert forall j {:trigger c0[ps[j]]} :: 0 <= j < |ps| ==> c0[ps[j]].left == if j == 0 then x else ps[j - 1];
    assert WalksLeft(c0, ps, x);
  }

  /** One step of the walk to the left, seen from the loop: clearing the
      parent of `ps[i - 1]` extends the cleared suffix, and its left link
      leads to the next node of the walk. */
  lemma WalkStep(c0: Cells, ps: seq<Node>, x: Node, i: nat)
    requires WalksLeft(c0, ps, x) && 0 < i <= |ps|
    ensures var c := ClearParents(c0, ps[i..]);
            ps[i - 1] in c && ps[i - 1] != x &&
            ClearParents(c0, ps[i - 1..]) == WithParent(c, ps[i - 1], null) &&
            WithParent(c, ps[i - 1], null)[ps[i - 1]].left == (if i == 1 then x else ps[i - 2]) &&
            (i >= 2 ==> ps[i - 2] != x)
  {
    ClearStep(c0, ps, i);
    assert ps[i - 1] in ps;
    if i >= 2 {
      assert ps[i - 2] in ps;
    }
  }

  /** One step of the walk: clearing the parent of `ps[i - 1]` extends the
      cleared suffix, and leaves its left link as the splice set it. */
  lemma ClearStep(c0: Cells, ps: seq<Node>, i: nat)
    requires (forall v :: v in ps ==> v in c0) && 0 < i <= |ps|
    ensures var c := ClearParents(c0, ps[i..]);
            ps[i - 1] in c && c[ps[i - 1]].left == c0[ps[i - 1]].left &&
            ClearParents(c0, ps[i - 1..]) == WithParent(c, ps[i - 1], null)
  {
    assert ps[i - 1..][0] == ps[i - 1] && ps[i - 1..][1..] == ps[i..];
    ClearFacts(c0, ps[i..]);
  }

  // ---------------------------------------------------------------------
  // The minimum leaves the root list (FibHeap/FibHeap.h:126-138).

  /** The roots once `x` has gone: its children, then the other roots. */
  ghost function Rest(f: Forest, x: Node): seq<Node>
    requires x in f.kids && f.roots != []
  {
    Promoted(f.kids[x]) + f.roots[1..]
  }

  /** The last element of a non-empty sequence. */
  function Last(s: seq<Node>): Node
    requires s != []
  {
    s[|s| - 1]
  }

  /** The forest once the minimum `x` has left it, its children promoted to
      roots; the root list is entered at the left neighbour of `x`. */
  ghost function ExtractForest(f: Forest, x: Node): Forest
    requires Shape(f, x) && x in f.kids && f.roots != [] && Rest(f, x) != []
  {
    LiftRing(f, x);
    var rs := Rest(f, x);
    var c1 := LiftCells(f.cells, x, f.kids[x]);
    RingNeighbours(c1, [x] + rs, 0);
    Forest(UnlinkCells(c1, x) - {x}, Remove(f.nodes, x), [Last(rs)] + rs[..|rs| - 1],
           f.kids - {x}, f.level - {x}, f.top)
  }

  /** After the promotion `x` is alone exactly when it had no child and was
      the only root; otherwise its sibling links reach the rest. */
  lemma LiftAlone(f: Forest, x: Node)
    requires Shape(f, x)
    ensures x in f.cells && x in f.kids && f.roots != [] && Lifting(f.cells, x, f.kids[x])
    ensures var c1, rs := LiftCells(f.cells, x, f.kids[x]), Rest(f, x);
            x in c1 && (c1[x].right == x <==> rs == []) &&
            (rs != [] ==> c1[x].left == Last(rs) && c1[x].right == rs[0])
  {
    hide LiftCells, Shape;
    LiftRing(f, x);
    var rs := Rest(f, x);
    var c1 := LiftCells(f.cells, x, f.kids[x]);
    RingNeighbours(c1, [x] + rs, 0);
    if rs != [] {
      assert ([x] + rs)[1] == rs[0] != x;
    }
  }

  /** The rest of the roots are the children of `x` and the other roots,
      none of them `x`. */
  lemma RestMembers(f: Forest, x: Node)
    requires Shape(f, x) && x in f.kids && f.roots != []
    ensures var rs := Rest(f, x);
            x !in rs && forall v :: v in rs <==> v in f.kids[x] || (v in f.roots && v != x)
  {
    hide Shape;
    LiftSetup(f, x);
    var ks, r0 := f.kids[x], f.roots;
    PromotedMembers(ks);
    assert r0 == [x] + r0[1..];
    assert Distinct(r0);
    forall v ensures v in r0[1..] <==> v in r0 && v != x {
      if v in r0[1..] {
        var i := IndexOf(r0[1..], v);
        assert r0[i + 1] == v;
      }
    }
  }

  /** A node taken out of a circular list and out of the cells leaves the
      rest of the list in place. */
  lemma UnlinkRing(c1: Cells, x: Node, rs: seq<Node>)
    requires Ring(c1, [x] + rs) && rs != []
    requires forall v :: v in rs ==> v in c1 && c1[v].parent == null
    ensures x in c1 && c1[x].left != null && c1[x].left in c1 && c1[x].right != null && c1[x].right in c1
    ensures var c4 := UnlinkCells(c1, x) - {x};
            Ring(c4, rs) && forall v :: v in rs ==> v in c4 && c4[v].parent == null
  {
    hide UnlinkCells, Ring;
    UnlinkRingLinks(c1, x, rs);
    var c3 := UnlinkCells(c1, x);
    UnlinkFacts(c1, x);
    RingFrame(c3, c3 - {x}, rs);
  }

  /** The links of the rest of a circular list once one node is unlinked. */
  lemma UnlinkRingLinks(c1: Cells, x: Node, rs: seq<Node>)
    requires Ring(c1, [x] + rs) && rs != [] && forall v :: v in rs ==> v in c1
    ensures x in c1 && c1[x].left != null && c1[x].left in c1 && c1[x].right != null && c1[x].right in c1
    ensures Ring(UnlinkCells(c1, x), rs) && forall v :: v in rs ==> v != x
  {
    hide UnlinkCells, Ring;
    var rr := [x] + rs;
    RingNeighbours(c1, rr, 0);
    var c3 := UnlinkCells(c1, x);
    UnlinkFacts(c1, x);
    assert rr[..0] + rr[1..] == rs;
    RingUnlink(c1, c3, rr, 0);
    RingHeadApart(c1, x, rs);
  }

  /** The first node of a circular list is none of the others. */
  lemma RingHeadApart(c: Cells, x: Node, rs: seq<Node>)
    requires Ring(c, [x] + rs)
    ensures forall v :: v in rs ==> v != x
  {
    var rr := [x] + rs;
    forall v | v in rs ensures v != x {
      var i := IndexOf(rs, v);
      assert rr[i + 1] == v && rr[0] == x;
    }
  }

  /** The cells of the forest after the minimum `x` has gone. */
  lemma ExtractForestCells(f: Forest, x: Node)
    requires Shape(f, x) && x in f.kids && f.roots != [] && Rest(f, x) != []
    ensures Lifting(f.cells, x, f.kids[x])
    ensures var c1 := LiftCells(f.cells, x, f.kids[x]);
            x in c1 && c1[x].left != null && c1[x].left in c1 && c1[x].right != null && c1[x].right in c1 &&
            ExtractForest(f, x).cells == UnlinkCells(c1, x) - {x}
  {
    hide LiftCells, UnlinkCells, Shape;
    LiftRing(f, x);
    RingNeighbours(LiftCells(f.cells, x, f.kids[x]), [x] + Rest(f, x), 0);
  }

  /** The sibling links once the minimum `x` has gone: the rest of the roots
      form one list of parentless nodes. */
  lemma ExtractRing(f: Forest, x: Node)
    requires Shape(f, x) && x in f.kids && f.roots != [] && Rest(f, x) != []
    ensures var c1, rs := ExtractForest(f, x).cells, Rest(f, x);
            Ring(c1, rs) && forall v :: v in rs ==> v in c1 && c1[v].parent == null
  {
    hide LiftCells, Shape, UnlinkCells, ExtractForest, Ring;
    LiftRing(f, x);
    ExtractForestCells(f, x);
    UnlinkRing(LiftCells(f.cells, x, f.kids[x]), x, Rest(f, x));
  }

  /** The fields once the minimum `x` has gone: the children of `x` lose
      their parent, no other field changes, and a node outside the new root
      list keeps its cell. */
  lemma ExtractCells(f: Forest, x: Node)
    requires Shape(f, x) && x in f.kids && f.roots != [] && Rest(f, x) != []
    ensures var c, c1, rs := f.cells, ExtractForest(f, x).cells, Rest(f, x);
            c1.Keys == c.Keys - {x} &&
            (forall nd :: nd in c1 ==>
               SameFields(c1[nd], c[nd].(parent := c1[nd].parent)) &&
               c1[nd].parent == (if nd in f.kids[x] then null else c[nd].parent)) &&
            (forall nd :: nd in c1 && nd !in rs ==> c1[nd] == c[nd])
  {
    hide LiftCells, Shape, UnlinkCells, ExtractForest;
    LiftSetup(f, x);
    LiftAlone(f, x);
    RestMembers(f, x);
    ExtractForestCells(f, x);
    var c, ks, r0 := f.cells, f.kids[x], f.roots;
    var rs := Rest(f, x);
    var c1 := LiftCells(c, x, ks);
    LiftFacts(c, x, ks);
    UnlinkFacts(c1, x);
    if ks != [] {
      assert Second(ks) in ks && ks[0] in ks;
    }
    assert Second(r0) in r0;
    assert rs[0] in rs && Last(rs) in rs;
  }

  /** In a circular list both neighbours of a member point back at it. */
  lemma RingBack(c: Cells, s: seq<Node>, i: nat)
    requires Ring(c, s) && i < |s|
    ensures s[i] in c && c[s[i]].left == Pred(s, i) && c[s[i]].right == Succ(s, i)
    ensures Pred(s, i) in s && Succ(s, i) in s && Pred(s, i) in c && Succ(s, i) in c
    ensures c[Pred(s, i)].right == s[i] && c[Succ(s, i)].left == s[i]
  {
    RingNeighbours(c, s, i);
    if i == 0 {
      assert Linked(c, s[|s| - 1], s[0]);
    } else {
      assert Linked(c, s[i - 1], s[i]);
    }
    if i == |s| - 1 {
      assert Linked(c, s[|s| - 1], s[0]);
    } else {
      assert Linked(c, s[i], s[i + 1]);
    }
  }

  /** No node of a forest has a root as its child. */
  lemma ChildNotRoot(f: Forest, m: Node?, nd: Node, x: Node)
    requires Shape(f, m) && nd in f.cells && x in f.cells && f.cells[x].parent == null
    ensures f.cells[nd].child != x
  {
    assert Placed(f, nd);
    var ks := f.kids[nd];
    if ks != [] {
      assert f.cells[ks[0]].parent == nd;
    }
  }

  /** A node outside the root list is a sibling among siblings that are all
      outside it. */
  lemma SiblingsBelow(f: Forest, m: Node?, nd: Node)
    requires Shape(f, m) && nd in f.cells && f.cells[nd].parent != null
    ensures var c, q := f.cells, f.cells[nd].parent;
            c[nd].left != null && c[nd].left in c && c[nd].right != null && c[nd].right in c &&
            c[c[nd].left].parent == q && c[c[nd].right].parent == q
  {
    var c, q := f.cells, f.cells[nd].parent;
    assert Placed(f, nd) && Tidy(c, nd);
    assert Placed(f, q);
    var ks := f.kids[q];
    var i := IndexOf(ks, nd);
    RingNeighbours(c, ks, i);
    assert Pred(ks, i) in ks && Succ(ks, i) in ks;
    var a := IndexOf(ks, Pred(ks, i));
    var b := IndexOf(ks, Succ(ks, i));
  }

  /** Once the minimum `x` has gone, every node is tidy. */
  lemma ExtractTidyOne(f: Forest, x: Node, nd: Node)
    requires Shape(f, x) && x in f.kids && f.roots != [] && Rest(f, x) != []
    requires nd in ExtractForest(f, x).cells
    ensures Tidy(ExtractForest(f, x).cells, nd)
  {
    hide Shape, ExtractForest, Ring;
    var c, c1, rs := f.cells, ExtractForest(f, x).cells, Rest(f, x);
    ExtractRing(f, x);
    ExtractCells(f, x);
    RestMembers(f, x);
    LiftSetup(f, x);
    ShapeNode(f, x, nd);
    ChildNotRoot(f, x, nd, x);
    if nd in rs {
      var i := IndexOf(rs, nd);
      RingBack(c1, rs, i);
    } else {
      var q := c[nd].parent;
      if q == null {
        RootListed(f, x, nd);
      }
      SiblingsBelow(f, x, nd);
      assert q != x;
    }
  }

  /** A list read from its last element on has the same members. */
  lemma LastFirstMembers(rs: seq<Node>)
    requires rs != []
    ensures forall v :: v in [Last(rs)] + rs[..|rs| - 1] <==> v in rs
  {
    assert rs == rs[..|rs| - 1] + [Last(rs)];
  }

  /** A child list stays one when the parent keeps its child pointer and
      every child its cell. */
  lemma FamilyKeep(c0: Cells, c1: Cells, p: Node, ks: seq<Node>)
    requires p in c0 && Family(c0, p, ks) && p in c1 && c1[p].child == c0[p].child
    requires forall v :: v in c0 && c0[v].parent == p ==> v in c1 && c1[v] == c0[v]
    ensures Family(c1, p, ks)
  {
    FamilyFrame(c0, c1, p, ks);
  }

  /** The ghost description of the forest after the minimum `x` has gone. */
  lemma ExtractForestParts(f: Forest, x: Node)
    requires Shape(f, x) && x in f.kids && f.roots != [] && Rest(f, x) != []
    ensures var g, rs := ExtractForest(f, x), Rest(f, x);
            g.nodes == Remove(f.nodes, x) && g.roots == [Last(rs)] + rs[..|rs| - 1] &&
            g.kids == f.kids - {x} && g.level == f.level - {x} && g.top == f.top
  {
  }

  /** Once the minimum `x` has gone, every node is placed. */
  lemma ExtractPlacedOne(f: Forest, x: Node, nd: Node)
    requires Shape(f, x) && x in f.kids && f.roots != [] && Rest(f, x) != []
    requires nd in ExtractForest(f, x).cells
    ensures Placed(ExtractForest(f, x), nd)
  {
    hide Shape, Ring, ExtractForest;
    ExtractForestParts(f, x);
    var c, g, rs := f.cells, ExtractForest(f, x), Rest(f, x);
    var c1 := g.cells;
    ExtractCells(f, x);
    RestMembers(f, x);
    LiftSetup(f, x);
    ShapeNode(f, x, nd);
    LastFirstMembers(rs);
    FamilyKeep(c, c1, nd, f.kids[nd]);
    if c[nd].parent == null {
      RootListed(f, x, nd);
    }
  }

  /** Once the minimum `x` has gone the root list, entered at the left
      neighbour of `x`, holds its children and the other roots. */
  lemma ExtractRootList(f: Forest, x: Node)
    requires Shape(f, x) && x in f.kids && f.roots != [] && Rest(f, x) != []
    ensures RootList(ExtractForest(f, x), Last(Rest(f, x)))
  {
    hide Shape, ExtractForest;
    var g, rs := ExtractForest(f, x), Rest(f, x);
    ExtractForestParts(f, x);
    ExtractRing(f, x);
    LastFirstMembers(rs);
    RingRotate(g.cells, rs, |rs| - 1);
    assert rs[|rs| - 1..] + rs[..|rs| - 1] == g.roots;
    forall i | 0 <= i < |g.roots| ensures g.roots[i] in g.cells && g.cells[g.roots[i]].parent == null {
      assert g.roots[i] in g.roots;
    }
  }

  /** Once the minimum `x` has gone every node is tidy. */
  lemma ExtractTidy(f: Forest, x: Node)
    requires Shape(f, x) && x in f.kids && f.roots != [] && Rest(f, x) != []
    ensures var c1 := ExtractForest(f, x).cells;
            forall nd {:trigger Tidy(c1, nd)} :: nd in c1 ==> Tidy(c1, nd)
  {
    hide ExtractForest, Shape, Tidy;
    var c1 := ExtractForest(f, x).cells;
    forall nd | nd in c1 ensures Tidy(c1, nd) {
      ExtractTidyOne(f, x, nd);
    }
  }

  /** Removing `x` takes exactly `x` out of the cells. */
  lemma ExtractDomain(f: Forest, x: Node)
    requires Shape(f, x) && x in f.kids && f.roots != [] && Rest(f, x) != []
    ensures ExtractForest(f, x).cells.Keys == f.cells.Keys - {x}
  {
    hide ExtractForest, Shape;
    ExtractCells(f, x);
  }

  lemma ClosedIntro(g: Forest, mn: Node)
    requires mn in g.cells && Distinct(g.nodes)
    requires forall nd :: nd in g.nodes <==> nd in g.cells
    requires forall nd {:trigger Tidy(g.cells, nd)} :: nd in g.cells ==> Tidy(g.cells, nd)
    ensures Closed(g, mn)
  {
    hide Tidy;
  }

  /** Once the minimum `x` has gone every node is tidy and listed once. */
  lemma ExtractClosed(f: Forest, x: Node)
    requires Shape(f, x) && x in f.kids && f.roots != [] && Rest(f, x) != []
    ensures Closed(ExtractForest(f, x), Last(Rest(f, x))) && Indexed(ExtractForest(f, x))
  {
    hide ExtractForest, Shape, Ring, Tidy, Closed;
    var g := ExtractForest(f, x);
    var rs := Rest(f, x);
    var mn := Last(rs);
    NodesListed(f, x);
    ShapeIndexed(f, x);
    ExtractForestParts(f, x);
    ExtractDomain(f, x);
    ExtractTidy(f, x);
    RemoveMembers(f.nodes, x);
    ExtractRing(f, x);
    assert mn in rs;
    ClosedIntro(g, mn);
  }

  /** The index part of the shape, for proofs that keep `Shape` hidden. */
  lemma ShapeIndexed(f: Forest, m: Node?)
    requires Shape(f, m)
    ensures Indexed(f)
  {
  }

  /** Once the minimum `x` has gone every node is placed. */
  lemma ExtractPlaced(f: Forest, x: Node)
    requires Shape(f, x) && x in f.kids && f.roots != [] && Rest(f, x) != []
    ensures AllPlaced(ExtractForest(f, x))
  {
    hide ExtractForest, Placed, Shape;
    var g := ExtractForest(f, x);
    forall nd | nd in g.cells ensures Placed(g, nd) {
      ExtractPlacedOne(f, x, nd);
    }
  }

  /** Taking out the minimum `x` removes exactly its key. */
  lemma ExtractKeys(f: Forest, x: Node)
    requires Shape(f, x) && x in f.kids && f.roots != [] && Rest(f, x) != []
    ensures var g := ExtractForest(f, x);
            x in f.cells && (forall nd :: nd in f.nodes ==> nd in f.cells) &&
            (forall nd :: nd in g.nodes ==> nd in g.cells) &&
            Keys(g) == Keys(f) - multiset{f.cells[x].key}
  {
    hide ExtractForest, Shape;
    var c, g := f.cells, ExtractForest(f, x);
    ShapeClosed(f, x);
    LiftSetup(f, x);
    ExtractForestParts(f, x);
    ExtractCells(f, x);
    RemoveMembers(f.nodes, x);
    KeysOfRemove(c, f.nodes, x);
    KeysOfFrame(c, g.cells, Remove(f.nodes, x));
  }

  /** Taking out the minimum `x`, whose children become roots, keeps the
      forest shape with the left neighbour of `x` as the new entry, and
      removes exactly the key of `x`. */
  lemma ExtractShape(f: Forest, x: Node)
    requires Shape(f, x) && x in f.kids && f.roots != [] && Rest(f, x) != []
    ensures var g := ExtractForest(f, x);
            Shape(g, Last(Rest(f, x))) && g.cells.Keys == f.cells.Keys - {x} &&
            (forall nd :: nd in g.nodes ==> nd in g.cells) &&
            Keys(g) == Keys(f) - multiset{f.cells[x].key}
  {
    hide ExtractForest, Closed, Indexed, AllPlaced, RootList;
    ExtractClosed(f, x);
    ExtractPlaced(f, x);
    ExtractRootList(f, x);
    ExtractKeys(f, x);
    ExtractCells(f, x);
  }
}
