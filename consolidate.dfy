/**
 * consolidate and the scan for the new minimum, the second half of
 * extract_min (FibHeap/FibHeap.h:139-179), described on the forest value.
 *
 * The loop walks the root list to the right from `min`. The roots it has
 * passed form a prefix `vs` of the root list, the roots still to come the
 * rest `rs`. The degree table `A` holds every passed root that is still a
 * root exactly once, except the root `p` that the inner loop is linking
 * into; the slot a root occupies is not tied to its degree, because the
 * source's `d` keeps referring to the degree of the root the iteration
 * started with even after that root has been linked below another.
 */
module Consolidating {
  import opened FibNodes
  import opened Rings
  import opened Forests
  import opened Extracting

  /** How extract_min ends. `Done` is the source's own end. The model stops
      at two other points: the table would be read at index `dn + 1` or
      beyond (`TableOverflow`), or the walk would come back to a root it has
      already tabled (`Revisit`), which the swap followed by `p = p->right`
      from the survivor makes possible. */
  datatype Outcome = Done | TableOverflow | Revisit

  // ---------------------------------------------------------------------
  // The degree table.

  /** No node sits in two slots of the table. */
  ghost predicate Once(a: seq<Node?>) {
    forall i, j :: 0 <= i < j < |a| && a[i] != null ==> a[i] != a[j]
  }

  /** The table holds exactly the roots of `vs`, each once. */
  ghost predicate Full(a: seq<Node?>, vs: seq<Node>) {
    Once(a) && (forall i :: 0 <= i < |a| && a[i] != null ==> a[i] in vs) &&
    (forall v: Node :: v in vs ==> v in a)
  }

  /** The table holds exactly the roots of `vs` other than `p`, each once. */
  ghost predicate Tabled(a: seq<Node?>, vs: seq<Node>, p: Node) {
    Once(a) && (forall i :: 0 <= i < |a| && a[i] != null ==> a[i] in vs && a[i] != p) &&
    (forall v: Node :: v in vs && v != p ==> v in a)
  }

  /** A table of null slots holds no root. */
  lemma FullEmpty(a: seq<Node?>)
    requires forall i :: 0 <= i < |a| ==> a[i] == null
    ensures Full(a, [])
  {
  }

  /** A new root `p`, not in the table, is passed: the table lacks only it. */
  lemma TableNext(a: seq<Node?>, vs: seq<Node>, p: Node)
    requires Full(a, vs) && p !in a
    ensures Tabled(a, vs + [p], p)
  {
    forall i | 0 <= i < |a| && a[i] != null ensures a[i] in vs + [p] && a[i] != p {
      assert a[i] in a;
    }
  }

  /** Linking the table entry `a[d]` and `p` empties the slot; `p2` is the
      one of the two that stays a root and `z` the one linked below it. */
  lemma TableDrop(a: seq<Node?>, vs: seq<Node>, p: Node, d: nat, p2: Node, z: Node)
    requires Tabled(a, vs, p) && Distinct(vs) && d < |a| && a[d] != null
    requires (p2 == p && z == a[d]) || (p2 == a[d] && z == p)
    ensures Tabled(a[d := null], Remove(vs, z), p2)
  {
    var b := a[d := null];
    RemoveMembers(vs, z);
    forall i, j | 0 <= i < j < |b| && b[i] != null ensures b[i] != b[j] {
      assert a[i] != a[j];
    }
    forall i | 0 <= i < |b| && b[i] != null ensures b[i] in Remove(vs, z) && b[i] != p2 {
      assert i != d && b[i] == a[i];
      if i < d {
        assert a[i] != a[d];
      } else {
        assert a[d] != a[i];
      }
    }
    forall v: Node | v in vs && v != z && v != p2 ensures v in b {
      assert v != p && v in a;
      var i :| 0 <= i < |a| && a[i] == v;
      assert i != d && b[i] == v;
    }
    forall v: Node | v in Remove(vs, z) ensures v in vs && v != z {
      RemoveIn(vs, z, v);
    }
  }

  /** Membership in `Remove(vs, z)`, for one node. */
  lemma RemoveIn(vs: seq<Node>, z: Node, v: Node)
    requires Distinct(vs)
    ensures v in Remove(vs, z) <==> v in vs && v != z
  {
    RemoveMembers(vs, z);
  }

  /** The root `p`, stored in an empty slot, completes the table. */
  lemma TableStore(a: seq<Node?>, vs: seq<Node>, p: Node, d: nat)
    requires Tabled(a, vs, p) && p in vs && d < |a| && a[d] == null
    ensures Full(a[d := p], vs)
  {
    var b := a[d := p];
    forall i, j | 0 <= i < j < |b| && b[i] != null ensures b[i] != b[j] {
      if i != d && j != d {
        assert a[i] != a[j];
      }
    }
    forall v: Node | v in vs ensures v in b {
      if v != p {
        var i :| 0 <= i < |a| && a[i] == v;
        assert i != d && b[i] == v;
      } else {
        assert b[d] == v;
      }
    }
  }

  // ---------------------------------------------------------------------
  // The walk along the root list.

  /** `z` taken out of `vs + rs` when it is in `vs`. */
  lemma {:induction false} RemoveFront(vs: seq<Node>, rs: seq<Node>, z: Node)
    requires z in vs
    ensures Remove(vs + rs, z) == Remove(vs, z) + rs
  {
    assert (vs + rs)[0] == vs[0] && (vs + rs)[1..] == vs[1..] + rs;
    if vs[0] != z {
      RemoveFront(vs[1..], rs, z);
    }
  }

  /** The state of the inner loop of consolidate: the forest keeps its
      shape, its root list is the passed roots `vs` and the roots `rs`
      still to come, and the table holds the passed roots other than `p`. */
  ghost predicate Gathering(f: Forest, m: Node, vs: seq<Node>, rs: seq<Node>, a: seq<Node?>, p: Node) {
    Shape(f, m) && f.roots == vs + rs && p in vs && Tabled(a, vs, p)
  }

  /** One link of the inner loop (FibHeap/FibHeap.h:145-168): the table
      entry `z` and the root `p`, whichever has the larger key goes below
      the other. The forest keeps its shape and its keys, the root that went
      below leaves the passed roots, and the table lacks only the survivor. */
  lemma GatherLink(f: Forest, m: Node, vs: seq<Node>, rs: seq<Node>, a: seq<Node?>,
                   p: Node, d: nat, p2: Node, z: Node)
    requires Gathering(f, m, vs, rs, a, p) && d < |a| && a[d] != null
    requires (p2 == p && z == a[d]) || (p2 == a[d] && z == p)
    requires p2 in f.cells && z in f.cells && f.cells[p2].key <= f.cells[z].key
    ensures Linkable(f, m, p2, z) && LinkReady(f.cells, p2, z) && p2 in f.kids && p2 in f.level && z in f.level
    ensures var g := LinkForest(f, p2, z);
            Gathering(g, LinkMin(f.cells, m, z), Remove(vs, z), rs, a[d := null], p2) &&
            g.cells.Keys == f.cells.Keys && g.nodes == f.nodes &&
            forall nd :: nd in f.cells ==> g.cells[nd].key == f.cells[nd].key
  {
    hide Shape, LinkForest;
    assert a[d] in a;
    NodesListed(f, m);
    RingDistinctPrefix(f, m, vs, rs);
    LinkShape(f, m, p2, z);
    RemoveFront(vs, rs, z);
    RemoveMembers(vs, z);
    TableDrop(a, vs, p, d, p2, z);
  }

  /** One link of the inner loop, and the degree of `p0` set to `dd` after
      it (FibHeap/FibHeap.h:144-169): the state of the loop is kept with
      one root fewer, and so are the keys. */
  lemma GatherStep(f: Forest, m: Node, vs: seq<Node>, rs: seq<Node>, a: seq<Node?>, p: Node,
                   d: int, p2: Node, z: Node, p0: Node, dd: u32)
    requires Gathering(f, m, vs, rs, a, p) && 0 <= d < |a| && a[d] != null
    requires (p2 == p && z == a[d]) || (p2 == a[d] && z == p)
    requires p2 in f.cells && z in f.cells && f.cells[p2].key <= f.cells[z].key && p0 in f.cells
    requires forall nd :: nd in f.nodes ==> nd in f.cells
    ensures LinkReady(f.cells, p2, z) && p2 in f.kids && p2 in f.level && z in f.level
    ensures var g := LinkForest(f, p2, z);
            var m2 := LinkMin(f.cells, m, z);
            var h := g.(cells := WithDegree(g.cells, p0, dd));
            g.cells == LinkCells(f.cells, p2, z) && g.cells.Keys == f.cells.Keys &&
            h.cells.Keys == f.cells.Keys && h.nodes == f.nodes && m2 != null &&
            Gathering(h, m2, Remove(vs, z), rs, a[d := null], p2) &&
            Keys(h) == Keys(f) && |h.roots| < |f.roots|
  {
    hide Shape, Tabled, Gathering, LinkForest, LinkCells;
    GatherMembers(f, m, vs, rs, a, p, d);
    GatherLink(f, m, vs, rs, a, p, d, p2, z);
    var g := LinkForest(f, p2, z);
    var m2 := LinkMin(f.cells, m, z);
    var h := g.(cells := WithDegree(g.cells, p0, dd));
    LinkForestParts(f, p2, z);
    GatherDegree(g, m2, Remove(vs, z), rs, a[d := null], p2, p0, dd);
    KeysOfFrame(f.cells, h.cells, f.nodes);
  }

  /** The root `p` and the table entry `a[d]` are both roots. */
  lemma GatherMembers(f: Forest, m: Node, vs: seq<Node>, rs: seq<Node>, a: seq<Node?>, p: Node, d: int)
    requires Gathering(f, m, vs, rs, a, p) && 0 <= d < |a| && a[d] != null
    ensures p in f.roots && a[d] in f.roots
  {
    assert a[d] in a;
  }

  /** The cells and the root list after a link. */
  lemma LinkForestParts(f: Forest, p: Node, z: Node)
    requires LinkReady(f.cells, p, z) && p in f.kids && p in f.level && z in f.level
    ensures LinkForest(f, p, z).cells == LinkCells(f.cells, p, z)
    ensures LinkForest(f, p, z).roots == Remove(f.roots, z) && LinkForest(f, p, z).nodes == f.nodes
  {
  }

  /** Setting a degree keeps the state of the inner loop. */
  lemma GatherDegree(f: Forest, m: Node, vs: seq<Node>, rs: seq<Node>, a: seq<Node?>, p: Node, y: Node, d: u32)
    requires Gathering(f, m, vs, rs, a, p) && y in f.cells
    ensures Gathering(f.(cells := WithDegree(f.cells, y, d)), m, vs, rs, a, p)
  {
    DegreeShape(f, m, y, d);
  }

  /** The passed roots are distinct. */
  lemma RingDistinctPrefix(f: Forest, m: Node, vs: seq<Node>, rs: seq<Node>)
    requires Shape(f, m) && f.roots == vs + rs
    ensures Distinct(vs) && forall v :: v in vs ==> v !in rs
  {
    assert Ring(f.cells, f.roots);
    forall i, j | 0 <= i < j < |vs| ensures vs[i] != vs[j] {
      assert vs[i] == f.roots[i] && vs[j] == f.roots[j];
    }
    forall i, j | 0 <= i < |vs| && 0 <= j < |rs| ensures vs[i] != rs[j] {
      assert vs[i] == f.roots[i] && rs[j] == f.roots[|vs| + j];
    }
  }

  /** The step to the next root after the inner loop
      (FibHeap/FibHeap.h:171-173), with every passed root in the table: the
      right neighbour of `p` is the minimum exactly when `p` is the last
      root; otherwise, if it is not in the table, it is the first root still
      to come; if it is in the table, the walk has come back to a passed
      root. */
  lemma GatherNext(f: Forest, m: Node, vs: seq<Node>, rs: seq<Node>, a: seq<Node?>, p: Node)
    requires Shape(f, m) && f.roots == vs + rs && p in vs && Full(a, vs)
    ensures p in f.cells
    ensures var nx := f.cells[p].right;
            nx != null && nx in f.cells &&
            (nx == m <==> p == vs[|vs| - 1] && rs == []) &&
            (nx != m && nx !in a ==> rs != [] && nx == rs[0])
  {
    var s := f.roots;
    RootsIn(f, m);
    RingDistinctPrefix(f, m, vs, rs);
    assert Ring(f.cells, s) && s != [] && s[0] == m;
    var k :| 0 <= k < |vs| && vs[k] == p;
    assert s[k] == p;
    RingNeighbours(f.cells, s, k);
    var nx := f.cells[p].right;
    if k == |vs| - 1 {
      if rs == [] {
        assert nx == s[0];
      } else {
        assert nx == s[k + 1] == rs[0];
        assert s[|vs|] != s[0];
      }
    } else {
      assert nx == s[k + 1] == vs[k + 1];
      assert s[k + 1] != s[0];
      assert nx in vs;
    }
  }

  // ---------------------------------------------------------------------
  // The scan for the new minimum (FibHeap/FibHeap.h:175-179).

  /** `mn` has no larger key than any node of the table slots below `i`. */
  ghost predicate Below(c: Cells, mn: Node, a: seq<Node?>, i: int) {
    mn in c && forall j :: 0 <= j < i && j < |a| && a[j] != null && a[j] in c ==> c[mn].key <= c[a[j]].key
  }

  /** When the table holds every root and `mn` is a root with no larger key
      than any of them, `mn` holds the least key of the heap, and the forest
      entered at `mn` is a valid heap. */
  lemma ScanLeast(f: Forest, m: Node, a: seq<Node?>, mn: Node)
    requires Shape(f, m) && Full(a, f.roots) && mn in f.roots && Below(f.cells, mn, a, |a|)
    ensures Forests.Valid(f.(roots := RotateTo(f.roots, mn)), mn)
  {
    ShapeRotate(f, m, mn);
    RootsIn(f, m);
    forall nd | nd in f.cells ensures f.cells[mn].key <= f.cells[nd].key {
      RootAbove(f, m, nd);
      var i :| 0 <= i < |f.roots| && f.cells[f.roots[i]].key <= f.cells[nd].key;
      assert f.roots[i] in f.roots;
      var j :| 0 <= j < |a| && a[j] == f.roots[i];
    }
  }
}
