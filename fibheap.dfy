/**
 * The Fibonacci heap of FibHeap/FibHeap.h: the class `FibHeap` with its
 * fields `min` and `n`, and its operations as methods that rewrite the
 * node fields in place.
 *
 * The ghost field `F` keeps the cells of all nodes of the heap together with
 * the intended forest shape (module Forests); `Coupled()` says that the cells
 * are the current field values of those nodes. Every write to a node goes
 * through one of the setters below, which applies the same single-field
 * update to the cells; so each method ends with its ghost forest equal to
 * the forest function of its operation module, and the lemmas of that module
 * say what the function keeps.
 */
module FibHeaps {
  import opened FibNodes
  import opened Rings
  import opened Forests
  import opened Inserting
  import opened Uniting
  import opened Decreasing
  import opened Extracting
  import opened Consolidating

  class FibHeap {
    var min: Node?
    var n: int
    ghost var F: Forest

    /** The ghost cells are the fields of the heap's nodes. */
    ghost predicate Coupled()
      reads this`F, F.cells.Keys
    {
      forall nd :: nd in F.cells ==> F.cells[nd] == CellOf(nd)
    }

    /** The fields form a Fibonacci heap, and `n` counts at least its
        nodes (only extract_min of the last node leaves `n` above the
        count). */
    ghost predicate Valid()
      reads this, F.cells.Keys
    {
      Coupled() && Forests.Valid(F, min) && n >= |F.nodes|
    }

    /** The multiset of keys in the heap. */
    ghost function Contents(): multiset<int>
      reads this
      requires forall nd :: nd in F.nodes ==> nd in F.cells
    {
      Keys(F)
    }

    /** An empty heap (FibHeap/FibHeap.h:27). */
    constructor ()
      ensures Valid() && min == null && n == 0
      ensures F.cells == map[] && Contents() == multiset{}
    {
      min := null;
      n := 0;
      F := Empty();
    }

    /** The union of two heaps (FibHeap/FibHeap.h:75-91): the root lists are
        joined crosswise after the two minima, the minimum is the second
        heap's only when its key is strictly smaller, the counts add up,
        and both arguments are left empty. */
    constructor Union(h1: FibHeap, h2: FibHeap)
      requires h1.Valid() && h2.Valid() && h1 != h2 && h1.F.cells.Keys !! h2.F.cells.Keys
      modifies h1`min, h1`n, h1`F, h2`min, h2`n, h2`F
      modifies (if h1.min != null && h2.min != null then {h1.min, h2.min} else {})`right
      modifies (if h1.min != null && h2.min != null then {h1.min.right, h2.min.right} else {})`left
      ensures Valid() && Apart(old(h1.F.cells), old(h1.min), old(h2.F.cells), old(h2.min))
      ensures F == UnionForest(old(h1.F), old(h1.min), old(h2.F), old(h2.min))
      ensures min == UnionMin(old(h1.F.cells), old(h1.min), old(h2.F.cells), old(h2.min))
      ensures n == old(h1.n) + old(h2.n)
      ensures Contents() == old(h1.Contents()) + old(h2.Contents())
      ensures h1.Emptied() && h2.Emptied()
    {
      hide Valid, Coupled, Forests.Valid, Keys, CrossCells, UnionForest, Emptied;
      h1.Unpack();
      h2.Unpack();
      ghost var f1, f2 := h1.F, h2.F;
      min := h1.min;
      n := h1.n + h2.n;
      F := Forest(f1.cells + f2.cells, [], [], map[], map[], 0);
      new;
      JoinCoupled(this, h1, h2);
      Meld(h1, h2, f1, f2);
    }

    /** The steps of union after the fields are initialised: the nodes are
        rewritten and both arguments are left empty. */
    method Meld(h1: FibHeap, h2: FibHeap, ghost f1: Forest, ghost f2: Forest)
      requires this != h1 && this != h2 && h1 != h2
      requires Coupled() && min == h1.min && F.cells == f1.cells + f2.cells && n >= |f1.nodes| + |f2.nodes|
      requires Forests.Valid(f1, h1.min) && Forests.Valid(f2, h2.min) && f1.cells.Keys !! f2.cells.Keys
      modifies this`F, this`min, h1`min, h1`n, h1`F, h2`min, h2`n, h2`F
      modifies (if h1.min != null && h2.min != null then {h1.min, h2.min} else {})`right
      modifies (if h1.min != null && h2.min != null then {h1.min.right, h2.min.right} else {})`left
      ensures Valid() && Apart(f1.cells, old(h1.min), f2.cells, old(h2.min))
      ensures F == UnionForest(f1, old(h1.min), f2, old(h2.min))
      ensures min == UnionMin(f1.cells, old(h1.min), f2.cells, old(h2.min))
      ensures Contents() == Keys(f1) + Keys(f2)
      ensures h1.Emptied() && h2.Emptied()
    {
      hide Valid, Coupled, Forests.Valid, Keys, CrossCells, UnionForest, Emptied;
      ghost var m1, m2 := h1.min, h2.min;
      UnionSound(f1, m1, f2, m2);
      Join(h2.min, f1, m1, f2);
      Relabel(UnionForest(f1, m1, f2, m2));
      Pack();
      h1.Forget();
      h2.Forget();
    }

    /** The fields of an empty heap that holds no node. */
    ghost predicate Emptied()
      reads this
    {
      min == null && n == 0 && F == Empty()
    }

    /** An emptied heap is a valid heap without keys. */
    lemma EmptiedValid()
      requires Emptied()
      ensures Valid() && Contents() == multiset{}
    {
    }

    /** The heap gives up its nodes: `min = nullptr; n = 0`
        (FibHeap/FibHeap.h:89-90). */
    method Forget()
      modifies this`min, this`n, this`F
      ensures Emptied()
    {
      min := null;
      n := 0;
      F := Empty();
    }

    /** The steps of union that rewrite nodes: the crosswise splice when
        both heaps are non-empty, then the choice of the minimum
        (FibHeap/FibHeap.h:78-87). */
    method Join(m2: Node?, ghost f1: Forest, ghost m1: Node?, ghost f2: Forest)
      requires Coupled() && min == m1 && F.cells == f1.cells + f2.cells
      requires Apart(f1.cells, m1, f2.cells, m2)
      modifies this`F, this`min
      modifies (if min != null && m2 != null then {min, m2} else {})`right
      modifies (if min != null && m2 != null then {min.right, m2.right} else {})`left
      ensures Coupled()
      ensures F.cells == UnionCells(f1.cells, m1, f2.cells, m2)
      ensures min == m1 || min == m2
      ensures m1 != null ==> m1 in F.cells && F.cells[m1].key == f1.cells[m1].key
      ensures m2 != null ==> m2 in F.cells && F.cells[m2].key == f2.cells[m2].key
      ensures min == UnionMin(f1.cells, m1, f2.cells, m2)
    {
      hide CrossCells;
      if min != null && m2 != null {
        Cross(min, m2);
      }
      UnionCellsFacts(f1.cells, m1, f2.cells, m2);
      if m1 != null {
        assert SameFields(F.cells[m1], f1.cells[m1]);
        Read(m1);
      }
      if m2 != null {
        assert SameFields(F.cells[m2], f2.cells[m2]);
        Read(m2);
      }
      if min == null || (m2 != null && m2.key < min.key) {
        min := m2;
      }
    }

    /** The crosswise splice of the two root lists after `m1` and `m2`
        (FibHeap/FibHeap.h:79-84). */
    method Cross(m1: Node, m2: Node)
      requires Coupled() && m1 in F.cells && m2 in F.cells
      requires F.cells[m1].right != null && F.cells[m1].right in F.cells
      requires F.cells[m2].right != null && F.cells[m2].right in F.cells
      modifies this`F, {m1, m2}`right, {m1.right, m2.right}`left
      ensures Coupled()
      ensures F == old(F).(cells := CrossCells(old(F.cells), m1, m2))
    {
      Read(m1);
      Read(m2);
      var y1 := m1.right;
      var y2 := m2.right;
      SetLeft(y1, m2);
      SetRight(m2, y1);
      SetLeft(y2, m1);
      SetRight(m1, y2);
    }

    /** get_min reads the minimum and changes nothing. */
    method GetMin() returns (r: Node?)
      requires Valid()
      ensures r == min
      ensures r == null <==> Contents() == multiset{}
      ensures r != null ==> r in F.cells && r.key in Contents() &&
                            forall v :: v in Contents() ==> r.key <= v
    {
      r := min;
      MinHolds(F, min);
    }

    /** insert: a fresh node with key `k` becomes a root, spliced just left of
        `min` (or alone in the root list of an empty heap); it becomes the
        minimum when its key is strictly smaller; `n` grows by one. */
    method Insert(k: int) returns (x: Node)
      requires Valid()
      modifies this, (if min == null then {} else {min})`left, (if min == null then {} else {min.left})`right
      ensures Valid() && fresh(x)
      ensures F == InsertForest(old(F), old(min), x, k)
      ensures min == InsertMin(old(F.cells), old(min), x, k)
      ensures n == old(n) + 1
      ensures Contents() == old(Contents()) + multiset{k}
    {
      hide Valid, Coupled, Forests.Valid, Keys;
      Unpack();
      ghost var f, m := F, min;
      x := new Node(k);
      InsertSound(f, m, x, k);
      Adopt(x);
      if min == null {
        min := x;
        SetRight(x, x);
        SetLeft(x, x);
      } else {
        Read(min);
        Splice(min, x);
      }
      Read(x);
      Read(min);
      if x.key < min.key {
        min := x;
      }
      n := n + 1;
      Relabel(InsertForest(f, m, x, k));
      Pack();
    }

    /** `x` spliced just left of `m` (FibHeap/FibHeap.h:101-104). */
    method Splice(m: Node, x: Node)
      requires Coupled() && m in F.cells && x in F.cells
      requires F.cells[m].left != null && F.cells[m].left in F.cells
      modifies this`F, {m, x}`left, {m.left, x}`right
      ensures Coupled()
      ensures F == old(F).(cells := SpliceCells(old(F.cells), m, x))
    {
      var l := m.left;
      SetRight(l, x);
      SetLeft(x, l);
      SetLeft(m, x);
      SetRight(x, m);
    }

    /** decrease_key(x, k) (FibHeap/FibHeap.h:184-213): a larger key is
        refused; an equal key changes nothing; a smaller key is set, and if
        it is below the parent's key, `x` is cut into the root list and
        the cascading cut runs from the old parent upwards; `x` becomes the
        minimum when its new key is strictly below the minimum's. */
    method DecreaseKey(x: Node, k: int) returns (r: bool)
      requires Valid() && x in F.cells
      modifies this, F.cells.Keys
      ensures Valid() && n == old(n)
      ensures r == (k <= old(x.key))
      ensures old(min) != null && F == DecreaseForest(old(F), old(min), x, k)
      ensures min == DecreaseMin(old(F.cells), old(min), x, k)
      ensures Contents() == if k < old(x.key) then old(Contents()) - multiset{old(x.key)} + multiset{k}
                            else old(Contents())
    {
      hide Valid, Coupled, Forests.Valid, Keys, Shape, DecreaseForest;
      Unpack();
      DecreaseSound(F, min, x, k);
      Read(x);
      if k > x.key {
        return false;
      }
      if k == x.key {
        return true;
      }
      Lower(x, k);
      r := true;
    }

    /** decrease_key(x, k) with `k` below the key of `x`
        (FibHeap/FibHeap.h:188-213). */
    method Lower(x: Node, k: int)
      requires Valid() && x in F.cells && k < F.cells[x].key
      modifies this, F.cells.Keys
      ensures Valid() && n == old(n)
      ensures old(min) != null && F == DecreaseForest(old(F), old(min), x, k)
      ensures min == DecreaseMin(old(F.cells), old(min), x, k)
      ensures Contents() == old(Contents()) - multiset{old(F.cells[x].key)} + multiset{k}
    {
      hide Valid, Coupled, Forests.Valid, Keys, Shape, DecreaseForest, LowerForest;
      Unpack();
      ghost var f, m := F, min;
      DecreaseSound(f, m, x, k);
      LowerSound(f, m, x, k);
      LowerKey(x, k);
      Read(x);
      Read(min);
      if x.key < min.key {
        min := x;
      }
      Relabel(DecreaseForest(f, m, x, k));
      Pack();
    }

    /** The new key set, and the cut and the cascade when it is below the
        parent's key (FibHeap/FibHeap.h:188-210); `min` stays. */
    method LowerKey(x: Node, k: int)
      requires Coupled() && min != null && Shape(F, min) && x in F.cells && k < F.cells[x].key
      modifies this`F, F.cells.Keys
      ensures Coupled() && F == LowerForest(old(F), min, x, k)
    {
      hide Coupled, Shape, Cascade, LowerForest, CutForest, CutOutCells;
      ghost var f, m := F, min;
      LowerSound(f, m, x, k);
      SetKey(x, k);
      Read(x);
      var y := x.parent;
      if y != null {
        Read(y);
      }
      if y != null && x.key < y.key {
        Read(min);
        CutOut(x);
        Relabel(Rekey(CutForest(f, m, x), x, k));
        Cascading(y, f.cells.Keys);
      }
    }

    /** The cascading cut of decrease_key (FibHeap/FibHeap.h:197-209),
        starting at the old parent `y` of the node just cut: while `y` has
        a parent, an unmarked `y` is marked and stops the cascade, and a
        marked `y` is cut into the root list. */
    method Cascading(y0: Node, ghost ns: set<Node>)
      requires Coupled() && min != null && Shape(F, min) && y0 in F.cells && F.cells.Keys == ns
      modifies this`F, ns
      ensures Coupled() && min == old(min) && F == Cascade(old(F), min, y0)
    {
      hide Coupled, Shape, Cascade, CutForest, CutOutCells;
      ghost var target := Cascade(F, min, y0);
      var y := y0;
      CascadeSound(F, min, y);
      Read(y);
      var z := y.parent;
      while z != null
        invariant Coupled() && Shape(F, min) && y in F.cells && F.cells.Keys == ns
        invariant z == F.cells[y].parent && Cascade(F, min, y) == target
        invariant y in F.level && 0 <= F.top - F.level[y]
        decreases F.top - F.level[y]
      {
        CascadeSound(F, min, y);
        Read(y);
        if !y.mark {
          SetMark(y, true);
          break;
        }
        ghost var g := CutForest(F, min, y);
        Read(min);
        CutOut(y);
        Relabel(g);
        y := z;
        CascadeSound(F, min, y);
        Read(y);
        z := y.parent;
      }
      CascadeSound(F, min, y);
    }

    /** cut(x, y) (FibHeap/FibHeap.h:39-51): `x` leaves its list unless it
        is alone there, and is plugged in just right of `y`. */
    method Cut(x: Node, y: Node)
      requires Coupled() && CutReady(F.cells, y, x)
      modifies this`F, {x.left, x, y}`right, {x.right, y.right, x}`left
      ensures Coupled() && F == old(F).(cells := CutCells(old(F.cells), y, x))
    {
      Read(x);
      Read(y);
      if x.right != x {
        var l, r := x.left, x.right;
        SetRight(l, r);
        SetLeft(r, l);
      }
      Read(y);
      var yr := y.right;
      SetLeft(yr, x);
      SetRight(x, yr);
      SetLeft(x, y);
      SetRight(y, x);
    }

    /** The cut of `v` from its parent `p` next to `min`, with the
        bookkeeping of decrease_key (FibHeap/FibHeap.h:192-195, 204-207):
        `p` loses one from its degree, `v` its parent and its mark. The
        `child` pointer of `p` is first moved off `v`, which the source
        omits (see `AsWrittenLosesFamily`). */
    method CutOut(v: Node)
      requires Coupled() && min != null && CutReady(F.cells, min, v)
      requires F.cells[v].parent != null && F.cells[v].parent in F.cells
      modifies this`F, {v.parent}`child, {v.parent}`degree, v`parent, v`mark
      modifies {v.left, v, min}`right, {v.right, min.right, v}`left
      ensures Coupled() && F == old(F).(cells := CutOutCells(old(F.cells), min, v))
    {
      hide Coupled, CutOutCells, CutCells, SeverCells;
      ghost var c := F.cells;
      Read(v);
      var p := v.parent;
      ChildReady(c, min, v, p);
      MoveChild(p, v);
      Cut(v, min);
      Sever(p, v);
    }

    /** The `child` pointer of `p` moved off its child `v`, to the next
        sibling or to null. */
    method MoveChild(p: Node, v: Node)
      requires Coupled() && p in F.cells && v in F.cells
      modifies this`F, p`child
      ensures Coupled() && F == old(F).(cells := WithChild(old(F.cells), p, NewChild(old(F.cells), p, v)))
    {
      hide Coupled;
      Read(p);
      Read(v);
      if p.child == v {
        SetChild(p, if v.right == v then null else v.right);
      } else {
        assert WithChild(F.cells, p, NewChild(F.cells, p, v)) == F.cells;
      }
    }

    /** The bookkeeping after a cut (FibHeap/FibHeap.h:193-195, 205-207). */
    method Sever(p: Node, v: Node)
      requires Coupled() && p in F.cells && v in F.cells
      modifies this`F, p`degree, v`parent, v`mark
      ensures Coupled() && F == old(F).(cells := SeverCells(old(F.cells), p, v))
    {
      hide Coupled;
      Read(p);
      SetDegree(p, Dec(p.degree));
      SetParent(v, null);
      SetMark(v, false);
    }

    // -------------------------------------------------------------------
    // extract_min (FibHeap/FibHeap.h:111-182).

    /** The children of the minimum `x` become roots just right of `x`, and
        the walk to the left from `x.child` clears their parents
        (FibHeap/FibHeap.h:116-125). */
    method Lift(x: Node, ghost ks: seq<Node>)
      requires Coupled() && Shape(F, x) && x in F.kids && ks == F.kids[x]
      modifies this`F, F.cells.Keys
      ensures Lifting(old(F.cells), x, ks) && Coupled()
      ensures F == old(F).(cells := LiftCells(old(F.cells), x, ks))
    {
      hide Coupled, Shape, LiftCells, Lifting;
      ghost var f := F;
      LiftSound(f, x);
      Read(x);
      if x.child != null {
        var y := x.child;
        Promote(x);
        ghost var c0, ps := F.cells, Promoted(ks);
        assert c0 == SpliceChildren(f.cells, x);
        WalkSound(f, x);
        Unparent(x, y, c0, ps);
      }
    }

    /** The walk to the left from `y`, the last promoted child, clears the
        parent of each promoted child until it is back at `x`
        (FibHeap/FibHeap.h:124). */
    method Unparent(x: Node, y: Node, ghost c0: Cells, ghost ps: seq<Node>)
      requires Coupled() && F.cells == c0 && ps != [] && y == ps[|ps| - 1] && WalksLeft(c0, ps, x)
      modifies this`F, F.cells.Keys
      ensures Coupled() && F == old(F).(cells := ClearParents(c0, ps))
    {
      assert ps[|ps|..] == [] && ClearParents(c0, ps[|ps|..]) == c0;
      WalkStep(c0, ps, x, |ps|);
      hide Coupled, ClearParents, WithParent, WalksLeft;
      ghost var i := |ps|;
      var p := y;
      while p != x
        invariant Coupled() && 0 <= i <= |ps| && F == old(F).(cells := ClearParents(c0, ps[i..]))
        invariant p == (if i == 0 then x else ps[i - 1]) && (i > 0 ==> p != x)
        invariant F.cells.Keys == c0.Keys
        decreases i
      {
        WalkStep(c0, ps, x, i);
        SetParent(p, null);
        Read(p);
        p := p.left;
        i := i - 1;
      }
      assert ps[0..] == ps;
    }

    /** The child list of `x` is spliced into the root list just right of
        `x` (FibHeap/FibHeap.h:117-123). */
    method Promote(x: Node)
      requires Coupled() && x in F.cells && F.cells[x].right != null && F.cells[x].right in F.cells
      requires F.cells[x].child != null && F.cells[x].child in F.cells
      requires F.cells[F.cells[x].child].right != null && F.cells[F.cells[x].child].right in F.cells
      modifies this`F, F.cells.Keys
      ensures Coupled() && F == old(F).(cells := PromoteCells(old(F.cells), x))
    {
      Read(x);
      var y := x.child;
      Read(y);
      var yr, xr := y.right, x.right;
      SetLeft(yr, x);
      SetRight(x, yr);
      SetRight(y, xr);
      SetLeft(xr, y);
    }

    /** `v` leaves its ring: its neighbours are joined
        (FibHeap/FibHeap.h:133-134 and 151-152). */
    method Unlink(v: Node)
      requires Coupled() && v in F.cells
      requires F.cells[v].left != null && F.cells[v].left in F.cells
      requires F.cells[v].right != null && F.cells[v].right in F.cells
      modifies this`F, F.cells.Keys
      ensures Coupled() && F == old(F).(cells := UnlinkCells(old(F.cells), v))
    {
      Read(v);
      var l, r := v.left, v.right;
      SetRight(l, r);
      SetLeft(r, l);
    }

    /** `z` joins the child list of `p` (FibHeap/FibHeap.h:155-166). */
    method Attach(p: Node, z: Node)
      requires Coupled() && p in F.cells && z in F.cells
      requires F.cells[p].child != null ==>
                 F.cells[p].child in F.cells && F.cells[F.cells[p].child].right != null &&
                 F.cells[F.cells[p].child].right in F.cells
      modifies this`F, F.cells.Keys
      ensures Coupled() && F == old(F).(cells := AttachCells(old(F.cells), p, z))
    {
      Read(p);
      if p.child == null {
        SetChild(p, z);
        SetRight(z, z);
        SetLeft(z, z);
      } else {
        var ch := p.child;
        Read(ch);
        var cr := ch.right;
        SetLeft(cr, z);
        SetRight(z, cr);
        SetRight(ch, z);
        SetLeft(z, ch);
      }
    }

    /** The root `z` goes below the root `p`: it leaves the root list, takes
        `p` as its parent, joins the child list of `p` and is unmarked
        (FibHeap/FibHeap.h:151-167). */
    method Link(p: Node, z: Node)
      requires Coupled() && LinkReady(F.cells, p, z)
      modifies this`F, F.cells.Keys
      ensures Coupled() && F == old(F).(cells := LinkCells(old(F.cells), p, z))
    {
      hide Coupled, UnlinkCells, AttachCells;
      LinkSteps(F.cells, p, z);
      Unlink(z);
      SetParent(z, p);
      Attach(p, z);
      SetMark(z, false);
    }

    /** The node `x`, no longer linked from the heap, leaves the cells. */
    ghost method Drop(x: Node)
      requires Coupled()
      modifies this`F
      ensures Coupled() && F == old(F).(cells := old(F.cells) - {x})
    {
      F := F.(cells := F.cells - {x});
    }

    /** The inner loop of consolidate for the root `p0`
        (FibHeap/FibHeap.h:143-170). While the slot for the degree of `p0`
        holds a root, the one of the two with the larger key goes below the
        other, the slot is emptied and the degree of `p0` goes up by one;
        then the survivor `p` takes the slot. `overflow` is set where the
        source would read the table at an index past its end. */
    method Gather(A: array<Node?>, p0: Node, ghost vs0: seq<Node>, ghost rs: seq<Node>, ghost ns: set<Node>)
      returns (p: Node, ghost vs: seq<Node>, overflow: bool)
      requires Coupled() && min != null && Gathering(F, min, vs0, rs, A[..], p0) && F.cells.Keys == ns
      requires forall nd :: nd in F.nodes ==> nd in F.cells
      modifies this`F, this`min, ns, A
      ensures Coupled() && min != null && Shape(F, min) && F.cells.Keys == ns && F.nodes == old(F.nodes)
      ensures (forall nd :: nd in F.nodes ==> nd in F.cells) && Keys(F) == old(Keys(F))
      ensures !overflow ==> F.roots == vs + rs && p in vs && Full(A[..], vs)
    {
      hide Coupled, Gathering, Shape, Keys, LinkForest, LinkCells, Full, Tabled;
      ghost var n0, k0 := F.nodes, Keys(F);
      GatheringIn(F, min, vs0, rs, A[..], p0);
      p, vs := p0, vs0;
      var d: int;
      overflow := false;
      while true
        invariant Coupled() && min != null && Gathering(F, min, vs, rs, A[..], p) && F.cells.Keys == ns
        invariant F.nodes == n0 && (forall nd :: nd in F.nodes ==> nd in F.cells) && Keys(F) == k0
        decreases |F.roots|
      {
        Read(p0);
        var dd := p0.degree;
        d := dd as int;
        if d >= A.Length {
          GatheringIn(F, min, vs, rs, A[..], p);
          overflow := true;
          return;
        }
        var z := A[d];
        if z == null {
          break;
        }
        var z1: Node;
        p, z1 := Merge(A, d, p0, dd, p, vs, rs, ns);
        vs := Remove(vs, z1);
      }
      StoreSound(F, min, vs, rs, A[..], p, d);
      ghost var s := A[..];
      A[d] := p;
      assert A[..] == s[d := p];
    }

    /** One link of the inner loop (FibHeap/FibHeap.h:145-168): of the
        root `p1` and the table entry `A[d]`, the one with the larger key
        goes below the other, the slot is emptied, and the degree of `p0`
        is set one above `dd`. */
    method Merge(A: array<Node?>, d: int, p0: Node, dd: u32, p1: Node,
                 ghost vs: seq<Node>, ghost rs: seq<Node>, ghost ns: set<Node>)
      returns (p: Node, z: Node)
      requires Coupled() && min != null && Gathering(F, min, vs, rs, A[..], p1) && F.cells.Keys == ns
      requires 0 <= d < A.Length && A[d] != null && p0 in ns
      requires forall nd :: nd in F.nodes ==> nd in F.cells
      modifies this`F, this`min, ns, A
      ensures Coupled() && min != null && Gathering(F, min, Remove(vs, z), rs, A[..], p) && F.cells.Keys == ns
      ensures F.nodes == old(F.nodes) && (forall nd :: nd in F.nodes ==> nd in F.cells)
      ensures Keys(F) == old(Keys(F)) && |F.roots| < old(|F.roots|)
      ensures var t := old(A[d]);
              t != null && t in old(F.cells) && p1 in old(F.cells) &&
              if old(F.cells[t].key) < old(F.cells[p1].key) then p == t && z == p1 else p == p1 && z == t
    {
      hide Coupled, Gathering, Shape, Keys, LinkForest, LinkCells, Full, Tabled;
      EntrySound(F, min, vs, rs, A[..], p1, d);
      p := p1;
      z := A[d];
      Read(z);
      Read(p);
      if z.key < p.key {
        p, z := z, p;
      }
      ghost var f, s := F, A[..];
      GatherSound(f, min, vs, rs, s, p1, d, p, z, p0, Inc(dd));
      Absorb(A, d, p0, dd, p, z);
    }

    /** The root `z` goes below the root `p`, moving `min` on when it
        pointed at `z`; the slot `A[d]` is emptied and the degree of `p0`
        set one above `dd` (FibHeap/FibHeap.h:150-169). */
    method Absorb(A: array<Node?>, d: int, p0: Node, dd: u32, p: Node, z: Node)
      requires Coupled() && min != null && p0 in F.cells && 0 <= d < A.Length
      requires LinkReady(F.cells, p, z) && p in F.kids && p in F.level && z in F.level
      modifies this`F, this`min, F.cells.Keys, A
      ensures Coupled() && min == LinkMin(old(F.cells), old(min), z)
      ensures var g := LinkForest(old(F), p, z); F == g.(cells := WithDegree(g.cells, p0, Inc(dd)))
      ensures A[..] == old(A[..])[d := null]
    {
      hide Coupled, LinkForest, LinkCells;
      ghost var f := F;
      LinkForestParts(f, p, z);
      Read(z);
      if z == min {
        min := z.right;
      }
      Link(p, z);
      Relabel(LinkForest(f, p, z));
      A[d] := null;
      SetDegree(p0, Inc(dd));
    }

    /** consolidate (FibHeap/FibHeap.h:139-174): the roots, from `min` to
        the right, go through the inner loop in turn until the walk is back
        at `min`. The walk stops with `Revisit` where the source would go on
        to a root it has already put in the table. */
    method Consolidate(dn: nat, ghost ns: set<Node>) returns (r: Outcome, A: array<Node?>)
      requires Coupled() && min != null && Shape(F, min) && F.cells.Keys == ns
      requires forall nd :: nd in F.nodes ==> nd in F.cells
      modifies this`F, this`min, ns
      ensures fresh(A) && A.Length == dn + 1
      ensures Coupled() && min != null && Shape(F, min) && F.cells.Keys == ns && F.nodes == old(F.nodes)
      ensures (forall nd :: nd in F.nodes ==> nd in F.cells) && Keys(F) == old(Keys(F))
      ensures r == Done ==> Full(A[..], F.roots)
    {
      hide Coupled, Gathering, Shape, Keys, Full, Tabled;
      ghost var n0, k0 := F.nodes, Keys(F);
      A := new Node?[dn + 1](_ => null);
      StartSound(F, min, A[..]);
      var p: Node := min;
      ghost var vs: seq<Node>, rs: seq<Node> := [p], F.roots[1..];
      var fin := false;
      while !fin
        invariant fresh(A) && A.Length == dn + 1
        invariant Coupled() && min != null && Shape(F, min) && F.cells.Keys == ns
        invariant F.nodes == n0 && (forall nd :: nd in F.nodes ==> nd in F.cells) && Keys(F) == k0
        invariant !fin ==> Gathering(F, min, vs, rs, A[..], p)
        invariant fin ==> Full(A[..], F.roots)
        decreases if fin then 0 else |rs| + 1
      {
        var q: Node;
        ghost var ws: seq<Node>;
        var overflow: bool;
        q, ws, overflow := Gather(A, p, vs, rs, ns);
        if overflow {
          r := TableOverflow;
          return;
        }
        NextSound(F, min, ws, rs, A[..], q);
        Read(q);
        p := q.right;
        if p == min {
          fin := true;
        } else if p in A[..] {
          r := Revisit;
          return;
        } else {
          vs, rs := ws + [p], rs[1..];
        }
      }
      r := Done;
    }

    /** The scan of the table for the new minimum
        (FibHeap/FibHeap.h:175-179): a tabled root whose key is below the
        current minimum's takes its place. */
    method ScanMin(A: array<Node?>)
      requires Coupled() && min != null && Shape(F, min) && Full(A[..], F.roots)
      modifies this`min, this`F
      ensures Coupled() && min != null && Forests.Valid(F, min)
      ensures F == old(F).(roots := RotateTo(old(F.roots), min))
    {
      hide Coupled, Shape, Full, Forests.Valid;
      ghost var f, m0 := F, min;
      ScanSound(f, m0, A[..], -1);
      var i := 0;
      while i != A.Length
        invariant 0 <= i <= A.Length && F == f && min != null && min in f.roots
        invariant Below(f.cells, min, A[..], i)
      {
        ScanSound(f, m0, A[..], i);
        if A[i] != null {
          Read(A[i]);
          Read(min);
          if min == null || A[i].key < min.key {
            min := A[i];
          }
        }
        i := i + 1;
      }
      ScanEnd(f, m0, A[..], min);
      Relabel(f.(roots := RotateTo(f.roots, min)));
    }

    /** extract_min (FibHeap/FibHeap.h:111-182): the minimum `x` is returned
        and leaves the heap. Its children become roots; when `x` is then the
        only node, the heap becomes empty, without `n` going down; otherwise
        `x` leaves the root list, `n` goes down, the roots are consolidated
        and the least root becomes the minimum. `x` keeps only its key. The
        model stops, with the heap in shape but the minimum not searched
        for, where consolidate would read past the table or come back to a
        root it has already tabled. */
    method ExtractMin(dn: nat) returns (x: Node?, r: Outcome)
      requires Valid()
      modifies this, F.cells.Keys
      ensures x == old(min)
      ensures x == null ==> r == Done && F == old(F) && min == null && n == old(n)
      ensures x != null ==> x in old(F.cells) && forall v :: v in old(Contents()) ==> old(F.cells[x].key) <= v
      ensures x != null ==> n == if old(|F.nodes|) == 1 then old(n) else old(n) - 1
      ensures x != null && r == Done ==>
                Valid() && x !in F.cells && CellOf(x) == Detached(old(F.cells[x].key)) &&
                Contents() == old(Contents()) - multiset{old(F.cells[x].key)}
      ensures x != null && r != Done ==>
                Coupled() && min != null && Shape(F, min) && x !in F.cells &&
                (forall nd :: nd in F.nodes ==> nd in F.cells) &&
                Contents() == old(Contents()) - multiset{old(F.cells[x].key)}
    {
      hide Valid, Coupled, Forests.Valid, Keys, Shape, LiftCells, ExtractForest, UnlinkCells, Lifting, Rest;
      if min == null {
        return null, Done;
      }
      Unpack();
      ghost var f := F;
      x := min;
      ExtractSound(f, x);
      Lift(x, f.kids[x]);
      Read(x);
      if x.right == x {
        x.Clear();
        min := null;
        Vacate();
        EmptyValid();
        Pack();
        return x, Done;
      }
      r := Detach(x, f, dn);
    }

    /** The minimum `x`, its children already roots and some other root
        left, leaves the root list and `n` goes down; the roots are
        consolidated, the least root becomes the minimum and `x` keeps only
        its key (FibHeap/FibHeap.h:133-181). */
    method Detach(x: Node, ghost f: Forest, dn: nat) returns (r: Outcome)
      requires Coupled() && ExtractReady(f, x) && F == f.(cells := LiftCells(f.cells, x, f.kids[x]))
      requires n >= |f.nodes|
      modifies this, f.cells.Keys
      ensures n == old(n) - 1 && x !in F.cells
      ensures r == Done ==>
                Valid() && CellOf(x) == Detached(f.cells[x].key) &&
                Contents() == Keys(f) - multiset{f.cells[x].key}
      ensures r != Done ==>
                Coupled() && min != null && Shape(F, min) && (forall nd :: nd in F.nodes ==> nd in F.cells) &&
                Contents() == Keys(f) - multiset{f.cells[x].key}
    {
      hide Valid, Coupled, Forests.Valid, Shape, LiftCells, ExtractForest, UnlinkCells, Lifting, Rest;
      ExtractSound(f, x);
      Unroot(x, f);
      n := n - 1;
      var A;
      r, A := Consolidate(dn, f.cells.Keys - {x});
      assert Keys(F) == Keys(f) - multiset{f.cells[x].key};
      if r == Done {
        ScanMin(A);
        x.Clear();
        Pack();
      }
    }

    /** The minimum `x` leaves the root list, and its left neighbour
        becomes `min` (FibHeap/FibHeap.h:133-136). */
    method Unroot(x: Node, ghost f: Forest)
      requires Coupled() && ExtractReady(f, x) && F == f.(cells := LiftCells(f.cells, x, f.kids[x]))
      modifies this`F, this`min, f.cells.Keys
      ensures Coupled() && F == ExtractForest(f, x) && min == Last(Rest(f, x)) && x.key == f.cells[x].key
    {
      hide Coupled, Forests.Valid, Keys, Shape, LiftCells, ExtractForest, Lifting, Rest;
      ExtractSound(f, x);
      Read(x);
      var l := x.left;
      Unlink(x);
      Read(x);
      Drop(x);
      Relabel(ExtractForest(f, x));
      min := l;
    }

    /** The heap is left without nodes. */
    ghost method Vacate()
      modifies this`F
      ensures Coupled() && F == Empty()
    {
      F := Empty();
    }

    /** erase(x) (FibHeap/FibHeap.h:35): the key of `x` goes one below the
        minimum's, which makes `x` the minimum, and the minimum is
        extracted. */
    method Erase(x: Node, dn: nat) returns (y: Node?, r: Outcome)
      requires Valid() && x in F.cells
      modifies this, F.cells.Keys
      ensures old(min) != null && old(min) in old(F.cells) && y == x
      ensures n == if old(|F.nodes|) == 1 then old(n) else old(n) - 1
      ensures r == Done ==>
                Valid() && x !in F.cells && CellOf(x) == Detached(old(F.cells[min].key) - 1) &&
                Contents() == old(Contents()) - multiset{old(F.cells[x].key)}
      ensures r != Done ==>
                Coupled() && min != null && Shape(F, min) && x !in F.cells &&
                (forall nd :: nd in F.nodes ==> nd in F.cells) &&
                Contents() == old(Contents()) - multiset{old(F.cells[x].key)}
    {
      hide Valid, Coupled, Forests.Valid, Keys, Shape, DecreaseForest;
      Unpack();
      ghost var f, m := F, min;
      EraseSound(f, m, x);
      Read(m);
      Read(x);
      var k := min.key - 1;
      ghost var c0, kx := Contents(), F.cells[x].key;
      var ok := DecreaseKey(x, k);
      ghost var c1 := Contents();
      assert c1 == c0 - multiset{kx} + multiset{k};
      y, r := ExtractMin(dn);
      Unpack();
      assert Contents() == c1 - multiset{k};
    }

    // -------------------------------------------------------------------
    // Bookkeeping between the nodes and the ghost cells.

    lemma Unpack()
      ensures Valid() ==> Coupled() && Forests.Valid(F, min) && n >= |F.nodes| &&
                          forall nd :: nd in F.nodes ==> nd in F.cells
    {
    }

    lemma Pack()
      ensures Coupled() && Forests.Valid(F, min) && n >= |F.nodes| ==>
              Valid() && forall nd :: nd in F.nodes ==> nd in F.cells
    {
    }

    /** A node of the heap holds the values of its cell. */
    lemma Read(nd: Node)
      requires Coupled() && nd in F.cells
      ensures CellOf(nd) == F.cells[nd]
    {
    }

    /** A new node joins the cells. */
    ghost method Adopt(x: Node)
      requires Coupled() && x !in F.cells
      modifies this`F
      ensures Coupled() && F == old(F).(cells := old(F.cells)[x := CellOf(x)])
    {
      F := F.(cells := F.cells[x := CellOf(x)]);
    }

    /** The ghost description is replaced by one with the same cells. */
    ghost method Relabel(g: Forest)
      requires Coupled() && g.cells == F.cells
      modifies this`F
      ensures Coupled() && F == g
    {
      F := g;
    }

    method SetKey(nd: Node, v: int)
      requires Coupled() && nd in F.cells
      modifies this`F, nd`key
      ensures Coupled() && F == old(F).(cells := WithKey(old(F.cells), nd, v))
    {
      nd.key := v;
      F := F.(cells := WithKey(F.cells, nd, v));
    }

    method SetParent(nd: Node, v: Node?)
      requires Coupled() && nd in F.cells
      modifies this`F, nd`parent
      ensures Coupled() && F == old(F).(cells := WithParent(old(F.cells), nd, v))
    {
      nd.parent := v;
      F := F.(cells := WithParent(F.cells, nd, v));
    }

    method SetChild(nd: Node, v: Node?)
      requires Coupled() && nd in F.cells
      modifies this`F, nd`child
      ensures Coupled() && F == old(F).(cells := WithChild(old(F.cells), nd, v))
    {
      nd.child := v;
      F := F.(cells := WithChild(F.cells, nd, v));
    }

    method SetLeft(nd: Node, v: Node?)
      requires Coupled() && nd in F.cells
      modifies this`F, nd`left
      ensures Coupled() && F == old(F).(cells := WithLeft(old(F.cells), nd, v))
    {
      nd.left := v;
      F := F.(cells := WithLeft(F.cells, nd, v));
    }

    method SetRight(nd: Node, v: Node?)
      requires Coupled() && nd in F.cells
      modifies this`F, nd`right
      ensures Coupled() && F == old(F).(cells := WithRight(old(F.cells), nd, v))
    {
      nd.right := v;
      F := F.(cells := WithRight(F.cells, nd, v));
    }

    method SetDegree(nd: Node, v: u32)
      requires Coupled() && nd in F.cells
      modifies this`F, nd`degree
      ensures Coupled() && F == old(F).(cells := WithDegree(old(F.cells), nd, v))
    {
      nd.degree := v;
      F := F.(cells := WithDegree(F.cells, nd, v));
    }

    method SetMark(nd: Node, v: bool)
      requires Coupled() && nd in F.cells
      modifies this`F, nd`mark
      ensures Coupled() && F == old(F).(cells := WithMark(old(F.cells), nd, v))
    {
      nd.mark := v;
      F := F.(cells := WithMark(F.cells, nd, v));
    }
  }

  /** The parts of insert's lemma that the method needs, stated for any
      forest so that the method can use them with the shape predicates
      hidden. */
  lemma InsertSound(f: Forest, m: Node?, x: Node, k: int)
    ensures Forests.Valid(f, m) && x !in f.cells ==>
            Room(f.cells, m, x) &&
            var g := InsertForest(f, m, x, k);
            Forests.Valid(g, InsertMin(f.cells, m, x, k)) &&
            g.cells.Keys == f.cells.Keys + {x} &&
            (forall nd :: nd in g.nodes ==> nd in g.cells) &&
            Keys(g) == Keys(f) + multiset{k}
  {
    if Forests.Valid(f, m) && x !in f.cells {
      InsertValid(f, m, x, k);
    }
  }

  /** The parts of union's lemma that the constructor needs. */
  lemma UnionSound(f1: Forest, m1: Node?, f2: Forest, m2: Node?)
    ensures Forests.Valid(f1, m1) && Forests.Valid(f2, m2) && f1.cells.Keys !! f2.cells.Keys ==>
            Apart(f1.cells, m1, f2.cells, m2) &&
            var g := UnionForest(f1, m1, f2, m2);
            Forests.Valid(g, UnionMin(f1.cells, m1, f2.cells, m2)) &&
            g.cells.Keys == f1.cells.Keys + f2.cells.Keys &&
            g.cells == UnionCells(f1.cells, m1, f2.cells, m2) && |g.nodes| == |f1.nodes| + |f2.nodes| &&
            (m1 != null ==> m1 in g.cells && g.cells[m1].key == f1.cells[m1].key) &&
            (m2 != null ==> m2 in g.cells && g.cells[m2].key == f2.cells[m2].key) &&
            (forall nd :: nd in g.nodes ==> nd in g.cells) &&
            Keys(g) == Keys(f1) + Keys(f2)
  {
    if Forests.Valid(f1, m1) && Forests.Valid(f2, m2) && f1.cells.Keys !! f2.cells.Keys {
      UnionValid(f1, m1, f2, m2);
      UnionCellsFacts(f1.cells, m1, f2.cells, m2);
      if m1 != null {
        assert SameFields(UnionCells(f1.cells, m1, f2.cells, m2)[m1], f1.cells[m1]);
      }
      if m2 != null {
        assert SameFields(UnionCells(f1.cells, m1, f2.cells, m2)[m2], f2.cells[m2]);
      }
    }
  }

  /** The parts of decrease_key's lemma that the method needs. */
  lemma DecreaseSound(f: Forest, m: Node?, x: Node, k: int)
    ensures Forests.Valid(f, m) && x in f.cells ==>
            m != null && m in f.cells && Shape(f, m) && (forall nd :: nd in f.nodes ==> nd in f.cells) &&
            var c := f.cells;
            var g, m1 := DecreaseForest(f, m, x, k), DecreaseMin(c, m, x, k);
            Forests.Valid(g, m1) && g.nodes == f.nodes && g.cells.Keys == c.Keys &&
            (forall nd :: nd in g.nodes ==> nd in g.cells) &&
            (k < c[x].key ==> Keys(g) == Keys(f) - multiset{c[x].key} + multiset{k}) &&
            (k >= c[x].key ==> g == f && m1 == m)
  {
    if Forests.Valid(f, m) && x in f.cells {
      EmptyIffNoMin(f, m);
      NodesListed(f, m);
      DecreaseValid(f, m, x, k);
    }
  }

  /** The steps of decrease_key with a smaller key, for the method that
      takes them one at a time. */
  lemma LowerSound(f: Forest, m: Node, x: Node, k: int)
    ensures Shape(f, m) && x in f.cells && k < f.cells[x].key ==>
            var c, y := f.cells, f.cells[x].parent;
            var g := LowerForest(f, m, x, k);
            (y != null ==> y in c && y != x) && g.cells.Keys == c.Keys &&
            g.cells[x].key == k && m in g.cells && g.cells[m].key == (if m == x then k else c[m].key) &&
            DecreaseForest(f, m, x, k).cells == g.cells &&
            (Cuts(c, x, k) ==>
               Cuttable(f, m, x) && CutReady(WithKey(c, x, k), m, x) &&
               x in CutForest(f, m, x).cells &&
               var h := Rekey(CutForest(f, m, x), x, k);
               CutOutCells(WithKey(c, x, k), m, x) == h.cells &&
               Shape(h, m) && y in h.cells && g == Cascade(h, m, y)) &&
            (!Cuts(c, x, k) ==> g == Rekey(f, x, k))
  {
    if Shape(f, m) && x in f.cells && k < f.cells[x].key {
      hide Shape, Cascade, CutOutCells, LowerForest, DecreaseForest, CutForest;
      var c := f.cells;
      LowerFacts(f, m, x, k);
      DecreaseCells(f, m, x, k);
      LowerCases(f, m, x, k);
      ParentBelow(f, m, x);
      if c[x].parent != null {
        ParentApart(f, m, x);
      }
      if Cuts(c, x, k) {
        CutIgnoresKeys(c, m, x, x, k);
      }
    }
  }

  /** One step of the cascading cut, for the loop that runs it. */
  lemma CascadeSound(f: Forest, m: Node, y: Node)
    ensures Shape(f, m) && y in f.cells ==>
            var z := f.cells[y].parent;
            y in f.level && 0 <= f.top - f.level[y] &&
            (z == null ==> Cascade(f, m, y) == f) &&
            (z != null && !f.cells[y].mark ==> Cascade(f, m, y) == f.(cells := WithMark(f.cells, y, true))) &&
            (z != null && f.cells[y].mark ==>
               Cuttable(f, m, y) && m in f.cells &&
               var g := CutForest(f, m, y);
               g.cells == CutOutCells(f.cells, m, y) &&
               Shape(g, m) && g.cells.Keys == f.cells.Keys && z in g.cells &&
               g.level == f.level && g.top == f.top && z in f.level && f.level[y] < f.level[z] &&
               Cascade(f, m, y) == Cascade(g, m, z))
  {
    if Shape(f, m) && y in f.cells {
      assert Placed(f, y);
      var z := f.cells[y].parent;
      if z != null && f.cells[y].mark {
        CutShape(f, m, y);
      }
    }
  }

  /** The promotion of the children of `x`, for the method that walks it. */
  lemma LiftSound(f: Forest, x: Node)
    ensures Shape(f, x) ==>
            x in f.cells && x in f.kids && Lifting(f.cells, x, f.kids[x]) &&
            var c, ks := f.cells, f.kids[x];
            var c0, ps := SpliceChildren(c, x), Promoted(ks);
            (c[x].child == null <==> ps == []) &&
            (forall v :: v in ps ==> v in c0 && v != x) &&
            (ps != [] ==> c[x].child == ps[|ps| - 1]) &&
            LiftCells(c, x, ks) == ClearParents(c0, ps)
  {
    if Shape(f, x) {
      LiftWalk(f, x);
    }
  }

  /** The walk to the left over the promoted children. */
  lemma WalkSound(f: Forest, x: Node)
    ensures Shape(f, x) ==>
            x in f.cells && x in f.kids && Lifting(f.cells, x, f.kids[x]) &&
            WalksLeft(SpliceChildren(f.cells, x), Promoted(f.kids[x]), x)
  {
    if Shape(f, x) {
      LiftWalksLeft(f, x);
    }
  }

  /** The steps of a link, one write at a time. */
  lemma LinkSteps(c: Cells, p: Node, z: Node)
    ensures LinkReady(c, p, z) ==>
            var c1 := WithParent(UnlinkCells(c, z), z, p);
            p in c1 && z in c1 &&
            (c1[p].child != null ==>
               c1[p].child in c1 && c1[c1[p].child].right != null && c1[c1[p].child].right in c1) &&
            LinkCells(c, p, z) == WithMark(AttachCells(c1, p, z), z, false)
  {
  }

  /** The inner loop's state names a node of the heap, and keeps its shape. */
  lemma GatheringIn(f: Forest, m: Node, vs: seq<Node>, rs: seq<Node>, a: seq<Node?>, p: Node)
    ensures Gathering(f, m, vs, rs, a, p) ==> Shape(f, m) && p in f.cells
  {
    if Gathering(f, m, vs, rs, a, p) {
      RootsIn(f, m);
    }
  }

  /** A table entry is a root of the heap other than `p`. */
  lemma EntrySound(f: Forest, m: Node, vs: seq<Node>, rs: seq<Node>, a: seq<Node?>, p: Node, d: int)
    ensures Gathering(f, m, vs, rs, a, p) && 0 <= d < |a| && a[d] != null ==>
            a[d] in f.cells && p in f.cells && a[d] != p
  {
    if Gathering(f, m, vs, rs, a, p) && 0 <= d < |a| && a[d] != null {
      RootsIn(f, m);
    }
  }

  /** One link of the inner loop, with the degree of `p0` raised to `dd`
      after it. */
  lemma GatherSound(f: Forest, m: Node, vs: seq<Node>, rs: seq<Node>, a: seq<Node?>, p: Node,
                    d: int, p2: Node, z: Node, p0: Node, dd: u32)
    ensures Gathering(f, m, vs, rs, a, p) && 0 <= d < |a| && a[d] != null &&
            ((p2 == p && z == a[d]) || (p2 == a[d] && z == p)) &&
            p2 in f.cells && z in f.cells && f.cells[p2].key <= f.cells[z].key && p0 in f.cells &&
            (forall nd :: nd in f.nodes ==> nd in f.cells) ==>
            LinkReady(f.cells, p2, z) && p2 in f.kids && p2 in f.level && z in f.level &&
            var g := LinkForest(f, p2, z);
            var m2 := LinkMin(f.cells, m, z);
            var h := g.(cells := WithDegree(g.cells, p0, dd));
            g.cells == LinkCells(f.cells, p2, z) && g.cells.Keys == f.cells.Keys &&
            h.cells.Keys == f.cells.Keys && h.nodes == f.nodes && m2 != null &&
            Gathering(h, m2, Remove(vs, z), rs, a[d := null], p2) &&
            Keys(h) == Keys(f) && |h.roots| < |f.roots|
  {
    if Gathering(f, m, vs, rs, a, p) && 0 <= d < |a| && a[d] != null &&
       ((p2 == p && z == a[d]) || (p2 == a[d] && z == p)) &&
       p2 in f.cells && z in f.cells && f.cells[p2].key <= f.cells[z].key && p0 in f.cells &&
       (forall nd :: nd in f.nodes ==> nd in f.cells) {
      hide Gathering, LinkForest, LinkCells, Keys;
      GatherStep(f, m, vs, rs, a, p, d, p2, z, p0, dd);
    }
  }

  /** The survivor takes the empty slot. */
  lemma StoreSound(f: Forest, m: Node, vs: seq<Node>, rs: seq<Node>, a: seq<Node?>, p: Node, d: int)
    ensures Gathering(f, m, vs, rs, a, p) && 0 <= d < |a| && a[d] == null ==>
            Shape(f, m) && f.roots == vs + rs && p in vs && Full(a[d := p], vs)
  {
    if Gathering(f, m, vs, rs, a, p) && 0 <= d < |a| && a[d] == null {
      TableStore(a, vs, p, d);
    }
  }

  /** consolidate starts at the minimum, with an empty table. */
  lemma StartSound(f: Forest, m: Node, a: seq<Node?>)
    ensures Shape(f, m) && (forall i :: 0 <= i < |a| ==> a[i] == null) ==>
            f.roots != [] && Gathering(f, m, [m], f.roots[1..], a, m)
  {
    if Shape(f, m) && (forall i :: 0 <= i < |a| ==> a[i] == null) {
      assert f.roots == [m] + f.roots[1..];
      FullEmpty(a);
      TableNext(a, [], m);
    }
  }

  /** The step to the next root after the inner loop. */
  lemma NextSound(f: Forest, m: Node, vs: seq<Node>, rs: seq<Node>, a: seq<Node?>, p: Node)
    ensures Shape(f, m) && f.roots == vs + rs && p in vs && Full(a, vs) ==>
            p in f.cells &&
            var nx := f.cells[p].right;
            nx != null && nx in f.cells &&
            (nx == m ==> Full(a, f.roots)) &&
            (nx != m && nx !in a ==> rs != [] && Gathering(f, m, vs + [nx], rs[1..], a, nx))
  {
    if Shape(f, m) && f.roots == vs + rs && p in vs && Full(a, vs) {
      GatherNext(f, m, vs, rs, a, p);
      var nx := f.cells[p].right;
      if nx != m && nx !in a {
        TableNext(a, vs, nx);
        assert f.roots == (vs + [nx]) + rs[1..];
      }
    }
  }

  /** The minimum the scan starts from, and each table entry it reads, is
      a root (`i` out of range asks only for the first). */
  lemma ScanSound(f: Forest, m: Node, a: seq<Node?>, i: int)
    ensures Shape(f, m) && Full(a, f.roots) ==>
            m in f.roots && m in f.cells &&
            (0 <= i < |a| && a[i] != null ==> a[i] in f.roots && a[i] in f.cells)
  {
    if Shape(f, m) && Full(a, f.roots) {
      RootsIn(f, m);
    }
  }

  /** The scan's end: its minimum is the least key of the heap. */
  lemma ScanEnd(f: Forest, m: Node, a: seq<Node?>, mn: Node)
    ensures Shape(f, m) && Full(a, f.roots) && mn in f.roots && Below(f.cells, mn, a, |a|) ==>
            Forests.Valid(f.(roots := RotateTo(f.roots, mn)), mn)
  {
    if Shape(f, m) && Full(a, f.roots) && mn in f.roots && Below(f.cells, mn, a, |a|) {
      ScanLeast(f, m, a, mn);
    }
  }

  /** The empty forest is a valid heap without keys. */
  lemma EmptyValid()
    ensures Forests.Valid(Empty(), null) && Keys(Empty()) == multiset{}
  {
  }

  /** A list of distinct nodes whose only member is `x` is `[x]`. */
  lemma SingleList(s: seq<Node>, x: Node)
    requires Distinct(s) && forall v :: v in s <==> v == x
    ensures s == [x]
  {
    assert x in s;
    assert s[0] in s;
    assert s[|s| - 1] in s;
    assert |s| == 1;
  }

  /** What extract_min has established about the heap `f` and its minimum
      `x` when some root other than `x` is left once the children of `x`
      are roots. */
  ghost predicate ExtractReady(f: Forest, x: Node) {
    Forests.Valid(f, x) && x in f.kids && f.roots != [] && Lifting(f.cells, x, f.kids[x]) &&
    (forall nd :: nd in f.nodes ==> nd in f.cells) && Rest(f, x) != []
  }

  /** The parts of extract_min's lemmas that the method needs. */
  lemma ExtractSound(f: Forest, x: Node)
    ensures Forests.Valid(f, x) ==>
            Shape(f, x) && x in f.cells && x in f.kids && f.roots != [] && Lifting(f.cells, x, f.kids[x]) &&
            (forall nd :: nd in f.nodes ==> nd in f.cells) &&
            (forall v :: v in Keys(f) ==> f.cells[x].key <= v) &&
            var c1, rs := LiftCells(f.cells, x, f.kids[x]), Rest(f, x);
            x in c1 && c1[x].key == f.cells[x].key && (c1[x].right == x <==> rs == []) &&
            (rs == [] ==> |f.nodes| == 1 && Keys(f) == multiset{f.cells[x].key}) &&
            (rs != [] ==>
               c1[x].left != null && c1[x].left in c1 && c1[x].right != null && c1[x].right in c1 &&
               c1[x].left == Last(rs) &&
               var g := ExtractForest(f, x);
               g.cells == UnlinkCells(c1, x) - {x} && Shape(g, Last(rs)) &&
               g.cells.Keys == f.cells.Keys - {x} && (forall nd :: nd in g.nodes ==> nd in g.cells) &&
               Keys(g) == Keys(f) - multiset{f.cells[x].key} && |g.nodes| == |f.nodes| - 1 && |f.nodes| >= 2)
  {
    if Forests.Valid(f, x) {
      hide Forests.Valid, Shape, LiftCells, ExtractForest, UnlinkCells, Keys;
      ExtractBase(f, x);
      SoleSound(f, x);
      RestSound(f, x);
    }
  }

  /** Extracting the minimum starts from a valid heap whose minimum lifts. */
  lemma ExtractBase(f: Forest, x: Node)
    ensures Forests.Valid(f, x) ==>
            Shape(f, x) && x in f.cells && x in f.kids && f.roots != [] && Lifting(f.cells, x, f.kids[x]) &&
            (forall nd :: nd in f.nodes ==> nd in f.cells) &&
            (forall v :: v in Keys(f) ==> f.cells[x].key <= v) &&
            var c1, rs := LiftCells(f.cells, x, f.kids[x]), Rest(f, x);
            x in c1 && c1[x].key == f.cells[x].key && (c1[x].right == x <==> rs == [])
  {
    if Forests.Valid(f, x) {
      MinHolds(f, x);
      assert Shape(f, x);
      hide Forests.Valid, Keys, Shape;
      NodesListed(f, x);
      LiftAlone(f, x);
      LiftKey(f.cells, x, f.kids[x]);
    }
  }

  /** A minimum with no children and no other root is the only node. */
  lemma SoleSound(f: Forest, x: Node)
    ensures Forests.Valid(f, x) && Rest(f, x) == [] ==>
            |f.nodes| == 1 && Keys(f) == multiset{f.cells[x].key}
  {
    if Forests.Valid(f, x) && Rest(f, x) == [] {
      NodesListed(f, x);
      LiftSound(f, x);
      var c, ks := f.cells, f.kids[x];
      assert ks == [] && f.roots == [x];
      SoleRoot(f, x, x);
      SingleList(f.nodes, x);
      assert Keys(f) == KeysOf(c, [x]);
    }
  }

  /** Otherwise the rest of the roots form the heap that consolidation starts from. */
  lemma RestSound(f: Forest, x: Node)
    ensures Forests.Valid(f, x) && Rest(f, x) != [] ==>
            x in f.cells && x in f.kids && Lifting(f.cells, x, f.kids[x]) &&
            var c1, rs := LiftCells(f.cells, x, f.kids[x]), Rest(f, x);
            x in c1 &&
            c1[x].left != null && c1[x].left in c1 && c1[x].right != null && c1[x].right in c1 &&
            c1[x].left == Last(rs) &&
            var g := ExtractForest(f, x);
            g.cells == UnlinkCells(c1, x) - {x} && Shape(g, Last(rs)) &&
            g.cells.Keys == f.cells.Keys - {x} && (forall nd :: nd in g.nodes ==> nd in g.cells) &&
            Keys(g) == Keys(f) - multiset{f.cells[x].key} && |g.nodes| == |f.nodes| - 1 && |f.nodes| >= 2
  {
    if Forests.Valid(f, x) && Rest(f, x) != [] {
      NodesListed(f, x);
      LiftAlone(f, x);
      LiftSound(f, x);
      var c, ks := f.cells, f.kids[x];
      var c0, ps := SpliceChildren(c, x), Promoted(ks);
      ClearFacts(c0, ps);
      var rs := Rest(f, x);
      ExtractForestCells(f, x);
      ExtractShape(f, x);
      var g := ExtractForest(f, x);
      NodesListed(g, Last(rs));
      assert Last(rs) in g.nodes;
    }
  }

  /** The parts of decrease_key's lemma that erase needs: a key below the
      minimum's makes `x` the minimum. */
  lemma EraseSound(f: Forest, m: Node?, x: Node)
    ensures Forests.Valid(f, m) && x in f.cells ==>
            m != null && m in f.cells && f.cells[m].key - 1 < f.cells[x].key &&
            DecreaseMin(f.cells, m, x, f.cells[m].key - 1) == x &&
            DecreaseForest(f, m, x, f.cells[m].key - 1).cells.Keys == f.cells.Keys &&
            DecreaseForest(f, m, x, f.cells[m].key - 1).nodes == f.nodes &&
            DecreaseForest(f, m, x, f.cells[m].key - 1).cells[x].key == f.cells[m].key - 1 &&
            (forall nd :: nd in f.cells && nd != x ==>
               DecreaseForest(f, m, x, f.cells[m].key - 1).cells[nd].key == f.cells[nd].key)
  {
    if Forests.Valid(f, m) && x in f.cells {
      EmptyIffNoMin(f, m);
      assert m in f.cells;
      DecreaseSound(f, m, x, f.cells[m].key - 1);
      LowerSound(f, m, x, f.cells[m].key - 1);
      LowerFacts(f, m, x, f.cells[m].key - 1);
    }
  }

  /** Cells made of the coupled cells of two heaps are coupled. */
  lemma JoinCoupled(h: FibHeap, h1: FibHeap, h2: FibHeap)
    ensures h1.Coupled() && h2.Coupled() && h.F.cells == h1.F.cells + h2.F.cells ==> h.Coupled()
  {
  }
}
