/**
 * Circular doubly-linked lists, seen through a map of cells.
 *
 * A list is described by a sequence that enumerates its members in `right`
 * order: `Ring(c, s)` says that in the cells `c`, following `right` from
 * `s[i]` leads to `s[i+1]` (and from the last element back to the first),
 * and that `left` goes the other way.
 */
module Rings {
  import opened FibNodes

  type Cells = map<Node, Cell>

  ghost predicate Distinct(s: seq<Node>) {
    forall i, j :: 0 <= i < j < |s| ==> s[i] != s[j]
  }

  /** `u` and `v` are adjacent, `v` to the right of `u`. */
  ghost predicate Linked(c: Cells, u: Node, v: Node) {
    u in c && v in c && c[u].right == v && c[v].left == u
  }

  /** Consecutive elements of `s` are linked (no wrap-around). The two
      bound positions keep the solver from walking along the sequence. */
  ghost predicate Chain(c: Cells, s: seq<Node>) {
    forall i, j :: 0 <= i < j < |s| && j == i + 1 ==> Linked(c, s[i], s[j])
  }

  /** `s` enumerates, in `right` order, one whole circular list. */
  ghost predicate Ring(c: Cells, s: seq<Node>) {
    Distinct(s) && Chain(c, s) && (s != [] ==> Linked(c, s[|s| - 1], s[0]))
  }

  /** `s` with its first occurrence of `v` taken out. */
  function Remove(s: seq<Node>, v: Node): (r: seq<Node>)
    ensures |r| == if v in s then |s| - 1 else |s|
  {
    if s == [] then []
    else if s[0] == v then s[1..]
    else [s[0]] + Remove(s[1..], v)
  }

  /** The multiset of the keys that the cells `c` give the nodes of `s`. */
  function KeysOf(c: Cells, s: seq<Node>): multiset<int>
    requires forall v :: v in s ==> v in c
  {
    if s == [] then multiset{} else multiset{c[s[0]].key} + KeysOf(c, s[1..])
  }

  // ---------------------------------------------------------------------
  // Sequences of nodes.

  /** The position of a member of a sequence. */
  lemma IndexOf(s: seq<Node>, v: Node) returns (i: nat)
    requires v in s
    ensures i < |s| && s[i] == v
  {
    i :| i < |s| && s[i] == v;
  }

  lemma {:induction false} RemoveAt(s: seq<Node>, i: nat)
    requires Distinct(s) && i < |s|
    ensures Remove(s, s[i]) == s[..i] + s[i + 1..]
  {
    if i > 0 {
      RemoveAt(s[1..], i - 1);
      assert s[1..][..i - 1] == s[1..i];
      assert s[1..][i..] == s[i + 1..];
      assert [s[0]] + s[1..i] == s[..i];
    }
  }

  lemma {:induction false} RemoveMembers(s: seq<Node>, v: Node)
    requires Distinct(s)
    ensures Distinct(Remove(s, v))
    ensures forall u :: u in Remove(s, v) <==> u in s && u != v
  {
    if s != [] && s[0] != v {
      RemoveMembers(s[1..], v);
      var r := [s[0]] + Remove(s[1..], v);
      assert r[0] == s[0] && r[1..] == Remove(s[1..], v);
      forall i, j | 0 <= i < j < |r| ensures r[i] != r[j] {
        if i == 0 {
          assert r[j] in Remove(s[1..], v);
        } else {
          assert r[i] == r[1..][i - 1] && r[j] == r[1..][j - 1];
        }
      }
    }
  }

  // ---------------------------------------------------------------------
  // Keys.

  lemma {:induction false} KeysOfAppend(c: Cells, a: seq<Node>, b: seq<Node>)
    requires forall v :: v in a + b ==> v in c
    ensures KeysOf(c, a + b) == KeysOf(c, a) + KeysOf(c, b)
  {
    if a != [] {
      assert (a + b)[0] == a[0] && (a + b)[1..] == a[1..] + b;
      KeysOfAppend(c, a[1..], b);
    } else {
      assert a + b == b;
    }
  }

  /** The keys of `s` are exactly the keys of its members. */
  lemma {:induction false} KeysOfMembers(c: Cells, s: seq<Node>)
    requires forall v :: v in s ==> v in c
    ensures forall v :: v in s ==> c[v].key in KeysOf(c, s)
    ensures forall k :: k in KeysOf(c, s) ==> exists v :: v in s && c[v].key == k
  {
    if s != [] {
      KeysOfMembers(c, s[1..]);
      forall k | k in KeysOf(c, s) ensures exists v :: v in s && c[v].key == k {
        if k != c[s[0]].key {
          var v :| v in s[1..] && c[v].key == k;
          assert v in s;
        }
      }
    }
  }

  /** Taking a member out of a sequence takes exactly its key out. */
  lemma {:induction false} KeysOfRemove(c: Cells, s: seq<Node>, v: Node)
    requires forall u :: u in s ==> u in c
    requires v in s
    ensures forall u :: u in Remove(s, v) ==> u in c
    ensures KeysOf(c, s) == KeysOf(c, Remove(s, v)) + multiset{c[v].key}
  {
    if s[0] != v {
      KeysOfRemove(c, s[1..], v);
      var r := [s[0]] + Remove(s[1..], v);
      assert r[0] == s[0] && r[1..] == Remove(s[1..], v);
    }
  }

  /** The key multiset only depends on the keys. */
  lemma {:induction false} KeysOfFrame(c0: Cells, c1: Cells, s: seq<Node>)
    requires forall v :: v in s ==> v in c0 && v in c1 && c1[v].key == c0[v].key
    ensures KeysOf(c1, s) == KeysOf(c0, s)
  {
    if s != [] {
      KeysOfFrame(c0, c1, s[1..]);
    }
  }

  // ---------------------------------------------------------------------
  // Rings.

  /** Two chains joined by a link form one chain. */
  lemma ChainJoin(c: Cells, a: seq<Node>, b: seq<Node>)
    requires Chain(c, a) && Chain(c, b)
    requires a != [] && b != [] ==> Linked(c, a[|a| - 1], b[0])
    ensures Chain(c, a + b)
  {
    forall i, j | 0 <= i && j == i + 1 && j < |a + b| ensures Linked(c, (a + b)[i], (a + b)[j]) {
      if i < |a| - 1 {
        assert (a + b)[i] == a[i] && (a + b)[j] == a[j];
      } else if i == |a| - 1 {
        assert (a + b)[i] == a[|a| - 1] && (a + b)[j] == b[0];
      } else {
        assert (a + b)[i] == b[i - |a|] && (a + b)[j] == b[j - |a|];
      }
    }
  }

  /** Any contiguous piece of a chain is a chain. */
  lemma ChainSlice(c: Cells, s: seq<Node>, lo: nat, hi: nat)
    requires Chain(c, s) && lo <= hi <= |s|
    ensures Chain(c, s[lo..hi])
  {
    forall i, j | 0 <= i && j == i + 1 && j < hi - lo ensures Linked(c, s[lo..hi][i], s[lo..hi][j]) {
      assert s[lo..hi][i] == s[lo + i] && s[lo..hi][j] == s[lo + j];
    }
  }

  /** Rotating a sequence keeps its elements apart. */
  lemma RotateDistinct(s: seq<Node>, j: nat)
    requires Distinct(s) && j <= |s|
    ensures Distinct(s[j..] + s[..j])
  {
    var r := s[j..] + s[..j];
    forall a, b | 0 <= a < b < |r| ensures r[a] != r[b] {
      var ia := if a < |s| - j then a + j else a - (|s| - j);
      var ib := if b < |s| - j then b + j else b - (|s| - j);
      assert r[a] == s[ia] && r[b] == s[ib];
    }
  }

  /** A circular list may be enumerated from any of its members. */
  lemma RingRotate(c: Cells, s: seq<Node>, j: nat)
    requires Ring(c, s) && j < |s|
    ensures Ring(c, s[j..] + s[..j])
    ensures multiset(s[j..] + s[..j]) == multiset(s)
  {
    RotateDistinct(s, j);
    ChainSlice(c, s, j, |s|);
    ChainSlice(c, s, 0, j);
    if j > 0 {
      assert s[j..][|s| - j - 1] == s[|s| - 1];
      ChainJoin(c, s[j..], s[..j]);
      var r := s[j..] + s[..j];
      assert r[|r| - 1] == s[j - 1] && r[0] == s[j];
      assert Linked(c, s[j - 1], s[j]);
    } else {
      assert s[j..] + s[..j] == s;
    }
    calc {
      multiset(s);
      { assert s == s[..j] + s[j..]; }
      multiset(s[..j]) + multiset(s[j..]);
    }
  }

  /** The list `s + [x]` read from `x` on. */
  lemma RotateLast(c: Cells, s: seq<Node>, x: Node)
    requires Ring(c, s + [x])
    ensures Ring(c, [x] + s)
  {
    var r := s + [x];
    RingRotate(c, r, |s|);
    assert r[|s|..] + r[..|s|] == [x] + s;
  }

  /** A list whose members keep their sibling links is still the same list. */
  lemma RingFrame(c0: Cells, c1: Cells, s: seq<Node>)
    requires Ring(c0, s)
    requires forall v :: v in s ==> v in c0 && v in c1 && c1[v].left == c0[v].left && c1[v].right == c0[v].right
    ensures Ring(c1, s)
  {
    forall i, j | 0 <= i && j == i + 1 && j < |s| ensures Linked(c1, s[i], s[j]) {
      assert Linked(c0, s[i], s[j]);
    }
    if s != [] {
      assert Linked(c0, s[|s| - 1], s[0]);
    }
  }

  /** A node spliced in between the last and the first member of a list
      extends it by one element. */
  lemma RingAppend(c0: Cells, c1: Cells, s: seq<Node>, x: Node)
    requires Ring(c0, s) && s != [] && x !in s
    requires Linked(c1, s[|s| - 1], x) && Linked(c1, x, s[0])
    requires forall v :: v in s ==> v in c0 && v in c1
    requires forall v :: v in s && v != s[|s| - 1] ==> c1[v].right == c0[v].right
    requires forall v :: v in s && v != s[0] ==> c1[v].left == c0[v].left
    ensures Ring(c1, s + [x])
  {
    var r := s + [x];
    forall i, j | 0 <= i && j == i + 1 && j < |r| ensures Linked(c1, r[i], r[j]) {
      if j < |s| {
        assert Linked(c0, s[i], s[j]);
        assert s[i] != s[|s| - 1] && s[j] != s[0];
      }
    }
    forall i, j | 0 <= i < j < |r| ensures r[i] != r[j] {
      if j < |s| {
        assert s[i] != s[j];
      }
    }
  }

  /** The successor of the first element of a non-empty list, read
      circularly. */
  function Second(s: seq<Node>): Node
    requires s != []
  {
    if |s| == 1 then s[0] else s[1]
  }

  /** Two disjoint lists cut open after their first elements and joined
      crosswise form one list: `a[0]`, then `b` from its second element
      round to `b[0]`, then the rest of `a`. */
  lemma RingCross(c0: Cells, c1: Cells, a: seq<Node>, b: seq<Node>)
    requires Ring(c0, a) && Ring(c0, b) && a != [] && b != []
    requires forall v :: v in a ==> v !in b
    requires forall v :: v in a + b ==> v in c0 && v in c1
    requires Linked(c1, a[0], Second(b)) && Linked(c1, b[0], Second(a))
    requires forall v :: v in a + b && v != a[0] && v != b[0] ==> c1[v].right == c0[v].right
    requires forall v :: v in a + b && v != Second(a) && v != Second(b) ==> c1[v].left == c0[v].left
    ensures Ring(c1, [a[0]] + b[1..] + [b[0]] + a[1..])
  {
    var s := [a[0]] + b[1..] + [b[0]] + a[1..];
    var na, nb := |a|, |b|;
    assert forall i :: 1 <= i < nb ==> s[i] == b[i];
    assert s[nb] == b[0];
    assert forall i :: nb < i < na + nb ==> s[i] == a[i - nb];
    forall i, j | 0 <= i && j == i + 1 && j < |s| ensures Linked(c1, s[i], s[j]) {
      if i == 0 {
      } else if i < nb - 1 {
        assert Linked(c0, b[i], b[i + 1]);
        assert b[i] != b[0] && b[i + 1] != b[1];
        assert b[i] in a + b && b[i + 1] in a + b;
      } else if i == nb - 1 {
        assert Linked(c0, b[nb - 1], b[0]);
        assert b[nb - 1] != b[0];
        assert b[nb - 1] in a + b && b[0] in a + b;
      } else if i == nb {
      } else {
        var k := i - nb;
        assert Linked(c0, a[k], a[k + 1]);
        assert a[k] != a[0] && a[k + 1] != a[1];
        assert a[k] in a + b && a[k + 1] in a + b;
      }
    }
    if na > 1 {
      assert Linked(c0, a[na - 1], a[0]);
      assert a[na - 1] != a[0] && a[0] != a[1];
      assert a[na - 1] in a + b && a[0] in a + b;
      assert s[|s| - 1] == a[na - 1];
    } else {
      assert s[|s| - 1] == b[0];
    }
    forall i, j | 0 <= i < j < |s| ensures s[i] != s[j] {
      if j < nb {
        if i > 0 {
          assert b[i] != b[j];
        }
      } else if j == nb {
        if i > 0 {
          assert b[i] != b[0];
        }
      } else if i == 0 {
        assert a[0] != a[j - nb];
      } else if i < nb {
        assert s[i] in b;
      } else if i == nb {
        assert s[j] in a;
      } else {
        assert a[i - nb] != a[j - nb];
      }
    }
  }

  /** The left neighbour of `s[i]` in the circular list `s`. */
  function Pred(s: seq<Node>, i: nat): Node
    requires i < |s|
  {
    if i == 0 then s[|s| - 1] else s[i - 1]
  }

  /** The right neighbour of `s[i]` in the circular list `s`. */
  function Succ(s: seq<Node>, i: nat): Node
    requires i < |s|
  {
    if i == |s| - 1 then s[0] else s[i + 1]
  }

  /** In a circular list every member points at its neighbours. */
  lemma RingNeighbours(c: Cells, s: seq<Node>, i: nat)
    requires Ring(c, s) && i < |s|
    ensures s[i] in c && c[s[i]].left == Pred(s, i) && c[s[i]].right == Succ(s, i)
    ensures Pred(s, i) in s && Succ(s, i) in s
  {
    if i == 0 {
      assert Linked(c, s[|s| - 1], s[0]);
    } else {
      assert Linked(c, s[i - 1], s[i]);
    }
    if i == |s| - 1 {
      assert Linked(c, s[|s| - 1], s[0]);
    } else {
      assert Linked(c, s[i], s[i + 1]);
    }
  }

  /** In a list of two or more, no member is its own neighbour. */
  lemma PredSuccApart(s: seq<Node>, i: nat)
    requires Distinct(s) && 2 <= |s| && i < |s|
    ensures Pred(s, i) != s[i] && Succ(s, i) != s[i]
  {
    if i == 0 {
      assert s[|s| - 1] != s[0] && s[1] != s[0];
    } else if i == |s| - 1 {
      assert s[i - 1] != s[i] && s[0] != s[i];
    } else {
      assert s[i - 1] != s[i] && s[i + 1] != s[i];
    }
  }

  /** A member taken out of a circular list of two or more, by linking its
      two neighbours to each other, leaves the rest as a circular list. */
  lemma RingUnlink(c0: Cells, c1: Cells, s: seq<Node>, i: nat)
    requires Ring(c0, s) && 2 <= |s| && i < |s|
    requires Linked(c1, Pred(s, i), Succ(s, i))
    requires forall j :: 0 <= j < |s| ==> s[j] in c0 && s[j] in c1
    requires forall j :: 0 <= j < |s| && j != i && s[j] != Pred(s, i) ==> c1[s[j]].right == c0[s[j]].right
    requires forall j :: 0 <= j < |s| && j != i && s[j] != Succ(s, i) ==> c1[s[j]].left == c0[s[j]].left
    ensures Ring(c1, s[..i] + s[i + 1..])
  {
    var u := s[..i] + s[i + 1..];
    var n := |s|;
    assert forall j :: 0 <= j < i ==> u[j] == s[j];
    assert forall j :: i <= j < n - 1 ==> u[j] == s[j + 1];
    forall a, b | 0 <= a && b == a + 1 && b < |u| ensures Linked(c1, u[a], u[b]) {
      if b < i {
        assert Linked(c0, s[a], s[b]);
        assert s[a] != Pred(s, i) && s[b] != Succ(s, i) && s[a] != s[i] && s[b] != s[i];
      } else if b == i {
      } else {
        assert Linked(c0, s[a + 1], s[b + 1]);
        assert s[a + 1] != Pred(s, i) && s[b + 1] != Succ(s, i) && s[a + 1] != s[i] && s[b + 1] != s[i];
      }
    }
    if 0 < i < n - 1 {
      assert Linked(c0, s[n - 1], s[0]);
      assert s[n - 1] != Pred(s, i) && s[0] != Succ(s, i) && s[n - 1] != s[i] && s[0] != s[i];
    }
    forall a, b | 0 <= a < b < |u| ensures u[a] != u[b] {
      var ia := if a < i then a else a + 1;
      var ib := if b < i then b else b + 1;
      assert s[ia] != s[ib];
    }
  }

  /** A new node linked in just right of the first member of a circular list
      becomes its second member. */
  lemma RingPlug(c0: Cells, c1: Cells, s: seq<Node>, x: Node)
    requires Ring(c0, s) && s != [] && x !in s
    requires Linked(c1, s[0], x) && Linked(c1, x, Second(s))
    requires forall v :: v in s ==> v in c0 && v in c1
    requires forall v :: v in s && v != s[0] ==> c1[v].right == c0[v].right
    requires forall v :: v in s && v != Second(s) ==> c1[v].left == c0[v].left
    ensures Ring(c1, [s[0], x] + s[1..])
  {
    var r := [s[0], x] + s[1..];
    var n := |s|;
    assert forall j :: 2 <= j < n + 1 ==> r[j] == s[j - 1];
    forall a, b | 0 <= a && b == a + 1 && b < |r| ensures Linked(c1, r[a], r[b]) {
      if a >= 2 {
        assert Linked(c0, s[a - 1], s[a]);
        assert s[a - 1] != s[0] && s[a] != s[1];
      }
    }
    if n > 1 {
      assert Linked(c0, s[n - 1], s[0]);
      assert s[n - 1] != s[0] && s[0] != s[1];
    }
    forall a, b | 0 <= a < b < |r| ensures r[a] != r[b] {
      if a >= 2 {
        assert s[a - 1] != s[b - 1];
      } else if a == 0 && b >= 2 {
        assert s[0] != s[b - 1];
      }
    }
  }

  /** The position of `v` in `s`, or `|s|` when it is not there. */
  function Find(s: seq<Node>, v: Node): (i: nat)
    ensures i <= |s| && (i < |s| <==> v in s) && (i < |s| ==> s[i] == v)
  {
    if s == [] then 0 else if s[0] == v then 0 else 1 + Find(s[1..], v)
  }

  /** The circular list `s` read from `v` on (unchanged when `v` is not a
      member). */
  function RotateTo(s: seq<Node>, v: Node): (r: seq<Node>)
    ensures v in s ==> r != [] && r[0] == v
  {
    var i := Find(s, v);
    s[i..] + s[..i]
  }
}
