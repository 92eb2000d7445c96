# A verified model of the Fibonacci heap of FibHeap/FibHeap.h

`FibHeap/FibHeap.h` implements a Fibonacci heap over `int` keys. Its parts are:

- `struct Node`: a key, pointers `parent`, `child`, `left` and `right`, an `unsigned int` degree and a mark.
- `class FibHeap`: a `min` pointer into a circular root list and a node count `n`.
- The operations: `insert`, `get_min`, a constructor that unites two heaps, `decrease_key` with its cut and cascading cut, `extract_min` with its inline consolidate pass, and `erase`.

This project models those operations as imperative Dafny over real objects.

- `FibNodes.Node` is a class with the seven fields of `struct Node`. `FibHeaps.FibHeap` is a class with the fields `min` and `n`.
- Every method writes node fields one at a time, in the order the source does. The one exception is the cut inside `decrease_key` and its cascading cut, which first moves the parent's `child` off the node being cut (see Findings).
- The heap also carries a ghost value `F: Forests.Forest` that mirrors every node it owns. `F.cells` maps each node to a `Cell`, which holds the current values of that node's fields. The predicate `Coupled()` ties that map to the objects.
- `F` also carries the ghost order of the root list (`roots`) and of every child list (`kids`). It also gives each node a `level` (a parent's level is below its children's), which rules out cycles.
- The shape of the heap is stated as pure predicates over that value (module `Forests`):
  - every list is a circular doubly linked ring,
  - every child points at its parent,
  - heap order holds on every parent–child edge,
  - the root list is entered at `min`.
- `Valid()` adds two things. The key of `min` is the least key of the heap. `n` is at least the number of nodes: the sole-node path of `extract_min` leaves `n` one above it.
- Each source operation has two sides. There is a pure function on the forest value (modules `Inserting`, `Uniting`, `Decreasing`, `Extracting` and `Consolidating`), with lemmas proving that it keeps the shape, the keys and the minimum. There is also a class method whose `ensures` ties the new state to that function.
- `Contents()` is the multiset of keys of the heap. The public methods state how it changes.

The modules follow the source:

| module | file | source |
|---|---|---|
| `FibNodes` | fibnode.dfy | `struct Node`, its constructor and `clear`; the 32-bit `degree` |
| `Rings` | rings.dfy | circular doubly linked lists and their keys |
| `Forests` | forest.dfy | the heap shape as a value: root list, child lists, heap order |
| `Inserting` | insert.dfy | `insert` |
| `Uniting` | union.dfy | the union constructor |
| `Decreasing` | decrease.dfy | `cut`, `decrease_key` and the cascading cut |
| `Extracting` | extract.dfy | the promotion of the children of the minimum, the link step of consolidate, the removal of the minimum |
| `Consolidating` | consolidate.dfy | the degree table, the walk along the root list, the scan for the new minimum |
| `FibHeaps` | fibheap.dfy | `class FibHeap` and all its operations as methods |

Three behaviours of the source are modelled as written:

- On the path where the extracted minimum was the only node, `n` does not go down (`FibHeap/FibHeap.h:126-130`). `ExtractMin` states this.
- In consolidate, `d` is a reference to the degree of the root that the iteration started with (`FibHeap/FibHeap.h:144`). `d++` therefore raises that root's degree even when it has just been linked below the table entry. The degree of the root that stays on top is not raised (`Merge` and `Absorb` state this). So the model makes no claim that a degree equals a child count.
- The table entry `A[d]` is read before `d <= dn` is tested (`FibHeap/FibHeap.h:145`). Where the source would read past the table, the model stops with the outcome `TableOverflow`.

Where the code departs from the textbook Fibonacci heap (Fredman and Tarjan, as presented in chapter 19 of Cormen, Leiserson, Rivest and Stein), the model follows the code:

- In the textbook consolidate, the degree of the root that stays on top goes up by one after each link. In the code, only `p0`'s degree goes up.
- In the textbook, every extraction from a non-empty heap lowers the size by one. In the code, the sole-node path does not.

## Model

| member | source | states |
|---|---|---|
| FibNodes.Node.constructor | FibHeap/FibHeap.h:7-9 | a new node holds key `k`, has no parent, child or siblings, has degree 0 and is unmarked |
| FibNodes.Node.Clear | FibHeap/FibHeap.h:13-17 | afterwards every link of the node is null, its degree is 0 and its mark false; only the key is left as it was |
| FibNodes.Inc | FibHeap/FibHeap.h:145 | `++` on the `unsigned int` degree is addition of one modulo 2^32 |
| FibNodes.Dec | FibHeap/FibHeap.h:193 | `--` on the `unsigned int` degree is subtraction of one modulo 2^32 |
| FibHeaps.FibHeap.constructor | FibHeap/FibHeap.h:27 | the default heap is a valid heap with no node, `min` null and `n` 0 |
| FibHeaps.FibHeap.GetMin | FibHeap/FibHeap.h:32 | returns `min` and changes nothing; the result is null exactly when the heap holds no key, and otherwise holds the least key in the heap |
| Inserting.InsertCellsFacts | FibHeap/FibHeap.h:95-105 | the new node has key `k`, no parent or child, degree 0 and no mark; in an empty heap it is a ring of one; otherwise it sits between `min.left` and `min`; no other node changes except those two neighbours' links |
| Inserting.InsertRoots | FibHeap/FibHeap.h:96-106 | the root list is still a circular list and now holds exactly the old roots and the new node; it is entered at the new minimum |
| Inserting.InsertLeast | FibHeap/FibHeap.h:106 | the new minimum (the new node when the heap was empty or `k` is strictly smaller than the old minimum's key; otherwise the old minimum) holds the least key |
| Inserting.InsertValid | FibHeap/FibHeap.h:93-109 | inserting a fresh node into a valid heap gives a valid heap with one more node and the key `k` added to its keys |
| FibHeaps.FibHeap.Insert | FibHeap/FibHeap.h:93-109 | the heap stays valid; the node returned is fresh; the new state is the inserted forest; `min` becomes the new node exactly when the heap was empty or `k` is strictly smaller; `n` goes up by one; the keys gain `k` |
| Uniting.CrossFacts | FibHeap/FibHeap.h:79-84 | the cross splice links `min1` to the old right neighbour `y2` of `min2`, and `min2` to the old right neighbour `y1` of `min1`; no other link and no other field changes |
| Uniting.UnionRootsRing | FibHeap/FibHeap.h:77-85 | the two root lists, spliced only when both heaps are non-empty, form one circular list |
| Uniting.UnionLeast | FibHeap/FibHeap.h:86-87 | the new minimum (the second heap's when the first is empty or its key is strictly smaller, otherwise the first heap's) holds the least key of both heaps |
| Uniting.UnionValid | FibHeap/FibHeap.h:75-91 | the union of two valid heaps with no shared node is a valid heap, whose nodes are the nodes of both and whose keys are the sum of both heaps' keys |
| FibHeaps.FibHeap.Union | FibHeap/FibHeap.h:75-91 | the new heap is valid and is the united forest, with the minimum chosen as above and `n` equal to `h1.n + h2.n`; its keys are both heaps' keys; both inputs end with `min` null, `n` 0 and no node |
| FibHeaps.FibHeap.Join | FibHeap/FibHeap.h:77-87 | the cells become the united cells, and `min` becomes the second minimum exactly by the rule of line 86-87 |
| FibHeaps.FibHeap.Cross | FibHeap/FibHeap.h:79-84 | the four writes of the cross splice, and nothing else |
| FibHeaps.FibHeap.EmptiedValid | FibHeap/FibHeap.h:89-90 | a heap left with `min` null and `n` 0 is a valid empty heap |
| Decreasing.CutFacts | FibHeap/FibHeap.h:39-51 | `cut(v, m)`: `v` leaves its list (its neighbours become adjacent) unless it is alone there, and is plugged in right of `m`; only those links change |
| Decreasing.CutOutFacts | FibHeap/FibHeap.h:39-51 | with the bookkeeping of lines 192-195: the parent's degree drops by one (32-bit), `v` loses its parent and its mark, the parent's `child` moves off `v`; every other field of every node is unchanged |
| Decreasing.CutShape | FibHeap/FibHeap.h:190-195 | cutting a non-root node to the root list keeps the forest shape with the same `min`, the same nodes and every key; only `v` loses its parent |
| Decreasing.AsWrittenLosesFamily | FibHeap/FibHeap.h:192-195 | as written (no write to the parent's `child`), cutting the child that the parent's `child` points at leaves the parent pointing at a root: no child list fits the parent, and no forest shape fits the cells |
| Decreasing.CascadeFacts | FibHeap/FibHeap.h:197-209 | the cascading cut keeps the forest shape, every node and every key; no root gains a parent, and no root's mark changes, so the loop never marks a root |
| Decreasing.LowerCases | FibHeap/FibHeap.h:188-210 | lowering a key cuts `x` exactly when it has a parent with a larger key than `k`, and then cascades from that parent; otherwise only the key changes |
| Decreasing.LowerFacts | FibHeap/FibHeap.h:188-210 | after lowering, the shape holds, `x` has key `k`, every other key is unchanged, and `x` is a root when it was cut |
| Decreasing.DecreaseValid | FibHeap/FibHeap.h:184-213 | decrease_key keeps a valid heap; for `k` below the key of `x` the keys lose the old key and gain `k`; for `k` not below it nothing changes |
| FibHeaps.FibHeap.DecreaseKey | FibHeap/FibHeap.h:184-213 | returns false exactly when `k` is greater than the key of `x`; the heap stays valid and `n` is unchanged; `min` becomes `x` exactly when `k` is strictly below the old minimum's key; the keys change exactly as the previous row says |
| FibHeaps.FibHeap.Lower | FibHeap/FibHeap.h:188-211 | the strict decrease, with the corrected cut of Findings: the new state is the lowered forest with the new minimum, and the old key of `x` is replaced by `k` |
| FibHeaps.FibHeap.LowerKey | FibHeap/FibHeap.h:188-210 | the writes of lines 188-210, with the corrected cut of Findings, give exactly the lowered forest |
| FibHeaps.FibHeap.Cascading | FibHeap/FibHeap.h:197-209 | the loop, with the corrected cut of Findings at lines 204-207, gives exactly the cascade from `y`, and `min` is unchanged |
| FibHeaps.FibHeap.Cut | FibHeap/FibHeap.h:39-51 | the writes of `cut` give exactly the cut cells |
| FibHeaps.FibHeap.CutOut | FibHeap/FibHeap.h:192-195 | the cut of a child with the parent's `child` moved off it and the bookkeeping of lines 193-195 |
| FibHeaps.FibHeap.Sever | FibHeap/FibHeap.h:193-195 | the parent's degree drops by one, and the node loses its parent and its mark |
| Extracting.LinkFacts | FibHeap/FibHeap.h:151-168 | linking `z` below `p`: `z` leaves the root list, gets `p` as parent and no mark, and becomes `p`'s only child or sits right of `p.child`; no key or degree changes |
| Extracting.LinkRootList | FibHeap/FibHeap.h:152-154 | after the link the root list is the old one without `z`, and is entered at `z.right` when `z` was `min` |
| Extracting.LinkShape | FibHeap/FibHeap.h:145-168 | linking a root below a root whose key is no larger keeps the forest shape and so heap order on the new edge; the root list loses `z`; no key or degree changes |
| Extracting.PromotedMembers | FibHeap/FibHeap.h:116-123 | the children that become roots are exactly the children of the minimum, each once |
| Extracting.LiftRing | FibHeap/FibHeap.h:116-125 | after the children are promoted, the minimum, its children and the other roots form one circular list, and every one of them but the minimum has no parent |
| Extracting.LiftWalksLeft | FibHeap/FibHeap.h:124 | the walk `p = p->left` from the last child reaches every promoted child in turn and ends at the minimum |
| Extracting.LiftAlone | FibHeap/FibHeap.h:126 | after the promotion, `x.right == x` exactly when the minimum had no child and was the only root |
| Extracting.ExtractRootList | FibHeap/FibHeap.h:131-135 | once the minimum leaves the root list, the rest is a circular list entered at `x.left` |
| Extracting.ExtractShape | FibHeap/FibHeap.h:115-135 | removing the minimum with its children promoted keeps the forest shape; the nodes and the keys lose exactly the minimum |
| Consolidating.FullEmpty | FibHeap/FibHeap.h:140 | the new table, all null, holds no root |
| Consolidating.TableNext | FibHeap/FibHeap.h:143-145 | a root that is not in the table joins the passed roots, and the table lacks only it |
| Consolidating.TableDrop | FibHeap/FibHeap.h:169 | emptying `A[d]` after the link leaves a table holding the passed roots except the survivor, each once |
| Consolidating.TableStore | FibHeap/FibHeap.h:171 | storing the survivor in its empty slot gives a table holding every passed root exactly once |
| Consolidating.GatherLink | FibHeap/FibHeap.h:145-168 | one link of the inner loop keeps the forest shape, the keys and the table's bookkeeping; the root that went below leaves the passed roots |
| Consolidating.GatherStep | FibHeap/FibHeap.h:144-169 | the same with the degree of `p0` set after the link; the root list gets shorter, which bounds the inner loop |
| Consolidating.GatherNext | FibHeap/FibHeap.h:171-173 | `p.right` is `min` exactly when `p` is the last root; otherwise it is the next root still to come, unless the table already holds it |
| Consolidating.ScanLeast | FibHeap/FibHeap.h:175-179 | a root with no larger key than any table entry, when the table holds every root, holds the least key of the heap, and the forest entered at it is a valid heap |
| FibHeaps.FibHeap.Lift | FibHeap/FibHeap.h:116-125 | the writes of the promotion and the parent-clearing loop give exactly the lifted cells |
| FibHeaps.FibHeap.Promote | FibHeap/FibHeap.h:117-123 | the four writes that splice the child list into the root list right of the minimum |
| FibHeaps.FibHeap.Unparent | FibHeap/FibHeap.h:124 | the loop `for (p = y; p != x; p = p->left) p->parent = nullptr` clears the parent of exactly the promoted children |
| FibHeaps.FibHeap.Unroot | FibHeap/FibHeap.h:131-135 | the minimum leaves the root list; the new state is the extracted forest, and `min` is the left neighbour of the old minimum |
| FibHeaps.FibHeap.Link | FibHeap/FibHeap.h:151-168 | the writes of the link step give exactly the linked cells |
| FibHeaps.FibHeap.Absorb | FibHeap/FibHeap.h:150-169 | `min` moves to `z.right` when it was `z`; the forest is the linked forest with the degree of `p0` one above `dd`; the slot `A[d]` becomes null and no other slot changes |
| FibHeaps.FibHeap.Merge | FibHeap/FibHeap.h:145-170 | of `p1` and the entry `A[d]`, the entry stays a root only when its key is strictly smaller, so ties keep `p1`; the other goes below; shape, nodes and keys are kept, and the root list gets shorter |
| FibHeaps.FibHeap.Gather | FibHeap/FibHeap.h:144-171 | the inner loop keeps the shape, nodes and keys; unless the table would be read out of range, it ends with the survivor stored and every passed root tabled once |
| FibHeaps.FibHeap.Consolidate | FibHeap/FibHeap.h:139-174 | builds a table of `dn + 1` slots; keeps the shape, nodes and keys; a pass that ends normally leaves every root in the table exactly once |
| FibHeaps.FibHeap.ScanMin | FibHeap/FibHeap.h:175-179 | after the scan, `min` holds the least key of the heap and the heap is valid; only the entry point of the root list moves |
| FibHeaps.SoleSound | FibHeap/FibHeap.h:126-130 | a minimum with no child that is the only root is the only node of the heap |
| FibHeaps.FibHeap.ExtractMin | FibHeap/FibHeap.h:111-182 | returns the old `min`: on an empty heap, null with nothing changed; otherwise a node holding the least key. `n` goes down by one unless that node was the only node. When consolidate ends normally the heap is valid, the node has left it, and the node keeps only its key with every link cleared. The keys lose exactly that key, also when the model stops early |
| FibHeaps.FibHeap.Detach | FibHeap/FibHeap.h:131-181 | the case with other roots: `n` goes down by one; the minimum leaves the heap and is cleared; the keys lose exactly its key |
| FibHeaps.EraseSound | FibHeap/FibHeap.h:35 | lowering the key of `x` to `min.key - 1` makes `x` the minimum, and changes no other key |
| FibHeaps.FibHeap.Erase | FibHeap/FibHeap.h:35 | requires a non-empty heap, as the source's `min->key` does, and returns `x`; `n` follows the extract_min rule; the keys lose exactly the old key of `x`; when consolidate ends normally the heap is valid and `x` has left it, cleared, with key `min.key - 1` |

## Left out

- `destroy` and the destructor (`FibHeap/FibHeap.h:36, 53-68`) free memory, and Dafny has no deallocation. (They are also broken: a node with children is never deleted.)
- The table size `log(n)/log(phi)` (`FibHeap/FibHeap.h:72, 139`) is floating point. `ExtractMin`, `Detach`, `Erase` and `Consolidate` take the table bound `dn` as a parameter.
- The deleted copy and move constructors and the `friend` declaration are C++ access plumbing with no behaviour.
- `FibHeap/test.cpp` is a driver that calls the heap and is not part of this model.
- The amortized cost bounds and the Fibonacci degree bound are properties of cost, not of results, and the code never relies on them.
- Keys are unbounded integers. `erase` computes `min->key - 1`, which overflows C++ `int` at `INT_MIN`. `Erase` does not model that overflow.
- `Erase` requires a non-empty heap, because the source dereferences `min`. It also requires `x` to be in the heap, as `decrease_key` is only meaningful for a node of that heap.
- `FibHeaps.FibHeap.Insert`: `n` is an unbounded integer; the C++ `int` overflow of `++n` (`FibHeap/FibHeap.h:107`) at `INT_MAX` is not modelled. The sole-node path of extract_min never lowers `n`, so repeated insert/extract_min rounds can reach it.
- `FibHeaps.FibHeap.Union`: `n` is an unbounded integer; the C++ `int` overflow of `h1.n + h2.n` (`FibHeap/FibHeap.h:88`) is not modelled.
- `FibHeaps.FibHeap.Union` requires two different heaps that share no node. Uniting a heap with itself, or heaps that share nodes, is not modelled.
- `ExtractMin`, `Detach`, `Erase`: where consolidate would read past the table or come back to a root it has already tabled, the model stops. There are two such points:
  - `TableOverflow`: a degree at or beyond `dn + 1` would index past the table.
  - `Revisit`: the walk would reach a root the table already holds, which the swap at `FibHeap/FibHeap.h:146-150` followed by `p = p->right` from the survivor (`FibHeap/FibHeap.h:172`) makes possible. What the source does from there is not modelled.
  
  In both stop cases the contract only states that the heap keeps its forest shape and loses exactly the extracted key. It does not say what the source would go on to do.
- `FibHeaps.FibHeap.Consolidate`: termination of the outer loop relies on the `Revisit` stop. The model does not follow the source past that point.
- `FibHeaps.FibHeap.DecreaseKey` requires a valid heap and a node of it, and uses the corrected cut described under Findings. The child-pointer defect is therefore not carried into the rest of the model.
- `FibHeaps.FibHeap.Lower`: uses the same corrected cut, for the cut of `x` (`FibHeap/FibHeap.h:192-195`) and for every cut of the cascading cut (`FibHeap/FibHeap.h:204-207`).
- `FibHeaps.FibHeap.LowerKey`: uses the same corrected cut, for the cut of `x` (`FibHeap/FibHeap.h:192-195`) and for every cut of the cascading cut (`FibHeap/FibHeap.h:204-207`).
- `FibHeaps.FibHeap.Cascading`: uses the same corrected cut, for the cut of `x` (`FibHeap/FibHeap.h:192-195`) and for every cut of the cascading cut (`FibHeap/FibHeap.h:204-207`).
- `FibHeaps.FibHeap.CutOut`: uses the same corrected cut, for the cut of `x` (`FibHeap/FibHeap.h:192-195`) and for every cut of the cascading cut (`FibHeap/FibHeap.h:204-207`).
- `Decreasing.CutOutFacts`: uses the same corrected cut, for the cut of `x` (`FibHeap/FibHeap.h:192-195`) and for every cut of the cascading cut (`FibHeap/FibHeap.h:204-207`).
- `Decreasing.LowerCases`: uses the same corrected cut, for the cut of `x` (`FibHeap/FibHeap.h:192-195`) and for every cut of the cascading cut (`FibHeap/FibHeap.h:204-207`).
- `Decreasing.LowerFacts`: uses the same corrected cut, for the cut of `x` (`FibHeap/FibHeap.h:192-195`) and for every cut of the cascading cut (`FibHeap/FibHeap.h:204-207`).
- `Decreasing.DecreaseValid`: uses the same corrected cut, for the cut of `x` (`FibHeap/FibHeap.h:192-195`) and for every cut of the cascading cut (`FibHeap/FibHeap.h:204-207`).
- `FibHeaps.FibHeap.Merge`: a degree equal to the child count is not stated, because the source's `d` alias raises the degree of the root that was linked below, not of the survivor.

## Findings

| source | as written | input that shows it | evidently intended | confidence | as-written member | corrected member |
|---|---|---|---|---|---|---|
| FibHeap/FibHeap.h:192-195 | `decrease_key` cuts `x` from its parent `y` without moving `y->child` off `x`; the cascading cut at lines 204-207 does the same for each marked ancestor it cuts | a parent `y` whose `child` is `x`: afterwards `y->child` still points at `x`, now a root, so `y`'s children are unreachable from `y` (or reached through the root list) | before each cut, move the parent's `child` to the cut node's `right`, or to null when it is the only child | not executed | Decreasing.AsWrittenLosesFamily | Decreasing.CutShape |
