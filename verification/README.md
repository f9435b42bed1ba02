# Two priority queues, modelled in Dafny

This project models the two priority queues of an `Eecs281PQ`-style library.
Both share one interface: `push`, `pop`, `top`, `size`, `empty` and
`updatePriorities`, which rebuilds the queue. Both are ordered by a comparison
`compare(a, b)`, read as "b is more extreme than a".

- **`BinaryPQ`** is an array binary heap. It is modelled in `binary_pq.dfy` as
  methods that take the vector's contents (`seq<int>`) and return the new
  contents.
  - `fixUp`, `fixDown` and the bottom-up heapify in `updatePriorities` are
    loops with invariants.
  - `push`, `pop`, `top`, `size`, `empty` and the range constructor are built
    on them.
  - `Drain` pops until the queue is empty and shows that the output comes out
    in priority order.
- **`PairingPQ`** is a pairing heap of nodes with `child`, `sibling` and `prev`
  links. `prev` is the parent for a first child and the left sibling
  otherwise.
  - The nodes live in an arena `map<nat, Node>` whose indices stand in for
    C++ node addresses and handles (`pairing_arena.dfy`).
  - A ghost rose tree `Tree(id, elt, kids)` (`pairing_tree.dfy`) is the
    abstract view.
  - The predicate `Enc` says that a part of the arena encodes a list of such
    trees, including every `prev` link.
  - `Models(pq, ts)` is the class invariant: the arena encodes exactly the
    heap-ordered tree `ts` from `root`, every index is used once, and `_size`
    counts the nodes.
  - `meld` is the primitive that every operation is built on. Its link surgery
    is modelled write by write (`Adopt`, `Meld`) and proved to encode the
    abstract `Link` of two trees.
  - `push`, `addNode`, the range constructor, `top`, `size`, `empty` and
    `updateElt` are in `pairing_pq.dfy`.
  - `pop` is in `pairing_pop.dfy`: its first pass pairs the deleted root's
    children, and its second pass melds the pairs from the back.
  - The copy constructor and `updatePriorities` are in `pairing_copy.dfy`.

Three operations of the pairing heap do not do what the algorithm and the
header's own comments call for. For each, the model has both versions: the
code as written, with a lemma that exhibits the failure, and a corrected
definition with its property proved (see "Findings").

- **`pop`:** the first pass is written as `PopAsWritten`; the correction is
  `Pop`.
- **`updateElt` on the root:** the code as written is `UpdateElt`; the
  correction is `UpdateEltFixed`.
- **`updatePriorities`:** the code as written is `UpdatePriorities`, a copy
  into fresh nodes; the correction is `UpdatePrioritiesFixed`, which relinks
  the existing nodes.

The comparison is the default functor, `std::less` on integers. In
`order.dfy`, `Compare(a, b)` is `a < b`, so the most extreme element is the
largest.

## Model

| member | source | states |
|---|---|---|
| Order.NotCompareTransitive | BinaryPQ.h:10 | "Not more extreme" is transitive for the default `std::less` ordering. Every dominance argument chains through this. |
| BinaryPQ.ParentOfChild | BinaryPQ.h:88-90 | The parent index `((i+1)/2)-1` of a non-root index lies below it, and the index is that parent's left or right child. |
| BinaryPQ.Swap | BinaryPQ.h:89 | `std::swap` of two vector slots exchanges them, leaves every other slot alone, and keeps the multiset of contents. |
| BinaryPQ.FixUp | BinaryPQ.h:87-92 | `fixUp(i)` only permutes the contents. If the heap property held on every edge except the one above `i`, and `i`'s parent already dominated `i`'s children, the whole vector is a heap afterwards. |
| BinaryPQ.FixDown | BinaryPQ.h:93-102 | `fixDown(i)` only permutes the contents. If every edge below `i` was ordered, then every edge from `i` down is ordered afterwards. |
| BinaryPQ.UpdatePriorities | BinaryPQ.h:40-46 | Heapifying from `size/2-1` down to 0 turns arbitrary contents into a heap with the same multiset, and leaves sizes 0 and 1 unchanged. |
| BinaryPQ.FromRange | BinaryPQ.h:26-31 | The range constructor holds exactly the range's elements, in heap order. |
| BinaryPQ.Push | BinaryPQ.h:51-54 | `push(val)` grows the size by one, adds `val` to the contents, and keeps a heap a heap. |
| BinaryPQ.Pop | BinaryPQ.h:62-66 | `pop()` on a non-empty vector removes exactly the old front element, shrinks the size by one, and keeps a heap a heap (a single element leaves an empty vector). |
| BinaryPQ.RootDominates | BinaryPQ.h:73 | In a heap no element is more extreme than the front one. |
| BinaryPQ.Top | BinaryPQ.h:73 | `top()` is an element of the queue, and in a heap no element beats it. |
| BinaryPQ.Empty | BinaryPQ.h:77-81 | `empty()` holds exactly when `size()` is 0, that is, exactly when the queue holds no element. |
| BinaryPQ.Drain | BinaryPQ.h:62-73 | Taking `top()` and then `pop()` until the queue is empty yields every element once, in non-increasing priority order. |
| PairingArena.Alloc | PairingPQ.h:23-24 | `new Node(val)` adds one node with the element and three null links, and changes no other node. |
| PairingArena.Adopt | PairingPQ.h:268-274 | The link surgery of a meld moves no element between nodes, and introduces no dangling link. |
| PairingArena.AdoptLinks | PairingPQ.h:268-274 | When winner, loser and old first child are distinct, the surgery changes exactly three nodes. The winner's `child` becomes the loser. The loser's `sibling` becomes the old first child and its `prev` becomes the winner. The old first child's `prev` becomes the loser. |
| PairingArena.Meld | PairingPQ.h:259-288 | `meld` with a null operand returns the other one. Otherwise the right operand wins exactly when `compare(lhs, rhs)`, so ties favour the left one, and the loser is adopted by the winner. No element moves between nodes. |
| PairingArena.TryMeld | PairingPQ.h:259-288 | `meld` of two linked nodes in an arena without dangling links always succeeds and leaves no dangling link. It keeps every node and element, and a non-null operand gives a non-null result. |
| PairingArena.MeldEnc | PairingPQ.h:259-288 | Melding two disjoint encoded trees encodes their abstract `Link` at the winner, keeps the winner's `prev` and `sibling`, and touches no node outside the two trees. |
| PairingArena.MeldRoots | PairingPQ.h:259-288 | Melding two disjoint roots gives a root, with null `prev` and `sibling`, that encodes their `Link`. |
| PairingArena.Clear | PairingPQ.h:176-177 | Clearing `sibling` and `prev` creates no dangling link and changes nothing else. |
| PairingArena.ClearRoot | PairingPQ.h:176-177 | Clearing `sibling` and `prev` of a detached subtree's top node makes it a root, and leaves every other node as it was. |
| PairingTree.LinkWinner | PairingPQ.h:266-287 | The winner of a meld is one operand, at least as extreme as both. On equal elements the left operand wins. |
| PairingTree.LinkContents | PairingPQ.h:259-288 | A meld keeps every index and every element of both trees, keeps indices distinct, and keeps heap order. |
| PairingTree.RootIsMax | PairingPQ.h:189 | The root of a heap-ordered tree is one of its elements, and no element of the tree beats it. |
| PairingTree.MergePairsContents | PairingPQ.h:160-171 | Pairing neighbours left to right yields `(n+1)/2` trees that hold the same indices and elements and keep distinct indices and heap order. |
| PairingTree.MeldBackContents | PairingPQ.h:172-179 | Melding a list of trees from the back yields a tree exactly when the list is non-empty, holding the same indices and elements with distinct indices and heap order. |
| PairingTree.PopContents | PairingPQ.h:153-182 | After deleting a root and running both passes over its children, the tree holds the old elements minus the root's, with heap order and distinct indices. |
| PairingTree.CutIds | PairingPQ.h:210-219 | Detaching the subtree at `h` splits a tree list into the rest and that subtree, with disjoint indices and nothing lost. |
| PairingTree.CutHeap | PairingPQ.h:210-219 | Detaching a subtree keeps both the rest and the subtree heap-ordered. |
| PairingPQ.EmptyModels | PairingPQ.h:48-49 | The default constructor's empty queue satisfies the class invariant, with no nodes. |
| PairingPQ.Insert | PairingPQ.h:135-136 | Melding in a new node gives it a fresh index holding `val`, and keeps the other nodes' elements and `_size`. |
| PairingPQ.InsertAt | PairingPQ.h:135-136 | The new node becomes the root exactly when the old root is null or less extreme than `val`. |
| PairingPQ.InsertAtShape | PairingPQ.h:135-136 | Inserting into a well-formed queue keeps the class shape; the tree is the old root tree melded with a one-node tree, holding one more element. |
| PairingPQ.AddNode | PairingPQ.h:242-247 | `addNode(val)` returns a handle to a new node holding `val`, adds one to `_size`, and changes no earlier node's element. |
| PairingPQ.AddNodeModels | PairingPQ.h:242-247 | `addNode(val)` keeps the class invariant and adds `val` to the contents. The handle is a new index of the tree. |
| PairingPQ.Push | PairingPQ.h:134-138 | `push(val)` adds one node and one to `_size`, and leaves no dangling link. |
| PairingPQ.PushModels | PairingPQ.h:134-138 | `push(val)` keeps the class invariant and adds `val` to the contents. |
| PairingPQ.FromRange | PairingPQ.h:57-66 | The range constructor allocates one node per element and counts them in `_size`. |
| PairingPQ.FromRangeModels | PairingPQ.h:57-66 | The range constructor builds a well-formed heap that holds exactly the range's elements. |
| PairingPQ.TopIsMax | PairingPQ.h:189-197 | Under the class invariant, `size()` counts the elements and `empty()` holds exactly when the root is null. `top()` is an element of the queue that no element beats. |
| PairingPQ.PrevRoundTrip | PairingPQ.h:210-216 | In a well-formed queue, only the root lacks a `prev`. Every other node's `prev` holds it as `child` or as `sibling`, which is what `updateElt`'s unlinking assumes. |
| PairingPQ.NonRootHasPrev | PairingPQ.h:210 | Every node of a well-formed queue other than the root has a `prev`. |
| PairingPQ.Unlink | PairingPQ.h:210-219 | Unlinking keeps every node and element and leaves no dangling link. When the node, its `prev` and its `sibling` are distinct, the parent's `child` or the left sibling's `sibling` now holds the node's `sibling`, and that sibling's `prev` holds the node's `prev`. No other node changes. |
| PairingPQ.UpdateUnlinked | PairingPQ.h:210-219 | Unlinking a non-root node leaves the tree without that node's subtree encoded from the root, and the node's own subtree intact below it. |
| PairingPQ.Isolate | PairingPQ.h:225-227 | The node gets the new value and null `prev` and `sibling`, keeps its children, and nothing else changes. |
| PairingPQ.UpdateElt | PairingPQ.h:209-230 | `updateElt` as written keeps every node, `_size` and every other element. A node without `prev` is left untouched; any other node ends up holding the new value. |
| PairingPQ.UpdateEltModels | PairingPQ.h:204-230 | On a non-root node with a value at least as extreme, `updateElt` keeps the class invariant and every handle, and replaces exactly that one element by the new value. |
| PairingPQ.UpdateEltRootIgnored | PairingPQ.h:221-222 | `updateElt` as written on the root changes nothing, so the root keeps its old value and `top()` is not the new one. |
| PairingPQ.UpdateEltFixed | PairingPQ.h:209-230 | The corrected `updateElt` writes the new value for every node, the root included, and changes no other element. |
| PairingPQ.UpdateRootModels | PairingPQ.h:204-230 | Writing a more extreme value into the root in place keeps the heap order. |
| PairingPQ.UpdateEltFixedModels | PairingPQ.h:204-230 | The corrected `updateElt` keeps the class invariant for every node. The contents lose the node's old value and gain the new one. |
| PairingPop.PairPassAsWritten | PairingPQ.h:160-171 | The first pass as written, when it completes, keeps every node and element, creates no dangling link and collects only nodes of the arena. `PopAsWrittenTwoChildren` and `FirstPassThree` state where it goes wrong. |
| PairingPop.PairPass | PairingPQ.h:160-171 | The corrected first pass, when it completes, keeps every node and element, creates no dangling link, and collects at least one node of the arena from a non-null list. `PairPassEnc` proves that it completes and builds the abstract pairs. |
| PairingPop.SecondPass | PairingPQ.h:172-179 | The second pass, when it completes, keeps every node and element and creates no dangling link. Its root is null exactly when there are no pairs, and is a node of the arena otherwise. `SecondPassEnc` proves that it completes and encodes the abstract meld. |
| PairingPop.PopAsWritten | PairingPQ.h:153-182 | `pop()` as written, when it completes, deletes exactly the root's node, keeps every other element, leaves a null root or a node of the arena, and decrements `_size`. The Findings rows show where it does not complete or leaves nodes unreachable. |
| PairingPop.Pop | PairingPQ.h:153-182 | The corrected `pop()`, when it completes, deletes exactly the root's node, keeps every other element, leaves a null root or a node of the arena, and decrements `_size`. `PopModels` proves that it completes and keeps the class invariant. |
| PairingPop.PairPassEnc | PairingPQ.h:160-171 | The first pass, pairing each node with its right neighbour, succeeds on any encoded child list. It leaves the roots of the abstract pairs and touches no other node. |
| PairingPop.SecondPassEnc | PairingPQ.h:172-179 | The second pass, clearing each pair's `sibling` and `prev` and melding from the back, succeeds. It leaves a root that encodes the abstract back-to-front meld. |
| PairingPop.PopChildren | PairingPQ.h:155-159 | Once the root is deleted, its children are still an encoded list over exactly the remaining nodes. |
| PairingPop.PopModels | PairingPQ.h:153-182 | The corrected `pop()` keeps the class invariant and removes exactly the old top element and its node, with `_size` one less. |
| PairingPop.PopAsWrittenFewChildren | PairingPQ.h:160-171 | With at most one child under the root, `pop()` as written does what the corrected one does. |
| PairingPop.PopAsWrittenTwoChildren | PairingPQ.h:162-164 | With exactly two children under the root, `pop()` as written dereferences a null node. |
| PairingPop.FirstPassThree | PairingPQ.h:160-171 | With three children, the first pass as written skips the first two and pushes the third child twice. |
| PairingPop.SecondPassTwice | PairingPQ.h:172-179 | A second pass given the same node twice melds the node into itself, making it its own first child. |
| PairingPop.PopAsWrittenThreeChildren | PairingPQ.h:153-182 | With exactly three children under the root, `pop()` as written leaves the third child as a root that is its own first child. No tree is encoded any more, so the first two children's subtrees are lost. |
| PairingCopy.Visit | PairingPQ.h:77-82 | One worklist step adds one entry for each non-null `child` and `sibling`. |
| PairingCopy.VisitsModels | PairingPQ.h:71-85 | The copy constructor's worklist loop, started on encoded lists, visits every node of those lists exactly once and ends. |
| PairingCopy.StartVisits | PairingPQ.h:71-85 | Started from the root of a queue whose tree is intact, in heap order or not, the loop visits each node exactly once, root first, `_size` nodes in all. |
| PairingCopy.MeldAllModels | PairingPQ.h:83 | Melding a new node for each visited node builds a heap-ordered tree holding their elements. With fresh indices it numbers them consecutively; when it keeps the indices, each index keeps its element. |
| PairingCopy.MeldAll | PairingPQ.h:83 | Melding the copies keeps no dangling link and never removes a node already in the copy or changes its element. When it keeps the indices, each new index holds the element of the original node with that index. |
| PairingCopy.CopyModels | PairingPQ.h:70-87 | From a queue whose tree is intact, in heap order or not, the copy constructor yields a well-formed queue with the same elements, whose nodes are numbered afresh from 0. |
| PairingCopy.CopyRootAtZero | PairingPQ.h:127 | After `updatePriorities()` as written, index 0 addresses the old top element, whatever it addressed before. |
| PairingCopy.Copy | PairingPQ.h:70-87 | The copy constructor, when it completes, yields a queue without dangling links and takes over `other._size`. `CopyModels` proves that it completes and keeps the elements. |
| PairingCopy.UpdatePriorities | PairingPQ.h:127 | `updatePriorities()` as written, when it completes, yields a queue without dangling links and with the same `_size`. |
| PairingCopy.UpdatePrioritiesModels | PairingPQ.h:122-127 | On a queue whose elements may be out of order, `updatePriorities()` as written restores the class invariant with the same elements and `_size`, and numbers the nodes afresh from 0. |
| PairingCopy.UpdatePrioritiesFixed | PairingPQ.h:122-127 | The relinking rebuild keeps `_size` and creates no dangling link. Every index of its result is an index of the original and holds the same element as before. |
| PairingCopy.HandleInvalidated | PairingPQ.h:237-241 | After `addNode(1)` and `addNode(2)`, handle 0 addresses 1. After `updatePriorities()` as written it addresses 2, so handles do not survive the rebuild. |
| PairingCopy.UpdatePrioritiesFixedModels | PairingPQ.h:122-127 | On a queue whose elements may be out of order, rebuilding by relinking the existing nodes restores the class invariant and the elements, and every handle keeps addressing its own element. |

## Left out

- Memory management is not modelled: `new`, `delete` and the destructor (PairingPQ.h:101-120). A node is an index of the arena; deleting the root drops its index.
- `operator=` (PairingPQ.h:92-97) is modelled only as it is reached from `updatePriorities`: the queue becomes the copy.
  - In the source, the old nodes are then deleted, so an old handle dangles.
  - In the model, the copy's arena numbers its nodes from 0, so an old handle addresses whichever copied node got that index, or nothing.
- The comparator is fixed to `std::less` on integers. The class templates accept any type and any strict weak order. `Eecs281PQ.h`, the base class that stores `compare`, is not part of this model.
- `BinaryPQ.FixDown`: the signed/unsigned casts of `data.size() - 1` (BinaryPQ.h:94, 96) are replaced by the equivalent bounds on mathematical integers: `2i+1 < size` and `j < size - 1`.
- Integer widths are unbounded. `int` indices, `size_t` and `_size` cannot overflow in the model.
- `BinaryPQ.Pop` requires a non-empty vector, and `PairingPop.Pop` and `PairingPop.PopAsWritten` require a non-null root. The header states that `pop()` is never called on an empty queue; in the source it would be undefined behaviour.
- `BinaryPQ.Top` requires a non-empty vector and `PairingPQ.Top` a non-null root: `top()` on an empty queue reads `data.front()` or `root->elt`, which is undefined behaviour in the source.
- The `std::deque` of the copy constructor is a sequence. The loop reads only the original's nodes and writes only the copy's, so the model computes the visiting order first (`Visits`) and then melds the copies in that order (`MeldAll`). That gives the same result.
- `Visits`, `PairPass` and `PairPassAsWritten` carry a fuel bound, the number of nodes; on a cyclic node graph the model returns `None`. For `Visits` and `PairPass` the bound is proved sufficient under the class invariant (`VisitsModels`, `PairPassEnc`). For `PairPassAsWritten` it is not: the pass is characterised only for up to three children.
- A dereference of a null or missing node is `None` in `TryMeld`, `PairPassAsWritten`, `SecondPass` and `MeldAll`. `MeldAll` is also `None` when the index it would give the new node is already taken; the program cannot reach that case, because `new Node` always yields a fresh node. The model does not distinguish different kinds of undefined behaviour.
- `PairingPop.PopAsWrittenThreeChildren`: `pop()` as written is characterised only for roots with at most three children, which is enough to exhibit both failures. There is no general statement for four or more children.
- `PairingPQ.UpdateEltModels` requires the new value to be at least as extreme as the old one (PairingPQ.h:204-205) and the node not to be the root; the root case is covered separately.
- `PairingCopy.CopyModels` does not claim that the copy has the original's shape. It only claims the same elements and the class invariant, because the copy melds the nodes one by one in visiting order.
- `PairingPQ.Top`, `PairingPQ.Size` and `BinaryPQ.Size` are plain accessors with no contract of their own, and `PairingPQ.IsEmpty` only relates `empty()` to `size()`. Their meaning under the class invariant is stated by `PairingPQ.TopIsMax`, `BinaryPQ.Top` and `BinaryPQ.Empty`.
- Running-time claims (O(log n), amortised bounds) are not modelled.

## Findings

| source | as written | input that shows it | evidently intended | confidence | as-written member | corrected member |
|---|---|---|---|---|---|---|
| PairingPQ.h:162-164 | The first pass sets `n = n->sibling->sibling` before `meld(n, n->sibling)`, so it jumps past the pair it should meld. | `pop()` on a root with exactly two children: `n` becomes null and `n->sibling` dereferences it. | Meld `n` with `n->sibling`, then continue after the pair. | not executed | PairingPop.PopAsWrittenTwoChildren | PairingPop.PopModels |
| PairingPQ.h:160-179 | With three children, the first pass pushes the third child twice and never melds the first two. The second pass then melds that node into itself. | `pop()` on a root with exactly three children: the new root is its own first child, and the first two subtrees are unreachable. | The two passes combine all the children into one heap-ordered tree. | not executed | PairingPop.PopAsWrittenThreeChildren | PairingPop.PopModels |
| PairingPQ.h:221-222 | `updateElt` returns at once when the node has no `prev`, so the root never receives `new_value`. | `updateElt(root, v)` with `v` more extreme than the root's element: `top()` still returns the old value. | The root's element is replaced in place; the root stays the root, because the new value is more extreme. | not executed | PairingPQ.UpdateEltRootIgnored | PairingPQ.UpdateEltFixedModels |
| PairingPQ.h:127 | `updatePriorities()` is `*this = *this`: it copies every node into a new node and deletes the old ones, so every handle from `addNode` is invalidated. | `addNode(1)` (handle 0), `addNode(2)`, `updatePriorities()`: once `operator=` returns, the destructor of `temp` (PairingPQ.h:92-97, 101-120) deletes the nodes the handles addressed, so handle 0 dangles. In the model, whose copy is numbered from 0, index 0 then addresses 2. The note at PairingPQ.h:237-241 says nodes are never moved or copied. | Rebuild by relinking the existing nodes, so every handle keeps its element. | not executed | PairingCopy.HandleInvalidated | PairingCopy.UpdatePrioritiesFixedModels |
