/** The pairing heap's public state and the operations that do not restructure
    the tree wholesale: the constructors, `push`, `addNode`, `top`, `size`,
    `empty` and `updateElt`. Handles are arena indices; `addNode` gives a fresh
    node the index `next`, which no live node holds. The copy constructor
    renumbers from 0, so a handle is meaningful only for the queue that
    issued it and only until the next `updatePriorities`. */
module PairingPQ {
  import opened Order
  import opened Wrappers
  import opened PairingTree
  import opened PairingArena

  /** `root` is the entry point, `size` the separately kept `_size` counter and
      `next` the index the next allocated node receives. */
  datatype PQ = PQ(nodes: Arena, root: Option<nat>, size: nat, next: nat)

  /** The default constructor: no nodes, a null root, size 0. */
  function EmptyPQ(): PQ {
    PQ(map[], None, 0, 0)
  }

  /** What `meld` and allocation rely on: no dangling link, the root (if any)
      is a node, and `next` is above every allocated index. */
  ghost predicate WellLinked(pq: PQ) {
    && Closed(pq.nodes)
    && LinkIn(pq.nodes, pq.root)
    && forall k :: k in pq.nodes ==> k < pq.next
  }

  /** The arena holds exactly the heap-ordered tree `ts` (empty or one tree)
      reachable from `root`. */
  ghost predicate Shape(pq: PQ, ts: seq<Tree>) {
    && |ts| <= 1
    && Enc(pq.nodes, ts, pq.root, None)
    && Unique(ts)
    && HeapOrdered(ts)
    && pq.nodes.Keys == Ids(ts)
    && forall k :: k in pq.nodes ==> k < pq.next
  }

  /** The class invariant: `Shape`, and `_size` counts the reachable nodes. */
  ghost predicate Models(pq: PQ, ts: seq<Tree>) {
    Shape(pq, ts) && pq.size == |Elems(ts)|
  }

  /** The class invariant without the heap order: the arena still encodes the
      tree `ts` from `root` and `_size` counts its nodes, but the elements may
      be out of order, as `updatePriorities` allows. */
  ghost predicate Linked(pq: PQ, ts: seq<Tree>) {
    && |ts| <= 1
    && Enc(pq.nodes, ts, pq.root, None)
    && Unique(ts)
    && pq.nodes.Keys == Ids(ts)
    && (forall k :: k in pq.nodes ==> k < pq.next)
    && pq.size == |Elems(ts)|
  }

  lemma ModelsLinked(pq: PQ, ts: seq<Tree>)
    requires Models(pq, ts)
    ensures Linked(pq, ts)
  {
  }

  /** The root tree of a list of at most one tree. */
  function RootTree(ts: seq<Tree>): Option<Tree> {
    if ts == [] then None else Some(ts[0])
  }

  lemma ShapeWellLinked(pq: PQ, ts: seq<Tree>)
    requires Shape(pq, ts)
    ensures WellLinked(pq)
    ensures pq.root.Some? <==> ts != []
    ensures ts != [] ==> pq.root == Some(ts[0].id) && IsRoot(pq.nodes, ts[0])
    ensures ts != [] ==> ts == [ts[0]] && Unique([ts[0]]) && HeapOrdered([ts[0]])
    ensures ts == [] ==> pq.nodes == map[]
  {
    EncShape(pq.nodes, ts, pq.root, None);
    if ts != [] {
      assert ts == [ts[0]];
      RootIsEnc(pq.nodes, ts[0]);
    }
  }

  lemma LinkedWellLinked(pq: PQ, ts: seq<Tree>)
    requires Linked(pq, ts)
    ensures WellLinked(pq)
    ensures pq.root.Some? <==> ts != []
    ensures ts != [] ==> pq.root == Some(ts[0].id) && IsRoot(pq.nodes, ts[0])
    ensures ts != [] ==> ts == [ts[0]] && Unique([ts[0]])
    ensures ts == [] ==> pq.nodes == map[]
  {
    EncShape(pq.nodes, ts, pq.root, None);
    if ts != [] {
      assert ts == [ts[0]];
      RootIsEnc(pq.nodes, ts[0]);
    }
  }

  lemma EmptyModels()
    ensures Models(EmptyPQ(), [])
  {
  }

  // ---------------------------------------------------------------------------
  // Allocation and insertion.

  /** `root = meld(root, n)` for a new one-node tree `n` holding `val` at the
      free index `k`; `next` stays above every index. `_size` is left to the
      caller. */
  function InsertAt(pq: PQ, k: nat, val: int): (r: PQ)
    requires WellLinked(pq) && k !in pq.nodes
    ensures r.nodes.Keys == pq.nodes.Keys + {k}
    ensures r.nodes[k].elt == val
    ensures forall j :: j in pq.nodes ==> r.nodes[j].elt == pq.nodes[j].elt
    ensures r.size == pq.size && r.next == (if k < pq.next then pq.next else k + 1)
    ensures WellLinked(r)
    ensures r.root == (if pq.root.None? || Compare(pq.nodes[pq.root.value].elt, val) then Some(k) else pq.root)
  {
    var melded := Meld(Alloc(pq.nodes, k, val), pq.root, Some(k));
    PQ(melded.0, melded.1, pq.size, if k < pq.next then pq.next else k + 1)
  }

  /** `root = meld(root, new Node(val))`, the step shared by the range
      constructor, the copy constructor, `push` and `addNode`: the new node
      gets the index `next`, which is returned. */
  function Insert(pq: PQ, val: int): (r: (PQ, nat))
    requires WellLinked(pq)
    ensures r.1 == pq.next && r.1 !in pq.nodes
    ensures r.0.nodes.Keys == pq.nodes.Keys + {r.1}
    ensures r.0.nodes[r.1].elt == val
    ensures forall k :: k in pq.nodes ==> r.0.nodes[k].elt == pq.nodes[k].elt
    ensures r.0.size == pq.size && r.0.next == pq.next + 1
    ensures WellLinked(r.0)
  {
    (InsertAt(pq, pq.next, val), pq.next)
  }

  /** The arena `InsertAt` melds in: the old nodes plus the new one. */
  lemma InsertAtUnfold(pq: PQ, k: nat, val: int)
    requires WellLinked(pq) && k !in pq.nodes
    ensures var melded := Meld(Alloc(pq.nodes, k, val), pq.root, Some(k));
      InsertAt(pq, k, val) == PQ(melded.0, melded.1, pq.size, if k < pq.next then pq.next else k + 1)
  {
  }

  /** Inserting into a non-empty queue melds the new leaf with the root tree. */
  lemma InsertLinked(pq: PQ, t: Tree, k: nat, val: int)
    requires Shape(pq, [t]) && k !in pq.nodes
    ensures pq.root == Some(t.id)
    ensures var m, leaf := Alloc(pq.nodes, k, val), Tree(k, val, []);
      && CanMeld(m, Some(t.id), Some(k))
      && Enc(Meld(m, Some(t.id), Some(k)).0, [Link(t, leaf)], Meld(m, Some(t.id), Some(k)).1, None)
    ensures Unique([t]) && Unique([Tree(k, val, [])]) && Ids([t]) !! Ids([Tree(k, val, [])])
  {
    ShapeWellLinked(pq, [t]);
    var leaf := Tree(k, val, []);
    var m := Alloc(pq.nodes, k, val);
    Single(leaf);
    Single(t);
    assert IsRoot(m, leaf);
    assert IsRoot(m, t) by {
      EncFrame(pq.nodes, m, t.kids, pq.nodes[t.id].child, Some(t.id));
    }
    MeldRoots(m, t, leaf);
  }

  /** Insertion melds a one-node tree into the root tree. */
  lemma InsertAtShape(pq: PQ, ts: seq<Tree>, k: nat, val: int) returns (ts': seq<Tree>)
    requires Shape(pq, ts) && k !in pq.nodes
    ensures WellLinked(pq)
    ensures Shape(InsertAt(pq, k, val), ts')
    ensures ts' == [MeldInto(RootTree(ts), Tree(k, val, []))]
    ensures Elems(ts') == Elems(ts) + multiset{val}
  {
    ShapeWellLinked(pq, ts);
    InsertAtUnfold(pq, k, val);
    var leaf := Tree(k, val, []);
    Single(leaf);
    if ts == [] {
      ts' := [leaf];
      var q := InsertAt(pq, k, val);
      assert IsRoot(q.nodes, leaf);
      RootIsEnc(q.nodes, leaf);
    } else {
      var t := ts[0];
      ts' := [Link(t, leaf)];
      InsertLinked(pq, t, k, val);
      LinkContents(t, leaf);
      LinkUnique(t, leaf);
    }
  }

  /** `addNode(val)`: insert and count the new node; the handle returned is the
      new node's index. */
  function AddNode(pq: PQ, val: int): (r: (PQ, nat))
    requires WellLinked(pq)
    ensures r.1 !in pq.nodes && r.1 in r.0.nodes && r.0.nodes[r.1].elt == val
    ensures r.0.nodes.Keys == pq.nodes.Keys + {r.1}
    ensures forall k :: k in pq.nodes ==> r.0.nodes[k].elt == pq.nodes[k].elt
    ensures r.0.size == pq.size + 1
    ensures WellLinked(r.0)
  {
    var (q, h) := Insert(pq, val);
    (q.(size := q.size + 1), h)
  }

  /** `push(val)`: the same as `addNode` without handing out the handle. */
  function Push(pq: PQ, val: int): (r: PQ)
    requires WellLinked(pq)
    ensures r.size == pq.size + 1
    ensures |r.nodes| == |pq.nodes| + 1
    ensures WellLinked(r)
  {
    var r := AddNode(pq, val).0;
    assert r.nodes.Keys == pq.nodes.Keys + {pq.next};
    r
  }

  /** `addNode` keeps the invariant, adds `val` to the contents and hands out a
      handle that addresses `val`; every earlier handle still addresses its element. */
  lemma AddNodeModels(pq: PQ, ts: seq<Tree>, val: int) returns (ts': seq<Tree>)
    requires Models(pq, ts)
    ensures WellLinked(pq)
    ensures Models(AddNode(pq, val).0, ts')
    ensures Elems(ts') == Elems(ts) + multiset{val}
    ensures AddNode(pq, val).1 in Ids(ts') && AddNode(pq, val).1 !in Ids(ts)
  {
    ts' := InsertAtShape(pq, ts, pq.next, val);
  }

  lemma PushModels(pq: PQ, ts: seq<Tree>, val: int) returns (ts': seq<Tree>)
    requires Models(pq, ts)
    ensures WellLinked(pq)
    ensures Models(Push(pq, val), ts')
    ensures Elems(ts') == Elems(ts) + multiset{val}
  {
    ts' := AddNodeModels(pq, ts, val);
  }

  /** The range constructor: meld a new node for each element, left to right. */
  function FromRange(range: seq<int>): (r: PQ)
    ensures WellLinked(r)
    ensures r.size == |range| && |r.nodes| == |range|
    decreases |range|
  {
    if range == [] then EmptyPQ()
    else Push(FromRange(range[..|range| - 1]), range[|range| - 1])
  }

  lemma LastSplit(s: seq<int>)
    requires s != []
    ensures multiset(s) == multiset(s[..|s| - 1]) + multiset{s[|s| - 1]}
  {
    assert s == s[..|s| - 1] + [s[|s| - 1]];
  }

  /** The range constructor holds exactly the range's elements, heap-ordered. */
  lemma {:induction false} FromRangeModels(range: seq<int>) returns (ts: seq<Tree>)
    ensures Models(FromRange(range), ts)
    ensures Elems(ts) == multiset(range)
    decreases |range|
  {
    if range == [] {
      ts := [];
    } else {
      var init := range[..|range| - 1];
      var ts0 := FromRangeModels(init);
      var last := range[|range| - 1];
      assert FromRange(range) == Push(FromRange(init), last);
      ts := PushModels(FromRange(init), ts0, last);
      LastSplit(range);
    }
  }

  // ---------------------------------------------------------------------------
  // Queries.

  /** `top()`: the root's element; the queue must not be empty. */
  function Top(pq: PQ): int
    requires pq.root.Some? && pq.root.value in pq.nodes
  {
    pq.nodes[pq.root.value].elt
  }

  /** `size()`: the `_size` counter. */
  function Size(pq: PQ): nat {
    pq.size
  }

  /** `empty()`: `_size == 0`. */
  function IsEmpty(pq: PQ): (e: bool)
    ensures e <==> Size(pq) == 0
  {
    pq.size == 0
  }

  /** Under the invariant `top()` is an element of the queue that no other element
      beats, and `empty()` holds exactly when no node is reachable. */
  lemma TopIsMax(pq: PQ, ts: seq<Tree>)
    requires Models(pq, ts)
    ensures IsEmpty(pq) <==> pq.root.None?
    ensures Size(pq) == |Elems(ts)|
    ensures pq.root.Some? ==> pq.root.value in pq.nodes
    ensures pq.root.Some? ==> Top(pq) in Elems(ts)
    ensures pq.root.Some? ==> forall e :: e in Elems(ts) ==> !Compare(Top(pq), e)
  {
    ShapeWellLinked(pq, ts);
    if ts != [] {
      RootIsMax(ts[0]);
      Single(ts[0]);
    }
  }

  // ---------------------------------------------------------------------------
  // Decrease-key.

  /** The unlinking half of `updateElt` on a node that has a `prev`: the link that
      pointed at the node (the parent's `child` when the node is a first child,
      the left sibling's `sibling` otherwise) is redirected to the node's
      `sibling`, and that sibling's `prev` is patched to the node's `prev`. */
  function Unlink(m: Arena, h: nat): (m': Arena)
    requires h in m && Closed(m) && m[h].prev.Some?
    ensures m'.Keys == m.Keys && Closed(m')
    ensures forall k :: k in m ==> m'[k].elt == m[k].elt
    ensures Unlinkable(m, h) ==>
      var p, s := m[h].prev.value, m[h].sibling;
      && m'[p] == (if m[p].child == Some(h) then m[p].(child := s) else m[p].(sibling := s))
      && (s.Some? ==> m'[s.value] == m[s.value].(prev := Some(p)))
      && m'[h] == m[h]
      && forall k :: k in m && k != p && Some(k) != s ==> m'[k] == m[k]
  {
    var p := m[h].prev.value;
    var m1 := if m[p].child == Some(h) then SetNode(m, p, m[p].(child := m[h].sibling))
              else SetNode(m, p, m[p].(sibling := m[h].sibling));
    match m1[h].sibling
    case None => m1
    case Some(s) => SetNode(m1, s, m1[s].(prev := m1[h].prev))
  }

  /** Node `h` has a parent or left sibling, and neither it nor its right sibling
      coincides with `h` or with each other, so `Unlink` touches two nodes. */
  ghost predicate Unlinkable(m: Arena, h: nat) {
    && h in m && m[h].prev.Some? && m[h].prev.value in m
    && m[h].prev.value != h
    && m[h].sibling != Some(h)
    && m[h].sibling != m[h].prev
  }

  /** `Unlink` leaves alone every node other than `h`'s `prev` and `sibling`. */
  lemma UnlinkFrame(m: Arena, h: nat, s: set<nat>)
    requires Closed(m) && Unlinkable(m, h) && s <= m.Keys
    requires m[h].prev.value !in s && (m[h].sibling.Some? ==> m[h].sibling.value !in s)
    ensures Agree(m, Unlink(m, h), s)
  {
  }

  /** Unlinking the first node of an encoded list leaves the rest of the list,
      now hanging off the node's old `prev`. */
  lemma UnlinkFirst(m: Arena, t: Tree, rest: seq<Tree>, prev: Option<nat>)
    requires Enc(m, [t] + rest, Some(t.id), prev) && Unique([t] + rest) && Closed(m)
    requires prev.Some? && prev.value !in Ids([t] + rest) && prev.value in m
    ensures Unlinkable(m, t.id)
    ensures Enc(Unlink(m, t.id), rest, m[t.id].sibling, prev)
    ensures Agree(m, Unlink(m, t.id), Ids([t]))
  {
    var s := m[t.id].sibling;
    assert Enc(m, rest, s, Some(t.id)) && Enc(m, t.kids, m[t.id].child, Some(t.id)) && m[t.id].prev == prev by {
      assert ([t] + rest)[0] == t && ([t] + rest)[1..] == rest;
    }
    assert && Ids(rest) !! Ids([t]) && Ids(rest) <= m.Keys && Ids([t]) <= m.Keys
              && LinkInSet(s, Ids(rest)) && prev.value !in Ids(rest) && prev.value !in Ids([t])
              && t.id in Ids([t]) && Unique(rest) by {
      Cons(t, rest);
      Single(t);
      EncShape(m, rest, s, Some(t.id));
      EncShape(m, t.kids, m[t.id].child, Some(t.id));
    }
    assert Unlinkable(m, t.id);
    var m' := Unlink(m, t.id);
    UnlinkFrame(m, t.id, Ids([t]));
    if s.Some? {
      UnlinkFrame(m, t.id, Ids(rest) - {s.value});
      RePrev(m, m', rest, s, Some(t.id), prev);
    }
  }

  /** The step of `UnlinkEnc` when `h` lies among the first tree's descendants. */
  lemma UnlinkInKids(m: Arena, t: Tree, rest: seq<Tree>, first: Option<nat>, prev: Option<nat>, h: nat)
    requires Enc(m, [t] + rest, first, prev) && Unique([t] + rest) && Closed(m)
    requires h in Ids(t.kids) && Unlinkable(m, h)
    requires Enc(Unlink(m, h), Cut(t.kids, h), if t.kids[0].id == h then m[h].sibling else m[t.id].child, Some(t.id))
    ensures Enc(Unlink(m, h), [Tree(t.id, t.elt, Cut(t.kids, h))] + rest, first, prev)
  {
    var ts := [t] + rest;
    assert ts[0] == t && ts[1..] == rest;
    Cons(t, rest);
    EncShape(m, t.kids, m[t.id].child, Some(t.id));
    EncShape(m, rest, m[t.id].sibling, Some(t.id));
    var m' := Unlink(m, h);
    var p := m[h].prev.value;
    assert p == t.id || p in Ids(t.kids);
    UnlinkFrame(m, h, Ids(rest));
    EncFrame(m, m', rest, m[t.id].sibling, Some(t.id));
    assert m'[t.id] == m[t.id].(child := if t.kids[0].id == h then m[h].sibling else m[t.id].child) by {
      if t.kids[0].id == h {
        assert p == t.id && m[p].child == Some(h);
      } else {
        assert p != t.id;
        UnlinkFrame(m, h, {t.id});
      }
    }
    var t' := Tree(t.id, t.elt, Cut(t.kids, h));
    assert ([t'] + rest)[0] == t' && ([t'] + rest)[1..] == rest;
  }

  /** The step of `UnlinkEnc` when `h` lies in a later tree of the list. */
  lemma UnlinkInRest(m: Arena, t: Tree, rest: seq<Tree>, first: Option<nat>, prev: Option<nat>, h: nat)
    requires Enc(m, [t] + rest, first, prev) && Unique([t] + rest) && Closed(m)
    requires h in Ids(rest) && Unlinkable(m, h)
    requires Enc(Unlink(m, h), Cut(rest, h), if rest[0].id == h then m[h].sibling else m[t.id].sibling, Some(t.id))
    ensures Enc(Unlink(m, h), [t] + Cut(rest, h), first, prev)
  {
    var ts := [t] + rest;
    assert ts[0] == t && ts[1..] == rest;
    Cons(t, rest);
    EncShape(m, t.kids, m[t.id].child, Some(t.id));
    EncShape(m, rest, m[t.id].sibling, Some(t.id));
    var m' := Unlink(m, h);
    var p := m[h].prev.value;
    assert p == t.id || p in Ids(rest);
    UnlinkFrame(m, h, Ids(t.kids));
    EncFrame(m, m', t.kids, m[t.id].child, Some(t.id));
    assert m'[t.id] == m[t.id].(sibling := if rest[0].id == h then m[h].sibling else m[t.id].sibling) by {
      if rest[0].id == h {
        assert p == t.id && m[p].sibling == Some(h);
        assert m[p].child != Some(h);
      } else {
        assert p != t.id;
        UnlinkFrame(m, h, {t.id});
      }
    }
    assert ([t] + Cut(rest, h))[0] == t && ([t] + Cut(rest, h))[1..] == Cut(rest, h);
  }

  /** Unlinking node `h` from an encoded list re-encodes the list without `h`'s
      subtree and leaves that subtree's nodes untouched. */
  lemma {:induction false} UnlinkEnc(m: Arena, ts: seq<Tree>, first: Option<nat>, prev: Option<nat>, h: nat)
    requires Enc(m, ts, first, prev) && Unique(ts) && h in Ids(ts) && Closed(m)
    requires prev.Some? ==> prev.value !in Ids(ts) && prev.value in m
    requires h == ts[0].id ==> prev.Some?
    ensures Unlinkable(m, h)
    ensures Enc(Unlink(m, h), Cut(ts, h), if ts[0].id == h then m[h].sibling else first, prev)
    ensures Agree(m, Unlink(m, h), Ids([Find(ts, h)]))
    decreases ts
  {
    var t, rest := ts[0], ts[1..];
    assert ts == [t] + rest;
    Cons(t, rest);
    if t.id == h {
      assert Cut(ts, h) == rest && Find(ts, h) == t;
      UnlinkFirst(m, t, rest, prev);
    } else if h in Ids(t.kids) {
      UnlinkEnc(m, t.kids, m[t.id].child, Some(t.id), h);
      CutAbsent(rest, h);
      assert Cut(ts, h) == [Tree(t.id, t.elt, Cut(t.kids, h))] + rest;
      assert Find(ts, h) == Find(t.kids, h);
      UnlinkInKids(m, t, rest, first, prev, h);
    } else {
      UnlinkEnc(m, rest, m[t.id].sibling, Some(t.id), h);
      CutAbsent(t.kids, h);
      assert Cut(ts, h) == [t] + Cut(rest, h);
      assert Find(ts, h) == Find(rest, h);
      UnlinkInRest(m, t, rest, first, prev, h);
    }
  }

  /** Every subtree of an encoded list is encoded below its own root node. */
  lemma {:induction false} FindDetached(m: Arena, ts: seq<Tree>, first: Option<nat>, prev: Option<nat>, h: nat)
    requires Enc(m, ts, first, prev) && h in Ids(ts)
    ensures Detached(m, Find(ts, h))
    decreases ts
  {
    var t, rest := ts[0], ts[1..];
    assert ts == [t] + rest;
    Cons(t, rest);
    if t.id == h {
    } else if h in Ids(t.kids) {
      FindDetached(m, t.kids, m[t.id].child, Some(t.id), h);
    } else {
      FindDetached(m, rest, m[t.id].sibling, Some(t.id), h);
    }
  }

  /** The middle of `updateElt`: the node loses its `prev` and `sibling` and
      receives the new value; its children stay. */
  function Isolate(m: Arena, h: nat, val: int): (m': Arena)
    requires h in m && Closed(m)
    ensures m'.Keys == m.Keys && Closed(m')
    ensures m'[h] == Node(val, m[h].child, None, None)
    ensures forall k :: k in m && k != h ==> m'[k] == m[k]
  {
    SetNode(m, h, m[h].(prev := None, sibling := None, elt := val))
  }

  /** `updateElt(node, new_value)`. A node without `prev` is left alone and the
      call returns at once; any other node is unlinked from its parent or left
      sibling, cleared of `prev` and `sibling`, given `new_value`, and melded
      with the root. */
  function UpdateElt(pq: PQ, h: nat, val: int): (r: PQ)
    requires WellLinked(pq) && h in pq.nodes
    ensures WellLinked(r)
    ensures r.nodes.Keys == pq.nodes.Keys && r.size == pq.size && r.next == pq.next
    ensures pq.nodes[h].prev.None? ==> r == pq
    ensures pq.nodes[h].prev.Some? ==> r.nodes[h].elt == val
    ensures forall k :: k in pq.nodes && k != h ==> r.nodes[k].elt == pq.nodes[k].elt
  {
    if pq.nodes[h].prev.None? then pq
    else
      var melded := Meld(Isolate(Unlink(pq.nodes, h), h, val), pq.root, Some(h));
      PQ(melded.0, melded.1, pq.size, pq.next)
  }

  /** Unlinking a non-root node `h` of the tree `t` leaves `t` without `h`'s
      subtree encoded from the root, and `h`'s subtree intact below `h`. */
  lemma UpdateUnlinked(pq: PQ, t: Tree, h: nat)
    requires Models(pq, [t]) && Closed(pq.nodes) && h in Ids(t.kids)
    ensures Unlinkable(pq.nodes, h)
    ensures Find(t.kids, h).id == h
    ensures SplitsInto(t.kids, Cut(t.kids, h), Find(t.kids, h))
    ensures Enc(Unlink(pq.nodes, h), [Tree(t.id, t.elt, Cut(t.kids, h))], Some(t.id), None)
    ensures Detached(Unlink(pq.nodes, h), Find(t.kids, h))
  {
    assert Enc(pq.nodes, [t], Some(t.id), None);
    UnlinkRootKid(pq.nodes, t, h);
  }

  /** `UpdateUnlinked` for the arena alone. */
  lemma UnlinkRootKid(m: Arena, t: Tree, h: nat)
    requires Enc(m, [t], Some(t.id), None) && Unique([t]) && Closed(m) && h in Ids(t.kids)
    ensures Unlinkable(m, h)
    ensures Find(t.kids, h).id == h
    ensures SplitsInto(t.kids, Cut(t.kids, h), Find(t.kids, h))
    ensures Enc(Unlink(m, h), [Tree(t.id, t.elt, Cut(t.kids, h))], Some(t.id), None)
    ensures Detached(Unlink(m, h), Find(t.kids, h))
  {
    Single(t);
    assert [t] + [] == [t];
    EncShape(m, [t], Some(t.id), None);
    UnlinkEnc(m, t.kids, m[t.id].child, Some(t.id), h);
    UnlinkInKids(m, t, [], Some(t.id), None, h);
    var t' := Tree(t.id, t.elt, Cut(t.kids, h));
    assert [t'] + [] == [t'];
    CutIds(t.kids, h);
    FoundDetached(m, Unlink(m, h), t.kids, m[t.id].child, Some(t.id), h);
  }

  /** A subtree found in an encoded list stays a detached copy in any arena
      that agrees with the original on the subtree's nodes. */
  lemma FoundDetached(m: Arena, m': Arena, ts: seq<Tree>, first: Option<nat>, prev: Option<nat>, h: nat)
    requires Enc(m, ts, first, prev) && Unique(ts) && h in Ids(ts)
    requires Agree(m, m', Ids([Find(ts, h)]))
    ensures Detached(m', Find(ts, h))
  {
    var f := Find(ts, h);
    CutIds(ts, h);
    FindDetached(m, ts, first, prev, h);
    Single(f);
    EncFrame(m, m', f.kids, m[h].child, Some(h));
  }

  /** Clearing `h`'s links and writing the new value leaves two separate roots:
      the cut tree and `h`'s subtree under its new value. */
  lemma UpdateIsolated(m: Arena, t: Tree, f: Tree, val: int)
    requires Closed(m) && Enc(m, [t], Some(t.id), None) && Detached(m, f)
    requires Unique([t]) && Unique([f]) && Ids([t]) !! Ids([f])
    ensures IsRoot(Isolate(m, f.id, val), t)
    ensures IsRoot(Isolate(m, f.id, val), Tree(f.id, val, f.kids))
  {
    var m3 := Isolate(m, f.id, val);
    Single(t);
    Single(f);
    EncShape(m, [t], Some(t.id), None);
    EncFrame(m, m3, [t], Some(t.id), None);
    RootIsEnc(m3, t);
    EncShape(m, f.kids, m[f.id].child, Some(f.id));
    EncFrame(m, m3, f.kids, m[f.id].child, Some(f.id));
  }

  /** After the unlinking and the write, `updateElt` holds two separate roots
      that share out the old tree's indices. */
  lemma UpdateSplit(pq: PQ, t: Tree, h: nat, val: int)
    requires Models(pq, [t]) && Closed(pq.nodes) && h in Ids(t.kids)
    ensures Unlinkable(pq.nodes, h)
    ensures Find(t.kids, h).id == h && Find(t.kids, h).elt == pq.nodes[h].elt
    ensures SplitsInto(t.kids, Cut(t.kids, h), Find(t.kids, h))
    ensures var t', f := Tree(t.id, t.elt, Cut(t.kids, h)), Find(t.kids, h);
      var f', m3 := Tree(h, val, f.kids), Isolate(Unlink(pq.nodes, h), h, val);
      && IsRoot(m3, t') && IsRoot(m3, f')
      && Unique([t']) && Unique([f']) && Ids([t']) !! Ids([f'])
  {
    var m := pq.nodes;
    Single(t);
    UpdateUnlinked(pq, t, h);
    var f := Find(t.kids, h);
    var t' := Tree(t.id, t.elt, Cut(t.kids, h));
    CutUnique(t.kids, h);
    Single(t');
    Single(f);
    Single(Tree(h, val, f.kids));
    UpdateIsolated(Unlink(m, h), t', f, val);
    FindDetached(m, t.kids, m[t.id].child, Some(t.id), h);
  }

  lemma UpdateEltUnfold(pq: PQ, h: nat, val: int)
    requires WellLinked(pq) && h in pq.nodes && pq.nodes[h].prev.Some?
    ensures var melded := Meld(Isolate(Unlink(pq.nodes, h), h, val), pq.root, Some(h));
      UpdateElt(pq, h, val) == PQ(melded.0, melded.1, pq.size, pq.next)
  {
  }

  /** Lists with the same unique indices hold equally many elements. */
  lemma SameCount(a: seq<Tree>, b: seq<Tree>)
    requires Unique(a) && Unique(b) && Ids(a) == Ids(b)
    ensures |Elems(a)| == |Elems(b)|
  {
    UniqueCount(a);
    UniqueCount(b);
  }

  /** The two roots are heap-ordered. */
  lemma UpdateSplitHeap(t: Tree, h: nat, val: int)
    requires HeapOrdered([t]) && h in Ids(t.kids)
    requires !Compare(val, Find(t.kids, h).elt)
    ensures HeapOrdered([Tree(t.id, t.elt, Cut(t.kids, h))])
    ensures HeapOrdered([Tree(h, val, Find(t.kids, h).kids)])
  {
    var f := Find(t.kids, h);
    Single(t);
    Single(Tree(t.id, t.elt, Cut(t.kids, h)));
    Single(f);
    Single(Tree(h, val, f.kids));
    CutHeap(t.kids, h);
    CutDominated(t.kids, h, t.elt);
    DominatedWeaken(f.kids, f.elt, val);
  }

  /** Between them the two roots hold the old tree's indices. */
  lemma UpdateSplitIds(t: Tree, h: nat, val: int)
    requires h in Ids(t.kids) && Find(t.kids, h).id == h
    requires SplitsInto(t.kids, Cut(t.kids, h), Find(t.kids, h))
    ensures Ids([Tree(t.id, t.elt, Cut(t.kids, h))]) + Ids([Tree(h, val, Find(t.kids, h).kids)]) == Ids([t])
  {
    var f := Find(t.kids, h);
    SingleSets(t);
    SingleSets(Tree(t.id, t.elt, Cut(t.kids, h)));
    SingleSets(f);
    SingleSets(Tree(h, val, f.kids));
  }

  /** Replacing one occurrence `e` by `v` in a multiset split three ways. */
  lemma ReplaceOne(a: int, x: multiset<int>, e: int, v: int, k: multiset<int>)
    ensures (multiset{a} + x) + (multiset{v} + k) == (multiset{a} + (x + (multiset{e} + k))) - multiset{e} + multiset{v}
  {
  }

  /** Between them the two roots hold the old tree's elements with the node's
      value replaced. */
  lemma UpdateSplitElems(t: Tree, h: nat, val: int)
    requires h in Ids(t.kids)
    requires SplitsInto(t.kids, Cut(t.kids, h), Find(t.kids, h))
    ensures Elems([Tree(t.id, t.elt, Cut(t.kids, h))]) + Elems([Tree(h, val, Find(t.kids, h).kids)])
         == Elems([t]) - multiset{Find(t.kids, h).elt} + multiset{val}
  {
    var f := Find(t.kids, h);
    SingleSets(t);
    SingleSets(Tree(t.id, t.elt, Cut(t.kids, h)));
    SingleSets(f);
    SingleSets(Tree(h, val, f.kids));
    ReplaceOne(t.elt, Elems(Cut(t.kids, h)), f.elt, val, Elems(f.kids));
  }

  /** Melding the two roots rebuilds one tree over the old indices. */
  lemma UpdateMelded(pq: PQ, t: Tree, h: nat, val: int)
    requires Models(pq, [t]) && Closed(pq.nodes) && h in Ids(t.kids)
    ensures Unlinkable(pq.nodes, h)
    ensures Find(t.kids, h).id == h && Find(t.kids, h).elt == pq.nodes[h].elt
    ensures SplitsInto(t.kids, Cut(t.kids, h), Find(t.kids, h))
    ensures var t', f := Tree(t.id, t.elt, Cut(t.kids, h)), Find(t.kids, h);
      var f', m3 := Tree(h, val, f.kids), Isolate(Unlink(pq.nodes, h), h, val);
      && CanMeld(m3, Some(t.id), Some(h))
      && Enc(Meld(m3, Some(t.id), Some(h)).0, [Link(t', f')], Meld(m3, Some(t.id), Some(h)).1, None)
      && Unique([Link(t', f')])
  {
    UpdateSplit(pq, t, h, val);
    var f := Find(t.kids, h);
    var t' := Tree(t.id, t.elt, Cut(t.kids, h));
    var f' := Tree(h, val, f.kids);
    var m3 := Isolate(Unlink(pq.nodes, h), h, val);
    MeldRoots(m3, t', f');
    LinkUnique(t', f');
  }

  /** `updateElt` on a node other than the root, with a value at least as
      extreme as the old one, keeps the invariant, keeps every handle, and
      replaces the node's old value by the new one. */
  lemma UpdateEltModels(pq: PQ, ts: seq<Tree>, h: nat, val: int) returns (ts': seq<Tree>)
    requires Models(pq, ts) && h in pq.nodes && pq.root != Some(h)
    requires !Compare(val, pq.nodes[h].elt)
    ensures WellLinked(pq)
    ensures Models(UpdateElt(pq, h, val), ts')
    ensures Ids(ts') == Ids(ts)
    ensures Elems(ts') == Elems(ts) - multiset{pq.nodes[h].elt} + multiset{val}
    ensures UpdateElt(pq, h, val).nodes[h].elt == val
  {
    ShapeWellLinked(pq, ts);
    var t := ts[0];
    assert h in Ids(t.kids) by {
      Single(t);
    }
    UpdateMelded(pq, t, h, val);
    var f := Find(t.kids, h);
    var t' := Tree(t.id, t.elt, Cut(t.kids, h));
    var f' := Tree(h, val, f.kids);
    ts' := [Link(t', f')];
    UpdateSplitHeap(t, h, val);
    UpdateSplitIds(t, h, val);
    UpdateSplitElems(t, h, val);
    LinkContents(t', f');
    UpdateEltUnfold(pq, h, val);
    SameCount(ts', ts);
  }

  // ---------------------------------------------------------------------------
  // `updateElt` on the root.

  /** `updateElt` as written returns at once when the node is the root, so a
      new value for the root is dropped: the root keeps its old value and the
      queue still holds it. */
  lemma UpdateEltRootIgnored(pq: PQ, ts: seq<Tree>, val: int)
    requires Models(pq, ts) && pq.root.Some? && val != Top(pq)
    ensures WellLinked(pq) && pq.root.value in pq.nodes
    ensures UpdateElt(pq, pq.root.value, val) == pq
    ensures Top(UpdateElt(pq, pq.root.value, val)) != val
    ensures Models(UpdateElt(pq, pq.root.value, val), ts)
  {
    ShapeWellLinked(pq, ts);
  }

  /** `updateElt` with the root case written out: a root has no parent to be
      unlinked from, so its value is replaced in place. */
  function UpdateEltFixed(pq: PQ, h: nat, val: int): (r: PQ)
    requires WellLinked(pq) && h in pq.nodes
    ensures WellLinked(r)
    ensures r.nodes.Keys == pq.nodes.Keys && r.size == pq.size && r.next == pq.next
    ensures r.nodes[h].elt == val
    ensures forall k :: k in pq.nodes && k != h ==> r.nodes[k].elt == pq.nodes[k].elt
  {
    if pq.nodes[h].prev.None? then
      PQ(SetNode(pq.nodes, h, pq.nodes[h].(elt := val)), pq.root, pq.size, pq.next)
    else UpdateElt(pq, h, val)
  }

  /** Replacing the root's value by a more extreme one keeps the heap order. */
  lemma UpdateRootModels(pq: PQ, t: Tree, val: int)
    requires Models(pq, [t]) && !Compare(val, t.elt)
    ensures WellLinked(pq) && pq.root == Some(t.id) && t.id in pq.nodes && pq.nodes[t.id].prev.None?
    ensures Models(UpdateEltFixed(pq, t.id, val), [Tree(t.id, val, t.kids)])
  {
    ShapeWellLinked(pq, [t]);
    Single(t);
    var t' := Tree(t.id, val, t.kids);
    Single(t');
    var m := pq.nodes;
    var m' := UpdateEltFixed(pq, t.id, val).nodes;
    forall k | k in Ids(t.kids)
      ensures k in m && k in m' && m'[k] == m[k]
    {
    }
    EncFrame(m, m', t.kids, m[t.id].child, Some(t.id));
    RootIsEnc(m', t');
    DominatedWeaken(t.kids, t.elt, val);
    UniqueCount([t]);
    UniqueCount([t']);
  }

  /** The corrected `updateElt` keeps the class invariant for every node,
      the root included, and replaces exactly the node's value. */
  lemma UpdateEltFixedModels(pq: PQ, ts: seq<Tree>, h: nat, val: int) returns (ts': seq<Tree>)
    requires Models(pq, ts) && h in pq.nodes
    requires !Compare(val, pq.nodes[h].elt)
    ensures WellLinked(pq)
    ensures Models(UpdateEltFixed(pq, h, val), ts')
    ensures Ids(ts') == Ids(ts)
    ensures Elems(ts') == Elems(ts) - multiset{pq.nodes[h].elt} + multiset{val}
  {
    ShapeWellLinked(pq, ts);
    if pq.root == Some(h) {
      var t := ts[0];
      UpdateRootModels(pq, t, val);
      ts' := [Tree(t.id, val, t.kids)];
      Single(t);
      Single(ts'[0]);
    } else {
      ts' := UpdateEltModels(pq, ts, h, val);
      assert pq.nodes[h].prev.Some? by {
        NonRootHasPrev(pq, ts, h);
      }
    }
  }

  /** Only the root of a well-formed queue has no `prev`. */
  lemma NonRootHasPrev(pq: PQ, ts: seq<Tree>, h: nat)
    requires Models(pq, ts) && h in pq.nodes && pq.root != Some(h)
    ensures pq.nodes[h].prev.Some?
  {
    ShapeWellLinked(pq, ts);
    var t := ts[0];
    Single(t);
    assert h in Ids(t.kids);
    PrevInKids(pq.nodes, t.kids, pq.nodes[t.id].child, Some(t.id), h);
  }

  /** Every node encoded below some node has a `prev`. */
  lemma {:induction false} PrevInKids(m: Arena, ts: seq<Tree>, first: Option<nat>, prev: Option<nat>, h: nat)
    requires Enc(m, ts, first, prev) && prev.Some? && h in Ids(ts)
    ensures h in m && m[h].prev.Some?
    decreases ts
  {
    var t := ts[0];
    if h != t.id {
      if h in Ids(t.kids) {
        PrevInKids(m, t.kids, m[t.id].child, Some(t.id), h);
      } else {
        PrevInKids(m, ts[1..], m[t.id].sibling, Some(t.id), h);
      }
    }
  }
  /** The `prev` round trip: in a well-formed queue every node with a `prev` is
      that node's first child or its right sibling, and the root has no `prev`. */
  lemma PrevRoundTrip(pq: PQ, ts: seq<Tree>, h: nat)
    requires Models(pq, ts) && h in pq.nodes
    ensures pq.root == Some(h) <==> pq.nodes[h].prev.None?
    ensures pq.nodes[h].prev.Some? ==>
      var p := pq.nodes[h].prev.value;
      p in pq.nodes && (pq.nodes[p].child == Some(h) || pq.nodes[p].sibling == Some(h))
  {
    ShapeWellLinked(pq, ts);
    if pq.root != Some(h) {
      NonRootHasPrev(pq, ts, h);
    }
    EncPrev(pq.nodes, ts, pq.root, None, h);
  }

  /** Inside an encoded list, each node but the first is pointed at by its `prev`. */
  lemma {:induction false} EncPrev(m: Arena, ts: seq<Tree>, first: Option<nat>, prev: Option<nat>, h: nat)
    requires Enc(m, ts, first, prev) && h in Ids(ts)
    ensures h in m
    ensures h == ts[0].id ==> m[h].prev == prev
    ensures h != ts[0].id ==>
      && m[h].prev.Some? && m[h].prev.value in m
      && (m[m[h].prev.value].child == Some(h) || m[m[h].prev.value].sibling == Some(h))
    decreases ts
  {
    var t := ts[0];
    if h != t.id {
      if h in Ids(t.kids) {
        EncPrev(m, t.kids, m[t.id].child, Some(t.id), h);
      } else {
        EncPrev(m, ts[1..], m[t.id].sibling, Some(t.id), h);
      }
    }
  }
}
