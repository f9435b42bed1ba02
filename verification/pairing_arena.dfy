/** The pairing heap's node graph, held in an arena: a map from stable indices to
    node records whose `child`, `sibling` and `prev` links are optional indices.
    `prev` is the parent when the node is a first child and the left sibling
    otherwise. `Enc` states that a region of the arena encodes a list of abstract
    trees, and `Meld` is the two-way meld every operation is built on. */
module PairingArena {
  import opened Order
  import opened Wrappers
  import opened PairingTree

  datatype Node = Node(elt: int, child: Option<nat>, sibling: Option<nat>, prev: Option<nat>)

  type Arena = map<nat, Node>

  /** A freshly allocated node: the element and three null links. */
  function NewNode(val: int): Node {
    Node(val, None, None, None)
  }

  predicate LinkIn(m: Arena, o: Option<nat>) {
    o.Some? ==> o.value in m
  }

  predicate LinkInSet(o: Option<nat>, s: set<nat>) {
    o.Some? ==> o.value in s
  }

  /** Every link of every node addresses a node of the arena: nothing dangles. */
  ghost predicate Closed(m: Arena) {
    forall k {:trigger m[k]} :: k in m ==> LinkIn(m, m[k].child) && LinkIn(m, m[k].sibling) && LinkIn(m, m[k].prev)
  }

  /** `first` leads to a sibling list encoding `ts`: the first node's `prev` is
      `prev`, each later node's `prev` is its left sibling, each node's `child`
      leads to its children (with `prev` the node itself), and the last node's
      `sibling` is null. */
  ghost predicate Enc(m: Arena, ts: seq<Tree>, first: Option<nat>, prev: Option<nat>)
    decreases ts
  {
    if ts == [] then first == None
    else
      var t := ts[0];
      && first == Some(t.id)
      && t.id in m
      && m[t.id].elt == t.elt
      && m[t.id].prev == prev
      && Enc(m, t.kids, m[t.id].child, Some(t.id))
      && Enc(m, ts[1..], m[t.id].sibling, Some(t.id))
  }

  /** Node `t.id` roots a copy of `t`, whatever its own `prev` and `sibling` say. */
  ghost predicate Detached(m: Arena, t: Tree) {
    && t.id in m
    && m[t.id].elt == t.elt
    && Enc(m, t.kids, m[t.id].child, Some(t.id))
  }

  /** Node `t.id` roots a copy of `t` and has no `prev` and no `sibling`. */
  ghost predicate IsRoot(m: Arena, t: Tree) {
    Detached(m, t) && m[t.id].prev == None && m[t.id].sibling == None
  }

  /** Two arenas agree on every index in `s`. */
  ghost predicate Agree(m: Arena, m': Arena, s: set<nat>) {
    forall k {:trigger k in s} :: k in s ==> k in m && k in m' && m'[k] == m[k]
  }

  lemma AgreeSub(m: Arena, m': Arena, s: set<nat>, s': set<nat>)
    requires Agree(m, m', s) && s' <= s
    ensures Agree(m, m', s')
  {
    forall k | k in s'
      ensures k in m && k in m' && m'[k] == m[k]
    {
      assert k in s;
    }
  }

  lemma AgreeTrans(m: Arena, m1: Arena, m2: Arena, s: set<nat>)
    requires Agree(m, m1, s) && Agree(m1, m2, s)
    ensures Agree(m, m2, s)
  {
    forall k | k in s
      ensures k in m && k in m2 && m2[k] == m[k]
    {
      assert k in s;
    }
  }

  lemma RootIsEnc(m: Arena, t: Tree)
    ensures IsRoot(m, t) <==> Enc(m, [t], Some(t.id), None)
  {
    assert [t][1..] == [];
  }

  /** An encoding only depends on the nodes it uses. */
  lemma {:induction false} EncFrame(m: Arena, m': Arena, ts: seq<Tree>, first: Option<nat>, prev: Option<nat>)
    requires Enc(m, ts, first, prev)
    requires Agree(m, m', Ids(ts))
    ensures Enc(m', ts, first, prev)
    decreases ts
  {
    if ts != [] {
      assert ts == [ts[0]] + ts[1..];
      Cons(ts[0], ts[1..]);
      EncFrame(m, m', ts[0].kids, m[ts[0].id].child, Some(ts[0].id));
      EncFrame(m, m', ts[1..], m[ts[0].id].sibling, Some(ts[0].id));
    }
  }

  /** Redirecting the first node's `prev` re-encodes the list with the new `prev`. */
  lemma RePrev(m: Arena, m': Arena, ts: seq<Tree>, first: Option<nat>, prev: Option<nat>, prev': Option<nat>)
    requires Enc(m, ts, first, prev) && Unique(ts) && ts != []
    requires ts[0].id in m' && m'[ts[0].id] == m[ts[0].id].(prev := prev')
    requires Agree(m, m', Ids(ts) - {ts[0].id})
    ensures Enc(m', ts, first, prev')
  {
    var t := ts[0];
    assert ts == [t] + ts[1..];
    Cons(t, ts[1..]);
    AgreeSub(m, m', Ids(ts) - {t.id}, Ids(t.kids));
    AgreeSub(m, m', Ids(ts) - {t.id}, Ids(ts[1..]));
    EncFrame(m, m', t.kids, m[t.id].child, Some(t.id));
    EncFrame(m, m', ts[1..], m[t.id].sibling, Some(t.id));
  }

  /** Where the links of an encoded list can point. */
  lemma {:induction false} EncShape(m: Arena, ts: seq<Tree>, first: Option<nat>, prev: Option<nat>)
    requires Enc(m, ts, first, prev) && Unique(ts)
    ensures Ids(ts) <= m.Keys
    ensures LinkInSet(first, Ids(ts))
    ensures forall k :: k in Ids(ts) ==>
      && LinkInSet(m[k].child, Ids(ts))
      && LinkInSet(m[k].sibling, Ids(ts))
      && (if k == ts[0].id then m[k].prev == prev else m[k].prev.Some? && m[k].prev.value in Ids(ts))
    decreases ts
  {
    if ts != [] {
      var t := ts[0];
      assert ts == [t] + ts[1..];
      Cons(t, ts[1..]);
      var kids, rest := t.kids, ts[1..];
      EncShape(m, kids, m[t.id].child, Some(t.id));
      EncShape(m, rest, m[t.id].sibling, Some(t.id));
      forall k | k in Ids(ts)
        ensures LinkInSet(m[k].child, Ids(ts)) && LinkInSet(m[k].sibling, Ids(ts))
        ensures if k == t.id then m[k].prev == prev else m[k].prev.Some? && m[k].prev.value in Ids(ts)
      {
        if k in Ids(kids) {
          assert k != t.id;
          assert LinkInSet(m[k].child, Ids(kids)) && LinkInSet(m[k].sibling, Ids(kids));
        } else if k in Ids(rest) {
          assert k != t.id;
          assert LinkInSet(m[k].child, Ids(rest)) && LinkInSet(m[k].sibling, Ids(rest));
        }
      }
    }
  }

  // ---------------------------------------------------------------------------
  // Meld.

  /** Allocation: a fresh node with three null links at the unused index `n`. */
  function Alloc(m: Arena, n: nat, val: int): (m': Arena)
    requires n !in m
    ensures m'.Keys == m.Keys + {n} && m'[n] == NewNode(val)
    ensures forall j :: j in m ==> m'[j] == m[j]
    ensures Closed(m) ==> Closed(m')
  {
    m[n := NewNode(val)]
  }

  /** One field write: node `k` becomes `n`. The arena stays closed when the
      new record's links stay inside it. */
  function SetNode(m: Arena, k: nat, n: Node): (m': Arena)
    requires k in m
    ensures m'.Keys == m.Keys && m'[k] == n
    ensures forall j :: j in m && j != k ==> m'[j] == m[j]
    ensures Closed(m) && LinkIn(m, n.child) && LinkIn(m, n.sibling) && LinkIn(m, n.prev) ==> Closed(m')
  {
    m[k := n]
  }

  /** The link surgery of a meld, in the order `PairingPQ.h` writes them: the winner's
      `child` becomes the loser, the loser's `sibling` becomes the winner's old
      first child, that old child's `prev` becomes the loser, and the loser's
      `prev` becomes the winner. */
  function Adopt(m: Arena, w: nat, l: nat): (m': Arena)
    requires w in m && l in m && LinkIn(m, m[w].child)
    ensures m'.Keys == m.Keys
    ensures forall k :: k in m ==> m'[k].elt == m[k].elt
    ensures Closed(m) ==> Closed(m')
  {
    var kid := m[w].child;
    var m1 := SetNode(m, w, m[w].(child := Some(l)));
    var m2 := SetNode(m1, l, m1[l].(sibling := kid));
    var m3 := if kid.Some? then SetNode(m2, kid.value, m2[kid.value].(prev := Some(l))) else m2;
    SetNode(m3, l, m3[l].(prev := Some(w)))
  }

  /** What `meld` dereferences: both roots, and the winner's first child. */
  predicate CanMeld(m: Arena, a: Option<nat>, b: Option<nat>) {
    a.Some? && b.Some? ==>
      && a.value in m && b.value in m
      && if Compare(m[a.value].elt, m[b.value].elt) then LinkIn(m, m[b.value].child)
         else LinkIn(m, m[a.value].child)
  }

  /** `meld(lhs, rhs)`: a null operand yields the other one; otherwise the right
      operand wins exactly when `compare(lhs, rhs)`, and the loser is adopted by
      the winner as its first child. Elements never move between nodes. */
  function Meld(m: Arena, a: Option<nat>, b: Option<nat>): (r: (Arena, Option<nat>))
    requires CanMeld(m, a, b)
    ensures a.None? ==> r == (m, b)
    ensures a.Some? && b.None? ==> r == (m, a)
    ensures a.Some? && b.Some? ==> r.1 == (if Compare(m[a.value].elt, m[b.value].elt) then b else a)
    ensures a.Some? && b.Some? && !Compare(m[a.value].elt, m[b.value].elt) ==> r.0 == Adopt(m, a.value, b.value)
    ensures a.Some? && b.Some? && Compare(m[a.value].elt, m[b.value].elt) ==> r.0 == Adopt(m, b.value, a.value)
    ensures r.0.Keys == m.Keys
    ensures forall k :: k in m ==> r.0[k].elt == m[k].elt
    ensures Closed(m) ==> Closed(r.0)
  {
    if a.None? then (m, b)
    else if b.None? then (m, a)
    else if Compare(m[a.value].elt, m[b.value].elt) then (Adopt(m, b.value, a.value), b)
    else (Adopt(m, a.value, b.value), a)
  }

  /** Adoption turns two disjoint detached trees into the tree with the loser as
      the winner's first child, touching no node outside them. */
  /** When the winner, the loser and the winner's old first child are three
      distinct nodes, `Adopt` rewrites exactly those three. */
  lemma AdoptLinks(m: Arena, w: nat, l: nat)
    requires w in m && l in m && LinkIn(m, m[w].child)
    requires w != l && m[w].child != Some(l) && m[w].child != Some(w)
    ensures Adopt(m, w, l)[w] == m[w].(child := Some(l))
    ensures Adopt(m, w, l)[l] == m[l].(sibling := m[w].child, prev := Some(w))
    ensures m[w].child.Some? ==> Adopt(m, w, l)[m[w].child.value] == m[m[w].child.value].(prev := Some(l))
    ensures forall k :: k in m && k != w && k != l && Some(k) != m[w].child ==> Adopt(m, w, l)[k] == m[k]
  {
  }

  lemma AdoptEnc(m: Arena, wt: Tree, lt: Tree)
    requires Detached(m, wt) && Detached(m, lt)
    requires Unique([wt]) && Unique([lt]) && Ids([wt]) !! Ids([lt])
    ensures LinkIn(m, m[wt.id].child)
    ensures Detached(Adopt(m, wt.id, lt.id), Tree(wt.id, wt.elt, [lt] + wt.kids))
    ensures Adopt(m, wt.id, lt.id)[wt.id].prev == m[wt.id].prev
    ensures Adopt(m, wt.id, lt.id)[wt.id].sibling == m[wt.id].sibling
    ensures Agree(m, Adopt(m, wt.id, lt.id), m.Keys - Ids([wt]) - Ids([lt]))
  {
    var w, l, kid := wt.id, lt.id, m[wt.id].child;
    Single(wt);
    Single(lt);
    EncShape(m, wt.kids, kid, Some(w));
    EncShape(m, lt.kids, m[l].child, Some(l));
    var m' := Adopt(m, w, l);
    AdoptLinks(m, w, l);
    assert m'[w] == m[w].(child := Some(l));
    assert m'[l] == m[l].(sibling := kid, prev := Some(w));
    EncFrame(m, m', lt.kids, m[l].child, Some(l));
    if wt.kids == [] {
      assert Enc(m', wt.kids, kid, Some(l));
    } else {
      RePrev(m, m', wt.kids, kid, Some(w), Some(l));
    }
    var ks := [lt] + wt.kids;
    assert ks[0] == lt && ks[1..] == wt.kids;
    assert Enc(m', ks, Some(l), Some(w));
  }

  /** Meld of two disjoint detached trees encodes the abstract `Link` of them. */
  lemma MeldEnc(m: Arena, ta: Tree, tb: Tree)
    requires Detached(m, ta) && Detached(m, tb)
    requires Unique([ta]) && Unique([tb]) && Ids([ta]) !! Ids([tb])
    ensures CanMeld(m, Some(ta.id), Some(tb.id))
    ensures Meld(m, Some(ta.id), Some(tb.id)).1 == Some(Link(ta, tb).id)
    ensures Detached(Meld(m, Some(ta.id), Some(tb.id)).0, Link(ta, tb))
    ensures Meld(m, Some(ta.id), Some(tb.id)).0[Link(ta, tb).id].prev == m[Link(ta, tb).id].prev
    ensures Meld(m, Some(ta.id), Some(tb.id)).0[Link(ta, tb).id].sibling == m[Link(ta, tb).id].sibling
    ensures Agree(m, Meld(m, Some(ta.id), Some(tb.id)).0, m.Keys - Ids([ta]) - Ids([tb]))
  {
    if Compare(ta.elt, tb.elt) {
      AdoptEnc(m, tb, ta);
    } else {
      AdoptEnc(m, ta, tb);
    }
  }

  /** Meld of two disjoint roots is a root encoding their `Link`. */
  lemma MeldRoots(m: Arena, ta: Tree, tb: Tree)
    requires IsRoot(m, ta) && IsRoot(m, tb)
    requires Unique([ta]) && Unique([tb]) && Ids([ta]) !! Ids([tb])
    ensures CanMeld(m, Some(ta.id), Some(tb.id))
    ensures Meld(m, Some(ta.id), Some(tb.id)).1 == Some(Link(ta, tb).id)
    ensures IsRoot(Meld(m, Some(ta.id), Some(tb.id)).0, Link(ta, tb))
    ensures Enc(Meld(m, Some(ta.id), Some(tb.id)).0, [Link(ta, tb)], Some(Link(ta, tb).id), None)
    ensures Agree(m, Meld(m, Some(ta.id), Some(tb.id)).0, m.Keys - Ids([ta]) - Ids([tb]))
  {
    MeldEnc(m, ta, tb);
    RootIsEnc(Meld(m, Some(ta.id), Some(tb.id)).0, Link(ta, tb));
  }

  /** `meld` where any dereference of a missing node is a crash (`None`): a
      null operand is returned without dereferencing anything. */
  function TryMeld(m: Arena, a: Option<nat>, b: Option<nat>): (r: Option<(Arena, Option<nat>)>)
    ensures r.Some? <==> CanMeld(m, a, b)
    ensures r.Some? ==> r.value == Meld(m, a, b)
    ensures r.Some? && (a.Some? || b.Some?) ==> r.value.1.Some?
    ensures Closed(m) && LinkIn(m, a) && LinkIn(m, b) ==> r.Some? && Closed(r.value.0)
    ensures r.Some? ==> r.value.0.Keys == m.Keys && forall k :: k in m ==> r.value.0[k].elt == m[k].elt
  {
    if CanMeld(m, a, b) then Some(Meld(m, a, b)) else None
  }

  /** Clearing a node's `sibling` and `prev` only drops links, so an arena
      without dangling links keeps none. */
  function Clear(m: Arena, s: nat): (m': Arena)
    requires s in m
    ensures m'.Keys == m.Keys && m'[s] == m[s].(sibling := None, prev := None)
    ensures forall j :: j in m && j != s ==> m'[j] == m[j]
    ensures Closed(m) ==> Closed(m')
  {
    SetNode(m, s, m[s].(sibling := None, prev := None))
  }

  /** A detached tree stays detached while its own nodes are untouched. */
  lemma DetachedFrame(m: Arena, m': Arena, t: Tree)
    requires Detached(m, t) && Agree(m, m', Ids([t]))
    ensures Detached(m', t)
  {
    SingleSets(t);
    EncFrame(m, m', t.kids, m[t.id].child, Some(t.id));
  }

  /** A detached tree lies inside the arena. */
  lemma DetachedKeys(m: Arena, t: Tree)
    requires Detached(m, t) && Unique([t])
    ensures Ids([t]) <= m.Keys
  {
    Single(t);
    EncShape(m, t.kids, m[t.id].child, Some(t.id));
  }

  /** A root stays a root while its own nodes are untouched. */
  lemma RootFrame(m: Arena, m': Arena, t: Tree)
    requires IsRoot(m, t) && Agree(m, m', Ids([t]))
    ensures IsRoot(m', t)
  {
    SingleSets(t);
    DetachedFrame(m, m', t);
  }

  /** Clearing the `sibling` and `prev` of a detached tree's root makes it a root. */
  lemma ClearRoot(m: Arena, t: Tree)
    requires Detached(m, t) && Unique([t])
    ensures IsRoot(Clear(m, t.id), t)
    ensures Agree(m, Clear(m, t.id), m.Keys - {t.id})
  {
    Single(t);
    var c := Clear(m, t.id);
    DetachedKeys(m, t);
    AgreeSub(m, c, m.Keys - {t.id}, Ids(t.kids));
    EncFrame(m, c, t.kids, m[t.id].child, Some(t.id));
  }
}
