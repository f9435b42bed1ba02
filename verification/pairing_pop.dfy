/** `pop()` on the pairing heap: delete the root, combine its children pairwise
    left to right (first pass), then meld the pairs into one tree from the last
    pair back to the first (second pass). `PopAsWritten` follows `PairingPQ.h`'s
    first pass; `Pop` is the first pass the algorithm calls for. Both share the
    second pass. Every dereference of a null or deleted node makes the result
    `None`. */
module PairingPop {
  import opened Order
  import opened Wrappers
  import opened PairingTree
  import opened PairingArena
  import opened PairingPQ

  // ---------------------------------------------------------------------------
  // The two passes.

  /** The first pass as written: when `n` has a sibling, `n` jumps two places to
      the right (`n = n->sibling->sibling`) and only then is melded with its own
      sibling, so the node `n` started at and its sibling are skipped, and a
      null `n` is dereferenced. Returns the arena and the `nodes` vector, or
      `None` when a dereference fails or `fuel` runs out. */
  function PairPassAsWritten(m: Arena, n: Option<nat>, fuel: nat): (r: Option<(Arena, seq<nat>)>)
    ensures r.Some? ==> r.value.0.Keys == m.Keys && forall k :: k in m ==> r.value.0[k].elt == m[k].elt
    ensures r.Some? ==> forall i :: 0 <= i < |r.value.1| ==> r.value.1[i] in m
    ensures r.Some? && Closed(m) ==> Closed(r.value.0)
    decreases fuel
  {
    if fuel == 0 then None
    else if n.None? then Some((m, []))
    else if n.value !in m then None
    else match m[n.value].sibling
      case None => Some((m, [n.value]))
      case Some(y) =>
        if y !in m then None
        else
          var n2 := m[y].sibling;
          if n2.None? || n2.value !in m then None
          else match TryMeld(m, n2, m[n2.value].sibling)
            case None => None
            case Some(melded) =>
              match PairPassAsWritten(melded.0, n2, fuel - 1)
              case None => None
              case Some(rest) => Some((rest.0, [melded.1.value] + rest.1))
  }

  /** The first pass: meld `n` with its sibling, continue after the pair, and
      keep a last unpaired node as it is. */
  function PairPass(m: Arena, n: Option<nat>, fuel: nat): (r: Option<(Arena, seq<nat>)>)
    ensures r.Some? ==> r.value.0.Keys == m.Keys && forall k :: k in m ==> r.value.0[k].elt == m[k].elt
    ensures r.Some? ==> forall i :: 0 <= i < |r.value.1| ==> r.value.1[i] in m
    ensures r.Some? && Closed(m) ==> Closed(r.value.0)
    ensures r.Some? && n.Some? ==> r.value.1 != []
    decreases fuel
  {
    if fuel == 0 then None
    else if n.None? then Some((m, []))
    else if n.value !in m then None
    else match m[n.value].sibling
      case None => Some((m, [n.value]))
      case Some(b) =>
        if b !in m then None
        else
          var next := m[b].sibling;
          match TryMeld(m, n, Some(b))
          case None => None
          case Some(melded) =>
            match PairPass(melded.0, next, fuel - 1)
            case None => None
            case Some(rest) => Some((rest.0, [melded.1.value] + rest.1))
  }

  /** The second pass: take the `nodes` vector from the back, clear each node's
      `sibling` and `prev`, and meld it into the accumulated root. */
  function SecondPass(m: Arena, ps: seq<nat>): (r: Option<(Arena, Option<nat>)>)
    ensures r.Some? ==> r.value.0.Keys == m.Keys && forall k :: k in m ==> r.value.0[k].elt == m[k].elt
    ensures r.Some? ==> LinkIn(m, r.value.1) && (r.value.1.Some? <==> ps != [])
    ensures r.Some? && Closed(m) ==> Closed(r.value.0)
    decreases |ps|
  {
    if ps == [] then Some((m, None))
    else match SecondPass(m, ps[1..])
      case None => None
      case Some(acc) =>
        if ps[0] !in acc.0 then None
        else TryMeld(Clear(acc.0, ps[0]), acc.1, Some(ps[0]))
  }

  /** The end of `pop()`: the second pass over the first pass's `nodes`, and
      `_size--`. */
  function Finish(pq: PQ, first: Option<(Arena, seq<nat>)>): (r: Option<PQ>)
    requires pq.size > 0
    ensures r.Some? ==> first.Some? && r.value.nodes.Keys == first.value.0.Keys
    ensures r.Some? ==> forall k :: k in r.value.nodes ==> r.value.nodes[k].elt == first.value.0[k].elt
    ensures r.Some? ==> LinkIn(r.value.nodes, r.value.root) && r.value.size == pq.size - 1 && r.value.next == pq.next
  {
    match first
    case None => None
    case Some(p) =>
      match SecondPass(p.0, p.1)
      case None => None
      case Some(q) => Some(PQ(q.0, q.1, pq.size - 1, pq.next))
  }

  /** `pop()` as written. The root is deleted before its children are visited. */
  function PopAsWritten(pq: PQ): (r: Option<PQ>)
    requires pq.size > 0 && pq.root.Some? && pq.root.value in pq.nodes
    ensures r.Some? ==> r.value.nodes.Keys == pq.nodes.Keys - {pq.root.value}
    ensures r.Some? ==> forall k :: k in r.value.nodes ==> r.value.nodes[k].elt == pq.nodes[k].elt
    ensures r.Some? ==> LinkIn(r.value.nodes, r.value.root) && r.value.size == pq.size - 1 && r.value.next == pq.next
  {
    var top := pq.root.value;
    Finish(pq, PairPassAsWritten(pq.nodes - {top}, pq.nodes[top].child, |pq.nodes|))
  }

  /** `pop()` with the first pass pairing neighbours. */
  function Pop(pq: PQ): (r: Option<PQ>)
    requires pq.size > 0 && pq.root.Some? && pq.root.value in pq.nodes
    ensures r.Some? ==> r.value.nodes.Keys == pq.nodes.Keys - {pq.root.value}
    ensures r.Some? ==> forall k :: k in r.value.nodes ==> r.value.nodes[k].elt == pq.nodes[k].elt
    ensures r.Some? ==> LinkIn(r.value.nodes, r.value.root) && r.value.size == pq.size - 1 && r.value.next == pq.next
  {
    var top := pq.root.value;
    Finish(pq, PairPass(pq.nodes - {top}, pq.nodes[top].child, |pq.nodes|))
  }

  // ---------------------------------------------------------------------------
  // The first pass builds the pairs `MergePairs` describes.

  /** `ps[i]` indexes a detached copy of `trees[i]`, for every `i`. */
  ghost predicate Roots(m: Arena, ps: seq<nat>, trees: seq<Tree>) {
    && |ps| == |trees|
    && forall i :: 0 <= i < |ps| ==> ps[i] == trees[i].id && Detached(m, trees[i])
  }

  /** How the identifiers of a list split around its first pair. */
  lemma PairIds(ts: seq<Tree>)
    requires Unique(ts) && |ts| >= 2
    ensures Unique([ts[0]]) && Unique([ts[1]]) && Unique(ts[2..]) && Ids([ts[0]]) !! Ids([ts[1]])
    ensures Ids(ts[..2]) == Ids([ts[0]]) + Ids([ts[1]])
    ensures Ids(ts) == Ids(ts[..2]) + Ids(ts[2..]) && Ids(ts[..2]) !! Ids(ts[2..])
    ensures Ids([Link(ts[0], ts[1])]) == Ids(ts[..2]) && Unique([Link(ts[0], ts[1])])
  {
    PairSplit(ts);
    PairLink(ts[..2]);
  }

  /** A list of at least two trees is its first pair followed by the rest. */
  lemma PairSplit(ts: seq<Tree>)
    requires Unique(ts) && |ts| >= 2
    ensures ts[..2] == [ts[0], ts[1]]
    ensures Unique(ts[..2]) && Unique(ts[2..])
    ensures Ids(ts) == Ids(ts[..2]) + Ids(ts[2..]) && Ids(ts[..2]) !! Ids(ts[2..])
  {
    assert ts == ts[..2] + ts[2..];
    AppendSets(ts[..2], ts[2..]);
    AppendUnique(ts[..2], ts[2..]);
  }

  /** The two trees of a pair, and their `Link`. */
  lemma PairLink(p: seq<Tree>)
    requires |p| == 2 && Unique(p)
    ensures Unique([p[0]]) && Unique([p[1]]) && Ids([p[0]]) !! Ids([p[1]])
    ensures Ids(p) == Ids([p[0]]) + Ids([p[1]])
    ensures Ids([Link(p[0], p[1])]) == Ids(p) && Unique([Link(p[0], p[1])])
  {
    var a, b := p[0], p[1];
    assert p == [a] + [b];
    AppendSets([a], [b]);
    AppendUnique([a], [b]);
    LinkContents(a, b);
    LinkUnique(a, b);
  }

  /** The first pair of an encoded list: two detached trees, the second the
      first's sibling, followed by the encoded rest. */
  lemma PairNodes(m: Arena, ts: seq<Tree>, n: Option<nat>, pv: Option<nat>)
    requires Enc(m, ts, n, pv) && Unique(ts) && |ts| >= 2
    ensures n == Some(ts[0].id) && ts[0].id in m && m[ts[0].id].sibling == Some(ts[1].id) && ts[1].id in m
    ensures Detached(m, ts[0]) && Detached(m, ts[1])
    ensures Enc(m, ts[2..], m[ts[1].id].sibling, Some(ts[1].id))
    ensures Ids(ts) <= m.Keys
  {
    assert ts[1..][0] == ts[1] && ts[1..][1..] == ts[2..];
    EncShape(m, ts, n, pv);
  }

  /** One step of the first pass: the first two trees of an encoded list are
      melded into their `Link`, and the rest of the list stays encoded. */
  lemma PairStep(m: Arena, ts: seq<Tree>, n: Option<nat>, pv: Option<nat>)
    requires Enc(m, ts, n, pv) && Unique(ts) && |ts| >= 2
    ensures n == Some(ts[0].id) && ts[0].id in m && m[ts[0].id].sibling == Some(ts[1].id) && ts[1].id in m
    ensures CanMeld(m, n, Some(ts[1].id))
    ensures var m1 := Meld(m, n, Some(ts[1].id)).0;
      && m1.Keys == m.Keys
      && Meld(m, n, Some(ts[1].id)).1 == Some(Link(ts[0], ts[1]).id)
      && Detached(m1, Link(ts[0], ts[1]))
      && Enc(m1, ts[2..], m[ts[1].id].sibling, Some(ts[1].id))
      && Agree(m, m1, m.Keys - Ids(ts[..2]))
    ensures Unique([Link(ts[0], ts[1])]) && Unique(ts[2..])
    ensures Ids([Link(ts[0], ts[1])]) == Ids(ts[..2]) && Ids(ts[..2]) !! Ids(ts[2..])
    ensures Ids(ts) == Ids(ts[..2]) + Ids(ts[2..]) && Ids(ts) <= m.Keys
  {
    PairIds(ts);
    PairNodes(m, ts, n, pv);
    var a, b := ts[0], ts[1];
    MeldEnc(m, a, b);
    var m1 := Meld(m, n, Some(b.id)).0;
    var s := m.Keys - Ids([a]) - Ids([b]);
    AgreeSub(m, m1, s, m.Keys - Ids(ts[..2]));
    AgreeSub(m, m1, s, Ids(ts[2..]));
    EncFrame(m, m1, ts[2..], m[b.id].sibling, Some(b.id));
  }

  /** One unfolding of the first pass at a node with a sibling. */
  lemma PairPassUnfold(m: Arena, a: nat, b: nat, fuel: nat)
    requires fuel > 0 && a in m && m[a].sibling == Some(b) && b in m && CanMeld(m, Some(a), Some(b))
    ensures var melded := Meld(m, Some(a), Some(b));
      melded.1.Some? &&
      PairPass(m, Some(a), fuel) ==
        match PairPass(melded.0, m[b].sibling, fuel - 1)
        case None => None
        case Some(rest) => Some((rest.0, [melded.1.value] + rest.1))
  {
  }

  /** The pair built by one step joins the pairs built from the rest. */
  lemma PairPassGlue(m: Arena, m1: Arena, m2: Arena, ts: seq<Tree>, ps: seq<nat>)
    requires |ts| >= 2
    requires m1.Keys == m.Keys && m2.Keys == m1.Keys
    requires Detached(m1, Link(ts[0], ts[1]))
    requires Ids([Link(ts[0], ts[1])]) == Ids(ts[..2]) && Ids(ts[..2]) !! Ids(ts[2..])
    requires Ids(ts) == Ids(ts[..2]) + Ids(ts[2..]) && Ids(ts) <= m.Keys
    requires Agree(m, m1, m.Keys - Ids(ts[..2]))
    requires Agree(m1, m2, m1.Keys - Ids(ts[2..]))
    requires Roots(m2, ps, MergePairs(ts[2..]))
    ensures Roots(m2, [Link(ts[0], ts[1]).id] + ps, MergePairs(ts))
    ensures Agree(m, m2, m.Keys - Ids(ts))
  {
    var l := Link(ts[0], ts[1]);
    AgreeSub(m1, m2, m1.Keys - Ids(ts[2..]), Ids([l]));
    DetachedFrame(m1, m2, l);
    AgreeChain(m, m1, m2, Ids(ts[..2]), Ids(ts[2..]), Ids(ts));
    RootsCons(m2, l, ps, MergePairs(ts[2..]));
    assert MergePairs(ts) == [l] + MergePairs(ts[2..]);
  }

  /** Agreement outside `a`, then outside `r`, is agreement outside both. */
  lemma AgreeChain(m: Arena, m1: Arena, m2: Arena, a: set<nat>, r: set<nat>, t: set<nat>)
    requires m1.Keys == m.Keys && t == a + r
    requires Agree(m, m1, m.Keys - a) && Agree(m1, m2, m1.Keys - r)
    ensures Agree(m, m2, m.Keys - t)
  {
    AgreeSub(m, m1, m.Keys - a, m.Keys - t);
    AgreeSub(m1, m2, m1.Keys - r, m.Keys - t);
    AgreeTrans(m, m1, m2, m.Keys - t);
  }

  /** A detached tree in front of detached trees. */
  lemma RootsCons(m: Arena, l: Tree, ps: seq<nat>, rest: seq<Tree>)
    requires Detached(m, l) && Roots(m, ps, rest)
    ensures Roots(m, [l.id] + ps, [l] + rest)
  {
    var trees, ids := [l] + rest, [l.id] + ps;
    forall i | 0 <= i < |trees|
      ensures ids[i] == trees[i].id && Detached(m, trees[i])
    {
      if i == 0 {
        assert trees[0] == l && ids[0] == l.id;
      } else {
        assert trees[i] == rest[i - 1] && ids[i] == ps[i - 1];
      }
    }
  }

  /** The first pass over `ts` succeeded, left the pairs of `MergePairs(ts)`
      detached and touched nothing outside the list. */
  ghost predicate Paired(m: Arena, ts: seq<Tree>, res: Option<(Arena, seq<nat>)>) {
    && res.Some?
    && res.value.0.Keys == m.Keys
    && Roots(res.value.0, res.value.1, MergePairs(ts))
    && Agree(m, res.value.0, m.Keys - Ids(ts))
  }

  /** What the first pass over an encoded list needs: distinct indices and
      fuel for every pair. */
  ghost predicate PairReady(m: Arena, ts: seq<Tree>, n: Option<nat>, pv: Option<nat>, fuel: nat) {
    Enc(m, ts, n, pv) && Unique(ts) && fuel > |ts|
  }

  /** One step of the first pass: the first two trees are melded in the
      arena `m1`, the pass goes on at `next` with the rest of the list, and
      whatever it does there completes the pass over the whole list. */
  lemma PairStepRest(m: Arena, ts: seq<Tree>, n: Option<nat>, pv: Option<nat>, fuel: nat)
    returns (m1: Arena, next: Option<nat>)
    requires PairReady(m, ts, n, pv, fuel) && |ts| >= 2
    ensures PairReady(m1, ts[2..], next, Some(ts[1].id), fuel - 1)
    ensures Paired(m1, ts[2..], PairPass(m1, next, fuel - 1)) ==> Paired(m, ts, PairPass(m, n, fuel))
  {
    PairStep(m, ts, n, pv);
    PairPassUnfold(m, ts[0].id, ts[1].id, fuel);
    m1, next := Meld(m, n, Some(ts[1].id)).0, m[ts[1].id].sibling;
    if Paired(m1, ts[2..], PairPass(m1, next, fuel - 1)) {
      var r := PairPass(m1, next, fuel - 1).value;
      PairPassGlue(m, m1, r.0, ts, r.1);
    }
  }

  /** With fuel for every pair, the first pass succeeds and leaves the pairs of
      `MergePairs` detached, touching nothing outside the list. */
  lemma {:induction false} PairPassEnc(m: Arena, ts: seq<Tree>, n: Option<nat>, pv: Option<nat>, fuel: nat)
    requires PairReady(m, ts, n, pv, fuel)
    ensures Paired(m, ts, PairPass(m, n, fuel))
    decreases ts
  {
    if |ts| < 2 {
      PairPassShort(m, ts, n, pv, fuel);
    } else {
      var m1, next := PairStepRest(m, ts, n, pv, fuel);
      PairPassEnc(m1, ts[2..], next, Some(ts[1].id), fuel - 1);
    }
  }

  /** The first pass over no tree or one tree. */
  lemma PairPassShort(m: Arena, ts: seq<Tree>, n: Option<nat>, pv: Option<nat>, fuel: nat)
    requires PairReady(m, ts, n, pv, fuel) && |ts| < 2
    ensures Paired(m, ts, PairPass(m, n, fuel))
  {
    if ts != [] {
      var t := ts[0];
      assert ts[1..] == [];
      assert Enc(m, ts[1..], m[t.id].sibling, Some(t.id));
      assert Detached(m, t) && m[t.id].sibling.None?;
      assert MergePairs(ts) == [t];
    }
  }

  // ---------------------------------------------------------------------------
  // The second pass builds the tree `MeldBack` describes.

  /** The second pass over the roots of `trees` succeeded, left the root of
      `MeldBack(trees)` (none for no trees) and touched nothing outside the
      trees. */
  ghost predicate Melded(m: Arena, trees: seq<Tree>, res: Option<(Arena, Option<nat>)>) {
    && res.Some?
    && res.value.0.Keys == m.Keys
    && (MeldBack(trees).None? ==> res.value.1.None?)
    && (MeldBack(trees).Some? ==>
          res.value.1 == Some(MeldBack(trees).value.id) && IsRoot(res.value.0, MeldBack(trees).value))
    && Agree(m, res.value.0, m.Keys - Ids(trees))
  }

  /** One unfolding of the second pass. */
  lemma SecondPassUnfold(m: Arena, ps: seq<nat>)
    requires ps != [] && SecondPass(m, ps[1..]).Some? && ps[0] in SecondPass(m, ps[1..]).value.0
    ensures var acc := SecondPass(m, ps[1..]).value;
      SecondPass(m, ps) == TryMeld(Clear(acc.0, ps[0]), acc.1, Some(ps[0]))
  {
  }

  /** What the tree melded last can rely on: its nodes are untouched by the
      melds of the trees after it. */
  lemma SecondFrame(m: Arena, a: Arena, t: Tree, rest: seq<Tree>)
    requires Detached(m, t) && Unique([t]) && Ids([t]) !! Ids(rest)
    requires a.Keys == m.Keys && Agree(m, a, m.Keys - Ids(rest))
    ensures t.id in a && IsRoot(Clear(a, t.id), t)
    ensures Agree(m, Clear(a, t.id), m.Keys - Ids([t] + rest))
  {
    DetachedKeys(m, t);
    AgreeSub(m, a, m.Keys - Ids(rest), Ids([t]));
    DetachedFrame(m, a, t);
    ClearRoot(a, t);
    AppendSets([t], rest);
    SingleSets(t);
    AgreeSub(m, a, m.Keys - Ids(rest), m.Keys - Ids([t] + rest));
    AgreeSub(a, Clear(a, t.id), a.Keys - {t.id}, m.Keys - Ids([t] + rest));
    AgreeTrans(m, a, Clear(a, t.id), m.Keys - Ids([t] + rest));
  }

  /** The second pass's last tree, melded into nothing. */
  lemma SecondFirst(m: Arena, a: Arena, t: Tree)
    requires Detached(m, t) && Unique([t])
    requires a.Keys == m.Keys && Agree(m, a, m.Keys)
    ensures t.id in a
    ensures Melded(m, [t], TryMeld(Clear(a, t.id), None, Some(t.id)))
  {
    assert [t] == [t] + [] && [t][1..] == [];
    SecondFrame(m, a, t, []);
  }

  /** A tree melded into the accumulated root. */
  lemma SecondLink(m: Arena, a: Arena, t: Tree, rest: seq<Tree>, r: Tree)
    requires Detached(m, t) && Unique([t]) && Unique([r]) && Ids([t]) !! Ids(rest) && Ids([r]) == Ids(rest)
    requires a.Keys == m.Keys && Agree(m, a, m.Keys - Ids(rest)) && IsRoot(a, r)
    ensures t.id in a
    ensures var c := Clear(a, t.id);
      && CanMeld(c, Some(r.id), Some(t.id))
      && Meld(c, Some(r.id), Some(t.id)).0.Keys == m.Keys
      && Meld(c, Some(r.id), Some(t.id)).1 == Some(Link(r, t).id)
      && IsRoot(Meld(c, Some(r.id), Some(t.id)).0, Link(r, t))
      && Agree(m, Meld(c, Some(r.id), Some(t.id)).0, m.Keys - Ids([t] + rest))
  {
    SecondFrame(m, a, t, rest);
    var c := Clear(a, t.id);
    DetachedKeys(a, r);
    SingleSets(t);
    AgreeSub(a, c, a.Keys - {t.id}, Ids([r]));
    RootFrame(a, c, r);
    MeldRoots(c, r, t);
    var c' := Meld(c, Some(r.id), Some(t.id)).0;
    AppendSets([t], rest);
    AgreeSub(c, c', c.Keys - Ids([r]) - Ids([t]), m.Keys - Ids([t] + rest));
    AgreeTrans(m, c, c', m.Keys - Ids([t] + rest));
  }

  /** One step of the second pass, given what it did on the later trees. */
  lemma SecondStep(m: Arena, ps: seq<nat>, trees: seq<Tree>)
    requires Roots(m, ps, trees) && Unique(trees) && ps != []
    requires Melded(m, trees[1..], SecondPass(m, ps[1..]))
    ensures Melded(m, trees, SecondPass(m, ps))
  {
    var t, rest := trees[0], trees[1..];
    var acc := SecondPass(m, ps[1..]).value;
    assert trees == [t] + rest;
    AppendUnique([t], rest);
    MeldBackContents(rest);
    assert MeldBack(trees) == Some(MeldInto(MeldBack(rest), t));
    if MeldBack(rest).None? {
      assert rest == [];
      SecondFirst(m, acc.0, t);
    } else {
      SecondLink(m, acc.0, t, rest, MeldBack(rest).value);
    }
    SecondPassUnfold(m, ps);
  }

  /** The second pass over the roots of detached, disjoint trees melds them
      into the tree `MeldBack` describes. */
  lemma {:induction false} SecondPassEnc(m: Arena, ps: seq<nat>, trees: seq<Tree>)
    requires Roots(m, ps, trees) && Unique(trees)
    ensures Melded(m, trees, SecondPass(m, ps))
    decreases |ps|
  {
    if ps != [] {
      assert trees == [trees[0]] + trees[1..];
      AppendUnique([trees[0]], trees[1..]);
      assert Roots(m, ps[1..], trees[1..]) by {
        forall i | 0 <= i < |ps[1..]|
          ensures ps[1..][i] == trees[1..][i].id && Detached(m, trees[1..][i])
        {
          assert ps[1..][i] == ps[i + 1] && trees[1..][i] == trees[i + 1];
        }
      }
      SecondPassEnc(m, ps[1..], trees[1..]);
      SecondStep(m, ps, trees);
    }
  }

  // ---------------------------------------------------------------------------
  // `pop()` as a whole.

  /** The children of a deleted root: still encoded once the root is gone, and
      fewer than the nodes of the arena. */
  lemma PopChildren(pq: PQ, t: Tree)
    requires Shape(pq, [t])
    ensures pq.root == Some(t.id) && t.id in pq.nodes
    ensures Enc(pq.nodes - {t.id}, t.kids, pq.nodes[t.id].child, Some(t.id))
    ensures Unique(t.kids) && |t.kids| < |pq.nodes|
    ensures (pq.nodes - {t.id}).Keys == Ids(t.kids)
  {
    ShapeWellLinked(pq, [t]);
    Single(t);
    var m0 := pq.nodes - {t.id};
    forall k | k in Ids(t.kids)
      ensures k in pq.nodes && k in m0 && m0[k] == pq.nodes[k]
    {
    }
    EncFrame(pq.nodes, m0, t.kids, pq.nodes[t.id].child, Some(t.id));
    UniqueCount([t]);
    LengthCount(t.kids);
    assert |pq.nodes| == |pq.nodes.Keys| == |Ids([t])|;
  }

  /** The queue the two passes leave. */
  lemma PopResult(pq: PQ, t: Tree, m: Arena, res: Option<(Arena, Option<nat>)>)
    requires Models(pq, [t]) && m.Keys == Ids(t.kids)
    requires Melded(m, MergePairs(t.kids), res)
    ensures Models(PQ(res.value.0, res.value.1, pq.size - 1, pq.next), AsList(MeldBack(MergePairs(t.kids))))
  {
    var ts' := AsList(MeldBack(MergePairs(t.kids)));
    ShapeWellLinked(pq, [t]);
    PopContents(t);
    MergePairsContents(t.kids);
    MeldBackContents(MergePairs(t.kids));
    Single(t);
    if MeldBack(MergePairs(t.kids)).Some? {
      RootIsEnc(res.value.0, MeldBack(MergePairs(t.kids)).value);
    }
    assert |Elems([t])| == |Elems(ts')| + 1;
  }

  /** `_size--` after a second pass that succeeded. */
  lemma FinishUnfold(pq: PQ, first: Option<(Arena, seq<nat>)>)
    requires pq.size > 0 && first.Some? && SecondPass(first.value.0, first.value.1).Some?
    ensures var q := SecondPass(first.value.0, first.value.1).value;
      Finish(pq, first) == Some(PQ(q.0, q.1, pq.size - 1, pq.next))
  {
  }

  /** Both passes over the children of the root tree `t`. */
  lemma PopPasses(pq: PQ, t: Tree)
    requires Models(pq, [t]) && pq.size > 0
    ensures pq.root == Some(t.id) && t.id in pq.nodes
    ensures Pop(pq).Some?
    ensures Models(Pop(pq).value, AsList(MeldBack(MergePairs(t.kids))))
    ensures Pop(pq).value.nodes.Keys == pq.nodes.Keys - {t.id}
    ensures Pop(pq).value.size == pq.size - 1 && Pop(pq).value.next == pq.next
  {
    PopChildren(pq, t);
    var m0 := pq.nodes - {t.id};
    var fuel := |pq.nodes|;
    var first := PairPass(m0, pq.nodes[t.id].child, fuel);
    PairPassEnc(m0, t.kids, pq.nodes[t.id].child, Some(t.id), fuel);
    var p := first.value;
    MergePairsContents(t.kids);
    SecondPassEnc(p.0, p.1, MergePairs(t.kids));
    PopResult(pq, t, p.0, SecondPass(p.0, p.1));
    FinishUnfold(pq, first);
  }

  /** `pop()` on a queue holding the tree `ts[0]`: the root is gone and the
      rest is the tree the two passes describe, holding every other element. */
  lemma PopModels(pq: PQ, ts: seq<Tree>) returns (ts': seq<Tree>)
    requires Models(pq, ts) && pq.size > 0
    ensures ts != [] && pq.root == Some(ts[0].id) && pq.root.value in pq.nodes
    ensures Pop(pq).Some?
    ensures Models(Pop(pq).value, ts')
    ensures ts' == AsList(MeldBack(MergePairs(ts[0].kids)))
    ensures Elems(ts') == Elems(ts) - multiset{pq.nodes[pq.root.value].elt}
    ensures Pop(pq).value.nodes.Keys == pq.nodes.Keys - {pq.root.value}
    ensures Pop(pq).value.size == pq.size - 1 && Pop(pq).value.next == pq.next
  {
    ShapeWellLinked(pq, ts);
    var t := ts[0];
    PopPasses(pq, t);
    PopContents(t);
    ts' := AsList(MeldBack(MergePairs(t.kids)));
  }

  // ---------------------------------------------------------------------------
  // `pop()` as written.

  /** With at most one child under the root, the first pass as written never
      jumps, so `pop()` as written is the corrected one. */
  lemma PopAsWrittenFewChildren(pq: PQ, ts: seq<Tree>)
    requires Models(pq, ts) && pq.size > 0 && ts != [] && |ts[0].kids| <= 1
    ensures pq.root.Some? && pq.root.value in pq.nodes
    ensures PopAsWritten(pq) == Pop(pq)
  {
    var t := ts[0];
    ShapeWellLinked(pq, ts);
    PopChildren(pq, t);
    if t.kids != [] {
      assert t.kids[1..] == [];
    }
  }

  /** With exactly two children under the root, the first pass as written jumps
      past both and dereferences the null link that follows them. */
  lemma PopAsWrittenTwoChildren(pq: PQ, ts: seq<Tree>)
    requires Models(pq, ts) && pq.size > 0 && ts != [] && |ts[0].kids| == 2
    ensures pq.root.Some? && pq.root.value in pq.nodes
    ensures PopAsWritten(pq).None?
  {
    var t := ts[0];
    ShapeWellLinked(pq, ts);
    PopChildren(pq, t);
    FirstPassTwo(pq.nodes - {t.id}, t.kids, pq.nodes[t.id].child, Some(t.id), |pq.nodes|);
  }

  /** The first pass as written over two siblings finds no third to jump to. */
  lemma FirstPassTwo(m: Arena, kids: seq<Tree>, n: Option<nat>, pv: Option<nat>, fuel: nat)
    requires Enc(m, kids, n, pv) && |kids| == 2 && fuel >= 1
    ensures PairPassAsWritten(m, n, fuel).None?
  {
    var c1, c2 := kids[0], kids[1];
    assert kids[1..][0] == c2 && kids[1..][1..] == [];
    assert n == Some(c1.id) && c1.id in m;
    assert Enc(m, kids[1..], m[c1.id].sibling, Some(c1.id));
    assert m[c1.id].sibling == Some(c2.id) && c2.id in m;
    assert Enc(m, [], m[c2.id].sibling, Some(c2.id));
  }

  /** The first pass as written over three siblings: it jumps to the third,
      melds it with nothing, and then pushes it a second time. */
  lemma FirstPassThree(m: Arena, kids: seq<Tree>, n: Option<nat>, pv: Option<nat>, fuel: nat)
    requires Enc(m, kids, n, pv) && |kids| == 3 && fuel >= 2
    ensures kids[2].id in m && LinkIn(m, m[kids[2].id].child)
    ensures PairPassAsWritten(m, n, fuel) == Some((m, [kids[2].id, kids[2].id]))
  {
    var c1, c2, c3 := kids[0], kids[1], kids[2];
    assert kids[1..][0] == c2 && kids[1..][1..][0] == c3 && kids[1..][1..][1..] == [];
    assert n == Some(c1.id) && c1.id in m;
    assert Enc(m, kids[1..], m[c1.id].sibling, Some(c1.id));
    assert m[c1.id].sibling == Some(c2.id) && c2.id in m;
    assert Enc(m, kids[1..][1..], m[c2.id].sibling, Some(c2.id));
    assert m[c2.id].sibling == Some(c3.id) && c3.id in m;
    assert Enc(m, c3.kids, m[c3.id].child, Some(c3.id));
    if c3.kids != [] {
      assert m[c3.id].child == Some(c3.kids[0].id) && c3.kids[0].id in m;
    }
    assert Enc(m, [], m[c3.id].sibling, Some(c3.id));
    assert TryMeld(m, Some(c3.id), None) == Some((m, Some(c3.id)));
    assert m[c3.id].sibling == None;
    var rest := PairPassAsWritten(m, Some(c3.id), fuel - 1);
    assert rest == Some((m, [c3.id]));
    assert PairPassAsWritten(m, n, fuel) == Some((m, [c3.id] + rest.value.1));
    assert [c3.id] + rest.value.1 == [c3.id, c3.id];
  }

  /** Melding a node with itself makes it its own first child. */
  lemma AdoptSelf(m: Arena, x: nat)
    requires x in m && LinkIn(m, m[x].child)
    ensures Adopt(m, x, x)[x].child == Some(x)
  {
  }

  /** The second pass over the same node twice: the node is melded into itself. */
  lemma SecondPassTwice(m: Arena, x: nat)
    requires x in m && LinkIn(m, m[x].child)
    ensures SecondPass(m, [x, x]).Some?
    ensures SecondPass(m, [x, x]).value.1 == Some(x)
    ensures SecondPass(m, [x, x]).value.0[x].child == Some(x)
  {
    assert [x, x][1..] == [x] && [x][1..] == [];
    var c := Clear(m, x);
    assert SecondPass(m, [x]) == Some((c, Some(x)));
    var c2 := Clear(c, x);
    assert c2[x].child == m[x].child && c2.Keys == m.Keys;
    assert CanMeld(c2, Some(x), Some(x));
    AdoptSelf(c2, x);
    assert SecondPass(m, [x, x]) == Some(Meld(c2, Some(x), Some(x)));
  }

  /** No list of trees is encoded from a node that is its own first child. */
  lemma {:induction false} SelfLoopNoEnc(m: Arena, ts: seq<Tree>, x: nat, prev: Option<nat>)
    requires x in m && m[x].child == Some(x)
    ensures !Enc(m, ts, Some(x), prev)
    decreases ts
  {
    if ts != [] && ts[0].id == x {
      SelfLoopNoEnc(m, ts[0].kids, x, Some(x));
    }
  }

  /** With exactly three children under the root, `pop()` as written leaves the
      third child as the new root and as its own first child: the first two
      children's subtrees are unreachable and no tree is encoded any more. */
  lemma PopAsWrittenThreeChildren(pq: PQ, ts: seq<Tree>)
    requires Models(pq, ts) && pq.size > 0 && ts != [] && |ts[0].kids| == 3
    ensures pq.root.Some? && pq.root.value in pq.nodes
    ensures PopAsWritten(pq).Some?
    ensures var r := PopAsWritten(pq).value;
      && r.root == Some(ts[0].kids[2].id)
      && r.nodes[ts[0].kids[2].id].child == Some(ts[0].kids[2].id)
      && r.size == pq.size - 1
    ensures forall ts' :: !Shape(PopAsWritten(pq).value, ts')
  {
    PopThreeResult(pq, ts);
    SelfLoopNoShape(PopAsWritten(pq).value, ts[0].kids[2].id);
  }

  /** The queue `pop()` as written leaves behind with three children. */
  lemma PopThreeResult(pq: PQ, ts: seq<Tree>)
    requires Models(pq, ts) && pq.size > 0 && ts != [] && |ts[0].kids| == 3
    ensures pq.root.Some? && pq.root.value in pq.nodes
    ensures PopAsWritten(pq).Some?
    ensures var r := PopAsWritten(pq).value;
      && r.root == Some(ts[0].kids[2].id)
      && ts[0].kids[2].id in r.nodes
      && r.nodes[ts[0].kids[2].id].child == Some(ts[0].kids[2].id)
      && r.size == pq.size - 1
  {
    var t := ts[0];
    var x := t.kids[2].id;
    ShapeWellLinked(pq, ts);
    PopChildren(pq, t);
    var m0 := pq.nodes - {t.id};
    FirstPassThree(m0, t.kids, pq.nodes[t.id].child, Some(t.id), |pq.nodes|);
    ThreeFinish(pq, m0, x);
  }

  /** The end of `pop()` after a first pass that returned the same node twice. */
  lemma ThreeFinish(pq: PQ, m0: Arena, x: nat)
    requires pq.size > 0 && x in m0 && LinkIn(m0, m0[x].child)
    ensures var r := Finish(pq, Some((m0, [x, x])));
      && r.Some? && r.value.root == Some(x) && x in r.value.nodes
      && r.value.nodes[x].child == Some(x) && r.value.size == pq.size - 1
  {
    SecondPassTwice(m0, x);
    FinishUnfold(pq, Some((m0, [x, x])));
  }

  /** A root that is its own first child roots no encoded tree. */
  lemma SelfLoopNoShape(r: PQ, x: nat)
    requires r.root == Some(x) && x in r.nodes && r.nodes[x].child == Some(x)
    ensures forall ts' :: !Shape(r, ts')
  {
    forall ts' | true
      ensures !Shape(r, ts')
    {
      SelfLoopNoEnc(r.nodes, ts', x, None);
    }
  }
}
