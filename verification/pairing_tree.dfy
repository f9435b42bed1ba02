/** The abstract view of a pairing heap: a rose tree whose nodes carry the arena
    index they live at (`id`) and their element. A sibling list is a `seq<Tree>`;
    a single tree is the one-element list `[t]`. Every pairing-heap operation on
    the arena is related to one of the tree operations below. */
module PairingTree {
  import opened Order
  import opened Wrappers

  datatype Tree = Tree(id: nat, elt: int, kids: seq<Tree>)

  /** The arena indices used by a list of trees. */
  function Ids(ts: seq<Tree>): set<nat>
    decreases ts
  {
    if ts == [] then {} else {ts[0].id} + Ids(ts[0].kids) + Ids(ts[1..])
  }

  /** The elements stored in a list of trees. */
  function Elems(ts: seq<Tree>): multiset<int>
    decreases ts
  {
    if ts == [] then multiset{} else multiset{ts[0].elt} + Elems(ts[0].kids) + Elems(ts[1..])
  }

  /** No arena index is used twice. */
  ghost predicate Unique(ts: seq<Tree>)
    decreases ts
  {
    ts == [] ||
    (&& ts[0].id !in Ids(ts[0].kids)
     && ts[0].id !in Ids(ts[1..])
     && Ids(ts[0].kids) !! Ids(ts[1..])
     && Unique(ts[0].kids)
     && Unique(ts[1..]))
  }

  /** No tree in the list has a root more extreme than `x`. */
  ghost predicate Dominated(ts: seq<Tree>, x: int)
    decreases ts
  {
    ts == [] || (!Compare(x, ts[0].elt) && Dominated(ts[1..], x))
  }

  /** Every tree in the list is heap-ordered: no child is more extreme than its parent. */
  ghost predicate HeapOrdered(ts: seq<Tree>)
    decreases ts
  {
    ts == [] ||
    (&& Dominated(ts[0].kids, ts[0].elt)
     && HeapOrdered(ts[0].kids)
     && HeapOrdered(ts[1..]))
  }

  /** Two-way meld of trees: the more extreme root wins (ties go to the left
      operand) and the loser becomes the winner's first child. */
  function Link(a: Tree, b: Tree): Tree {
    if Compare(a.elt, b.elt) then Tree(b.id, b.elt, [a] + b.kids)
    else Tree(a.id, a.elt, [b] + a.kids)
  }

  lemma {:induction false} UniqueCount(ts: seq<Tree>)
    requires Unique(ts)
    ensures |Ids(ts)| == |Elems(ts)|
    decreases ts
  {
    if ts != [] {
      UniqueCount(ts[0].kids);
      UniqueCount(ts[1..]);
    }
  }

  /** A list holds at least as many elements as it has trees. */
  lemma {:induction false} LengthCount(ts: seq<Tree>)
    ensures |ts| <= |Elems(ts)|
    decreases ts
  {
    if ts != [] {
      LengthCount(ts[1..]);
    }
  }

  lemma {:induction false} DominatedWeaken(ts: seq<Tree>, x: int, y: int)
    requires Dominated(ts, x) && !Compare(y, x)
    ensures Dominated(ts, y)
    decreases ts
  {
    if ts != [] {
      NotCompareTransitive(y, x, ts[0].elt);
      DominatedWeaken(ts[1..], x, y);
    }
  }

  /** In a heap-ordered list dominated by `x`, every element is dominated by `x`. */
  lemma {:induction false} DominatedAll(ts: seq<Tree>, x: int)
    requires HeapOrdered(ts) && Dominated(ts, x)
    ensures forall e :: e in Elems(ts) ==> !Compare(x, e)
    decreases ts
  {
    if ts != [] {
      DominatedWeaken(ts[0].kids, ts[0].elt, x);
      DominatedAll(ts[0].kids, x);
      DominatedAll(ts[1..], x);
    }
  }

  /** The root of a heap-ordered tree is at least as extreme as everything in it. */
  lemma RootIsMax(t: Tree)
    requires HeapOrdered([t])
    ensures t.elt in Elems([t])
    ensures forall e :: e in Elems([t]) ==> !Compare(t.elt, e)
  {
    assert [t][1..] == [];
    DominatedAll(t.kids, t.elt);
  }

  /** The winner of a link is one of the operands and dominates both; ties favour the left. */
  lemma LinkWinner(a: Tree, b: Tree)
    ensures Link(a, b).id == (if Compare(a.elt, b.elt) then b.id else a.id)
    ensures !Compare(Link(a, b).elt, a.elt) && !Compare(Link(a, b).elt, b.elt)
    ensures a.elt == b.elt ==> Link(a, b) == Tree(a.id, a.elt, [b] + a.kids)
  {
  }

  /** How every list function unfolds on `[t] + ts`. */
  lemma ConsSets(t: Tree, ts: seq<Tree>)
    ensures Ids([t] + ts) == {t.id} + Ids(t.kids) + Ids(ts)
    ensures Elems([t] + ts) == multiset{t.elt} + Elems(t.kids) + Elems(ts)
  {
    assert ([t] + ts)[0] == t && ([t] + ts)[1..] == ts;
  }

  lemma Cons(t: Tree, ts: seq<Tree>)
    ensures Ids([t] + ts) == {t.id} + Ids(t.kids) + Ids(ts)
    ensures Elems([t] + ts) == multiset{t.elt} + Elems(t.kids) + Elems(ts)
    ensures Unique([t] + ts) <==>
      (t.id !in Ids(t.kids) && t.id !in Ids(ts) && Ids(t.kids) !! Ids(ts) && Unique(t.kids) && Unique(ts))
    ensures HeapOrdered([t] + ts) <==>
      (Dominated(t.kids, t.elt) && HeapOrdered(t.kids) && HeapOrdered(ts))
    ensures forall x :: Dominated([t] + ts, x) <==> (!Compare(x, t.elt) && Dominated(ts, x))
  {
    assert ([t] + ts)[0] == t && ([t] + ts)[1..] == ts;
  }

  lemma Single(t: Tree)
    ensures Ids([t]) == {t.id} + Ids(t.kids)
    ensures Elems([t]) == multiset{t.elt} + Elems(t.kids)
    ensures Unique([t]) <==> (t.id !in Ids(t.kids) && Unique(t.kids))
    ensures HeapOrdered([t]) <==> (Dominated(t.kids, t.elt) && HeapOrdered(t.kids))
  {
    assert [t] == [t] + [];
    Cons(t, []);
  }

  /** Linking keeps every index and every element, and keeps heap order. */
  lemma LinkContents(a: Tree, b: Tree)
    ensures Ids([Link(a, b)]) == Ids([a]) + Ids([b])
    ensures Elems([Link(a, b)]) == Elems([a]) + Elems([b])
    ensures Unique([a, b]) ==> Unique([Link(a, b)])
    ensures HeapOrdered([a]) && HeapOrdered([b]) ==> HeapOrdered([Link(a, b)])
  {
    if Compare(a.elt, b.elt) {
      AdoptContents(b, a);
    } else {
      AdoptContents(a, b);
    }
    assert [a, b] == [a] + [b];
    Cons(a, [b]);
    Single(a);
    Single(b);
  }

  /** `w` takes `x` as its new first child. */
  lemma AdoptContents(w: Tree, x: Tree)
    ensures Ids([Tree(w.id, w.elt, [x] + w.kids)]) == Ids([w]) + Ids([x])
    ensures Elems([Tree(w.id, w.elt, [x] + w.kids)]) == Elems([w]) + Elems([x])
    ensures Unique([w]) && Unique([x]) && Ids([w]) !! Ids([x]) ==> Unique([Tree(w.id, w.elt, [x] + w.kids)])
    ensures HeapOrdered([w]) && HeapOrdered([x]) && !Compare(w.elt, x.elt) ==> HeapOrdered([Tree(w.id, w.elt, [x] + w.kids)])
  {
    var l := Tree(w.id, w.elt, [x] + w.kids);
    Single(l);
    Single(w);
    Single(x);
    Cons(x, w.kids);
  }

  /** Linking two trees with disjoint indices yields a tree of unique indices. */
  lemma LinkUnique(a: Tree, b: Tree)
    requires Unique([a]) && Unique([b]) && Ids([a]) !! Ids([b])
    ensures Unique([Link(a, b)])
  {
    LinkContents(a, b);
    Append([a], [b]);
    assert [a, b] == [a] + [b];
  }

  lemma SingleSets(t: Tree)
    ensures Ids([t]) == {t.id} + Ids(t.kids)
    ensures Elems([t]) == multiset{t.elt} + Elems(t.kids)
  {
    assert [t][0] == t && [t][1..] == [];
  }

  lemma {:induction false} AppendSets(xs: seq<Tree>, ys: seq<Tree>)
    ensures Ids(xs + ys) == Ids(xs) + Ids(ys)
    ensures Elems(xs + ys) == Elems(xs) + Elems(ys)
    decreases xs
  {
    if xs == [] {
      assert xs + ys == ys;
    } else {
      var t, rest := xs[0], xs[1..];
      assert xs + ys == [t] + (rest + ys);
      assert xs == [t] + rest;
      AppendSets(rest, ys);
      ConsSets(t, rest + ys);
      ConsSets(t, rest);
    }
  }

  lemma {:induction false} AppendUnique(xs: seq<Tree>, ys: seq<Tree>)
    ensures Unique(xs + ys) <==> Unique(xs) && Unique(ys) && Ids(xs) !! Ids(ys)
    decreases xs
  {
    if xs == [] {
      assert xs + ys == ys;
    } else {
      var t, rest := xs[0], xs[1..];
      assert xs + ys == [t] + (rest + ys);
      assert xs == [t] + rest;
      AppendUnique(rest, ys);
      AppendSets(rest, ys);
      Cons(t, rest + ys);
      Cons(t, rest);
    }
  }

  lemma {:induction false} AppendHeap(xs: seq<Tree>, ys: seq<Tree>)
    ensures HeapOrdered(xs + ys) <==> HeapOrdered(xs) && HeapOrdered(ys)
    decreases xs
  {
    if xs == [] {
      assert xs + ys == ys;
    } else {
      var t, rest := xs[0], xs[1..];
      assert xs + ys == [t] + (rest + ys);
      assert xs == [t] + rest;
      AppendHeap(rest, ys);
      Cons(t, rest + ys);
      Cons(t, rest);
    }
  }

  /** Concatenation distributes over every list measure. */
  lemma Append(xs: seq<Tree>, ys: seq<Tree>)
    ensures Ids(xs + ys) == Ids(xs) + Ids(ys)
    ensures Elems(xs + ys) == Elems(xs) + Elems(ys)
    ensures Unique(xs + ys) <==> Unique(xs) && Unique(ys) && Ids(xs) !! Ids(ys)
    ensures HeapOrdered(xs + ys) <==> HeapOrdered(xs) && HeapOrdered(ys)
  {
    AppendSets(xs, ys);
    AppendUnique(xs, ys);
    AppendHeap(xs, ys);
  }


  // ---------------------------------------------------------------------------
  // The two passes that combine a deleted root's children.

  /** First pass: meld consecutive siblings pairwise, left to right; an odd one out is kept. */
  function MergePairs(ts: seq<Tree>): seq<Tree>
    decreases |ts|
  {
    if |ts| >= 2 then [Link(ts[0], ts[1])] + MergePairs(ts[2..]) else ts
  }

  /** Meld a tree into an optional accumulated root, the accumulator on the left. */
  function MeldInto(acc: Option<Tree>, s: Tree): Tree {
    match acc
    case None => s
    case Some(r) => Link(r, s)
  }

  /** Second pass: fold the trees into one, starting from the last one. */
  function MeldBack(ps: seq<Tree>): Option<Tree>
    decreases |ps|
  {
    if ps == [] then None else Some(MeldInto(MeldBack(ps[1..]), ps[0]))
  }

  function AsList(o: Option<Tree>): seq<Tree> {
    match o
    case None => []
    case Some(t) => [t]
  }

  /** `xs` holds what `ys` holds, and keeps its distinct indices and heap order. */
  ghost predicate SameContents(xs: seq<Tree>, ys: seq<Tree>) {
    && Ids(xs) == Ids(ys)
    && Elems(xs) == Elems(ys)
    && (Unique(ys) ==> Unique(xs))
    && (HeapOrdered(ys) ==> HeapOrdered(xs))
  }

  lemma {:induction false} MergePairsContents(ts: seq<Tree>)
    ensures SameContents(MergePairs(ts), ts)
    ensures |MergePairs(ts)| == (|ts| + 1) / 2
    decreases |ts|
  {
    if |ts| >= 2 {
      MergePairsStep(ts);
      MergePairsContents(ts[2..]);
    }
  }

  /** One pair linked in front of the pairs of the rest. */
  lemma MergePairsStep(ts: seq<Tree>)
    requires |ts| >= 2
    ensures SameContents(MergePairs(ts[2..]), ts[2..]) && |MergePairs(ts[2..])| == (|ts| - 1) / 2 ==>
      SameContents(MergePairs(ts), ts) && |MergePairs(ts)| == (|ts| + 1) / 2
  {
    var l, p, rest := Link(ts[0], ts[1]), ts[..2], ts[2..];
    assert ts == p + rest;
    assert MergePairs(ts) == [l] + MergePairs(rest);
    LinkSame(p);
    if SameContents(MergePairs(rest), rest) {
      ConsContents(l, MergePairs(rest), p, rest);
    }
  }

  /** The link of a pair holds what the pair holds. */
  lemma LinkSame(p: seq<Tree>)
    requires |p| == 2
    ensures SameContents([Link(p[0], p[1])], p)
  {
    assert p == [p[0]] + [p[1]];
    Append([p[0]], [p[1]]);
    LinkContents(p[0], p[1]);
  }

  /** Same contents, concatenated. */
  lemma ConsContents(l: Tree, xs: seq<Tree>, p: seq<Tree>, ys: seq<Tree>)
    requires SameContents([l], p) && SameContents(xs, ys)
    ensures SameContents([l] + xs, p + ys)
  {
    Append([l], xs);
    Append(p, ys);
  }

  lemma {:induction false} MeldBackContents(ps: seq<Tree>)
    ensures MeldBack(ps).Some? <==> ps != []
    ensures Ids(AsList(MeldBack(ps))) == Ids(ps)
    ensures Elems(AsList(MeldBack(ps))) == Elems(ps)
    ensures Unique(ps) ==> Unique(AsList(MeldBack(ps)))
    ensures HeapOrdered(ps) ==> HeapOrdered(AsList(MeldBack(ps)))
    decreases |ps|
  {
    if ps != [] {
      var t, rest := ps[0], ps[1..];
      assert ps == [t] + rest;
      Append([t], rest);
      MeldBackContents(rest);
      MeldIntoContents(MeldBack(rest), t);
    }
  }

  /** One step of the second pass keeps the contents. */
  lemma MeldIntoContents(o: Option<Tree>, t: Tree)
    ensures Ids([MeldInto(o, t)]) == Ids(AsList(o)) + Ids([t])
    ensures Elems([MeldInto(o, t)]) == Elems(AsList(o)) + Elems([t])
    ensures Unique(AsList(o)) && Unique([t]) && Ids(AsList(o)) !! Ids([t]) ==> Unique([MeldInto(o, t)])
    ensures HeapOrdered(AsList(o)) && HeapOrdered([t]) ==> HeapOrdered([MeldInto(o, t)])
  {
    match o
    case None =>
    case Some(r) =>
      LinkContents(r, t);
      assert [r, t] == [r] + [t];
      Append([r], [t]);
  }

  /** The tree left after a root is deleted and its children are combined by both passes. */
  lemma PopContents(t: Tree)
    ensures Ids(AsList(MeldBack(MergePairs(t.kids)))) == Ids(t.kids)
    ensures Elems(AsList(MeldBack(MergePairs(t.kids)))) == Elems([t]) - multiset{t.elt}
    ensures Unique([t]) ==> Unique(AsList(MeldBack(MergePairs(t.kids))))
    ensures HeapOrdered([t]) ==> HeapOrdered(AsList(MeldBack(MergePairs(t.kids))))
  {
    Single(t);
    MergePairsContents(t.kids);
    MeldBackContents(MergePairs(t.kids));
  }

  // ---------------------------------------------------------------------------
  // Detaching a subtree, as decrease-key does.

  /** The list with the subtree rooted at index `h` removed. */
  function Cut(ts: seq<Tree>, h: nat): seq<Tree>
    decreases ts
  {
    if ts == [] then []
    else if ts[0].id == h then ts[1..]
    else [Tree(ts[0].id, ts[0].elt, Cut(ts[0].kids, h))] + Cut(ts[1..], h)
  }

  /** The subtree rooted at index `h`. */
  function Find(ts: seq<Tree>, h: nat): Tree
    requires h in Ids(ts)
    decreases ts
  {
    if ts[0].id == h then ts[0]
    else if h in Ids(ts[0].kids) then Find(ts[0].kids, h)
    else Find(ts[1..], h)
  }

  lemma {:induction false} CutAbsent(ts: seq<Tree>, h: nat)
    requires h !in Ids(ts)
    ensures Cut(ts, h) == ts
    decreases ts
  {
    if ts != [] {
      CutAbsent(ts[0].kids, h);
      CutAbsent(ts[1..], h);
    }
  }

  /** A list splits into `cut` and the subtree `f`: disjoint indices, nothing lost. */
  ghost predicate SplitsInto(ts: seq<Tree>, cut: seq<Tree>, f: Tree) {
    && Ids(cut) !! Ids([f])
    && Ids(cut) + Ids([f]) == Ids(ts)
    && Elems(cut) + Elems([f]) == Elems(ts)
  }

  lemma SplitInKids(t: Tree, rest: seq<Tree>, cut: seq<Tree>, f: Tree)
    requires SplitsInto(t.kids, cut, f)
    requires t.id !in Ids(t.kids) && Ids(t.kids) !! Ids(rest)
    ensures SplitsInto([t] + rest, [Tree(t.id, t.elt, cut)] + rest, f)
  {
    ConsSets(t, rest);
    ConsSets(Tree(t.id, t.elt, cut), rest);
  }

  lemma SplitInRest(t: Tree, rest: seq<Tree>, cut: seq<Tree>, f: Tree)
    requires SplitsInto(rest, cut, f)
    requires t.id !in Ids(rest) && Ids(t.kids) !! Ids(rest)
    ensures SplitsInto([t] + rest, [t] + cut, f)
  {
    ConsSets(t, rest);
    ConsSets(t, cut);
  }

  lemma {:induction false} CutIds(ts: seq<Tree>, h: nat)
    requires Unique(ts) && h in Ids(ts)
    ensures Find(ts, h).id == h
    ensures SplitsInto(ts, Cut(ts, h), Find(ts, h))
    decreases ts
  {
    var t, rest := ts[0], ts[1..];
    assert ts == [t] + rest;
    Cons(t, rest);
    if t.id == h {
      assert Cut(ts, h) == rest && Find(ts, h) == t;
      Single(t);
    } else if h in Ids(t.kids) {
      CutIds(t.kids, h);
      CutAbsent(rest, h);
      SplitInKids(t, rest, Cut(t.kids, h), Find(t.kids, h));
    } else {
      CutIds(rest, h);
      CutAbsent(t.kids, h);
      SplitInRest(t, rest, Cut(rest, h), Find(rest, h));
    }
  }

  lemma {:induction false} CutUnique(ts: seq<Tree>, h: nat)
    requires Unique(ts) && h in Ids(ts)
    ensures Unique(Cut(ts, h)) && Unique([Find(ts, h)])
    decreases ts
  {
    var t, rest := ts[0], ts[1..];
    assert ts == [t] + rest;
    Cons(t, rest);
    if t.id == h {
      Single(t);
    } else if h in Ids(t.kids) {
      CutUnique(t.kids, h);
      CutIds(t.kids, h);
      CutAbsent(rest, h);
      Cons(Tree(t.id, t.elt, Cut(t.kids, h)), rest);
    } else {
      CutUnique(rest, h);
      CutIds(rest, h);
      CutAbsent(t.kids, h);
      Cons(t, Cut(rest, h));
    }
  }

  lemma {:induction false} CutDominated(ts: seq<Tree>, h: nat, x: int)
    requires Dominated(ts, x)
    ensures Dominated(Cut(ts, h), x)
    decreases ts
  {
    if ts != [] {
      var t, rest := ts[0], ts[1..];
      assert ts == [t] + rest;
      Cons(t, rest);
      CutDominated(rest, h, x);
      if t.id != h {
        Cons(Tree(t.id, t.elt, Cut(t.kids, h)), Cut(rest, h));
      }
    }
  }

  lemma {:induction false} CutHeap(ts: seq<Tree>, h: nat)
    requires HeapOrdered(ts) && h in Ids(ts)
    ensures HeapOrdered(Cut(ts, h)) && HeapOrdered([Find(ts, h)])
    decreases ts
  {
    var t, rest := ts[0], ts[1..];
    assert ts == [t] + rest;
    Cons(t, rest);
    if t.id == h {
      Single(t);
    } else if h in Ids(t.kids) {
      CutHeap(t.kids, h);
      CutDominated(t.kids, h, t.elt);
      if h in Ids(rest) {
        CutHeap(rest, h);
      } else {
        CutAbsent(rest, h);
      }
      Cons(Tree(t.id, t.elt, Cut(t.kids, h)), Cut(rest, h));
    } else {
      CutHeap(rest, h);
      CutAbsent(t.kids, h);
      CutDominated(t.kids, h, t.elt);
      Cons(Tree(t.id, t.elt, Cut(t.kids, h)), Cut(rest, h));
    }
  }
}
