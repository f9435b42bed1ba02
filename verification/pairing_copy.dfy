/** The copy constructor and `updatePriorities`, which is `*this = *this` and so
    goes through the copy constructor. The copy visits the reachable nodes with
    a worklist and melds a new one-node tree for each into an initially empty
    queue. The copy numbers its nodes from 0 in visiting order, so an index
    that was a handle into the original may address a different element of
    the copy. In `PairingPQ.h` the original's nodes are deleted once the
    assignment completes, and such a handle dangles. */
module PairingCopy {
  import opened Order
  import opened Wrappers
  import opened PairingTree
  import opened PairingArena
  import opened PairingPQ

  /** The order in which the copy constructor's worklist loop visits the
      nodes of `m`: take the index at the back of `work`, push the node's child
      and then its sibling at the front, and go on. `fuel` bounds the number
      of steps. */
  function Visits(m: Arena, work: seq<nat>, fuel: nat): Option<seq<nat>>
    decreases fuel
  {
    if work == [] then Some([])
    else if fuel == 0 then None
    else
      var x := work[|work| - 1];
      if x !in m then None
      else
        match Visits(m, Visit(work[..|work| - 1], m[x]), fuel - 1)
        case None => None
        case Some(rest) => Some([x] + rest)
  }

  /** `nodes.push_front(n->child)` and then `nodes.push_front(n->sibling)`,
      each only when the link is set. */
  function Visit(work: seq<nat>, n: Node): (w: seq<nat>)
    ensures |w| == |work| + (if n.child.Some? then 1 else 0) + (if n.sibling.Some? then 1 else 0)
  {
    var w := if n.child.Some? then [n.child.value] + work else work;
    if n.sibling.Some? then [n.sibling.value] + w else w
  }

  /** `root = meld(root, new Node(**n))` for the visited nodes `xs`, in order.
      The new node gets the visited node's own index when `keep` holds, and the
      next fresh index (what `new Node` amounts to) otherwise. */
  function MeldAll(m: Arena, acc: PQ, xs: seq<nat>, keep: bool): (r: Option<PQ>)
    requires WellLinked(acc)
    ensures r.Some? ==> WellLinked(r.value) && r.value.size == acc.size
    ensures r.Some? ==> forall j :: j in acc.nodes ==> j in r.value.nodes && r.value.nodes[j].elt == acc.nodes[j].elt
    ensures r.Some? && keep ==> forall k :: k in r.value.nodes && k !in acc.nodes ==> k in m && r.value.nodes[k].elt == m[k].elt
    decreases |xs|
  {
    if xs == [] then Some(acc)
    else
      var k := if keep then xs[0] else acc.next;
      if xs[0] !in m || k in acc.nodes then None
      else
        var acc' := InsertAt(acc, k, m[xs[0]].elt);
        MeldAll(m, acc', xs[1..], keep)
  }

  /** The worklist loop. It reads only `m` and writes only `acc`, so visiting
      every node first and melding the copies afterwards, in the same order,
      gives the same queue. */
  function CopyLoop(m: Arena, work: seq<nat>, acc: PQ, keep: bool, fuel: nat): (r: Option<PQ>)
    requires WellLinked(acc)
    ensures r.Some? ==> WellLinked(r.value) && r.value.size == acc.size
    ensures r.Some? && keep ==> forall k :: k in r.value.nodes && k !in acc.nodes ==> k in m && r.value.nodes[k].elt == m[k].elt
  {
    match Visits(m, work, fuel)
    case None => None
    case Some(xs) => MeldAll(m, acc, xs, keep)
  }

  /** `PairingPQ(const PairingPQ& other)`: copy every reachable node into a
      fresh queue, then take over `other._size`. */
  function Copy(other: PQ): (r: Option<PQ>)
    ensures r.Some? ==> WellLinked(r.value) && r.value.size == other.size
  {
    if other.root.None? then Some(EmptyPQ().(size := other.size))
    else
      match CopyLoop(other.nodes, [other.root.value], EmptyPQ(), false, |other.nodes|)
      case None => None
      case Some(q) => Some(q.(size := other.size))
  }

  /** `updatePriorities()` as written: `*this = *this`, that is, a copy. */
  function UpdatePriorities(pq: PQ): (r: Option<PQ>)
    ensures r.Some? ==> WellLinked(r.value) && r.value.size == pq.size
  {
    Copy(pq)
  }

  /** `updatePriorities()` relinking the existing nodes instead of copying
      them: the same worklist, but every node keeps its index. */
  function UpdatePrioritiesFixed(pq: PQ): (r: Option<PQ>)
    ensures r.Some? ==> r.value.size == pq.size
    ensures r.Some? && WellLinked(pq) ==> WellLinked(r.value)
    ensures r.Some? ==> forall k :: k in r.value.nodes ==> k in pq.nodes && r.value.nodes[k].elt == pq.nodes[k].elt
  {
    if pq.root.None? then Some(pq)
    else
      match CopyLoop(pq.nodes, [pq.root.value], PQ(map[], None, 0, pq.next), true, |pq.nodes|)
      case None => None
      case Some(q) => Some(q.(size := pq.size))
  }

  // ---------------------------------------------------------------------------
  // What the copy and the relinking give.

  /** The copy constructor copies the whole tree, even one whose elements are
      out of order: the copy is a well-formed heap with the same elements, and
      it numbers its nodes afresh from 0. */
  lemma CopyModels(other: PQ, ts: seq<Tree>) returns (ts': seq<Tree>)
    requires Linked(other, ts)
    ensures Copy(other).Some?
    ensures Models(Copy(other).value, ts') && Elems(ts') == Elems(ts)
    ensures Copy(other).value.next == other.size
  {
    LinkedWellLinked(other, ts);
    EmptyModels();
    if other.root.None? {
      ts' := [];
    } else {
      var m := other.nodes;
      var xs := StartVisits(other, ts);
      ts' := MeldAllModels(m, EmptyPQ(), [], xs, false);
    }
  }

  /** The traversal from the root of a linked queue visits every node once. */
  lemma StartVisits(pq: PQ, ts: seq<Tree>) returns (xs: seq<nat>)
    requires Linked(pq, ts) && pq.root.Some?
    ensures Visits(pq.nodes, [pq.root.value], |pq.nodes|) == Some(xs)
    ensures Members(xs) == pq.nodes.Keys && Distinct(xs)
    ensures EltsOf(pq.nodes, xs) == Elems(ts) && |xs| == pq.size
    ensures xs != [] && xs[0] == pq.root.value
  {
    var m := pq.nodes;
    var root := pq.root.value;
    StartPending(pq, ts);
    assert Ready(m, [root], [ts], |m|);
    VisitsModels(m, [root], [ts], |m|);
    xs := Visits(m, [root], |m|).value;
    VisitsHead(m, [root], |m|);
  }

  /** The first node visited is the one at the back of the worklist. */
  lemma VisitsHead(m: Arena, work: seq<nat>, fuel: nat)
    requires work != [] && Visits(m, work, fuel).Some?
    ensures Visits(m, work, fuel).value != []
    ensures Visits(m, work, fuel).value[0] == work[|work| - 1]
  {
  }

  /** At the start the worklist holds the root, which starts the whole tree. */
  lemma StartPending(pq: PQ, ts: seq<Tree>)
    requires Linked(pq, ts) && pq.root.Some?
    ensures Cat([ts]) == ts && pq.root.value in pq.nodes
    ensures AllPending(pq.nodes, [pq.root.value], [ts]) && Unique(Cat([ts]))
    ensures |pq.nodes| == |Elems(Cat([ts]))| == pq.size
    ensures Ids(Cat([ts])) == pq.nodes.Keys
  {
    LinkedWellLinked(pq, ts);
    assert Cat([ts]) == ts by {
      assert [ts][..0] == [];
    }
    assert Pending(pq.nodes, [ts][0], [pq.root.value][0]);
    UniqueCount(ts);
  }

  /** `updatePriorities()` as written, on a queue whose elements may be out of
      order: the result is a well-formed heap with the same elements, but its
      nodes are numbered afresh from 0. */
  lemma UpdatePrioritiesModels(pq: PQ, ts: seq<Tree>) returns (ts': seq<Tree>)
    requires Linked(pq, ts)
    ensures UpdatePriorities(pq).Some?
    ensures var r := UpdatePriorities(pq).value;
      && Models(r, ts') && Elems(ts') == Elems(ts)
      && r.size == pq.size && r.next == pq.size
  {
    ts' := CopyModels(pq, ts);
  }

  /** Relinking restores the heap order of a queue whose elements may be out of
      order, and keeps every node where it is: the same elements, each still
      under its own handle. */
  lemma UpdatePrioritiesFixedModels(pq: PQ, ts: seq<Tree>) returns (ts': seq<Tree>)
    requires Linked(pq, ts)
    ensures UpdatePrioritiesFixed(pq).Some?
    ensures var r := UpdatePrioritiesFixed(pq).value;
      && Models(r, ts') && Elems(ts') == Elems(ts)
      && r.nodes.Keys == pq.nodes.Keys && r.next == pq.next
      && forall k :: k in pq.nodes ==> r.nodes[k].elt == pq.nodes[k].elt
  {
    LinkedWellLinked(pq, ts);
    if pq.root.None? {
      ts' := ts;
    } else {
      var xs := RelinkStart(pq, ts);
      var acc := PQ(map[], None, 0, pq.next);
      ts' := MeldAllModels(pq.nodes, acc, [], xs, true);
      RelinkEnd(pq, ts, xs, ts');
    }
  }

  /** Relinking starts from an empty arena that keeps `next`. */
  lemma RelinkStart(pq: PQ, ts: seq<Tree>) returns (xs: seq<nat>)
    requires Linked(pq, ts) && pq.root.Some?
    ensures Visits(pq.nodes, [pq.root.value], |pq.nodes|) == Some(xs)
    ensures Members(xs) == pq.nodes.Keys && EltsOf(pq.nodes, xs) == Elems(ts)
    ensures FoldReady(pq.nodes, PQ(map[], None, 0, pq.next), [], xs, true)
  {
    xs := StartVisits(pq, ts);
    assert Shape(PQ(map[], None, 0, pq.next), []);
  }

  /** Relinking ends with every node of `pq` back under its own index. */
  lemma RelinkEnd(pq: PQ, ts: seq<Tree>, xs: seq<nat>, ts': seq<Tree>)
    requires Linked(pq, ts) && pq.root.Some?
    requires Visits(pq.nodes, [pq.root.value], |pq.nodes|) == Some(xs)
    requires Members(xs) == pq.nodes.Keys && EltsOf(pq.nodes, xs) == Elems(ts)
    requires var acc := PQ(map[], None, 0, pq.next);
      WellLinked(acc) && Folded(pq.nodes, acc, [], xs, true, MeldAll(pq.nodes, acc, xs, true), ts')
    ensures UpdatePrioritiesFixed(pq).Some?
    ensures var r := UpdatePrioritiesFixed(pq).value;
      && Models(r, ts') && Elems(ts') == Elems(ts)
      && r.nodes.Keys == pq.nodes.Keys && r.next == pq.next
      && forall k :: k in pq.nodes ==> r.nodes[k].elt == pq.nodes[k].elt
  {
  }

  /** The copy puts the root first, under handle 0, so that handle now
      addresses the top element, whatever it addressed before. */
  lemma CopyRootAtZero(pq: PQ, ts: seq<Tree>)
    requires Linked(pq, ts) && pq.root.Some?
    ensures pq.root.value in pq.nodes
    ensures UpdatePriorities(pq).Some?
    ensures 0 in UpdatePriorities(pq).value.nodes
    ensures UpdatePriorities(pq).value.nodes[0].elt == Top(pq)
  {
    LinkedWellLinked(pq, ts);
    var xs := StartVisits(pq, ts);
    var ts' := CopyModels(pq, ts);
    var acc1 := InsertAt(EmptyPQ(), 0, pq.nodes[xs[0]].elt);
    assert MeldAll(pq.nodes, EmptyPQ(), xs, false) == MeldAll(pq.nodes, acc1, xs[1..], false);
  }

  /** A handle is invalidated by `updatePriorities()`: after `addNode(1)`
      and `addNode(2)` the first handle, 0, addresses 1; after the copy it
      addresses 2. */
  lemma HandleInvalidated()
    ensures var (q1, h1) := AddNode(EmptyPQ(), 1);
      var (q2, h2) := AddNode(q1, 2);
      && h1 == 0 && h1 in q2.nodes && q2.nodes[h1].elt == 1
      && UpdatePriorities(q2).Some? && h1 in UpdatePriorities(q2).value.nodes
      && UpdatePriorities(q2).value.nodes[h1].elt == 2
  {
    EmptyModels();
    var ts1 := AddNodeModels(EmptyPQ(), [], 1);
    var (q1, h1) := AddNode(EmptyPQ(), 1);
    var ts2 := AddNodeModels(q1, ts1, 2);
    var (q2, h2) := AddNode(q1, 2);
    assert q1.root == Some(0);
    assert q2.root == Some(1);
    ModelsLinked(q2, ts2);
    CopyRootAtZero(q2, ts2);
  }

  // ---------------------------------------------------------------------------
  // The worklist holds the subtrees still to be copied.

  /** `x` is the first node of an encoding of the list `ts`. */
  ghost predicate Pending(m: Arena, ts: seq<Tree>, x: nat) {
    ts != [] && ts[0].id == x && x in m && Enc(m, ts, Some(x), m[x].prev)
  }

  /** Every entry of the worklist starts an encoding of its list. */
  ghost predicate AllPending(m: Arena, work: seq<nat>, pending: seq<seq<Tree>>) {
    && |pending| == |work|
    && forall i {:trigger Pending(m, pending[i], work[i])} :: 0 <= i < |work| ==> Pending(m, pending[i], work[i])
  }

  /** The worklist's lists, back to front concatenated front to back. */
  ghost function Cat(ps: seq<seq<Tree>>): seq<Tree>
    decreases |ps|
  {
    if ps == [] then [] else Cat(ps[..|ps| - 1]) + ps[|ps| - 1]
  }

  lemma {:induction false} CatCons(p: seq<Tree>, ps: seq<seq<Tree>>)
    ensures Cat([p] + ps) == p + Cat(ps)
    decreases |ps|
  {
    if ps == [] {
      assert [p] + ps == [p];
      assert Cat([p][..0]) == [];
    } else {
      var init := ps[..|ps| - 1];
      assert ([p] + ps)[..|ps|] == [p] + init;
      CatCons(p, init);
    }
  }

  /** Taking the back list `[t] + rest` off the worklist and putting `t`'s
      children and `rest` at the front leaves everything but `t` to copy. */
  lemma StepSplit(init: seq<seq<Tree>>, t: Tree, rest: seq<Tree>, ps': seq<seq<Tree>>)
    requires Cat(ps') == rest + (t.kids + Cat(init))
    requires Unique(Cat(init + [[t] + rest]))
    ensures Elems(Cat(init + [[t] + rest])) == multiset{t.elt} + Elems(Cat(ps'))
    ensures Ids(Cat(init + [[t] + rest])) == {t.id} + Ids(Cat(ps'))
    ensures Unique(Cat(ps')) && t.id !in Ids(Cat(ps'))
  {
    var ps := init + [[t] + rest];
    assert ps[..|ps| - 1] == init;
    assert Cat(ps) == Cat(init) + ([t] + rest);
    Append(Cat(init), [t] + rest);
    Cons(t, rest);
    Append(t.kids, Cat(init));
    Append(rest, t.kids + Cat(init));
    Shuffle(Ids(Cat(init)), Ids(t.kids), Ids(rest), t.id);
  }

  /** The set algebra behind `StepSplit`. */
  lemma Shuffle(a: set<nat>, k: set<nat>, r: set<nat>, x: nat)
    requires a !! ({x} + k + r) && x !in k && x !in r && k !! r
    ensures r !! (k + a) && k !! a && x !in r + (k + a)
    ensures a + ({x} + k + r) == {x} + (r + (k + a))
  {
  }

  /** The indices in a list. */
  function Members(xs: seq<nat>): set<nat>
    decreases xs
  {
    if xs == [] then {} else {xs[0]} + Members(xs[1..])
  }

  /** No index occurs twice. */
  predicate Distinct(xs: seq<nat>)
    decreases xs
  {
    xs == [] || (xs[0] !in Members(xs[1..]) && Distinct(xs[1..]))
  }

  /** The elements the indices `xs` address in `m`. */
  ghost function EltsOf(m: Arena, xs: seq<nat>): multiset<int>
    requires Members(xs) <= m.Keys
    decreases xs
  {
    if xs == [] then multiset{} else multiset{m[xs[0]].elt} + EltsOf(m, xs[1..])
  }

  /** The loop visits every node of the lists still to be copied exactly once. */
  lemma {:induction false} VisitsModels(m: Arena, work: seq<nat>, pending: seq<seq<Tree>>, fuel: nat)
    requires Ready(m, work, pending, fuel)
    ensures Visits(m, work, fuel).Some?
    ensures Visited(m, Visits(m, work, fuel).value, Cat(pending))
    decreases fuel
  {
    if work == [] {
      ReadyEmpty(m, work, pending, fuel);
    } else {
      var t, w2, p2 := ReadyStep(m, work, pending, fuel);
      VisitsModels(m, w2, p2, fuel - 1);
      var rest := Visits(m, w2, fuel - 1).value;
      VisitsGlue(m, work, fuel, w2, rest, t, Cat(pending), Cat(p2));
    }
  }

  /** The loop's state: every worklist entry starts its list, no index is
      shared, and the fuel covers every node still to visit. */
  ghost predicate Ready(m: Arena, work: seq<nat>, pending: seq<seq<Tree>>, fuel: nat) {
    AllPending(m, work, pending) && Unique(Cat(pending)) && fuel >= |Elems(Cat(pending))|
  }

  lemma ReadyEmpty(m: Arena, work: seq<nat>, pending: seq<seq<Tree>>, fuel: nat)
    requires Ready(m, work, pending, fuel) && work == []
    ensures Visits(m, work, fuel) == Some([]) && Visited(m, [], Cat(pending))
  {
    assert Cat(pending) == [];
  }

  lemma ReadyStep(m: Arena, work: seq<nat>, pending: seq<seq<Tree>>, fuel: nat)
    returns (t: Tree, w2: seq<nat>, p2: seq<seq<Tree>>)
    requires Ready(m, work, pending, fuel) && work != []
    ensures fuel > 0 && work[|work| - 1] == t.id && t.id in m && m[t.id].elt == t.elt
    ensures w2 == Visit(work[..|work| - 1], m[work[|work| - 1]])
    ensures Ready(m, w2, p2, fuel - 1)
    ensures Peeled(t, Cat(pending), Cat(p2))
  {
    t, p2 := WorkStep(m, work, pending);
    w2 := Visit(work[..|work| - 1], m[work[|work| - 1]]);
  }

  /** The visit of the back entry `t` followed by the visits of the rest. */
  lemma VisitsGlue(m: Arena, work: seq<nat>, fuel: nat, w2: seq<nat>, rest: seq<nat>, t: Tree, ts: seq<Tree>, ts2: seq<Tree>)
    requires work != [] && fuel > 0 && work[|work| - 1] == t.id && t.id in m && m[t.id].elt == t.elt
    requires w2 == Visit(work[..|work| - 1], m[work[|work| - 1]])
    requires Visits(m, w2, fuel - 1) == Some(rest) && Visited(m, rest, ts2)
    requires Peeled(t, ts, ts2)
    ensures Visits(m, work, fuel) == Some([t.id] + rest) && Visited(m, [t.id] + rest, ts)
  {
    VisitCons(m, t, rest, ts, ts2);
  }

  ghost predicate Peeled(t: Tree, ts: seq<Tree>, ts2: seq<Tree>) {
    && Elems(ts) == multiset{t.elt} + Elems(ts2)
    && Ids(ts) == {t.id} + Ids(ts2) && t.id !in Ids(ts2)
    && |Elems(ts)| == 1 + |Elems(ts2)|
  }

  /** The indices `xs` visit exactly the nodes of the list `ts`, each once. */
  ghost predicate Visited(m: Arena, xs: seq<nat>, ts: seq<Tree>) {
    && Members(xs) == Ids(ts) && Members(xs) <= m.Keys
    && Distinct(xs)
    && EltsOf(m, xs) == Elems(ts)
    && |xs| == |Elems(ts)|
  }

  /** Visiting `t` first, and then the rest. */
  lemma VisitCons(m: Arena, t: Tree, rest: seq<nat>, ts: seq<Tree>, ts2: seq<Tree>)
    requires Visited(m, rest, ts2) && t.id in m && m[t.id].elt == t.elt
    requires Elems(ts) == multiset{t.elt} + Elems(ts2)
    requires Ids(ts) == {t.id} + Ids(ts2) && t.id !in Ids(ts2)
    ensures Visited(m, [t.id] + rest, ts)
  {
    assert ([t.id] + rest)[1..] == rest;
  }

  /** What melding the copies of `xs` into `acc` needs: the indices are
      distinct nodes of `m`; when they are kept, they are free in `acc`, below
      its next fresh index, and what `acc` holds already agrees with `m`. */
  ghost predicate FoldReady(m: Arena, acc: PQ, accTs: seq<Tree>, xs: seq<nat>, keep: bool) {
    && Shape(acc, accTs) && Members(xs) <= m.Keys && Distinct(xs)
    && (keep ==> Members(xs) !! acc.nodes.Keys)
    && (keep ==> forall k :: k in m ==> k < acc.next)
    && (keep ==> forall k :: k in acc.nodes ==> k in m && acc.nodes[k].elt == m[k].elt)
  }

  /** What melding the copies of `xs` into `acc` gives: a queue `r` whose tree
      `ts'` holds the old elements and those of `xs`. */
  ghost predicate Folded(m: Arena, acc: PQ, accTs: seq<Tree>, xs: seq<nat>, keep: bool, r: Option<PQ>, ts': seq<Tree>)
    requires Members(xs) <= m.Keys
  {
    && r.Some?
    && Shape(r.value, ts')
    && Elems(ts') == Elems(accTs) + EltsOf(m, xs)
    && r.value.size == acc.size
    && (!keep ==> r.value.next == acc.next + |xs|)
    && (keep ==> r.value.nodes.Keys == acc.nodes.Keys + Members(xs) && r.value.next == acc.next)
    && (keep ==> forall k :: k in r.value.nodes ==> k in m && r.value.nodes[k].elt == m[k].elt)
  }

  /** Melding a copy of each visited node builds a heap-ordered tree holding
      their elements, next to what `acc` held. */
  lemma {:induction false} MeldAllModels(m: Arena, acc: PQ, accTs: seq<Tree>, xs: seq<nat>, keep: bool)
    returns (ts': seq<Tree>)
    requires FoldReady(m, acc, accTs, xs, keep)
    ensures WellLinked(acc)
    ensures Folded(m, acc, accTs, xs, keep, MeldAll(m, acc, xs, keep), ts')
    decreases |xs|
  {
    ShapeWellLinked(acc, accTs);
    if xs == [] {
      ts' := accTs;
    } else {
      var acc', accTs' := MeldStep(m, acc, accTs, xs, keep);
      ts' := MeldAllModels(m, acc', accTs', xs[1..], keep);
      MeldGlue(m, acc, accTs, xs, keep, acc', accTs', MeldAll(m, acc', xs[1..], keep), ts');
    }
  }

  /** One copy melded in: the next state of the fold. */
  ghost predicate MeldNext(m: Arena, acc: PQ, accTs: seq<Tree>, xs: seq<nat>, keep: bool, acc': PQ, accTs': seq<Tree>)
    requires xs != [] && Members(xs) <= m.Keys
  {
    && Elems(accTs') == Elems(accTs) + multiset{m[xs[0]].elt}
    && acc'.size == acc.size
    && (!keep ==> acc'.next == acc.next + 1)
    && (keep ==> acc'.nodes.Keys == acc.nodes.Keys + {xs[0]} && acc'.next == acc.next)
    && (keep ==> forall k :: k in acc'.nodes ==> k in m && acc'.nodes[k].elt == m[k].elt)
  }

  /** The first step of the fold keeps it ready for the rest of `xs`. */
  lemma MeldStep(m: Arena, acc: PQ, accTs: seq<Tree>, xs: seq<nat>, keep: bool) returns (acc': PQ, accTs': seq<Tree>)
    requires FoldReady(m, acc, accTs, xs, keep) && xs != []
    ensures WellLinked(acc') && WellLinked(acc)
    ensures MeldAll(m, acc, xs, keep) == MeldAll(m, acc', xs[1..], keep)
    ensures FoldReady(m, acc', accTs', xs[1..], keep)
    ensures MeldNext(m, acc, accTs, xs, keep, acc', accTs')
  {
    ShapeWellLinked(acc, accTs);
    var x := xs[0];
    var k := if keep then x else acc.next;
    assert k !in acc.nodes by {
      if !keep {
        assert forall j :: j in acc.nodes ==> j < acc.next;
      }
    }
    acc' := InsertAt(acc, k, m[x].elt);
    accTs' := InsertAtShape(acc, accTs, k, m[x].elt);
    InsertIds(accTs, k, m[x].elt, accTs');
  }

  /** Gluing the step to the fold of the rest. */
  lemma MeldGlue(m: Arena, acc: PQ, accTs: seq<Tree>, xs: seq<nat>, keep: bool, acc': PQ, accTs': seq<Tree>,
                 r: Option<PQ>, ts': seq<Tree>)
    requires xs != [] && Members(xs) <= m.Keys
    requires MeldNext(m, acc, accTs, xs, keep, acc', accTs')
    requires Folded(m, acc', accTs', xs[1..], keep, r, ts')
    ensures Folded(m, acc, accTs, xs, keep, r, ts')
  {
  }

  /** One visit: the back entry's list is `[t] + rest`; after the pushes the
      worklist's lists hold `t`'s children and `rest` besides the others. */
  lemma WorkStep(m: Arena, work: seq<nat>, pending: seq<seq<Tree>>) returns (t: Tree, p2: seq<seq<Tree>>)
    requires work != [] && AllPending(m, work, pending)
    requires Unique(Cat(pending))
    ensures work[|work| - 1] in m && t.id == work[|work| - 1] && t.elt == m[t.id].elt
    ensures var w2 := Visit(work[..|work| - 1], m[t.id]);
      AllPending(m, w2, p2)
    ensures Unique(Cat(p2)) && Peeled(t, Cat(pending), Cat(p2))
  {
    var last := |work| - 1;
    var x := work[last];
    var ts := pending[last];
    assert Pending(m, pending[last], work[last]);
    t := ts[0];
    var rest := ts[1..];
    var init := pending[..last];
    assert ts == [t] + rest;
    assert pending == init + [[t] + rest];
    var n := m[x];
    assert Enc(m, t.kids, n.child, Some(x)) && Enc(m, rest, n.sibling, Some(x));
    // The lists the two pushes put at the front of the worklist.
    var kidsP: seq<seq<Tree>> := if n.child.Some? then [t.kids] else [];
    var restP: seq<seq<Tree>> := if n.sibling.Some? then [rest] else [];
    var p1 := kidsP + init;
    p2 := restP + p1;
    CatShift(kidsP, init, t.kids);
    CatShift(restP, p1, rest);
    StepSplit(init, t, rest, p2);
    var w2 := Visit(work[..last], n);
    forall i | 0 <= i < |w2|
      ensures Pending(m, p2[i], w2[i])
    {
      PendingShift(m, work, pending, n, t, rest, kidsP, restP, i);
    }
  }

  /** `Cat` over a list put in front that is `[p]` or empty (with `p` empty). */
  lemma CatShift(front: seq<seq<Tree>>, ps: seq<seq<Tree>>, p: seq<Tree>)
    requires front == [p] || (front == [] && p == [])
    ensures Cat(front + ps) == p + Cat(ps)
  {
    if front == [] {
      assert front + ps == ps;
    } else {
      CatCons(p, ps);
    }
  }

  /** The ids of the tree after an insertion: the old ones and the new index. */
  lemma InsertIds(accTs: seq<Tree>, k: nat, val: int, accTs': seq<Tree>)
    requires |accTs| <= 1 && accTs' == [MeldInto(RootTree(accTs), Tree(k, val, []))]
    ensures Ids(accTs') == Ids(accTs) + {k}
  {
    var leaf := Tree(k, val, []);
    Single(leaf);
    if accTs == [] {
    } else {
      assert accTs == [accTs[0]];
      LinkContents(accTs[0], leaf);
    }
  }

  /** Every entry of the worklist after a step still starts an encoding. */
  lemma PendingShift(m: Arena, work: seq<nat>, pending: seq<seq<Tree>>, n: Node, t: Tree, rest: seq<Tree>,
                     kidsP: seq<seq<Tree>>, restP: seq<seq<Tree>>, i: nat)
    requires work != [] && |pending| == |work|
    requires AllPending(m, work, pending)
    requires pending[|work| - 1] == [t] + rest && work[|work| - 1] in m && n == m[work[|work| - 1]]
    requires Enc(m, t.kids, n.child, Some(t.id)) && Enc(m, rest, n.sibling, Some(t.id))
    requires kidsP == (if n.child.Some? then [t.kids] else [])
    requires restP == (if n.sibling.Some? then [rest] else [])
    requires i < |Visit(work[..|work| - 1], n)|
    ensures var w2 := Visit(work[..|work| - 1], n);
      var p2 := restP + (kidsP + pending[..|work| - 1]);
      |p2| == |w2| && Pending(m, p2[i], w2[i])
  {
    var last := |work| - 1;
    var w0 := work[..last];
    var w1 := if n.child.Some? then [n.child.value] + w0 else w0;
    var w2 := if n.sibling.Some? then [n.sibling.value] + w1 else w1;
    var p1 := kidsP + pending[..last];
    var p2 := restP + p1;
    assert |p1| == |w1|;
    if i < |restP| {
      assert p2[i] == rest && w2[i] == n.sibling.value;
    } else {
      var j := i - |restP|;
      assert p2[i] == p1[j] && w2[i] == w1[j];
      if j < |kidsP| {
        assert p1[j] == t.kids && w1[j] == n.child.value;
      } else {
        var l := j - |kidsP|;
        assert p1[j] == pending[l] && w1[j] == work[l];
        assert Pending(m, pending[l], work[l]);
      }
    }
  }
}
