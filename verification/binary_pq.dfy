/** The array binary heap: an implicit binary tree stored in a sequence.
    Index 0 is the root, the parent of index k > 0 is ((k + 1) / 2) - 1 and the
    children of index i are 2i + 1 and 2i + 2. Every operation takes the heap's
    contents as a value and returns the new contents. */
module BinaryPQ {
  import opened Order

  /** Parent index, written exactly as `BinaryPQ.h` computes it. */
  function Parent(k: nat): int {
    (k + 1) / 2 - 1
  }

  lemma ParentOfChild(k: nat)
    requires 0 < k
    ensures 0 <= Parent(k) < k
    ensures k == 2 * Parent(k) + 1 || k == 2 * Parent(k) + 2
  {
  }

  /** The heap property on every parent/child edge whose parent index is at least `lo`. */
  ghost predicate HeapFrom(a: seq<int>, lo: int) {
    forall k :: 0 < k < |a| && lo <= Parent(k) ==> !Compare(a[Parent(k)], a[k])
  }

  /** No child is more extreme than its parent. */
  ghost predicate Heap(a: seq<int>) {
    HeapFrom(a, 0)
  }

  /** The situation `fixUp(i)` repairs: every edge holds except the one above `i`,
      and `i`'s parent already dominates `i`'s children. */
  ghost predicate HeapExceptAbove(a: seq<int>, i: nat)
    requires i < |a|
  {
    && (forall k :: 0 < k < |a| && k != i ==> !Compare(a[Parent(k)], a[k]))
    && (0 < i ==> forall k :: 0 < k < |a| && Parent(k) == i ==> !Compare(a[Parent(i)], a[k]))
  }

  /** The situation inside `fixDown` started at `lo` and now at `j`: every edge with a
      parent at or below `lo` holds except those leaving `j`, and `j`'s parent
      already dominates `j`'s children. */
  ghost predicate HeapExceptBelow(a: seq<int>, lo: nat, j: nat) {
    && (forall k :: 0 < k < |a| && lo <= Parent(k) && Parent(k) != j ==> !Compare(a[Parent(k)], a[k]))
    && (lo < j ==> j < |a| && lo <= Parent(j)
                   && forall k :: 0 < k < |a| && Parent(k) == j ==> !Compare(a[Parent(j)], a[k]))
  }

  function Swap(a: seq<int>, i: nat, j: nat): (r: seq<int>)
    requires i < |a| && j < |a|
    ensures |r| == |a| && multiset(r) == multiset(a)
    ensures r[i] == a[j] && r[j] == a[i]
    ensures forall k :: 0 <= k < |a| && k != i && k != j ==> r[k] == a[k]
  {
    a[i := a[j]][j := a[i]]
  }

  /** `fixUp(i)`: swap the element at `i` with its parent while the parent is less
      extreme, moving it toward the root. */
  method FixUp(a: seq<int>, i: nat) returns (r: seq<int>)
    requires i < |a|
    ensures |r| == |a| && multiset(r) == multiset(a)
    ensures HeapExceptAbove(a, i) ==> Heap(r)
  {
    r := a;
    var j: nat := i;
    while 0 < j && Compare(r[Parent(j)], r[j])
      invariant j < |r| == |a|
      invariant multiset(r) == multiset(a)
      invariant HeapExceptAbove(a, i) ==> HeapExceptAbove(r, j)
      decreases j
    {
      ParentOfChild(j);
      var p: nat := Parent(j);
      r := Swap(r, j, p);
      j := p;
    }
  }

  /** `c` is a child of `j` that none of `j`'s children beats. */
  ghost predicate BestChild(a: seq<int>, j: nat, c: nat) {
    && 0 < c < |a| && Parent(c) == j
    && forall k :: 0 < k < |a| && Parent(k) == j ==> !Compare(a[c], a[k])
  }

  /** Swapping `j` with its best child when that child beats `j` moves the gap
      of `HeapExceptBelow` down to the child. */
  lemma SiftStep(a: seq<int>, lo: nat, j: nat, c: nat)
    requires HeapExceptBelow(a, lo, j) && lo <= j && BestChild(a, j, c) && Compare(a[j], a[c])
    ensures HeapExceptBelow(Swap(a, j, c), lo, c)
  {
    var r := Swap(a, j, c);
    ParentOfChild(c);
    forall k | 0 < k < |r| && lo <= Parent(k) && Parent(k) != c
      ensures !Compare(r[Parent(k)], r[k])
    {
      ParentOfChild(k);
      if k == j {
        assert r[Parent(k)] == a[Parent(j)];
      }
    }
    forall k | 0 < k < |r| && Parent(k) == c
      ensures !Compare(r[Parent(c)], r[k])
    {
      ParentOfChild(k);
    }
  }

  /** An index whose left child would lie past the end has no children. */
  lemma Childless(a: seq<int>, j: nat)
    requires 2 * j + 1 >= |a|
    ensures forall k :: 0 < k < |a| ==> Parent(k) != j
  {
    forall k | 0 < k < |a|
      ensures Parent(k) != j
    {
      ParentOfChild(k);
    }
  }

  /** Once `j` beats its best child, the gap closes. */
  lemma SiftDone(a: seq<int>, lo: nat, j: nat)
    requires HeapExceptBelow(a, lo, j)
    requires forall k :: 0 < k < |a| && Parent(k) == j ==> !Compare(a[j], a[k])
    ensures HeapFrom(a, lo)
  {
  }

  /** `fixDown(i)`: while `i` has a child, pick the more extreme child (the right one
      when `compare(left, right)`), and swap downward unless `i` already dominates it. */
  method FixDown(a: seq<int>, i: nat) returns (r: seq<int>)
    ensures |r| == |a| && multiset(r) == multiset(a)
    ensures HeapFrom(a, i + 1) ==> HeapFrom(r, i)
  {
    r := a;
    var j: nat := i;
    while 2 * j + 1 < |r|
      invariant |r| == |a| && multiset(r) == multiset(a)
      invariant i <= j
      invariant HeapFrom(a, i + 1) ==> HeapExceptBelow(r, i, j)
      decreases |r| - j
    {
      var c := 2 * j + 1;
      if c < |r| - 1 && Compare(r[c], r[c + 1]) {
        c := c + 1;
      }
      assert BestChild(r, j, c) by {
        forall k | 0 < k < |r| && Parent(k) == j
          ensures !Compare(r[c], r[k])
        {
          ParentOfChild(k);
        }
      }
      if !Compare(r[j], r[c]) {
        if HeapFrom(a, i + 1) {
          forall k | 0 < k < |r| && Parent(k) == j
            ensures !Compare(r[j], r[k])
          {
            NotCompareTransitive(r[j], r[c], r[k]);
          }
          SiftDone(r, i, j);
        }
        break;
      }
      if HeapFrom(a, i + 1) {
        SiftStep(r, i, j, c);
      }
      r := Swap(r, j, c);
      j := c;
    }
    if HeapFrom(a, i + 1) && 2 * j + 1 >= |r| {
      Childless(r, j);
      SiftDone(r, i, j);
    }
  }

  /** Every edge with a parent at or above `|a| / 2` is vacuous: such indices are leaves. */
  lemma LeavesAreHeaps(a: seq<int>)
    ensures HeapFrom(a, |a| / 2)
  {
  }

  /** `updatePriorities()`: bottom-up heapify, calling `fixDown` from the last
      non-leaf index `size / 2 - 1` down to the root. */
  method UpdatePriorities(a: seq<int>) returns (r: seq<int>)
    ensures |r| == |a| && multiset(r) == multiset(a)
    ensures Heap(r)
    ensures |a| <= 1 ==> r == a
  {
    r := a;
    var lastNonLeaf := |a| / 2 - 1;
    LeavesAreHeaps(a);
    while lastNonLeaf >= 0
      invariant -1 <= lastNonLeaf <= |a| / 2 - 1
      invariant |r| == |a| && multiset(r) == multiset(a)
      invariant HeapFrom(r, lastNonLeaf + 1)
      invariant |a| <= 1 ==> r == a
      decreases lastNonLeaf + 1
    {
      r := FixDown(r, lastNonLeaf);
      lastNonLeaf := lastNonLeaf - 1;
    }
  }

  /** The range constructor: copy the range, then rebuild. */
  method FromRange(range: seq<int>) returns (r: seq<int>)
    ensures |r| == |range| && multiset(r) == multiset(range)
    ensures Heap(r)
  {
    r := UpdatePriorities(range);
  }

  /** `push(val)`: append, then `fixUp` from the new last index. */
  method Push(a: seq<int>, val: int) returns (r: seq<int>)
    ensures |r| == |a| + 1
    ensures multiset(r) == multiset(a) + multiset{val}
    ensures Heap(a) ==> Heap(r)
  {
    var b := a + [val];
    assert Heap(a) ==> HeapExceptAbove(b, |a|) by {
      if Heap(a) {
        forall k | 0 < k < |b| && Parent(k) == |a|
          ensures false
        {
          ParentOfChild(k);
        }
      }
    }
    r := FixUp(b, |b| - 1);
  }

  /** `pop()`: swap the front with the back, drop the back, `fixDown(0)`.
      The queue must not be empty. */
  method Pop(a: seq<int>) returns (r: seq<int>)
    requires |a| > 0
    ensures |r| == |a| - 1
    ensures multiset(r) == multiset(a) - multiset{a[0]}
    ensures Heap(a) ==> Heap(r)
  {
    var b := Swap(a, 0, |a| - 1);
    var c := b[..|b| - 1];
    assert b == c + [a[0]];
    assert multiset(c) == multiset(a) - multiset{a[0]} by {
      calc {
        multiset(a);
        multiset(b);
        multiset(c + [a[0]]);
        multiset(c) + multiset{a[0]};
      }
    }
    assert Heap(a) ==> HeapFrom(c, 1) by {
      if Heap(a) {
        forall k | 0 < k < |c| && 1 <= Parent(k)
          ensures !Compare(c[Parent(k)], c[k])
        {
          ParentOfChild(k);
        }
      }
    }
    r := FixDown(c, 0);
  }

  /** Under the heap property the root dominates every element. */
  lemma {:induction false} RootDominates(a: seq<int>, k: nat)
    requires Heap(a) && k < |a|
    ensures !Compare(a[0], a[k])
    decreases k
  {
    if k > 0 {
      ParentOfChild(k);
      RootDominates(a, Parent(k));
      NotCompareTransitive(a[0], a[Parent(k)], a[k]);
    }
  }

  /** `top()`: the front of the vector; the queue must not be empty. */
  function Top(a: seq<int>): (r: int)
    requires |a| > 0
    ensures r in multiset(a)
    ensures Heap(a) ==> forall k :: 0 <= k < |a| ==> !Compare(r, a[k])
  {
    assert Heap(a) ==> forall k :: 0 <= k < |a| ==> !Compare(a[0], a[k]) by {
      if Heap(a) {
        forall k | 0 <= k < |a| ensures !Compare(a[0], a[k]) {
          RootDominates(a, k);
        }
      }
    }
    a[0]
  }

  /** `size()`: the vector length. */
  function Size(a: seq<int>): nat {
    |a|
  }

  /** `empty()`: the queue holds no element, so `top()` and `pop()` have
      nothing to act on. */
  function Empty(a: seq<int>): (e: bool)
    ensures e <==> Size(a) == 0
    ensures e <==> multiset(a) == multiset{}
  {
    a == []
  }

  /** Popping until empty emits the contents in non-increasing priority order. */
  method Drain(a: seq<int>) returns (out: seq<int>)
    requires Heap(a)
    ensures multiset(out) == multiset(a)
    ensures forall i, j :: 0 <= i < j < |out| ==> !Compare(out[i], out[j])
  {
    out := [];
    var h := a;
    while !Empty(h)
      invariant Heap(h)
      invariant multiset(out) + multiset(h) == multiset(a)
      invariant forall i, j :: 0 <= i < j < |out| ==> !Compare(out[i], out[j])
      invariant forall i, k :: 0 <= i < |out| && 0 <= k < |h| ==> !Compare(out[i], h[k])
      decreases |h|
    {
      var t := Top(h);
      var h' := Pop(h);
      forall i, k | 0 <= i < |out| + 1 && 0 <= k < |h'|
        ensures !Compare((out + [t])[i], h'[k])
      {
        assert h'[k] in multiset(h');
        assert h'[k] in multiset(h);
        var k0 :| 0 <= k0 < |h| && h[k0] == h'[k];
      }
      out := out + [t];
      h := h';
    }
  }
}
