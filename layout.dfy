/** The array layout shared by the three segment trees: a backing array of
    length `2 * n` with `n` a power of two, leaves at `[n, 2 * n)`, internal
    node `i` in `[1, n)` with children `2 * i` and `2 * i + 1`, and the in-place
    procedures that build the internal nodes and repair them after a leaf write. */
module TreeLayout {
  import opened Folds

  ghost predicate IsPow2(n: int)
    decreases n
  {
    n == 1 || (n >= 2 && n % 2 == 0 && IsPow2(n / 2))
  }

  /** Of two powers of two, one below twice the other is at most the other. */
  lemma {:induction false} Pow2Order(m: int, n: int)
    requires IsPow2(m) && IsPow2(n) && m < 2 * n
    ensures m <= n
    decreases n
  {
    if n != 1 && m != 1 {
      Pow2Order(m / 2, n / 2);
    }
  }

  /** The capacity loop of the constructors: the smallest power of two
      strictly greater than `len`. */
  method PaddedCapacity(len: nat) returns (n: nat)
    ensures IsPow2(n) && len < n
    ensures forall m :: IsPow2(m) && len < m ==> n <= m
  {
    n := 1;
    while n <= len
      invariant IsPow2(n)
      invariant forall m :: IsPow2(m) && m < n ==> m <= len
    {
      forall m | IsPow2(m) && m < 2 * n
        ensures m <= len
      {
        Pow2Order(m, n);
      }
      n := 2 * n;
    }
  }

  /** Internal node `i` holds `op` of its two children. */
  ghost predicate NodeOk<T>(a: seq<T>, op: (T, T) -> T, i: int) {
    1 <= i && 2 * i + 1 < |a| && a[i] == op(a[2 * i], a[2 * i + 1])
  }

  /** Every internal node holds `op` of its two children. */
  ghost predicate NodesValid<T>(a: seq<T>, n: nat, op: (T, T) -> T) {
    |a| == 2 * n && forall i :: 1 <= i < n ==> NodeOk(a, op, i)
  }

  lemma ChildSpan(i: int, w: int)
    requires w % 2 == 0
    ensures (2 * i) * (w / 2) == i * w
    ensures (2 * i + 1) * (w / 2) == i * w + w / 2
    ensures (2 * i + 2) * (w / 2) == (i + 1) * w
  {
  }

  /** The first leaf of a child of node `p` (width `w`) at width `h = w / 2`. */
  lemma ChildFirst(p: int, w: int, child: int, h: int)
    requires w == 2 * h && (child == 2 * p || child == 2 * p + 1)
    ensures child * h == p * w + (if child == 2 * p then 0 else h)
    ensures (child + 1) * h == child * h + h
  {
  }

  /** `k * w` by repeated addition: loop invariants name the first and last
      leaves of a node through it, so that the loops themselves stay linear. */
  ghost function Times(k: nat, w: nat): nat
    decreases w
  {
    if w == 0 then 0 else Times(k, w - 1) + k
  }

  lemma {:induction false} TimesIsProduct(k: nat, w: nat)
    ensures Times(k, w) == k * w
    decreases w
  {
    if w > 0 {
      TimesIsProduct(k, w - 1);
    }
  }

  /** `ChildFirst` stated through `Times`. */
  lemma ChildTimes(k: nat, w: nat, child: nat, h: nat)
    requires w == 2 * h && (child == 2 * k || child == 2 * k + 1)
    ensures Times(child, h) == Times(k, w) + (if child == 2 * k then 0 else h)
    ensures Times(child + 1, h) == Times(child, h) + h
  {
    TimesIsProduct(k, w);
    TimesIsProduct(child, h);
    TimesIsProduct(child + 1, h);
    ChildFirst(k, w, child, h);
  }

  /** Node `i`, whose subtree has `w` leaves, holds the fold of those leaves:
      `a[i * w .. (i + 1) * w]`. */
  lemma {:induction false} NodeFold<T(!new)>(a: seq<T>, n: nat, op: (T, T) -> T, id: T, i: nat, w: nat)
    requires NodesValid(a, n, op) && IsCommMonoid(op, id) && IsPow2(w)
    requires n <= i * w && (i + 1) * w <= 2 * n
    ensures a[i] == FoldRange(op, id, a, i * w, (i + 1) * w)
    decreases w
  {
    if w == 1 {
      LeftId(op, id, a[i]);
    } else {
      var h := w / 2;
      var first, mid, last := i * w, i * w + h, (i + 1) * w;
      ChildSpan(i, w);
      BoundsOfInternal(i, w, n);
      assert NodeOk(a, op, i);
      NodeFold(a, n, op, id, 2 * i, h);
      NodeFold(a, n, op, id, 2 * i + 1, h);
      FoldRangeSplit(op, id, a, first, mid, last);
    }
  }

  /** A node whose subtree has at least two leaves is internal. */
  lemma BoundsOfInternal(i: nat, w: nat, n: nat)
    requires w >= 2 && n <= i * w && (i + 1) * w <= 2 * n
    ensures 1 <= i < n
  {
    assert (i + 1) * w >= (i + 1) * 2;
  }

  /** A range ending where the leaves of node `i` (the `w` leaves from
      `first`) end folds to the range before them combined with `a[i]`. */
  lemma AppendNode<T(!new)>(a: seq<T>, n: nat, op: (T, T) -> T, id: T, i: nat, w: nat, first: nat, from: nat, to: nat)
    requires NodesValid(a, n, op) && IsCommMonoid(op, id) && IsPow2(w)
    requires first == i * w && n <= first && to == first + w <= 2 * n && from <= first
    ensures FoldRange(op, id, a, from, to) == op(FoldRange(op, id, a, from, first), a[i])
  {
    assert (i + 1) * w == to;
    NodeFold(a, n, op, id, i, w);
    FoldRangeSplit(op, id, a, from, first, to);
  }

  /** A range starting where the leaves of node `i` start folds to `a[i]`
      combined, in either order, with the range after them. */
  lemma PrependNode<T(!new)>(a: seq<T>, n: nat, op: (T, T) -> T, id: T, i: nat, w: nat, first: nat, next: nat, to: nat)
    requires NodesValid(a, n, op) && IsCommMonoid(op, id) && IsPow2(w)
    requires first == i * w && n <= first && next == first + w <= to <= 2 * n
    ensures FoldRange(op, id, a, first, to) == op(FoldRange(op, id, a, next, to), a[i])
  {
    assert (i + 1) * w == next;
    NodeFold(a, n, op, id, i, w);
    FoldRangeSplit(op, id, a, first, next, to);
    Comm(op, id, a[i], FoldRange(op, id, a, next, to));
  }

  /** `j` is a strict ancestor of node `k` (reached by halving `k` at least once). */
  ghost predicate IsAncestor(j: int, k: int)
    decreases k
  {
    k > 1 && (k / 2 == j || IsAncestor(j, k / 2))
  }

  lemma {:induction false} AncestorStep(i: int, k: int)
    requires IsAncestor(i, k) && i > 1
    ensures IsAncestor(i / 2, k)
    decreases k
  {
    if k / 2 != i {
      AncestorStep(i, k / 2);
    }
  }

  /** `_update(parent)` / `update(parent)`: recompute one internal node from its children. */
  method UpdateNode<T>(A: array<T>, op: (T, T) -> T, parent: nat)
    requires 1 <= parent && 2 * parent + 1 < A.Length
    modifies A
    ensures A[parent] == op(A[2 * parent], A[2 * parent + 1])
    ensures forall j :: 0 <= j < A.Length && j != parent ==> A[j] == old(A[j])
  {
    var leftChild := 2 * parent;
    A[parent] := op(A[leftChild], A[leftChild + 1]);
  }

  /** The construction loop: update nodes `n - 1` down to `1`. */
  method BuildNodes<T>(A: array<T>, n: nat, op: (T, T) -> T)
    requires n >= 1 && A.Length == 2 * n
    modifies A
    ensures NodesValid(A[..], n, op)
    ensures A[0] == old(A[0]) && A[n..] == old(A[n..])
  {
    var i := n - 1;
    while i >= 1
      invariant 0 <= i < n
      invariant forall j :: i < j < n ==> NodeOk(A[..], op, j)
      invariant A[0] == old(A[0]) && A[n..] == old(A[n..])
    {
      ghost var before := A[..];
      UpdateNode(A, op, i);
      forall j | i < j < n
        ensures NodeOk(A[..], op, j)
      {
        assert NodeOk(before, op, j);
      }
      assert NodeOk(A[..], op, i);
      i := i - 1;
    }
  }

  /** The loop of a point write: after leaf `leaf` was written, update its
      ancestors `leaf >> 1, leaf >> 2, ..., 1`. Only those nodes change. */
  method PropagateUp<T>(A: array<T>, n: nat, op: (T, T) -> T, leaf: nat)
    requires A.Length == 2 * n && n <= leaf < 2 * n
    requires forall j :: 1 <= j < n && j != leaf / 2 ==> NodeOk(A[..], op, j)
    modifies A
    ensures NodesValid(A[..], n, op)
    ensures forall j :: 0 <= j < A.Length && !IsAncestor(j, leaf) ==> A[j] == old(A[j])
    ensures A[n..] == old(A[n..])
  {
    var i := leaf / 2;
    while i != 0
      invariant 0 <= i < n
      invariant i != 0 ==> IsAncestor(i, leaf)
      invariant forall j :: 1 <= j < n && j != i ==> NodeOk(A[..], op, j)
      invariant forall j :: 0 <= j < A.Length && !IsAncestor(j, leaf) ==> A[j] == old(A[j])
      invariant A[n..] == old(A[n..])
      decreases i
    {
      ghost var before := A[..];
      UpdateNode(A, op, i);
      forall j | 1 <= j < n && j != i && j != i / 2
        ensures NodeOk(A[..], op, j)
      {
        assert NodeOk(before, op, j);
      }
      assert NodeOk(A[..], op, i);
      if i > 1 {
        AncestorStep(i, leaf);
      }
      i := i / 2;
    }
  }

  /** A point write: store `value` in leaf slot `leaf`, then update the
      ancestors. The node invariant is restored, the leaf is replaced, and
      only the leaf's slot and its ancestors change. */
  method WriteLeaf<T>(A: array<T>, n: nat, op: (T, T) -> T, leaf: nat, value: T)
    requires NodesValid(A[..], n, op) && n <= leaf < 2 * n
    modifies A
    ensures NodesValid(A[..], n, op)
    ensures A[n..] == old(A[n..])[leaf - n := value]
    ensures forall j :: 0 <= j < A.Length && j != leaf && !IsAncestor(j, leaf) ==> A[j] == old(A[j])
  {
    ghost var before := A[..];
    A[leaf] := value;
    ghost var written := A[..];
    forall j | 1 <= j < n && j != leaf / 2
      ensures NodeOk(A[..], op, j)
    {
      assert NodeOk(before, op, j);
    }
    PropagateUp(A, n, op, leaf);
    assert A[n..] == written[n..];
  }
}
