/** Folding a sequence of values with a binary operator, the reference
    against which every range query of the trees is stated. */
module Folds {

  /** `op` applied to `a` and `b`; the laws below are stated on this term so
      that they are used only where a proof asks for them (see Assoc, Comm, LeftId). */
  ghost function Combine<T>(op: (T, T) -> T, a: T, b: T): T {
    op(a, b)
  }

  /** `op` is associative and commutative and `id` is its identity. */
  ghost predicate IsCommMonoid<T(!new)>(op: (T, T) -> T, id: T) {
    (forall a, b, c {:trigger Combine(op, Combine(op, a, b), c)} ::
       Combine(op, Combine(op, a, b), c) == Combine(op, a, Combine(op, b, c))) &&
    (forall a, b {:trigger Combine(op, a, b)} :: Combine(op, a, b) == Combine(op, b, a)) &&
    (forall a {:trigger Combine(op, id, a)} :: Combine(op, id, a) == a)
  }

  lemma Assoc<T(!new)>(op: (T, T) -> T, id: T, a: T, b: T, c: T)
    requires IsCommMonoid(op, id)
    ensures op(op(a, b), c) == op(a, op(b, c))
  {
    assert Combine(op, Combine(op, a, b), c) == Combine(op, a, Combine(op, b, c));
  }

  lemma Comm<T(!new)>(op: (T, T) -> T, id: T, a: T, b: T)
    requires IsCommMonoid(op, id)
    ensures op(a, b) == op(b, a)
  {
    assert Combine(op, a, b) == Combine(op, b, a);
  }

  lemma LeftId<T(!new)>(op: (T, T) -> T, id: T, a: T)
    requires IsCommMonoid(op, id)
    ensures op(id, a) == a
  {
    assert Combine(op, id, a) == a;
  }

  /** `id` combined left to right with every element of `s`. */
  function Fold<T>(op: (T, T) -> T, id: T, s: seq<T>): T
    decreases |s|
  {
    if s == [] then id else op(Fold(op, id, s[..|s| - 1]), s[|s| - 1])
  }

  /** The sum of a sequence of integers. */
  function Sum(s: seq<int>): int
    decreases |s|
  {
    if s == [] then 0 else Sum(s[..|s| - 1]) + s[|s| - 1]
  }

  /** The fold of the slice `s[i..j]`, written on indices so that proofs about
      neighbouring slices compare integers rather than sequences. */
  function FoldRange<T>(op: (T, T) -> T, id: T, s: seq<T>, i: nat, j: nat): T
    requires i <= j <= |s|
    decreases j - i
  {
    if i == j then id else op(FoldRange(op, id, s, i, j - 1), s[j - 1])
  }

  lemma {:induction false} FoldRangeIsFold<T>(op: (T, T) -> T, id: T, s: seq<T>, i: nat, j: nat)
    requires i <= j <= |s|
    ensures FoldRange(op, id, s, i, j) == Fold(op, id, s[i..j])
    decreases j - i
  {
    if i < j {
      FoldRangeIsFold(op, id, s, i, j - 1);
      assert s[i..j][..j - i - 1] == s[i..j - 1];
    }
  }

  /** A fold over `s[i..k]` splits at any `j` in between. */
  lemma {:induction false} FoldRangeSplit<T(!new)>(op: (T, T) -> T, id: T, s: seq<T>, i: nat, j: nat, k: nat)
    requires IsCommMonoid(op, id)
    requires i <= j <= k <= |s|
    ensures FoldRange(op, id, s, i, k) == op(FoldRange(op, id, s, i, j), FoldRange(op, id, s, j, k))
    decreases k - j
  {
    var left := FoldRange(op, id, s, i, j);
    if j == k {
      Comm(op, id, left, id);
      LeftId(op, id, left);
    } else {
      FoldRangeSplit(op, id, s, i, j, k - 1);
      Assoc(op, id, left, FoldRange(op, id, s, j, k - 1), s[k - 1]);
    }
  }

  /** A slice of a suffix is a slice of the whole sequence, shifted. */
  lemma SliceOfSuffix<T>(s: seq<T>, k: nat, i: nat, j: nat)
    requires i <= j && k + j <= |s|
    ensures s[k..][i..j] == s[k + i .. k + j]
  {
  }

  /** Under an operator that agrees with `+` everywhere, the fold from 0 is the sum. */
  lemma {:induction false} FoldIsSum(op: (int, int) -> int, s: seq<int>)
    requires forall a, b :: op(a, b) == a + b
    ensures Fold(op, 0, s) == Sum(s)
    decreases |s|
  {
    if s != [] {
      FoldIsSum(op, s[..|s| - 1]);
    }
  }

  /** An operator that agrees with integer addition, with 0, is a commutative monoid. */
  lemma AdditionIsCommMonoid(op: (int, int) -> int)
    requires forall a, b :: op(a, b) == a + b
    ensures IsCommMonoid(op, 0)
  {
    assert forall a, b :: Combine(op, a, b) == a + b;
  }
}
