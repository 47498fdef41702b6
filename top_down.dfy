/** segment_tree_full_top_down.py: a segment tree over any operator `op`
    with padding value `default`, whose range query walks two boundaries
    down from the root. */
module TopDown {
  import opened Results
  import opened Folds
  import opened TreeLayout

  function Min(a: int, b: int): int { if a <= b then a else b }

  /** `_get_start_end` for non-negative bounds: the inclusive absolute leaf
      indices of the slice `[s:e]`, or the failure of `assert start <= end`. */
  function StartEnd(n: nat, s: nat, e: nat): (r: Result<(nat, nat)>)
    ensures r.Ok? <==> s < e
    ensures r.Ok? ==> r.value.0 - n == s && r.value.1 - r.value.0 + 1 == e - s
  {
    var start := s + n;
    var end := n - 1 + e;
    if start <= end then Ok((start, end)) else Err(AssertionError)
  }

  /** The last step of the walk: with `total` the fold strictly between the
      boundary leaves `lo` and `hi`, combining `a[hi]` and then `a[lo]` gives the
      fold from `lo` to `hi`, except that a single boundary leaf is combined twice. */
  lemma FinalCombine<T(!new)>(a: seq<T>, n: nat, op: (T, T) -> T, id: T, lo: nat, hi: nat, total: T)
    requires NodesValid(a, n, op) && IsCommMonoid(op, id)
    requires n <= lo <= hi < 2 * n
    requires total == if lo == hi then id else FoldRange(op, id, a, lo + 1, hi)
    ensures op(op(total, a[hi]), a[lo]) ==
            if lo == hi then op(a[lo], a[lo]) else FoldRange(op, id, a, lo, hi + 1)
  {
    if lo == hi {
      LeftId(op, id, a[hi]);
    } else {
      var inner := FoldRange(op, id, a, lo + 1, hi + 1);
      AppendNode(a, n, op, id, hi, 1, hi, lo + 1, hi + 1);
      assert inner == op(total, a[hi]);
      PrependNode(a, n, op, id, lo, 1, lo, lo + 1, hi + 1);
      assert FoldRange(op, id, a, lo, hi + 1) == op(inner, a[lo]);
    }
  }

  /** While the right boundary's subtree root `q` is internal, the subtree
      width `cut` is even. */
  lemma InternalLevel(p: nat, q: nat, cut: nat, n: nat)
    requires IsPow2(cut) && 1 <= p <= q < n && n <= p * cut
    ensures cut >= 2 && cut % 2 == 0 && IsPow2(cut / 2)
  {
    assert cut == 1 ==> p * cut == p;
  }

  /** Once `q` is a leaf (`q >= n`), the subtree width is one leaf. */
  lemma LeafLevel(q: nat, cut: nat, n: nat)
    requires IsPow2(cut) && n <= q && (q + 1) * cut <= 2 * n
    ensures cut == 1
  {
    assert cut >= 2 ==> (q + 1) * cut >= (q + 1) * 2;
  }

  /** Where the two boundaries of the range query stand: `p` and `q` are the
      subtree roots holding the leaves `start` and `last`, `cut` their common
      width, `lIdx` the first leaf under `p` and `rIdx` the last leaf under `q`. */
  ghost predicate Frame(n: nat, start: nat, last: nat, p: nat, q: nat, cut: nat, lIdx: nat, rIdx: nat)
  {
    1 <= p <= q && IsPow2(cut) && lIdx == Times(p, cut) && rIdx + 1 == Times(q + 1, cut) &&
    n <= lIdx <= start < lIdx + cut && start <= last &&
    rIdx - cut < last <= rIdx < 2 * n &&
    (p == q ==> rIdx == lIdx + cut - 1) &&
    (p < q ==> lIdx + cut <= rIdx - cut + 1)
  }

  /** Above the leaves, each boundary subtree splits into two halves of width `cut / 2`. */
  lemma FrameHalves(n: nat, start: nat, last: nat, p: nat, q: nat, cut: nat, lIdx: nat, rIdx: nat)
    requires Frame(n, start, last, p, q, cut, lIdx, rIdx) && q < n
    ensures cut >= 2 && cut == 2 * (cut / 2) && IsPow2(cut / 2)
    ensures rIdx - cut + 1 == Times(q, cut)
  {
    TimesIsProduct(q, cut);
    TimesIsProduct(p, cut);
    TimesIsProduct(q + 1, cut);
    InternalLevel(p, q, cut, n);
    assert (q + 1) * cut == q * cut + cut;
  }

  /** What the query has combined so far: nothing while both boundaries share
      one subtree, otherwise every leaf strictly between the two boundary subtrees. */
  ghost predicate Collected<T>(a: seq<T>, op: (T, T) -> T, id: T, p: nat, q: nat, cut: nat,
                               lIdx: nat, rIdx: nat, total: T)
  {
    if p == q then total == id
    else lIdx + cut <= rIdx - cut + 1 <= |a| && total == FoldRange(op, id, a, lIdx + cut, rIdx - cut + 1)
  }

  /** When the left boundary moves into the left child of `p0`, the right
      child of `p0` joins the front of the collected range. */
  lemma RightChildOfLeft<T(!new)>(a: seq<T>, n: nat, op: (T, T) -> T, id: T,
                                  p0: nat, cut0: nat, l0: nat, between: nat, total0: T)
    requires NodesValid(a, n, op) && IsCommMonoid(op, id)
    requires l0 == Times(p0, cut0) && cut0 == 2 * (cut0 / 2) && IsPow2(cut0 / 2) && n <= l0 && l0 + cut0 <= between <= 2 * n
    requires total0 == FoldRange(op, id, a, l0 + cut0, between)
    ensures 2 * p0 + 1 < |a|
    ensures op(total0, a[2 * p0 + 1]) == FoldRange(op, id, a, l0 + cut0 / 2, between)
  {
    var cut := cut0 / 2;
    TimesIsProduct(p0, cut0);
    ChildFirst(p0, cut0, 2 * p0 + 1, cut);
    PrependNode(a, n, op, id, 2 * p0 + 1, cut, l0 + cut, l0 + 2 * cut, between);
  }

  /** When the right boundary moves into the right child of `q0`, whose first
      leaf is `between`, the left child of `q0` joins the back of the collected range. */
  lemma LeftChildOfRight<T(!new)>(a: seq<T>, n: nat, op: (T, T) -> T, id: T,
                                  q0: nat, cut0: nat, between: nat, from: nat, t: T)
    requires NodesValid(a, n, op) && IsCommMonoid(op, id)
    requires between == Times(q0, cut0) && cut0 == 2 * (cut0 / 2) && IsPow2(cut0 / 2) && n <= from <= between && between + cut0 <= 2 * n
    requires t == FoldRange(op, id, a, from, between)
    ensures 2 * q0 < |a|
    ensures op(t, a[2 * q0]) == FoldRange(op, id, a, from, between + cut0 / 2)
  {
    var cut := cut0 / 2;
    TimesIsProduct(q0, cut0);
    ChildFirst(q0, cut0, 2 * q0, cut);
    AppendNode(a, n, op, id, 2 * q0, cut, between, from, between + cut);
  }

  /** The boundaries halfway through one level of descent: the left boundary
      `p` has moved down to width `cut`, the right one `q0` is still at width
      `2 * cut`, and `apart` says whether they were in different subtrees. */
  ghost predicate Midway(n: nat, start: nat, last: nat, p: nat, q0: nat, cut: nat, lIdx: nat, rIdx: nat, apart: bool)
  {
    2 <= p && 1 <= q0 < n && IsPow2(cut) &&
    lIdx == Times(p, cut) && n <= lIdx <= start < lIdx + cut && start <= last &&
    rIdx + 1 == Times(q0 + 1, 2 * cut) && rIdx - 2 * cut + 1 == Times(q0, 2 * cut) &&
    rIdx - 2 * cut < last <= rIdx < 2 * n &&
    (apart ==> p < 2 * q0 && lIdx + cut <= rIdx - 2 * cut + 1) &&
    (!apart ==> p / 2 == q0)
  }

  /** What the query has combined halfway through one level of descent. */
  ghost predicate CollectedMidway<T>(a: seq<T>, op: (T, T) -> T, id: T, cut: nat, lIdx: nat, rIdx: nat,
                                     apart: bool, total: T)
  {
    if apart then lIdx + cut <= rIdx - 2 * cut + 1 <= |a| && total == FoldRange(op, id, a, lIdx + cut, rIdx - 2 * cut + 1)
    else total == id
  }

  /** The left half of one level of descent: the left boundary moves to the
      half of its subtree that holds `start`; when that is the left half and
      the boundaries are apart, the right half joins the collected range. */
  lemma LeftDescent<T(!new)>(a: seq<T>, n: nat, op: (T, T) -> T, id: T, start: nat, last: nat,
                             p0: nat, q0: nat, cut0: nat, l0: nat, r0: nat, total0: T,
                             p: nat, l: nat, total: T)
    requires NodesValid(a, n, op) && IsCommMonoid(op, id)
    requires Frame(n, start, last, p0, q0, cut0, l0, r0) && q0 < n
    requires Collected(a, op, id, p0, q0, cut0, l0, r0, total0)
    requires p == (if start >= l0 + cut0 / 2 then 2 * p0 + 1 else 2 * p0)
    requires l == (if start >= l0 + cut0 / 2 then l0 + cut0 / 2 else l0)
    requires total == if start >= l0 + cut0 / 2 || p0 == q0 then total0 else op(total0, a[2 * p0 + 1])
    ensures Midway(n, start, last, p, q0, cut0 / 2, l, r0, p0 != q0)
    ensures CollectedMidway(a, op, id, cut0 / 2, l, r0, p0 != q0, total)
  {
    FrameHalves(n, start, last, p0, q0, cut0, l0, r0);
    ChildTimes(p0, cut0, p, cut0 / 2);
    if p0 == q0 {
      assert total == id;
    } else if start < l0 + cut0 / 2 {
      RightChildOfLeft(a, n, op, id, p0, cut0, l0, r0 - cut0 + 1, total0);
    } else {
      assert l + cut0 / 2 == l0 + cut0;
    }
  }

  /** The boundary frame after the right half of one level of descent. */
  lemma RightFrame(n: nat, start: nat, last: nat, p: nat, q0: nat, cut: nat, l: nat, r0: nat, apart: bool,
                   q: nat, r: nat)
    requires Midway(n, start, last, p, q0, cut, l, r0, apart)
    requires q == (if last <= r0 - cut then 2 * q0 else 2 * q0 + 1)
    requires r == (if last <= r0 - cut then r0 - cut else r0)
    ensures Frame(n, start, last, p, q, cut, l, r)
    ensures !apart ==> p == q || l + cut == r - cut + 1
    ensures apart ==> p < q && r - cut + 1 == r0 - 2 * cut + 1 + (if last <= r0 - cut then 0 else cut)
  {
    ChildTimes(q0, 2 * cut, q, cut);
    if !apart {
      ChildTimes(q0, 2 * cut, p, cut);
    }
  }

  /** The right half of one level of descent: the right boundary moves to the
      half of its subtree that holds `last`; when that is the right half and
      the boundaries are apart, the left half joins the collected range. */
  lemma RightDescent<T(!new)>(a: seq<T>, n: nat, op: (T, T) -> T, id: T, start: nat, last: nat,
                              p: nat, q0: nat, cut: nat, l: nat, r0: nat, apart: bool, total0: T,
                              q: nat, r: nat, total: T)
    requires NodesValid(a, n, op) && IsCommMonoid(op, id)
    requires Midway(n, start, last, p, q0, cut, l, r0, apart)
    requires CollectedMidway(a, op, id, cut, l, r0, apart, total0)
    requires q == (if last <= r0 - cut then 2 * q0 else 2 * q0 + 1)
    requires r == (if last <= r0 - cut then r0 - cut else r0)
    requires total == if last <= r0 - cut || !apart then total0 else op(total0, a[2 * q0])
    ensures Frame(n, start, last, p, q, cut, l, r)
    ensures Collected(a, op, id, p, q, cut, l, r, total)
  {
    RightFrame(n, start, last, p, q0, cut, l, r0, apart, q, r);
    if apart && last > r0 - cut {
      var between := r0 - 2 * cut + 1;  // the first leaf under q0
      LeftChildOfRight(a, n, op, id, q0, 2 * cut, between, l + cut, total0);
    }
  }

  /** When the right boundary reaches the leaves, both boundaries are single leaves. */
  lemma FrameAtLeaves(n: nat, start: nat, last: nat, p: nat, q: nat, cut: nat, lIdx: nat, rIdx: nat)
    requires Frame(n, start, last, p, q, cut, lIdx, rIdx) && n <= q
    ensures cut == 1 && lIdx == p && rIdx == q
  {
    TimesIsProduct(p, cut);
    TimesIsProduct(q + 1, cut);
    LeafLevel(q, cut, n);
  }

  class SegmentTree<T(!new)> {
    const op: (T, T) -> T
    const default: T
    const n: nat
    const A: array<T>

    ghost predicate Valid()
      reads A
    {
      A.Length == 2 * n && IsPow2(n) && NodesValid(A[..], n, op)
    }

    /** The logical values: the leaves `A[n..2n]`. */
    ghost function Leaves(): seq<T>
      reads A
      requires A.Length == 2 * n
    {
      A[n..]
    }

    /** `__init__`: pad `values` with `default` up to the capacity, then build. */
    constructor (values: seq<T>, op: (T, T) -> T, default: T)
      ensures Valid() && fresh(A)
      ensures |values| < n && forall m :: IsPow2(m) && |values| < m ==> n <= m
      ensures Leaves() == values + seq(n - |values|, _ => default)
      ensures this.op == op && this.default == default
    {
      var cap := PaddedCapacity(|values|);
      this.op := op;
      this.default := default;
      n := cap;
      A := new T[2 * cap](i => if cap <= i < cap + |values| then values[i - cap] else default);
      new;
      ghost var leaves := A[n..];
      assert leaves == values + seq(n - |values|, _ => default);
      BuildNodes(A, n, op);
    }

    /** `t[idx]` for an integer `idx`. */
    method Get(idx: nat) returns (r: Result<T>)
      requires Valid()
      ensures r == if idx < n then Ok(Leaves()[idx]) else Err(IndexError)
    {
      if n + idx >= A.Length {
        return Err(IndexError);
      }
      r := Ok(A[n + idx]);
    }

    /** `t[idx] = value`: write the leaf, then repair its ancestors. */
    method Set(idx: nat, value: T) returns (r: Result<()>)
      requires Valid()
      modifies A
      ensures Valid()
      ensures r == if idx < n then Ok(()) else Err(IndexError)
      ensures Leaves() == if idx < n then old(Leaves())[idx := value] else old(Leaves())
      ensures forall j :: 0 <= j < A.Length && j != n + idx && !IsAncestor(j, n + idx) ==> A[j] == old(A[j])
    {
      var i := idx + n;
      if i >= A.Length {
        return Err(IndexError);
      }
      WriteLeaf(A, n, op, i, value);
      r := Ok(());
    }

    /** The descent of the range query (the `while` loop of `__getitem__`):
        `lo` and `hi` go down one level per iteration from the root towards the
        leaves `start` and `end` (the latter clamped to the last leaf), `lIdx` and
        `rIdx` are the first leaf under `lo` and the last leaf under `hi`, `cut` is
        their subtree width, and `total` collects every whole subtree strictly
        between the two boundaries. */
    method Descend(start: nat, end: nat) returns (lo: nat, hi: nat, total: T)
      requires Valid() && IsCommMonoid(op, default)
      requires n <= start < end && start < A.Length
      ensures lo == start && hi == Min(end, A.Length - 1)
      ensures total == if lo == hi then default else FoldRange(op, default, A[..], lo + 1, hi)
    {
      ghost var a := A[..];
      var cut := n;
      var lIdx: nat := n;             // first leaf under lo
      var rIdx: nat := A.Length - 1;  // last leaf under hi
      ghost var last: nat := Min(end, A.Length - 1);
      ghost var p, q := 1, 1;    // the subtree roots lo and hi, before the loop test doubles them
      lo, hi := 2, 2;
      total := default;
      TimesIsProduct(1, cut);
      TimesIsProduct(2, cut);
      while lo <= hi < A.Length
        invariant lo == 2 * p && hi == 2 * q
        invariant Frame(n, start, last, p, q, cut, lIdx, rIdx)
        invariant Collected(a, op, default, p, q, cut, lIdx, rIdx, total)
        decreases A.Length - hi
      {
        lo, hi, cut, lIdx, rIdx, total := DescendLevel(start, end, a, last, p, q, lo, hi, cut, lIdx, rIdx, total);
        p, q := lo, hi;
        lo, hi := 2 * lo, 2 * hi;
      }
      FrameAtLeaves(n, start, last, p, q, cut, lIdx, rIdx);
      lo, hi := lo / 2, hi / 2;
      assert lIdx == lo && rIdx == hi;
    }

    /** One iteration of the descent's loop body: `lo` and `hi` are the left
        and right children of the boundary subtrees `p` and `q`; each boundary
        moves to the child that holds its leaf, and the sibling it leaves
        behind between the boundaries joins `total`. */
    method DescendLevel(start: nat, end: nat, ghost a: seq<T>, ghost last: nat, ghost p: nat, ghost q: nat,
                        lo: nat, hi: nat, cut: nat, lIdx: nat, rIdx: nat, total: T)
      returns (lo': nat, hi': nat, cut': nat, lIdx': nat, rIdx': nat, total': T)
      requires Valid() && IsCommMonoid(op, default) && a == A[..]
      requires last == Min(end, A.Length - 1) && lo == 2 * p && hi == 2 * q && hi < A.Length
      requires Frame(n, start, last, p, q, cut, lIdx, rIdx)
      requires Collected(a, op, default, p, q, cut, lIdx, rIdx, total)
      ensures Frame(n, start, last, lo', hi', cut', lIdx', rIdx')
      ensures Collected(a, op, default, lo', hi', cut', lIdx', rIdx', total')
      ensures hi <= hi'
    {
      FrameHalves(n, start, last, p, q, cut, lIdx, rIdx);
      cut' := cut / 2;
      var differentSubtrees := hi != lo;
      lo', hi', lIdx', rIdx', total' := lo, hi + 1, lIdx, rIdx, total;
      if start >= lIdx + cut' {
        lIdx' := lIdx + cut';
        lo' := lo + 1;
      } else if differentSubtrees {
        total' := op(total, A[lo + 1]);
      }
      LeftDescent(a, n, op, default, start, last, p, q, cut, lIdx, rIdx, total, lo', lIdx', total');
      ghost var total1 := total';
      if end <= rIdx - cut' {
        rIdx' := rIdx - cut';
        hi' := hi' - 1;
      } else if differentSubtrees {
        total' := op(total', A[hi' - 1]);
      }
      RightDescent(a, n, op, default, start, last, lo', q, cut', lIdx', rIdx, differentSubtrees, total1, hi', rIdx', total');
    }

    /** `t[s:e]` for non-negative integer bounds. With the last leaf alone in
        the clamped range (`s == n - 1 < e - 1`), that leaf is combined twice. */
    method Query(s: nat, e: nat) returns (r: Result<T>)
      requires Valid() && IsCommMonoid(op, default)
      ensures s >= e ==> r == Err(AssertionError)
      ensures e == s + 1 ==> r == if s < n then Ok(Leaves()[s]) else Err(IndexError)
      ensures e > s + 1 && s >= n ==> r == Ok(default)
      ensures e > s + 1 && s < n - 1 ==> r == Ok(Fold(op, default, Leaves()[s .. Min(e, n)]))
      ensures e > s + 1 && s == n - 1 ==> r == Ok(op(Leaves()[s], Leaves()[s]))
    {
      var bounds := StartEnd(n, s, e);
      if bounds.Err? {
        return Err(bounds.error);
      }
      var start, end := bounds.value.0, bounds.value.1;
      if start == end {
        r := Get(start - n);
        return;
      }
      var total := default;
      if start >= A.Length || end < n {
        return Ok(total);
      }
      var lo, hi;
      lo, hi, total := Descend(start, end);
      FinalCombine(A[..], n, op, default, lo, hi, total);
      total := op(op(total, A[hi]), A[lo]);
      if lo < hi {
        FoldRangeIsFold(op, default, A[..], lo, hi + 1);
        SliceOfSuffix(A[..], n, s, Min(e, n));
      }
      r := Ok(total);
    }

    /** `t[s:e]` with the last step corrected: when the two boundaries meet
        at one leaf, that leaf is combined once. Every non-empty range that
        starts inside the tree then folds exactly the leaves it covers. */
    method QueryCorrected(s: nat, e: nat) returns (r: Result<T>)
      requires Valid() && IsCommMonoid(op, default)
      ensures s >= e ==> r == Err(AssertionError)
      ensures e == s + 1 && s >= n ==> r == Err(IndexError)
      ensures e > s + 1 && s >= n ==> r == Ok(default)
      ensures s < e && s < n ==> r == Ok(Fold(op, default, Leaves()[s .. Min(e, n)]))
    {
      var bounds := StartEnd(n, s, e);
      if bounds.Err? {
        return Err(bounds.error);
      }
      var start, end := bounds.value.0, bounds.value.1;
      if start == end {
        r := Get(start - n);
        if s < n {
          LeftId(op, default, A[start]);
          assert Leaves()[s .. Min(e, n)] == [A[start]];
        }
        return;
      }
      var total := default;
      if start >= A.Length || end < n {
        return Ok(total);
      }
      var lo, hi;
      lo, hi, total := Descend(start, end);
      if lo == hi {
        total := op(total, A[lo]);
      } else {
        FinalCombine(A[..], n, op, default, lo, hi, total);
        total := op(op(total, A[hi]), A[lo]);
      }
      FoldRangeIsFold(op, default, A[..], lo, hi + 1);
      assert lo == n + s && hi + 1 == n + Min(e, n);
      SliceOfSuffix(A[..], n, s, Min(e, n));
      r := Ok(total);
    }
  }

  /** The double count, on concrete values: over the values `[1, 2, 3]` with
      addition the capacity is four leaves; after `t[3] = 5` the slice `t[3:5]`
      covers the single leaf 5, yet the query as written returns 10. */
  method DoubleCountWitness() returns (asWritten: Result<int>, corrected: Result<int>)
    ensures asWritten == Ok(10) && corrected == Ok(5)
  {
    var add := (x: int, y: int) => x + y;
    AdditionIsCommMonoid(add);
    var t := new SegmentTree([1, 2, 3], add, 0);
    assert IsPow2(4);
    var _ := t.Set(3, 5);
    asWritten := t.Query(3, 5);
    corrected := t.QueryCorrected(3, 5);
  }
}
