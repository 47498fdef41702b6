/** segment_tree_bottom_up.py: a segment tree over integers with a caller's
    operator `op` and zero padding, whose range query climbs from the two
    boundary leaves towards the root. */
module BottomUp {
  import opened Results
  import opened Folds
  import opened TreeLayout

  /** `query.start or 0`. */
  function StartOf(start: Option<nat>): (s: nat)
    ensures start.Some? ==> s == start.value
    ensures start.None? ==> s == 0
  {
    if start.Some? then start.value else 0
  }

  /** `size if query.stop is None else query.stop`. */
  function StopOf(stop: Option<nat>, size: nat): (e: nat)
    ensures stop.Some? ==> e == stop.value
    ensures stop.None? ==> e == size
  {
    if stop.None? then size else stop.value
  }

  /** Where the bottom-up walk stands over the leaves `[first, stop)`: at
      level width `w`, node `lo` starts at leaf `Times(lo, w)` and node `hi`
      ends at leaf `Times(hi + 1, w)`; `total` holds the fold of the leaves
      already passed on the left, `[first, Times(lo, w))`, combined with those
      passed on the right, `[Times(hi + 1, w), stop)`. */
  ghost predicate Covered(a: seq<int>, op: (int, int) -> int, size: nat, first: nat, stop: nat,
                          lo: nat, hi: nat, w: nat, total: int)
  {
    |a| == 2 * size && IsPow2(w) &&
    size <= first <= Times(lo, w) <= Times(hi + 1, w) <= stop <= 2 * size && lo <= hi + 1 &&
    total == op(FoldRange(op, 0, a, first, Times(lo, w)), FoldRange(op, 0, a, Times(hi + 1, w), stop))
  }

  /** `Times` grows with its first argument, by `w` per step. */
  lemma {:induction false} TimesMono(j: nat, k: nat, w: nat)
    requires j <= k
    ensures Times(j, w) <= Times(k, w) && Times(k + 1, w) == Times(k, w) + w
    decreases w
  {
    if w > 0 {
      TimesMono(j, k, w - 1);
    }
  }

  /** Node `j` at width `2 w` starts where node `k = 2 j` at width `w` starts. */
  lemma {:induction false} TimesDouble(j: nat, k: nat, w: nat)
    requires k == 2 * j
    ensures Times(j, 2 * w) == Times(k, w)
    decreases w
  {
    if w > 0 {
      TimesDouble(j, k, w - 1);
    }
  }

  /** A right child `lo` on the left boundary is folded in and the boundary moves right. */
  lemma LeftEdge(a: seq<int>, op: (int, int) -> int, size: nat, first: nat, stop: nat,
                 lo: nat, hi: nat, w: nat, total: int)
    requires NodesValid(a, size, op) && IsCommMonoid(op, 0)
    requires Covered(a, op, size, first, stop, lo, hi, w, total) && lo <= hi
    ensures 1 <= lo <= hi < |a|
    ensures Covered(a, op, size, first, stop, lo + 1, hi, w, op(total, a[lo]))
  {
    TimesMono(lo, hi, w);
    TimesMono(lo, lo, w);
    TimesIsProduct(lo, w);
    var left, right := FoldRange(op, 0, a, first, Times(lo, w)), FoldRange(op, 0, a, Times(hi + 1, w), stop);
    AppendNode(a, size, op, 0, lo, w, Times(lo, w), first, Times(lo + 1, w));
    assert op(total, a[lo]) == op(op(left, a[lo]), right) by {
      Assoc(op, 0, left, right, a[lo]);
      Comm(op, 0, right, a[lo]);
      Assoc(op, 0, left, a[lo], right);
    }
  }

  /** A left child `hi` on the right boundary is folded in and the boundary moves left. */
  lemma RightEdge(a: seq<int>, op: (int, int) -> int, size: nat, first: nat, stop: nat,
                  lo: nat, hi: nat, w: nat, total: int)
    requires NodesValid(a, size, op) && IsCommMonoid(op, 0)
    requires Covered(a, op, size, first, stop, lo, hi, w, total) && lo <= hi
    ensures 1 <= lo <= hi < |a|
    ensures Covered(a, op, size, first, stop, lo, hi - 1, w, op(total, a[hi]))
  {
    TimesMono(lo, hi, w);
    TimesIsProduct(lo, w);
    TimesIsProduct(hi, w);
    var left, right := FoldRange(op, 0, a, first, Times(lo, w)), FoldRange(op, 0, a, Times(hi + 1, w), stop);
    PrependNode(a, size, op, 0, hi, w, Times(hi, w), Times(hi + 1, w), stop);
    Assoc(op, 0, left, right, a[hi]);
  }

  /** The query's loop invariant over the leaves `[s, e)`: a reversed range
      never enters the loop and keeps `total` at 0. */
  ghost predicate Progress(a: seq<int>, op: (int, int) -> int, size: nat, s: nat, e: nat,
                           lo: nat, hi: nat, w: nat, total: int)
  {
    if s <= e then Covered(a, op, size, s + size, e + size, lo, hi, w, total)
    else hi < lo && total == 0
  }

  /** Both boundaries on the outer sides of their parents: climb one level. */
  lemma Climb(a: seq<int>, op: (int, int) -> int, size: nat, s: nat, e: nat,
              lo: nat, hi: nat, w: nat, total: int)
    requires s <= e && Covered(a, op, size, s + size, e + size, lo, hi, w, total)
    requires lo % 2 == 0 && hi % 2 == 1
    ensures Progress(a, op, size, s, e, lo / 2, hi / 2, 2 * w, total)
  {
    var i, j := lo / 2, hi / 2;
    TimesDouble(i, lo, w);
    TimesDouble(j + 1, hi + 1, w);
    assert IsPow2(2 * w);
    assert Covered(a, op, size, s + size, e + size, i, j, 2 * w, total);
  }

  /** The boundary nodes lie in the tree, below the root's dummy slot 0. */
  lemma InTree(a: seq<int>, op: (int, int) -> int, size: nat, first: nat, stop: nat,
               lo: nat, hi: nat, w: nat, total: int)
    requires Covered(a, op, size, first, stop, lo, hi, w, total)
    ensures 1 <= lo && hi < |a|
  {
    TimesIsProduct(0, w);
    TimesMono(hi, hi, w);
    TimesIsProduct(hi + 1, w);
  }

  /** The left boundary test of one level: `lo` is folded in and stepped
      over when it is a right child, and is a left child afterwards. */
  lemma LeftStep(a: seq<int>, op: (int, int) -> int, size: nat, first: nat, stop: nat,
                 lo: nat, hi: nat, w: nat, total: int)
    requires NodesValid(a, size, op) && IsCommMonoid(op, 0)
    requires Covered(a, op, size, first, stop, lo, hi, w, total) && lo <= hi
    ensures 1 <= lo <= hi < |a|
    ensures var lo1 := if lo % 2 == 1 then lo + 1 else lo;
            var total1 := if lo % 2 == 1 then op(total, a[lo]) else total;
            Covered(a, op, size, first, stop, lo1, hi, w, total1) && lo1 % 2 == 0 &&
            (hi % 2 == 0 ==> lo1 <= hi)
  {
    InTree(a, op, size, first, stop, lo, hi, w, total);
    if lo % 2 == 1 {
      LeftEdge(a, op, size, first, stop, lo, hi, w, total);
      assert (lo + 1) % 2 == 0;
    }
  }

  /** The right boundary test of one level, then the climb: `hi` is folded
      in and stepped over when it is a left child, and both boundaries move
      to their parents. */
  lemma RightStep(a: seq<int>, op: (int, int) -> int, size: nat, s: nat, e: nat,
                  lo: nat, hi: nat, w: nat, total: int)
    requires NodesValid(a, size, op) && IsCommMonoid(op, 0) && s <= e
    requires Covered(a, op, size, s + size, e + size, lo, hi, w, total)
    requires lo % 2 == 0 && (hi % 2 == 0 ==> lo <= hi)
    ensures 1 <= lo && hi < |a|
    ensures var hi1 := if hi % 2 == 0 then hi - 1 else hi;
            var total1 := if hi % 2 == 0 then op(total, a[hi]) else total;
            Progress(a, op, size, s, e, lo / 2, hi1 / 2, 2 * w, total1)
  {
    InTree(a, op, size, s + size, e + size, lo, hi, w, total);
    if hi % 2 == 0 {
      RightEdge(a, op, size, s + size, e + size, lo, hi, w, total);
      Climb(a, op, size, s, e, lo, hi - 1, w, op(total, a[hi]));
    } else {
      Climb(a, op, size, s, e, lo, hi, w, total);
    }
  }

  /** Before the loop the boundaries are the leaves `s + size` and `e + size - 1`. */
  lemma Start(a: seq<int>, op: (int, int) -> int, size: nat, s: nat, e: nat)
    requires IsCommMonoid(op, 0) && |a| == 2 * size && 1 <= size && e <= size
    ensures Progress(a, op, size, s, e, s + size, e + size - 1, 1, 0)
  {
    if s <= e {
      TimesIsProduct(s + size, 1);
      TimesIsProduct(e + size, 1);
      LeftId(op, 0, 0);
    }
  }

  /** Once the boundaries have crossed, the two folds meet: `total` is the
      fold of the leaves `[s, e)`, or 0 for a reversed range. */
  lemma Crossed(a: seq<int>, op: (int, int) -> int, size: nat, s: nat, e: nat,
                lo: nat, hi: nat, w: nat, total: int)
    requires IsCommMonoid(op, 0)
    requires Progress(a, op, size, s, e, lo, hi, w, total) && hi < lo
    ensures total == if s <= e then Fold(op, 0, a[size..][s .. e]) else 0
  {
    if s <= e {
      FoldRangeSplit(op, 0, a, s + size, Times(lo, w), e + size);
      FoldRangeIsFold(op, 0, a, s + size, e + size);
      SliceOfSuffix(a, size, s, e);
    }
  }

  class SegmentTree {
    const op: (int, int) -> int
    const size: nat
    const A: array<int>

    ghost predicate Valid()
      reads A
    {
      A.Length == 2 * size && IsPow2(size) && NodesValid(A[..], size, op)
    }

    /** The logical values: the leaves `A[size..2 size]`. */
    ghost function Leaves(): seq<int>
      reads A
      requires A.Length == 2 * size
    {
      A[size..]
    }

    /** `__init__`: pad `values` with zeros up to the capacity, then build. */
    constructor (values: seq<int>, op: (int, int) -> int)
      ensures Valid() && fresh(A) && this.op == op
      ensures |values| < size && forall m :: IsPow2(m) && |values| < m ==> size <= m
      ensures Leaves() == values + seq(size - |values|, _ => 0)
    {
      var cap := PaddedCapacity(|values|);
      this.op := op;
      size := cap;
      A := new int[2 * cap](i => if cap <= i < cap + |values| then values[i - cap] else 0);
      new;
      ghost var leaves := A[size..];
      assert leaves == values + seq(size - |values|, _ => 0);
      BuildNodes(A, size, op);
    }

    /** `t[i]` for an integer `i`. */
    method Get(idx: nat) returns (r: Result<int>)
      requires Valid()
      ensures r == if idx < size then Ok(Leaves()[idx]) else Err(IndexError)
    {
      if size + idx >= A.Length {
        return Err(IndexError);
      }
      r := Ok(A[size + idx]);
    }

    /** `t[i] = value`: write the leaf, then update every ancestor. */
    method Set(idx: nat, value: int) returns (r: Result<()>)
      requires Valid()
      modifies A
      ensures Valid()
      ensures r == if idx < size then Ok(()) else Err(IndexError)
      ensures Leaves() == if idx < size then old(Leaves())[idx := value] else old(Leaves())
      ensures forall j :: 0 <= j < A.Length && j != size + idx && !IsAncestor(j, size + idx) ==> A[j] == old(A[j])
    {
      var i := idx + size;
      if i >= A.Length {
        return Err(IndexError);
      }
      WriteLeaf(A, size, op, i, value);
      r := Ok(());
    }

    /** One iteration of the query loop: a right child on the left boundary
        and a left child on the right boundary are folded in and stepped over,
        then both boundaries move to their parents, whose width is `w' = 2 w`. */
    method ClimbLevel(ghost a: seq<int>, ghost s: nat, ghost e: nat, ghost w: nat,
                      lo: nat, hi: nat, total: int) returns (lo': nat, hi': nat, total': int, ghost w': nat)
      requires Valid() && IsCommMonoid(op, 0) && a == A[..]
      requires Progress(a, op, size, s, e, lo, hi, w, total) && lo <= hi
      ensures w' == 2 * w && Progress(a, op, size, s, e, lo', hi', w', total')
      ensures hi' < hi
    {
      assert s <= e;
      LeftStep(a, op, size, s + size, e + size, lo, hi, w, total);
      ghost var lo1 := if lo % 2 == 1 then lo + 1 else lo;
      ghost var total1 := if lo % 2 == 1 then op(total, a[lo]) else total;
      lo', hi', total' := lo, hi, total;
      if lo' % 2 == 1 {
        total' := op(total', A[lo']);
        lo' := lo' + 1;
      }
      assert lo' == lo1 && total' == total1;
      RightStep(a, op, size, s, e, lo1, hi, w, total1);
      ghost var hi2 := if hi % 2 == 0 then hi - 1 else hi;
      ghost var total2 := if hi % 2 == 0 then op(total1, a[hi]) else total1;
      if hi' % 2 == 0 {
        total' := op(total', A[hi']);
        hi' := hi' - 1;
      }
      assert hi' == hi2 && total' == total2;
      lo', hi', w' := lo' / 2, hi' / 2, 2 * w;
    }

    /** `t[start:stop]`: the fold of the leaves `[s, e)`, and 0 when the range
        is reversed. The accumulator starts at 0 and pieces from the two sides
        interleave, so `op` must be commutative with identity 0. */
    method Query(start: Option<nat>, stop: Option<nat>) returns (total: int)
      requires Valid() && IsCommMonoid(op, 0) && StopOf(stop, size) <= size
      ensures var s, e := StartOf(start), StopOf(stop, size);
        total == if s <= e then Fold(op, 0, Leaves()[s .. e]) else 0
    {
      ghost var a := A[..];
      ghost var s, e := StartOf(start), StopOf(stop, size);
      var lo: nat := StartOf(start) + size;
      var hi: nat := StopOf(stop, size) + size - 1;
      total := 0;
      ghost var w: nat := 1;
      Start(a, op, size, s, e);
      while lo <= hi
        invariant Progress(a, op, size, s, e, lo, hi, w, total)
        decreases hi
      {
        lo, hi, total, w := ClimbLevel(a, s, e, w, lo, hi, total);
      }
      Crossed(a, op, size, s, e, lo, hi, w, total);
    }
  }
}
