/** segment_tree.py: the bottom-up tree again, built with the caller's
    `op`, whose range query nevertheless adds the node values with `+`. */
module SumTree {
  import opened Results
  import opened Folds
  import opened TreeLayout
  import opened BottomUp

  /** `query.stop or self.size`: both a missing stop and a stop of 0 mean `size`. */
  function StopOr(stop: Option<nat>, size: nat): (e: nat)
    ensures stop.Some? && stop.value != 0 ==> e == stop.value
    ensures stop.None? || stop == Some(0) ==> e == size
  {
    if stop.None? || stop.value == 0 then size else stop.value
  }

  class SegmentTree {
    const op: (int, int) -> int
    const size: nat
    const A: array<int>

    ghost predicate Valid()
      reads A
    {
      A.Length == 2 * size && IsPow2(size) && NodesValid(A[..], size, op)
    }

    /** The logical values: the leaves `A[size..2 size]`. */
    ghost function Leaves(): seq<int>
      reads A
      requires A.Length == 2 * size
    {
      A[size..]
    }

    /** `__init__`: pad `array` with zeros up to the capacity, then build. */
    constructor (values: seq<int>, op: (int, int) -> int)
      ensures Valid() && fresh(A) && this.op == op
      ensures |values| < size && forall m :: IsPow2(m) && |values| < m ==> size <= m
      ensures Leaves() == values + seq(size - |values|, _ => 0)
    {
      var cap := PaddedCapacity(|values|);
      this.op := op;
      size := cap;
      A := new int[2 * cap](i => if cap <= i < cap + |values| then values[i - cap] else 0);
      new;
      ghost var leaves := A[size..];
      assert leaves == values + seq(size - |values|, _ => 0);
      BuildNodes(A, size, op);
    }

    /** `t[i]` for an integer `i`. */
    method Get(idx: nat) returns (r: Result<int>)
      requires Valid()
      ensures r == if idx < size then Ok(Leaves()[idx]) else Err(IndexError)
    {
      if size + idx >= A.Length {
        return Err(IndexError);
      }
      r := Ok(A[size + idx]);
    }

    /** `t[i] = value`: write the leaf, then update every ancestor. */
    method Set(idx: nat, value: int) returns (r: Result<()>)
      requires Valid()
      modifies A
      ensures Valid()
      ensures r == if idx < size then Ok(()) else Err(IndexError)
      ensures Leaves() == if idx < size then old(Leaves())[idx := value] else old(Leaves())
      ensures forall j :: 0 <= j < A.Length && j != size + idx && !IsAncestor(j, size + idx) ==> A[j] == old(A[j])
    {
      var i := idx + size;
      if i >= A.Length {
        return Err(IndexError);
      }
      WriteLeaf(A, size, op, i, value);
      r := Ok(());
    }

    /** One iteration of the query loop, adding boundary nodes with `+`. */
    method ClimbLevel(ghost a: seq<int>, ghost s: nat, ghost e: nat, ghost w: nat,
                      lo: nat, hi: nat, total: int) returns (lo': nat, hi': nat, total': int, ghost w': nat)
      requires Valid() && IsCommMonoid(op, 0) && (forall x, y :: op(x, y) == x + y) && a == A[..]
      requires Progress(a, op, size, s, e, lo, hi, w, total) && lo <= hi
      ensures w' == 2 * w && Progress(a, op, size, s, e, lo', hi', w', total')
      ensures hi' < hi
    {
      assert s <= e;
      LeftStep(a, op, size, s + size, e + size, lo, hi, w, total);
      ghost var lo1 := if lo % 2 == 1 then lo + 1 else lo;
      ghost var total1 := if lo % 2 == 1 then op(total, a[lo]) else total;
      lo', hi', total' := lo, hi, total;
      if lo' % 2 == 1 {
        total' := total' + A[lo'];
        lo' := lo' + 1;
      }
      assert lo' == lo1 && total' == total1;
      RightStep(a, op, size, s, e, lo1, hi, w, total1);
      ghost var hi2 := if hi % 2 == 0 then hi - 1 else hi;
      ghost var total2 := if hi % 2 == 0 then op(total1, a[hi]) else total1;
      if hi' % 2 == 0 {
        total' := total' + A[hi'];
        hi' := hi' - 1;
      }
      assert hi' == hi2 && total' == total2;
      lo', hi', w' := lo' / 2, hi' / 2, 2 * w;
    }

    /** `t[start:stop]`: the sum of the leaves `[s, e)`, and 0 when the range
        is reversed or empty. The nodes hold `op` of their children while the
        query adds them, so the sum is what the tree holds only when `op` is
        addition. */
    method Query(start: Option<nat>, stop: Option<nat>) returns (total: int)
      requires Valid() && (forall x, y :: op(x, y) == x + y) && StopOr(stop, size) <= size
      ensures var s, e := StartOf(start), StopOr(stop, size);
        total == if s <= e then Sum(Leaves()[s .. e]) else 0
    {
      AdditionIsCommMonoid(op);
      ghost var a := A[..];
      ghost var s, e := StartOf(start), StopOr(stop, size);
      var lo: nat := StartOf(start) + size;
      var hi: nat := StopOr(stop, size) + size - 1;
      total := 0;
      ghost var w: nat := 1;
      Start(a, op, size, s, e);
      while lo <= hi
        invariant Progress(a, op, size, s, e, lo, hi, w, total)
        decreases hi
      {
        lo, hi, total, w := ClimbLevel(a, s, e, w, lo, hi, total);
      }
      Crossed(a, op, size, s, e, lo, hi, w, total);
      if s <= e {
        FoldIsSum(op, a[size..][s .. e]);
      }
    }
  }
}
