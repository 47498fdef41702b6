# Array-backed segment trees

This project models the three segment trees of the repository. A segment tree
answers "combine the values in `[s, e)`" and supports single-value updates,
both in logarithmic time. All three keep one flat array `A` of length `2 n`:

- `n` is the smallest power of two strictly greater than the input length;
- the leaves sit at `[n, 2 n)`, holding the input followed by padding;
- internal node `i` in `[1, n)` holds `op(A[2 i], A[2 i + 1])`.

The three trees differ only in their range query:

- `segment_tree_full_top_down.py` (module `TopDown`): a generic tree with an
  operator `op` and a padding value `default`. Its query walks two
  boundaries down from the root, one level per iteration, and folds in the
  whole sibling subtrees left between them.
- `segment_tree_bottom_up.py` (module `BottomUp`): an integer tree padded
  with 0. Its query climbs from the two boundary leaves towards the root,
  folding in the nodes that stick out on either side.
- `segment_tree.py` (module `SumTree`): the same climb, but the query adds
  node values with `+`, whatever operator built the tree.

Shared modules:

- `Results` holds the `Option` and `Result` types. Python's `IndexError` and
  a failed `assert` become error values.
- `Folds` holds the reference fold of a sequence and the commutative monoid
  laws.
- `TreeLayout` holds the capacity loop, the node invariant and its
  consequence that each node holds the fold of the leaves under it. It also
  holds the in-place build and ancestor-repair loops, which all three
  classes run on their `array`.

Each Python class becomes a Dafny `class` with an `array` field. Its
constructor ensures that `Leaves()` is the input padded up to the capacity,
and its point write that the new `Leaves()` is the old one with one value
replaced; both also keep the node invariant. Its range queries are methods
proved against the fold of a slice of `Leaves()`. The query loops carry
ghost invariants that name, at every level, which leaves have been combined
so far.

An operator that is only associative needs its pieces combined left to
right, and this code does not keep that order. The bottom-up queries
interleave pieces from the two sides (`segment_tree_bottom_up.py:43-48`).
The top-down loop also adds one piece per side at each level, and its
left-side pieces come from the middle outward, that is right to left
(`segment_tree_full_top_down.py:71`, `:77`): with `n = 16`, `t[1:15]` adds
`A[5]` (leaves `[4, 8)`), then `A[6]` (`[8, 12)`), then `A[9]` (`[2, 4)`),
then `A[14]` (`[12, 14)`). Its last step then combines `A[hi]` before
`A[lo]` (`segment_tree_full_top_down.py:82-87`). So every query result here is
stated for a commutative operator with identity. For the two bottom-up
trees that identity must be 0, since the accumulator starts at the
literal 0.

For `start == stop` the top-down query fails its `assert start <= end`
(`segment_tree_full_top_down.py:105`), and the model returns
`Err(AssertionError)`. The bottom-up queries return 0 for `start == stop`,
with one exception: `segment_tree.py` reads a stop of 0 as `size`
(`segment_tree.py:34`), so `t[0:0]` there is the sum of every leaf.

## Model

| member | source | states |
|---|---|---|
| TreeLayout.PaddedCapacity | segment_tree_full_top_down.py:27-29 | the capacity is a power of two, strictly above the input length, and no smaller power of two is (the same loop is at segment_tree_bottom_up.py:16-18 and segment_tree.py:15-17) |
| TreeLayout.Pow2Order | segment_tree_full_top_down.py:28-29 | a power of two below twice another power of two is at most it, which gives the capacity loop its minimality |
| TreeLayout.UpdateNode | segment_tree_full_top_down.py:39-41 | `_update(parent)` sets node `parent` to `op` of its two children and changes no other slot |
| TreeLayout.BuildNodes | segment_tree_full_top_down.py:36-37 | after updating nodes `n - 1` down to 1, every internal node holds `op` of its children, and slot 0 and the leaves are untouched |
| TreeLayout.NodeFold | segment_tree_full_top_down.py:39-41 | under the node invariant, node `i` with `w` leaves below it holds the fold of the leaves `[i w, (i + 1) w)` |
| TreeLayout.AppendNode | segment_tree_bottom_up.py:43-45 | a range that ends where node `i`'s leaves end folds to the range before them combined with `A[i]` |
| TreeLayout.PrependNode | segment_tree_bottom_up.py:46-48 | a range that starts where node `i`'s leaves start folds to the rest of the range combined with `A[i]` |
| TreeLayout.AncestorStep | segment_tree_full_top_down.py:95 | the parent of a strict ancestor of a node, other than the root, is again a strict ancestor |
| TreeLayout.WriteLeaf | segment_tree_full_top_down.py:93-95 | a point write replaces exactly one leaf, restores the node invariant, and changes only that leaf's slot and its ancestors (the same steps are at segment_tree_bottom_up.py:54-59 and segment_tree.py:52-57) |
| TreeLayout.PropagateUp | segment_tree_full_top_down.py:95 | after a leaf write, updating its ancestors up to the root restores the node invariant, and only those ancestors change |
| Folds.FoldIsSum | segment_tree.py:42-45 | with an operator that is addition, the fold from 0 is the sum |
| Folds.AdditionIsCommMonoid | segment_tree_bottom_up.py:13 | the default operator `add` is associative and commutative with identity 0 |
| TopDown.SegmentTree.constructor | segment_tree_full_top_down.py:22-37 | the capacity is minimal, the leaves are the input padded with `default`, and the node invariant holds |
| TopDown.SegmentTree.Get | segment_tree_full_top_down.py:44-45 | `t[idx]` is leaf `idx`, or `IndexError` from `idx = n` on |
| TopDown.SegmentTree.Set | segment_tree_full_top_down.py:91-96 | `t[idx] = v` replaces leaf `idx` and no other leaf, changes only the leaf's slot and its ancestors, and keeps the node invariant; `IndexError` from `idx = n` on |
| TopDown.StartEnd | segment_tree_full_top_down.py:99-106 | the absolute inclusive bounds are `s + n` and `e + n - 1`, and the `start <= end` assertion fails exactly when `s >= e` |
| TopDown.InternalLevel | segment_tree_full_top_down.py:61-62 | while the right boundary is an internal node, the subtree width is even and its half a power of two |
| TopDown.LeafLevel | segment_tree_full_top_down.py:61 | once the right boundary is a leaf, the subtree width is one |
| TopDown.FrameHalves | segment_tree_full_top_down.py:62 | above the leaves, each boundary subtree splits in two halves, the right one starting `cut` before `r_idx + 1` |
| TopDown.RightChildOfLeft | segment_tree_full_top_down.py:69-71 | when the left boundary goes into its left half, that subtree's right half is exactly the leaves in front of the collected range |
| TopDown.LeftChildOfRight | segment_tree_full_top_down.py:76-77 | when the right boundary goes into its right half, that subtree's left half is exactly the leaves after the collected range |
| TopDown.LeftDescent | segment_tree_full_top_down.py:62-71 | the left half of a level keeps `l_idx` the first leaf under `lo` with `start` inside it, and keeps `total` the fold of the leaves between the boundaries |
| TopDown.RightFrame | segment_tree_full_top_down.py:73-75 | moving the right boundary to the half of its subtree that holds the clamped end keeps `r_idx` the last leaf under `hi` and the boundaries in order |
| TopDown.RightDescent | segment_tree_full_top_down.py:73-77 | the right half of a level keeps `r_idx` the last leaf under `hi` with the clamped end inside it, and restores the level's invariant |
| TopDown.FrameAtLeaves | segment_tree_full_top_down.py:79-81 | at loop exit the width is one leaf and `l_idx == lo`, `r_idx == hi`: the source's assertion holds |
| TopDown.SegmentTree.DescendLevel | segment_tree_full_top_down.py:61-77 | one loop iteration keeps the boundary frame and the collected fold, and the right boundary moves down |
| TopDown.SegmentTree.Descend | segment_tree_full_top_down.py:55-81 | the walk ends at the leaves `start` and `min(end, 2 n - 1)` with `total` the fold of the leaves strictly between them |
| TopDown.FinalCombine | segment_tree_full_top_down.py:82-87 | combining `A[hi]` and then `A[lo]` gives the fold from `lo` to `hi`, except that a lone boundary leaf is combined twice |
| TopDown.SegmentTree.Query | segment_tree_full_top_down.py:43-89 | `t[s:e]` as written: `AssertionError` for `s >= e`; leaf `s` or `IndexError` for `e == s + 1`; `default` when `s >= n`; the fold of the leaves `[s, min(e, n))` when `s < n - 1`; the last leaf combined with itself when `s == n - 1 < e - 1` |
| TopDown.SegmentTree.QueryCorrected | segment_tree_full_top_down.py:79-89 | with the last leaf combined once, every non-empty range that starts inside the tree gives the fold of the leaves `[s, min(e, n))` |
| TopDown.DoubleCountWitness | segment_tree_full_top_down.py:82-87 | over `[1, 2, 3]` with addition, after `t[3] = 5`, `t[3:5]` is 10 as written and 5 corrected |
| BottomUp.StartOf | segment_tree_bottom_up.py:34 | a missing start means leaf 0 |
| BottomUp.StopOf | segment_tree_bottom_up.py:35 | a missing stop means `size`; a given stop, 0 included, is kept |
| BottomUp.SegmentTree.constructor | segment_tree_bottom_up.py:13-24 | the capacity is minimal, the leaves are the input padded with 0, and the node invariant holds |
| BottomUp.SegmentTree.Get | segment_tree_bottom_up.py:31-32 | `t[i]` is leaf `i`, or `IndexError` from `i = size` on |
| BottomUp.SegmentTree.Set | segment_tree_bottom_up.py:53-59 | `t[i] = v` replaces leaf `i` and no other leaf, changes only the leaf's slot and its ancestors, and keeps the node invariant |
| BottomUp.Start | segment_tree_bottom_up.py:34-40 | before the loop, with `total = 0`, the boundaries are the leaves `s + size` and `e + size - 1`, and nothing has been combined |
| BottomUp.InTree | segment_tree_bottom_up.py:42-48 | every node the walk reads lies in `[1, 2 size)` |
| BottomUp.LeftEdge | segment_tree_bottom_up.py:43-45 | folding in a right child on the left boundary and stepping past it keeps `total` the fold of the leaves passed on both sides |
| BottomUp.RightEdge | segment_tree_bottom_up.py:46-48 | the same for a left child on the right boundary |
| BottomUp.LeftStep | segment_tree_bottom_up.py:43-45 | after the left test, `lo` is a left child and the combined leaves are still exactly the leaves passed |
| BottomUp.Climb | segment_tree_bottom_up.py:49-50 | with `lo` a left child and `hi` a right child, moving both to their parents covers the same leaves at twice the width |
| BottomUp.RightStep | segment_tree_bottom_up.py:46-50 | the right test followed by the climb restores the loop invariant one level up |
| BottomUp.SegmentTree.ClimbLevel | segment_tree_bottom_up.py:43-50 | one loop iteration keeps the invariant and `hi` strictly decreases, so the loop ends |
| BottomUp.Crossed | segment_tree_bottom_up.py:42-51 | once the boundaries cross, `total` is the fold of the leaves `[s, e)`, or 0 for a reversed range |
| BottomUp.SegmentTree.Query | segment_tree_bottom_up.py:34-51 | `t[start:stop]` is the fold of the leaves `[s, e)` after the default bounds, and 0 when `s > e` |
| SumTree.StopOr | segment_tree.py:34 | a missing stop and a stop of 0 both mean `size`; any other stop is kept |
| SumTree.SegmentTree.constructor | segment_tree.py:12-23 | the capacity is minimal, the leaves are the input padded with 0, and the node invariant holds |
| SumTree.SegmentTree.Get | segment_tree.py:30-31 | `t[i]` is leaf `i`, or `IndexError` from `i = size` on |
| SumTree.SegmentTree.Set | segment_tree.py:51-57 | `t[i] = v` replaces leaf `i` and no other leaf, changes only the leaf's slot and its ancestors, and keeps the node invariant |
| SumTree.SegmentTree.ClimbLevel | segment_tree.py:40-48 | one iteration, adding boundary nodes with `+`, keeps the invariant and `hi` strictly decreases |
| SumTree.SegmentTree.Query | segment_tree.py:33-49 | `t[start:stop]` is the sum of the leaves `[s, e)`, with a stop of 0 read as `size`, and 0 when `s > e` |

## Left out

- `__str__` (`segment_tree_full_top_down.py:108-128`, `segment_tree_bottom_up.py:61-69`) only pretty-prints the tree levels; `segment_tree.py` has none.
- The `__main__` demonstration block of the top-down file.
- The `Lazy` record and `_lazy` list are allocated by the top-down constructor and never used again.
- Slice assignment is not modelled. The top-down file raises `NotImplementedError` for it (`segment_tree_full_top_down.py:97`); the two bottom-up files fail at `i += self.size` with `TypeError` before any write (`segment_tree_bottom_up.py:54`, `segment_tree.py:52`).
- A missing slice bound in the top-down query compares `None < 0` and raises `TypeError`, so the model's top-down query takes two integer bounds.
- Negative indices and bounds are not modelled; every index and bound here is a `nat`. The top-down file shifts a negative bound by `n` once more (`segment_tree_full_top_down.py:103-104`). The two bottom-up files add `size` to a negative bound without any shift (`segment_tree_bottom_up.py:34-35`, `segment_tree.py:33-34`): a start `b` gives `lo = size + b`, an internal node for `-size < b < 0`, slot 0 for `b = -size`, and below that a negative index, which Python counts from the end of the list. In all three files a point index `i` reaches slot `n + i`: an internal node for `-n < i < 0` and slot 0, the unused slot, for `i = -n`. For `-3 n <= i < -n` a read returns the slot counted from the end of the list, and a write stores there and then its ancestor loop never ends, because `i >> 1` reaches -1 and stays there (`segment_tree_full_top_down.py:95`, `segment_tree_bottom_up.py:56-59`, `segment_tree.py:54-57`). Below `-3 n` both raise `IndexError` at the array access (`segment_tree_full_top_down.py:45`, `:94`, and the same lines of the bottom-up files), before any write.
- Floating-point padding such as `float('inf')` and arbitrary Python callables are not modelled. Operators are pure Dafny functions, over a generic `T` at the top and over `int` below.
- Slot 0 of the array is never read. The Python code fills it with the literal 0; the generic top-down model fills it with `default`.
- In the top-down query the test `end < n` is never true for non-negative bounds, so its branch cannot be reached.
- BottomUp.SegmentTree.Query: a stop beyond `size` is excluded by the precondition. The walk would then read past the leaves, either raising `IndexError` or folding in unrelated nodes.
- SumTree.SegmentTree.Query: a stop beyond `size` is excluded by the precondition, as above.
- TopDown.SegmentTree.Query: the result is stated only for an operator that is associative and commutative with `default` as identity.
- TopDown.SegmentTree.QueryCorrected: stated only for the same commutative monoids.
- BottomUp.SegmentTree.Query: the result is stated only for an operator that is associative and commutative with identity 0. For other operators the interleaved result is not characterised.
- SumTree.SegmentTree.Query: the result is stated only for an operator that is integer addition. With any other operator the nodes hold that operator's values while the query adds them, and that result is not characterised.
- The docstring example of `segment_tree.py` passes `operator=sum` and expects `t[:4] == 18`. Neither is used as a property.
- `test/test_get.py` imports a module that is not part of this model and uses random inputs.

## Findings

| source | as written | input that shows it | evidently intended | confidence | as-written member | corrected member |
|---|---|---|---|---|---|---|
| segment_tree_full_top_down.py:82-87 | the last step always combines `A[hi]` and then `A[lo]`; when the clamped range is the single last leaf (`s == n - 1`, `e > n`), `lo == hi` and that leaf is combined twice | `SegmentTree([1, 2, 3])` with addition, then `t[3] = 5`, then `t[3:5]` gives 10 | 5, the fold of the one leaf `[3, 4)` | not executed | TopDown.SegmentTree.Query, TopDown.DoubleCountWitness | TopDown.SegmentTree.QueryCorrected |
