# seg_tree in Dafny

A verified model of `SegTree`, the recursive sum segment tree of the
`seg_tree` crate. A tree covers a half-open index range `[l, r)` of slots,
each holding an integer that starts at 0. It supports three operations:

- `revise(t, v)` overwrites slot `t` with `v`.
- `ask(l, r)` returns the sum of the slots in `[l, r)`.
- `new(l, r)` builds the tree, splitting every range at `l + (r - l) / 2` down to one-slot leaves.

The model has four modules:

- `RangeSums` (`sums.dfy`) gives the tree its abstract meaning. It covers a sequence of slot values, its sums over index ranges, and what overwriting one slot does to those sums.
- `BuildCalls` (`build_calls.dfy`) models the call recursion of `build` and `new` with a depth budget. It proves which calls return. In particular, `new(l, l + 1)` never returns: it builds `build(l, l)`, which keeps calling itself.
- `SegmentTree` (`seg_tree.dfy`) models the tree itself. `SegTree` is a class with the source's own fields:
  - `val` is the only mutable field.
  - `range` is split into `lo` and `hi`.
  - `mid`, `left` and `right` are immutable after construction.
  - A ghost set `Nodes` holds the descendants of each node.

  `Valid()` states two things. First, the shape that `build` produces. Second, the sum invariant: an internal node holds `left.val + right.val`. `Contents()` reads the slot sequence off the leaves.
  - `revise` is a recursive method that updates `val` in place. It is proved to overwrite exactly one slot of `Contents()`.
  - `ask` is a recursive function. It is proved equal to the range sum `RangeSum`.
  - The three panics of the source are the errors `InvalidRange`, `IndexOutOfRange` and `InvalidQueryRange` of a `Result`.
- `Scenarios` (`scenarios.dfy`) restates the crate's unit tests as methods. The contracts of the tree alone determine their results.

## Model

| member | source | states |
|---|---|---|
| RangeSums.SumOfSplitRange | src/main.rs:172-183 | the sum over a range of two concatenated runs is the sum within the part that holds it, or the sum of the two parts around the seam |
| RangeSums.SumAppend | src/main.rs:196-199 | the sum of two adjacent runs is the sum of their sums |
| RangeSums.ZerosAt | src/main.rs:57 | every slot of a fresh run is 0 |
| RangeSums.ZerosAppend | src/main.rs:56-59 | the zero slots of two halves side by side are the zero slots of the whole range |
| RangeSums.SumZeros | src/main.rs:209-214 | every range of all-zero slots sums to 0 |
| RangeSums.SumSingle | src/main.rs:156-159 | a one-slot range sums to that slot's value |
| RangeSums.SumAfterOverwrite | src/main.rs:109-131 | after overwriting slot k with v, a range holding k sums to its old sum minus the old slot value plus v, and a range not holding k keeps its sum |
| RangeSums.OverwriteThenPoint | src/main.rs:223-229 | after overwriting slot k with v, the one-slot range at k sums to exactly v, so `revise` replaces rather than accumulates |
| RangeSums.OverwriteIdempotent | src/main.rs:109-113 | overwriting the same slot with the same value twice leaves every range sum as overwriting it once |
| RangeSums.OverwriteConcat | src/main.rs:114-127 | overwriting a slot of two concatenated runs overwrites it in the run that holds it, so a revision goes to one child |
| RangeSums.ConcatParts | src/main.rs:114-127 | two concatenations with equally long first parts are equal only when the parts are |
| BuildCalls.Mid | src/main.rs:77 | the split point lies in the range, strictly inside it when the range has at least 2 slots, and halves it with the larger half on the right |
| BuildCalls.BuildEmptyDiverges | src/main.rs:65-85 | `build(l, l)` never returns, at any recursion depth |
| BuildCalls.BuildNonEmptyReturns | src/main.rs:65-85 | `build(l, r)` with `l < r` returns within `r - l - 1` levels of nested calls |
| BuildCalls.NewWidthOneDiverges | src/main.rs:55-59 | `new(l, l + 1)` never returns, because its left half is the empty range |
| BuildCalls.NewReturnsIff | src/main.rs:49-85 | `new(l, r)` returns exactly when `l < r` and the range has at least 2 slots |
| SegmentTree.CombSums | src/main.rs:196-199 | combining the sums of two adjacent runs gives the sum of the joined run |
| SegmentTree.SegTree.Nested | src/main.rs:77-83 | every node of a subtree covers a part of its root's range |
| SegmentTree.SegTree.ValIsSum | src/main.rs:128-131 | under the sum invariant, every node's value is the sum of the slots of its range |
| SegmentTree.SegTree.LeavesHoldSlots | src/main.rs:67-76 | each leaf lies in its root's range and holds the slot of its one index |
| SegmentTree.SegTree.ZeroValuesZeroSlots | src/main.rs:56-59 | a tree whose every node holds 0 has every slot 0 |
| SegmentTree.SegTree.StillValid | src/main.rs:114-127 | a subtree none of whose nodes changed is still valid and holds the same slots |
| SegmentTree.SegTree.LeftRevised | src/main.rs:114-120 | after the left child took the overwrite, the right child is still valid and the two children hold the node's old slots with that one slot overwritten |
| SegmentTree.SegTree.RightRevised | src/main.rs:121-127 | the same after the right child took the overwrite |
| SegmentTree.SegTree.Assembled | src/main.rs:128-131 | once a node's value is recomputed from its valid, untouched children, the node is valid and holds their slots |
| SegmentTree.SegTree.SameSlotsSameValues | src/main.rs:128-131 | two valid states of a tree with the same slots agree on the value of every node |
| SegmentTree.SegTree.OnlyPathChanged | src/main.rs:114-131 | between valid states that differ by one overwrite of slot t, every node whose range does not hold t keeps its value, so only the root-to-leaf path changes |
| SegmentTree.SegTree.QueryInLeft | src/main.rs:160-165 | a valid query inside the left half of an internal node has the same answer on the left child |
| SegmentTree.SegTree.QueryInRight | src/main.rs:166-171 | a valid query inside the right half has the same answer on the right child |
| SegmentTree.SegTree.QueryAcross | src/main.rs:172-183 | a valid query holding the split point answers the left part `[l, mid)` plus the right part `[mid, r)` |
| SegmentTree.SegTree.MidIsSplit | src/main.rs:61 | an internal node's `mid` is `lo + (hi - lo) / 2` |
| SegmentTree.SegTree.PartialQueryHasChildren | src/main.rs:160-183 | a valid query other than the whole range only reaches a node with both children, so the `map_or(0, …)` fallbacks are never taken |
| SegmentTree.SegTree.ZeroQueries | src/main.rs:209-214 | on an all-zero tree every valid query answers 0 |
| SegmentTree.SegTree.QueriesAfterRevise | src/main.rs:223-229 | after slot t was overwritten with v: `ask(t, t + 1)` answers v, a query not holding t answers as before, and a query holding t moves by v minus the old slot value |
| SegmentTree.SegTree.Build | src/main.rs:65-85 | `build(l, r)` with `l < r` gives a fresh valid tree over exactly `[l, r)` with every value 0, which is a leaf exactly when the range has one slot |
| SegmentTree.SegTree.Root | src/main.rs:55-62 | the root of `new(l, r)` for a range of at least 2 slots is a fresh valid internal node over `[l, r)` with every value 0 |
| SegmentTree.SegTree.New | src/main.rs:49-63 | `new(l, r)` fails with `InvalidRange` exactly when `l >= r`; otherwise it gives a fresh valid tree over `[l, r)` whose slots are all 0 |
| SegmentTree.SegTree.GetVal | src/main.rs:187-190 | the root value is the sum of all slots |
| SegmentTree.SegTree.GetRange | src/main.rs:191-194 | the covered range is the node's `(lo, hi)`, non-empty and as wide as the slot sequence |
| SegmentTree.SegTree.Ask | src/main.rs:150-184 | `ask(l, r)` answers the sum of the slots in `[l, r)`, and fails with `InvalidQueryRange` exactly when `l >= r`, `l < lo` or `r > hi` |
| SegmentTree.SegTree.AskChild | src/main.rs:162-164 | a present child answers its range sum; a missing child answers 0 |
| SegmentTree.SegTree.Revise | src/main.rs:103-131 | `revise(t, v)` fails with `IndexOutOfRange` and changes nothing exactly when t lies outside `[lo, hi)`; otherwise the tree stays valid and its slots are the old slots with slot t overwritten by v |
| Scenarios.RampAt | src/main.rs:243-246 | after the loop of `test_ask`, slot k holds k |
| Scenarios.SumOfRamp | src/main.rs:247-250 | twice the sum of slots `[i, j)` of that ramp is `j(j - 1) - i(i - 1)` |
| Scenarios.RampSums | src/main.rs:247-250 | the four sums `test_ask` expects: 45, 10, 35 and 18 |
| Scenarios.RampStep | src/main.rs:243-246 | one round of the loop extends the ramp by one slot |
| Scenarios.FreshTree | src/main.rs:208-214 | a fresh tree over `[0, 10)` has range `(0, 10)` and value 0, and a query on it answers 0 |
| Scenarios.ReviseThenAsk | src/main.rs:223-229 | after `revise(2, 10)`, `ask(2, 3)` answers 10 and the queries beside slot 2 answer 0 |
| Scenarios.ReviseTwice | src/main.rs:103-131 | repeating `revise(t, v)` leaves the answer of every query the same |
| Scenarios.WriteOwnIndex | src/main.rs:243-246 | one `revise(i, i)` of the loop keeps the tree valid and extends the ramp by one slot |
| Scenarios.Fill | src/main.rs:242-246 | after the loop the tree is valid over `[0, 10)` and slot i holds i |
| Scenarios.FillThenAsk | src/main.rs:239-251 | the queries of `test_ask` answer 45, 10, 35 and 18 |
| Scenarios.InvalidCalls | src/main.rs:216-259 | `new(10, 0)`, `revise(10, 10)` on `[0, 10)` and `ask(10, 0)` fail, with the errors `InvalidRange`, `IndexOutOfRange` and `InvalidQueryRange` respectively |
| Scenarios.ReviseKeepsOffPathNodes | src/main.rs:103-131 | after `revise(t, v)` every node whose range does not hold t keeps its value, whether t is in range (only the path changes) or not (nothing changes) |

## Left out

- Values are unbounded integers. The `i32` overflow of `comb` and of `left_val + right_val` is not modelled. It panics in debug builds and wraps in release builds.
- Indices are unbounded naturals. No `usize` arithmetic of the core can overflow: `target_pos + 1` is only reached after the check that `target_pos < range.1`, and `l + (r - l) / 2` never exceeds `r`.
- `Rc<RefCell<…>>` sharing and runtime borrow checking are not modelled. Children are owned exclusively: `Valid()` requires the node sets of the two children to be disjoint. A `borrow_mut` that panics because of an outstanding borrow therefore cannot happen in the model.
- Panic messages are not modelled. Each panic is a distinct `Error` value returned in a `Result`.
- `fn main`, its `println!` output and the crate's doc example are console demonstrations only. They are not modelled.
- SegmentTree.SegTree.New requires `r != l + 1`. The source's `new(l, l + 1)` recurses forever, so it returns no tree to model. `BuildCalls.NewWidthOneDiverges` proves this divergence, and the error case `l >= r` remains allowed. The one-slot tree that `new` should give is the one `SegmentTree.SegTree.Build(l, l + 1)` constructs (see Findings).
- A leaf's `mid` is `lo`, as in the source. It is never consulted, because every valid operation on a leaf takes the exact-match branch.
- SegmentTree.SegTree.Revise: its `modifies` frame is the whole subtree, not just the path to `t`. The path-only change is stated separately by `SegmentTree.SegTree.OnlyPathChanged`, which `Scenarios.ReviseKeepsOffPathNodes` applies to a call.

## Findings

| source | as written | input that shows it | evidently intended | confidence | as-written member | corrected member |
|---|---|---|---|---|---|---|
| src/main.rs:38-63 | `new` always splits its range and builds both halves, so for a one-slot range its left half is `build(l, l)`, which calls itself forever (stack overflow) | `SegTree::new(5, 6)` | the documentation promises a tree for every `l < r` and a panic only for `l >= r`; a one-slot range should give a single leaf, as `build(l, l + 1)` does | high (not executed; `new(l, l + 1)` is shown to return at no recursion depth) | BuildCalls.NewWidthOneDiverges | SegmentTree.SegTree.Build |
