/** A sum segment tree over a half-open index range `[lo, hi)`.

    Every node is an object that owns its two children outright: no node is
    reachable from two parents. The shape of a node (its range, its split
    point, its children and the set `Nodes` of its proper descendants) is
    fixed when it is built, so those fields are `const`; only `val` changes
    afterwards. The abstract value of a node is `Contents()`, the slot values
    of its range in index order, read off its leaves. */
module SegmentTree {
  import opened RangeSums
  import opened BuildCalls

  /** The three ways a call can fail (each a panic of the crate's `SegTree`). */
  datatype Error = InvalidRange | IndexOutOfRange | InvalidQueryRange

  datatype Result<T> = Ok(value: T) | Err(error: Error)

  /** Combination of two child values: addition, with 0 as neutral element. */
  function Comb(a: int, b: int): (c: int)
  {
    a + b
  }

  /** Combining the sums of two adjacent runs of slots gives the sum of the joined run. */
  lemma CombSums(a: seq<int>, b: seq<int>)
    ensures Comb(Sum(a), Sum(b)) == Sum(a + b)
  {
    SumAppend(a, b);
  }

  class SegTree {
    var val: int
    const lo: nat
    const hi: nat
    const mid: nat
    const left: SegTree?
    const right: SegTree?
    ghost const Nodes: set<SegTree>

    /** The node and all its descendants. */
    ghost function Repr(): set<SegTree>
    {
      {this} + Nodes
    }

    /** A leaf has no children. */
    predicate IsLeaf()
    {
      left == null
    }

    /** The shape `build` produces: a leaf covers exactly one index; an
        internal node splits its range at `Mid(lo, hi)` into the ranges of its
        two children, which own disjoint sets of nodes. */
    ghost predicate Shape()
      decreases Nodes
    {
      this !in Nodes && lo < hi &&
      (left == null <==> right == null) &&
      (left == null ==> hi - lo == 1 && mid == lo && Nodes == {}) &&
      (left != null ==>
         lo < mid < hi && mid - lo <= hi - mid <= mid - lo + 1 &&  // that is, mid == Mid(lo, hi)
         left.lo == lo && left.hi == mid && right.lo == mid && right.hi == hi &&
         Nodes == left.Repr() + right.Repr() && left.Repr() !! right.Repr() &&
         left !in left.Nodes && right !in right.Nodes &&
         left.Shape() && right.Shape())
    }

    /** The sum invariant: every internal node holds the sum of its children. */
    ghost predicate SumsHold()
      requires Shape()
      reads Repr()
      decreases Nodes
    {
      left != null ==>
        val == left.val + right.val && left.SumsHold() && right.SumsHold()
    }

    ghost predicate Valid()
      reads Repr()
    {
      Shape() && SumsHold()
    }

    /** The slot values of the node's range, in index order. */
    ghost function Contents(): (s: seq<int>)
      requires Shape()
      reads Repr()
      ensures |s| == hi - lo
      decreases Nodes
    {
      if left == null then [val] else left.Contents() + right.Contents()
    }

    /** Every node of the subtree covers a part of this node's range. */
    lemma {:induction false} Nested()
      requires Shape()
      ensures forall n :: n in Repr() ==> lo <= n.lo && n.hi <= hi
      decreases Nodes
    {
      if left != null {
        left.Nested();
        right.Nested();
      }
    }

    /** A node's value is the sum of the slot values of its range. */
    lemma {:induction false} ValIsSum()
      requires Valid()
      ensures val == Sum(Contents())
      decreases Nodes
    {
      if left != null {
        left.ValIsSum();
        right.ValIsSum();
        SumAppend(left.Contents(), right.Contents());
      }
    }

    /** Each leaf holds the slot of its one index. */
    lemma {:induction false} LeavesHoldSlots()
      requires Shape()
      ensures forall n :: n in Repr() && n.IsLeaf() ==> lo <= n.lo < hi && n.val == Contents()[n.lo - lo]
      decreases Nodes
    {
      if left != null {
        left.LeavesHoldSlots();
        right.LeavesHoldSlots();
      }
    }

    /** A tree whose every node holds 0 has every slot 0. */
    lemma {:induction false} ZeroValuesZeroSlots()
      requires Shape()
      requires forall n :: n in Repr() ==> n.val == 0
      ensures Contents() == Zeros(hi - lo)
      decreases Nodes
    {
      if left != null {
        left.ZeroValuesZeroSlots();
        right.ZeroValuesZeroSlots();
        ZerosAppend(mid - lo, hi - mid);
      }
    }

    /** A subtree none of whose nodes changed is still valid and holds the same slots. */
    twostate lemma StillValid()
      requires old(Valid()) && unchanged(Repr())
      ensures Valid() && Contents() == old(Contents())
    {
    }

    /** After the left child of an internal node was revised by the overwrite
        `w` (slot `w.0` now holds `w.1`), the untouched right child is still
        valid, and the two children together hold the node's old slots with
        that one overwritten. */
    twostate lemma LeftRevised(w: (nat, int))
      requires old(Valid()) && !IsLeaf() && lo <= w.0 < mid
      requires left.Valid() && left.Contents() == old(left.Contents())[w.0 - lo := w.1]
      requires unchanged(right.Repr())
      ensures right.Valid()
      ensures left.Contents() + right.Contents() == old(Contents())[w.0 - lo := w.1]
    {
      OverwriteConcat(old(left.Contents()), old(right.Contents()), w.0 - lo, w.1);
      right.StillValid();
    }

    /** The same for a revision of the right child. */
    twostate lemma RightRevised(w: (nat, int))
      requires old(Valid()) && !IsLeaf() && mid <= w.0 < hi
      requires right.Valid() && right.Contents() == old(right.Contents())[w.0 - mid := w.1]
      requires unchanged(left.Repr())
      ensures left.Valid()
      ensures left.Contents() + right.Contents() == old(Contents())[w.0 - lo := w.1]
    {
      OverwriteConcat(old(left.Contents()), old(right.Contents()), w.0 - lo, w.1);
      left.StillValid();
    }

    /** Between two valid states with the same slots, no node's value differs. */
    twostate lemma {:induction false} SameSlotsSameValues()
      requires old(Valid()) && Valid() && Contents() == old(Contents())
      ensures forall n :: n in Repr() ==> n.val == old(n.val)
      decreases Nodes
    {
      if left != null {
        ConcatParts(left.Contents(), right.Contents(), old(left.Contents()), old(right.Contents()));
        left.SameSlotsSameValues();
        right.SameSlotsSameValues();
      }
    }

    /** Between two valid states that differ by the overwrite `w` (slot `w.0`
        now holds `w.1`), only the nodes on the path to slot `w.0` (those whose
        range holds it) may hold a different value. */
    twostate lemma {:induction false} OnlyPathChanged(w: (nat, int))
      requires old(Valid()) && Valid() && lo <= w.0 < hi
      requires Contents() == old(Contents())[w.0 - lo := w.1]
      ensures forall n :: n in Repr() && !(n.lo <= w.0 < n.hi) ==> n.val == old(n.val)
      decreases Nodes
    {
      if left != null {
        OverwriteConcat(old(left.Contents()), old(right.Contents()), w.0 - lo, w.1);
        if w.0 < mid {
          ConcatParts(left.Contents(), right.Contents(), old(left.Contents())[w.0 - lo := w.1], old(right.Contents()));
          left.OnlyPathChanged(w);
          right.SameSlotsSameValues();
          right.Nested();
        } else {
          ConcatParts(left.Contents(), right.Contents(), old(left.Contents()), old(right.Contents())[w.0 - mid := w.1]);
          right.OnlyPathChanged(w);
          left.SameSlotsSameValues();
          left.Nested();
        }
      }
    }

    /** An internal node whose children were valid and have not changed
        since, and whose value was then set to the sum of theirs, is valid and
        holds their slots. */
    twostate lemma Assembled()
      requires Shape() && !IsLeaf()
      requires old(left.Valid()) && old(right.Valid())
      requires unchanged(left.Repr()) && unchanged(right.Repr())
      requires val == left.val + right.val
      ensures Valid() && Contents() == old(left.Contents()) + old(right.Contents())
    {
      left.StillValid();
      right.StillValid();
    }

    /** The answer `ask(l, r)` must give: the sum of the slots in `[l, r)`,
        or `InvalidQueryRange` when the query is empty, inverted or leaves the
        covered range. */
    ghost function RangeSum(l: nat, r: nat): (res: Result<int>)
      requires Shape()
      reads Repr()
    {
      if l >= r || l < lo || r > hi then Err(InvalidQueryRange)
      else Ok(Sum(Contents()[l - lo..r - lo]))
    }

    /** A valid query within the left half of an internal node is answered
        by the left child. */
    lemma QueryInLeft(l: nat, r: nat)
      requires Shape() && !IsLeaf() && lo <= l < r <= mid
      ensures RangeSum(l, r) == left.RangeSum(l, r)
    {
      var a, b := left.Contents(), right.Contents();
      assert Contents() == a + b;
      SumOfSplitRange(a, b, l - lo, r - lo);
    }

    /** A valid query within the right half of an internal node is answered
        by the right child. */
    lemma QueryInRight(l: nat, r: nat)
      requires Shape() && !IsLeaf() && mid <= l < r <= hi
      ensures RangeSum(l, r) == right.RangeSum(l, r)
    {
      var a, b := left.Contents(), right.Contents();
      assert Contents() == a + b;
      SumOfSplitRange(a, b, l - lo, r - lo);
    }

    /** A valid query holding the split point of an internal node is the sum
        of the answers for its two halves. */
    lemma QueryAcross(l: nat, r: nat)
      requires Shape() && !IsLeaf() && lo <= l < mid < r <= hi
      ensures RangeSum(l, r) == Ok(left.RangeSum(l, mid).value + right.RangeSum(mid, r).value)
    {
      var a, b := left.Contents(), right.Contents();
      SumOfSplitRange(a, b, l - lo, r - lo);
      assert a[l - lo..] == a[l - lo..mid - lo];
      assert b[..r - mid] == b[0..r - mid];
    }

    /** An internal node splits its range at `Mid(lo, hi)`, as `build` computes it. */
    lemma MidIsSplit()
      requires Shape() && !IsLeaf()
      ensures mid == Mid(lo, hi)
    {
    }

    /** A valid query that is not the node's whole range reaches the children,
        and the node has both: the `0` answer for a missing child is never used. */
    lemma PartialQueryHasChildren(l: nat, r: nat)
      requires Shape() && lo <= l < r <= hi && (l, r) != (lo, hi)
      ensures left != null && right != null
    {
    }

    /** On a node whose slots are all 0, every valid query answers 0. */
    lemma ZeroQueries(l: nat, r: nat)
      requires Shape() && Contents() == Zeros(hi - lo) && lo <= l < r <= hi
      ensures RangeSum(l, r) == Ok(0)
    {
      SumZeros(hi - lo, l - lo, r - lo);
    }

    /** After slot `t` of `before` was overwritten with `v`: the one-slot query
        at `t` answers `v`, a query not holding `t` answers as on `before`, and
        a query holding `t` moves by `v` minus the old slot value. */
    lemma QueriesAfterRevise(before: seq<int>, t: nat, v: int, l: nat, r: nat)
      requires Shape() && |before| == hi - lo && lo <= t < hi
      requires Contents() == before[t - lo := v]
      requires lo <= l < r <= hi
      ensures (l, r) == (t, t + 1) ==> RangeSum(l, r) == Ok(v)
      ensures !(l <= t < r) ==> RangeSum(l, r) == Ok(Sum(before[l - lo..r - lo]))
      ensures l <= t < r ==> RangeSum(l, r) == Ok(Sum(before[l - lo..r - lo]) - before[t - lo] + v)
    {
      SumAfterOverwrite(before, t - lo, v, l - lo, r - lo);
      if (l, r) == (t, t + 1) {
        OverwriteThenPoint(before, t - lo, v);
      }
    }

    /** `build(l, r)`: a leaf for a width-1 range, otherwise a node with the
        two halves split at `Mid(l, r)`; every slot starts at 0. */
    constructor Build(l: nat, r: nat)
      requires l < r
      ensures Valid() && fresh(Repr())
      ensures lo == l && hi == r
      ensures forall n :: n in Repr() ==> n.val == 0
      ensures IsLeaf() <==> r - l == 1
      decreases r - l
    {
      if r - l == 1 {
        mid := l;
        left, right := null, null;
        Nodes := {};
      } else {
        var m := Mid(l, r);
        var a := new SegTree.Build(l, m);
        var b := new SegTree.Build(m, r);
        mid := m;
        left, right := a, b;
        Nodes := a.Repr() + b.Repr();
      }
      lo, hi := l, r;
      val := 0;
      new;
    }

    /** The root made by `new(l, r)`: unlike `build`, it always splits, so it
        is only well-defined for ranges of width at least 2. */
    constructor Root(l: nat, r: nat)
      requires r - l >= 2
      ensures Valid() && fresh(Repr())
      ensures lo == l && hi == r && !IsLeaf()
      ensures forall n :: n in Repr() ==> n.val == 0
    {
      var m := Mid(l, r);
      var a := new SegTree.Build(l, m);
      var b := new SegTree.Build(m, r);
      lo, hi, mid := l, r, m;
      left, right := a, b;
      Nodes := a.Repr() + b.Repr();
      val := 0;
      new;
    }

    /** `new(l, r)`: fails with `InvalidRange` unless `l < r`. A width-1 range
        is excluded because `new` then never returns (see `BuildCalls`). */
    static method New(l: nat, r: nat) returns (res: Result<SegTree>)
      requires r != l + 1
      ensures res.Err? <==> l >= r
      ensures res.Err? ==> res.error == InvalidRange
      ensures res.Ok? ==> fresh(res.value.Repr()) && res.value.Valid()
      ensures res.Ok? ==> res.value.lo == l && res.value.hi == r && !res.value.IsLeaf()
      ensures res.Ok? ==> res.value.Contents() == Zeros(r - l)
    {
      if l >= r {
        return Err(InvalidRange);
      }
      var t := new SegTree.Root(l, r);
      t.ZeroValuesZeroSlots();
      return Ok(t);
    }

    /** `get_val`: the root value, which is the sum of all slots. */
    function GetVal(): (v: int)
      requires Valid()
      reads Repr()
      ensures v == Sum(Contents())
    {
      ValIsSum();
      val
    }

    /** `get_range`: the covered range, non-empty and as wide as the slot sequence. */
    function GetRange(): (range: (nat, nat))
      requires Valid()
      reads Repr()
      ensures range == (lo, hi)
      ensures range.0 < range.1 && range.1 - range.0 == |Contents()|
    {
      (lo, hi)
    }

    /** `ask(l, r)`: the sum of the slots in `[l, r)`, or `InvalidQueryRange`
        when the query is empty, inverted or leaves the covered range. */
    function Ask(l: nat, r: nat): (res: Result<int>)
      requires Valid()
      reads Repr()
      ensures res == RangeSum(l, r)
      decreases Repr(), 0
    {
      if l >= r || l < lo || r > hi then
        Err(InvalidQueryRange)
      else if (l, r) == (lo, hi) then
        ValIsSum();
        assert Contents()[l - lo..r - lo] == Contents();
        Ok(val)
      else if r <= mid then
        QueryInLeft(l, r);
        AskChild(left, l, r)
      else if l >= mid then
        QueryInRight(l, r);
        AskChild(right, l, r)
      else
        QueryAcross(l, r);
        AddAnswers(AskChild(left, l, mid), AskChild(right, mid, r))
    }

    /** `left_val + right_val` over the answers of the two halves of a query:
        a failure of either half (the first one, as evaluated) is the failure
        of the whole. */
    static function AddAnswers(a: Result<int>, b: Result<int>): Result<int>
    {
      if a.Err? then a
      else if b.Err? then b
      else Ok(a.value + b.value)
    }

    /** The answer of a child to a query, or 0 when there is no child. */
    static function AskChild(child: SegTree?, l: nat, r: nat): (res: Result<int>)
      requires child != null ==> child.Valid()
      reads if child == null then {} else child.Repr()
      ensures child == null ==> res == Ok(0)
      ensures child != null ==> res == child.RangeSum(l, r)
      decreases if child == null then {} else child.Repr(), 1
    {
      if child == null then Ok(0) else child.Ask(l, r)
    }

    /** `revise(t, v)`: overwrites slot `t` with `v` (replacing, not adding
        to, what it held), or fails with `IndexOutOfRange` when `t` lies
        outside `[lo, hi)` and then changes nothing. The sum invariant holds
        again afterwards; `OnlyPathChanged` states that only the nodes whose
        range holds `t` got a new value. */
    method Revise(t: nat, v: int) returns (res: Result<()>)
      requires Valid()
      modifies Repr()
      ensures Valid()
      ensures res.Err? <==> (t < lo || t >= hi)
      ensures res.Err? ==> res.error == IndexOutOfRange && unchanged(Repr())
      ensures res.Ok? ==> Contents() == old(Contents())[t - lo := v]
      decreases Nodes
    {
      if t < lo || t >= hi {
        return Err(IndexOutOfRange);
      }
      if (t, t + 1) == (lo, hi) {
        val := v;
        assert Contents() == old(Contents())[t - lo := v];
        return Ok(());
      }
      if t < mid {
        if left != null {
          var r := left.Revise(t, v);
          LeftRevised((t, v));
        }
      } else {
        if right != null {
          var r := right.Revise(t, v);
          RightRevised((t, v));
        }
      }
      label Revised:
      val := Comb(if left == null then 0 else left.val, if right == null then 0 else right.val);
      if left != null {
        Assembled@Revised();
      }
      res := Ok(());
    }
  }
}
