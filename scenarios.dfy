/** The unit tests of the segment tree, as scenarios whose results the
    contracts of the tree determine, plus the path property of `revise` as a
    client sees it. */
module Scenarios {
  import opened RangeSums
  import opened SegmentTree

  /** The slots `0, 1, ..., n - 1`, each holding its own index. */
  function Ramp(n: nat): (s: seq<int>)
    ensures |s| == n
  {
    if n == 0 then [] else Ramp(n - 1) + [n - 1]
  }

  /** Writing `i` into slot `i` of a ramp of length `i` followed by zeros
      extends the ramp by one slot. */
  lemma RampStep(i: nat, n: nat)
    requires i < n
    ensures (Ramp(i) + Zeros(n - i))[i := i] == Ramp(i + 1) + Zeros(n - i - 1)
  {
    assert Zeros(n - i) == [0] + Zeros(n - i - 1);
    assert Ramp(i + 1) == Ramp(i) + [i];
  }

  /** `test_build`: a fresh tree over `[0, 10)` covers that range and holds 0
      overall; any query on it answers 0. */
  method FreshTree() returns (range: (nat, nat), total: int, part: Result<int>)
    ensures range == (0, 10) && total == 0 && part == Ok(0)
  {
    var made := SegTree.New(0, 10);
    var tree := made.value;
    range := tree.GetRange();
    total := tree.GetVal();
    tree.ZeroQueries(0, 10);
    assert tree.Contents()[0..10] == tree.Contents();
    part := tree.Ask(3, 7);
    tree.ZeroQueries(3, 7);
  }

  /** `test_revise`: after `revise(2, 10)` on a fresh tree over `[0, 10)`, the
      slot query at 2 answers 10 and the queries beside it still answer 0. */
  method ReviseThenAsk() returns (at: Result<int>, below: Result<int>, above: Result<int>)
    ensures at == Ok(10) && below == Ok(0) && above == Ok(0)
  {
    var made := SegTree.New(0, 10);
    var tree := made.value;
    var ok := tree.Revise(2, 10);
    at := tree.Ask(2, 3);
    below := tree.Ask(0, 2);
    above := tree.Ask(3, 10);
    tree.QueriesAfterRevise(Zeros(10), 2, 10, 2, 3);
    tree.QueriesAfterRevise(Zeros(10), 2, 10, 0, 2);
    tree.QueriesAfterRevise(Zeros(10), 2, 10, 3, 10);
    SumZeros(10, 0, 2);
    SumZeros(10, 3, 10);
  }

  /** Revising a slot twice with the same value answers every query as
      revising it once. */
  method ReviseTwice(tree: SegTree, t: nat, v: int, l: nat, r: nat) returns (once: Result<int>, twice: Result<int>)
    requires tree.Valid()
    modifies tree.Repr()
    ensures once == twice
  {
    var ok := tree.Revise(t, v);
    once := tree.Ask(l, r);
    label Once:
    ok := tree.Revise(t, v);
    assert tree.Contents() == old@Once(tree.Contents());
    twice := tree.Ask(l, r);
  }

  /** Slot `k` of a ramp holds `k`. */
  lemma {:induction false} RampAt(n: nat, k: nat)
    requires k < n
    ensures Ramp(n)[k] == k
  {
    if k < n - 1 {
      RampAt(n - 1, k);
    }
  }

  /** Twice the sum of the slots `[i, j)` of a ramp is `j(j - 1) - i(i - 1)`. */
  lemma {:induction false} SumOfRamp(n: nat, i: nat, j: nat)
    requires i <= j <= n
    ensures 2 * Sum(Ramp(n)[i..j]) == j * (j - 1) - i * (i - 1)
    decreases j - i
  {
    if i < j {
      var s := Ramp(n);
      assert s[i..j] == s[i..j - 1] + [s[j - 1]];
      SumAppend(s[i..j - 1], [s[j - 1]]);
      SumOfRamp(n, i, j - 1);
      RampAt(n, j - 1);
      assert j * (j - 1) - (j - 1) * (j - 2) == 2 * (j - 1);
    }
  }

  /** The sums the queries of `test_ask` expect over the slots `0, ..., 9`. */
  lemma RampSums()
    ensures Sum(Ramp(10)[0..10]) == 45 && Sum(Ramp(10)[0..5]) == 10
    ensures Sum(Ramp(10)[5..10]) == 35 && Sum(Ramp(10)[3..7]) == 18
  {
    SumOfRamp(10, 0, 10);
    SumOfRamp(10, 0, 5);
    SumOfRamp(10, 5, 10);
    SumOfRamp(10, 3, 7);
  }

  /** One round of the loop of `test_ask`: `revise(i, i)` on a tree whose
      first `i` slots already hold their own index. */
  method WriteOwnIndex(tree: SegTree, i: nat)
    requires tree.Valid() && tree.lo == 0 && i < tree.hi
    requires tree.Contents() == Ramp(i) + Zeros(tree.hi - i)
    modifies tree.Repr()
    ensures tree.Valid()
    ensures tree.Contents() == Ramp(i + 1) + Zeros(tree.hi - i - 1)
  {
    RampStep(i, tree.hi);
    var ok := tree.Revise(i, i);
  }

  /** The loop of `test_ask`: `revise(i, i)` for every slot `i` of a tree
      over `[0, 10)`. */
  method Fill() returns (tree: SegTree)
    ensures tree.Valid() && tree.lo == 0 && tree.hi == 10
    ensures tree.Contents() == Ramp(10)
  {
    var made := SegTree.New(0, 10);
    tree := made.value;
    for i := 0 to 10
      invariant tree.Valid() && tree.lo == 0 && tree.hi == 10
      invariant tree.Contents() == Ramp(i) + Zeros(10 - i)
    {
      WriteOwnIndex(tree, i);
    }
    assert Ramp(10) + Zeros(0) == Ramp(10);
  }

  /** `test_ask`: after the fill, the queries of the test answer 45, 10, 35
      and 18. */
  method FillThenAsk() returns (sums: seq<Result<int>>)
    ensures sums == [Ok(45), Ok(10), Ok(35), Ok(18)]
  {
    var tree := Fill();
    RampSums();
    var a := tree.Ask(0, 10);
    var b := tree.Ask(0, 5);
    var c := tree.Ask(5, 10);
    var d := tree.Ask(3, 7);
    sums := [a, b, c, d];
  }

  /** `test_invalid_build`, `test_invalid_revise` and `test_invalid_ask`: the
      three calls that panic in the tests fail, each with its own error. */
  method InvalidCalls() returns (build: Error, revise: Error, ask: Error)
    ensures build == InvalidRange && revise == IndexOutOfRange && ask == InvalidQueryRange
  {
    var bad := SegTree.New(10, 0);
    build := bad.error;
    var made := SegTree.New(0, 10);
    var tree := made.value;
    var revised := tree.Revise(10, 10);
    revise := revised.error;
    var asked := tree.Ask(10, 0);
    ask := asked.error;
  }

  /** A revision of slot `t` leaves every node whose range does not hold `t`
      with the value it had: an out-of-range `t` changes nothing, and an
      in-range one changes only the path to its leaf. */
  method ReviseKeepsOffPathNodes(tree: SegTree, t: nat, v: int)
    requires tree.Valid()
    modifies tree.Repr()
    ensures tree.Valid()
    ensures forall n :: n in tree.Repr() && !(n.lo <= t < n.hi) ==> n.val == old(n.val)
  {
    var ok := tree.Revise(t, v);
    if ok.Ok? {
      tree.OnlyPathChanged((t, v));
    }
  }
}
