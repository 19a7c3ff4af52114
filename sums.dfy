/** The abstract meaning of a sum segment tree: a sequence of slot values,
    its sums over half-open index ranges, and what a point overwrite does to them. */
module RangeSums {

  /** Sum of all elements of `s` (0, the neutral element, for the empty sequence). */
  function Sum(s: seq<int>): (total: int)
  {
    if s == [] then 0 else s[0] + Sum(s[1..])
  }

  /** `n` slots, every one holding the neutral element 0. */
  function Zeros(n: nat): (z: seq<int>)
    ensures |z| == n
  {
    if n == 0 then [] else [0] + Zeros(n - 1)
  }

  /** The sum of a range of a concatenation: the range lies in the first
      part, in the second part, or straddles the seam and splits there. */
  lemma SumOfSplitRange(a: seq<int>, b: seq<int>, i: nat, j: nat)
    requires i <= j <= |a| + |b|
    ensures j <= |a| ==> Sum((a + b)[i..j]) == Sum(a[i..j])
    ensures i >= |a| ==> Sum((a + b)[i..j]) == Sum(b[i - |a|..j - |a|])
    ensures i <= |a| <= j ==> Sum((a + b)[i..j]) == Sum(a[i..]) + Sum(b[..j - |a|])
  {
    if j <= |a| {
      assert (a + b)[i..j] == a[i..j];
    }
    if i >= |a| {
      assert (a + b)[i..j] == b[i - |a|..j - |a|];
    }
    if i <= |a| <= j {
      assert (a + b)[i..j] == a[i..] + b[..j - |a|];
      SumAppend(a[i..], b[..j - |a|]);
    }
  }

  /** Every slot of a run of zeros holds 0. */
  lemma {:induction false} ZerosAt(n: nat, i: nat)
    requires i < n
    ensures Zeros(n)[i] == 0
  {
    if i > 0 {
      ZerosAt(n - 1, i - 1);
    }
  }

  /** Sums split over concatenation: a range split at any point sums to the sum of its parts. */
  lemma {:induction false} SumAppend(a: seq<int>, b: seq<int>)
    ensures Sum(a + b) == Sum(a) + Sum(b)
  {
    if a == [] {
      assert a + b == b;
    } else {
      assert (a + b)[1..] == a[1..] + b;
      SumAppend(a[1..], b);
    }
  }

  /** Two runs of zeros side by side are one run of zeros. */
  lemma {:induction false} ZerosAppend(a: nat, b: nat)
    ensures Zeros(a) + Zeros(b) == Zeros(a + b)
  {
    if a > 0 {
      ZerosAppend(a - 1, b);
      assert Zeros(a) + Zeros(b) == [0] + (Zeros(a - 1) + Zeros(b));
    }
  }

  /** Every range of a sequence of zeros sums to zero. */
  lemma {:induction false} SumZeros(n: nat, i: nat, j: nat)
    requires i <= j <= n
    ensures Sum(Zeros(n)[i..j]) == 0
    decreases j - i
  {
    if i < j {
      ZerosAt(n, i);
      assert Zeros(n)[i..j] == [0] + Zeros(n)[i + 1..j];
      SumZeros(n, i + 1, j);
    }
  }

  /** A single slot sums to its own value. */
  lemma SumSingle(s: seq<int>, k: nat)
    requires k < |s|
    ensures Sum(s[k..k + 1]) == s[k]
  {
    assert s[k..k + 1] == [s[k]];
  }

  /** Overwriting slot `k` with `v` (replacement, not accumulation): the sum of any range
      holding `k` moves by `v - s[k]`, and the sum of any range not holding `k` stays. */
  lemma {:induction false} SumAfterOverwrite(s: seq<int>, k: nat, v: int, i: nat, j: nat)
    requires k < |s| && i <= j <= |s|
    ensures i <= k < j ==> Sum(s[k := v][i..j]) == Sum(s[i..j]) - s[k] + v
    ensures !(i <= k < j) ==> Sum(s[k := v][i..j]) == Sum(s[i..j])
  {
    var t := s[k := v];
    if i <= k < j {
      assert s[i..j] == s[i..k] + ([s[k]] + s[k + 1..j]);
      assert t[i..j] == s[i..k] + ([v] + s[k + 1..j]);
      SumAppend(s[i..k], [s[k]] + s[k + 1..j]);
      SumAppend([s[k]] + s[k + 1..j], []);
      SumAppend(s[i..k], [v] + s[k + 1..j]);
      SumAppend([s[k]], s[k + 1..j]);
      SumAppend([v], s[k + 1..j]);
    } else {
      assert t[i..j] == s[i..j];
    }
  }

  /** Two concatenations with equally long first parts are equal only part by part. */
  lemma ConcatParts(a: seq<int>, b: seq<int>, c: seq<int>, d: seq<int>)
    requires |a| == |c| && a + b == c + d
    ensures a == c && b == d
  {
    assert a == (a + b)[..|a|] && c == (c + d)[..|c|];
    assert b == (a + b)[|a|..] && d == (c + d)[|c|..];
  }

  /** Overwriting a slot of a concatenation overwrites it in the part that holds it. */
  lemma OverwriteConcat(a: seq<int>, b: seq<int>, k: nat, v: int)
    requires k < |a| + |b|
    ensures k < |a| ==> (a + b)[k := v] == a[k := v] + b
    ensures k >= |a| ==> (a + b)[k := v] == a + b[k - |a| := v]
  {
    if k < |a| {
      assert (a + b)[k := v] == a[k := v] + b;
    } else {
      assert (a + b)[k := v] == a + b[k - |a| := v];
    }
  }

  /** After overwriting slot `k` with `v`, the one-slot range at `k` sums to exactly `v`. */
  lemma OverwriteThenPoint(s: seq<int>, k: nat, v: int)
    requires k < |s|
    ensures Sum(s[k := v][k..k + 1]) == v
  {
    SumSingle(s[k := v], k);
  }

  /** Overwriting the same slot with the same value twice leaves every range sum as once. */
  lemma OverwriteIdempotent(s: seq<int>, k: nat, v: int, i: nat, j: nat)
    requires k < |s| && i <= j <= |s|
    ensures Sum(s[k := v][k := v][i..j]) == Sum(s[k := v][i..j])
  {
    assert s[k := v][k := v] == s[k := v];
  }
}
