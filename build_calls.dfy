/** Whether the recursive construction of a segment tree returns.

    `build(l, r)` stops only at a width-1 range; any other range is split at
    `Mid(l, r)` and both halves are built. `new(l, r)` always splits once and
    builds both halves. An empty range `[l, l)` has `Mid(l, l) == l`, so
    `build(l, l)` calls `build(l, l)` again and never returns; `new(l, l + 1)`
    asks for exactly that. The predicates below count nested calls with a
    depth budget, so "returns" means "returns within some finite depth". */
module BuildCalls {

  /** The split point `l + (r - l) / 2` of a range (floor: odd ranges split left-biased). */
  function Mid(l: nat, r: nat): (m: nat)
    requires l <= r
    ensures l <= m <= r
    ensures r - l >= 2 ==> l < m < r
    ensures m - l <= r - m <= m - l + 1
  {
    l + (r - l) / 2
  }

  /** `build(l, r)` returns with at most `depth` levels of nested calls. */
  ghost predicate BuildReturns(l: nat, r: nat, depth: nat)
    requires l <= r
    decreases depth
  {
    if r - l == 1 then true
    else depth > 0 && BuildReturns(l, Mid(l, r), depth - 1) && BuildReturns(Mid(l, r), r, depth - 1)
  }

  /** `new(l, r)` returns with at most `depth` levels of nested `build` calls
      (it panics, and so returns no tree, unless `l < r`). */
  ghost predicate NewReturns(l: nat, r: nat, depth: nat)
  {
    l < r && BuildReturns(l, Mid(l, r), depth) && BuildReturns(Mid(l, r), r, depth)
  }

  /** `build(l, l)` never returns, whatever depth is allowed. */
  lemma {:induction false} BuildEmptyDiverges(l: nat, depth: nat)
    ensures !BuildReturns(l, l, depth)
  {
    if depth > 0 {
      assert Mid(l, l) == l;
      BuildEmptyDiverges(l, depth - 1);
    }
  }

  /** `build(l, r)` on a non-empty range returns; `r - l - 1` levels always suffice. */
  lemma {:induction false} BuildNonEmptyReturns(l: nat, r: nat, depth: nat)
    requires l < r && depth >= r - l - 1
    ensures BuildReturns(l, r, depth)
    decreases r - l
  {
    if r - l != 1 {
      var m := Mid(l, r);
      BuildNonEmptyReturns(l, m, depth - 1);
      BuildNonEmptyReturns(m, r, depth - 1);
    }
  }

  /** `new(l, l + 1)` never returns: its left half is the empty range `[l, l)`. */
  lemma NewWidthOneDiverges(l: nat, depth: nat)
    ensures !NewReturns(l, l + 1, depth)
  {
    assert Mid(l, l + 1) == l;
    BuildEmptyDiverges(l, depth);
  }

  /** `new(l, r)` returns exactly when `l < r` and the range is not of width 1. */
  lemma NewReturnsIff(l: nat, r: nat)
    ensures (l < r && r - l != 1) ==> NewReturns(l, r, r - l)
    ensures (l >= r || r - l == 1) ==> forall depth: nat :: !NewReturns(l, r, depth)
  {
    if l < r && r - l != 1 {
      BuildNonEmptyReturns(l, Mid(l, r), r - l);
      BuildNonEmptyReturns(Mid(l, r), r, r - l);
    } else if l < r {
      forall depth: nat ensures !NewReturns(l, r, depth) {
        NewWidthOneDiverges(l, depth);
      }
    }
  }
}
