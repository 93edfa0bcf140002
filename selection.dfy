/**
  Propensity-weighted choice of the next reaction: walk the propensities
  keeping a running sum (the tally) and stop at the first index whose
  tally, divided by the total, is strictly above the threshold `r`.
*/
module Selection {

  /** Sum of the first `k` weights, accumulated left to right. */
  function Tally(p: seq<real>, k: nat): real
    requires k <= |p|
  {
    if k == 0 then 0.0 else Tally(p, k - 1) + p[k - 1]
  }

  /** Sum of all weights. */
  function Total(p: seq<real>): real
  {
    Tally(p, |p|)
  }

  predicate NonNegativeWeights(p: seq<real>)
  {
    forall i :: 0 <= i < |p| ==> p[i] >= 0.0
  }

  /** Index `i` passes the test `tally / total > r` of the selection loop. */
  predicate Crosses(p: seq<real>, total: real, r: real, i: nat)
  {
    i < |p| && total != 0.0 && Tally(p, i + 1) / total > r
  }

  /**
    `k` is what the selection loop returns: the first index that passes
    the test, or `|p|` when none does.
  */
  predicate IsChoice(p: seq<real>, total: real, r: real, k: nat)
  {
    && k <= |p|
    && (k < |p| ==> Crosses(p, total, r, k))
    && forall j :: 0 <= j < k ==> !Crosses(p, total, r, j)
  }

  lemma {:induction false} TallyMonotone(p: seq<real>, i: nat, j: nat)
    requires NonNegativeWeights(p) && i <= j <= |p|
    ensures Tally(p, i) <= Tally(p, j)
    decreases j - i
  {
    if i < j {
      TallyMonotone(p, i, j - 1);
    }
  }

  /** Weights that are all non-negative have a non-negative total. */
  lemma TotalNonNegative(p: seq<real>)
    requires NonNegativeWeights(p)
    ensures Total(p) >= 0.0
  {
    TallyMonotone(p, 0, |p|);
  }

  lemma DivideMonotone(a: real, b: real, t: real)
    requires a <= b && t > 0.0
    ensures a / t <= b / t
  {
    assert b / t - a / t == (b - a) / t;
  }

  /**
    With non-negative weights summing to a positive total and a threshold
    in [0, 1), the choice is a real index and never one of weight 0.
  */
  lemma ChoiceIsPositive(p: seq<real>, total: real, r: real, k: nat)
    requires NonNegativeWeights(p) && total == Total(p) && total > 0.0
    requires 0.0 <= r < 1.0
    requires IsChoice(p, total, r, k)
    ensures k < |p| && p[k] > 0.0
  {
    assert |p| > 0;
    assert Tally(p, |p|) == total;
    DivideSelf(total);
    assert Crosses(p, total, r, |p| - 1);
    assert Tally(p, k) / total <= r by {
      if k > 0 {
        assert !Crosses(p, total, r, k - 1);
      }
    }
    assert r < Tally(p, k + 1) / total;
    DivideStrict(Tally(p, k), Tally(p, k + 1), total);
  }

  lemma DivideSelf(t: real)
    requires t > 0.0
    ensures t / t == 1.0
  {
  }

  lemma DivideStrict(a: real, b: real, t: real)
    requires t > 0.0 && a / t < b / t
    ensures a < b
  {
    assert b / t - a / t == (b - a) / t;
  }

  /**
    Propensity-proportional selection: with non-negative weights, index
    `k` is chosen exactly when `r` falls in
    [Tally(k) / total, Tally(k + 1) / total), an interval of width
    p[k] / total.
  */
  lemma ChoiceInterval(p: seq<real>, total: real, r: real, k: nat)
    requires NonNegativeWeights(p) && total == Total(p) && total > 0.0
    requires 0.0 <= r && k < |p|
    ensures IsChoice(p, total, r, k) <==> Tally(p, k) / total <= r < Tally(p, k + 1) / total
  {
    if IsChoice(p, total, r, k) && k > 0 {
      assert !Crosses(p, total, r, k - 1);
    }
    if Tally(p, k) / total <= r < Tally(p, k + 1) / total {
      forall j | 0 <= j < k
        ensures !Crosses(p, total, r, j)
      {
        TallyMonotone(p, j + 1, k);
        DivideMonotone(Tally(p, j + 1), Tally(p, k), total);
      }
    }
  }
}
