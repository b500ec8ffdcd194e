/** The numeric aggregates the video detector takes over per-frame scores:
    `np.mean` guarded by `if xs else 0.0`, and the count of scores above the
    threshold. */
module Aggregate {
  import opened Common

  function Sum(xs: seq<real>): real {
    if xs == [] then 0.0 else xs[0] + Sum(xs[1..])
  }

  /** `float(np.mean(xs)) if xs else 0.0` */
  function Mean(xs: seq<real>): real {
    if xs == [] then 0.0 else Sum(xs) / (|xs| as real)
  }

  lemma {:induction false} SumAtLeast(xs: seq<real>, lo: real)
    requires forall i :: 0 <= i < |xs| ==> lo <= xs[i]
    ensures (|xs| as real) * lo <= Sum(xs)
  {
    if xs != [] {
      SumAtLeast(xs[1..], lo);
    }
  }

  lemma {:induction false} SumAtMost(xs: seq<real>, hi: real)
    requires forall i :: 0 <= i < |xs| ==> xs[i] <= hi
    ensures Sum(xs) <= (|xs| as real) * hi
  {
    if xs != [] {
      SumAtMost(xs[1..], hi);
    }
  }

  lemma {:induction false} SumStrictlyAbove(xs: seq<real>, lo: real)
    requires xs != []
    requires forall i :: 0 <= i < |xs| ==> lo < xs[i]
    ensures (|xs| as real) * lo < Sum(xs)
  {
    if |xs| > 1 {
      SumStrictlyAbove(xs[1..], lo);
    }
  }

  lemma DivideBounds(s: real, n: real, lo: real, hi: real)
    requires n > 0.0 && n * lo <= s <= n * hi
    ensures lo <= s / n <= hi
  {
    assert s == n * (s / n);
  }

  lemma DivideAtMost(s: real, n: real, hi: real)
    requires n > 0.0 && s <= n * hi
    ensures s / n <= hi
  {
    assert s == n * (s / n);
  }

  lemma DivideStrictlyAbove(s: real, n: real, lo: real)
    requires n > 0.0 && n * lo < s
    ensures lo < s / n
  {
    assert s == n * (s / n);
  }

  /** The mean of a non-empty sequence lies between any bounds of its elements. */
  lemma MeanBounds(xs: seq<real>, lo: real, hi: real)
    requires xs != []
    requires forall i :: 0 <= i < |xs| ==> lo <= xs[i] <= hi
    ensures lo <= Mean(xs) <= hi
  {
    SumAtLeast(xs, lo);
    SumAtMost(xs, hi);
    DivideBounds(Sum(xs), |xs| as real, lo, hi);
  }

  /** Scores in [0,1] have a mean in [0,1]; so does the empty mean, 0.0. */
  lemma MeanInUnit(xs: seq<real>)
    requires forall i :: 0 <= i < |xs| ==> InUnit(xs[i])
    ensures InUnit(Mean(xs))
  {
    if xs != [] {
      MeanBounds(xs, 0.0, 1.0);
    }
  }

  /** `sum(1 for s in xs if s > 0.5)` */
  function HighCount(xs: seq<real>): (n: nat)
    ensures n <= |xs|
    ensures n == 0 <==> forall i :: 0 <= i < |xs| ==> !IsAi(xs[i])
    ensures n == |xs| <==> forall i :: 0 <= i < |xs| ==> IsAi(xs[i])
  {
    if xs == [] then 0
    else
      var rest := HighCount(xs[1..]);
      assert forall i :: 1 <= i < |xs| ==> xs[i] == xs[1..][i - 1];
      (if IsAi(xs[0]) then 1 else 0) + rest
  }

  lemma MeanAboveWhenAllAbove(xs: seq<real>, lo: real)
    requires xs != []
    requires forall i :: 0 <= i < |xs| ==> lo < xs[i]
    ensures lo < Mean(xs)
  {
    SumStrictlyAbove(xs, lo);
    DivideStrictlyAbove(Sum(xs), |xs| as real, lo);
  }

  lemma MeanAtMostWhenAllAtMost(xs: seq<real>, hi: real)
    requires xs != []
    requires forall i :: 0 <= i < |xs| ==> xs[i] <= hi
    ensures Mean(xs) <= hi
  {
    SumAtMost(xs, hi);
    DivideAtMost(Sum(xs), |xs| as real, hi);
  }

  /** When every frame is above the threshold, so is the mean; when none is, the mean is not. */
  lemma HighCountAgreesWithMean(xs: seq<real>)
    requires xs != []
    ensures HighCount(xs) == |xs| ==> IsAi(Mean(xs))
    ensures HighCount(xs) == 0 ==> !IsAi(Mean(xs))
  {
    if HighCount(xs) == |xs| {
      MeanAboveWhenAllAbove(xs, Threshold);
    }
    if HighCount(xs) == 0 {
      MeanAtMostWhenAllAtMost(xs, Threshold);
    }
  }
}
