/** Exact sums over sequences of reals, and the facts about them the statistics need. */
module Sums {

  /** Σ xs, accumulated from the front as a running total would be. */
  function Sum(xs: seq<real>): real {
    if |xs| == 0 then 0.0 else Sum(xs[..|xs| - 1]) + xs[|xs| - 1]
  }

  /** Σ xs[i]·ws[i]. */
  function WeightedSum(xs: seq<real>, ws: seq<real>): real
    requires |xs| == |ws|
  {
    if |xs| == 0 then 0.0
    else WeightedSum(xs[..|xs| - 1], ws[..|ws| - 1]) + xs[|xs| - 1] * ws[|ws| - 1]
  }

  /** The row-by-row sum of two columns of equal length. */
  function Plus(a: seq<real>, b: seq<real>): (r: seq<real>)
    requires |a| == |b|
    ensures |r| == |a|
  {
    seq(|a|, i requires 0 <= i < |a| => a[i] + b[i])
  }

  /** Weighting distributes over adding two columns row by row. */
  lemma {:induction false} WeightedSumPlus(a: seq<real>, b: seq<real>, ws: seq<real>)
    requires |a| == |b| == |ws|
    ensures WeightedSum(a, ws) + WeightedSum(b, ws) == WeightedSum(Plus(a, b), ws)
  {
    var n := |a|;
    if n > 0 {
      assert Plus(a, b)[..n - 1] == Plus(a[..n - 1], b[..n - 1]);
      WeightedSumPlus(a[..n - 1], b[..n - 1], ws[..n - 1]);
    }
  }

  /** A column that is 1 on every row weights to the total weight. */
  lemma {:induction false} WeightedSumOfOnes(a: seq<real>, ws: seq<real>)
    requires |a| == |ws|
    requires forall i :: 0 <= i < |a| ==> a[i] == 1.0
    ensures WeightedSum(a, ws) == Sum(ws)
  {
    if |a| > 0 {
      WeightedSumOfOnes(a[..|a| - 1], ws[..|ws| - 1]);
    }
  }

  /** A sequence of zeros sums to 0. */
  lemma {:induction false} SumOfZeros(xs: seq<real>)
    requires forall i :: 0 <= i < |xs| ==> xs[i] == 0.0
    ensures Sum(xs) == 0.0
  {
    if |xs| > 0 {
      SumOfZeros(xs[..|xs| - 1]);
    }
  }

  /** Every element in [lo, hi] puts the sum in [lo·n, hi·n]. */
  lemma {:induction false} SumBounds(xs: seq<real>, lo: real, hi: real)
    requires forall i :: 0 <= i < |xs| ==> lo <= xs[i] <= hi
    ensures lo * |xs| as real <= Sum(xs) <= hi * |xs| as real
  {
    if |xs| > 0 {
      SumBounds(xs[..|xs| - 1], lo, hi);
    }
  }

  /**
   * With non-negative weights and every value in [lo, hi], the weighted sum
   * lies between lo and hi times the total weight.
   */
  lemma {:induction false} WeightedSumBounds(xs: seq<real>, ws: seq<real>, lo: real, hi: real)
    requires |xs| == |ws|
    requires forall i :: 0 <= i < |xs| ==> lo <= xs[i] <= hi && 0.0 <= ws[i]
    ensures lo * Sum(ws) <= WeightedSum(xs, ws) <= hi * Sum(ws)
  {
    var n := |xs|;
    if n > 0 {
      var s0, t0 := WeightedSum(xs[..n - 1], ws[..n - 1]), Sum(ws[..n - 1]);
      assert lo * t0 <= s0 <= hi * t0 by {
        assert forall i :: 0 <= i < n - 1 ==> xs[..n - 1][i] == xs[i] && ws[..n - 1][i] == ws[i];
        WeightedSumBounds(xs[..n - 1], ws[..n - 1], lo, hi);
      }
      var x, w := xs[n - 1], ws[n - 1];
      TermBounds(x, w, lo, hi);
      assert WeightedSum(xs, ws) == s0 + x * w;
      assert Sum(ws) == t0 + w;
      assert lo * Sum(ws) == lo * t0 + lo * w by {
        Distribute(lo, t0, w);
      }
      assert hi * Sum(ws) == hi * t0 + hi * w by {
        Distribute(hi, t0, w);
      }
      AddBounds(lo * t0, s0, hi * t0, lo * w, x * w, hi * w);
    }
  }

  /** One weighted term of a value in [lo, hi]. */
  lemma TermBounds(x: real, w: real, lo: real, hi: real)
    requires lo <= x <= hi && 0.0 <= w
    ensures lo * w <= x * w <= hi * w
  {
    assert (x - lo) * w >= 0.0;
    assert (hi - x) * w >= 0.0;
  }

  lemma AddBounds(a1: real, b1: real, c1: real, a2: real, b2: real, c2: real)
    requires a1 <= b1 <= c1 && a2 <= b2 <= c2
    ensures a1 + a2 <= b1 + b2 <= c1 + c2
  {
  }

  lemma Distribute(a: real, b: real, c: real)
    ensures a * (b + c) == a * b + a * c
  {
  }

  /** Dividing by a positive total keeps a bound that held after multiplying by it. */
  lemma QuotientBounds(s: real, t: real, lo: real, hi: real)
    requires t > 0.0 && lo * t <= s <= hi * t
    ensures lo <= s / t <= hi
  {
  }

  /** Σ xs[i]·ws[i] / Σ ws. */
  function WeightedMean(xs: seq<real>, ws: seq<real>): real
    requires |xs| == |ws| && Sum(ws) != 0.0
  {
    WeightedSum(xs, ws) / Sum(ws)
  }

  /** The weighted mean of a column that is 1 on every row is 1. */
  lemma WeightedMeanOfOnes(a: seq<real>, ws: seq<real>)
    requires |a| == |ws| && Sum(ws) != 0.0
    requires forall i :: 0 <= i < |a| ==> a[i] == 1.0
    ensures WeightedMean(a, ws) == 1.0
  {
    var t := Sum(ws);
    assert WeightedSum(a, ws) == t by {
      WeightedSumOfOnes(a, ws);
    }
    assert t / t == 1.0;
  }

  /** The weighted mean of values in [lo, hi] is in [lo, hi]. */
  lemma WeightedMeanBounds(xs: seq<real>, ws: seq<real>, lo: real, hi: real)
    requires |xs| == |ws|
    requires forall i :: 0 <= i < |xs| ==> lo <= xs[i] <= hi && 0.0 <= ws[i]
    requires Sum(ws) > 0.0
    ensures lo <= WeightedMean(xs, ws) <= hi
  {
    var s, t := WeightedSum(xs, ws), Sum(ws);
    assert lo * t <= s <= hi * t by {
      WeightedSumBounds(xs, ws, lo, hi);
    }
    QuotientBounds(s, t, lo, hi);
  }
}
