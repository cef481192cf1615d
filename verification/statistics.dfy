/** The statistics the aggregation reports over a group's per-quarter sums:
    `sum`, `statistics.mean` and `statistics.pvariance`, on exact reals. */
module Statistics {

  function Sum(xs: seq<real>): real {
    if xs == [] then 0.0 else xs[0] + Sum(xs[1..])
  }

  /** `statistics.mean(xs)`, which rejects an empty list. */
  function Mean(xs: seq<real>): real
    requires |xs| > 0
  {
    Sum(xs) / |xs| as real
  }

  /** The sum of squared deviations from `m`. */
  function SquaredDeviations(xs: seq<real>, m: real): real {
    if xs == [] then 0.0 else (xs[0] - m) * (xs[0] - m) + SquaredDeviations(xs[1..], m)
  }

  /** `statistics.pvariance(xs)`: the mean squared deviation from the mean,
      dividing by the number of values, not one less. */
  function PVariance(xs: seq<real>): real
    requires |xs| > 0
  {
    SquaredDeviations(xs, Mean(xs)) / |xs| as real
  }

  lemma {:induction false} SumAppend(a: seq<real>, b: seq<real>)
    ensures Sum(a + b) == Sum(a) + Sum(b)
  {
    if a == [] {
      assert a + b == b;
    } else {
      assert (a + b)[1..] == a[1..] + b;
      SumAppend(a[1..], b);
    }
  }

  /** Adding `v` to one value adds `v` to the sum. */
  lemma {:induction false} SumIncrease(xs: seq<real>, j: nat, v: real)
    requires j < |xs|
    ensures Sum(xs[j := xs[j] + v]) == Sum(xs) + v
  {
    if j == 0 {
      assert xs[j := xs[j] + v][1..] == xs[1..];
    } else {
      SumIncrease(xs[1..], j - 1, v);
      assert xs[j := xs[j] + v][1..] == xs[1..][j - 1 := xs[1..][j - 1] + v];
    }
  }

  /** Values between `lo` and `hi` sum to between `n * lo` and `n * hi`. */
  lemma {:induction false} SumBounds(xs: seq<real>, lo: real, hi: real)
    requires forall i :: 0 <= i < |xs| ==> lo <= xs[i] <= hi
    ensures |xs| as real * lo <= Sum(xs) <= |xs| as real * hi
  {
    if xs != [] {
      assert lo <= xs[0] <= hi;
      SumBounds(xs[1..], lo, hi);
    }
  }

  /** The mean lies between any lower and upper bound of the values. */
  lemma MeanBetween(xs: seq<real>, lo: real, hi: real)
    requires |xs| > 0
    requires forall i :: 0 <= i < |xs| ==> lo <= xs[i] <= hi
    ensures lo <= Mean(xs) <= hi
  {
    SumBounds(xs, lo, hi);
    var n := |xs| as real;
    DivideBounds(Sum(xs), n, lo, hi);
  }

  lemma DivideBounds(s: real, n: real, lo: real, hi: real)
    requires n > 0.0 && n * lo <= s <= n * hi
    ensures lo <= s / n <= hi
  {
  }

  lemma {:induction false} SquaredDeviationsNonnegative(xs: seq<real>, m: real)
    ensures SquaredDeviations(xs, m) >= 0.0
  {
    if xs != [] {
      SquaredDeviationsNonnegative(xs[1..], m);
      assert (xs[0] - m) * (xs[0] - m) >= 0.0;
    }
  }

  /** Values that all equal `m` do not deviate from it. */
  lemma {:induction false} SquaredDeviationsOfConstant(xs: seq<real>, m: real)
    requires forall i :: 0 <= i < |xs| ==> xs[i] == m
    ensures SquaredDeviations(xs, m) == 0.0
  {
    if xs != [] {
      SquaredDeviationsOfConstant(xs[1..], m);
    }
  }

  /** The population variance is never negative. */
  lemma PVarianceNonnegative(xs: seq<real>)
    requires |xs| > 0
    ensures PVariance(xs) >= 0.0
  {
    SquaredDeviationsNonnegative(xs, Mean(xs));
    DivideBounds(SquaredDeviations(xs, Mean(xs)), |xs| as real, 0.0, SquaredDeviations(xs, Mean(xs)));
  }

  /** A list of one value repeated has that value as its mean and no spread. */
  lemma ConstantStatistics(xs: seq<real>, c: real)
    requires |xs| > 0
    requires forall i :: 0 <= i < |xs| ==> xs[i] == c
    ensures Mean(xs) == c
    ensures PVariance(xs) == 0.0
  {
    MeanBetween(xs, c, c);
    SquaredDeviationsOfConstant(xs, c);
  }
}
