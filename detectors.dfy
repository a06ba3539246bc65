/** The three outlier detectors of main.py. Each maps a numeric series to one flag per
    element, aligned index for index; none depends on anything but its own series. */
module Detectors {

  import opened Reals
  import opened Extended
  import opened Stats

  // ---------------------------------------------------------------- Z-score

  /** `abs((x - mean) / std) > threshold` for one element `x` of `s`, with `std` the sample
      standard deviation. The square root is not taken: for std > 0 the comparison holds
      exactly when threshold < 0 or (x - mean)^2 > threshold^2 * variance. */
  predicate ZScoreExceeds(s: seq<real>, threshold: real, x: real)
  {
    if |s| < 2 then
      // the standard deviation of fewer than two values is NaN, and so is every score
      Exceeds(Magnitude(NaN), threshold)
    else
      var deviation := x - Mean(s);
      var variance := Variance(s);
      if variance == 0.0 then Exceeds(Magnitude(Divide(deviation, 0.0)), threshold)
      else threshold < 0.0 || Square(deviation) > Square(threshold) * variance
  }

  /** `detect_zscore_outliers(series, threshold)`. */
  function ZScoreOutliers(s: seq<real>, threshold: real): (flags: seq<bool>)
    ensures |flags| == |s|
  {
    seq(|s|, i requires 0 <= i < |s| => ZScoreExceeds(s, threshold, s[i]))
  }

  /** Against any positive square root `sd` of the sample variance, an element is flagged
      exactly when its standard score exceeds the threshold in magnitude, that is, when it
      lies more than threshold * sd from the mean. */
  lemma ZScoreMatchesStandardScore(s: seq<real>, threshold: real, sd: real, i: int)
    requires |s| >= 2 && 0 <= i < |s|
    requires sd > 0.0 && Square(sd) == Variance(s)
    ensures ZScoreOutliers(s, threshold)[i] <==> Abs((s[i] - Mean(s)) / sd) > threshold
    ensures ZScoreOutliers(s, threshold)[i] <==> Abs(s[i] - Mean(s)) > threshold * sd
  {
    var deviation := s[i] - Mean(s);
    SquarePositive(sd);
    AbsOfQuotient(deviation, sd);
    QuotientExceeds(Abs(deviation), sd, threshold);
    if threshold >= 0.0 {
      NonnegativeProduct(threshold, sd);
      SquareMonotone(threshold * sd, Abs(deviation));
      SquareOfAbs(deviation);
      SquareOfProduct(threshold, sd);
    } else {
      ScaleStrict(threshold, 0.0, sd);
    }
  }

  /** With no spread to measure (fewer than two values, or zero variance) every score is NaN
      and nothing is flagged. */
  lemma ZScoreWithoutSpread(s: seq<real>, threshold: real)
    requires |s| < 2 || Variance(s) == 0.0
    ensures forall i :: 0 <= i < |s| ==> !ZScoreOutliers(s, threshold)[i]
  {
    if |s| >= 2 {
      VarianceZeroIffConstant(s);
    }
  }

  /** A constant series has no Z-score outliers. */
  lemma ZScoreOfConstant(s: seq<real>, threshold: real, c: real)
    requires Constant(s, c)
    ensures forall i :: 0 <= i < |s| ==> !ZScoreOutliers(s, threshold)[i]
  {
    if |s| >= 2 {
      MeanOfConstant(s, c);
      SquaredDeviationsOfConstant(s, c);
      ZScoreWithoutSpread(s, threshold);
    }
  }

  // ---------------------------------------------------------------- IQR

  /** `series.quantile(0.25)` and `series.quantile(0.75)`. */
  function LowerQuartile(s: seq<real>): real
    requires |s| > 0
  {
    Quantile(Sort(s), 0.25)
  }

  function UpperQuartile(s: seq<real>): real
    requires |s| > 0
  {
    Quantile(Sort(s), 0.75)
  }

  /** Q1 - 1.5 * IQR and Q3 + 1.5 * IQR, with IQR = Q3 - Q1. */
  function LowerFence(s: seq<real>): real
    requires |s| > 0
  {
    LowerQuartile(s) - 1.5 * (UpperQuartile(s) - LowerQuartile(s))
  }

  function UpperFence(s: seq<real>): real
    requires |s| > 0
  {
    UpperQuartile(s) + 1.5 * (UpperQuartile(s) - LowerQuartile(s))
  }

  /** `detect_iqr_outliers(series)`: below the lower fence or above the upper one. */
  function IqrOutliers(s: seq<real>): (flags: seq<bool>)
    ensures |flags| == |s|
  {
    if |s| == 0 then []
    else
      var lower, upper := LowerFence(s), UpperFence(s);
      seq(|s|, i requires 0 <= i < |s| => s[i] < lower || s[i] > upper)
  }

  /** The quartiles lie within the data and in order, so the interquartile range is never
      negative and the fences enclose [Q1, Q3]. */
  lemma QuartilesOrdered(s: seq<real>)
    requires |s| > 0
    ensures Sort(s)[0] <= LowerQuartile(s) <= UpperQuartile(s) <= Sort(s)[|s| - 1]
    ensures LowerFence(s) <= LowerQuartile(s) && UpperQuartile(s) <= UpperFence(s)
  {
    QuantileMonotone(Sort(s), 0.25, 0.75);
    QuantileBetweenNeighbours(Sort(s), 0.25);
    QuantileBetweenNeighbours(Sort(s), 0.75);
  }

  /** When n = 4k + 1, the quartiles are the order statistics of ranks k and 3k. */
  lemma QuartilesAtIntegralRanks(s: seq<real>, k: nat)
    requires |s| == 4 * k + 1
    ensures LowerQuartile(s) == Sort(s)[k]
    ensures UpperQuartile(s) == Sort(s)[3 * k]
  {
    QuartileRanks(Sort(s), k);
  }

  lemma QuartileRanks(r: seq<real>, k: nat)
    requires |r| == 4 * k + 1
    ensures Quantile(r, 0.25) == r[k] && Quantile(r, 0.75) == r[3 * k]
  {
    assert 0.25 * ((|r| - 1) as real) == k as real;
    assert 0.75 * ((|r| - 1) as real) == (3 * k) as real;
    QuantileAtIntegralRank(r, 0.25, k);
    QuantileAtIntegralRank(r, 0.75, 3 * k);
  }

  /** A value between the quartiles is never an IQR outlier. */
  lemma IqrInterquartileNeverFlagged(s: seq<real>, i: int)
    requires 0 <= i < |s| && LowerQuartile(s) <= s[i] <= UpperQuartile(s)
    ensures !IqrOutliers(s)[i]
  {
    QuartilesOrdered(s);
  }

  /** A constant series has no IQR outliers. */
  lemma IqrOfConstant(s: seq<real>, c: real)
    requires Constant(s, c)
    ensures forall i :: 0 <= i < |s| ==> !IqrOutliers(s)[i]
  {
    if |s| > 0 {
      SortOfConstant(s, c);
      QuantileOfConstant(Sort(s), 0.25, c);
      QuantileOfConstant(Sort(s), 0.75, c);
    }
  }

  /** The fences depend only on the values, not on their order: reordering a series
      keeps every value's IQR verdict. */
  lemma IqrIgnoresOrder(s: seq<real>, t: seq<real>, i: int, j: int)
    requires multiset(s) == multiset(t)
    requires 0 <= i < |s| && 0 <= j < |t| && s[i] == t[j]
    ensures IqrOutliers(s)[i] == IqrOutliers(t)[j]
  {
    SortedPermutationsEqual(Sort(s), Sort(t));
  }

  // ---------------------------------------------------------------- percent change

  /** `series.pct_change()`: NaN at index 0, then x[i] / x[i - 1] - 1 in float arithmetic. */
  function PercentChange(s: seq<real>): (r: seq<Float>)
    ensures |r| == |s|
  {
    seq(|s|, i requires 0 <= i < |s| => if i == 0 then NaN else Minus(Divide(s[i], s[i - 1]), 1.0))
  }

  /** `detect_percent_change(series, threshold)`: `(pct_change() * 100).abs() > threshold`. */
  function PercentChangeOutliers(s: seq<real>, threshold: real): (flags: seq<bool>)
    ensures |flags| == |s|
  {
    var change := PercentChange(s);
    seq(|s|, i requires 0 <= i < |s| => Exceeds(Magnitude(Times(change[i], 100.0)), threshold))
  }

  /** The percent-change flag of every index, case by case: never at index 0; after a zero
      value exactly when the value moves away from zero (the change is an infinity; 0 / 0 is
      NaN); otherwise exactly when the relative change, in percent, exceeds the threshold. */
  lemma PercentChangeCases(s: seq<real>, threshold: real, i: int)
    requires 0 <= i < |s|
    ensures i == 0 ==> !PercentChangeOutliers(s, threshold)[i]
    ensures i > 0 && s[i - 1] == 0.0 ==> (PercentChangeOutliers(s, threshold)[i] <==> s[i] != 0.0)
    ensures i > 0 && s[i - 1] != 0.0 ==>
      (PercentChangeOutliers(s, threshold)[i] <==> Abs((s[i] - s[i - 1]) / s[i - 1]) * 100.0 > threshold)
  {
    if i > 0 && s[i - 1] != 0.0 {
      var prev := s[i - 1];
      var rel := s[i] / prev - 1.0;
      assert rel == (s[i] - prev) / prev;
      assert Abs(rel * 100.0) == Abs(rel) * 100.0;
    }
  }

  /** A constant series has no percent-change outliers for a nonnegative threshold. */
  lemma PercentChangeOfConstant(s: seq<real>, threshold: real, c: real)
    requires Constant(s, c) && threshold >= 0.0
    ensures forall i :: 0 <= i < |s| ==> !PercentChangeOutliers(s, threshold)[i]
  {
    forall i | 0 < i < |s| ensures !PercentChangeOutliers(s, threshold)[i] {
      PercentChangeCases(s, threshold, i);
      if c != 0.0 {
        assert (s[i] - s[i - 1]) / s[i - 1] == 0.0;
      }
    }
  }
}
