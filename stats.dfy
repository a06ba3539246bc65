/** The series statistics the detectors rely on, with pandas' default semantics
    over exact reals: `mean`, `std` with ddof = 1 (kept as a variance, squared),
    and `quantile` with linear interpolation over a sorted copy. */
module Stats {

  import opened Reals

  function Sum(s: seq<real>): (total: real)
  {
    if s == [] then 0.0 else s[0] + Sum(s[1..])
  }

  function Mean(s: seq<real>): (mean: real)
    requires |s| > 0
  {
    Sum(s) / (|s| as real)
  }

  /** Sum of the squared deviations of the elements of `s` from `m`. */
  function SquaredDeviations(s: seq<real>, m: real): (total: real)
  {
    if s == [] then 0.0 else Square(s[0] - m) + SquaredDeviations(s[1..], m)
  }

  /** Sample variance (pandas `std` with its default ddof = 1, squared). */
  function Variance(s: seq<real>): (variance: real)
    requires |s| >= 2
  {
    SquaredDeviations(s, Mean(s)) / ((|s| - 1) as real)
  }

  ghost predicate Constant(s: seq<real>, c: real)
  {
    forall i :: 0 <= i < |s| ==> s[i] == c
  }

  lemma {:induction false} SumOfConstant(s: seq<real>, c: real)
    requires Constant(s, c)
    ensures Sum(s) == (|s| as real) * c
  {
    if s != [] {
      SumOfConstant(s[1..], c);
      assert Sum(s) == c + ((|s| - 1) as real) * c;
    }
  }

  /** The mean of a constant series is that constant. */
  lemma MeanOfConstant(s: seq<real>, c: real)
    requires |s| > 0 && Constant(s, c)
    ensures Mean(s) == c
  {
    SumOfConstant(s, c);
  }

  lemma {:induction false} SquaredDeviationsNonnegative(s: seq<real>, m: real)
    ensures SquaredDeviations(s, m) >= 0.0
  {
    if s != [] {
      SquaredDeviationsNonnegative(s[1..], m);
      SquareNonnegative(s[0] - m);
    }
  }

  /** One element away from `m` makes the squared deviations strictly positive. */
  lemma {:induction false} SquaredDeviationsPositive(s: seq<real>, m: real, i: nat)
    requires i < |s| && s[i] != m
    ensures SquaredDeviations(s, m) > 0.0
  {
    SquareNonnegative(s[0] - m);
    if i == 0 {
      SquarePositive(s[0] - m);
      SquaredDeviationsNonnegative(s[1..], m);
    } else {
      SquaredDeviationsPositive(s[1..], m, i - 1);
    }
  }

  lemma {:induction false} SquaredDeviationsOfConstant(s: seq<real>, m: real)
    requires Constant(s, m)
    ensures SquaredDeviations(s, m) == 0.0
  {
    if s != [] {
      SquaredDeviationsOfConstant(s[1..], m);
      assert Square(s[0] - m) == Square(0.0);
    }
  }

  /** The squared deviations from `m` vanish exactly when every element equals `m`. */
  lemma SquaredDeviationsZero(s: seq<real>, m: real)
    ensures SquaredDeviations(s, m) == 0.0 <==> Constant(s, m)
  {
    if !Constant(s, m) {
      var i :| 0 <= i < |s| && s[i] != m;
      SquaredDeviationsPositive(s, m, i);
    } else {
      SquaredDeviationsOfConstant(s, m);
    }
  }

  /** The sample variance is never negative, and it is zero exactly for a constant series. */
  lemma VarianceZeroIffConstant(s: seq<real>)
    requires |s| >= 2
    ensures Variance(s) >= 0.0
    ensures Variance(s) == 0.0 <==> Constant(s, Mean(s))
  {
    SquaredDeviationsNonnegative(s, Mean(s));
    SquaredDeviationsZero(s, Mean(s));
  }

  ghost predicate Sorted(s: seq<real>)
  {
    forall i, j :: 0 <= i < j < |s| ==> s[i] <= s[j]
  }

  /** Inserts `x` before the first element not smaller than it. */
  function Insert(x: real, s: seq<real>): (r: seq<real>)
    ensures multiset(r) == multiset(s) + multiset{x}
    ensures |r| == |s| + 1
  {
    if s == [] || x <= s[0] then [x] + s
    else
      assert s == [s[0]] + s[1..];
      [s[0]] + Insert(x, s[1..])
  }

  /** Insertion into a sorted sequence keeps it sorted. */
  lemma {:induction false} InsertSorted(x: real, s: seq<real>)
    requires Sorted(s)
    ensures Sorted(Insert(x, s))
  {
    if s != [] && !(x <= s[0]) {
      var rest := Insert(x, s[1..]);
      InsertSorted(x, s[1..]);
      forall i | 0 <= i < |rest| ensures s[0] <= rest[i] {
        assert rest[i] in multiset(rest);
      }
      PrependLowerBound(s[0], rest);
    }
  }

  lemma PrependLowerBound(a: real, s: seq<real>)
    requires Sorted(s) && forall i :: 0 <= i < |s| ==> a <= s[i]
    ensures Sorted([a] + s)
  {
  }

  /** The sorted copy of a series that `quantile` works on: ascending, and a permutation of `s`. */
  function Sort(s: seq<real>): (r: seq<real>)
    ensures Sorted(r)
    ensures multiset(r) == multiset(s)
    ensures |r| == |s|
  {
    if s == [] then []
    else
      assert s == [s[0]] + s[1..];
      InsertSorted(s[0], Sort(s[1..]));
      Insert(s[0], Sort(s[1..]))
  }

  /** Two sorted sequences with the same elements are equal: the sorted copy depends only on the values. */
  lemma {:induction false} SortedPermutationsEqual(a: seq<real>, b: seq<real>)
    requires Sorted(a) && Sorted(b) && multiset(a) == multiset(b)
    ensures a == b
  {
    assert |a| == |multiset(a)| == |b|;
    if a != [] {
      assert a[0] in multiset(b) && b[0] in multiset(a) by {
        assert a[0] in multiset(a) && b[0] in multiset(b);
      }
      SortedHeadIsLeast(a, b[0]);
      SortedHeadIsLeast(b, a[0]);
      var x := a[0];
      assert b[0] == x;
      DropHead(a);
      DropHead(b);
      assert multiset(a[1..]) == multiset(b[1..]) by {
        assert multiset(a[1..]) == multiset(a) - multiset{x};
        assert multiset(b[1..]) == multiset(b) - multiset{x};
      }
      SortedTail(a);
      SortedTail(b);
      SortedPermutationsEqual(a[1..], b[1..]);
      SameHeadSameTail(a, b);
    }
  }

  lemma SameHeadSameTail(a: seq<real>, b: seq<real>)
    requires a != [] && b != [] && a[0] == b[0] && a[1..] == b[1..]
    ensures a == b
  {
    assert a == [a[0]] + a[1..] && b == [b[0]] + b[1..];
  }

  lemma SortedTail(a: seq<real>)
    requires Sorted(a) && a != []
    ensures Sorted(a[1..])
  {
  }

  lemma SortedHeadIsLeast(a: seq<real>, x: real)
    requires Sorted(a) && x in multiset(a)
    ensures a[0] <= x
  {
    assert x in a;
  }

  lemma DropHead(a: seq<real>)
    requires a != []
    ensures multiset(a[1..]) == multiset(a) - multiset{a[0]}
  {
    assert a == [a[0]] + a[1..];
  }

  /** The integer part of the fractional rank p * (n - 1). */
  function Rank(n: nat, p: real): (k: nat)
    requires n > 0 && 0.0 <= p <= 1.0
    ensures k < n
    ensures k as real <= p * ((n - 1) as real) < k as real + 1.0
  {
    var h := p * ((n - 1) as real);
    assert 0.0 <= h <= (n - 1) as real by {
      NonnegativeProduct(p, (n - 1) as real);
      ScaleMonotone(p, 1.0, (n - 1) as real);
    }
    h.Floor
  }

  lemma RankMonotone(n: nat, p1: real, p2: real)
    requires n > 0 && 0.0 <= p1 <= p2 <= 1.0
    ensures Rank(n, p1) <= Rank(n, p2)
  {
    var h1, h2 := p1 * ((n - 1) as real), p2 * ((n - 1) as real);
    ScaleMonotone(p1, p2, (n - 1) as real);
    FloorsOrdered(h1, h2, Rank(n, p1), Rank(n, p2));
  }

  lemma FloorsOrdered(h1: real, h2: real, k1: int, k2: int)
    requires h1 <= h2 && k1 as real <= h1 && h2 < k2 as real + 1.0
    ensures k1 <= k2
  {
  }

  /** pandas' default `quantile` (linear interpolation) of the value at fractional
      rank p * (n - 1), where `s` is the sorted copy of the series. */
  function Quantile(s: seq<real>, p: real): (q: real)
    requires |s| > 0 && 0.0 <= p <= 1.0
  {
    var k := Rank(|s|, p);
    if k + 1 < |s| then Interpolate(s[k], s[k + 1], p * ((|s| - 1) as real) - k as real) else s[k]
  }

  /** The point a fraction `f` of the way from `a` to `b`. */
  function Interpolate(a: real, b: real, f: real): real
  {
    a + f * (b - a)
  }

  lemma InterpolateBetween(a: real, b: real, f: real)
    requires a <= b && 0.0 <= f <= 1.0
    ensures a <= Interpolate(a, b, f) <= b
  {
    NonnegativeProduct(f, b - a);
    ScaleMonotone(f, 1.0, b - a);
  }

  lemma InterpolateMonotone(a: real, b: real, f1: real, f2: real)
    requires a <= b && f1 <= f2
    ensures Interpolate(a, b, f1) <= Interpolate(a, b, f2)
  {
    ScaleMonotone(f1, f2, b - a);
  }

  /** A quantile lies between the two order statistics around its rank, hence between
      the smallest and the largest value. */
  lemma QuantileBetweenNeighbours(s: seq<real>, p: real)
    requires |s| > 0 && 0.0 <= p <= 1.0 && Sorted(s)
    ensures var k := Rank(|s|, p);
      && s[k] <= Quantile(s, p)
      && (k + 1 < |s| ==> Quantile(s, p) <= s[k + 1])
      && (k + 1 == |s| ==> Quantile(s, p) == s[k])
    ensures s[0] <= Quantile(s, p) <= s[|s| - 1]
  {
    var k := Rank(|s|, p);
    if k + 1 < |s| {
      InterpolateBetween(s[k], s[k + 1], p * ((|s| - 1) as real) - k as real);
    }
    assert s[0] <= s[k] && s[k] <= s[|s| - 1];
    if k + 1 < |s| {
      assert s[k + 1] <= s[|s| - 1];
    }
  }

  /** At an integral rank the quantile is exactly that order statistic. */
  lemma QuantileAtIntegralRank(s: seq<real>, p: real, k: nat)
    requires |s| > 0 && 0.0 <= p <= 1.0
    requires p * ((|s| - 1) as real) == k as real
    ensures k < |s| && Quantile(s, p) == s[k]
  {
    assert Rank(|s|, p) == k;
  }

  /** On a sorted series a larger probability never gives a smaller quantile. */
  lemma QuantileMonotone(s: seq<real>, p1: real, p2: real)
    requires |s| > 0 && 0.0 <= p1 <= p2 <= 1.0 && Sorted(s)
    ensures Quantile(s, p1) <= Quantile(s, p2)
  {
    var n := |s|;
    var k1, k2 := Rank(n, p1), Rank(n, p2);
    RankMonotone(n, p1, p2);
    QuantileBetweenNeighbours(s, p1);
    QuantileBetweenNeighbours(s, p2);
    if k1 < k2 {
      assert s[k1 + 1] <= s[k2];
    } else if k1 + 1 < n {
      ScaleMonotone(p1, p2, (n - 1) as real);
      InterpolateMonotone(s[k1], s[k1 + 1], p1 * ((n - 1) as real) - k1 as real, p2 * ((n - 1) as real) - k2 as real);
    }
  }

  /** Every quantile of a constant series is that constant. */
  lemma QuantileOfConstant(s: seq<real>, p: real, c: real)
    requires |s| > 0 && 0.0 <= p <= 1.0 && Constant(s, c)
    ensures Quantile(s, p) == c
  {
  }

  /** Sorting a constant series leaves it constant. */
  lemma SortOfConstant(s: seq<real>, c: real)
    requires Constant(s, c)
    ensures Constant(Sort(s), c)
  {
    var r := Sort(s);
    forall i | 0 <= i < |r| ensures r[i] == c {
      assert r[i] in multiset(s);
    }
  }
}
