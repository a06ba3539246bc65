/** The script itself: the validation gate in front of the detectors, and the loop that
    adds three flag columns per financial metric to the frame. */
module Engine {

  import opened Stats
  import opened Detectors
  import opened Frames

  const MIN_DATA_POINTS: nat := 6
  /** In US dollars; the metric columns are in millions of US dollars. */
  const MIN_AVG_NET_INCOME: real := 1_000_000.0
  const MILLION: real := 1_000_000.0
  const NET_INCOME: string := "Net Income (M USD)"
  const METRICS: seq<string> := ["Revenue (M USD)", "Gross Profit (M USD)", "Operating Income (M USD)", "Net Income (M USD)"]
  const Z_THRESHOLD: real := 1.5
  const CHANGE_THRESHOLD: real := 40.0

  /** The outcome of the two checks before detection. `MissingColumn` stands for the KeyError of
      the column lookup when there is no Net Income column, or the TypeError `mean` raises on a
      text column. */
  datatype Verdict = Accepted(data: Table) | TooFewRows | ScaleTooSmall | MissingColumn(name: string)

  /** The row count is checked first; only then is the average Net Income, scaled from
      millions to dollars, compared with the minimum. */
  function Validate(t: Table): (v: Verdict)
    requires WellFormed(t)
    ensures v == TooFewRows <==> t.rows < MIN_DATA_POINTS
    ensures v == MissingColumn(NET_INCOME) <==> t.rows >= MIN_DATA_POINTS && !IsNumeric(t, NET_INCOME)
    ensures v == ScaleTooSmall <==> t.rows >= MIN_DATA_POINTS && IsNumeric(t, NET_INCOME) && Mean(Series(t, NET_INCOME)) < 1.0
    ensures v.Accepted? <==> t.rows >= MIN_DATA_POINTS && IsNumeric(t, NET_INCOME) && Mean(Series(t, NET_INCOME)) >= 1.0
    ensures v.Accepted? ==> v.data == t
    ensures v.MissingColumn? ==> v.name == NET_INCOME
  {
    if t.rows < MIN_DATA_POINTS then TooFewRows
    else if !IsNumeric(t, NET_INCOME) then MissingColumn(NET_INCOME)
    else if Mean(Series(t, NET_INCOME)) * MILLION < MIN_AVG_NET_INCOME then ScaleTooSmall
    else Accepted(t)
  }

  datatype Detector = ZScoreDetector | IqrDetector | PercentChangeDetector

  function Suffix(d: Detector): string
  {
    match d
    case ZScoreDetector => " Z-outlier"
    case IqrDetector => " IQR-outlier"
    case PercentChangeDetector => " %Change-outlier"
  }

  /** The name of the flag column that detector `d` adds for `metric`. */
  function FlagName(metric: string, d: Detector): string
  {
    metric + Suffix(d)
  }

  /** The flags detector `d` computes for a series, with the script's thresholds. */
  function Detect(d: Detector, xs: seq<real>): (flags: seq<bool>)
    ensures |flags| == |xs|
  {
    match d
    case ZScoreDetector => ZScoreOutliers(xs, Z_THRESHOLD)
    case IqrDetector => IqrOutliers(xs)
    case PercentChangeDetector => PercentChangeOutliers(xs, CHANGE_THRESHOLD)
  }

  /** The character nine places from the end of a suffix, which tells the three apart. */
  function Marker(d: Detector): char
  {
    match d
    case ZScoreDetector => 'Z'
    case IqrDetector => 'R'
    case PercentChangeDetector => 'e'
  }

  lemma SuffixMarker(d: Detector)
    ensures |Suffix(d)| >= 9 && Suffix(d)[|Suffix(d)| - 9] == Marker(d)
  {
  }

  /** No two (metric, detector) pairs share a flag column, and no flag column is named
      like its own metric. */
  lemma FlagNamesDistinct(m1: string, d1: Detector, m2: string, d2: Detector)
    ensures FlagName(m1, d1) == FlagName(m2, d2) <==> m1 == m2 && d1 == d2
    ensures FlagName(m1, d1) != m1
  {
    if FlagName(m1, d1) == FlagName(m2, d2) {
      var n := FlagName(m1, d1);
      SuffixMarker(d1);
      SuffixMarker(d2);
      assert n[|n| - 9] == Marker(d1) && n[|n| - 9] == Marker(d2) by {
        assert n[|m1|..] == Suffix(d1);
        assert n[|n| - 9] == n[|m1|..][|Suffix(d1)| - 9];
        assert FlagName(m2, d2)[|m2|..] == Suffix(d2);
        assert n[|n| - 9] == FlagName(m2, d2)[|m2|..][|Suffix(d2)| - 9];
      }
      assert d1 == d2;
      assert m1 == n[..|m1|] && m2 == FlagName(m2, d2)[..|m2|];
    }
  }

  function FlagNames(metric: string): seq<string>
  {
    [FlagName(metric, ZScoreDetector), FlagName(metric, IqrDetector), FlagName(metric, PercentChangeDetector)]
  }

  function AllFlagNames(metrics: seq<string>): (names: seq<string>)
    ensures |names| == 3 * |metrics|
  {
    if metrics == [] then [] else FlagNames(metrics[0]) + AllFlagNames(metrics[1..])
  }

  /** One pass of the loop body: the three assignments for `metric`, each reading the
      metric's column from the frame as it stands. */
  function FlagMetric(t: Table, metric: string): (r: Table)
    requires IsNumeric(t, metric)
  {
    var z := FlagName(metric, ZScoreDetector);
    var q := FlagName(metric, IqrDetector);
    var p := FlagName(metric, PercentChangeDetector);
    FlagNamesDistinct(metric, ZScoreDetector, metric, ZScoreDetector);
    FlagNamesDistinct(metric, IqrDetector, metric, IqrDetector);
    var t1 := Assign(t, z, Flags(Detect(ZScoreDetector, Series(t, metric))));
    var t2 := Assign(t1, q, Flags(Detect(IqrDetector, Series(t1, metric))));
    Assign(t2, p, Flags(Detect(PercentChangeDetector, Series(t2, metric))))
  }

  /** The frame after the loop, and the first metric whose column was absent or not numeric
      (the KeyError or TypeError that ends the script), if any. */
  datatype Run = Run(table: Table, missing: Option<string>)

  function Process(t: Table, metrics: seq<string>): (run: Run)
    decreases |metrics|
  {
    if metrics == [] then Run(t, None)
    else if !IsNumeric(t, metrics[0]) then Run(t, Some(metrics[0]))
    else Process(FlagMetric(t, metrics[0]), metrics[1..])
  }

  ghost predicate AllNumeric(t: Table, metrics: seq<string>)
  {
    forall m :: m in metrics ==> IsNumeric(t, m)
  }

  /** None of the flag columns the loop would add for `metrics` exists yet. */
  ghost predicate FreshFlags(t: Table, metrics: seq<string>)
  {
    forall m, d :: m in metrics ==> FlagName(m, d) !in t.columns
  }

  /** The frame one pass produces, written out: the three flag columns appended in the order
      of the loop body, all computed from the metric's series as it was before the pass. */
  lemma FlagMetricClosedForm(t: Table, m: string)
    requires IsNumeric(t, m)
    requires forall d :: FlagName(m, d) !in t.columns
    ensures var xs := Series(t, m);
      FlagMetric(t, m) == Table(t.rows, t.names + FlagNames(m),
        t.columns[FlagName(m, ZScoreDetector) := Flags(Detect(ZScoreDetector, xs))]
                 [FlagName(m, IqrDetector) := Flags(Detect(IqrDetector, xs))]
                 [FlagName(m, PercentChangeDetector) := Flags(Detect(PercentChangeDetector, xs))])
  {
    var z := FlagName(m, ZScoreDetector);
    var q := FlagName(m, IqrDetector);
    var p := FlagName(m, PercentChangeDetector);
    FlagNamesDistinct(m, ZScoreDetector, m, IqrDetector);
    FlagNamesDistinct(m, ZScoreDetector, m, PercentChangeDetector);
    FlagNamesDistinct(m, IqrDetector, m, PercentChangeDetector);
    FlagNamesDistinct(m, ZScoreDetector, m, ZScoreDetector);
    FlagNamesDistinct(m, IqrDetector, m, IqrDetector);
    var xs := Series(t, m);
    var t1 := Assign(t, z, Flags(Detect(ZScoreDetector, xs)));
    assert Series(t1, m) == xs;
    var t2 := Assign(t1, q, Flags(Detect(IqrDetector, xs)));
    assert Series(t2, m) == xs;
    SnocThree(t.names, z, q, p);
  }

  /** One pass appends the metric's three flag columns, in the order of the loop body,
      computed from the metric's original series, and leaves every other column alone. */
  lemma FlagMetricColumns(t: Table, m: string)
    requires IsNumeric(t, m)
    requires forall d :: FlagName(m, d) !in t.columns
    ensures var r := FlagMetric(t, m);
      && r.rows == t.rows
      && r.names == t.names + FlagNames(m)
      && (forall n :: n in t.columns ==> n in r.columns && r.columns[n] == t.columns[n])
      && (forall n :: n in r.columns ==> n in t.columns || n in FlagNames(m))
      && (forall d :: FlagName(m, d) in r.columns && r.columns[FlagName(m, d)] == Flags(Detect(d, Series(t, m))))
  {
    FlagMetricClosedForm(t, m);
    FlagNamesDistinct(m, ZScoreDetector, m, IqrDetector);
    FlagNamesDistinct(m, ZScoreDetector, m, PercentChangeDetector);
    FlagNamesDistinct(m, IqrDetector, m, PercentChangeDetector);
    forall d ensures FlagName(m, d) in FlagMetric(t, m).columns
      && FlagMetric(t, m).columns[FlagName(m, d)] == Flags(Detect(d, Series(t, m)))
    {
      match d
      case ZScoreDetector =>
      case IqrDetector =>
      case PercentChangeDetector =>
    }
  }

  lemma SnocThree(s: seq<string>, a: string, b: string, c: string)
    ensures s + [a] + [b] + [c] == s + [a, b, c]
  {
  }

  /** A pass keeps the frame well formed: each flag column has one entry per row. */
  lemma FlagMetricWellFormed(t: Table, m: string)
    requires WellFormed(t) && IsNumeric(t, m)
    ensures WellFormed(FlagMetric(t, m))
  {
    var z := FlagName(m, ZScoreDetector);
    var q := FlagName(m, IqrDetector);
    var p := FlagName(m, PercentChangeDetector);
    FlagNamesDistinct(m, ZScoreDetector, m, ZScoreDetector);
    FlagNamesDistinct(m, IqrDetector, m, IqrDetector);
    var t1 := Assign(t, z, Flags(Detect(ZScoreDetector, Series(t, m))));
    AssignWellFormed(t, z, Flags(Detect(ZScoreDetector, Series(t, m))));
    var t2 := Assign(t1, q, Flags(Detect(IqrDetector, Series(t1, m))));
    AssignWellFormed(t1, q, Flags(Detect(IqrDetector, Series(t1, m))));
    AssignWellFormed(t2, p, Flags(Detect(PercentChangeDetector, Series(t2, m))));
  }

  /** Whatever the metrics, the loop leaves a well-formed frame with the same rows. */
  lemma {:induction false} ProcessWellFormed(t: Table, metrics: seq<string>)
    requires WellFormed(t)
    ensures WellFormed(Process(t, metrics).table) && Process(t, metrics).table.rows == t.rows
    decreases |metrics|
  {
    if metrics != [] && IsNumeric(t, metrics[0]) {
      FlagMetricWellFormed(t, metrics[0]);
      FlagMetricColumnsRows(t, metrics[0]);
      ProcessWellFormed(FlagMetric(t, metrics[0]), metrics[1..]);
    }
  }

  lemma FlagMetricColumnsRows(t: Table, m: string)
    requires IsNumeric(t, m)
    ensures FlagMetric(t, m).rows == t.rows
  {
  }

  /** When every metric names a distinct numeric column and no flag column exists yet, the
      loop runs to the end: it appends 3 flag columns per metric in loop order and changes
      no column that was there before. */
  lemma {:induction false} ProcessKeepsColumns(t: Table, metrics: seq<string>)
    requires AllNumeric(t, metrics) && Distinct(metrics) && FreshFlags(t, metrics)
    ensures var r := Process(t, metrics);
      && r.missing == None
      && r.table.names == t.names + AllFlagNames(metrics)
      && (forall n :: n in t.columns ==> n in r.table.columns && r.table.columns[n] == t.columns[n])
    decreases |metrics|
  {
    if metrics == [] {
      assert t.names + [] == t.names;
    } else {
      var m := metrics[0];
      var rest := metrics[1..];
      var t1 := FlagMetric(t, m);
      FlagMetricKeepsRest(t, metrics);
      ProcessKeepsColumns(t1, rest);
      var r := Process(t1, rest);
      assert Process(t, metrics) == r;
      assert r.table.names == t.names + AllFlagNames(metrics) by {
        FlagMetricColumns(t, m);
        assert AllFlagNames(metrics) == FlagNames(m) + AllFlagNames(rest);
        ConcatAssociative(t.names, FlagNames(m), AllFlagNames(rest));
      }
      assert forall n :: n in t.columns ==> n in r.table.columns && r.table.columns[n] == t.columns[n] by {
        FlagMetricColumns(t, m);
      }
    }
  }

  lemma ConcatAssociative(a: seq<string>, b: seq<string>, c: seq<string>)
    ensures (a + b) + c == a + (b + c)
  {
  }

  /** Under the same conditions, the flag column of each metric and detector holds that
      detector's flags for the metric's series as it was before the loop. */
  lemma {:induction false} ProcessFlagContents(t: Table, metrics: seq<string>)
    requires AllNumeric(t, metrics) && Distinct(metrics) && FreshFlags(t, metrics)
    ensures var r := Process(t, metrics);
      forall i, d :: 0 <= i < |metrics| ==>
        FlagName(metrics[i], d) in r.table.columns
        && r.table.columns[FlagName(metrics[i], d)] == Flags(Detect(d, Series(t, metrics[i])))
    decreases |metrics|
  {
    if metrics != [] {
      var m := metrics[0];
      var rest := metrics[1..];
      var t1 := FlagMetric(t, m);
      FlagMetricKeepsRest(t, metrics);
      var r := Process(t1, rest);
      assert Process(t, metrics) == r;
      forall i, d | 0 <= i < |metrics|
        ensures FlagName(metrics[i], d) in r.table.columns
          && r.table.columns[FlagName(metrics[i], d)] == Flags(Detect(d, Series(t, metrics[i])))
      {
        if i > 0 {
          ProcessFlagContents(t1, rest);
          assert metrics[i] == rest[i - 1];
        } else {
          ProcessKeepsColumns(t1, rest);
          FlagMetricColumns(t, m);
        }
      }
    }
  }

  lemma OtherMetricUntouched(t: Table, m: string, m': string, d: Detector)
    requires IsNumeric(t, m) && IsNumeric(t, m') && m' != m
    requires forall d' :: FlagName(m, d') !in t.columns
    requires FlagName(m', d) !in t.columns
    ensures var r := FlagMetric(t, m);
      FlagName(m', d) !in r.columns && IsNumeric(r, m') && Series(r, m') == Series(t, m')
  {
    FlagMetricColumns(t, m);
    FlagNamesDistinct(m', d, m, ZScoreDetector);
    FlagNamesDistinct(m', d, m, IqrDetector);
    FlagNamesDistinct(m', d, m, PercentChangeDetector);
  }

  /** After one pass the remaining metrics still meet the conditions of the loop lemmas. */
  lemma FlagMetricKeepsRest(t: Table, metrics: seq<string>)
    requires AllNumeric(t, metrics) && Distinct(metrics) && FreshFlags(t, metrics)
    requires metrics != []
    ensures var t1 := FlagMetric(t, metrics[0]);
      && AllNumeric(t1, metrics[1..])
      && Distinct(metrics[1..])
      && FreshFlags(t1, metrics[1..])
      && (forall m' :: m' in metrics[1..] ==> Series(t1, m') == Series(t, m'))
  {
    var m := metrics[0];
    var rest := metrics[1..];
    var t1 := FlagMetric(t, m);
    DistinctTail(metrics);
    forall m', d | m' in rest ensures FlagName(m', d) !in t1.columns {
      OtherMetricUntouched(t, m, m', d);
    }
    forall m' | m' in rest ensures IsNumeric(t1, m') && Series(t1, m') == Series(t, m') {
      OtherMetricUntouched(t, m, m', ZScoreDetector);
    }
  }

  /** A column that is absent or not numeric stays so after a pass for another metric. */
  lemma NotNumericStays(t: Table, m: string, x: string)
    requires IsNumeric(t, m) && !IsNumeric(t, x)
    requires forall d :: FlagName(m, d) !in t.columns
    ensures !IsNumeric(FlagMetric(t, m), x)
  {
    FlagMetricColumns(t, m);
  }

  /** If the metric at position k is the first whose column is absent or not numeric, the
      loop stops there with that metric's name, after adding the columns of the metrics
      before it. */
  lemma {:induction false} ProcessStopsAtMissing(t: Table, metrics: seq<string>, k: nat)
    requires k < |metrics| && !IsNumeric(t, metrics[k])
    requires AllNumeric(t, metrics[..k]) && Distinct(metrics[..k]) && FreshFlags(t, metrics[..k])
    ensures Process(t, metrics) == Run(Process(t, metrics[..k]).table, Some(metrics[k]))
    decreases k
  {
    if k > 0 {
      var rest := metrics[1..];
      var t1 := FlagMetric(t, metrics[0]);
      StopStep(t, metrics, k);
      ProcessStopsAtMissing(t1, rest, k - 1);
      assert Process(t, metrics[..k]) == Process(t1, rest[..k - 1]);
    }
  }

  /** The conditions of the stopping lemma carry over from one pass to the next. */
  lemma StopStep(t: Table, metrics: seq<string>, k: nat)
    requires 0 < k < |metrics| && !IsNumeric(t, metrics[k])
    requires AllNumeric(t, metrics[..k]) && Distinct(metrics[..k]) && FreshFlags(t, metrics[..k])
    ensures var t1 := FlagMetric(t, metrics[0]);
      var rest := metrics[1..];
      && !IsNumeric(t1, rest[k - 1])
      && AllNumeric(t1, rest[..k - 1]) && Distinct(rest[..k - 1]) && FreshFlags(t1, rest[..k - 1])
      && metrics[..k][0] == metrics[0] && metrics[..k][1..] == rest[..k - 1]
  {
    var m := metrics[0];
    assert metrics[..k][0] == m && metrics[..k][1..] == metrics[1..][..k - 1];
    FlagMetricKeepsRest(t, metrics[..k]);
    NotNumericStays(t, m, metrics[k]);
  }

  /** The four metrics of the script name different columns, so on a well-formed frame that
      has them all as numbers and none of their flag columns, the loop ends normally with
      twelve new columns and a well-formed frame. */
  lemma DefaultMetricsAddTwelveColumns(t: Table)
    requires WellFormed(t) && AllNumeric(t, METRICS) && FreshFlags(t, METRICS)
    ensures var r := Process(t, METRICS);
      && r.missing == None
      && WellFormed(r.table)
      && r.table.names == t.names + AllFlagNames(METRICS)
      && |r.table.names| == |t.names| + 12
  {
    MetricsDistinct();
    ProcessKeepsColumns(t, METRICS);
    ProcessWellFormed(t, METRICS);
  }

  lemma MetricsDistinct()
    ensures Distinct(METRICS)
  {
    assert |METRICS[0]| == 15 && |METRICS[1]| == 20 && |METRICS[2]| == 24 && |METRICS[3]| == 18;
    DistinctFour(METRICS[0], METRICS[1], METRICS[2], METRICS[3]);
    assert METRICS == [METRICS[0], METRICS[1], METRICS[2], METRICS[3]];
  }

  lemma DistinctFour(a: string, b: string, c: string, d: string)
    requires a != b && a != c && a != d && b != c && b != d && c != d
    ensures Distinct([a, b, c, d])
  {
    var m := multiset([a, b, c, d]);
    assert m == multiset{a} + multiset{b} + multiset{c} + multiset{d};
    forall n ensures m[n] <= 1 {
      assert m[n] == multiset{a}[n] + multiset{b}[n] + multiset{c}[n] + multiset{d}[n];
    }
  }

  /** The detection loop on a DataFrame, column assignments in place. It ends with the frame
      the loop specification computes, and reports the metric that stopped it, if any. */
  method ApplyDetection(df: DataFrame, metrics: seq<string>) returns (missing: Option<string>)
    requires df.Valid()
    modifies df
    ensures df.Valid()
    ensures Run(df.Value(), missing) == Process(old(df.Value()), metrics)
  {
    var i := 0;
    while i < |metrics|
      invariant 0 <= i <= |metrics|
      invariant df.Valid()
      invariant Process(old(df.Value()), metrics) == Process(df.Value(), metrics[i..])
    {
      var col := metrics[i];
      assert metrics[i..][0] == col && metrics[i..][1..] == metrics[i + 1..];
      if !(col in df.columns && df.columns[col].Numbers?) {
        return Some(col);
      }
      FlagColumn(df, col);
      i := i + 1;
    }
    return None;
  }

  /** The loop body for one metric: its three flag columns, assigned in place. */
  method FlagColumn(df: DataFrame, col: string)
    requires df.Valid() && IsNumeric(df.Value(), col)
    modifies df
    ensures df.Valid()
    ensures df.Value() == FlagMetric(old(df.Value()), col)
  {
    FlagNamesDistinct(col, ZScoreDetector, col, ZScoreDetector);
    FlagNamesDistinct(col, IqrDetector, col, IqrDetector);
    ghost var t0 := df.Value();
    df.SetColumn(FlagName(col, ZScoreDetector), Flags(Detect(ZScoreDetector, df.columns[col].values)));
    ghost var t1 := df.Value();
    df.SetColumn(FlagName(col, IqrDetector), Flags(Detect(IqrDetector, df.columns[col].values)));
    ghost var t2 := df.Value();
    df.SetColumn(FlagName(col, PercentChangeDetector), Flags(Detect(PercentChangeDetector, df.columns[col].values)));
    FlagMetricSteps(t0, col, t1, t2, df.Value());
  }

  /** The three assignments of the loop body, one after another, make one pass. */
  lemma FlagMetricSteps(t0: Table, col: string, t1: Table, t2: Table, t3: Table)
    requires IsNumeric(t0, col)
    requires t1 == Assign(t0, FlagName(col, ZScoreDetector), Flags(Detect(ZScoreDetector, t0.columns[col].values)))
    requires IsNumeric(t1, col)
    requires t2 == Assign(t1, FlagName(col, IqrDetector), Flags(Detect(IqrDetector, t1.columns[col].values)))
    requires IsNumeric(t2, col)
    requires t3 == Assign(t2, FlagName(col, PercentChangeDetector), Flags(Detect(PercentChangeDetector, t2.columns[col].values)))
    ensures t3 == FlagMetric(t0, col)
  {
  }

  /** What the script ends with: rejected by one of the checks, or through the detection loop. */
  datatype Outcome = Rejected(reason: Verdict) | Completed(missing: Option<string>)

  /** The whole script after loading: a rejected frame is left as it is; an accepted one gets
      the flag columns for the four metrics. */
  method Analyze(df: DataFrame) returns (outcome: Outcome)
    requires df.Valid()
    modifies df
    ensures df.Valid()
    ensures var v := Validate(old(df.Value()));
      && (!v.Accepted? ==> outcome == Rejected(v) && df.Value() == old(df.Value()))
      && (v.Accepted? ==> outcome == Completed(Process(old(df.Value()), METRICS).missing)
                          && df.Value() == Process(old(df.Value()), METRICS).table)
  {
    var v := Validate(df.Value());
    if !v.Accepted? {
      return Rejected(v);
    }
    var missing := ApplyDetection(df, METRICS);
    return Completed(missing);
  }
}
