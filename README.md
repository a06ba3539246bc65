# Financial anomaly detector — a Dafny model

`main.py` reads a quarterly income statement and does two things. First it refuses data that is too
short or too small: fewer than 6 quarters, or an average Net Income below one million US dollars
(the column is in millions). Then it runs three outlier detectors over each of four financial
metrics: Revenue, Gross Profit, Operating Income and Net Income. Each detector writes one boolean
flag column into the data frame, so the loop adds 12 flag columns.

The detectors are:

- **Z-score**: the element lies more than 1.5 sample standard deviations from the mean. The
  standard deviation uses ddof = 1.
- **IQR**: the element lies outside `[Q1 - 1.5 IQR, Q3 + 1.5 IQR]`. The quartiles use linear
  interpolation between order statistics.
- **Percent change**: the change from the previous quarter exceeds 40 %. The first quarter is
  never flagged, because its change is NaN. A zero baseline yields ±infinity, which is flagged
  when the value moves away from zero. The case 0 / 0 is NaN and is not flagged.

The project is organised in seven modules:

- `Reals` (`reals.dfy`): absolute value, squares and small order facts about real arithmetic.
- `Extended` (`extended.dfy`): the IEEE special values (NaN, ±infinity) that pandas produces for
  division by zero, and how subtraction, scaling, `abs` and `>` treat them.
- `Stats` (`stats.dfy`): sum, mean, sample variance, a sort, and the linear quantile.
- `Detectors` (`detectors.dfy`): the three detectors and their properties.
- `Frames` (`frames.dfy`): a data frame with ordered column names and typed columns. It has a
  value form (`Table`, with `Assign` for `df[name] = column`) and a mutable class `DataFrame`
  whose `SetColumn` is proved against `Assign`.
- `Engine` (`engine.dfy`): the validation gate, the detection loop as a function over tables
  (`Process`), the loop as a method over a `DataFrame` proved equal to it, and the whole script
  (`Analyze`).
- `Scenarios` (`scenarios.dfy`): the series 10, 10, 10, 10, 10, 100 worked through all three
  detectors.

Numbers are exact reals. The square root is never taken: an element is a Z-score outlier when
`(x - mean)^2 > 1.5^2 * variance`. `Detectors.ZScoreMatchesStandardScore` proves that this agrees
with `|(x - mean) / sd| > 1.5` for every positive `sd` whose square is the variance.

Three behaviours of `main.py` deserve a note:

- A change from a zero baseline to a nonzero value is an infinite change. `abs(inf) > 40` is
  true, so it is flagged. 0 / 0 is NaN and is not flagged.
- No usable Net Income column ends the script at main.py:28. A missing column raises the
  KeyError of the column lookup `df['Net Income (M USD)']`. A text column raises the TypeError
  of `mean`. Both are modelled as the verdict `MissingColumn`.
- A metric column that is missing or not numeric ends the loop with the first such name as
  `Run.missing`, keeping the columns already added.

## Model

| member | source | states |
|---|---|---|
| Engine.Process | main.py:54-57 | The loop as a function over frame values: for each metric in order, stop and report it when its column is absent or not numeric, else apply one pass (`FlagMetric`). Its meaning is stated by `ProcessKeepsColumns`, `ProcessFlagContents`, `ProcessStopsAtMissing` and `ProcessWellFormed`. |
| Engine.FlagMetric | main.py:55-57 | One loop pass: the three column assignments for a metric, each detector reading the metric's column as the frame then holds it. Its meaning is stated by `FlagMetricClosedForm` and `FlagMetricColumns`. |
| Frames.Assign | main.py:55-57 | `df[name] = c` on a frame value: an existing name keeps its position and gets the new contents; a new name is appended at the end. Its properties (the name holds `c`, an existing name keeps its place, a new one goes last, other columns are unchanged) are stated by `AssignWellFormed`. |
| Engine.Suffix | main.py:55-57 | The suffix of each detector's flag column: " Z-outlier", " IQR-outlier", " %Change-outlier". |
| Engine.FlagName | main.py:55-57 | `f'{col} Z-outlier'`, `f'{col} IQR-outlier'`, `f'{col} %Change-outlier'`: the metric's name followed by the detector's suffix. `FlagNamesDistinct` shows the names never clash. |
| Engine.FlagNames | main.py:55-57 | The three flag-column names one pass writes for a metric, in assignment order Z, IQR, %Change. |
| Frames.IsNumeric | main.py:28 | The column exists and holds numbers; the same test guards each metric at main.py:55-57. Its failure stands for the KeyError of the lookup or the TypeError of the statistics on a text column. |
| Frames.Series | main.py:55-57 | `df[col]` for a numeric column: its values, in row order. |
| Stats.Sum | main.py:34 | The sum of the values, a helper of `Mean` and `Variance`. |
| Stats.Mean | main.py:34 | `series.mean()`: the sum divided by the count. `MeanOfConstant` and `Scenarios.JumpZScore` state its value. |
| Stats.SquaredDeviations | main.py:35 | The sum of squared distances of the values from a centre. `SquaredDeviationsZero` and its neighbours state its properties. |
| Stats.Variance | main.py:35 | The square of `series.std()`: the sample variance with ddof = 1, squared deviations from the mean over n - 1. `VarianceZeroIffConstant` states when it vanishes. |
| Stats.Quantile | main.py:40-41 | `series.quantile(p)` with linear interpolation, on the sorted copy: the values at rank floor(p·(n - 1)) and the next, interpolated by the fractional part of p·(n - 1); at the last rank, the last value. `QuantileBetweenNeighbours`, `QuantileAtIntegralRank` and `QuantileMonotone` state its meaning. |
| Stats.Interpolate | main.py:40-41 | a + (b - a)·f, the interpolation step of the linear quantile. |
| Detectors.ZScoreExceeds | main.py:36-37 | The flag of one element: NaN (never flagged) for fewer than two values, the IEEE quotient for zero variance, otherwise the squared comparison. `ZScoreMatchesStandardScore` ties it to `abs(z) > threshold`. |
| Detectors.LowerQuartile | main.py:40 | `series.quantile(0.25)` on the sorted copy. |
| Detectors.UpperQuartile | main.py:41 | `series.quantile(0.75)` on the sorted copy. |
| Detectors.LowerFence | main.py:42-43 | Q1 - 1.5·(Q3 - Q1). `QuartilesOrdered` shows it is at most Q1. |
| Detectors.UpperFence | main.py:42-44 | Q3 + 1.5·(Q3 - Q1). `QuartilesOrdered` shows it is at least Q3. |
| Extended.Divide | main.py:48 | IEEE division by a real, also used for `(series - mean) / std` at main.py:36 when std is zero: the quotient for a nonzero divisor; +inf, -inf or NaN for a zero divisor by the sign of the dividend. |
| Extended.Minus | main.py:48 | Subtracting a finite value: infinities and NaN are unchanged. |
| Extended.Times | main.py:48 | Scaling by a finite factor: an infinity flips sign for a negative factor and becomes NaN for zero; NaN stays NaN. |
| Extended.Magnitude | main.py:49 | `abs` (also at main.py:37): the absolute value of a finite number; +inf for either infinity; NaN for NaN. |
| Extended.Exceeds | main.py:49 | `> threshold` (also at main.py:37): false for NaN and -inf, true for +inf, the real comparison otherwise. |
| Engine.Validate | main.py:20-30 | Too few rows (under 6) exactly when rows < 6, checked first. Otherwise: a missing Net Income column is reported exactly when the column is absent or not numeric; too small exactly when its mean (in millions) is below 1, i.e. below 1,000,000 USD; accepted with the table unchanged exactly otherwise. |
| Engine.Analyze | main.py:20-57 | A rejected frame is left untouched and the verdict is returned. An accepted frame ends as the detection loop over the four metrics leaves it, with the loop's missing-column report. |
| Engine.ApplyDetection | main.py:52-57 | The in-place loop over the metrics leaves the frame well formed and equal to `Process` of the initial frame; it returns what `Process` reports missing. |
| Engine.FlagColumn | main.py:55-57 | The three assignments of one loop pass turn the frame into `FlagMetric` of the old frame and keep it well formed. |
| Frames.DataFrame.SetColumn | main.py:55-57 | `df[name] = c` with a column of the frame's length: the new value is `Assign` of the old one and the frame stays well formed. |
| Frames.DataFrame.constructor | main.py:11 | A frame built from a well-formed table holds exactly that table. |
| Frames.AssignWellFormed | main.py:55-57 | Assigning a column of the right length keeps the frame well formed. The assigned name then holds the new column. An existing name keeps its position in the column order and a new name is appended at the end. Every other column is unchanged. |
| Frames.DistinctTail | main.py:55-57 | A list of distinct column names is distinct after its head, and its head does not recur. |
| Engine.FlagNamesDistinct | main.py:55-57 | Two flag-column names are equal exactly when the metric and the detector are both equal; a flag column's name never equals its metric's name. |
| Engine.FlagMetricClosedForm | main.py:55-57 | One pass over a metric with no flag columns yet appends its three flag names in order (Z, IQR, %Change) and stores each detector's flags for the metric's series. |
| Engine.FlagMetricColumns | main.py:55-57 | After one pass: same row count; names extended by the three flag names; every old column unchanged; no column besides the three new ones; each flag column holds its detector's flags for the original series. |
| Engine.FlagMetricWellFormed | main.py:55-57 | One pass keeps the frame well formed. |
| Engine.ProcessWellFormed | main.py:54-57 | The loop, over any metric list, keeps the frame well formed with the same number of rows. |
| Engine.ProcessKeepsColumns | main.py:54-57 | With distinct numeric metrics and no flag columns yet, the loop runs to the end. It appends the flag names of every metric in loop order and changes no column that existed before. |
| Engine.ProcessFlagContents | main.py:54-57 | Under the same conditions, the flag column of every metric and detector holds that detector's flags for the metric's series as it was before the loop. |
| Engine.OtherMetricUntouched | main.py:55-57 | A pass over one metric leaves any other metric's series and its missing flag columns as they were. |
| Engine.FlagMetricKeepsRest | main.py:54-57 | After the first pass, the remaining metrics still satisfy the loop's conditions, and their series are unchanged. |
| Engine.NotNumericStays | main.py:54-57 | A pass never makes a non-numeric (or missing) column numeric. |
| Engine.ProcessStopsAtMissing | main.py:54-57 | If metric k is the first whose column is absent or not numeric, the loop ends there: the frame is what the first k passes made it, and metric k is reported missing. |
| Engine.StopStep | main.py:54-57 | The conditions of `ProcessStopsAtMissing` for position k carry over to position k - 1 of the rest of the list after one pass. |
| Engine.DefaultMetricsAddTwelveColumns | main.py:52-57 | With the four default metrics numeric and no flag columns yet, the loop completes, keeps the frame well formed and adds exactly 12 columns, named after the metrics in order. |
| Engine.MetricsDistinct | main.py:52 | The four metric names are pairwise distinct. |
| Engine.SuffixMarker | main.py:55-57 | Proof helper for main.py:55-57. The three suffixes differ in the character nine places from their end. |
| Engine.Detect | main.py:55-57 | Each detector yields exactly one flag per element of the series. |
| Engine.AllFlagNames | main.py:54-57 | The loop produces three flag names per metric. |
| Detectors.ZScoreOutliers | main.py:33-37 | One flag per element. |
| Detectors.ZScoreMatchesStandardScore | main.py:33-37 | For two or more values and any sd > 0 with sd² equal to the sample variance: an element is flagged exactly when `abs((x - mean) / sd)` exceeds the threshold, and exactly when `abs(x - mean)` exceeds `threshold * sd`. |
| Detectors.ZScoreWithoutSpread | main.py:33-37 | With fewer than two values, or zero variance, the scores are NaN and nothing is flagged. |
| Detectors.ZScoreOfConstant | main.py:33-37 | A constant series has no Z-score outliers. |
| Detectors.IqrOutliers | main.py:39-45 | One flag per element. |
| Detectors.QuartilesOrdered | main.py:40-44 | min ≤ Q1 ≤ Q3 ≤ max, and the fences enclose [Q1, Q3]. |
| Detectors.QuartilesAtIntegralRanks | main.py:40-41 | For n = 4k + 1 values, Q1 and Q3 are the sorted values at ranks k and 3k. |
| Detectors.QuartileRanks | main.py:40-41 | For n = 4k + 1 sorted values, the 0.25 and 0.75 quantiles are the values at ranks k and 3k. |
| Detectors.IqrInterquartileNeverFlagged | main.py:39-45 | A value between the quartiles is never an IQR outlier. |
| Detectors.IqrOfConstant | main.py:39-45 | A constant series has no IQR outliers. |
| Detectors.IqrIgnoresOrder | main.py:39-45 | Reordering a series keeps each value's IQR verdict. |
| Detectors.PercentChange | main.py:48 | One change per element. |
| Detectors.PercentChangeOutliers | main.py:47-49 | One flag per element. |
| Detectors.PercentChangeCases | main.py:47-49 | Index 0 is never flagged. After a zero value, an element is flagged exactly when it is nonzero. Otherwise it is flagged exactly when `abs((x[i] - x[i-1]) / x[i-1]) * 100` exceeds the threshold. |
| Detectors.PercentChangeOfConstant | main.py:47-49 | A constant series has no percent-change outliers for a nonnegative threshold. |
| Stats.VarianceZeroIffConstant | main.py:35 | The sample variance is nonnegative, and zero exactly when every value equals the mean. |
| Stats.SquaredDeviationsZero | main.py:35 | The sum of squared deviations from m is zero exactly when every value equals m. |
| Stats.SquaredDeviationsNonnegative | main.py:35 | The sum of squared deviations is nonnegative. |
| Stats.SquaredDeviationsPositive | main.py:35 | One value away from m makes the sum of squared deviations positive. |
| Stats.SquaredDeviationsOfConstant | main.py:35 | A constant series has zero squared deviation from its value. |
| Stats.SumOfConstant | main.py:34 | The sum of n copies of c is n·c. |
| Stats.MeanOfConstant | main.py:34 | The mean of a constant series is its value. |
| Stats.Insert | main.py:40-41 | Inserting adds exactly one element to the multiset of values. |
| Stats.InsertSorted | main.py:40-41 | Inserting into a sorted sequence keeps it sorted. |
| Stats.PrependLowerBound | main.py:40-41 | Proof helper for main.py:40-41. A value no larger than every element of a sorted sequence can be put in front of it. |
| Stats.Sort | main.py:40-41 | The sorted copy is sorted, with the same multiset of values and the same length. |
| Stats.SortedPermutationsEqual | main.py:40-41 | Two sorted sequences with the same multiset of values are equal: the order statistics depend only on the values. |
| Stats.SortedHeadIsLeast | main.py:40-41 | The head of a sorted sequence is its least value. |
| Stats.DropHead | main.py:40-41 | Dropping the head removes one copy of it from the multiset. |
| Stats.SortedTail | main.py:40-41 | Proof helper for main.py:40-41. The tail of a sorted sequence is sorted. |
| Stats.SameHeadSameTail | main.py:40-41 | Proof helper for main.py:40-41. Sequences with equal heads and equal tails are equal. |
| Stats.Rank | main.py:40-41 | The rank is the floor of p·(n - 1), a valid index. |
| Stats.RankMonotone | main.py:40-41 | A larger probability never has a smaller rank. |
| Stats.FloorsOrdered | main.py:40-41 | Proof helper for main.py:40-41. Floors of ordered reals are ordered. |
| Stats.InterpolateBetween | main.py:40-41 | Linear interpolation with a fraction in [0, 1] stays between its end points. |
| Stats.InterpolateMonotone | main.py:40-41 | Linear interpolation grows with the fraction. |
| Stats.QuantileBetweenNeighbours | main.py:40-41 | The linear quantile of sorted values lies between the order statistics at its rank and the next one. |
| Stats.QuantileAtIntegralRank | main.py:40-41 | When p·(n - 1) is the integer k, the quantile is the value at rank k. |
| Stats.QuantileMonotone | main.py:40-41 | On sorted values the quantile grows with p. |
| Stats.QuantileOfConstant | main.py:40-41 | Every quantile of a constant series is its value. |
| Stats.SortOfConstant | main.py:40-41 | Sorting a constant series gives a constant series. |
| Reals.SquareMonotone | main.py:37 | Proof helper for main.py:37. For nonnegative reals, a < b exactly when a² < b², so the squared comparison decides the absolute one. |
| Reals.SquareStrictlyIncreasing | main.py:37 | Proof helper for main.py:37. Squaring is strictly increasing on nonnegative reals. |
| Reals.SquareOfAbs | main.py:37 | Proof helper for main.py:37. \|x\|² = x². |
| Reals.SquareOfProduct | main.py:37 | Proof helper for main.py:37. (a·b)² = a²·b². |
| Reals.AbsOfQuotient | main.py:36-37 | Proof helper for main.py:36-37. \|a / b\| = \|a\| / b for positive b. |
| Reals.QuotientExceeds | main.py:36-37 | Proof helper for main.py:36-37. For positive b, a / b > t exactly when a > t·b. |
| Reals.SquareNonnegative | main.py:35 | Proof helper for main.py:35. Squares are nonnegative. |
| Reals.SquarePositive | main.py:35 | Proof helper for main.py:35. Squares of nonzero reals are positive. |
| Reals.NonnegativeProduct | main.py:43-44 | Proof helper for main.py:43-44. Products of nonnegative reals are nonnegative. |
| Reals.ScaleMonotone | main.py:40-41 | Proof helper for main.py:40-41. Multiplying by a nonnegative real keeps order. |
| Reals.ScaleStrict | main.py:37 | Proof helper for main.py:37. Multiplying by a positive real keeps strict order. |
| Scenarios.JumpZScore | main.py:33-37 | For 10, 10, 10, 10, 10, 100: the mean is 25, the sample variance 1350, and only the last value is a Z-score outlier. |
| Scenarios.JumpSum | main.py:34 | The series sums to 150. |
| Scenarios.JumpSquaredDeviations | main.py:35 | Its squared deviations from 25 sum to 6750. |
| Scenarios.JumpIqr | main.py:39-45 | Both quartiles are 10 and only the last value is an IQR outlier. |
| Scenarios.JumpSorted | main.py:40-41 | The series is its own sorted copy. |
| Scenarios.JumpOutsideFences | main.py:43-45 | With both quartiles at 10, only the last value falls outside the fences. |
| Scenarios.JumpQuartiles | main.py:40-41 | The linear quartiles of the series are both 10. |
| Scenarios.JumpPercentChange | main.py:47-49 | Only the last value changes by more than 40 % (it changes by 900 %). |

## Left out

- Reading the CSV file (main.py:10-14) and the seaborn style (main.py:17) are file I/O and
  presentation. The frame is the argument of `Engine.Analyze`.
- `exit()` after a failed check (main.py:24-30) is modelled as the `Rejected` outcome.
- Printing the messages and the detection summary (main.py:25, 29, 59-62) is console output.
- Writing `flagged_output.csv` (main.py:65) is file output.
- Plotting each metric (main.py:67-91) is presentation only.
- Floating point rounding. Values are exact reals, and only the IEEE special values NaN and
  ±infinity are modelled, because they decide flags. A borderline comparison that rounding
  would tip is not captured.
- NaN values inside the input data, and pandas' skipping of them in `mean`, `std` and
  `quantile`, are not modelled. Input cells are finite reals.
- pandas' dtype coercion. A numeric column is a `Numbers` column; a boolean or text column is
  treated as unusable (the KeyError of the lookup, or the TypeError of `mean` on text), although pandas would coerce a boolean
  column to numbers.
- The exception raised by a missing or non-numeric metric column ends the script. The model
  reports it as `Run.missing` and keeps the columns added before it.
- Detectors.ZScoreOutliers: the square root of the variance is not computed. The flag is
  decided on squares; `Detectors.ZScoreMatchesStandardScore` relates it to the standard score
  for any square root.
- Sorting in `quantile` is modelled by an insertion sort. Only its result matters, and
  `Stats.SortedPermutationsEqual` proves that result is the unique sorted permutation.
