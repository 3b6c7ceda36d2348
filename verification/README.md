# Despiker

A model of `despiked`, a despiking function for a data series. It takes a list of values (Y's), an optional list of arguments (X'es), an odd window length, a number of passes and a threshold method; the last four default to no arguments, 5, 1 and "mean".

Each pass works on one working copy of the zipped series:

1. **Detection.** Every window of `window` consecutive points gets a spike ratio. The ratio is the window's height over its breadth:
   - the height is `max - min` of the values when the first-occurring maximum or minimum point equals, as an (argument, value) pair, some point strictly inside the window, and 0 otherwise (a repeated edge point therefore counts as interior);
   - the breadth is the last argument minus the first.
2. **Threshold.** A threshold is derived from all ratios of the pass. It is the arithmetic mean, or the element at position `count / 2 + 1` of the sorted ratios (called "median" in the source).
3. **Correction.** Every window whose ratio exceeds the threshold has its interior points overwritten, in place and left to right, by the average of their two neighbours. A rewritten point therefore feeds into the next one (the correction cascades).

The result is the arguments and the values of the working copy.

Failures of `despiked` are modelled as an error result (`Results.Error`):
- the two argument assertions (`BadWindow`, `BadMethod`);
- the division by a zero breadth (`DivisionByZero`);
- the median index past the end of the sorted ratios when a pass has one or two windows (`IndexOutOfRange`).

The project has one module per stage:

- `Results`: the error kinds and the result type;
- `Series`: points, argument defaulting, zipping and unzipping;
- `Metric`: first-occurring extrema, the value-equality membership test of the height, breadth and ratio;
- `Detection`: one candidate per window, and the failure of the scan on the first flat window;
- `Threshold`: insertion sort, the mean, and the "median" rank statistic;
- `Correction`: the cascading in-place smoothing, as a pure fold and as an array loop;
- `Despiker`: passes, iteration, the whole call, and the end-to-end properties.

The pure function `Despiker.Despiked` is the reference. The methods `Despiker.Despike`, `Despiker.RunPasses`, `Despiker.RunPass` and `Correction.Sweep` follow the source's loops and are proved equal to the pure functions. Where the source mutates one list across all passes, `RunPasses` hands each pass's output to the next as a value, and `Sweep` copies it into an array for its in-place writes; the observable result is the same.

## Model

| member | source | states |
|---|---|---|
| Despiker.Despiked | despiker.py:33-72 | a successful call returns as many arguments as values, namely the effective length; the arguments are the given ones (or `0, 1, ...` when none are given) truncated to the shorter list; the first and last values are never changed |
| Despiker.Despike | despiker.py:33-72 | the procedural run (assertions, working copy, pass loop, unzip) returns exactly `Despiked` |
| Despiker.ConfigurationErrors | despiker.py:33-34 | the window check fails exactly when the window is below 3 or even; the method check fails exactly when the window is valid and the method is neither "median" nor "mean"; the window is checked first |
| Despiker.FailureCondition | despiker.py:33-61 | with a valid configuration, a call fails exactly when at least one pass runs and either some window's first and last effective arguments are equal or the method is "median" with one or two windows |
| Despiker.FlatWindowInInputs | despiker.py:35-52 | a window of the working copy has zero breadth exactly when its first and last effective input arguments are equal |
| Despiker.UnchangedWithoutPassesOrWindows | despiker.py:35-38 | with zero or negative `multipass`, or a series shorter than the window, the call returns the truncated inputs unchanged |
| Despiker.UnchangedWhenFlatOrMonotone | despiker.py:38-70 | with strictly increasing arguments and constant or strictly monotone values, every height is 0, no window is corrected, and the values come back unchanged; under "mean" the call always succeeds |
| Despiker.TwoSinglePassesEqualOneDoublePass | despiker.py:36-72 | calling with `multipass = 2` equals calling with 1 pass and feeding the output back in for 1 more pass |
| Despiker.PassesCompose | despiker.py:36 | p + q passes are q passes on the output of p passes, and a failure within the first p is the overall result |
| Despiker.PassesFixpoint | despiker.py:36 | a series that one pass leaves unchanged is left unchanged by any number of passes |
| Despiker.PassesFrame | despiker.py:36-70 | any number of passes keeps the length, every argument, and the first and last points |
| Despiker.PassFailsIff | despiker.py:38-61 | one pass fails exactly when some window is flat or the "median" is asked of one or two windows |
| Despiker.PassFailsOnlyOnArgs | despiker.py:38-61 | whether a pass fails depends only on the arguments and the length |
| Despiker.PassesFailIff | despiker.py:36-61 | a run of n passes fails exactly when n > 0 and the first pass fails, and then with the first pass's error |
| Despiker.Pass | despiker.py:37-70 | one pass keeps every argument and both end points |
| Despiker.RunPass | despiker.py:37-70 | the procedural pass (detect, threshold, in-place sweep) equals `Pass` |
| Despiker.RunPasses | despiker.py:36-70 | the pass loop, each pass running on the previous pass's output and the first failure ending it, equals `Passes` |
| Series.Zip | despiker.py:35 | the working copy has one point per pair: its length is the shorter list's, and point i holds value i and effective argument i |
| Series.ZipThenUnzip | despiker.py:72 | a series with the zipped series' arguments unzips to the effective arguments truncated to the shorter list |
| Series.ZipKeepsValues | despiker.py:72 | unzipping the working copy gives back the values truncated to the shorter list |
| Series.UnzipThenZip | despiker.py:35 | zipping the unzipped halves of a series gives the series back, also when it is empty |
| Series.ZipShapes | despiker.py:35 | strictly increasing arguments and constant or monotone values carry over to the working copy |
| Series.RangeIncreasing | despiker.py:35 | the default arguments `0, 1, ..., n - 1` strictly increase |
| Metric.MinBetweenIsFirstMin | despiker.py:42 | the scan returns a point of minimal value that no earlier point of the window matches (Python's `min` with a key) |
| Metric.MaxBetweenIsFirstMax | despiker.py:42 | the scan returns a point of maximal value that no earlier point of the window matches (Python's `max` with a key) |
| Metric.OccursBetweenIsMembership | despiker.py:46 | the interior test is sequence membership of the point, by value, in the slice without the first and last point |
| Metric.Height | despiker.py:42-46 | the height is non-negative, and positive only when the first maximum or the first minimum point occurs in the interior |
| Metric.InteriorIsPositional | despiker.py:46 | with strictly increasing arguments, a window point is found in the interior exactly when it is neither the first nor the last point |
| Metric.HeightPositional | despiker.py:42-46 | with strictly increasing arguments, the height is the spread when an extremum index lies strictly inside the window, and 0 otherwise |
| Metric.HeightZeroWhenFlatOrMonotone | despiker.py:42-46 | constant or strictly monotone values give every window height 0 |
| Metric.StrictEdgesHeightZero | despiker.py:42-46 | a window whose strict maximum and strict minimum are its two edge points has height 0 |
| Metric.StrictExtremaFound | despiker.py:42 | the scans find a window's strict maximum and strict minimum |
| Metric.RatioSign | despiker.py:46-52 | a positive breadth gives a non-negative ratio, and a zero height a zero ratio |
| Detection.DetectFrom | despiker.py:38-53 | the scan fails only by division by zero, and otherwise yields one candidate per remaining window |
| Detection.DetectFromFailsIff | despiker.py:38-52 | the scan from window i fails exactly when some window from i on is flat |
| Detection.DetectFromSpikes | despiker.py:38-53 | the k-th candidate of a scan from i is window i + k, with a non-zero breadth and its ratio |
| Detection.Detect | despiker.py:37-53 | detection fails only by division by zero; otherwise it yields `len - (window - 1)` candidates (none for a short series), each describing a window inside the series |
| Detection.DetectFailsIff | despiker.py:38-52 | detection fails exactly when some window has equal first and last arguments |
| Detection.DetectSpikes | despiker.py:38-53 | the k-th candidate starts at k, its window lies in the series with a non-zero breadth, and its ratio is the window's height over its breadth |
| Detection.RatiosNonNegative | despiker.py:38-53 | with strictly increasing arguments, detection succeeds and every ratio is non-negative |
| Detection.RatiosZeroWhenFlatOrMonotone | despiker.py:38-53 | with strictly increasing arguments and constant or monotone values, every ratio is 0 |
| Detection.WindowHeightZero | despiker.py:42-49 | each window of such a series has a positive breadth and height 0 |
| Detection.RatiosAt | despiker.py:59-61 | the list of ratios the threshold reads is the candidates' ratios, in order |
| Threshold.ThresholdOf | despiker.py:57-61 | the threshold fails exactly for the "median" over one or two ratios, with an index error |
| Threshold.MedianIsRankStatistic | despiker.py:59 | the "median" threshold has at most `count / 2 + 1` ratios strictly below it and more than that many at or below it |
| Threshold.MedianIsARatio | despiker.py:59 | the "median" threshold is one of the ratios |
| Threshold.SortPermutes | despiker.py:59 | sorting rearranges the ratios: the same multiset |
| Threshold.SortSorted | despiker.py:59 | sorting yields an ascending sequence |
| Threshold.InsertPermutes | despiker.py:59 | inserting adds exactly one occurrence of the element |
| Threshold.InsertSorted | despiker.py:59 | inserting into an ascending sequence keeps it ascending, with the smaller of the element and the old head in front |
| Threshold.SortCounts | despiker.py:59 | sorting keeps how many ratios lie below, and at or below, any bound |
| Threshold.SortedRank | despiker.py:59 | in an ascending sequence, at most k elements lie strictly below the k-th, and at least k + 1 at or below it |
| Threshold.SomeRatioNotAbove | despiker.py:57-64 | some ratio is at most the threshold (mean or median), so no pass flags every window |
| Threshold.UniformThreshold | despiker.py:57-61 | when all ratios are equal, both thresholds equal that ratio |
| Threshold.SumAbove | despiker.py:61 | a sum of terms all above t exceeds count times t |
| Threshold.SumConstant | despiker.py:61 | a sum of terms all equal to c is count times c |
| Correction.SmoothFrame | despiker.py:68-70 | smoothing a window keeps every argument and changes only its interior points |
| Correction.SmoothCascades | despiker.py:68-70 | each rewritten point is the mean of its left neighbour's new value and its right neighbour's value from before the window was corrected |
| Correction.TouchedSomeWindow | despiker.py:63-69 | an index is touched by the first k candidates exactly when it lies strictly inside a flagged window among them |
| Correction.CorrectPrefixFrame | despiker.py:63-70 | processing the first k candidates keeps every argument and every point no flagged window among them covers |
| Correction.CorrectFrame | despiker.py:63-70 | the sweep keeps every argument and both end points, and every changed point lies strictly inside a window whose ratio exceeds the threshold |
| Correction.CorrectNothingFlagged | despiker.py:63-64 | when no ratio exceeds the threshold, the sweep changes nothing |
| Correction.CorrectAppend | despiker.py:63 | the sweep is a left fold over the candidates: processing a + b is processing a, then b on the result |
| Correction.PrefixOnlyReadsPrefix | despiker.py:63 | the first k steps of the sweep depend only on the first k candidates |
| Correction.SmoothInPlace | despiker.py:68-70 | the in-place loop over a window's interior leaves the array equal to the pure smoothing |
| Correction.Sweep | despiker.py:63-70 | the in-place sweep over a copy of the series equals the pure fold `Correct` |
| Despiker.DefaultCallSucceeds | despiker.py:9-12 | with every parameter at its default (no arguments, window 5, one pass, "mean") a call never fails and returns the arguments 0, 1, ..., n - 1 |
| Despiker.Iterate | despiker.py:36 | n runs of a step, each on the previous output, stopping at the first failure; composition and fixpoints in `IterateCompose` and `IterateFixpoint` |
| Despiker.IterateCompose | despiker.py:36 | p + q steps are q steps on the result of p steps, and a failure in the first p is the result |
| Despiker.IterateFixpoint | despiker.py:36 | a series one step leaves as it is stays so for any number of steps |
| Despiker.Passes | despiker.py:36-70 | the `for mpass in range(multipass)` loop as `Iterate` of `Pass`; its properties are in `PassesFrame`, `PassesFailIff`, `PassesCompose` and `PassesFixpoint` |
| Series.Range | despiker.py:35 | the default arguments: n points whose i-th argument is i |
| Series.EffectiveArguments | despiker.py:35 | an empty argument list is replaced by the default range, any other is used as given; zipped in `Zip` |
| Series.EffectiveLength | despiker.py:35 | the length of the zip, the shorter of the values and the effective arguments; stated in `ZipThenUnzip` |
| Detection.NumWindows | despiker.py:38 | the number of window starts, `len - (window - 1)`, and none when the series is shorter; `Detect` yields that many candidates |
| Metric.MinBetween | despiker.py:42 | the index the `min` scan returns lies in the window; `MinBetweenIsFirstMin` states it is the first minimum |
| Metric.MaxBetween | despiker.py:42 | the index the `max` scan returns lies in the window; `MaxBetweenIsFirstMax` states it is the first maximum |
| Metric.OccursBetween | despiker.py:46 | the left-to-right equality scan of `in`; `OccursBetweenIsMembership` states it is slice membership |
| Metric.InInterior | despiker.py:46 | `p in data_window[1:-1]`, by value; `InteriorIsPositional` relates it to positions |
| Metric.RepeatedEdgePointCountsAsInterior | despiker.py:42-46 | in the window (0, 5), (0, 5), (1, 0) the first maximum is the first point, yet it equals an interior point, so the height is 5 |
| Metric.Breadth | despiker.py:49 | the last argument of the window minus the first; zero exactly on a flat window, which `DetectFailsIff` turns into the failure |
| Metric.Ratio | despiker.py:52 | height over a non-zero breadth; its sign in `RatioSign` |
| Threshold.Insert | despiker.py:59 | inserting keeps the length; `InsertPermutes` and `InsertSorted` state the rest |
| Threshold.Sort | despiker.py:59 | sorting keeps the length; `SortPermutes`, `SortSorted` and `SortCounts` state the rest |
| Threshold.MedianRank | despiker.py:59 | the sorted position `len // 2 + 1` read as the "median"; characterised in `MedianIsRankStatistic` |
| Threshold.Sum | despiker.py:61 | the sum of the ratios; `SumAbove` and `SumConstant` bound it |
| Correction.Write | despiker.py:69-70 | the single write of point j from its current neighbours, argument kept |
| Correction.Smooth | despiker.py:68-70 | the in-place loop over a window's interior keeps the length; `SmoothFrame` and `SmoothCascades` determine its result |
| Correction.CorrectPrefix | despiker.py:63-70 | the correction loop after k candidates keeps the length; `CorrectPrefixFrame` states what it changes |
| Correction.Correct | despiker.py:63-70 | the whole correction loop of one pass; `CorrectFrame`, `CorrectNothingFlagged` and `CorrectAppend` state its properties |

## Left out

- Floating point: values, arguments, ratios and averages are exact reals. IEEE rounding, infinities and NaN (whose comparisons would change `min`, `max` and sorting) are not modelled.
- Integer inputs: Python's `/` is true division, so integer arguments and values behave like floats; only rounding differs from the exact reals of the model.
- Exceptions: `AssertionError`, `ZeroDivisionError` and `IndexError` become error results, without their messages. The assertions are modelled as always active; running Python with `-O` would skip them, and that is not modelled.
- Demonstration code: the `__main__` block (despiker.py:75-109) loads a data file, plots with matplotlib and only calls `despiked`. The `yaml` and `matplotlib` imports (despiker.py:1-3) serve that block only.
- Mutable default argument: `arguments=[]` is never mutated by the function, so it behaves as an empty list on every call; the model's default is the empty sequence. The other defaults (window 5, one pass, "mean") are the same in the model.
- Input types: the source accepts any sequences whose elements support the arithmetic. The model takes sequences of reals, the window and pass count as integers, and the method as a string.
- Detection.Spike: the source keeps each window's points with its candidate, but uses only their count, which is the window length, so the model keeps only the window's start index and its ratio.
- Threshold.ThresholdOf: the source sorts the candidate tuples by ratio and reads the ratio at the median rank. Sorting only the ratios gives the same value at every rank, so the model sorts the ratios. The sort is insertion sort, and only its result (an ascending permutation) matters.
- Despiker.Despiked: its own contract states only the shape of the result (lengths, arguments, end points); the values produced by the passes are described by `Pass`, `Passes` and the lemmas about them.
