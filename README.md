# Pairs selection for an energy-ETF pairs-trading backtest

This project is a Dafny model of the data pipeline of a pairs-trading study. The study works on exchange-traded funds (ETFs) of the energy sector and has three stages.

1. **Preprocessing.** The raw price table is cleaned. Duplicate dates are dropped and gaps are filled forward and then backward. The `*_adj_close` price columns are extracted, and any price column that still has a gap or is constant is dropped. The run aborts when no price column exists, or when a gap or a constant column survives the clean-up.
2. **Walk-forward pair selection.** The cleaned table is cut into rolling windows: a 730-day formation period followed by a 182-day trading period, with a 182-day step. In every window the pipeline runs three pair selectors on the formation data, in this order:
   - all pairs of ETFs ("No Clustering");
   - pairs of ETFs that share a segment in the ETF description table ("Clustering by Segment");
   - pairs of ETFs that OPTICS places in the same cluster after PCA of standardised returns ("Clustering using OPTICS").

   Each candidate pair is screened the same way. Both price series must be non-stationary by an augmented Dickey-Fuller test. A bidirectional Engle-Granger cointegration test and a Hurst exponent over several lags are computed from the pair, along with the half-life of mean reversion, the correlation of returns and the spread's standard deviation. A pair is kept when it clears fixed thresholds and its spread deviation is at most the median of its group. All windows' selections are appended into one table.
3. **Best-pair filtering.** The saved table is read back and the `Pair` text is normalised. A stricter set of thresholds is then applied.

Floating-point values are `Floats.Float`: `NaN`, the two infinities, or a finite real. The model covers the IEEE special cases of `-`, `+`, `/` and of the logarithm, and every ordered comparison with `NaN` is false. The statistical routines the program calls are fields of the `Oracles.Oracles` datatype, so every statement holds for any behaviour of them. These routines are the ADF test, `coint`, the AR(1) fit, Pearson correlation, median, standard deviation, variance, PCA, OPTICS labels and the two logarithms. A routine whose exception the program catches returns a datatype with a "raised" case. Fatal exits of the program (`sys.exit`, or a Python exception that nothing catches) are the `Fatal` case of `Wrappers.Outcome`.

Modules:

- `Floats`, `Oracles`, `Wrappers`: the numbers, the external routines and the outcomes.
- `Strings`, `Sequences`: text and sequence helpers.
- `PairStatistics`: the statistics of `utils.py`.
- `Selection`: what the three selectors share.
- `NoClustering`, `ThemeClustering`, `Optics`: the three selectors.
- `WalkForward`: the embargo helper and the window loop of `main.py`.
- `Preprocess`: `preprocess.py`.
- `Filtering`: `filtering.py`.

Where the file works by loops, the model has methods with loops:
- `Preprocess.ForwardFill` and `Preprocess.BackwardFill` fill an `array` in place;
- `PairStatistics.CalculateHurstExponent` builds the lag map;
- the selector methods collect rows and select per group;
- `WalkForward.RunSchedule` is the `while` loop over windows.

Each method is proved equal to a specification function, and the lemmas are proved about that function.

A ticker that the description table lists twice in one segment is paired with itself by `combinations`. When its column has a known value, the statistics of that pair raise an exception that nothing catches, and the run aborts (`ThemeClustering.SelfPairAborts`). When the column has no value, neither the self-pair nor any other pair with that ticker aligns a row, so none of them yields anything.

## Model

| member | source | states |
|---|---|---|
| PairStatistics.ConstantIsNotStationary | utils.py:31-33 | a series with at most one distinct non-missing value is non-stationary, whatever the ADF test would say |
| PairStatistics.StationaryExactly | utils.py:35-45 | for a non-constant series: stationary exactly when the ADF test returns a p-value that is not above the level; a raised test counts as non-stationary, a NaN p-value or one equal to the level counts as stationary |
| PairStatistics.CointConstant | utils.py:59-62 | if either series is constant the result is (NaN, NaN) and no test is run |
| PairStatistics.CointChoosesLowerTStat | utils.py:64-84 | the second direction is chosen exactly when the first t-statistic is NaN or the second is a strictly lower non-NaN one; ties keep the first; the chosen t-statistic is the smaller of two non-NaN ones and is NaN only when both are; a raised test reads as NaN |
| PairStatistics.LagDifferences | utils.py:95 | the lag-`lag` differences are `lag` fewer than the values of p and entry i is `p[i+lag] - p[i]` |
| PairStatistics.CalculateHurstExponent | utils.py:87-101 | the loop over lags builds exactly the lag map `HurstMap` specifies |
| PairStatistics.HurstMapEntries | utils.py:91-100 | a lag is a key exactly when it is listed and shorter than the series; its value is half of log10 of the variance of the differences over log10 of the lag |
| PairStatistics.HurstMapKeyOrder | utils.py:90-101 | with distinct lags, the keys are the listed lags below the series length, in listed order |
| PairStatistics.HurstMapSkipsLongLags | utils.py:92-93 | lags 20, 50, 100 and 200 on a series of 120 values give the keys 20, 50 and 100 |
| PairStatistics.HalfLifeGuards | utils.py:108-134 | NaN with fewer than two non-missing values, or with phi NaN, at least 1, at most -1, or negative; 0 when phi is 0; when defined, phi is in [0, 1), the decay rate -ln(phi) is positive and the half-life is ln 2 over it |
| PairStatistics.Align | utils.py:150 | row-wise dropna of the two columns: aligned lengths, no missing value left, clean columns unchanged |
| PairStatistics.KnownRowsFacts | utils.py:150 | the kept row positions ascend and are exactly the rows where neither value is missing |
| PairStatistics.AlignKeepsKnownRows | utils.py:150 | each aligned series is its input read, in order, at exactly the rows where neither value is missing |
| PairStatistics.AlignIsKeep | utils.py:150 | the aligned series are the inputs restricted to those rows |
| PairStatistics.PctChange | utils.py:180-181 | first return NaN, then `s[i]/s[i-1] - 1` |
| PairStatistics.PairStatisticsGate | utils.py:150-163 | a pair yields no statistics exactly when every row of the two input columns has a missing value, or either column, restricted to the rows where both are known, is stationary |
| PairStatistics.PairStatisticsBundle | utils.py:150-196 | the statistics name the pair in argument order; correlation of returns, both cointegration fields, Hurst map, half-life and spread deviation are those of the two input columns restricted to the rows where both are known, the spread being first minus second |
| PairStatistics.PairStatisticsOfCleanColumns | utils.py:150-196 | on gap-free columns, statistics exist exactly when the columns are non-empty and both non-stationary, and every field is computed from the columns themselves and their difference |
| PairStatistics.SelfPairRaises | utils.py:150-159 | a column paired with itself raises exactly when it has a known value: the concatenated frame repeats the label, selecting it gives a two-column frame, and the constant-series test of `is_not_stationary` cannot be decided on it |
| Selection.AdjCloseColumns | NoClusterPairSelection.py:8 | exactly the columns whose name contains `adj_close`, in order |
| Selection.Prefixes | NoClusterPairSelection.py:9 | each name's text before the first `_` |
| Selection.PrefixIsFirstPiece | NoClusterPairSelection.py:9 | the prefix is the first piece of `split('_')` |
| Selection.SortedNamesSpec | NoClusterPairSelection.py:9 | `sorted(set(...))`: strictly sorted, distinct, and holding exactly the prefixes |
| Selection.Rename | NoClusterPairSelection.py:15-16 | assigning a name list of the wrong length aborts with `LengthMismatch`; otherwise the names are assigned by position and the values are kept |
| Selection.PairsCount | NoClusterPairSelection.py:19 | `combinations(s, 2)` has n(n-1)/2 elements |
| Selection.PairsMembership | NoClusterPairSelection.py:19 | (x, y) is a combination exactly when x comes strictly before y in the sequence |
| Selection.SortedPairsAscend | NoClusterPairSelection.py:9-19 | over sorted distinct names every pair is in ascending order |
| Selection.SelectorHurstLoop | NoClusterPairSelection.py:21-39 | the selectors recompute the Hurst map of the spread with lags 20, 50, 100 and 200; it replaces the one from the pair statistics |
| Selection.MakeRow | NoClusterPairSelection.py:58-60 | `Average_Hurst` is the mean of the lag map's values |
| Selection.Contribution | NoClusterPairSelection.py:24-41 | a candidate adds at most one row; it adds none exactly when the pair statistics are `None`; the row names the pair and carries its group and the mean Hurst |
| Selection.EvaluatePairs | NoClusterPairSelection.py:24-41 | the loop over candidates returns exactly `EvaluateAll` |
| Selection.EvaluateAllRows | NoClusterPairSelection.py:24-43 | a row comes from some candidate; every candidate's row is present; at most one row per candidate |
| Selection.EvaluateNamesPair | NoClusterPairSelection.py:29-37 | a kept row's pair, Hurst map and group |
| Selection.PassesMeans | NoClusterPairSelection.py:52-70 | a passing row has correlation at least 0.8, p-value at most 0.05, a finite half-life in [5, trading days], a non-NaN spread deviation and threshold, and a non-empty Hurst map |
| Selection.ShortSpreadNeverPasses | NoClusterPairSelection.py:58-67 | an empty Hurst map makes the mean NaN, so the row fails `Average_Hurst < 0.5` |
| Selection.DropNaNCorrelation | NoClusterPairSelection.py:45-46 | exactly the rows whose correlation is not NaN |
| Selection.SelectPerGroup | ThemeClusterPairSelection.py:140-156 | the per-group loop returns exactly `SelectGroups` |
| Selection.SelectGroupsExactly | ThemeClusterPairSelection.py:140-156 | a row is selected exactly when its group is listed and it passes against its group's median spread deviation |
| Selection.GroupSelectionInOrder | ThemeClusterPairSelection.py:140-156 | one group's selection lists its rows in evaluation order |
| Selection.RowsOfUnvisited | ThemeClusterPairSelection.py:140-156 | a group that is not visited has no selected row |
| Selection.RowsOfGroupSelection | ThemeClusterPairSelection.py:140-156 | a group's selection holds rows of that group only |
| Selection.SelectGroupsInOrderStep | ThemeClusterPairSelection.py:140-156 | appending a new group's selection keeps every group's rows in evaluation order |
| Selection.SelectGroupsInOrder | ThemeClusterPairSelection.py:140-156 | with each group visited once, every group's selected rows are an order-preserving subsequence of the evaluated rows |
| Selection.SelectGroupsBlockOrder | ThemeClusterPairSelection.py:140-156 | with each group visited once, every selected row of an earlier group precedes every selected row of a later group (`concat` in group order) |
| Selection.Emit | NoClusterPairSelection.py:72-89 | empty table exactly when nothing was selected; otherwise one record per row in order, carrying the method, window and statistics, and the cluster only for OPTICS groups |
| NoClustering.SelectPairsNoClustering | NoClusterPairSelection.py:6-91 | the whole selector is modelled by `NoClusteringSelection` |
| NoClustering.Candidates | NoClusterPairSelection.py:8-19 | n(n-1)/2 candidates, named in ascending order by prefixes, each pairing the values of two distinct columns |
| NoClustering.CandidateAscends | NoClusterPairSelection.py:16-19 | each candidate's names ascend |
| NoClustering.SelectedExactly | NoClusterPairSelection.py:45-70 | selected exactly when the correlation is not NaN and the row passes against the median of all such rows |
| NoClustering.SelectedInOrder | NoClusterPairSelection.py:45-70 | the rows kept by the NaN drop, and the rows selected from them, are order-preserving subsequences of the evaluated rows |
| NoClustering.WholeWindowRowFacts | NoClusterPairSelection.py:19-41 | an evaluated row names two sorted prefixes, belongs to the whole window and averages its own Hurst map |
| NoClustering.EmittedRecords | NoClusterPairSelection.py:45-89 | every emitted record carries the method and window, no cluster, an ascending pair, a correlation and a half-life in range |
| NoClustering.SelectedRow | NoClusterPairSelection.py:19-70 | a selected pair ascends, has a correlation and a half-life in [5, trading days] |
| NoClustering.Output | NoClusterPairSelection.py:72-89 | a non-empty result has the 13 output columns, method "No Clustering", the window's dates, no cluster, ascending pairs and a half-life in range |
| ThemeClustering.SegmentsOf | ThemeClusterPairSelection.py:105 | `unique()`: distinct, exactly the segments present (their order: `SegmentsInTableOrder`) |
| Strings.DedupFirstAppearance | ThemeClusterPairSelection.py:105 | deduplication keeps the elements in the order of their first occurrences |
| ThemeClustering.FirstRow | ThemeClusterPairSelection.py:105 | the first table row carrying a segment, the table length when none does |
| ThemeClustering.SegmentsInTableOrder | ThemeClusterPairSelection.py:105 | `unique()` lists the segments in the order of their first rows in the table |
| ThemeClustering.SegmentIndexOrder | ThemeClusterPairSelection.py:105 | of two `unique()` segments, the one whose first table row is earlier has the smaller position |
| ThemeClustering.TickersIn | ThemeClusterPairSelection.py:110 | a ticker is listed exactly when the description table has it in that segment |
| ThemeClustering.Present | ThemeClusterPairSelection.py:113-115 | a pair with a ticker missing from the renamed columns is skipped; otherwise its two columns |
| ThemeClustering.SegmentCandidateFacts | ThemeClusterPairSelection.py:109-117 | every candidate is a combination of the segment's tickers and both columns exist |
| ThemeClustering.CollectSegmentRows | ThemeClusterPairSelection.py:109-130 | the nested loop aborts with `AmbiguousTruthValue` exactly when some segment has a candidate that raises, and otherwise returns exactly `ThemeRows` |
| ThemeClustering.EvaluateSegment | ThemeClusterPairSelection.py:112-130 | the loop over one segment's candidates aborts exactly when one of them raises, and otherwise returns exactly `EvaluateAll` |
| ThemeClustering.AnyRaisesStep | ThemeClusterPairSelection.py:112-117 | one more candidate raises exactly when it or an earlier one does |
| ThemeClustering.ThemeRaisesStep | ThemeClusterPairSelection.py:109-117 | one more segment raises exactly when it or an earlier one does |
| ThemeClustering.TickersInTwice | ThemeClusterPairSelection.py:110-111 | two rows of the description table in one segment give the pair of their tickers, in table order |
| ThemeClustering.SelfPairSegmentRaises | ThemeClusterPairSelection.py:110-117 | a ticker listed twice in one segment, whose column has a known value, makes that segment raise |
| ThemeClustering.SelfPairAborts | ThemeClusterPairSelection.py:109-117 | such a ticker aborts the whole selector with `AmbiguousTruthValue` |
| ThemeClustering.RowPairDistinct | ThemeClusterPairSelection.py:112-130 | when a segment does not raise, each of its rows pairs two different tickers |
| ThemeClustering.SegmentRowFacts | ThemeClusterPairSelection.py:112-130 | a row is tagged with its segment and names a pair from it |
| ThemeClustering.ThemeRowsFrom | ThemeClusterPairSelection.py:109-130 | every row comes from one of the segments |
| ThemeClustering.SegmentGroups | ThemeClusterPairSelection.py:141 | one group per segment |
| ThemeClustering.SelectedExactly | ThemeClusterPairSelection.py:132-156 | selected exactly when the correlation is not NaN, the segment is listed and the row passes against its segment's median |
| ThemeClustering.SelectedInOrder | ThemeClusterPairSelection.py:132-156 | within each segment the selected rows are an order-preserving subsequence of the evaluated rows |
| ThemeClustering.SegmentsSelectedInTableOrder | ThemeClusterPairSelection.py:140-156 | the loop over `unique()` segments concatenates their selections: a selected row of a segment whose first table row comes earlier precedes every selected row of a later segment |
| ThemeClustering.SelectedRow | ThemeClusterPairSelection.py:109-156 | both tickers of a selected pair share its segment in the description table and are columns of the window; when no segment raises they are two different tickers |
| ThemeClustering.SelectPairsThemeClustering | ThemeClusterPairSelection.py:97-172 | the whole selector is modelled by `ThemeSelection`, which aborts when a ticker with data is paired with itself |
| ThemeClustering.SegmentColumnDropped | ThemeClusterPairSelection.py:168-170 | the `Segment` column is not among the output columns |
| ThemeClustering.Output | ThemeClusterPairSelection.py:158-172 | a non-empty result has the 13 columns, method "Clustering by Segment", the window, and pairs of two different window names that share a segment |
| Optics.Returns | OpticsPairSelection.py:19 | per column, the returns of the prices filled forward, which is the default fill of `pct_change` |
| Optics.ReturnsOfPrices | OpticsPairSelection.py:19 | a day's return is its price, or the last known one when it has none, over the last price known before it, minus one |
| Optics.ReturnsOfGapFreeColumns | OpticsPairSelection.py:19 | on a column without gaps the returns are those of the prices themselves |
| Optics.CompleteRows | OpticsPairSelection.py:19 | `dropna()` keeps exactly the rows where no column is NaN |
| Optics.ReturnsFrameComplete | OpticsPairSelection.py:19 | the returns frame has no NaN, and the first row is always dropped |
| Optics.Scale | OpticsPairSelection.py:24 | a zero standard deviation becomes 1, any other value is kept |
| Optics.Standardize | OpticsPairSelection.py:23-25 | each value minus the mean, over the scale |
| Optics.ZeroStdGuard | OpticsPairSelection.py:24-25 | a constant column is only centred; finite inputs stay finite |
| Optics.InsertLabel | OpticsPairSelection.py:43-45 | insertion keeps the labels ascending, with exactly the old labels plus the new one |
| Optics.Clusters | OpticsPairSelection.py:43-45 | `sorted(set(labels) - {-1})`: ascending, and exactly the labels other than noise |
| Optics.MemberIndices | OpticsPairSelection.py:54 | the positions carrying a label, ascending |
| Optics.Members | OpticsPairSelection.py:54 | exactly the columns labelled with that cluster |
| Optics.MemberPairs | OpticsPairSelection.py:58 | a pair of members is two distinct positions of the cluster, in order |
| Optics.ClusterRowFacts | OpticsPairSelection.py:53-78 | a row is tagged with its cluster and names two columns of it in order |
| Optics.OpticsRowsFrom | OpticsPairSelection.py:53-78 | every row comes from one of the clusters |
| Optics.CollectClusterRows | OpticsPairSelection.py:53-78 | the loop returns exactly `OpticsRows` |
| Optics.ClusterGroups | OpticsPairSelection.py:93 | one group per cluster |
| Optics.SelectedExactly | OpticsPairSelection.py:86-109 | selected exactly when the correlation is not NaN, the cluster is listed and the row passes against its cluster's median |
| Optics.SelectedInOrder | OpticsPairSelection.py:86-109 | within each cluster the selected rows are an order-preserving subsequence of the evaluated rows |
| Optics.ClustersSelectedInOrder | OpticsPairSelection.py:93-109 | the loop over the sorted labels concatenates their selections: a selected row of a smaller cluster label precedes every selected row of a larger one |
| Optics.SelectedRow | OpticsPairSelection.py:53-109 | a selected pair lies in one non-noise cluster and passes |
| Optics.SelectPairsOptics | OpticsPairSelection.py:9-126 | the whole selector is modelled by `OpticsSelection` |
| Optics.OnlyRenameAborts | OpticsPairSelection.py:11-18 | the selector aborts exactly when the columns' prefixes are not all distinct, and then with `LengthMismatch` |
| Optics.EmptyWithoutClusters | OpticsPairSelection.py:27-48 | a PCA failure, or labels that are all noise, gives the empty table |
| Optics.SortedPositions | OpticsPairSelection.py:12-18 | after renaming, earlier columns have smaller names |
| Optics.Output | OpticsPairSelection.py:111-126 | a non-empty result has the 14 columns, the OPTICS method, the window, a non-noise cluster, and ascending pairs |
| WalkForward.EmbargoClosedForm | main.py:13-21 | entry i maps `times[i]` to the time `step` rows later, capped at the last time, where `step = int(n * 0.01)` |
| WalkForward.EmbargoShortIndex | main.py:16-17 | fewer than 100 times map each time to itself |
| WalkForward.EmbargoForward | main.py:13-21 | on a sorted index no embargo time is earlier than its bar |
| WalkForward.SliceRows | main.py:125 | label slicing keeps exactly the rows whose date lies in the closed interval |
| WalkForward.Slice | main.py:125 | every column keeps its name and the rows of the interval |
| WalkForward.BoundaryInBothSlices | main.py:125-128 | the formation end date is in both the formation and the trading slice |
| WalkForward.DataRange | main.py:112-113 | the minimum and maximum index dates are dates of the index and bound all of it |
| WalkForward.WindowsFromCount | main.py:115-123 | the loop runs `(end - first trading end) / 182 + 1` times, or not at all |
| WalkForward.ScheduleCount | main.py:115-123 | the window count from the start date |
| WalkForward.WindowsFromShape | main.py:162-165 | window k is the first window shifted by `182 * k` days and ends by the data end |
| WalkForward.ScheduleShape | main.py:112-123 | every window is 730 formation days followed by 182 trading days, starts 182 days after the previous one and ends by the last date |
| WalkForward.WindowsFromStep | main.py:123-165 | the windows are the current one followed by those of the advanced window |
| WalkForward.AccumulateStep | main.py:138-159 | a window's records are appended after the earlier ones |
| WalkForward.AbortIsFinal | main.py:123-165 | once a window aborts, later windows change nothing |
| WalkForward.AppendOnly | main.py:141-159 | the table of a prefix of the windows is a prefix of the full table |
| WalkForward.Aborted | main.py:123-165 | an aborting window's error is the outcome of the whole run |
| WalkForward.RunSelectors | main.py:137-159 | the three selectors run in order on the formation data and their tables are concatenated; the first abort ends the window |
| WalkForward.RunWindow | main.py:125-159 | one loop iteration, which slices the formation data and calls the three selector methods, equals `PeriodOf` on the window |
| WalkForward.StepOk | main.py:138-165 | an iteration that does not abort appends its records and leaves the schedule from the advanced window still to run |
| WalkForward.StepFatal | main.py:123-165 | an iteration that aborts decides the outcome of the whole schedule |
| WalkForward.RunSchedule | main.py:115-165 | the `while` loop over the four window dates yields exactly the accumulation of the per-window outcomes over the windows that end by the last date |
| WalkForward.WalkForwardRun | main.py:112-168 | the run from the first to the last index date is the accumulation of the per-window selections over the schedule; an empty index runs no window |
| Filtering.WrittenRows | main.py:168 | the saved table keeps one row per record, the Hurst map as text and the pair as tuple text |
| Strings.RemoveCharFacts | filtering.py:8 | removing a character leaves no copy of it, keeps every other character, and leaves text without it unchanged |
| Strings.RemoveCharConcat | filtering.py:8 | removing a character from a concatenation is removing it from each part |
| Filtering.Clean | filtering.py:8 | no `(`, `)` or `'` remains and no character is added |
| Filtering.SplitChars | filtering.py:8 | the pieces use only the text's characters |
| Filtering.NormaliseAvoids | filtering.py:8 | a normalised pair has no parenthesis, quote or comma |
| Filtering.NormalisePiecesSorted | filtering.py:8 | for text without `-`, the `-`-separated pieces are sorted and are a permutation of the comma pieces |
| Filtering.NormaliseIdempotent | filtering.py:8 | normalising twice equals normalising once |
| Filtering.CleanTuple | filtering.py:8 | dropping the parentheses and quotes from the tuple text of two plain names leaves `a, b` |
| Filtering.NormaliseTuple | filtering.py:8 | the saved pair `('a', 'b')` normalises to `" b-a"`: reversed, with a leading space |
| Filtering.NormaliseExample | filtering.py:8 | `('A', 'B')` becomes `" B-A"` |
| Filtering.SavedPairText | filtering.py:5-8 | after the CSV round trip, every saved pair of plain ticker names (printable ASCII, without quotes, commas, parentheses or backslashes) is reversed in this way |
| Filtering.NormalisePairs | filtering.py:8 | only the `Pair` column changes, row by row |
| Filtering.FilterBestPairs | filtering.py:5-26 | as written: a table without rows aborts with `MissingPairColumn`; otherwise the run aborts on the text-versus-number comparison exactly when some row's `Hurst_Exponent` holds map text; otherwise a row is kept exactly when it passes |
| Filtering.AsWrittenAbortsOnSavedTable | filtering.py:5-22 | every table that the pipeline saves makes the filter abort: the empty one with `MissingPairColumn`, any other with `InvalidComparison` |
| Filtering.FilterBestPairsCorrected | filtering.py:5-26 | a table without rows still aborts with `MissingPairColumn`; otherwise a row is kept exactly when it passes with `Average_Hurst` in the Hurst test |
| Filtering.KeptRow | filtering.py:11-26 | a kept row comes from the table with its pair normalised: correlation at least 0.9, p-value at most -3.5, Hurst average below 0.5, finite half-life in [30, 60] |
| Filtering.NonNegativePValueNeverKept | filtering.py:12-21 | no row with a p-value of 0 or more is ever kept |
| Filtering.KeptInOrder | filtering.py:18-26 | kept rows are a subsequence of the table in the original order |
| Preprocess.FirstRows | preprocess.py:37 | ascending, exactly the first occurrences of each date |
| Preprocess.EarliestOccurrence | preprocess.py:37 | every date has a first occurrence |
| Preprocess.DropDuplicateDatesFacts | preprocess.py:34-38 | the dates become distinct and keep the same set, rows stay in order, and each kept row is the date's first occurrence with its values |
| Preprocess.FFillAt | preprocess.py:47 | known values stay; a cell stays missing exactly when every cell up to it is missing |
| Preprocess.BFillAt | preprocess.py:48 | known values stay; a cell stays missing exactly when every cell from it on is missing |
| Preprocess.FFillCarries | preprocess.py:47 | a missing cell below the first row takes the filled value of the cell above |
| Preprocess.FFillNearest | preprocess.py:47 | a filled cell holds the nearest known value at or above it |
| Preprocess.FFillDayAndBefore | preprocess.py:47 | the cell before a day holds the last value known before it, and the day holds its own value or that one |
| Preprocess.FFillKeepsGapFree | preprocess.py:47 | a column without gaps is unchanged by the forward fill |
| Preprocess.BFillCarries | preprocess.py:48 | a missing cell above the last row takes the filled value of the cell below |
| Preprocess.BFillNearest | preprocess.py:48 | a filled cell holds the nearest known value at or below it |
| Preprocess.ForwardFill | preprocess.py:47 | the in-place loop leaves the array equal to `FFill` of its old contents |
| Preprocess.BackwardFill | preprocess.py:48 | the in-place loop leaves the array equal to `BFill` of its old contents |
| Preprocess.FillMissingExactly | preprocess.py:47-51 | after both fills a cell is missing exactly when the whole column is missing |
| Preprocess.FillKeepsValues | preprocess.py:47-48 | filling never changes a known value |
| Preprocess.FillOne | preprocess.py:47-48 | filling one column through an array equals `FillColumn` |
| Preprocess.FillFrame | preprocess.py:47-48 | filling every column equals `FillColumns` |
| Preprocess.ValidatedCell | preprocess.py:43-55 | after validation each known value stays, and a cell is missing exactly when its column was all missing |
| Preprocess.ValidatedFacts | preprocess.py:31-57 | validated dates are distinct, with the same set of dates, and the column names are unchanged |
| Preprocess.ValidateData | preprocess.py:31-57 | the method equals `Validated` |
| Preprocess.ExtractAdjClose | preprocess.py:62-78 | aborts with `NoAdjCloseColumns` exactly when no name ends in `_adj_close`; otherwise exactly those columns in order, with the same dates |
| Preprocess.DropWhereKeeps | preprocess.py:88 | `drop(columns=...)` keeps only columns not dropped, in order |
| Preprocess.DropWhereAgrees | preprocess.py:83-88 | with distinct labels, a column's label is dropped exactly when the column itself is flagged |
| Preprocess.DropWhereExactly | preprocess.py:83-88 | with distinct labels, dropping by label equals filtering by the kept predicate |
| Preprocess.RemoveMissingDataFacts | preprocess.py:80-99 | kept columns have no gap and come from the input in order; with distinct labels, exactly the complete columns |
| Preprocess.RemoveConstantDataFacts | preprocess.py:101-119 | kept columns have two distinct known values and come from the input in order; with distinct labels, exactly the varying columns |
| Preprocess.FinalChecksPass | preprocess.py:140-164 | the run aborts exactly when no column name ends in `_adj_close`, with that error; the final checks for gaps and constant columns never fire; a result has distinct dates and only gap-free, varying price columns |

## Left out

- File and console I/O are not modelled: reading and writing CSV files, log files, `print`, `sys.exit` messages, downloading data, and plotting (`plot.py`, `plot_results`). A saved and reloaded table is modelled as values.
- `extract_features` (utils.py:199-218), `load_data`, `save_preprocessed_data`, `datadownload.py` and `cluster.py` are not part of this model, and neither is the commented-out code.
- The statistical routines (ADF, `coint`, AR(1), Pearson, median, standard deviation, variance, PCA, OPTICS, the logarithms) are read as opaque functions. Their numerics, floating-point rounding and signed zeros are not modelled.
- Exceptions that the program does not catch are not modelled: pearsonr, AutoReg and OPTICS always return a value, and `coint` and PCA either return a value or raise the ValueError that utils.py:66-68, utils.py:74-76 and OpticsPairSelection.py:29-30 catch; any other exception there (numpy's LinAlgError, say), which would end the run, is not represented in `CointOutcome` or `PcaOutcome`.
- The warning in `extract_adj_close` when fewer than 100 price columns are found changes nothing and is left out.
- The validation and trading slices of each window (main.py:126-128) are never read by the selectors and are left out. So is the embargo series (main.py:135). `WalkForward.EmbargoTimes` models `getEmbargoTimes` on its own; `int(n * 0.01)` is taken as `n / 100`. The double nearest 0.01 lies slightly above 1/100, so the two agree for any index length a price table can have.
- `WalkForward.SliceRows` keeps the rows whose date lies in the closed interval, which is what pandas label slicing selects on a sorted index. Slicing an unsorted index, which pandas handles differently or refuses, is not modelled.
- `pd.concat` of tables with different column sets is modelled as appending records. The union of columns and the NaN it introduces (the `Cluster` column of OPTICS rows) are not modelled.
- `WalkForward.RunSchedule` takes the body of one iteration as a function of the window, and `WalkForward.WalkForwardRun` passes `PeriodOf`. The body as imperative code is `WalkForward.RunWindow`, proved equal to `PeriodOf` on every window. Its precondition, that the theme selector's name order lists the prefixes once each, holds on every window because `WalkForward.WalkForwardRun` requires it of `themeOrder` for every frame.
- The `isinstance(selected, tuple)` branch at main.py:155-158 is dead, since the OPTICS selector always returns a table, and is left out.
- The `'Correlation' in results_df.columns` test is modelled as "there is at least one row", which is when pandas has the column. In the no-clustering selector `Correlation` is always present once a row exists.
- In the theme selector the name list comes from `set(...)` in hash order. It is a parameter (`themeNames`), so the result holds for any order of the distinct prefixes. Renaming by position then pairs names and columns as in the source, the wrong way round whenever the order differs.
- `PairStatistics.CalculatePairStatistics` models a call on two differently labelled series. Only the theme selector can pass one label twice, and it checks `PairStatistics.PairStatisticsRaises` before each call.
- `Preprocess.RemoveMissingDataFacts` and `Preprocess.RemoveConstantDataFacts` only state equality with the plain filter when the column labels are distinct. With duplicate labels, `drop(columns=...)` also drops well-formed columns that share a label, and the model reproduces this without characterising it further.
- `Preprocess.BFill` states only its length in its own contract. Its cell-by-cell meaning is in the lemmas `Preprocess.BFillAt` and `Preprocess.BFillNearest`.
- `Preprocess.FFill` states only its length in its own contract. Its cell-by-cell meaning is in the lemmas `Preprocess.FFillAt` and `Preprocess.FFillNearest`.
- `Filtering.FilterBestPairs` reads the saved numbers back as the values that were written. The decimal formatting of the CSV round trip is not modelled. A saved table without rows is taken to have no columns, which is what the run writes when no window selects anything (main.py:121, main.py:168). A table with a header and no rows would be read back, but the run never writes one.
- The documentation comment in filtering.py:17 speaks of also keeping every "Clustering by Segment" row, but the code applies the thresholds to all rows. The model follows the code.
- `PairStatistics.CalculateHurstExponent` requires positive lags: every lag list in the source is a positive constant.

## Findings

| source | as written | input that shows it | evidently intended | confidence | as-written member | corrected member |
|---|---|---|---|---|---|---|
| filtering.py:22 | `Hurst_Exponent < 0.5` compares the column read back from the CSV, which holds the text of a lag-to-exponent map, with a number, and pandas raises TypeError | any non-empty table saved by main.py:168, whose `Hurst_Exponent` cells are map text | the mean Hurst exponent `Average_Hurst < 0.5`, the test that all three selectors apply | not executed | Filtering.AsWrittenAbortsOnSavedTable | Filtering.FilterBestPairsCorrected |
