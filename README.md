# Tick-data validation and cleaning, modelled in Dafny

This project models the data-quality core of a small market tick-data pipeline. A tick table has
the columns `timestamp`, `price`, `volume` and `exchange`. The pipeline has three functions:

- **validate_and_flag** sorts the ticks by timestamp and computes six flags per row:
  - `is_missing_price`;
  - `is_negative_price`;
  - `is_zero_volume`;
  - `is_outlier_z`: more than three sample standard deviations from the mean;
  - `is_outlier_iqr`: outside `[Q1 - 1.5 IQR, Q3 + 1.5 IQR]`;
  - `is_gap_large`: more than 10 seconds after the previous row.

  `is_anomaly` is the OR of the six, and the function counts the anomalous rows.
- **clean_data** works in four steps, then reports the row counts before and after:
  1. drops repeated `(timestamp, exchange, price, volume)` rows, keeping the first;
  2. fills missing prices by linear interpolation over row positions, extending the edge values
     outwards;
  3. clips prices into `[max(q0.001, 0.01), q0.999]`, with both quantiles taken over the positive
     prices;
  4. drops rows with a negative price or a zero volume.
- **load_and_profile** reports counts of missing prices, repeated rows, negative prices and zero
  volumes.

Modules:

- `Wrappers` holds `Option` and `Result`.
- `Selection` lists the positions a boolean mask selects. It states what a mask selection such as
  `df[~invalid]` keeps, and what the `.sum()` of a boolean column counts.
- `Ticks` holds the row type, the per-row conditions, and column helpers. The conditions are
  missing, negative and positive price, and zero volume, and every module uses these.
- `Sorting` is a sort by a real key.
- `Stats` covers sum, mean, sample variance (ddof 1), Samuelson's inequality, and pandas' linear
  quantile.
- `Detector` models validate_and_flag.
- `Cleaner` models clean_data.
- `Profile` models the counts of load_and_profile.

How values are modelled:

- A missing price (NaN) is `None`.
- A comparison with NaN is false, so a missing price is never negative and never an outlier.
- The z rule is stated without a square root, as `variance > 0 && (x - mean)^2 > 9 * variance`.
  This agrees with `|x - mean| / std > 3`. When the variance is zero, every price equals the mean,
  so pandas computes `0/0 = NaN` and the comparison is false. With one price the sample standard
  deviation is NaN, which is also false.

Where the code and its intended description part ways, the model follows the code:

- **The gap rule is strict.** `time_diffs > 10` does not flag a step of exactly 10 seconds.
  Offsets 0, 5, 15 and 16 seconds therefore flag no row at all (`Detector.GapExample`).
- **Tables without a present price.** For such tables, including the empty table,
  validate_and_flag never creates the `is_outlier_*` columns, and the OR at lines 48-49 raises.
  The model returns `Failure(OutlierColumnsMissing)` for exactly these tables.
- **Clipping moves the extreme prices of almost every table.** The linear quantiles lie strictly
  inside the range unless the extremes repeat: q0.001 of 1, 2 and 3 is 1.002. So
  `Cleaner.AlreadyClean` and `Cleaner.CleanOfAlreadyClean` apply only when the smallest and the
  largest price occur often enough. clean_data is not idempotent in general.
- **Clip bounds come from pandas.** `clip` ignores NaN bounds and puts reversed scalar bounds in
  order:
  - Without a positive price, the quantiles are NaN and clipping changes nothing (`None` bounds).
  - When every positive price is below 0.01, the bounds become `[q0.999, 0.01]`. So "lower ≥ 0.01"
    holds only when q0.999 ≥ 0.01 (`Cleaner.UsualBounds`).

## Model

| member | source | states |
|---|---|---|
| `Ticks.KeyOfInjective` | pipeline_functions.py:58 | the deduplication key covers every modelled column, so equal keys mean equal rows |
| `Ticks.PresentPrices` | pipeline_functions.py:36 | `dropna` on price: empty exactly when no row has a price, and every present price is in it |
| `Ticks.PositivePrices` | pipeline_functions.py:64 | `price > 0` selection: every element is positive and comes from some row's price, and every positive price of the table is in it |
| `Ticks.PresentPricesAreSelected` | pipeline_functions.py:36 | `dropna` keeps exactly the prices of the rows that have one, in table order and once per row, so every price occurs as often as in the table |
| `Ticks.PositivePricesAreSelected` | pipeline_functions.py:64 | `price[price > 0]` keeps exactly the prices of the rows with a positive price, in table order and once per row |
| `Ticks.ZeroVolumeCount` | pipeline_functions.py:25 | `(volume == 0).sum()`: at most the row count, and zero exactly when no row has zero volume |
| `Ticks.ZeroVolumeCountIsCount` | pipeline_functions.py:25 | `(volume == 0).sum()` is the number of rows whose volume is zero |
| `Ticks.ZeroVolumeCountOfSameVolumes` | pipeline_functions.py:61-67 | tables with the same volume column have the same zero-volume count (steps that rewrite only prices keep it) |
| `Selection.PositionsFrom` | pipeline_functions.py:36 | the selected positions are exactly those whose element satisfies the predicate, each once, in increasing order (what a boolean-mask selection keeps) |
| `Selection.PositionsFromCount` | pipeline_functions.py:24-25 | there are as many selected positions as elements satisfying the predicate, which is what a `.sum()` of a boolean column counts |
| `Sorting.SortBy` | pipeline_functions.py:30 | `sort_values('timestamp')`: the result is a permutation of the input (same length and multiset) in ascending key order |
| `Stats.SampleVariance` | pipeline_functions.py:38 | sample variance (ddof 1) of at least two values is never negative |
| `Stats.DevOfMean` | pipeline_functions.py:38 | deviations from the mean add up to zero |
| `Stats.DeviationBound` | pipeline_functions.py:38 | Cauchy-Schwarz for deviations: (sum of deviations)^2 <= n * (sum of squared deviations) |
| `Stats.Samuelson` | pipeline_functions.py:38-39 | Samuelson's inequality: for the size n, mean and squared deviations ss of a sample, n (x_i - mean)^2 <= (n - 1) * ss |
| `Stats.VarianceParts` | pipeline_functions.py:38 | the squared deviations are n - 1 times the sample variance |
| `Stats.ConstantStats` | pipeline_functions.py:38 | for constant data, the mean is the constant and no value deviates from it |
| `Stats.Sorted` | pipeline_functions.py:41 | the ascending rearrangement quantiles read from: same length, same multiset, ascending |
| `Stats.Lerp` | pipeline_functions.py:41 | linear interpolation between `a <= b` stays within `[a, b]` |
| `Stats.QuantilePosition` | pipeline_functions.py:41 | pandas' quantile position `(n - 1) q` lies within the index range |
| `Stats.QuantileOfSorted` | pipeline_functions.py:41 | a linear quantile of sorted data lies between its first and last elements |
| `Stats.Quantile` | pipeline_functions.py:41 | a linear quantile lies between two elements of the data: one at or below it, one at or above it |
| `Stats.QuantileMonotone` | pipeline_functions.py:41 | a larger quantile level never gives a smaller quantile |
| `Detector.RowFlags` | pipeline_functions.py:32-49 | a row without a price has `is_missing_price` true and no negative, z or IQR flag; `is_anomaly` holds exactly when one of the six flag conditions holds |
| `Detector.CountAnomalies` | pipeline_functions.py:51 | the anomaly sum is at most the row count |
| `Detector.CountIsAnomalousRows` | pipeline_functions.py:51 | the anomaly sum is the number of rows whose `is_anomaly` is true |
| `Detector.PresentPriceOfPermutation` | pipeline_functions.py:30-37 | reordering rows keeps whether some price is present, so the guard sees the same answer before and after the sort |
| `Detector.ZeroVolumeColumnOfFlagRows` | pipeline_functions.py:34 | the `is_zero_volume` column of the flagged frame marks exactly the rows with zero volume |
| `Detector.FlagRows` | pipeline_functions.py:32-49 | every row is kept in place, with its six flags and `is_anomaly` the OR of them |
| `Detector.ValidateAndFlag` | pipeline_functions.py:29-52 | fails exactly when no price is present; otherwise returns a timestamp-sorted permutation of the input, each row carrying its flags and `is_anomaly`, and the number of anomalous rows |
| `Detector.GapExample` | pipeline_functions.py:45-46 | offsets 0, 5, 15 and 16 seconds flag no row (the 10-second step is not above the threshold) |
| `Detector.GapThresholdIsStrict` | pipeline_functions.py:45-46 | a 10-second step is not flagged and an 11-second step is |
| `Detector.NoZOutlierInSmallSample` | pipeline_functions.py:38-39 | with 2 to 10 present prices no price is a z outlier, because (n - 1)^2 <= 9n |
| `Detector.NoZOutlierForConstant` | pipeline_functions.py:38-39 | with constant prices the variance is zero and no value is a z outlier |
| `Detector.NoZScoreFlag` | pipeline_functions.py:36-39 | no row is z-flagged when all present prices are equal, or when at most ten are present (including fewer than two) |
| `Detector.QuartilesOrdered` | pipeline_functions.py:41-42 | Q1 <= Q3, so the interquartile range is never negative |
| `Detector.NoIqrFlagBetweenQuartiles` | pipeline_functions.py:41-43 | a price between Q1 and Q3, or a missing price, is never IQR-flagged |
| `Detector.QuantileOfConstant` | pipeline_functions.py:41 | every quantile of constant data is that constant |
| `Detector.NoIqrFlagForConstant` | pipeline_functions.py:41-43 | constant present prices raise no IQR flag |
| `Cleaner.Dedup` | pipeline_functions.py:58 | deduplication never adds rows: the result is no longer than the input and every row comes from it |
| `Cleaner.FirstIndices` | pipeline_functions.py:58 | the kept positions are valid and strictly increasing |
| `Cleaner.FirstIndicesAreFirstOccurrences` | pipeline_functions.py:58 | a position is kept exactly when no earlier row has the same key (`keep='first'`) |
| `Cleaner.DedupKeepsFirstOccurrences` | pipeline_functions.py:58 | the result is the input's rows at the kept positions, in input order (an order-preserving subsequence) |
| `Cleaner.DedupDistinctKeys` | pipeline_functions.py:58 | no two rows of the result share a key |
| `Cleaner.DedupKeepsEveryKey` | pipeline_functions.py:58 | every input row is still represented after deduplication |
| `Cleaner.DedupOfDistinct` | pipeline_functions.py:58 | a table without repeated keys is returned unchanged |
| `Cleaner.LastBefore` | pipeline_functions.py:61 | finds the nearest present price before a position, or reports that there is none |
| `Cleaner.FirstFrom` | pipeline_functions.py:61 | finds the nearest present price at or after a position, or reports that there is none |
| `Cleaner.Between` | pipeline_functions.py:61 | the value on the line between two neighbours lies between them |
| `Cleaner.Interpolate` | pipeline_functions.py:61 | interpolation keeps the column's length |
| `Cleaner.InterpolateFills` | pipeline_functions.py:61 | present prices are unchanged; with any price present, none is missing afterwards; with none present, the column is unchanged |
| `Cleaner.InterpolateEdges` | pipeline_functions.py:61 | leading gaps take the first present value and trailing gaps the last (`limit_direction='both'`) |
| `Cleaner.InterpolateInterior` | pipeline_functions.py:61 | an interior gap is filled with a value between its nearest present neighbours |
| `Cleaner.Imputed` | pipeline_functions.py:61 | filling prices keeps the row count and every other column |
| `Cleaner.ClipBounds` | pipeline_functions.py:64-67 | bounds exist exactly when some price is positive, and then 0 < lower <= upper |
| `Cleaner.QuantileOfPositive` | pipeline_functions.py:64-66 | quantiles of positive prices are positive |
| `Cleaner.UsualBounds` | pipeline_functions.py:65-67 | when q0.999 >= 0.01 the bounds are exactly [max(q0.001, 0.01), q0.999], with lower >= 0.01 |
| `Cleaner.Clamp` | pipeline_functions.py:67 | a clipped price lies within the bounds and is the point of the bounds nearest to the original price: a price already inside is unchanged, and one outside goes to the nearer bound |
| `Cleaner.ClippedMaxIsUpper` | pipeline_functions.py:64-67 | when q0.999 >= 0.01, the largest price after clipping is exactly q0.999 of the positive prices: no clipped price exceeds it and some row reaches it |
| `Cleaner.ClipPrices` | pipeline_functions.py:67 | clipping never changes the row count |
| `Cleaner.ClipPricesSpec` | pipeline_functions.py:67 | clipping changes only prices and never makes a price appear or vanish; with bounds every price ends inside them; without bounds, or with every price already inside, the table is unchanged |
| `Cleaner.RemoveInvalid` | pipeline_functions.py:70-71 | a row is kept exactly when it is in the input and is not invalid (negative price or zero volume) |
| `Cleaner.RemoveInvalidSelectsMask` | pipeline_functions.py:70-71 | the filter is `df[~invalid]`: the rows the invalid mask leaves unmarked, in table order, each once |
| `Cleaner.RemoveInvalidCount` | pipeline_functions.py:70-71 | with no negative price, exactly the zero-volume rows are removed |
| `Cleaner.RemoveInvalidOfValid` | pipeline_functions.py:70-71 | a table with no invalid row passes the filter unchanged |
| `Cleaner.InvalidMaskAsWritten` | pipeline_functions.py:70 | the mask as written fails exactly on a frame without an `is_zero_volume` column |
| `Cleaner.RawFrameHasNoZeroVolumeColumn` | app.py:67 | the frame the application passes in has no `is_zero_volume` column, so the mask as written fails whatever the rows |
| `Cleaner.AsWrittenAgreesOnFlaggedFrame` | pipeline_functions.py:34 | on the frame validate_and_flag returns, which carries the `is_zero_volume` column, the mask as written is exactly the corrected mask |
| `Cleaner.CleanData` | pipeline_functions.py:54-74 | the cleaned table is the input deduplicated, interpolated, clipped to its bounds and filtered, in that order; `original_rows` is the input length and `cleaned_rows` the output length, final <= original; no output row is invalid; prices are all present once any input price is; with bounds every price lies inside them and exactly the zero-volume rows of the deduplicated table are dropped; every output row matches an input row in timestamp, volume and exchange; an already clean table is returned unchanged |
| `Cleaner.DedupKeepsPresentPrice` | pipeline_functions.py:58-61 | deduplication keeps some present price when the input has one |
| `Cleaner.ImputedAllPresent` | pipeline_functions.py:61 | after interpolation a table with a present price has no missing price |
| `Cleaner.ImputedOfAllPresent` | pipeline_functions.py:61 | interpolation leaves a table without missing prices unchanged |
| `Cleaner.CleanedPricesPresent` | pipeline_functions.py:58-71 | once the input has a present price, every cleaned price is present |
| `Cleaner.CleanedWithinBounds` | pipeline_functions.py:67-71 | with bounds, every cleaned price lies inside them |
| `Cleaner.CleanedTraceable` | pipeline_functions.py:58-71 | every cleaned row carries the timestamp, volume and exchange of an input row |
| `Cleaner.CleanOfAlreadyClean` | pipeline_functions.py:54-74 | a table with no repeated key, no missing price, no out-of-bounds price and no zero volume passes every step unchanged |
| `Profile.MissingPriceCount` | pipeline_functions.py:20-21 | the missing-price count is the row count minus the number of present prices |
| `Profile.NegativePriceCount` | pipeline_functions.py:24 | `(price < 0).sum()` is at most the row count, and zero exactly when no present price is negative |
| `Profile.NegativePriceCountIsCount` | pipeline_functions.py:24 | `(price < 0).sum()` is the number of rows with a negative price |
| `Profile.DuplicateCount` | pipeline_functions.py:23 | the repeated-row count plus the length of the deduplicated table is the row count |
| `Profile.NoDuplicatesIffDistinct` | pipeline_functions.py:23 | no row is reported as repeated exactly when no two rows share a key |
| `Profile.ProfileAfterRemoveInvalid` | pipeline_functions.py:24-25 | after the invalid rows are removed, the profile reports no negative price and no zero volume |

## Findings

| source | as written | input that shows it | evidently intended | confidence | as-written member | corrected member |
|---|---|---|---|---|---|---|
| pipeline_functions.py:70 | the filter reads a column `is_zero_volume`, which only validate_and_flag adds; app.py:67 passes the raw CSV frame to clean_data | any frame read from the CSV, even an empty one, unless the CSV itself has an `is_zero_volume` column: `df['is_zero_volume']` raises KeyError | the `volume == 0` test of line 34 | not executed; high | `Cleaner.RawFrameHasNoZeroVolumeColumn` | `Cleaner.AsWrittenAgreesOnFlaggedFrame` |

The rest of the model uses the corrected test (`Cleaner.Invalid` on `volume == 0`). Two further
members cover the correction:

- `Cleaner.RemoveInvalidSelectsMask` proves that the filter keeps the rows the corrected mask
  (`Cleaner.InvalidMask`) leaves unmarked.
- `Cleaner.RemoveInvalidCount` proves the intended effect: the filter removes exactly the
  zero-volume rows.

## Left out

- app.py is not part of this model. It holds the Streamlit interface:
  - CSV upload and parsing;
  - charts;
  - session state and the download button;
  - the error display;
  - the required-column check (the model's rows always have all four columns).
- The text of the profiling report is not modelled:
  - its formatting and the `datetime.now()` stamp;
  - the column list;
  - the timestamp range;
  - missing counts for columns other than price, which are never missing in the model.
- Floating point is not modelled. Prices and volumes are exact reals, and NaN is `None`.
  Rounding in the mean, the standard deviation, the quantiles and the interpolation is out of
  scope.
- Timestamps are integer seconds. Datetime parsing and `.dt.total_seconds()` fractions are I/O
  concerns.
- DataFrame indexes are not modelled. Rows are positional, which matches `reset_index(drop=True)`
  and the positional `method='linear'` interpolation.
- `Sorting.SortBy`: only "a permutation in ascending timestamp order" is stated. pandas' default
  sort is not stable, so the order of rows with equal timestamps is not specified.
  - That order decides which tied row gets the gap flag, so `anomaly_count` can depend on it.
    Take timestamps 0, 20 and 20, where one row at 20 has no price: the count is 1 or 2.
  - `Detector.ValidateAndFlag` therefore fixes the flags only relative to the order it returns.
- `Detector.ValidateAndFlag`: the source raises when no price is present (lines 37 and 48). The
  model returns a `Failure` instead of modelling the exception.
- A missing `exchange` column would make line 58 raise. Every modelled row has an exchange, so
  this crash is not modelled.
- `Profile.DuplicateCount`: `duplicated()` compares all columns. It equals the key comparison only
  because a modelled row has exactly the four key columns.
- `Cleaner.UsualBounds`: states "lower >= 0.01" only when q0.999 >= 0.01, because pandas puts
  reversed bounds in order.
