# Mountain-weather data preparation, modelled in Dafny

This project models the data-preparation core of a pandas pipeline for
mountain-weather observations (`src/data/`). That core has four parts:

- cleaning: drop rows with missing values, replace negative values, clip a
  frame to a date range;
- feature engineering: log columns, calendar columns (year, month, season),
  cyclic day-of-year columns, yesterday's observation, and a grouped sort;
- splitting: a date split, and `prepare_data_splits`, which standardizes
  predictors with whole-frame statistics and builds per-split `X_k`/`Y_k`
  arrays;
- utilities: filters by a list of values or by one value, groups whose
  summed difference of two fields meets a threshold, and the symmetric
  difference of two lists.

A cell is a `Value`: `Missing` (NaN/NaT/None), `Num(real)` or
`Text(string)`. A frame is a `Table` with ordered column names, an index
and rows that map column names to cells (`Frames.WellFormed`). pandas
exceptions become `Error` values: `KeyNotFound` for `KeyError`,
`InvalidValue` for `ValueError`, `TypeMismatch` for a `TypeError` from
comparing or subtracting strings and numbers, `PositionOutOfRange` for
`IndexError`, and `DateParse` for an unparseable date.

Some operations return a new frame (`dropna`, `df.loc[mask]`, `groupby`,
the filters, the time split). They are functions on `Table`. Other
operations write into the caller's frame (`df[col] = ...`, `inplace=True`,
the temporary `temp_diff` column). They are methods on the class
`Frames.DataFrame`, whose fields are updated in place. Each such method is
specified by a "run" function. The run function returns the frame the
method leaves, together with its outcome, so a method that raises midway is
modelled with the columns it had already written.

`replace_negative_values` and `prepare_data_splits` loop in the source.
They are methods with `while` loops proved equal to their specification
functions. Floating-point `log`, `sin`, `cos`, `sqrt` and `pi` are
parameters, and all other arithmetic is exact over `real`. ISO date strings
(`YYYY-MM-DD`) are parsed by `Dates.ParseIsoDate`. The string order the
code uses for date comparisons is proved to be chronological order.

The pandas behaviour modelled is that of pandas 2.x, the series before
3.0. This matters most for the grouped sort: with `group_keys=False`,
`groupby(...).apply` concatenates the groups' results in frame order or in
key order, depending on whether any group's sort moved a row.

## Model

| member | source | states |
|---|---|---|
| Cleaning.DropNaNValues | src/data/cleaning.py:21-26 | A missing subset column raises KeyError (Err iff some checked column is absent). Otherwise it keeps the columns and exactly the rows complete in the checked columns (all columns when `columns` is None), in order. |
| Cleaning.DropNaNAllColumns | src/data/cleaning.py:21-24 | With `columns=None` the call succeeds, and no kept row has a missing cell in any column. |
| Cleaning.DropNaNValuesInPlace | src/data/cleaning.py:23-26 | `inplace=True`: on error the frame is unchanged and the error is raised. On success the frame becomes the dropna result. |
| Cleaning.ReplaceRun | src/data/cleaning.py:49-51 | The column loop keeps the columns, index and row count of the frame at every step. |
| Cleaning.ReplaceNegativeValues | src/data/cleaning.py:44-53 | `inplace=False`: the loop over a copy returns exactly the result of the column-by-column run. The caller's table is a value and is not touched. |
| Cleaning.ReplaceNegativeValuesInPlace | src/data/cleaning.py:44-51 | `inplace=True`: the frame ends as the column-by-column run leaves it. That includes the columns already rewritten when a later column raises TypeError. |
| Cleaning.ReplaceRunPointwise | src/data/cleaning.py:49-51 | For a non-string replacement, the run passes iff no listed, present column holds a string. It then equals the pointwise clamp: a negative number in a listed, present column becomes the replacement, and every other cell is kept. |
| Cleaning.ReplaceNegativeIdempotent | src/data/cleaning.py:44-53 | Applying replace_negative_values twice with a non-string replacement gives the same frame as applying it once. |
| Cleaning.TextReplacementNotIdempotent | src/data/cleaning.py:51 | With a string replacement, the first pass succeeds and a second pass raises TypeError (string compared with 0). |
| Cleaning.ClipTimePeriod | src/data/cleaning.py:71-76 | A missing date column raises ValueError. A numeric date cell raises TypeError. Otherwise it keeps exactly the rows whose date string lies in `[start, end]`, in order. |
| Cleaning.ClipIdempotent | src/data/cleaning.py:75-76 | Clipping an already clipped frame to the same period changes nothing. |
| FeatureEngineering.LogRun | src/data/feature_engineering.py:24-25 | The frame the loop leaves, whether it passes or stops at a failing column, keeps the index and row count. |
| FeatureEngineering.LogTransformShape | src/data/feature_engineering.py:24-26 | On success the frame gains exactly the `c_log` columns and keeps every other cell. For each listed `c` that is not itself one of the `_log` names, `c` exists and `c_log` holds `log(x + epsilon)` of column `c`. |
| FeatureEngineering.LogRunColumns | src/data/feature_engineering.py:25 | After a passing run, the column set is the old one plus one `c_log` per listed column. |
| FeatureEngineering.LogRunKeepsCells | src/data/feature_engineering.py:25 | After a passing run, every cell outside the `_log` columns is unchanged. |
| FeatureEngineering.LogRunValues | src/data/feature_engineering.py:25 | After a passing run, each listed `c` that is not itself a `_log` name is present and `c_log` in row k is `log(cell + epsilon)`, with Missing kept as Missing. |
| FeatureEngineering.LogTransform | src/data/feature_engineering.py:24-26 | The method leaves the frame and outcome given by LogRun, including the columns written before a failing one. |
| FeatureEngineering.ParseDates | src/data/feature_engineering.py:39 | A missing date column raises KeyError. Otherwise parsing succeeds iff every cell is Missing or an ISO date that a nanosecond timestamp can hold. Parsed entries are valid dates, and Missing maps to no date. |
| FeatureEngineering.SeasonIndex | src/data/feature_engineering.py:41 | `(m % 12 + 3) // 3` is 1 for Dec-Feb, 2 for Mar-May, 3 for Jun-Aug and 4 for Sep-Nov. |
| FeatureEngineering.SeasonName | src/data/feature_engineering.py:42-43 | The season map yields a name exactly for the keys 1 to 4. |
| FeatureEngineering.SeasonOfMonth | src/data/feature_engineering.py:41-43 | From month to name: December to February are Winter, March to May Spring, June to August Summer, September to November Fall. |
| FeatureEngineering.CalendarRun | src/data/feature_engineering.py:39-43 | The run keeps the index and row count. |
| FeatureEngineering.AddYearMonthSeason | src/data/feature_engineering.py:39-44 | The method leaves the frame and outcome given by CalendarRun. |
| FeatureEngineering.CalendarOutcome | src/data/feature_engineering.py:39 | It passes iff the date column parses. On failure the frame is unchanged and the parse error is raised. |
| FeatureEngineering.CalendarColumns | src/data/feature_engineering.py:39-43 | On success the frame gains `year`, `month` and `season` and keeps every other cell. A dated row holds the date's year, its month in 1..12 and the season name of that month. An undated row holds Missing in all three. |
| FeatureEngineering.CalendarRunOk | src/data/feature_engineering.py:39-43 | A parsing date column gives a passing run, with the three columns computed from the parsed dates. |
| FeatureEngineering.CyclicDayOfYear | src/data/feature_engineering.py:57-59 | Fails iff the date column does not parse, with the parse error. Otherwise it adds `doy_sin`/`doy_cos` as `sin`/`cos` of `2*pi*dayofyear/365.25` (Missing for undated rows) and keeps every other cell. |
| FeatureEngineering.CalculateDoyColumns | src/data/feature_engineering.py:57-60 | On success the frame becomes the CyclicDayOfYear result. On error it is unchanged. |
| FeatureEngineering.CyclicDayOfYearIdempotent | src/data/feature_engineering.py:57-59 | A second call on the result, with a date column other than the two outputs, returns that result unchanged. |
| FeatureEngineering.Shift1 | src/data/feature_engineering.py:73 | `shift(1)`: same length, Missing first, then entry k is the old entry k-1. |
| FeatureEngineering.WithYesterday | src/data/feature_engineering.py:73 | A missing target raises KeyError. Otherwise `target_yesterday` is added with Missing in row 0 and the previous row's target in row k, and every other cell is kept. |
| FeatureEngineering.AddYesterdayObservation | src/data/feature_engineering.py:73-74 | On success the frame becomes the WithYesterday result. On error it is unchanged. |
| FeatureEngineering.YesterdayIsShiftedTarget | src/data/feature_engineering.py:73 | The yesterday column equals `[Missing] +` the target column without its last entry. |
| FeatureEngineering.SortGroupByColumn | src/data/feature_engineering.py:90-96 | A missing column raises ValueError. A group mixing numbers and strings in the sort column raises TypeError. Otherwise the result is a permutation of the keyed rows, relabelled 0..n-1, with each group's rows in sort order. When every group is already in order in the frame, the rows keep frame order (pandas' indexed-like path). Otherwise the result is GroupedSort's: groups by ascending key, each sorted. |
| FeatureEngineering.SortGroupByColumnPermutes | src/data/feature_engineering.py:94-96 | When every row has a group key, the result is a permutation of all input rows. |
| FeatureEngineering.SortGroupByColumnContiguous | src/data/feature_engineering.py:94-96 | When some group is not already in order, the rows of each group are contiguous in the result. |
| FeatureEngineering.SortGroupByColumnInterleaves | src/data/feature_engineering.py:94-96 | On stations A, B, A with readings 1, 1, 2 the call succeeds, keeps frame order, and station A is not one block. |
| FeatureEngineering.GroupedSort | src/data/feature_engineering.py:90-96 | The intended grouped sort: the same errors, and otherwise a permutation of the keyed rows, relabelled, ordered by group key and then by sort key. |
| FeatureEngineering.GroupedSortContiguous | src/data/feature_engineering.py:94-96 | In the intended grouped sort each group is one contiguous block, sorted within. |
| FeatureEngineering.GroupedSortOfSample | src/data/feature_engineering.py:94-96 | On the same stations the intended grouped sort gives one block per station. |
| FeatureEngineering.KeptRowsKeepOrder | src/data/feature_engineering.py:94-96 | Dropping the rows without a group key keeps groups that were in order in order. |
| FeatureEngineering.InsertRow | src/data/feature_engineering.py:95 | Inserting a row adds exactly that row to the multiset. |
| FeatureEngineering.InsertRowSorted | src/data/feature_engineering.py:94-95 | Inserting into a sorted sequence keeps it sorted by (group key, sort key). |
| FeatureEngineering.SortRows | src/data/feature_engineering.py:94-95 | The sort is a permutation of its input. |
| FeatureEngineering.SortRowsSorted | src/data/feature_engineering.py:94-95 | The sorted rows are ordered by group key, then by sort key. |
| FeatureEngineering.GroupedRows | src/data/feature_engineering.py:94-96 | On the reordering path, the concatenated groups are a permutation of the rows with a group key, sorted by group key and then by sort key. |
| Values.ValueLeTotal | src/data/feature_engineering.py:95 | The order `sort_values` uses on numbers and on strings is total. |
| Values.ValueLeAntisymmetric | src/data/feature_engineering.py:95 | That order is antisymmetric. |
| Values.ValueLeTransitive | src/data/feature_engineering.py:95 | That order is transitive. |
| Dates.ParseIsoDate | src/data/feature_engineering.py:39-40 | A string that is not `YYYY-MM-DD` fails. One that is parses iff its fields make a valid calendar date within the nanosecond-timestamp range 1677-09-22 to 2262-04-11, and then it parses to exactly those fields. |
| Dates.IsoOrderIsChronological | src/data/cleaning.py:75 | For ISO dates, string `<` is chronological order, and string equality is date equality. |
| Dates.DayOfYear | src/data/feature_engineering.py:57 | `dayofyear` lies in 1..365 (366 in leap years), is the day in January, and is 365/366 on 31 December. |
| Dates.DayOfYearNext | src/data/feature_engineering.py:57 | The next day in the same month has the next day-of-year. |
| Dates.DayOfYearMonthStart | src/data/feature_engineering.py:57 | The first of a month directly follows the last day of the previous month. |
| Splitting.TimeSeriesSplit | src/data/splitting.py:55-57 | A missing `Date` raises KeyError. A numeric date raises TypeError. Otherwise train holds the rows dated before `split_date` and test those at or after it, each in order and with all columns. |
| Splitting.TimeSeriesSplitPartitions | src/data/splitting.py:55-56 | No row is in both halves. When every row has a date, every row is in exactly one. |
| Splitting.TimeSeriesSplitDropsUndated | src/data/splitting.py:55-56 | A row with a missing date is in neither half. |
| Splitting.Mean | src/data/splitting.py:75 | The mean times the count is the sum. |
| Splitting.Variance | src/data/splitting.py:76 | The population variance is non-negative. |
| Splitting.SumSquaresZero | src/data/splitting.py:76 | The sum of squared deviations is zero iff every value equals the centre. |
| Splitting.ZeroVarianceIffConstant | src/data/splitting.py:76 | The population variance of a non-empty column is zero iff the column is constant. |
| Splitting.ColumnStats | src/data/splitting.py:75-76 | The column mean and `sqrt` of the variance are numbers iff the frame is non-empty and the column has no missing cell (NaN otherwise). |
| Splitting.ZeroStdIffConstant | src/data/splitting.py:76-84 | For a square root that is zero only at zero, a complete numeric predictor's std is zero iff the column is constant, and then every cell standardized against it is Missing. |
| Splitting.Statistics | src/data/splitting.py:74-76 | The first missing predictor raises KeyError. A string cell raises TypeError. Otherwise there is one mean and one std per predictor, each that column's ColumnStats. |
| Splitting.SubFrame | src/data/splitting.py:79 | `iloc` with positions: IndexError iff a position is out of range, otherwise the rows at the positions, negatives counted from the end. A boolean mask: an error iff its length differs, otherwise the masked rows in order. An empty list is a column selection, as pandas reads `df[[]]`: no columns, every row and the same index. |
| Splitting.EmptyListSplitFails | src/data/splitting.py:79-85 | An empty list as a selector makes the split raise KeyError, for the first predictor or, when there are none, for the target. |
| Splitting.SplitFrame | src/data/splitting.py:79-82 | Without `sort_func` the split frame is the selection itself. Any result is well formed. |
| Splitting.Standardize | src/data/splitting.py:84 | `(x - mean) / std` is a number iff all three are and std is non-zero, and then it inverts back to x. |
| Splitting.SplitOutput | src/data/splitting.py:79-85 | `X_k` row i is the standardized predictors of selected row i and `Y_k` entry i is its target, one row each. |
| Splitting.SplitRowCount | src/data/splitting.py:79-85 | Without `sort_func`, X and Y have one row per selected position or set flag. |
| Splitting.Prepare | src/data/splitting.py:73-87 | The returned mean and std are the whole-frame statistics. A statistics error is raised before any split. |
| Splitting.PrepareDataSplits | src/data/splitting.py:73-87 | The method's loop returns exactly Prepare's result. |
| Splitting.PrepareKeys | src/data/splitting.py:78-85 | On success `data` has exactly the keys `X_k` and `Y_k` for every split key k. |
| Splitting.PrepareContents | src/data/splitting.py:78-85 | On success each `X_k`/`Y_k` is that split's SplitOutput under the whole-frame statistics. |
| Splitting.FillSplitsFails | src/data/splitting.py:78-85 | The loop fails iff some split fails. |
| Splitting.FillSplitsKeys | src/data/splitting.py:78-85 | The loop adds exactly the `X_k`/`Y_k` keys to the map it starts from. |
| Utils.FilterByList | src/data/utils.py:3-4 | A missing column raises KeyError. Otherwise it keeps exactly the rows whose cell is in `value_list` (`isin`, which matches NaN to NaN), in order. |
| Utils.FilterBySeries | src/data/utils.py:6-7 | A missing column raises KeyError. Otherwise it keeps exactly the rows whose cell equals `value`. Filtering on NaN keeps nothing. |
| Utils.FilterBySeriesIsListOfOne | src/data/utils.py:3-7 | For a non-missing value, filtering by the value is filtering by the one-element list. |
| Utils.FiltersDifferOnMissing | src/data/utils.py:3-7 | For NaN the two filters differ: `isin([NaN])` keeps a NaN row and `== NaN` does not. |
| Utils.FilterByListIdempotent | src/data/utils.py:3-4 | Filtering twice by the same list is filtering once. |
| Utils.DiffColumn | src/data/utils.py:24 | KeyError for `field_a`, then `field_b`. TypeError iff some row has both cells present and one of them a string (object columns are subtracted only where both cells are present). Otherwise entry k is `a - b`, or Missing if either is missing. |
| Utils.TextBesideMissingIsMissing | src/data/utils.py:24 | A string beside a missing cell gives NaN rather than a TypeError. |
| Utils.GroupKeys | src/data/utils.py:27 | The distinct present group keys, each once. |
| Utils.MeetingThreshold | src/data/utils.py:30 | A key is kept iff its group's absolute summed difference is at least the threshold, each kept key once. |
| Utils.GroupsRun | src/data/utils.py:24-35 | A difference error leaves the frame unchanged. A missing group column raises KeyError after `temp_diff` was written. Grouping by `temp_diff` itself raises ValueError at `reset_index`, also with `temp_diff` left in the frame. Otherwise the result is a distinct list of groups and `temp_diff` is gone. |
| Utils.ListGroupsByDifference | src/data/utils.py:24-35 | The method leaves the frame and result given by GroupsRun. |
| Utils.GroupSumOfDiffs | src/data/utils.py:24-27 | Summing `temp_diff` over a group equals the group's total of `a - b` (NaN counted as 0). |
| Utils.GroupsByDifferenceSelects | src/data/utils.py:24-30 | On success, a value is returned iff it is a present group key whose total `a - b` has an absolute value of at least the threshold. No value is returned twice. |
| Utils.GroupsByDifferenceDefaultThreshold | src/data/utils.py:9-30 | With the default threshold 0, every present group key is returned. |
| Utils.GroupsRunRestoresFrame | src/data/utils.py:24-33 | After success the frame has the original columns, index and cells. It equals the input when the input had no `temp_diff` column. |
| Utils.Minus | src/data/utils.py:87 | `set(li1) - set(li2)` as a list: distinct, and x is in it iff x is in li1 and not in li2. |
| Utils.DisjunctiveUnionLists | src/data/utils.py:76-87 | Distinct, and x is in the result iff x is in exactly one of the two lists. |
| Utils.DisjunctiveUnionSymmetric | src/data/utils.py:87 | Swapping the arguments gives the same elements. |
| Frames.DataFrame.Assign | src/data/feature_engineering.py:25 | `df[c] = vals` sets column c (appending it if new) and changes nothing else. |
| Frames.DataFrame.Drop | src/data/utils.py:33 | `df.drop(columns=[c], inplace=True)` removes column c and nothing else. |
| Frames.DataFrame.Update | src/data/cleaning.py:24 | An in-place pandas call replaces the whole frame by its result. |

## Left out

- `loading.py`, `routine.py` and `setup.py` are not part of this model. They do file I/O and orchestration.
- `create_train_test_split` and `create_cv_held_out_sets` are not modelled. They delegate to scikit-learn's random splitters.
- `simulate_binomial_outcomes` is not modelled. It draws from numpy's random generator.
- Logging and the `__main__` blocks are not modelled. They only print.
- FeatureEngineering.LogTransformShape: describes only a passing run. Which column makes a run fail (a missing one gives KeyError, a string cell TypeError) is given by LogRun's definition, not by a lemma.
- Floating point is not modelled. Arithmetic is exact over reals, and `log`, `sin`, `cos`, `sqrt` and `pi` are parameters. Rounding is absent, and so are `inf`/`-inf`.
- Splitting.Standardize: a zero std gives Missing, whereas numpy produces `inf` or `NaN`.
- FeatureEngineering.ParseDates: only ISO `YYYY-MM-DD` strings parse. A numeric cell, which pandas reads as nanoseconds since the epoch, and other formats that `DatetimeIndex` accepts give a DateParse error. A date outside 1677-09-22 to 2262-04-11 also gives DateParse, where pandas raises OutOfBoundsDatetime.
- FeatureEngineering.CalendarColumns: the date column is required not to be `year`. If it were, line 40 would re-parse the newly written integer years, and that re-parse is not modelled.
- FeatureEngineering.CalendarOutcome: the date column is required not to be `year`. If it were, line 40 would re-parse the newly written integer years, and that re-parse is not modelled.
- FeatureEngineering.CalendarRunOk: the date column is required not to be `year`. If it were, line 40 would re-parse the newly written integer years, and that re-parse is not modelled.
- Splitting.SubFrame: a split selector is an integer array, a boolean array or a boolean list. Slices, labels and other indexers are not modelled, nor is a non-empty list of column labels (only the empty list, which pandas also reads as a column selection).
- Column names are distinct. pandas frames with duplicate column labels are not modelled.
- `None` and `NaN` are both `Missing`. Column dtypes are not modelled: whether a comparison or subtraction raises TypeError is decided from the cells present, and object-dtype subtleties beyond numbers against strings are not modelled.
- Cleaning.ClipTimePeriod: column dtype is not modelled. An all-missing float64 Date column, such as a blank column read from CSV, passes in the model and gives an empty frame, whereas comparing it with a string at line 75 raises TypeError in pandas.
- Splitting.TimeSeriesSplit: column dtype is not modelled. An all-missing float64 Date column passes in the model and gives two empty halves, whereas comparing it with a string at lines 55-56 raises TypeError in pandas.
- pandas 3.0 is not modelled. There, `groupby(...).apply` no longer passes the grouping column to the function (`include_groups`), so the grouped sort's output would lose that column.
- Cleaning.DropNaNValues: the KeyError is stated to name some missing checked column. The model names the first one, while pandas lists all of them.
- Splitting.Statistics: the KeyError names the first missing predictor, while `df[predictors]` lists all of them.
- Splitting.SplitOutput: the KeyError names the first missing predictor, while `split_df[predictors]` lists all of them.
- FeatureEngineering.SortGroupByColumn: on the reordering path, the order of rows tied on both the group and the sort column is not fixed. pandas' sort algorithm decides it.
- FeatureEngineering.SortGroupByColumn: a group already in order counts as unmoved. numpy's unstable quicksort can still swap tied rows in a group of more than 16 rows, which would send pandas down the reordering path.
- FeatureEngineering.SortGroupByColumn: when the frame keeps its order, the model assumes distinct index labels. With duplicate labels pandas collects the rows label by label instead.
- Utils.GroupKeys: the keys come in first-appearance order, not in pandas' sorted group order. The contracts speak only of membership and distinctness.
- Utils.DisjunctiveUnionLists: the order comes from Python's set iteration. It is modelled as first appearance in `li1`, then in `li2`, and the contracts speak only of membership and distinctness.
- `prepare_data_splits` takes `splits_info` as a sequence of (key, selector) pairs in dict order. Splitting.PrepareContents assumes distinct keys, as a dict's keys are.
- A `sort_func` is any function on tables that returns a well-formed table or an error.

## Findings

| source | as written | input that shows it | evidently intended | confidence | as-written member | corrected member |
|---|---|---|---|---|---|---|
| src/data/feature_engineering.py:94-96 | `groupby(g, group_keys=False).apply(lambda x: x.sort_values(by=s)).reset_index(drop=True)` concatenates the groups in key order only when some group's sort moves a row. When every group is already in order, pandas restores frame order, so groups can interleave. | rows Station A/P 1, Station B/P 1, Station A/P 2, grouped by Station and sorted by P: the result keeps the order A, B, A | one contiguous block per group, groups in ascending key order, each sorted by the sort column | medium, not executed | FeatureEngineering.SortGroupByColumnInterleaves | FeatureEngineering.GroupedSort |
