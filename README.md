# kotaro DataCleaner in Dafny

This project models `DataCleaner`, the cleaning component of the kotaro
library (`kotaro/data_cleaner.py`). A `DataCleaner` holds one pandas
DataFrame and offers two kinds of operation:

- read-only reports: type counts, null counts and the duplicate count;
- transformations, each of which copies the frame, changes the copy and
  returns it. They are mean imputation, dropping rows with nulls, dropping
  repeated rows, min-max normalisation, standardisation and one-hot
  encoding of the non-numeric columns.

The model has these modules:

- `Tables`: the data frame as a value. A table is an ordered list of named
  columns and a list of rows. Each column is tagged numeric or not, the way
  `select_dtypes(include=["number"])` classifies it. Each cell is null or
  holds a value.
- `Queries`: the reports, as functions of the held table.
- `Seqs`: the sequence operations the row filters and the encoder are built
  from. They are order-preserving filtering, keep-first deduplication and
  block concatenation.
- `Collation`: the order in which pandas lists the categories of a column
  of strings, which is Python string comparison.
- `Imputation`, `RowFilters`, `Scaling` and `Encoding`: each transformation as
  a pure function on tables, with its properties proved as lemmas.
- `Cleaner`: the object itself, as two classes.
  - `Frame` is the mutable data frame. Column assignment and `fillna`
    update it in place.
  - `DataCleaner` holds a `Frame` it never modifies. Every transformation
    method returns a fresh `Frame`. Each method's postcondition ties that
    frame to the pure function above. None of these methods may modify the
    held frame, and each also states `unchanged(df)`.
  - `impute_missing_values` is modelled as the loop the source runs. Its
    invariant says the working copy equals the pointwise imputation of the
    names visited so far, and the recorded names equal `ImputedNames` of
    those names.
- `Fixture`: the five-row sample table of the library's tests, and what the
  model says each operation does to it.

Numbers are exact `real`s. Where pandas yields NaN (the mean of a column with
no number), the model has `None`.

Where the library's code and its docstrings or tests disagree, the model
follows the code:

- `drop_missing_values` and `drop_duplicate_rows` fall off the end and return
  `None` when there is nothing to remove (lines 144-148 and 173-177).
  `DropMissing` and `DropDuplicates` answer `None` in that case. Their
  docstrings promise a DataFrame. The sample has no repeated row, so the
  model's `drop_duplicate_rows` answers `None` on it, while the test at
  tests/test_data_cleaner.py:52 expects a table of 4 rows
  (`Fixture.SampleNoDuplicates`).
- `normalize` and `standardize` promise a copy, but the scaler's
  `fit_transform` raises `ValueError` when the numeric columns have no row,
  as after a `drop_missing_values` that removed every row. `Normalize` and
  `Standardize` answer `None` there (`Scaling.FitRejects`).

A name passed to `impute_missing_values` that is not a column is skipped
silently (line 120); it is not rejected.

One-hot encoding of the sample's `department` column (HR, Finance, IT) gives
two indicator columns, `department_HR` and `department_IT`
(`Fixture.SampleOneHotColumns`), because `drop_first` removes only the first
of the three sorted categories.

## Model

| member | source | states |
|---|---|---|
| Tables.IndexOf | kotaro/data_cleaner.py:120 | `col in df_copy.columns`: a found position holds that name; `None` exactly when no column has the name |
| Tables.IndexOfUnique | kotaro/data_cleaner.py:120-122 | with distinct names, `df[col]` addresses the one column that carries the name |
| Tables.NumericColumns | kotaro/data_cleaner.py:38-46 | `.columns.tolist()`: the name of every numeric column, once each and in column order, and no other name |
| Tables.NumericColumnsEmpty | kotaro/data_cleaner.py:194 | the numeric-name list is empty exactly when no column is numeric |
| Tables.NumericIndices | kotaro/data_cleaner.py:46 | the positions of the numeric columns, increasing, all of them and only them |
| Tables.OtherIndices | kotaro/data_cleaner.py:238 | the positions of the non-numeric columns, increasing, all of them and only them |
| Queries.KindCount | kotaro/data_cleaner.py:69 | the number of columns of a kind is at most the column count, and zero exactly when no column has that kind |
| Queries.KindCountIsCardinality | kotaro/data_cleaner.py:69 | `dtypes.value_counts()`: the count of a tag is the number of column positions carrying it |
| Queries.KindCountsCover | kotaro/data_cleaner.py:69-71 | every column is counted under exactly one type tag, so the counts add up to the column count |
| Queries.Entry | kotaro/data_cleaner.py:69-71 | an entry carries its tag and that tag's positive column count |
| Queries.EntryPercent | kotaro/data_cleaner.py:70-72 | the percentage is `Conteo/total*100`: times the column count it gives 100 times the count, and it lies in (0, 100] |
| Queries.TypeCounts | kotaro/data_cleaner.py:61-73 | one entry per tag present and none for an absent tag; the larger count first; the counts sum to the number of columns |
| Queries.TypeCountPercentages | kotaro/data_cleaner.py:71-72 | for a table with at least one column, the percentages add up to 100 |
| Queries.CountNulls | kotaro/data_cleaner.py:99 | a column's null count is at most its length, and zero exactly when it holds no null |
| Queries.CountNullsIsCardinality | kotaro/data_cleaner.py:99 | the null count equals the number of positions that hold a null |
| Queries.NullCounts | kotaro/data_cleaner.py:91-100 | one entry per column in column order, holding the column's name and its null count; an entry is zero exactly when the column is null-free |
| Queries.SumNulls | kotaro/data_cleaner.py:144 | the nulls of the first `m` columns add up to zero exactly when those columns are null-free |
| Queries.TotalNulls | kotaro/data_cleaner.py:144 | `isna().sum().sum()` is zero exactly when no row holds a null |
| Queries.DuplicateCount | kotaro/data_cleaner.py:151-159 | the number of rows that repeat an earlier row, with null equal to null; at most the row count, and zero exactly when the frame has no column (pandas marks no row of an empty frame) or the rows are pairwise different |
| Seqs.KeptIndices | kotaro/data_cleaner.py:148 | the positions whose element satisfies the predicate, increasing, all of them and only them |
| Seqs.Filter | kotaro/data_cleaner.py:148 | filtering never lengthens and keeps only satisfying elements of the input |
| Seqs.FilterIsSelection | kotaro/data_cleaner.py:148 | filtering returns exactly the elements at the kept positions, unmodified and in order |
| Seqs.FilterShrinks | kotaro/data_cleaner.py:144-148 | when some element fails the predicate, filtering removes at least one |
| Seqs.FilterAll | kotaro/data_cleaner.py:148 | filtering with a predicate every element meets is the identity |
| Seqs.RepeatCount | kotaro/data_cleaner.py:159 | the number of positions that repeat an earlier element is at most the length |
| Seqs.KeepFirst | kotaro/data_cleaner.py:177 | keep-first deduplication returns distinct elements of the input, and every input element is still present |
| Seqs.FirstIndices | kotaro/data_cleaner.py:177 | the positions that are first occurrences, increasing, all of them and only them |
| Seqs.KeepFirstIsSelection | kotaro/data_cleaner.py:177 | deduplication returns exactly the first occurrences, unmodified and in order |
| Seqs.KeepFirstLength | kotaro/data_cleaner.py:173-177 | the output length plus the number of repeats is the input length |
| Seqs.RepeatCountZero | kotaro/data_cleaner.py:173 | the repeat count is zero exactly when the elements are pairwise different |
| Seqs.KeepFirstOfDistinct | kotaro/data_cleaner.py:177 | deduplication leaves a sequence without repeats unchanged |
| Seqs.KeepFirstIdempotent | kotaro/data_cleaner.py:177 | deduplication is idempotent and leaves no repeat |
| Seqs.ConcatIndex | kotaro/data_cleaner.py:239 | element `k` of block `m` sits right after the blocks before `m` in the concatenation |
| Seqs.ConcatSameShape | kotaro/data_cleaner.py:239 | block lists with matching block lengths concatenate to equal lengths |
| Seqs.ConcatAll | kotaro/data_cleaner.py:239 | a property of every block element holds of every concatenated element |
| Collation.Less | kotaro/data_cleaner.py:239 | Python's `<` on strings: code-point lexicographic order, a proper prefix first; the order `get_dummies` sorts the labels of a string column in |
| Collation.LessIrreflexive | kotaro/data_cleaner.py:239 | no label sorts before itself |
| Collation.LessTransitive | kotaro/data_cleaner.py:239 | the label order is transitive |
| Collation.LessTotal | kotaro/data_cleaner.py:239 | any two different labels are ordered one way or the other |
| Collation.LessAsymmetric | kotaro/data_cleaner.py:239 | two labels are never ordered both ways |
| Collation.InsertUnique | kotaro/data_cleaner.py:239 | inserting into a strictly sorted list keeps it strictly sorted and adds exactly the new label |
| Collation.SortUnique | kotaro/data_cleaner.py:239 | the categories are strictly sorted and are exactly the labels of the input |
| Collation.SortedIsDistinct | kotaro/data_cleaner.py:239 | a strictly sorted list names each label once |
| Collation.SortedHeadIsLeast | kotaro/data_cleaner.py:239 | the first category sorts before every other one |
| Collation.SortedUnique | kotaro/data_cleaner.py:239 | two strictly sorted lists with the same members are equal, so the category list is determined by the labels alone |
| Imputation.PresentNumbers | kotaro/data_cleaner.py:122 | the numbers `mean()` averages are at most the cells, and there are none exactly when no cell holds a number |
| Imputation.Mean | kotaro/data_cleaner.py:122 | the mean is missing (NaN) exactly when the column holds no number |
| Imputation.MeanWithinRange | kotaro/data_cleaner.py:122 | the mean lies between the smallest and the largest present number |
| Imputation.IsTarget | kotaro/data_cleaner.py:119-121 | a column is imputed when it is named in `columns`, is numeric (`is_numeric_dtype`) and holds a null (`isnull().any()`) |
| Imputation.FillColumn | kotaro/data_cleaner.py:122 | `df[col] = df[col].fillna(m)`: the columns and row count are kept, every cell outside column `j` and every present cell of it is kept, and the nulls of column `j` become `m` (none change when the mean is NaN) |
| Imputation.Impute | kotaro/data_cleaner.py:103-130 | the table `impute_missing_values` returns, cell by cell: a null of a target column becomes that column's mean taken before any filling, and every other cell is copied |
| Imputation.ImputeAt | kotaro/data_cleaner.py:118-123 | imputation keeps the columns, the row count and the cell kinds; a null of a target column becomes that column's mean taken before any filling, and every other cell is copied |
| Imputation.ImputeRectangular | kotaro/data_cleaner.py:118-123 | imputation gives a table of the same shape |
| Imputation.ImputeTargetColumn | kotaro/data_cleaner.py:120-122 | in a target column present cells are unchanged, and every null becomes the mean; no null remains unless the mean is NaN, and then the column is unchanged |
| Imputation.ImputeOtherColumn | kotaro/data_cleaner.py:120-121 | a column that is not a target is unchanged |
| Imputation.SameTargets | kotaro/data_cleaner.py:119-120 | two name lists that select the same columns impute the same table |
| Imputation.ImputeNothing | kotaro/data_cleaner.py:126-130 | without any target column the result equals the input |
| Imputation.DefaultTargets | kotaro/data_cleaner.py:111-112 | with the default names, the targets are exactly the numeric columns that hold a null |
| Imputation.ImputeLeavesNoNulls | kotaro/data_cleaner.py:118-123 | every target column with a mean holds no null afterwards |
| Imputation.ImputeIdempotent | kotaro/data_cleaner.py:118-123 | imputing the imputed table again with the same names changes nothing |
| Imputation.ImputedNames | kotaro/data_cleaner.py:123 | `columns_imputed` has at most one entry per name visited |
| Imputation.ImputedNamesSnoc | kotaro/data_cleaner.py:123 | visiting one more name appends it to `columns_imputed` exactly when it fires |
| Imputation.ImputedNamesEmpty | kotaro/data_cleaner.py:126-127 | no name is recorded exactly when no column is a target, which is the condition for the "nothing imputed" notice |
| Imputation.Fires | kotaro/data_cleaner.py:120-123 | the turn at name `c`, after the names `done`, fills and records `c` when `c` names a numeric column that holds a null at that moment: before its first filling, or after a filling with a NaN mean |
| Imputation.StepFires | kotaro/data_cleaner.py:120-121 | the loop body's test on the working copy: `c` is a column, numeric, and holds a null now |
| Imputation.FillStep | kotaro/data_cleaner.py:120-122 | the working copy after the loop body at `c`: the named column filled with its current mean when the test holds, the same copy otherwise; the columns never change |
| Imputation.ImputeStep | kotaro/data_cleaner.py:119-123 | one loop turn adds one name to the pointwise definition: it fills exactly when `Fires` says so, with the working copy's mean, and otherwise changes nothing |
| Imputation.StepAbsent | kotaro/data_cleaner.py:120 | a name that is not a column neither fires nor changes the pointwise result |
| Imputation.StepRepeat | kotaro/data_cleaner.py:119-123 | a name whose column is already a target fires again only when its mean is NaN, and filling that column once more changes nothing |
| Imputation.StepOther | kotaro/data_cleaner.py:119-123 | a name whose column is not yet a target fires exactly when the column becomes one, and the fill with the working copy's mean gives the pointwise result of one more name |
| Imputation.ImputeLoopStep | kotaro/data_cleaner.py:119-123 | turn `k` of the loop takes the pointwise imputation of the first `k` names to that of the first `k + 1`, and records `names[k]` exactly when it fills |
| RowFilters.NullFree | kotaro/data_cleaner.py:148 | the rows `dropna()` keeps: those without a null cell |
| RowFilters.DropNa | kotaro/data_cleaner.py:148 | `dropna()` keeps the columns, never adds rows, and every kept row is null-free |
| RowFilters.DropNaSurvivors | kotaro/data_cleaner.py:148 | the kept rows are exactly the null-free rows, unmodified and in their original order |
| RowFilters.DropMissing | kotaro/data_cleaner.py:133-148 | `None` exactly when the table has no null; otherwise the null-free rows, strictly fewer than before, with total null count 0 |
| RowFilters.Dedup | kotaro/data_cleaner.py:177 | `drop_duplicates()` keeps the columns; the row count falls by exactly the duplicate count; the result has no duplicate |
| RowFilters.DedupKeepsFirstOccurrences | kotaro/data_cleaner.py:177 | with at least one column the kept rows are exactly the first occurrences, unmodified and in order; a frame without columns is kept whole; every original row is still represented |
| RowFilters.DropDuplicates | kotaro/data_cleaner.py:162-177 | `None` exactly when the frame has no column or its rows are pairwise different; otherwise the deduplicated table, shorter by the positive duplicate count |
| RowFilters.DropDuplicatesIdempotent | kotaro/data_cleaner.py:173-177 | deduplicating twice equals deduplicating once, and a second `drop_duplicate_rows` finds nothing to remove |
| Scaling.Scaled | kotaro/data_cleaner.py:199 | `transform` on one number: `(x - shift) / divisor`, which is `(x - data_min_) / data_range_` for MinMaxScaler and `(x - mean_) / scale_` for StandardScaler |
| Scaling.ScaleCell | kotaro/data_cleaner.py:199 | `transform` on one cell: a present number is mapped, a NaN is passed through |
| Scaling.ScaledTimesDivisor | kotaro/data_cleaner.py:199 | the scaled value times the divisor gives back `x - shift`, which is the affine map a fitted scaler applies |
| Scaling.ScaleCells | kotaro/data_cleaner.py:199 | `transform` keeps the column's length |
| Scaling.ScaleCellsAt | kotaro/data_cleaner.py:199 | each cell is transformed on its own: a null stays null and a number `x` becomes `(x - shift) / divisor` |
| Scaling.ScaleCellsNulls | kotaro/data_cleaner.py:199 | a cell is null after scaling exactly when it was null before |
| Scaling.PresentOfScaled | kotaro/data_cleaner.py:198-199 | the numbers present after scaling are the present numbers scaled, in order |
| Scaling.PresentNumbersExact | kotaro/data_cleaner.py:198 | a number is present in the column exactly when some cell holds it |
| Scaling.Rescale | kotaro/data_cleaner.py:192-201 | `df_copy[numerical_columns] = scaler.fit_transform(...)`: each numeric column is replaced by its cells under a scaler fitted on that column, and the other columns are copied |
| Scaling.FitRejects | kotaro/data_cleaner.py:199 | `fit_transform` raises `ValueError` (no sample) exactly when there is a numeric column and no row |
| Scaling.RescaleShape | kotaro/data_cleaner.py:192-201 | rescaling keeps the columns, the row count, the cell kinds and the nulls; a numeric column becomes its own cells scaled by a scaler fitted on them alone; every other column is copied |
| Scaling.RescaleNoNumeric | kotaro/data_cleaner.py:194-195 | without numeric columns the result equals the input |
| Scaling.Min | kotaro/data_cleaner.py:198 | the smallest present number is present and bounds all others from below |
| Scaling.Max | kotaro/data_cleaner.py:198 | the largest present number is present and bounds all others from above |
| Scaling.MinMaxFitted | kotaro/data_cleaner.py:198 | MinMaxScaler always divides by a positive number: the range, or 1 for a constant column |
| Scaling.SquaresNonNegative | kotaro/data_cleaner.py:222 | a sum of squared deviations is never negative |
| Scaling.Variance | kotaro/data_cleaner.py:222 | the population variance is never negative |
| Scaling.StandardFitted | kotaro/data_cleaner.py:222 | StandardScaler never divides by zero, and centres on the column mean |
| Scaling.Fit | kotaro/data_cleaner.py:197-222 | both scalers `standardize` and `normalize` construct, once fitted, have a nonzero divisor |
| Scaling.UnitInterval | kotaro/data_cleaner.py:199 | under the min-max map a number between min and max lands in [0, 1] |
| Scaling.MinMaxUnitRange | kotaro/data_cleaner.py:198-199 | min-max scaling maps every present number of the column into [0, 1] |
| Scaling.ScaledEquals | kotaro/data_cleaner.py:199 | `y` is the image of `x` when `y` times the divisor is `x - shift` |
| Scaling.EndpointImages | kotaro/data_cleaner.py:198-199 | the min-max map sends the minimum to 0, and the maximum to 1 when they differ |
| Scaling.MinMaxEndpoints | kotaro/data_cleaner.py:198-199 | after normalisation 0 is present, and 1 is present unless the column is constant; this holds again when normalising an already normalised column |
| Scaling.ScaledMonotone | kotaro/data_cleaner.py:199 | a positive divisor keeps the order of numbers |
| Scaling.MinMaxMonotone | kotaro/data_cleaner.py:198-199 | min-max scaling keeps the order of the present numbers |
| Scaling.NormalizeUnitRange | kotaro/data_cleaner.py:180-201 | after `normalize`, every present cell of a numeric column is a number in [0, 1] |
| Encoding.Labels | kotaro/data_cleaner.py:239 | a label is listed exactly when some cell holds it |
| Encoding.Categories | kotaro/data_cleaner.py:239 | the categories are strictly sorted and are exactly the labels present |
| Encoding.Levels | kotaro/data_cleaner.py:239 | `drop_first=True`: the indicator levels are the sorted categories without the first |
| Encoding.IndicatorColumn | kotaro/data_cleaner.py:239 | the indicator column of a level is named `<name>_<level>` (the default prefix and `prefix_sep="_"`) |
| Encoding.Indicator | kotaro/data_cleaner.py:239 | the indicator cell is 1 where the cell holds the level and 0 elsewhere, a null included (`dummy_na=False`) |
| Encoding.IndicatorColumns | kotaro/data_cleaner.py:239 | one indicator column per level |
| Encoding.IndicatorRow | kotaro/data_cleaner.py:239 | one indicator cell per level |
| Encoding.AtMostOneIndicator | kotaro/data_cleaner.py:239 | a cell sets at most one indicator of distinct levels |
| Encoding.SortedDistinct | kotaro/data_cleaner.py:239 | sorted levels are pairwise different |
| Encoding.HotIffNotFirst | kotaro/data_cleaner.py:239 | a cell sets some indicator exactly when it holds a label other than the first category; nulls and the first category read all zeros |
| Encoding.LaterLabelIsHot | kotaro/data_cleaner.py:239 | a label other than the first category sets an indicator |
| Encoding.HotIsLaterLabel | kotaro/data_cleaner.py:239 | a cell that sets an indicator holds a label other than the first category |
| Encoding.LevelCount | kotaro/data_cleaner.py:239 | a column with k distinct labels gets k - 1 indicator columns, and none without labels |
| Encoding.EncodedColumns | kotaro/data_cleaner.py:239 | the header after `get_dummies`: the columns that are not encoded, in order, then one indicator block per non-numeric column |
| Encoding.EncodedRow | kotaro/data_cleaner.py:239 | a row after `get_dummies`: its cells of the columns that are not encoded, then one indicator block per non-numeric column |
| Encoding.HeaderBlocks | kotaro/data_cleaner.py:239 | one block of indicator columns per non-numeric column, as long as its level list |
| Encoding.RowBlocks | kotaro/data_cleaner.py:239 | one block of indicator cells per non-numeric column, as long as its level list |
| Encoding.BlocksLineUp | kotaro/data_cleaner.py:239 | the indicator cells of a row line up with the indicator columns |
| Encoding.ColumnsNumeric | kotaro/data_cleaner.py:239 | every encoded column is numeric |
| Encoding.RowShape | kotaro/data_cleaner.py:239 | an encoded row has one cell per encoded column, each null or a number |
| Encoding.IndicatorColumnAt | kotaro/data_cleaner.py:239 | the column at an indicator's position is `<name>_<level>` |
| Encoding.IndicatorAt | kotaro/data_cleaner.py:239 | the cell at an indicator's position is that level's 0/1 indicator |
| Encoding.LevelLists | kotaro/data_cleaner.py:238-239 | one level list per non-numeric column, in column order |
| Encoding.OneHot | kotaro/data_cleaner.py:237-239 | `get_dummies(df_copy, columns=categorical_columns, drop_first=True)`: the numeric columns first, then per non-numeric column one indicator block for its categories but the first |
| Encoding.OneHotShape | kotaro/data_cleaner.py:238-239 | encoding keeps the row count, gives a rectangular table and leaves no non-numeric column |
| Encoding.OneHotKeepsNumeric | kotaro/data_cleaner.py:239 | the numeric columns come first, unchanged, in order |
| Encoding.OneHotIndicator | kotaro/data_cleaner.py:239 | the indicator of each level is named `<name>_<level>` and holds 1 exactly in the rows with that label |
| Encoding.OneHotAtMostOne | kotaro/data_cleaner.py:239 | in each row at most one indicator of a source column is 1, and one is 1 exactly when the label is not the first category |
| Encoding.OneHotNoCategorical | kotaro/data_cleaner.py:238-244 | without non-numeric columns the encoding equals the input |
| Encoding.EncodedColumnsAllNumeric | kotaro/data_cleaner.py:238-244 | an all-numeric header is kept as it is |
| Encoding.EncodedRowAllNumeric | kotaro/data_cleaner.py:238-244 | a row under an all-numeric header is kept as it is |
| Cleaner.Frame.constructor | kotaro/data_cleaner.py:21 | a frame holds exactly the table it is built from, the DataFrame the cleaner receives |
| Cleaner.Frame.Copy | kotaro/data_cleaner.py:35 | `df.copy()` is a fresh frame with the same contents |
| Cleaner.Frame.FillNa | kotaro/data_cleaner.py:122 | the frame becomes `FillColumn` of its old contents and stays rectangular |
| Cleaner.Frame.FillIfNull | kotaro/data_cleaner.py:120-123 | one turn of the imputation loop: it answers true exactly when `StepFires` (the name is a numeric column that still holds a null), and the frame becomes `FillStep` of its old contents, which is that column filled with its current mean, or the same contents |
| Cleaner.Frame.AssignScaled | kotaro/data_cleaner.py:199 | on a frame with distinct column names, the frame becomes `Rescale` of its old contents |
| Cleaner.DataCleaner.constructor | kotaro/data_cleaner.py:21-25 | the cleaner holds the given frame |
| Cleaner.DataCleaner.GetCopy | kotaro/data_cleaner.py:28-35 | a fresh frame equal to the held one |
| Cleaner.DataCleaner.ImputeMissingValues | kotaro/data_cleaner.py:103-130 | a fresh frame equal to `Impute` of the held table for the given or default names; the ghost record of the names filled (the local `columns_imputed`) equals `ImputedNames`; the held frame is unchanged |
| Cleaner.DataCleaner.DropMissingValues | kotaro/data_cleaner.py:133-148 | `None` exactly when `DropMissing` is `None`; otherwise a fresh frame holding `DropMissing`'s table; the held frame is unchanged |
| Cleaner.DataCleaner.DropDuplicateRows | kotaro/data_cleaner.py:162-177 | `None` exactly when `DropDuplicates` is `None`; otherwise a fresh frame holding the deduplicated table; the held frame is unchanged |
| Cleaner.DataCleaner.RescaleCopy | kotaro/data_cleaner.py:188-201 | `None` (the scaler's `ValueError`) exactly when there is a numeric column and no row; otherwise a fresh frame equal to `Rescale` of the held table, both when there are no numeric columns and when there are some; the held frame is unchanged |
| Cleaner.DataCleaner.Normalize | kotaro/data_cleaner.py:180-201 | `None` (the `ValueError` of `fit_transform` at line 199) exactly when there is a numeric column and no row; otherwise a fresh frame equal to the min-max `Rescale` of the held table; the held frame is unchanged |
| Cleaner.DataCleaner.Standardize | kotaro/data_cleaner.py:204-225 | `None` (the `ValueError` of `fit_transform` at line 223) exactly when there is a numeric column and no row; otherwise a fresh frame equal to the standard `Rescale` of the held table; the held frame is unchanged |
| Cleaner.DataCleaner.ApplyOneHotEncoding | kotaro/data_cleaner.py:228-245 | `None` (the `ValueError` of `get_dummies` with nothing to concatenate) exactly when the frame has no column; otherwise a fresh frame equal to `OneHot` of the held table; the held frame is unchanged |
| Fixture.Sample | tests/test_data_cleaner.py:8-15 | the sample table is well formed |
| Fixture.SampleAges | tests/test_data_cleaner.py:10 | the ages are 25, 30, 35, missing, 40 |
| Fixture.SampleSalaries | tests/test_data_cleaner.py:11 | the salaries are 50000, 55000, 60000, 45000, missing |
| Fixture.SampleDepartments | tests/test_data_cleaner.py:12 | the departments are HR, Finance, IT, HR, Finance |
| Fixture.SampleNullCounts | tests/test_data_cleaner.py:24-27 | the null counts are age 1, salary 1, department 0 |
| Fixture.SampleMeans | tests/test_data_cleaner.py:30-34 | the column means are 32.5 for age and 52500 for salary |
| Fixture.SampleNumericColumns | tests/test_data_cleaner.py:8-15 | the numeric columns are age and salary |
| Fixture.SampleImputedNames | tests/test_data_cleaner.py:30-34 | both numeric columns are reported as imputed, in order |
| Fixture.SampleImpute | tests/test_data_cleaner.py:30-34 | the default imputation fills the missing age with 32.5 and the missing salary with 52500, leaves neither column with a null, and reports both |
| Fixture.SampleDropNa | tests/test_data_cleaner.py:37-40 | `dropna` keeps the first three rows |
| Fixture.SampleDropMissing | tests/test_data_cleaner.py:37-40 | `drop_missing_values` answers a table of the first three rows |
| Fixture.SampleNoDuplicates | tests/test_data_cleaner.py:43-52 | the duplicate count is 0, so `drop_duplicate_rows` answers `None` |
| Fixture.SampleTypeCounts | kotaro/data_cleaner.py:61-73 | on the sample, numeric columns come first with count 2 (200/3 %), then other with count 1 (100/3 %) |
| Fixture.SampleCategories | kotaro/data_cleaner.py:239 | the departments sort as Finance, HR, IT, and the indicator levels are HR and IT |
| Fixture.SampleOneHotColumns | kotaro/data_cleaner.py:228-245 | encoding the sample gives the columns age, salary, department_HR and department_IT |

## Left out

- `describe_data` (lines 76-88) and `get_data_types` (lines 49-58) are not modelled. They report pandas dtype strings and descriptive statistics, and the model has no dtype strings.
- Logging is not modelled. Each notice is a side effect with no bearing on the result. The conditions under which the notices fire are modelled: `ImputedNamesEmpty`, `DropMissing`, `DropDuplicates`, `NumericColumnsEmpty` and `OneHotNoCategorical`.
- The `TypeError` raised by the constructor for a non-DataFrame argument (line 23-24) is not modelled. The Dafny types admit only frames.
- Floating point is not modelled. Means, variances and scaled values are exact `real`s, and NaN appears only as the missing mean (`None`). In particular scikit-learn's `_handle_zeros_in_scale` treats a range or standard deviation within about ten machine epsilons of zero as zero and divides by 1; the model divides by 1 only for an exact zero (`Scaling.MinMaxFitted`, `Scaling.StandardFitted`).
- Scaling.StandardFitted: the square root StandardScaler takes of the variance is the parameter `root`. That the standardised column has mean 0 and variance 1 is not proved. Only the structure of `standardize` is: which columns change, the shape, the nulls, the centring on the mean and a nonzero divisor.
- Queries.TypeCounts: pandas counts each dtype separately (int64, float64, object, bool, ...). The model counts two tags only, numeric and other. When the two counts are equal the model lists numeric first, an order pandas does not fix.
- Encoding.OneHot: pandas 2 gives indicator columns the `bool` dtype. The model gives them 0/1 numeric cells. `select_dtypes(include=["number"])` does not count `bool` as a number, so the indicator columns `Encoding.OneHotShape` and `Encoding.ColumnsNumeric` call numeric are numeric only under this 0/1 representation; pandas would list them among the non-numeric columns.
- Scaling.Rescale: on a table with a numeric column and no row it returns the empty copy. The scaler raises `ValueError` there; that error is modelled by `Scaling.FitRejects` in `Cleaner.DataCleaner.RescaleCopy`, `Normalize` and `Standardize`, not by `Rescale` itself.
- Encoding.OneHot: pandas fails on a table with no columns at all (it concatenates an empty list). The function returns the empty table there; `Cleaner.DataCleaner.ApplyOneHotEncoding` answers `None` for that input.
- Encoding.OneHot: with repeated column names, `get_dummies(columns=...)` selects every column of a listed name once per listing and so repeats indicator blocks. The function encodes each column once, which is pandas' result only for distinct names.
- Cleaner.DataCleaner.ApplyOneHotEncoding: requires distinct column names, as `ImputeMissingValues` does, because the repeated indicator blocks pandas emits for a repeated non-numeric name are not modelled.
- Row index labels are not modelled. The rows of a result are a plain sequence, so `dropna` and `drop_duplicates` keep rows but not their original labels.
- Cleaner.DataCleaner.RescaleCopy: requires distinct column names. When a numeric and a non-numeric column share a name, `df_copy[numerical_columns]` selects both and `fit_transform` raises `ValueError`; repeated names are not modelled.
- Cleaner.DataCleaner.Normalize: requires distinct column names, for the reason given for `RescaleCopy`.
- Cleaner.DataCleaner.Standardize: requires distinct column names, for the reason given for `RescaleCopy`.
- Cleaner.Frame.AssignScaled: requires distinct column names, for the reason given for `RescaleCopy`.
- Encoding.Categories: only columns of strings are modelled. A pandas `category` column lists its declared categories in declared order, unused ones included, and an object column mixing numbers and strings lists the numbers first; for those `Categories`, `Levels` and `LevelCount` do not describe pandas.
- Cleaner.DataCleaner.ImputeMissingValues: requires distinct column names. With a repeated name, `df[col]` is a frame rather than a column, which the model does not represent.
- The other files of the repository are not part of this model: `kotaro/data_explorer.py` (plotting), `main.py`, `main_pipeline.py` and `setup.py`.
- Three test assertions of the library are not modelled as written.
  - tests/test_data_cleaner.py:21 compares dtype strings, which the model does not have.
  - Line 46 takes the `shape` of the dictionary that `get_duplicate_rows` returns.
  - Line 52 expects 4 rows where the code returns `None`.

  The model's answers for the last two are stated in `Fixture.SampleNoDuplicates`.
