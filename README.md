# Memory-optimising table loader: a verified Dafny model

This project models the data-preparation core of a small survey dashboard
(`MyFuncs.py`). It has three routines:

- `sample_data`: a systematic, fixed-stride sample of a data frame's rows.
  With `interval = rows / n` (truncated), it keeps row `i` exactly when
  `i % interval == 0` and `i / interval <= n`. The kept rows go, in order,
  into a new frame with the same column labels.
- `reduce_mem_usage`: a loop over the columns of a data frame that rewrites
  each column in place. An integer column gets the first numpy width (int8,
  int16, int32, int64) whose bounds *strictly* contain the column's
  `[min, max]`. An object column becomes categorical. When a sample count is
  given, the frame is sampled first and the sample is rewritten.
- `change_attributes`: copies every entry of one dict into another, in place,
  and returns the first dict.

Modules:

- `Wrappers` (`wrappers.dfy`): `Option`, `Result` and `Outcome`.
- `Frames` (`frames.dfy`): the data model. It has the integer widths with
  their `np.iinfo` bounds, cells, dtypes and columns. `DataFrame` is a class
  with column labels, a row count and an `array<Column>`, and the optimizer
  rewrites that array in place.
- `Sampling` (`sampling.dfy`): `sample_data`. The loop is `SampleRows`, which
  works on values. `SampleData` allocates the new frame.
- `Narrowing` (`narrowing.dfy`): `reduce_mem_usage`. The pure per-column
  decision is `NarrowColumn`, built on `ChooseIntWidth`. The in-place loop is
  `NarrowColumns`, and `ReduceMemUsage` is the whole routine, including the
  optional sampling.
- `Attributes` (`attributes.dfy`): `change_attributes` over a `Dict` class
  that holds a `map`.

Python exceptions become error values.

- `n_samples == 0` raises `ZeroDivisionError` on line 10.
- `n_samples` larger than a non-empty frame's row count gives `interval == 0`,
  so `i % 0` fails on the first row (line 15).
- In both cases `SampleData` returns `Failure(ZeroDivision)`.
- A frame with no rows yields an empty sample for every `n_samples > 0`,
  because the loop body never runs.

A categorical column is not of the object dtype, so the loop takes its
`min()` (line 36). pandas rejects `min()` on an unordered categorical with a
`TypeError`. The model returns `UnorderedCategoricalMin` at that column, and
the columns before it stay rewritten. This is why a second optimizer pass
fails on any frame that had object columns.

The loop looks each column up by its label (line 33). When a label names
several columns, `df[col]` is a frame rather than a series and has no
`dtype`, so pandas raises an `AttributeError` at the first column carrying
that label. The model returns `DuplicateLabel` there, with the same
"columns before it stay rewritten" behaviour.

## Behaviour worth knowing

- With `0 < n <= rows`, the sample never holds fewer than `n` rows: it holds
  `n` or `n + 1` rows, and exactly `n + 1` when `n * interval < rows`
  (`SampleSize`). 105 rows sampled for 10 keep 11 rows, at positions 0, 10,
  …, 100. 100 rows keep 10 rows. A frame with no rows gives an empty sample.
- An integer column is left unchanged in two cases:
  - It has no rows. Its `min()` is NaN, so every comparison is false.
  - It holds the int64 minimum or maximum, so no strict bound holds
    (`NoWidthOnlyAtInt64Extremes`).
- The bounds are strict, so an `int8` column holding 127 is rewritten as
  `int16` (`StrictBoundWidens`). The model keeps this as written.

## Model

| member | source | states |
|---|---|---|
| `Frames.WidthBounds` | MyFuncs.py:39-46 | the `np.iinfo` bounds of each width are -2^(bits-1) and 2^(bits-1)-1 |
| `Sampling.KeptIsStride` | MyFuncs.py:10-17 | the sample has StrideCount = min(n+1, ceil(rows/interval)) elements, and element j is the row at position j*interval |
| `Sampling.SampleMembership` | MyFuncs.py:14-17 | every sampled row comes from a position that passes the test; every position that passes is in the sample, at index i/interval; positions increase along the sample |
| `Sampling.KeptPositions` | MyFuncs.py:14-15 | the kept row positions are exactly 0, interval, 2*interval, … (StrideCount of them) |
| `Sampling.SampleSize` | MyFuncs.py:10-15 | for 0 < n <= rows, interval >= 1 and the sample has n or n+1 rows; n+1 exactly when n*interval < rows |
| `Sampling.OvershootExample` | MyFuncs.py:10-15 | 105 rows sampled for 10 keep the 11 positions 0, 10, …, 100 |
| `Sampling.ExactExample` | MyFuncs.py:10-15 | 100 rows sampled for 10 keep the 10 positions 0, 10, …, 90 |
| `Sampling.SampleRowsAreCopies` | MyFuncs.py:12-17 | row j of the sample is an unmodified copy of row j*interval of the input, and has every column |
| `Sampling.SampledColumnsFacts` | MyFuncs.py:12-17 | each sampled column keeps its dtype's typing and has as many cells as there are kept positions |
| `Sampling.SampleRows` | MyFuncs.py:10-18 | the loop fails with ZeroDivision exactly when n == 0 or 0 < rows < n; otherwise it returns the sampled columns and the number of kept positions |
| `Sampling.SampleData` | MyFuncs.py:6-19 | a fresh, valid frame with the same column labels whose columns are the samples of the input's columns; the same error cases |
| `Narrowing.ChooseIntWidth` | MyFuncs.py:38-46 | the chosen width's bounds strictly contain [lo, hi], and no earlier width's bounds do; None exactly when no width strictly contains the range |
| `Narrowing.MinValue` | MyFuncs.py:36 | the result is a cell of the column and no cell is smaller |
| `Narrowing.MaxValue` | MyFuncs.py:37 | the result is a cell of the column and no cell is larger |
| `Narrowing.RangeDecides` | MyFuncs.py:36-46 | testing [min, max] against a width is the same as testing every cell against it |
| `Narrowing.NarrowColumn` | MyFuncs.py:33-55 | values never change and stay well typed; object becomes categorical; an int column with cells moves to the first width that strictly holds every cell; it is unchanged when there are no cells or no width fits; a categorical column fails |
| `Narrowing.FirstFailureFrom` | MyFuncs.py:32-36 | from the start index on, every iteration before the result succeeds and the iteration at the result raises |
| `Narrowing.FirstFailure` | MyFuncs.py:32-36 | every column before the index is looked up and narrowed successfully, and the iteration at the index raises |
| `Narrowing.DuplicateLabelsFail` | MyFuncs.py:32-33 | a label shared by two columns makes the loop raise, at or before the first column carrying it |
| `Narrowing.PassesFrom` | MyFuncs.py:32-55 | when no iteration from an index on raises, the loop runs to the last column |
| `Narrowing.Optimized` | MyFuncs.py:32-55 | the loop result has the same number of columns, and each keeps its values and stays well typed |
| `Narrowing.StrictBoundWidens` | MyFuncs.py:39-42 | an int8 column holding 127 is rewritten as int16, because the bounds are strict |
| `Narrowing.NoWidthOnlyAtInt64Extremes` | MyFuncs.py:45-46 | a well-typed integer column that no width holds strictly contains exactly the int64 minimum or maximum, and is then left unchanged |
| `Narrowing.NarrowTwice` | MyFuncs.py:35-55 | narrowing an integer or float column again changes nothing (the same width is chosen); a column that was object, now categorical, fails the second time |
| `Narrowing.OptimizeTwice` | MyFuncs.py:32-55 | after a successful pass, every int column gets the same width again; the second pass succeeds exactly when there were no object columns, and then it changes nothing |
| `Narrowing.NarrowColumns` | MyFuncs.py:32-55 | the column array afterwards is the loop result; Pass exactly when no iteration raises, otherwise the error of the first one that does (a repeated label or a categorical column); columns from the failing one on are untouched |
| `Narrowing.ReduceMemUsage` | MyFuncs.py:21-62 | without a sample count, df's own columns are rewritten and df is returned; with one, df is unchanged, sampling errors are returned, and otherwise a fresh frame with the same labels and the sample's row count holds the rewritten sample; a raising iteration's error is returned |
| `Attributes.ChangeAttributes` | MyFuncs.py:104-107 | keys become keys(dicIn) ∪ keys(dicNew); every key of dicNew takes its value from dicNew; the other keys keep their old values; dicNew is unchanged, even when it is dicIn; dicIn itself is returned |

## Left out

- Narrowing.NarrowColumn: keeps float columns as they are. The float branch (MyFuncs.py:47-53) compares against `np.finfo` bounds and rounds values, which is floating-point numerics. It also handles the `uint` and `bool` dtypes; the model has no dtypes other than signed int, float, object and categorical.
- Sampling.SampleData: the new frame's columns keep the source columns' dtypes. The dtypes pandas gives to rows appended onto an empty `DataFrame(columns=...)` (MyFuncs.py:12, 17) are not modelled, and neither are the index labels the copied rows carry. This matters for `reduce_mem_usage` with a sample count, in two cases:
  - In a frame that mixes int and float columns and has no object column, `df.iloc[i]` is a float row. The sampled int columns then come back as float and take the float branch. The model narrows them as ints.
  - When no row is kept, every column of the sample keeps the object dtype of the empty frame, so pandas makes every column categorical. The model keeps the source dtypes.
- Sampling.SampleData: `n_samples` is a natural number. A negative count, which Python accepts and truncates, is not modelled.
- Sampling.SampleRows: two steps use Python true division. One is the interval `int(len(df.index) / n_samples)` (MyFuncs.py:10), a float quotient that is then truncated. The other is the test `i / interval <= n` (MyFuncs.py:15). The model uses integer division for both. The answers are the same (for the test, because `i % interval == 0` there) while the row count is below 2^53, so that the floats are exact.
- The default `n_samples = len(df.index) / 10` (MyFuncs.py:8) is a float, so both `interval` and the stop test depend on float rounding. Only an explicit integer count is modelled.
- Progress and memory-usage printing (MyFuncs.py:16, 28-30, 57-60) and the `output` flag are console I/O and have no effect on the data.
- `import_data` and `ncvs_small` (MyFuncs.py:64-79) wrap CSV file reading; `ncvs_small_model` (MyFuncs.py:109-110) loads a pickle file. Both are file I/O.
- `colors` and `default_layout` (MyFuncs.py:81-102) are constants with no behaviour.
- `run.py` and `pages/index.py` are web-UI layout and routing over a dashboard library.
- Attributes.ChangeAttributes: the model's `map` has no key order. A Python dict keeps insertion order, so the keys of `dic_new` that were not already in `dic_in` end up after the existing keys, in `dic_new`'s iteration order; the model does not capture that order. The set of keys and every key's value do not depend on it.
- Null-sentinel recoding, derived boolean columns, column subsetting and their errors do not appear in this code, so they are not modelled.
