# Sentinel-2 NDVI/NDWI window aggregation — a Dafny model

The application takes a list of named points, a date range, a step in days
and a cloud-cover threshold. It walks the range in fixed-width date buckets.
For each bucket it asks the Sentinel-2 catalog how many scenes in the
window are under the cloud threshold. It skips the bucket when there are
none. Otherwise it pulls each point's region table and averages the values
at positions 4 and 5 of its data rows over the non-null samples. The code
labels these two values NDVI and NDWI. It emits one row
`(bucket start, point name, NDVI mean, NDWI mean)` when both means exist.

This project models that aggregation loop (the Submit branch of
`streamlit_app.py`) and proves its behaviour:

- `Buckets` (`buckets.dfy`): the cursor's walk over the range. Dates are day
  ordinals. It covers the bucket count, the closed form of every bucket
  start, the half-open windows, and the unclamped last window.
- `Samples` (`samples.dfy`): reduction of one region table. It drops the
  header row, reads positions 4 and 5, filters nulls per column, and takes
  the arithmetic mean.
- `Aggregate` (`aggregate.dfy`): the remote catalog as a parameter, one
  point's row, and one bucket's rows.
- `Submission` (`submission.dfy`): the whole loop. The date loop is stated
  once for any bucket function: a functional definition (`Run`) and an
  imperative `while` loop (`RunLoop`), proved equal. The analysis
  instantiates it with `Aggregate.BucketRows`. The body of one iteration,
  the image-count check and the point loop, is also written imperatively
  (`ProcessBucket`, `ReducePoints`, `ReducePoint`) and proved equal to `BucketRows`.
  `Analyze` runs `RunLoop` with `BucketRows` as its bucket function. Since
  `ProcessBucket` returns exactly `BucketRows`, that is the loop with its
  imperative body. The two are kept apart so that each proof only has to
  reason about one loop. Lemmas about the full output follow.
- `Arith` (`arith.dfy`) and `Wrappers` (`wrappers.dfy`) are support code.

The remote service is the `Catalog` datatype, a pair of functions:

- `count(window, threshold)` answers the filtered image-count query.
- `region(window, threshold, i, point)` answers the region query for the
  point at position `i` of the input list with a table of `Option<real>`
  cells. The position is passed so that two equal points can get different
  answers, for instance a failure for only the second query.

A `None` answer stands for a failed remote call. A failed call, like a
data row too short to have positions 4 and 5 (an `IndexError`), aborts the
whole run. The model reports the first such fault as a `Fault` value, and
no partial table is kept.

Details kept exactly as the code has them:

- The two averaged values are read at positions 4 and 5 of each data row,
  which the code labels NDVI and NDWI. In a region table these positions
  hold the first two bands after id, longitude, latitude and time. The
  column names in the table's header are not consulted.
- The record key of the last column is `"Custom_ND VI"`, with a space
  (`Aggregate.ColumnLabels`, paired with the row's fields by
  `Aggregate.Record`). The NDWI mean is therefore not found under
  `"Custom_NDWI"` (`Aggregate.NdwiUnderLiteralKey`).
- The last window is `[start + k*I, start + (k+1)*I)` even when its upper
  bound lies past the end date.
- The number of buckets is `(end - start) / I + 1` (floor division) when
  `start <= end`, and 0 otherwise. A ceiling formula,
  `ceil((end - start) / I)`, would undercount: the range 01-01 to 01-31
  with `I = 15` has three buckets (1, 16, 31), not two
  (`Buckets.ThirtyOneDaysByFifteen`).

## Model

| member | source | states |
|---|---|---|
| `Buckets.CursorClosedForm` | streamlit_app.py:60-64 | The cursor after k iterations of "add one interval" is `start + k*I`. |
| `Buckets.CursorIncreasing` | streamlit_app.py:104 | Each further iteration moves the cursor on by at least one whole interval. |
| `Buckets.Starts` | streamlit_app.py:60-64 | The cursor values visited are none iff `start > end`. The k-th is the cursor after k iterations, every one is `<= end`, and the last plus `I` is past `end`. |
| `Buckets.StartsCount` | streamlit_app.py:60-64 | The loop visits exactly `(end - start) / I + 1` buckets when `start <= end`, and none otherwise. |
| `Buckets.StartsIncreasing` | streamlit_app.py:104 | Bucket starts strictly increase, at least one interval apart. |
| `Buckets.WindowsAbut` | streamlit_app.py:64-104 | Each window ends exactly where the next bucket starts, because the cursor moves by exactly `I`. |
| `Buckets.StartOffset` | streamlit_app.py:60-64 | The k-th bucket start lies in `[start, end]` and is exactly k whole intervals after `start`. |
| `Buckets.StartMembership` | streamlit_app.py:60-64 | A day is a bucket start iff it lies in `[start, end]` and is a whole number of intervals after `start`. |
| `Buckets.WindowUnique` | streamlit_app.py:63-72 | No day lies in the windows of two different buckets. |
| `Buckets.WindowsTile` | streamlit_app.py:63-72 | Every day of `[start, end]` lies in exactly one bucket window. |
| `Buckets.ThirtyOneDaysByFifteen` | streamlit_app.py:63-68 | Days 1..31 with interval 15 give buckets 1, 16, 31, and the last window runs to 46, past the end date. |
| `Samples.Column` | streamlit_app.py:87-88 | Reading position `col` fails iff some row is too short; otherwise it yields each row's cell at `col`, in row order. |
| `Samples.NonNull` | streamlit_app.py:87-88 | The filtered list is no longer than the input and holds exactly the values present as non-null cells. |
| `Samples.NonNullAppend` | streamlit_app.py:87-88 | Null filtering distributes over concatenation, so it keeps the order of values. |
| `Samples.NonNullWithoutNulls` | streamlit_app.py:87-88 | With no nulls present, filtering returns every value in its place. |
| `Samples.NonNullEmpty` | streamlit_app.py:91-92 | Filtering leaves nothing iff every cell is null. |
| `Samples.Mean` | streamlit_app.py:91-92 | The mean is undefined iff the list is empty; otherwise mean times count equals the sum. |
| `Samples.MeanWithin` | streamlit_app.py:91-92 | A defined mean lies between any lower and upper bound of its samples. |
| `Samples.BandMean` | streamlit_app.py:86-92 | A band's mean over the data rows (the header is dropped) fails iff some data row lacks the column. It is undefined iff every data cell of the column is null. |
| `Samples.BandMeanValue` | streamlit_app.py:87-92 | Given the data rows' cells at a column one by one, the band mean is the mean of their non-null values. That is their sum divided by their count, and undefined when none is left. |
| `Samples.NullDropped` | streamlit_app.py:87-88 | Filtering the column 0.2, 0.4, null, 0.6 keeps 0.2, 0.4, 0.6 in that order. |
| `Samples.NullsAreSkipped` | streamlit_app.py:87-91 | The samples 0.2, 0.4, null, 0.6 average to 0.4: nulls are skipped, not counted. |
| `Aggregate.PointRow` | streamlit_app.py:86-101 | Reducing a table fails iff a data row lacks position 5 (reporting position 4 when a row lacks that first). Otherwise it yields a row iff both bands have a non-null sample, and the row carries the bucket day, the point's name and both band means. Each mean is the band mean, whose value `Samples.BandMeanValue` gives. |
| `Aggregate.PointOutcome` | streamlit_app.py:83-101 | A point yields a row iff its region query answers with a table that has no short data row and a non-null sample in both bands. Its row names that point and is dated on the bucket, and each of its means is that table's band mean (whose value `Samples.BandMeanValue` gives). It fails iff the region call fails (`RegionFailed`) or the returned table has a data row without position 5 (`RowTooShort`, naming position 4 when that is missing first). Its faults name the bucket and the point. |
| `Aggregate.Collect` | streamlit_app.py:83-101 | A successful point loop yields no more rows than there are outcomes, and each row is the row of some point. |
| `Aggregate.Record` | streamlit_app.py:96-101 | An appended record has exactly the four keys of `ColumnLabels`, in order. `NdwiUnderLiteralKey` states the value under each key. |
| `Aggregate.NdwiUnderLiteralKey` | streamlit_app.py:96-101 | The bucket day is filed under `"Date"`, the point's name under `"Location"`, the NDVI mean under `"Custom_NDVI"` and the NDWI mean under `"Custom_ND VI"`. Nothing is filed under `"Custom_NDWI"`. |
| `Aggregate.YieldingMembers` | streamlit_app.py:94-95 | A point position is listed as yielding iff its outcome is a row. |
| `Aggregate.CollectSelects` | streamlit_app.py:83-101 | A successful point loop yields exactly one row per yielding point, in point input order. |
| `Aggregate.CollectFailure` | streamlit_app.py:83-88 | The point loop fails iff some point fails, and it reports the first point's fault. |
| `Aggregate.BucketRows` | streamlit_app.py:63-101 | A bucket with no qualifying image yields no rows. A failed count query is a `CountFailed` fault. A successful bucket has no more rows than there are points, all dated on the bucket start. |
| `Aggregate.BucketSelectsPoints` | streamlit_app.py:75-101 | In a window with imagery, the bucket's k-th row is the row of the k-th yielding point, and there are no other rows. |
| `Aggregate.BucketFailure` | streamlit_app.py:75-88 | A bucket fails iff its count query fails, or its window has imagery and some point fails. The fault is the first failing point's. |
| `Submission.RunDated` | streamlit_app.py:63-104 | From a cursor, every emitted row is dated between the cursor and the end date, and dates never decrease. |
| `Submission.RunIsGather` | streamlit_app.py:60-104 | The loop handles exactly the buckets of `Buckets.Starts`, in order. These do not depend on the catalog, so a skipped window does not shift later buckets. |
| `Submission.GatherBucket` | streamlit_app.py:59-104 | Over strictly increasing bucket days, the rows dated on a bucket are exactly that bucket's rows. |
| `Submission.GatherFailure` | streamlit_app.py:63-104 | The run over a list of buckets fails iff some bucket fails, and it reports the first bucket's fault. |
| `Submission.GatherSize` | streamlit_app.py:83-101 | A successful run over a list of days, each bucket yielding at most `n` rows, has at most `n` times the number of days rows in total. |
| `Submission.RunStep` | streamlit_app.py:63-104 | While the cursor is not past the end, the loop is the cursor's bucket followed by the loop from the cursor plus one interval. |
| `Submission.RunAdvance` | streamlit_app.py:63-104 | One iteration keeps "rows so far, then the rest of the loop" equal to the whole run; a failing bucket is the whole run's outcome. |
| `Submission.RunFailure` | streamlit_app.py:63-104 | For any bucket function, the loop aborts iff some visited bucket fails, and it reports the earliest failing bucket's fault. |
| `Submission.BucketsOfShape` | streamlit_app.py:83-101 | Every bucket of the analysis dates its rows on its start day and yields no more rows than there are points. |
| `Submission.RunBucket` | streamlit_app.py:63-104 | For buckets that date their rows on their own start day, a successful run's rows dated on visited start `d` are exactly bucket `d`'s rows. |
| `Submission.RunOrdered` | streamlit_app.py:63-104 | For such buckets yielding at most `n` rows each, every row's date is a visited start, dates never decrease, no date carries more than `n` rows, and there are at most `BucketCount` times `n` rows in total. |
| `Submission.AnalysisBucket` | streamlit_app.py:59-104 | In a successful analysis, the rows dated on bucket start `d` are exactly bucket `d`'s rows. |
| `Submission.EmptyWindowSkipped` | streamlit_app.py:75-78 | A bucket whose window has no image under the cloud threshold contributes no row for any point. |
| `Submission.AnalysisSelectsPoints` | streamlit_app.py:83-101 | In a bucket with imagery, the analysis' rows for that date are the rows of the yielding points, in point order. |
| `Submission.AnalysisOrdered` | streamlit_app.py:59-104 | Every row's date is a bucket start, and dates never decrease. No date carries more rows than there are points, and there are at most `BucketCount` times the number of points rows in total. |
| `Submission.AnalysisFailure` | streamlit_app.py:63-104 | The analysis aborts iff some bucket fails, and it reports the fault of the earliest failing bucket. |
| `Submission.ReducePoint` | streamlit_app.py:84-101 | The imperative body for one point (region query, then reduction, with its two faults) returns exactly that point's outcome. |
| `Submission.ReducePoints` | streamlit_app.py:83-101 | The imperative point loop returns exactly what the functional point loop defines. |
| `Submission.ProcessBucket` | streamlit_app.py:64-101 | The imperative body of one iteration (count check, skip, point loop) returns exactly the bucket's rows. |
| `Submission.RunLoop` | streamlit_app.py:59-104 | The imperative `while` loop over the cursor returns exactly the functional loop, for any bucket function. |
| `Submission.Analyze` | streamlit_app.py:58-104 | The Submit branch returns exactly the functional analysis, for every form the input widgets accept. |

## Left out

- Credential bootstrap (`streamlit_app.py:9-23`): the environment variable read, the JSON parse, the file write and the service initialisation are I/O and global state.
- All Earth Engine calls, including the collection, `filterDate`, the cloud filter, `size().getInfo()`, `map(add_indices)` and `getRegion(point, 10).getInfo()`. They are remote library code. The `Catalog` parameter stands in for their answers. Which scenes match a window and threshold, and what a region table contains, are the catalog's business.
- `add_indices` (the normalized-difference band math): remote library code with floating-point behaviour.
- The Streamlit widgets and rendering. Only the widget bounds survive, as `Form.Valid`: at least one point, an interval of at least one day, and a threshold of at least 0.0. The loop itself needs only the interval bound, so only `Analyze` requires the rest.
- The pandas table, the CSV export and its caching are foreign library calls. The record keys, including `"Custom_ND VI"`, are kept as `Aggregate.ColumnLabels` and `Aggregate.Record`.
- Calendar arithmetic and `strftime`. Dates are integer day ordinals, so the `Date` field is the ordinal, not a formatted string. The `OverflowError` Python raises when `next_date` passes year 9999 is not modelled.
- Floating-point rounding in sums and divisions. Samples are exact `real`s.
- Cell types other than numbers and nulls. Every table cell is an `Option<real>`. The leading id/longitude/latitude/time cells are never read, so their types do not matter.
