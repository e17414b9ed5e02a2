# dataprof, modelled in Dafny

dataprof is a command-line data-quality profiler. It reads one tabular file into a
Polars DataFrame, picking the reader from the file suffix (`.csv`, `.parquet`, `.json`,
`.ipc`), and runs a fixed pipeline of analyzers. Each analyzer defined in
`src/dataprof/core.py` prints a table:

- basic shape statistics;
- per-column null counts with a red/green threshold flag;
- the inferred schema;
- maximum and minimum of the numeric columns;
- an overview of the string columns: distinct count, most common value and its frequency;
- `main` also calls `detect_duplicates` and `detect_outliers`, which `src/dataprof/core.py` does not define (see Left out).

Command-line flags choose which analyzers run. When no flag is given, all of them run.

The model replaces every printed table by the list of rows it would hold. A run
becomes a trace of events, and an exception raised inside an analyzer becomes an error
value that ends the run.

| file | module | models |
|---|---|---|
| `basics.dfy` | `Basics` | `Option`, `Result`, and `Fault`: the Python exceptions the core raises (`ZeroDivisionError`, `TypeError`, `ValueError`). |
| `text.dfy` | `Text` | `str(int)` as `Decimal`, with its parser `ParseDecimal`. `", ".join` as `JoinNames`, with its splitter `SplitNames`. `str.endswith` as `EndsWith`. |
| `frames.dfy` | `Frames` | The DataFrame: named columns of equal height, each numeric, string or other, with missing entries. The Polars primitives the core uses: `null_count`, `n_unique`, value counts and the top of their count-sorted order (`Count`, `Mode`), `max`, `min`, and selection of the numeric or string columns. |
| `core.dfy` | `Core` | The five analyzers of `src/dataprof/core.py`, each as a function giving the rows of its table. The four analyzers that loop over columns also have a method whose loop builds the same rows. `compute_basic_stats` has no loop and is the function `BasicStats` alone. |
| `loader.dfy` | `Loader` | `load_file`: the suffix dispatch, the `ValueError` for any other suffix, and the verbose log line. |
| `orchestrator.dfy` | `Orchestrator` | `main`: the `run_all` rule, the seven guarded calls in their fixed order, and the run as a trace of events. |

The code has these error and edge behaviours, and the model keeps them:

- On a frame with columns but no rows, `check_null_counts` divides by `df.height == 0` (`src/dataprof/core.py:103`). It raises `ZeroDivisionError` at the first column.
- In `compute_summary_stats`, a numeric column without any present value has `None` as its max. Formatting `None` with `:.2f` (`src/dataprof/core.py:180`) raises `TypeError`.
- `categorical_column_info` counts null as one more value, in both `n_unique` and `value_counts` (`src/dataprof/core.py:267-273`). On a frame without rows, the value counts of a string column are empty, and `.item()` (`src/dataprof/core.py:275`) raises `ValueError`.
- `main` has no exception handler (`src/dataprof/main.py:77-103`). An exception in any analyzer ends the run, and later analyzers do not run.

`compute_basic_stats` emits three rows (`src/dataprof/core.py:51-53`). The repository's test also expects a fourth "Estimated Size" row (`tests/test_core.py:53-56`), which the code never adds. The model has three rows.

## Model

| member | source | states |
|---|---|---|
| Text.Decimal | src/dataprof/core.py:51-52 | `str` of a natural number is a non-empty digit string with no leading zero (a lone "0" only for zero). |
| Text.ParseDecimalOfDecimal | src/dataprof/core.py:51-52 | Reading the printed row or column count back as a number gives the count: `str` is injective on counts. |
| Text.JoinNames | src/dataprof/core.py:53 | Joining a single name with ", " gives that name unchanged. |
| Text.SplitJoinNames | src/dataprof/core.py:53 | For one or more comma-free names, splitting the joined string at ", " gives back exactly the names, in order. |
| Frames.Count | src/dataprof/core.py:269-276 | The count of a value in a column is at most the column length, and positive exactly when the value occurs. |
| Frames.NullCount | src/dataprof/core.py:98 | `null_count` is the count of the missing value, at most the length, and zero exactly when every entry is present. |
| Frames.ColumnNullCount | src/dataprof/core.py:98 | A column's null count never exceeds its length. Frames.ColumnNullCountIsCount gives its value. |
| Frames.ColumnNullCountIsCount | src/dataprof/core.py:98-102 | For a column of any kind, the null count is the number of missing entries. |
| Frames.Distinct | src/dataprof/core.py:267 | The distinct values of a column are exactly the values occurring in it (null included). There are no more of them than entries, and at least one when the column is non-empty. |
| Frames.NUnique | src/dataprof/core.py:267 | `n_unique` is at most the length and positive for a non-empty column. Frames.Distinct states which values it counts. |
| Frames.LeaderAmong | src/dataprof/core.py:269-273 | Among the first k entries, the chosen position has a maximal count, and every earlier position has a strictly smaller count. |
| Frames.Mode | src/dataprof/core.py:269-275 | The top of the count-sorted value counts is a value of the column whose count is at least every other value's count. |
| Frames.FirstIndex | src/dataprof/core.py:269-275 | The position returned holds the value, and no earlier position does. |
| Frames.ModeTieBreak | src/dataprof/core.py:269-275 | Every value occurring before the chosen most-common value's first occurrence is strictly less frequent, so ties go to the value seen first. |
| Frames.WithoutCounts | src/dataprof/core.py:267-276 | Removing every occurrence of a value shortens the column by its count, zeroes its count and leaves every other count unchanged. |
| Frames.DistinctWithout | src/dataprof/core.py:267 | Removing an occurring value removes exactly one distinct value. |
| Frames.WithoutKeepsBound | src/dataprof/core.py:267-276 | A common bound on all counts survives removing a value. |
| Frames.LengthBoundedByCounts | src/dataprof/core.py:267-276 | If no value occurs more than b times, the column has at most (distinct values) × b entries. |
| Frames.ModeFrequencyBound | src/dataprof/core.py:267-276 | For a non-empty column, the height is at most the unique count times the most-common value's frequency. |
| Frames.MaxOf | src/dataprof/core.py:180 | `max` is missing exactly when every entry is missing. Otherwise it is a present entry at least as large as every present entry. |
| Frames.MinOf | src/dataprof/core.py:182 | `min` is missing exactly when every entry is missing. Otherwise it is a present entry no larger than every present entry. |
| Frames.IndicesOfKind | src/dataprof/core.py:177 | The selected positions are exactly the columns of the requested kind, strictly increasing, so frame order is kept. |
| Frames.SelectKind | src/dataprof/core.py:266 | Every selected column has the requested kind. Frames.SelectKindIsFilter states which columns are selected. |
| Frames.SelectKindIsFilter | src/dataprof/core.py:266 | The selection has one entry per position of the kind, in order, and that entry is the frame column at that position. A column is selected exactly when it has the requested kind. |
| Core.BasicStats | src/dataprof/core.py:51-53 | Three rows whose first two values are digit strings. The full behaviour is stated by Core.BasicStatsReadBack. |
| Core.BasicStatsReadBack | src/dataprof/core.py:51-53 | Three rows: "Row Count" reads back as the height, "Column Count" as the column count, and "Column Names" splits back into the column names when they are comma-free. |
| Core.BasicStatsThreeByTwo | tests/test_core.py:41-51 | A 3-row frame with columns a and b gives "3", "2" and "a, b". |
| Core.NullStyle | src/dataprof/core.py:103-105 | A column without nulls is green at any threshold ≥ 0. A column that is entirely null is red at any threshold below 100. Core.NullStyleMatchesPercent states the full rule. |
| Core.NullStyleMatchesPercent | src/dataprof/core.py:103-105 | The row is red exactly when the null percentage is strictly above the threshold, so a percentage equal to the threshold is green. |
| Core.NullStyleMonotone | src/dataprof/core.py:105 | Lowering the threshold never turns a red row green. |
| Core.NullPercent | src/dataprof/core.py:103 | `null_pct` is the percentage whose product with the height is 100 times the null count. Its range is stated by Core.NullPercentBounds, and its use in each row by Core.NullReportFlags. |
| Core.NullRowOf | src/dataprof/core.py:102-110 | The row of one column: name, null count, percentage and style. Stated per column by Core.NullReportRows and Core.NullReportFlags. |
| Core.NullCounts | src/dataprof/core.py:98 | One null count per column, each at most that column's length. |
| Core.NullReport | src/dataprof/core.py:98-110 | On success, one row per column. A failure is a `ZeroDivisionError`. The rows are stated by Core.NullReportRows and Core.NullReportFlags, and the failure by Core.NullReportFailsIff. |
| Core.CheckNullCounts | src/dataprof/core.py:98-110 | The loop over the columns yields exactly the rows of `NullReport`, including its error. |
| Core.NullReportFailsIff | src/dataprof/core.py:101-103 | The null report fails exactly when the frame has columns but no rows, with `ZeroDivisionError` at the first column. |
| Core.NullPercentBounds | src/dataprof/core.py:103 | A null percentage lies between 0 and 100. |
| Core.NullReportRows | src/dataprof/core.py:101-110 | One row per column, in column order, carrying that column's name and its null count, which is at most the height. |
| Core.NullReportFlags | src/dataprof/core.py:103-110 | Each row's percentage is its null count over the height, times 100. The row is red exactly when that percentage exceeds the threshold, and every percentage is in 0..100. |
| Core.NullReportMonotone | src/dataprof/core.py:103-105 | Raising the threshold changes neither failure nor any count, and never turns a green row red. |
| Core.NullReportExample | src/dataprof/core.py:98-110 | Columns [1, null, 3] and [6, 7, null] at threshold 10 give one null each, 33.3 %, both red. |
| Core.SchemaListing | src/dataprof/core.py:224-225 | One row per column, carrying its name. The kinds are stated by Core.SchemaAgreesWithSelectors. |
| Core.PrintSchema | src/dataprof/core.py:224-225 | The loop over the schema yields exactly `SchemaListing`. |
| Core.SchemaAgreesWithSelectors | src/dataprof/core.py:224-225 | One schema row per column, in order, with its name. A column is listed with a kind exactly when the kind selector picks it. |
| Core.FirstFailing | src/dataprof/core.py:177-183 | The position returned is the first column that fails the test. |
| Core.SummaryRowOf | src/dataprof/core.py:178-183 | The row of one numeric column: its name, `max` and `min`. Stated by Core.SummaryRowsInOrder and Core.SummaryBounds. |
| Core.SummaryReport | src/dataprof/core.py:177-183 | On success, one row per numeric column. A failure is a `TypeError`. Stated in full by Core.SummaryFailsIff, Core.SummaryRowsInOrder and Core.SummaryBounds. |
| Core.ComputeSummaryStats | src/dataprof/core.py:177-183 | The loop over the numeric columns yields exactly `SummaryReport`, including its error. |
| Core.SummaryFailsIff | src/dataprof/core.py:177-183 | The summary fails exactly when some numeric column has no present value. `TypeError` is then raised at the first such column. |
| Core.SummaryRowsInOrder | src/dataprof/core.py:177-179 | One row per numeric column, in frame order, with that column's name. |
| Core.SummaryBounds | src/dataprof/core.py:180-182 | Each row's maximum and minimum are the column's `max` and `min`, and minimum ≤ maximum. |
| Core.CategoryRowOf | src/dataprof/core.py:267-282 | The row of one string column: name, `n_unique`, top value and its count. Stated by Core.CategoricalRowsInOrder, Core.CategoricalBounds and Core.CategoricalFrequencyBound. |
| Core.CategoricalReport | src/dataprof/core.py:266-282 | On success, one row per string column. A failure is a `ValueError`. Stated in full by Core.CategoricalFailsIff, Core.CategoricalRowsInOrder and Core.CategoricalBounds. |
| Core.CategoricalColumnInfo | src/dataprof/core.py:266-282 | The loop over the string columns yields exactly `CategoricalReport`, including its error. |
| Core.CategoricalFailsIff | src/dataprof/core.py:266-276 | On a valid frame the overview fails exactly when it has a string column but no rows, with `ValueError` from `.item()`. This holds for frames without a string column named "count" (see Left out). |
| Core.CategoricalRowsInOrder | src/dataprof/core.py:266-282 | One row per string column, in frame order, with that column's name. |
| Core.CategoricalBounds | src/dataprof/core.py:266-282 | Per row: unique is the number of distinct values, null included, and 1 ≤ unique ≤ height; the most common value occurs in the column; the frequency is its count, in 1..height and at least every value's count; every value first seen earlier is strictly less frequent. |
| Core.CategoricalFrequencyBound | src/dataprof/core.py:267-276 | Per row, the height is at most unique × frequency. |
| Core.LettersCounts | src/dataprof/core.py:269-276 | In the column a, b, a, c, a the counts are 3, 1 and 1. |
| Core.LettersUnique | src/dataprof/core.py:267 | The column a, b, a, c, a has three distinct values. |
| Core.LettersMode | src/dataprof/core.py:269-275 | The most common value of a, b, a, c, a is "a". |
| Core.CategoricalExample | src/dataprof/core.py:266-282 | A frame holding the column a, b, a, c, a gives the single row (3 unique, "a", frequency 3). |
| Core.RunAnalyzers | src/dataprof/core.py:51-282 | Running the five analyzer methods yields exactly the five specification reports. |
| Core.ProfileTwice | src/dataprof/core.py:51-282 | The analyzers only read the frame, so running them twice gives identical results. |
| Text.EndsWith | src/dataprof/loader.py:20-26 | `str.endswith`: the suffix is the tail of the string. Its use in the dispatch is stated by Loader.ChooseReaderIff and Loader.SuffixesExclusive. |
| Loader.UnsupportedMessage | src/dataprof/loader.py:29-31 | The `ValueError` message: the fixed text with the path in it. Loader.ChooseReaderRejects states that it contains the path. |
| Loader.ChooseReader | src/dataprof/loader.py:20-31 | A chosen format's suffix ends the path. A rejection is a `ValueError`. Stated in full by Loader.ChooseReaderIff and Loader.ChooseReaderRejects. |
| Loader.LoadFile | src/dataprof/loader.py:13-36 | The load succeeds exactly when a reader is chosen. The frame is that reader's result on the path. The log is stated by Loader.VerboseOnlyLogs. |
| Loader.EndsWithLastChar | src/dataprof/loader.py:20-26 | A path ending with a format's suffix ends with that suffix's last character. |
| Loader.SuffixesExclusive | src/dataprof/loader.py:20-26 | No path ends with two of the four suffixes, so at most one branch of the chain applies. |
| Loader.ChooseReaderIff | src/dataprof/loader.py:20-27 | A format's reader is chosen exactly when the path ends with that format's suffix. |
| Loader.ChooseReaderOfSuffix | src/dataprof/loader.py:20-27 | Any stem followed by a supported suffix selects that format. |
| Loader.ChooseReaderRejects | src/dataprof/loader.py:28-31 | The load fails exactly when no suffix matches, with a `ValueError` whose message contains the path. |
| Loader.ChooseReaderByLastChar | src/dataprof/loader.py:20-31 | An empty path, or one not ending in v, t, n or c, is rejected. |
| Loader.ChooseReaderExamples | src/dataprof/loader.py:20-31 | "data.csv" is CSV and "data.parquet" is Parquet. "data.CSV" and "data.csv.gz" are rejected, because the match is case-sensitive and on the final suffix. |
| Loader.VerboseOnlyLogs | src/dataprof/loader.py:33-36 | The verbose flag changes neither success nor the frame nor the format. It only adds the "Loaded <path>" line. |
| Orchestrator.Guarded | src/dataprof/main.py:77-103 | An analyzer runs exactly when it is in the pipeline and either `run_all` holds or its own flag is set. |
| Orchestrator.RunAll | src/dataprof/main.py:65-75 | `not any(...)` over the seven flags. Stated by Orchestrator.RunAllIff. |
| Orchestrator.Selected | src/dataprof/main.py:77-103 | At most the seven analyzers of the pipeline. Stated in full by Orchestrator.SelectedIff. |
| Orchestrator.GuardedKeepsOrder | src/dataprof/main.py:77-103 | The analyzers that run keep the fixed pipeline order. |
| Orchestrator.OrderedSingleton | src/dataprof/main.py:77-103 | An ordered pipeline whose entries are all one analyzer is that analyzer alone. |
| Orchestrator.GuardedAll | src/dataprof/main.py:65-103 | Under `run_all` every analyzer runs. |
| Orchestrator.RunAllIff | src/dataprof/main.py:65-75 | `run_all` holds exactly when none of the seven flags is set. |
| Orchestrator.SelectedIff | src/dataprof/main.py:65-103 | An analyzer is selected exactly when `run_all` holds or its flag is set, and the selection is in pipeline order. |
| Orchestrator.SelectedExamples | src/dataprof/main.py:65-103 | No flags select the whole pipeline. Exactly one flag selects only that analyzer. |
| Orchestrator.Analyze | src/dataprof/main.py:77-103 | The core function each guarded call runs on the loaded frame, with the null threshold passed to the null analyzer; duplicates and outliers are only invoked. Stated by Orchestrator.RunSelectedShape and Orchestrator.MainNullThreshold. |
| Orchestrator.RunSelected | src/dataprof/main.py:77-103 | One event per analyzer run, never more than the selection, and at least one when something is selected. Stated in full by Orchestrator.RunSelectedShape and Orchestrator.RunsOfRunSelected. |
| Orchestrator.RunSelectedShape | src/dataprof/main.py:77-103 | Each event is the outcome of the analyzer at that position of the selection, and every event but the last is a success. A run shorter than the selection ends with a raised fault. |
| Orchestrator.RunsOfRunSelected | src/dataprof/main.py:77-103 | The analyzers that ran are a prefix of the selection, and all of it when nothing raised. |
| Orchestrator.LoadEvents | src/dataprof/loader.py:20-36 | Loading records the chosen reader, then the loader's log lines one event each, in order. |
| Orchestrator.RunsAppend | src/dataprof/main.py:77-103 | The analyzers run in a concatenated trace are those of each part, in order. |
| Orchestrator.RunsNone | src/dataprof/main.py:60-62 | A trace without analyzer events records no runs. |
| Orchestrator.Main | src/dataprof/main.py:45-103 | The run starts with the start message and has at least one more event. Stated in full by Orchestrator.MainOrder, Orchestrator.MainSplits, Orchestrator.MainRunsSelected and Orchestrator.MainNullThreshold. |
| Orchestrator.MainOfLoaded | src/dataprof/main.py:60-103 | When the load yields a frame, the run is the start message, the load events, then the guarded analyzers on that frame. |
| Orchestrator.MainSplits | src/dataprof/main.py:60-103 | A run that loads is the start message, then the load events, then the analyzers. |
| Orchestrator.MainOrder | src/dataprof/main.py:60-103 | The start message comes first and only once. An unsupported suffix makes the run exactly the start and the raised `ValueError`. Otherwise the chosen reader comes second, only once, and no analyzer runs before it. |
| Orchestrator.MainRunsSelected | src/dataprof/main.py:60-103 | The analyzers run are a prefix of those selected, and exactly those selected when the load succeeds and nothing raises. |
| Orchestrator.MainNullThreshold | src/dataprof/main.py:81-83 | Whenever the null analyzer runs, its output is the null report of the loaded frame at the `--null_threshold` value. |
| Orchestrator.CommandArgs | src/dataprof/main.py:20-56 | The parsed arguments carry the input, verbose flag and analyzer flags as given. `--null_threshold` is the given value, or 10 when it is absent. |
| Orchestrator.DefaultNullThresholdUsed | src/dataprof/main.py:23 | Without `--null_threshold`, the null analyzer reports at threshold 10. |

## Left out

- Rich rendering: table titles, colours, box styles, the `:.2f` and `%` formatting of cells, and the console messages (including `start_message`, `src/dataprof/core.py:118-132`). Rows are kept as values. The start message is kept as an event carrying the verbose flag.
- The mean column of `compute_summary_stats` (`src/dataprof/core.py:181`), a floating-point average. Only maximum and minimum are modelled.
- Core.NullReport: the percentage is an exact rational and the red flag is decided exactly. Python's float division can differ at the boundary: 7 nulls in 100 rows at threshold 7 computes 7.000000000000001 and is flagged red, where the model says green.
- NaN and infinities in numeric columns: numbers are exact reals.
- Polars data types: every dtype is collapsed to numeric, string/categorical or other. The schema rows carry that kind, not the dtype's printed name.
- The Polars readers (`read_csv` with schema inference, `read_parquet`, `read_json`, `read_ipc`) and their failures: reading is a function parameter of the loader.
- Click argument parsing beyond the threshold default: the arguments arrive already parsed. `--null_threshold` is an integer, as Click infers from its default.
- `detect_duplicates` and `detect_outliers`: `src/dataprof/main.py:12-13` imports them, but `src/dataprof/core.py` does not define them. Only their invocation is modelled, and what they compute is not part of this model.
- Orchestrator.Analyze: assumes that `detect_duplicates` and `detect_outliers` exist and return normally. As written, importing `dataprof.main` fails with `ImportError` because `src/dataprof/core.py` lacks both names, so `main` never runs. The model describes `main` as if the import succeeded, and it cannot express either call raising.
- The "Estimated Size" row expected by `tests/test_core.py:53-56`: the code does not produce it.
- The `dq_check` package and `src/__init__.py` are not part of this model.
- Core.CategoricalReport: a string column named "count" is not treated specially. Polars' `value_counts` names its count field "count", so for such a column the fields collide and Polars raises a duplicate-column error, which is not a `ValueError`. The model instead gives that column an ordinary row. Core.CategoricalFailsIff's "exactly when" therefore describes only frames without a string column of that name.
- Frames.Mode: Polars does not specify the order of equally frequent values after the sort. The model takes the value whose first occurrence comes first, so where the source may show any of the tied values the model commits to one.
