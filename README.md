# ping-analysis ingestion core, in Dafny

`ping-analysis.py` reads one or more Windows `ping` logs, where every echo
reply is a line such as

    17.10.2026 21:00:35 Reply from 10.0.0.1: bytes=32 time=14ms TTL=57

It turns each file into a latency column and plots the columns against
elapsed time. This project models the part that turns the raw lines into the
table:

- **Trimming** (`extract_pings`): the lines from the first line containing
  `Reply from` to the last one, or the `IndexError` the script raises when no
  line contains it. The `dropwhile` and the backward popping loop are
  modelled as written, and the trailing slice deletion is shown to remove
  nothing.
- **Record fields**: `get_datetime` reads the first 19 characters as
  `DD.MM.YYYY HH:MM:SS` and returns a count of seconds on the proleptic
  Gregorian calendar, so that `datetime` subtraction becomes integer
  subtraction. `get_latency` reads the greedy digit run after the first
  `time=`. Each failure is the Python exception the script lets escape:
  `AttributeError` when `re.search` finds nothing, and `ValueError` for
  `int("")`, for a digit run longer than `int()` accepts, or for a rejected
  timestamp.
- **Series and table** (`files_to_dataframe`): the per-file loop builds the
  latency list under the file's base name and the elapsed-time list. The
  index becomes the times of the first file with strictly the most lines. The
  DataFrame then pairs row `j` of every column with `index[j]` by position
  and pads shorter columns with missing values. A column keyed `index` is
  replaced by the index, as `data["index"] = index` does.
- **Statistics** (`describe`): per column, `count`, `min`, `max` and the
  label that `last_valid_index` returns, with missing values skipped.

Modules, one per file: `Errors` (exceptions, `Option`, `Result`, the list
comprehension), `Text` (substring search, digit runs, decimal formatting),
`Trimming`, `Timestamps`, `Latency`, `Ingestion` and `Statistics`.

Two behaviours of the script matter when reading the table:

- The script has no path that skips a file without reply lines: once every
  earlier file has ingested, such a file makes the whole run raise
  `IndexError` (`Ingestion.NoReplyFileAborts`).
- Columns are aligned by position against the longest file's elapsed times,
  so a shorter file's `j`-th latency is labelled with the longest file's
  `j`-th elapsed time, not its own (`Ingestion.DataFrameRows`).

## Model

| member | source | states |
|---|---|---|
| `Trimming.LeadingNonReplies` | ping-analysis.py:90 | `dropwhile` skips exactly the non-reply lines in front of the first reply line |
| `Trimming.Trim` | ping-analysis.py:88-100 | the result fails with IndexError exactly when no line contains "Reply from"; otherwise it is non-empty and its first and last lines are reply lines |
| `Trimming.PopTrailing` | ping-analysis.py:93-97 | the popping loop leaves the prefix up to the last reply line, pops only non-reply lines, and fails on `pings[-1]` only when the list is empty |
| `Trimming.ExtractPings` | ping-analysis.py:88-100 | `extract_pings` as written (dropwhile, popping loop, no-op slice deletion) returns exactly `Trim` of its input |
| `Trimming.DeleteTailSlice` | ping-analysis.py:98-99 | `s[-k:(k and None)] = []` leaves a prefix of `s`: all of it for `k == 0`, the last `k` lines removed for `k > 0` |
| `Trimming.TrimOfSpan` | ping-analysis.py:88-100 | any span that starts and ends with a reply line, with no reply line outside it, is what trimming returns |
| `Trimming.TrimIsSpan` | ping-analysis.py:88-100 | the result is one contiguous slice of the input with no reply line before or after it, so interior lines keep their order |
| `Trimming.TrimIdempotent` | ping-analysis.py:88-100 | trimming an already trimmed list returns it unchanged |
| `Trimming.TrimKeepsReplies` | ping-analysis.py:90-97 | every reply line of the input is kept, in order |
| `Text.ContainsIff` | ping-analysis.py:90 | Python's `in` on strings holds exactly when the pattern occurs at some position |
| `Text.DigitRun` | ping-analysis.py:106 | `(\d*)` takes the longest all-digit prefix: the next character, if any, is not a digit |
| `Latency.GetLatency` | ping-analysis.py:105-106 | AttributeError is raised exactly when the line has no `time=` |
| `Latency.GetLatencySpec` | ping-analysis.py:105-106 | with the first `time=` at `p` and the digit run after it ending at `e`, reading returns the value of that run, and raises ValueError when the run is empty or has more than 4300 digits |
| `Latency.GetLatencyRoundTrip` | ping-analysis.py:105-106 | a line `prefix time=<n> rest` reads back as `n`, provided `prefix` holds no `time=`, `rest` does not start with a digit, and `n` has at most 4300 digits |
| `Latency.GetLatencyTooManyDigits` | ping-analysis.py:106 | a digit run of more than 4300 digits after the first `time=` raises ValueError, as `int()` does under its default digit limit |
| `Latency.GetLatencyNoDigits` | ping-analysis.py:106 | a first `time=` followed by no digit raises ValueError, as `int("")` does |
| `Timestamps.GetDatetime` | ping-analysis.py:102-103 | every failure is ValueError, and a line shorter than 19 characters fails |
| `Timestamps.GetDatetimeSpec` | ping-analysis.py:102-103 | reading succeeds exactly when the first 19 characters are the layout of a valid date-time (month 1-12, leap-aware day, hour < 24, minute and second < 60), and then returns its seconds |
| `Timestamps.GetDatetimeRoundTrip` | ping-analysis.py:102-103 | formatting a valid date-time as `DD.MM.YYYY HH:MM:SS` and reading it back gives its seconds |
| `Timestamps.FormatOfParsed` | ping-analysis.py:103 | every text the layout reader accepts is the formatting of what it read |
| `Timestamps.GetDatetimeReadsPrefix` | ping-analysis.py:103 | only the first 19 characters of a line matter |
| `Timestamps.SecondsOrder` | ping-analysis.py:77 | the second count orders date-times as the calendar does, and equal counts mean equal date-times |
| `Timestamps.SecondsTick` | ping-analysis.py:77 | one second later on the clock and calendar, with carries through leap days and year ends, is one more second |
| `Errors.MapAll` | ping-analysis.py:76-77 | a list comprehension succeeds exactly when every element does, keeps length and order, and otherwise raises the first element's exception |
| `Ingestion.IngestFile` | ping-analysis.py:74-77 | a file that ingests has a reply line and one elapsed time per trimmed line |
| `Ingestion.IngestFileOkIff` | ping-analysis.py:74-77 | a file ingests exactly when it has a reply line and every trimmed line has a readable timestamp and latency |
| `Ingestion.SeriesAnchored` | ping-analysis.py:75-77 | both lists have one entry per trimmed line; `times[0] == 0` and `times[k]` is line `k`'s seconds minus line 0's |
| `Ingestion.TimesMonotoneIff` | ping-analysis.py:75-77 | the elapsed times never decrease exactly when the file's timestamps never decrease |
| `Ingestion.NoReplyFileAborts` | ping-analysis.py:72-75 | a file without reply lines, after files that all ingest, makes the whole run raise IndexError |
| `Ingestion.Fold` | ping-analysis.py:72-79 | after the loop, no stored column is longer than the index |
| `Ingestion.FoldOkIff` | ping-analysis.py:72-79 | the loop completes exactly when every file ingests; otherwise it raises the first failing file's exception |
| `Ingestion.IndexOfFirstLongest` | ping-analysis.py:78-79 | the index is the times list of the earliest file with the most lines; ties keep the earlier file; no files give an empty index |
| `Ingestion.ColumnKeys` | ping-analysis.py:76 | a column is stored exactly for the files' base names |
| `Ingestion.ColumnOfLastFile` | ping-analysis.py:76 | a base name's column holds the latencies of the last file with that name |
| `Ingestion.ToDataFrame` | ping-analysis.py:82-85 | the row labels are the index; the columns are the stored keys less "index", each as long as the index, row `j` holding the `j`-th latency or missing past the column's end |
| `Ingestion.DataFrameOf` | ping-analysis.py:68-86 | a returned table has every column as long as its index and no column named "index" |
| `Ingestion.TableColumn` | ping-analysis.py:82-85 | every table column is as long as the index, none is named "index", and row `j` holds the `j`-th latency or is missing past the column's end |
| `Ingestion.FilesToDataFrame` | ping-analysis.py:68-86 | the loop as written returns the table `DataFrameOf` describes, or the same exception |
| `Ingestion.DataFrameRows` | ping-analysis.py:82-85 | in the returned table, row `j` of the last file with a given base name holds that file's `j`-th latency, or missing when the file has fewer lines |
| `Ingestion.DataFrameColumns` | ping-analysis.py:76-85 | the columns are exactly the files' base names, less "index" |
| `Statistics.Count` | ping-analysis.py:116 | the count is 0 exactly when every entry is missing, and the column length exactly when none is |
| `Statistics.CountIsPresent` | ping-analysis.py:116 | the count is the number of positions holding a value |
| `Statistics.MinPresent` | ping-analysis.py:121 | the minimum is a present value no greater than any present value, and missing exactly when none is present |
| `Statistics.MaxPresent` | ping-analysis.py:122 | the maximum is a present value no less than any present value, and missing exactly when none is present |
| `Statistics.LastValid` | ping-analysis.py:117 | the position found holds a value and every later position is missing; none is found only when all are missing |
| `Statistics.ColumnOrder` | ping-analysis.py:110 | the listed column names are exactly the table's columns |
| `Statistics.Describe` | ping-analysis.py:108-128 | KeyError exactly when a requested column is absent; otherwise one summary per requested (or every) column, each equal to that column's count, min, max and last-valid label |
| `Statistics.SummaryOfFileColumn` | ping-analysis.py:116-122 | a file's padded column counts exactly its latencies, its min and max range over them, and its `△ t` label is the index entry at the file's last line |

## Left out

- Argument parsing, opening and reading files, and the save/show loop of `main`. Each file enters the model as its base name and its content already split on `"\n"`.
- `os.path.basename`: the column key is taken as given, because its result depends on the platform.
- Plotting (`plot_latencies`, `create_plot`, `create_table`) and `time_ticks`: these only render the table.
- The moving average (`ewm`) and `mean`, `median`, `std` and the quantiles of `describe`: these are pandas floating-point numerics.
- The text rendering in `describe`: the `str(...).split()[-1]` of `△ t` and the `" ms"` suffixes. The model keeps the underlying values, with `None` where pandas prints NaN or `None`.
- Timestamps.GetDatetime: accepts only the strict fixed-width layout with ASCII digits. `strptime` also accepts one-digit fields, any run of whitespace for the space, and non-ASCII decimal digits; such lines are rejected here.
- Latency.GetLatency: reads ASCII digits only, while Python's `\d` and `int` also accept other Unicode decimal digits.
- Latency.GetLatency: the limit on the digits `int()` converts is fixed at CPython's default of 4300. A limit changed with `sys.set_int_max_str_digits` or `PYTHONINTMAXSTRDIGITS`, and Python releases older than 3.9.14 and 3.10.7 that have no limit, are not modelled.
- Timestamps: an elapsed time is a whole number of seconds; `timedelta` objects are not modelled, because the layout has no sub-second field.
- Statistics.Describe: the column order of the result is not modelled, because pandas takes it from dictionary insertion order and the model keys summaries by column name. The `include` argument is modelled as "all" or a list of names.
- Ingestion.ToDataFrame: the columns are a map, so their order in the returned table (the insertion order of `data`) is not modelled; nor is the dtype pandas gives the padded columns.
