/** `files_to_dataframe`: each file's trimmed lines become a latency column
    keyed by the file's base name and a list of seconds since its first line;
    the elapsed times of the first longest file become the shared index, and
    every column is laid against that index by position. */
module Ingestion {
  import opened Errors
  import opened Trimming
  import opened Timestamps
  import opened Latency

  /** One input file as the core receives it: `basename(file.name)` and the
      file's content split on "\n". */
  datatype LogFile = LogFile(key: string, lines: seq<string>)

  /** The two lists the loop body builds for one file: its latencies and,
      line by line, the seconds elapsed since its first line. */
  datatype FileColumns = FileColumns(latencies: seq<nat>, times: seq<int>)

  /** Both lists are built from the same trimmed lines, so they are equally long. */
  type Series = s: FileColumns | |s.latencies| == |s.times| witness FileColumns([], [])

  /** The dictionary `data` and the list `index` as the loop leaves them. */
  datatype Accum = Accum(data: map<string, seq<nat>>, index: seq<int>)

  /** The table `pd.DataFrame.from_dict(data, orient="index").transpose()
      .set_index("index")` builds: one row per index entry, one column per
      key, `None` for a missing value. */
  datatype DataFrame = DataFrame(index: seq<int>, columns: map<string, seq<Option<nat>>>)

  /** The key under which the index is stored in `data` before `set_index`. */
  const INDEX_KEY: string := "index"

  /** `get_datetime(ln) - t0`. */
  function ElapsedSince(t0: int, line: string): Result<int>
  {
    match GetDatetime(line)
    case Err(e) => Err(e)
    case Ok(t) => Ok(t - t0)
  }

  /** The lambda-free form of `lambda ln: get_datetime(ln) - t0`. */
  function ElapsedFrom(t0: int): string -> Result<int>
  {
    line => ElapsedSince(t0, line)
  }

  /** One pass of the loop body over a file's lines, in the order the script
      evaluates it: trim, read `t0`, the latency list, then the times list. */
  function IngestFile(lines: seq<string>): (r: Result<Series>)
    ensures r.Ok? ==> Trim(lines).Ok? && |r.value.times| == |Trim(lines).value|
  {
    match Trim(lines)
    case Err(e) => Err(e)
    case Ok(pings) =>
      match GetDatetime(pings[0])
      case Err(e) => Err(e)
      case Ok(t0) =>
        match MapAll(pings, GetLatency)
        case Err(e) => Err(e)
        case Ok(latencies) =>
          match MapAll(pings, ElapsedFrom(t0))
          case Err(e) => Err(e)
          case Ok(times) => Ok(FileColumns(latencies, times))
  }

  /** What the loop body makes of one file: its column key, and its series
      or the exception it raises. */
  datatype Ingested = Ingested(key: string, outcome: Result<Series>)

  function Ingest(file: LogFile): Ingested
  {
    Ingested(file.key, IngestFile(file.lines))
  }

  /** The per-file outcomes, in the order the loop visits the files. */
  function Outcomes(files: seq<LogFile>): (runs: seq<Ingested>)
    ensures |runs| == |files|
    ensures forall i :: 0 <= i < |files| ==> runs[i].key == files[i].key
  {
    if files == [] then [] else Outcomes(files[..|files| - 1]) + [Ingest(files[|files| - 1])]
  }

  /** The series of a file that ingests, and an empty one for a file that raises. */
  function SeriesOf(run: Ingested): Series
  {
    match run.outcome
    case Ok(s) => s
    case Err(_) => FileColumns([], [])
  }

  /** Storing a file's column under its key, and taking its times as the index
      when it has strictly more lines than the index so far. */
  function Step(acc: Accum, run: Ingested): Result<Accum>
  {
    match run.outcome
    case Err(e) => Err(e)
    case Ok(s) =>
      Ok(Accum(acc.data[run.key := s.latencies], if |s.times| > |acc.index| then s.times else acc.index))
  }

  /** The state after the loop has run over files with outcomes `runs`, or
      the first exception. */
  function Fold(runs: seq<Ingested>): (r: Result<Accum>)
    ensures r.Ok? ==> forall key :: key in r.value.data ==> |r.value.data[key]| <= |r.value.index|
  {
    if runs == [] then Ok(Accum(map[], []))
    else
      match Fold(runs[..|runs| - 1])
      case Err(e) => Err(e)
      case Ok(acc) => Step(acc, runs[|runs| - 1])
  }

  /** Row `j` of a column: the `j`-th latency, or missing past the column's end. */
  function Pad(latencies: seq<nat>, rows: nat): (col: seq<Option<nat>>)
    ensures |col| == rows
    ensures forall j :: 0 <= j < rows ==> col[j] == (if j < |latencies| then Some(latencies[j]) else None)
  {
    seq(rows, j requires 0 <= j < rows => if j < |latencies| then Some(latencies[j]) else None)
  }

  /** Every column has one entry per index row. */
  predicate WellFormed(df: DataFrame)
  {
    forall key :: key in df.columns ==> |df.columns[key]| == |df.index|
  }

  /** `data["index"] = index` and the DataFrame built from `data`: the index
      entry replaces any column keyed "index" and then becomes the row labels. */
  function ToDataFrame(acc: Accum): (df: DataFrame)
    ensures df.index == acc.index && WellFormed(df)
    ensures df.columns.Keys == acc.data.Keys - {INDEX_KEY}
    ensures forall key, j :: key in df.columns && 0 <= j < |df.index| ==>
      df.columns[key][j] == if j < |acc.data[key]| then Some(acc.data[key][j]) else None
  {
    DataFrame(acc.index, map key | key in acc.data && key != INDEX_KEY :: Pad(acc.data[key], |acc.index|))
  }

  /** What `files_to_dataframe` returns, or the exception it raises. */
  function DataFrameOf(files: seq<LogFile>): (r: Result<DataFrame>)
    ensures r.Ok? ==> WellFormed(r.value) && INDEX_KEY !in r.value.columns
  {
    match Fold(Outcomes(files))
    case Err(e) => Err(e)
    case Ok(acc) => Ok(ToDataFrame(acc))
  }

  // ----- the loop -----

  /** The outcomes of one more file. */
  lemma OutcomesSnoc(files: seq<LogFile>, f: nat)
    requires f < |files|
    ensures Outcomes(files[..f + 1]) == Outcomes(files[..f]) + [Ingest(files[f])]
  {
    assert files[..f + 1][..f] == files[..f];
  }

  /** One more turn of the loop. */
  lemma FoldSnoc(runs: seq<Ingested>, run: Ingested)
    ensures Fold(runs + [run]) == match Fold(runs) case Err(e) => Err(e) case Ok(acc) => Step(acc, run)
  {
    assert (runs + [run])[..|runs|] == runs;
  }

  lemma {:induction false} ErrorPersists(files: seq<LogFile>, f: nat, e: PyError)
    requires f <= |files| && Fold(Outcomes(files[..f])) == Err(e)
    ensures Fold(Outcomes(files)) == Err(e)
    decreases |files| - f
  {
    if f < |files| {
      OutcomesSnoc(files, f);
      FoldSnoc(Outcomes(files[..f]), Ingest(files[f]));
      ErrorPersists(files, f + 1, e);
    } else {
      assert files[..f] == files;
    }
  }

  method FilesToDataFrame(files: seq<LogFile>) returns (r: Result<DataFrame>)
    ensures r == DataFrameOf(files)
  {
    var data: map<string, seq<nat>> := map[];
    var index: seq<int> := [];
    for f := 0 to |files|
      invariant Fold(Outcomes(files[..f])) == Ok(Accum(data, index))
    {
      var file := files[f];
      OutcomesSnoc(files, f);
      FoldSnoc(Outcomes(files[..f]), Ingest(file));
      var pings := ExtractPings(file.lines);
      if pings.Err? {
        ErrorPersists(files, f + 1, pings.error);
        return Err(pings.error);
      }
      var t0 := GetDatetime(pings.value[0]);
      if t0.Err? {
        ErrorPersists(files, f + 1, t0.error);
        return Err(t0.error);
      }
      var latencies := MapAll(pings.value, GetLatency);
      if latencies.Err? {
        ErrorPersists(files, f + 1, latencies.error);
        return Err(latencies.error);
      }
      data := data[file.key := latencies.value];
      var times := MapAll(pings.value, ElapsedFrom(t0.value));
      if times.Err? {
        ErrorPersists(files, f + 1, times.error);
        return Err(times.error);
      }
      if |times.value| > |index| {
        index := times.value;
      }
    }
    assert files[..|files|] == files;
    r := Ok(ToDataFrame(Accum(data, index)));
  }

  // ----- one file -----

  /** A file ingests exactly when it has a reply line and every trimmed line
      carries both a readable timestamp and a readable latency; a malformed
      line anywhere in the trimmed span aborts it. */
  lemma IngestFileOkIff(lines: seq<string>)
    ensures IngestFile(lines).Ok? <==>
      && Trim(lines).Ok?
      && forall k :: 0 <= k < |Trim(lines).value| ==>
           GetDatetime(Trim(lines).value[k]).Ok? && GetLatency(Trim(lines).value[k]).Ok?
  {
    if Trim(lines).Ok? {
      var pings := Trim(lines).value;
      var t0 := GetDatetime(pings[0]);
      if t0.Ok? {
        ElapsedOkIff(pings, t0.value);
      }
    }
  }

  /** The times list is built exactly when every line's timestamp reads. */
  lemma ElapsedOkIff(pings: seq<string>, t0: int)
    ensures MapAll(pings, ElapsedFrom(t0)).Ok? <==> forall k :: 0 <= k < |pings| ==> GetDatetime(pings[k]).Ok?
    ensures MapAll(pings, ElapsedFrom(t0)).Ok? ==>
      forall k :: 0 <= k < |pings| ==> MapAll(pings, ElapsedFrom(t0)).value[k] == GetDatetime(pings[k]).value - t0
  {
    var elapsed := ElapsedFrom(t0);
    assert forall k :: 0 <= k < |pings| ==> elapsed(pings[k]) == ElapsedSince(t0, pings[k]);
  }

  /** The seconds of a line whose timestamp reads. */
  function Stamp(line: string): int
    requires GetDatetime(line).Ok?
  {
    GetDatetime(line).value
  }

  /** Both lists have one entry per trimmed line; the times are anchored at
      the first line, which is at 0, and count seconds from it. */
  lemma SeriesAnchored(lines: seq<string>)
    requires IngestFile(lines).Ok?
    ensures var s, pings := IngestFile(lines).value, Trim(lines).value;
      && |s.latencies| == |pings| && |s.times| == |pings| && |pings| >= 1
      && s.times[0] == 0
      && forall k :: 0 <= k < |pings| ==>
           && GetLatency(pings[k]) == Ok(s.latencies[k])
           && GetDatetime(pings[k]).Ok?
           && s.times[k] == Stamp(pings[k]) - Stamp(pings[0])
  {
    var pings := Trim(lines).value;
    ElapsedOkIff(pings, GetDatetime(pings[0]).value);
  }

  /** The elapsed times never decrease exactly when the file's timestamps
      never decrease. */
  lemma TimesMonotoneIff(lines: seq<string>)
    requires IngestFile(lines).Ok?
    ensures var s, pings := IngestFile(lines).value, Trim(lines).value;
      (forall j, k :: 0 <= j <= k < |s.times| ==> s.times[j] <= s.times[k])
      <==> (forall j, k :: 0 <= j <= k < |pings| ==>
              GetDatetime(pings[j]).Ok? && GetDatetime(pings[k]).Ok? && Stamp(pings[j]) <= Stamp(pings[k]))
  {
    SeriesAnchored(lines);
  }

  // ----- all files -----

  /** The run succeeds exactly when every file ingests; otherwise it raises
      the exception of the first file that does not. */
  lemma {:induction false} FoldOkIff(runs: seq<Ingested>)
    ensures Fold(runs).Ok? <==> forall i :: 0 <= i < |runs| ==> runs[i].outcome.Ok?
    ensures Fold(runs).Err? ==>
      exists i :: 0 <= i < |runs| && runs[i].outcome == Err(Fold(runs).error)
        && forall j :: 0 <= j < i ==> runs[j].outcome.Ok?
  {
    if runs != [] {
      var init := runs[..|runs| - 1];
      FoldOkIff(init);
      assert forall i :: 0 <= i < |init| ==> init[i] == runs[i];
    }
  }

  /** A file without any reply line aborts the whole run: the script has no
      skip-and-warn path, so once every earlier file has ingested,
      `pings[-1]` on the emptied list raises IndexError and no table is
      built, whatever the later files hold. */
  lemma NoReplyFileAborts(files: seq<LogFile>, i: int)
    requires 0 <= i < |files|
    requires forall k :: 0 <= k < i ==> IngestFile(files[k].lines).Ok?
    requires forall k :: 0 <= k < |files[i].lines| ==> !IsReply(files[i].lines[k])
    ensures DataFrameOf(files) == Err(IndexError)
  {
    var runs := Outcomes(files);
    forall k | 0 <= k <= i
      ensures runs[k] == Ingest(files[k])
    {
      OutcomesAt(files, k);
    }
    assert runs[i].outcome == Err(IndexError);
    FoldOkIff(runs);
    var j :| 0 <= j < |runs| && runs[j].outcome == Err(Fold(runs).error)
             && forall l :: 0 <= l < j ==> runs[l].outcome.Ok?;
    assert j == i;
  }

  /** A successful run over `runs` is a successful run over all but the last
      file followed by one `Step`. */
  lemma FoldLast(runs: seq<Ingested>)
    requires runs != [] && Fold(runs).Ok?
    ensures var init, last := runs[..|runs| - 1], runs[|runs| - 1];
      && Fold(init).Ok?
      && last.outcome == Ok(SeriesOf(last))
      && Fold(runs).value.data == Fold(init).value.data[last.key := SeriesOf(last).latencies]
      && Fold(runs).value.index ==
           if |SeriesOf(last).times| > |Fold(init).value.index| then SeriesOf(last).times else Fold(init).value.index
  {
  }

  /** File `i` has the most lines, and strictly more than every file before it. */
  ghost predicate IsFirstLongest(runs: seq<Ingested>, i: int)
  {
    && 0 <= i < |runs|
    && (forall j :: 0 <= j < i ==> |SeriesOf(runs[j]).times| < |SeriesOf(runs[i]).times|)
    && (forall j :: i < j < |runs| ==> |SeriesOf(runs[j]).times| <= |SeriesOf(runs[i]).times|)
  }

  /** The shared index is the times list of the first file with the most
      lines, `longest`; ties keep the earlier file. */
  lemma {:induction false} IndexOfFirstLongest(runs: seq<Ingested>) returns (longest: int)
    requires Fold(runs).Ok?
    ensures runs == [] ==> Fold(runs).value.index == []
    ensures runs != [] ==> IsFirstLongest(runs, longest) && Fold(runs).value.index == SeriesOf(runs[longest]).times
  {
    longest := 0;
    if runs != [] {
      var n := |runs|;
      var init := runs[..n - 1];
      FoldLast(runs);
      var index := Fold(init).value.index;
      var s := SeriesOf(runs[n - 1]);
      assert forall j :: 0 <= j < n - 1 ==> init[j] == runs[j];
      var i := IndexOfFirstLongest(init);
      if init == [] || |s.times| > |index| {
        longest := n - 1;
        assert IsFirstLongest(runs, longest);
      } else {
        longest := i;
        assert IsFirstLongest(runs, longest);
      }
    }
  }

  /** File `i` is the last file whose base name is `key`. */
  ghost predicate IsLastWithKey(runs: seq<Ingested>, i: int, key: string)
  {
    0 <= i < |runs| && runs[i].key == key && forall j :: i < j < |runs| ==> runs[j].key != key
  }

  /** A column exists exactly for the base names of the files. */
  lemma {:induction false} ColumnKeys(runs: seq<Ingested>, key: string)
    requires Fold(runs).Ok?
    ensures key in Fold(runs).value.data <==> exists i :: 0 <= i < |runs| && runs[i].key == key
  {
    if runs != [] {
      var n := |runs|;
      var init := runs[..n - 1];
      FoldLast(runs);
      ColumnKeys(init, key);
      if key in Fold(init).value.data {
        var i :| 0 <= i < |init| && init[i].key == key;
        assert runs[i].key == key;
      }
      if exists i :: 0 <= i < |runs| && runs[i].key == key {
        var i :| 0 <= i < |runs| && runs[i].key == key;
        if i < n - 1 {
          assert init[i].key == key;
        }
      }
    }
  }

  /** The column of a base name holds the latencies of the last file with
      that name: a later file overwrites an earlier one. */
  lemma {:induction false} ColumnOfLastFile(runs: seq<Ingested>, i: int, key: string)
    requires Fold(runs).Ok? && IsLastWithKey(runs, i, key)
    ensures key in Fold(runs).value.data && Fold(runs).value.data[key] == SeriesOf(runs[i]).latencies
  {
    var n := |runs|;
    var init := runs[..n - 1];
    FoldLast(runs);
    if i < n - 1 {
      assert IsLastWithKey(init, i, key) by {
        assert forall j :: 0 <= j < n - 1 ==> init[j] == runs[j];
      }
      ColumnOfLastFile(init, i, key);
    }
  }

  /** The outcome of file `i` is what the loop body makes of that file. */
  lemma OutcomesAt(files: seq<LogFile>, i: nat)
    requires i < |files|
    ensures Outcomes(files)[i] == Ingest(files[i])
    decreases |files|
  {
    if i < |files| - 1 {
      OutcomesAt(files[..|files| - 1], i);
    }
  }

  /** The table built from a successful run: every column as long as the
      index, no column named "index", and the column of the last file with a
      name holding that file's latencies row by row, padded with missing
      values; no latency is cut off. */
  lemma TableColumn(runs: seq<Ingested>, i: int, j: int)
    requires Fold(runs).Ok?
    requires 0 <= i < |runs| && IsLastWithKey(runs, i, runs[i].key) && runs[i].key != INDEX_KEY
    requires 0 <= j < |Fold(runs).value.index|
    ensures var df, latencies := ToDataFrame(Fold(runs).value), SeriesOf(runs[i]).latencies;
      && WellFormed(df)
      && INDEX_KEY !in df.columns
      && |latencies| <= |df.index|
      && runs[i].key in df.columns
      && df.columns[runs[i].key][j] == (if j < |latencies| then Some(latencies[j]) else None)
  {
    ColumnOfLastFile(runs, i, runs[i].key);
  }

  /** The table `files_to_dataframe` returns, stated on the files: row `j`
      of the column of the last file with a given base name holds that
      file's `j`-th latency, or is missing when the file has fewer lines. */
  lemma DataFrameRows(files: seq<LogFile>, i: int, j: int)
    requires DataFrameOf(files).Ok?
    requires 0 <= i < |files| && files[i].key != INDEX_KEY
    requires forall k :: i < k < |files| ==> files[k].key != files[i].key
    requires 0 <= j < |DataFrameOf(files).value.index|
    ensures IngestFile(files[i].lines).Ok?
    ensures var df, latencies := DataFrameOf(files).value, IngestFile(files[i].lines).value.latencies;
      && WellFormed(df)
      && files[i].key in df.columns
      && df.columns[files[i].key][j] == (if j < |latencies| then Some(latencies[j]) else None)
  {
    var runs := Outcomes(files);
    OutcomesAt(files, i);
    FoldOkIff(runs);
    assert IsLastWithKey(runs, i, files[i].key);
    TableColumn(runs, i, j);
  }

  /** The columns are exactly the files' base names, less "index". */
  lemma DataFrameColumns(files: seq<LogFile>)
    requires DataFrameOf(files).Ok?
    ensures DataFrameOf(files).value.columns.Keys == (set i | 0 <= i < |files| :: files[i].key) - {INDEX_KEY}
  {
    var runs := Outcomes(files);
    var acc := Fold(runs).value;
    var names := set i | 0 <= i < |files| :: files[i].key;
    forall key
      ensures key in acc.data <==> key in names
    {
      ColumnKeys(runs, key);
      if key in names {
        var i :| 0 <= i < |files| && files[i].key == key;
        assert runs[i].key == key;
      }
    }
    assert acc.data.Keys == names;
  }
}
