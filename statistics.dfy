/** The integer-valued entries of `describe`: per column, the number of
    present values, their minimum and maximum, and the index label of the
    last present value (`last_valid_index`). A missing value is `None`, as
    pandas skips NaN. */
module Statistics {
  import opened Errors
  import opened Ingestion

  /** One column's entries: `count`, `min`, `max` and the label behind `△ t`. */
  datatype Summary = Summary(count: nat, min: Option<nat>, max: Option<nat>, lastValid: Option<int>)

  /** `df[col].count()`: how many entries are present. */
  function Count(col: seq<Option<nat>>): (n: nat)
    ensures n <= |col|
    ensures n == 0 <==> forall j :: 0 <= j < |col| ==> col[j].None?
    ensures n == |col| <==> forall j :: 0 <= j < |col| ==> col[j].Some?
  {
    if col == [] then 0
    else Count(col[..|col| - 1]) + (if col[|col| - 1].Some? then 1 else 0)
  }

  /** The positions of the present entries. */
  ghost function Present(col: seq<Option<nat>>): set<nat>
  {
    set j: nat | j < |col| && col[j].Some?
  }

  /** The count is the number of positions holding a value. */
  lemma {:induction false} CountIsPresent(col: seq<Option<nat>>)
    ensures Count(col) == |Present(col)|
  {
    if col != [] {
      var n := |col|;
      var init := col[..n - 1];
      CountIsPresent(init);
      if col[n - 1].Some? {
        assert Present(col) == Present(init) + {n - 1};
      } else {
        assert Present(col) == Present(init);
      }
    }
  }

  /** `df[col].min(skipna=True)`: the least present value, `None` (NaN) when none is. */
  function MinPresent(col: seq<Option<nat>>): (m: Option<nat>)
    ensures m.None? <==> forall j :: 0 <= j < |col| ==> col[j].None?
    ensures m.Some? ==>
      && (exists j :: 0 <= j < |col| && col[j] == m)
      && forall j :: 0 <= j < |col| && col[j].Some? ==> m.value <= col[j].value
  {
    if col == [] then None
    else
      var rest, x := MinPresent(col[..|col| - 1]), col[|col| - 1];
      if x.None? || (rest.Some? && rest.value <= x.value) then rest else x
  }

  /** `df[col].max(skipna=True)`: the greatest present value, `None` (NaN) when none is. */
  function MaxPresent(col: seq<Option<nat>>): (m: Option<nat>)
    ensures m.None? <==> forall j :: 0 <= j < |col| ==> col[j].None?
    ensures m.Some? ==>
      && (exists j :: 0 <= j < |col| && col[j] == m)
      && forall j :: 0 <= j < |col| && col[j].Some? ==> col[j].value <= m.value
  {
    if col == [] then None
    else
      var rest, x := MaxPresent(col[..|col| - 1]), col[|col| - 1];
      if x.None? || (rest.Some? && x.value <= rest.value) then rest else x
  }

  /** The position of the last present entry, `None` when there is none. */
  function LastValid(col: seq<Option<nat>>): (p: Option<nat>)
    ensures p.Some? ==> p.value < |col| && col[p.value].Some? && forall j :: p.value < j < |col| ==> col[j].None?
    ensures p.None? ==> forall j :: 0 <= j < |col| ==> col[j].None?
  {
    if col == [] then None
    else if col[|col| - 1].Some? then Some(|col| - 1)
    else LastValid(col[..|col| - 1])
  }

  /** The summary of column `col` of a table whose row labels are `index`;
      `last_valid_index` reports the label, not the position. */
  function Summarize(index: seq<int>, col: seq<Option<nat>>): Summary
    requires |col| == |index|
  {
    Summary(Count(col), MinPresent(col), MaxPresent(col),
            match LastValid(col) case None => None case Some(p) => Some(index[p]))
  }

  /** The labels of `keys` in some order: `list(df.columns.values)`. */
  method ColumnOrder(keys: set<string>) returns (cols: seq<string>)
    ensures forall c :: c in cols <==> c in keys
  {
    cols := [];
    var todo := keys;
    while todo != {}
      invariant forall c :: c in keys <==> c in cols || c in todo
      decreases |todo|
    {
      var c :| c in todo;
      cols := cols + [c];
      todo := todo - {c};
    }
  }

  /** `describe(df, include)`: `selection` stands for `include`, `None` for
      the default 'all', which describes every column, or the list of column
      names to describe; a name the table lacks makes `df[col]` raise KeyError. */
  method Describe(df: DataFrame, selection: Option<seq<string>>) returns (r: Result<map<string, Summary>>)
    requires WellFormed(df)
    ensures r.Err? <==> selection.Some? && exists c :: c in selection.value && c !in df.columns
    ensures r.Err? ==> r.error == KeyError
    ensures r.Ok? && selection.None? ==> r.value.Keys == df.columns.Keys
    ensures r.Ok? && selection.Some? ==> forall c :: c in r.value <==> c in selection.value
    ensures r.Ok? ==> forall c :: c in r.value ==> c in df.columns && r.value[c] == Summarize(df.index, df.columns[c])
  {
    var cols: seq<string>;
    if selection.None? {
      cols := ColumnOrder(df.columns.Keys);
    } else {
      cols := selection.value;
    }
    var desc: map<string, Summary> := map[];
    for i := 0 to |cols|
      invariant forall c :: c in cols[..i] ==> c in df.columns
      invariant forall c :: c in desc <==> c in cols[..i]
      invariant forall c :: c in desc ==> c in df.columns && desc[c] == Summarize(df.index, df.columns[c])
    {
      var col := cols[i];
      if col !in df.columns {
        return Err(KeyError);
      }
      assert cols[..i + 1] == cols[..i] + [col];
      desc := desc[col := Summarize(df.index, df.columns[col])];
    }
    assert cols[..|cols|] == cols;
    r := Ok(desc);
  }

  /** Counting a padded column counts the values it was padded from. */
  lemma {:induction false} CountOfPadded(latencies: seq<nat>, rows: nat)
    ensures Count(Pad(latencies, rows)) == if |latencies| <= rows then |latencies| else rows
  {
    if rows > 0 {
      CountOfPadded(latencies, rows - 1);
      assert Pad(latencies, rows)[..rows - 1] == Pad(latencies, rows - 1);
    }
  }

  /** The summary of a file's column in the table: it counts exactly the
      file's latencies, ranges over them, and its `△ t` is the index label at
      the file's last line, which is that line's elapsed time only when the
      file is one of the longest. */
  lemma SummaryOfFileColumn(index: seq<int>, latencies: seq<nat>)
    requires 0 < |latencies| <= |index|
    ensures var s := Summarize(index, Pad(latencies, |index|));
      && s.count == |latencies|
      && s.lastValid == Some(index[|latencies| - 1])
      && s.min.Some? && s.max.Some?
      && (exists j :: 0 <= j < |latencies| && latencies[j] == s.min.value)
      && (exists j :: 0 <= j < |latencies| && latencies[j] == s.max.value)
      && forall j :: 0 <= j < |latencies| ==> s.min.value <= latencies[j] <= s.max.value
  {
    CountOfPadded(latencies, |index|);
    var col := Pad(latencies, |index|);
    assert col[|latencies| - 1] == Some(latencies[|latencies| - 1]);
    assert forall j :: 0 <= j < |latencies| ==> col[j] == Some(latencies[j]);
  }
}
