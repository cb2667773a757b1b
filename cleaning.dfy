/**
 * The cleaning stage (src/data/cleaning.py): dropping rows with missing
 * values, replacing negative numbers, and clipping to an inclusive date range.
 * The functions that return a new frame are functions on `Table`; the
 * `inplace=True` paths are methods on a `DataFrame`.
 */
module Cleaning {
  import opened Values
  import opened Frames

  /** The columns a call checks: the given list, or every column of the frame when none is given. */
  function CheckedColumns(t: Table, columns: Option<seq<string>>): seq<string> {
    if columns.None? then t.columns else columns.value
  }

  /** No checked column of the row holds a missing value. */
  predicate Complete(row: Row, cols: seq<string>) {
    forall c :: c in cols && c in row ==> row[c] != Missing
  }

  // ---------------------------------------------------------------------
  // drop_dataframe_nan_values
  // ---------------------------------------------------------------------

  /**
   * `drop_dataframe_nan_values(df, columns)` with `inplace=False`:
   * `df.dropna(subset=columns)`, every column when `columns` is None.
   */
  function DropNaNValues(t: Table, columns: Option<seq<string>>): (r: Result<Table>)
    requires WellFormed(t)
    ensures r.Err? <==> exists c :: c in CheckedColumns(t, columns) && c !in t.columns
    ensures r.Err? ==> r.error.KeyNotFound? && r.error.key in CheckedColumns(t, columns)
                       && r.error.key !in t.columns
    ensures r.Ok? ==> WellFormed(r.value) && r.value.columns == t.columns
    ensures r.Ok? ==> r.value.rows == KeptRows(t.rows, seq(|t.rows|, k requires 0 <= k < |t.rows| =>
                                                  Complete(t.rows[k], CheckedColumns(t, columns))))
    ensures r.Ok? ==> forall row :: row in r.value.rows ==> Complete(row, CheckedColumns(t, columns))
    ensures r.Ok? ==> forall k :: 0 <= k < |t.rows| && Complete(t.rows[k], CheckedColumns(t, columns)) ==>
                        t.rows[k] in r.value.rows
  {
    var cols := CheckedColumns(t, columns);
    match FirstAbsent(cols, t)
    case Some(c) => Err(KeyNotFound(c))
    case None =>
      var mask := seq(|t.rows|, k requires 0 <= k < |t.rows| => Complete(t.rows[k], cols));
      RowsOfSelect(t, mask);
      Ok(Select(t, mask))
  }

  /** When no columns are named, a kept row has no missing value anywhere. */
  lemma DropNaNAllColumns(t: Table)
    requires WellFormed(t)
    ensures DropNaNValues(t, None).Ok?
    ensures forall row, c :: row in DropNaNValues(t, None).value.rows && c in row ==> row[c] != Missing
  {
    var r := DropNaNValues(t, None).value;
    forall row, c | row in r.rows && c in row ensures row[c] != Missing {
      assert Complete(row, t.columns);
      assert c in ColumnSet(t.columns) by {
        var k :| 0 <= k < |r.rows| && r.rows[k] == row;
      }
    }
  }

  /** `drop_dataframe_nan_values(df, columns, inplace=True)`: the same rows, dropped from the caller's frame. */
  method DropNaNValuesInPlace(df: DataFrame, columns: Option<seq<string>>) returns (o: Outcome)
    requires df.Valid()
    modifies df
    ensures df.Valid()
    ensures DropNaNValues(old(df.Snapshot()), columns).Err? ==>
              o == Fail(DropNaNValues(old(df.Snapshot()), columns).error) && df.Snapshot() == old(df.Snapshot())
    ensures DropNaNValues(old(df.Snapshot()), columns).Ok? ==>
              o == Pass && df.Snapshot() == DropNaNValues(old(df.Snapshot()), columns).value
  {
    var result := DropNaNValues(df.Snapshot(), columns);
    if result.Err? {
      return Fail(result.error);
    }
    df.Update(result.value);
    return Pass;
  }

  // ---------------------------------------------------------------------
  // replace_negative_values
  // ---------------------------------------------------------------------

  /** `replacement_value if x < 0 else x`; a missing value (NaN) compares false and stays. */
  function ClampNegative(v: Value, replacement: Value): Value {
    if v.Num? && v.x < 0.0 then replacement else v
  }

  function ClampedColumn(t: Table, c: string, replacement: Value): (vals: seq<Value>)
    requires WellFormed(t) && c in t.columns
    ensures |vals| == |t.rows|
  {
    seq(|t.rows|, k requires 0 <= k < |t.rows| => ClampNegative(t.rows[k][c], replacement))
  }

  /**
   * One turn of the loop: `df[c] = df[c].apply(...)` when `c` is a column;
   * a string cell makes `x < 0` raise TypeError.
   */
  function ReplaceInColumn(t: Table, c: string, replacement: Value): (r: Result<Table>)
    requires WellFormed(t)
    ensures r.Err? <==> c in t.columns && HasText(t, c)
    ensures r.Ok? ==> WellFormed(r.value) && r.value.columns == t.columns
                      && r.value.index == t.index && |r.value.rows| == |t.rows|
  {
    if c !in t.columns then Ok(t)
    else if HasText(t, c) then Err(TypeMismatch)
    else Ok(SetColumn(t, c, ClampedColumn(t, c, replacement)))
  }

  /**
   * The loop over `columns`, column by column: the frame it leaves behind and
   * whether it raised. An exception leaves the columns before it replaced.
   */
  function ReplaceRun(t: Table, cols: seq<string>, replacement: Value): (r: (Table, Outcome))
    requires WellFormed(t)
    ensures WellFormed(r.0) && r.0.columns == t.columns && r.0.index == t.index && |r.0.rows| == |t.rows|
    decreases |cols|
  {
    if cols == [] then (t, Pass)
    else
      match ReplaceInColumn(t, cols[0], replacement)
      case Err(e) => (t, Fail(e))
      case Ok(next) => ReplaceRun(next, cols[1..], replacement)
  }

  /** One turn of `ReplaceRun`, unfolded. */
  lemma ReplaceRunUnfold(t: Table, cols: seq<string>, replacement: Value)
    requires WellFormed(t) && cols != []
    ensures cols[0] !in t.columns ==> ReplaceRun(t, cols, replacement) == ReplaceRun(t, cols[1..], replacement)
    ensures cols[0] in t.columns && HasText(t, cols[0]) ==> ReplaceRun(t, cols, replacement) == (t, Fail(TypeMismatch))
    ensures cols[0] in t.columns && !HasText(t, cols[0]) ==>
              ReplaceRun(t, cols, replacement)
              == ReplaceRun(SetColumn(t, cols[0], ClampedColumn(t, cols[0], replacement)), cols[1..], replacement)
  {
  }

  function RunResult(run: (Table, Outcome)): Result<Table> {
    if run.1.Pass? then Ok(run.0) else Err(run.1.error)
  }

  /**
   * `replace_negative_values(df, columns, replacement_value)` with
   * `inplace=False`: the loop runs on a copy, so the caller's frame is never
   * touched (`t` is a value).
   */
  method ReplaceNegativeValues(t: Table, columns: Option<seq<string>>, replacement: Value)
    returns (r: Result<Table>)
    requires WellFormed(t)
    ensures r == RunResult(ReplaceRun(t, CheckedColumns(t, columns), replacement))
  {
    var cols := CheckedColumns(t, columns);
    var df := t;
    var i := 0;
    while i < |cols|
      invariant 0 <= i <= |cols|
      invariant WellFormed(df)
      invariant ReplaceRun(df, cols[i..], replacement) == ReplaceRun(t, cols, replacement)
    {
      var c := cols[i];
      assert cols[i..][0] == c && cols[i..][1..] == cols[i + 1..];
      ReplaceRunUnfold(df, cols[i..], replacement);
      if c in df.columns {
        if HasText(df, c) {
          return Err(TypeMismatch);
        }
        df := SetColumn(df, c, ClampedColumn(df, c, replacement));
      }
      i := i + 1;
    }
    return Ok(df);
  }

  /** `replace_negative_values(df, columns, replacement_value, inplace=True)`. */
  method ReplaceNegativeValuesInPlace(df: DataFrame, columns: Option<seq<string>>, replacement: Value)
    returns (o: Outcome)
    requires df.Valid()
    modifies df
    ensures df.Valid()
    ensures (df.Snapshot(), o) == ReplaceRun(old(df.Snapshot()), CheckedColumns(old(df.Snapshot()), columns), replacement)
  {
    ghost var t := df.Snapshot();
    var cols := CheckedColumns(df.Snapshot(), columns);
    var i := 0;
    while i < |cols|
      invariant 0 <= i <= |cols|
      invariant df.Valid()
      invariant ReplaceRun(df.Snapshot(), cols[i..], replacement) == ReplaceRun(t, cols, replacement)
    {
      var c := cols[i];
      var current := df.Snapshot();
      assert cols[i..][0] == c && cols[i..][1..] == cols[i + 1..];
      ReplaceRunUnfold(current, cols[i..], replacement);
      if c in current.columns {
        if HasText(current, c) {
          return Fail(TypeMismatch);
        }
        df.Assign(c, ClampedColumn(current, c, replacement));
      }
      i := i + 1;
    }
    return Pass;
  }

  /** Reference definition: every cell of a listed column clamped, every other cell kept. */
  function Clamped(t: Table, cols: seq<string>, replacement: Value): Table {
    Table(t.columns, t.index,
          seq(|t.rows|, k requires 0 <= k < |t.rows| =>
            map c | c in t.rows[k] :: if c in cols then ClampNegative(t.rows[k][c], replacement) else t.rows[k][c]))
  }

  /** No listed column of the frame holds a string. */
  predicate NoTextIn(t: Table, cols: seq<string>)
    requires WellFormed(t)
  {
    forall c, k :: c in cols && c in t.columns && 0 <= k < |t.rows| ==> !t.rows[k][c].Text?
  }

  /**
   * With a replacement that is not a string, the loop raises exactly when a
   * listed column that exists holds a string; otherwise it replaces every
   * negative number in the listed columns, skips listed columns the frame
   * lacks, and keeps every other cell.
   */
  lemma {:induction false} ReplaceRunPointwise(t: Table, cols: seq<string>, replacement: Value)
    requires WellFormed(t) && !replacement.Text?
    ensures ReplaceRun(t, cols, replacement).1.Pass? <==> NoTextIn(t, cols)
    ensures ReplaceRun(t, cols, replacement).1.Pass? ==>
              ReplaceRun(t, cols, replacement).0 == Clamped(t, cols, replacement)
    decreases |cols|
  {
    if cols == [] {
      var e := Clamped(t, cols, replacement);
      forall k | 0 <= k < |t.rows| ensures e.rows[k] == t.rows[k] { }
      assert e.rows == t.rows;
    } else if cols[0] !in t.columns {
      ReplaceRunPointwise(t, cols[1..], replacement);
      ClampedSkipsAbsent(t, cols, replacement);
    } else if !HasText(t, cols[0]) {
      var next := SetColumn(t, cols[0], ClampedColumn(t, cols[0], replacement));
      ReplaceRunPointwise(next, cols[1..], replacement);
      ClampedStep(t, cols, replacement);
    }
  }

  /** A listed column the frame lacks changes neither the clamped frame nor the string check. */
  lemma ClampedSkipsAbsent(t: Table, cols: seq<string>, replacement: Value)
    requires WellFormed(t) && cols != [] && cols[0] !in t.columns
    ensures NoTextIn(t, cols[1..]) <==> NoTextIn(t, cols)
    ensures Clamped(t, cols[1..], replacement) == Clamped(t, cols, replacement)
  {
    var c0, rest := cols[0], cols[1..];
    assert forall c :: c in cols <==> c == c0 || c in rest;
    var e1, e2 := Clamped(t, rest, replacement), Clamped(t, cols, replacement);
    forall k | 0 <= k < |t.rows| ensures e1.rows[k] == e2.rows[k] {
      assert c0 !in t.rows[k];
    }
    assert e1.rows == e2.rows;
  }

  /** Clamping the first listed column, then the rest, clamps them all. */
  lemma ClampedStep(t: Table, cols: seq<string>, replacement: Value)
    requires WellFormed(t) && !replacement.Text?
    requires cols != [] && cols[0] in t.columns && !HasText(t, cols[0])
    ensures var next := SetColumn(t, cols[0], ClampedColumn(t, cols[0], replacement));
            && (NoTextIn(next, cols[1..]) <==> NoTextIn(t, cols))
            && (NoTextIn(t, cols) ==> Clamped(next, cols[1..], replacement) == Clamped(t, cols, replacement))
  {
    var c0, rest := cols[0], cols[1..];
    assert forall c :: c in cols <==> c == c0 || c in rest;
    var next := SetColumn(t, c0, ClampedColumn(t, c0, replacement));
    assert NoTextIn(next, rest) <==> NoTextIn(t, cols);
    if NoTextIn(t, cols) {
      var e1, e2 := Clamped(next, rest, replacement), Clamped(t, cols, replacement);
      forall k | 0 <= k < |t.rows| ensures e1.rows[k] == e2.rows[k] {
        assert next.rows[k].Keys == t.rows[k].Keys;
      }
      assert e1.rows == e2.rows;
    }
  }

  /**
   * Replacing negatives twice is replacing them once, for any replacement
   * that is not a string (in particular any `replacement_value >= 0`).
   */
  lemma ReplaceNegativeIdempotent(t: Table, columns: Option<seq<string>>, replacement: Value)
    requires WellFormed(t) && !replacement.Text?
    requires RunResult(ReplaceRun(t, CheckedColumns(t, columns), replacement)).Ok?
    ensures var once := RunResult(ReplaceRun(t, CheckedColumns(t, columns), replacement)).value;
            RunResult(ReplaceRun(once, CheckedColumns(once, columns), replacement)) == Ok(once)
  {
    var cols := CheckedColumns(t, columns);
    ReplaceRunPointwise(t, cols, replacement);
    var once := ReplaceRun(t, cols, replacement).0;
    assert once == Clamped(t, cols, replacement);
    assert CheckedColumns(once, columns) == cols;
    assert NoTextIn(once, cols) by {
      forall c, k | c in cols && c in once.columns && 0 <= k < |once.rows| ensures !once.rows[k][c].Text? {
        assert c in t.rows[k];
        assert once.rows[k][c] == ClampNegative(t.rows[k][c], replacement);
      }
    }
    ReplaceRunPointwise(once, cols, replacement);
    var twice := Clamped(once, cols, replacement);
    forall k | 0 <= k < |once.rows| ensures twice.rows[k] == once.rows[k] {
      assert twice.rows[k].Keys == once.rows[k].Keys;
      forall c | c in once.rows[k] ensures twice.rows[k][c] == once.rows[k][c] {
        if c in cols {
          assert once.rows[k][c] == ClampNegative(t.rows[k][c], replacement);
        }
      }
    }
    assert twice.rows == once.rows;
  }

  /**
   * With a string replacement the second pass raises: a frame with the one
   * cell -1 becomes "n/a", and `"n/a" < 0` is a TypeError.
   */
  lemma TextReplacementNotIdempotent()
    ensures var t := Table(["Value"], [0], [map["Value" := Num(-1.0)]]);
            var once := ReplaceRun(t, ["Value"], Text("n/a"));
            && once.1 == Pass
            && once.0.rows == [map["Value" := Text("n/a")]]
            && ReplaceRun(once.0, ["Value"], Text("n/a")).1 == Fail(TypeMismatch)
  {
    var t := Table(["Value"], [0], [map["Value" := Num(-1.0)]]);
    assert ColumnSet(["Value"]) == {"Value"};
    assert WellFormed(t);
    assert !HasText(t, "Value");
    var once := ReplaceRun(t, ["Value"], Text("n/a"));
    assert once.0 == SetColumn(t, "Value", ClampedColumn(t, "Value", Text("n/a")));
    assert once.0.rows[0] == map["Value" := Text("n/a")];
    assert HasText(once.0, "Value");
  }

  // ---------------------------------------------------------------------
  // clip_time_period
  // ---------------------------------------------------------------------

  /** `start_date <= d <= end_date` on a date cell; a missing date compares false. */
  predicate InPeriod(v: Value, start: string, end: string) {
    v.Text? && StrLe(start, v.s) && StrLe(v.s, end)
  }

  /** `clip_time_period(df, start_date, end_date, date_column)`. */
  function ClipTimePeriod(t: Table, start: string, end: string, dateColumn: string): (r: Result<Table>)
    requires WellFormed(t)
    ensures dateColumn !in t.columns ==> r == Err(InvalidValue)
    ensures dateColumn in t.columns ==> (r.Err? <==> HasNumber(t, dateColumn))
    ensures dateColumn in t.columns && r.Err? ==> r.error == TypeMismatch
    ensures r.Ok? ==> WellFormed(r.value) && r.value.columns == t.columns
    ensures r.Ok? ==> r.value.rows == KeptRows(t.rows, seq(|t.rows|, k requires 0 <= k < |t.rows| =>
                                                  dateColumn in t.rows[k] && InPeriod(t.rows[k][dateColumn], start, end)))
    ensures r.Ok? ==> forall row :: row in r.value.rows ==> dateColumn in row && InPeriod(row[dateColumn], start, end)
    ensures r.Ok? ==> forall k :: 0 <= k < |t.rows| && InPeriod(t.rows[k][dateColumn], start, end) ==>
                        t.rows[k] in r.value.rows
  {
    if dateColumn !in t.columns then Err(InvalidValue)
    else if HasNumber(t, dateColumn) then Err(TypeMismatch)
    else
      var mask := seq(|t.rows|, k requires 0 <= k < |t.rows| =>
                    dateColumn in t.rows[k] && InPeriod(t.rows[k][dateColumn], start, end));
      RowsOfSelect(t, mask);
      Ok(Select(t, mask))
  }

  /** Clipping a clipped frame to the same period changes nothing. */
  lemma ClipIdempotent(t: Table, start: string, end: string, dateColumn: string)
    requires WellFormed(t) && ClipTimePeriod(t, start, end, dateColumn).Ok?
    ensures var once := ClipTimePeriod(t, start, end, dateColumn).value;
            ClipTimePeriod(once, start, end, dateColumn) == Ok(once)
  {
    var once := ClipTimePeriod(t, start, end, dateColumn).value;
    assert dateColumn in once.columns;
    assert !HasNumber(once, dateColumn) by {
      forall k | 0 <= k < |once.rows| ensures !once.rows[k][dateColumn].Num? {
        assert once.rows[k] in once.rows;
      }
    }
    var mask := seq(|once.rows|, k requires 0 <= k < |once.rows| =>
                  dateColumn in once.rows[k] && InPeriod(once.rows[k][dateColumn], start, end));
    assert forall k :: 0 <= k < |once.rows| ==> once.rows[k] in once.rows;
    SelectAll(once, mask);
  }
}
