/**
 * Feature engineering on the caller's frame: a log column per listed column,
 * calendar columns (year, month, season), the cyclic day-of-year encoding,
 * the previous row's target value, and the grouped sort. Every function but
 * the last adds columns to the frame it is given, one assignment at a time,
 * so each is a method on `DataFrame` specified by a function that also says
 * what is left behind when an assignment raises. The grouped sort returns a
 * new frame and is a function.
 *
 * The floating-point functions (`np.log`, `np.sin`, `np.cos`) and the
 * constant pi are parameters.
 */
module FeatureEngineering {
  import opened Values
  import opened Frames
  import opened Dates

  // ---------------------------------------------------------------------
  // log_transform
  // ---------------------------------------------------------------------

  /** `np.log(x + epsilon)` on one cell: a missing cell stays missing (`ln` may also give NaN). */
  function LogCell(v: Value, epsilon: real, ln: real -> Value): Value {
    if v.Num? then ln(v.x + epsilon) else Missing
  }

  /** `np.log(df[c] + epsilon)` */
  function LogColumn(t: Table, c: string, epsilon: real, ln: real -> Value): (vals: seq<Value>)
    requires WellFormed(t) && c in t.columns
    ensures |vals| == |t.rows|
    ensures forall k :: 0 <= k < |t.rows| ==> vals[k] == LogCell(t.rows[k][c], epsilon, ln)
  {
    seq(|t.rows|, k requires 0 <= k < |t.rows| => LogCell(t.rows[k][c], epsilon, ln))
  }

  /** The names of the columns `log_transform` writes. */
  function LogNames(columns: seq<string>): set<string> {
    set c | c in columns :: c + "_log"
  }

  /**
   * `log_transform(df, columns, epsilon)`: for each listed column in turn,
   * `df[c + '_log'] = np.log(df[c] + epsilon)`. A missing column raises
   * KeyError and a string cell TypeError, after the earlier columns were
   * written.
   */
  function LogRun(t: Table, columns: seq<string>, epsilon: real, ln: real -> Value): (r: (Table, Outcome))
    requires WellFormed(t)
    ensures WellFormed(r.0) && r.0.index == t.index && |r.0.rows| == |t.rows|
    decreases |columns|
  {
    if columns == [] then (t, Pass)
    else
      var c := columns[0];
      if c !in t.columns then (t, Fail(KeyNotFound(c)))
      else if HasText(t, c) then (t, Fail(TypeMismatch))
      else
        LogRun(SetColumn(t, c + "_log", LogColumn(t, c, epsilon, ln)), columns[1..], epsilon, ln)
  }

  lemma LogNameInjective(a: string, b: string)
    requires a + "_log" == b + "_log"
    ensures a == b
  {
    assert a == (a + "_log")[..|a|];
  }

  /** A complete `log_transform` adds exactly the `_log` columns. */
  lemma {:induction false} LogRunColumns(t: Table, columns: seq<string>, epsilon: real, ln: real -> Value)
    requires WellFormed(t) && LogRun(t, columns, epsilon, ln).1 == Pass
    ensures ColumnSet(LogRun(t, columns, epsilon, ln).0.columns) == ColumnSet(t.columns) + LogNames(columns)
    decreases |columns|
  {
    if columns != [] {
      var c0, rest := columns[0], columns[1..];
      assert columns == [c0] + rest;
      assert LogNames(columns) == {c0 + "_log"} + LogNames(rest);
      var t1 := SetColumn(t, c0 + "_log", LogColumn(t, c0, epsilon, ln));
      LogRunColumns(t1, rest, epsilon, ln);
      assert ColumnSet(t1.columns) == ColumnSet(t.columns) + {c0 + "_log"};
    }
  }

  /** A complete `log_transform` keeps every cell outside the `_log` columns. */
  lemma {:induction false} LogRunKeepsCells(t: Table, columns: seq<string>, epsilon: real, ln: real -> Value)
    requires WellFormed(t) && LogRun(t, columns, epsilon, ln).1 == Pass
    ensures var r := LogRun(t, columns, epsilon, ln).0;
            forall k, d :: 0 <= k < |t.rows| && d in t.rows[k] && d !in LogNames(columns) ==>
              d in r.rows[k] && r.rows[k][d] == t.rows[k][d]
    decreases |columns|
  {
    if columns != [] {
      var c0, rest := columns[0], columns[1..];
      assert columns == [c0] + rest;
      assert LogNames(columns) == {c0 + "_log"} + LogNames(rest);
      var t1 := SetColumn(t, c0 + "_log", LogColumn(t, c0, epsilon, ln));
      LogRunKeepsCells(t1, rest, epsilon, ln);
    }
  }

  /**
   * After a complete `log_transform`, each listed column whose values were not
   * themselves overwritten by a log column has its logarithm in `c + '_log'`.
   */
  lemma {:induction false} LogRunValues(t: Table, columns: seq<string>, epsilon: real, ln: real -> Value)
    requires WellFormed(t) && LogRun(t, columns, epsilon, ln).1 == Pass
    ensures var r := LogRun(t, columns, epsilon, ln).0;
            forall c :: c in columns && c !in LogNames(columns) ==>
              c in t.columns &&
              forall k :: 0 <= k < |t.rows| ==>
                c + "_log" in r.rows[k] && r.rows[k][c + "_log"] == LogCell(t.rows[k][c], epsilon, ln)
    decreases |columns|
  {
    if columns != [] {
      var c0, rest := columns[0], columns[1..];
      assert columns == [c0] + rest;
      assert LogNames(columns) == {c0 + "_log"} + LogNames(rest);
      var t1 := SetColumn(t, c0 + "_log", LogColumn(t, c0, epsilon, ln));
      LogRunValues(t1, rest, epsilon, ln);
      LogRunKeepsCells(t1, rest, epsilon, ln);
      var r := LogRun(t1, rest, epsilon, ln).0;
      forall c | c in columns && c !in LogNames(columns)
        ensures c in t.columns
        ensures forall k :: 0 <= k < |t.rows| ==>
                  c + "_log" in r.rows[k] && r.rows[k][c + "_log"] == LogCell(t.rows[k][c], epsilon, ln)
      {
        if c in rest {
          assert c !in LogNames(rest);
          assert c != c0 + "_log";
        } else {
          assert c == c0;
          if c0 + "_log" in LogNames(rest) {
            var x :| x in rest && x + "_log" == c0 + "_log";
            LogNameInjective(x, c0);
          }
        }
      }
    }
  }

  /**
   * What a complete `log_transform` leaves: the frame gains exactly the
   * `_log` columns; every other cell is kept; and each listed column whose
   * values were not themselves overwritten by a log column has its logarithm
   * in `c + '_log'`.
   */
  lemma LogTransformShape(t: Table, columns: seq<string>, epsilon: real, ln: real -> Value)
    requires WellFormed(t)
    ensures var (r, o) := LogRun(t, columns, epsilon, ln);
            o == Pass ==>
              && ColumnSet(r.columns) == ColumnSet(t.columns) + LogNames(columns)
              && (forall k, d :: 0 <= k < |t.rows| && d in t.rows[k] && d !in LogNames(columns) ==>
                    d in r.rows[k] && r.rows[k][d] == t.rows[k][d])
              && (forall c :: c in columns && c !in LogNames(columns) ==>
                    c in t.columns &&
                    forall k :: 0 <= k < |t.rows| ==> r.rows[k][c + "_log"] == LogCell(t.rows[k][c], epsilon, ln))
  {
    if LogRun(t, columns, epsilon, ln).1 == Pass {
      LogRunColumns(t, columns, epsilon, ln);
      LogRunKeepsCells(t, columns, epsilon, ln);
      LogRunValues(t, columns, epsilon, ln);
    }
  }

  /** `log_transform(df, columns, epsilon)` on the caller's frame. */
  method LogTransform(df: DataFrame, columns: seq<string>, epsilon: real, ln: real -> Value) returns (o: Outcome)
    requires df.Valid()
    modifies df
    ensures df.Valid() && (df.Snapshot(), o) == LogRun(old(df.Snapshot()), columns, epsilon, ln)
  {
    ghost var t0 := df.Snapshot();
    var i := 0;
    while i < |columns|
      invariant 0 <= i <= |columns| && df.Valid()
      invariant LogRun(df.Snapshot(), columns[i..], epsilon, ln) == LogRun(t0, columns, epsilon, ln)
    {
      var c := columns[i];
      assert columns[i..][0] == c && columns[i..][1..] == columns[i + 1..];
      var t := df.Snapshot();
      if c !in t.columns {
        return Fail(KeyNotFound(c));
      }
      if HasText(t, c) {
        return Fail(TypeMismatch);
      }
      df.Assign(c + "_log", LogColumn(t, c, epsilon, ln));
      i := i + 1;
    }
    return Pass;
  }

  // ---------------------------------------------------------------------
  // Dates of a column: `pd.DatetimeIndex(df[c])`
  // ---------------------------------------------------------------------

  /** One cell as pandas parses it: missing gives NaT, an ISO date string its date, anything else raises. */
  function ParseDateCell(v: Value): (r: Result<Option<Date>>)
    ensures r.Ok? && r.value.Some? ==> ValidDate(r.value.value)
    ensures r == Ok(None) <==> v == Missing
  {
    match v
    case Missing => Ok(None)
    case Text(s) => if ParseIsoDate(s).Some? then Ok(Some(ParseIsoDate(s).value)) else Err(DateParse)
    case Num(_) => Err(DateParse)
  }

  /** `pd.DatetimeIndex(df[c])`: every cell parsed, or an error. */
  function ParseDates(t: Table, c: string): (r: Result<seq<Option<Date>>>)
    requires WellFormed(t)
    ensures c !in t.columns ==> r == Err(KeyNotFound(c))
    ensures c in t.columns ==> (r.Ok? <==> forall k :: 0 <= k < |t.rows| ==> ParseDateCell(t.rows[k][c]).Ok?)
    ensures r.Ok? ==> |r.value| == |t.rows|
    ensures r.Ok? ==> forall k :: 0 <= k < |t.rows| ==> Ok(r.value[k]) == ParseDateCell(t.rows[k][c])
  {
    if c !in t.columns then Err(KeyNotFound(c))
    else if exists k :: 0 <= k < |t.rows| && ParseDateCell(t.rows[k][c]).Err? then Err(DateParse)
    else Ok(seq(|t.rows|, k requires 0 <= k < |t.rows| => ParseDateCell(t.rows[k][c]).value))
  }

  /** Frames that agree on column `c` parse to the same dates. */
  lemma ParseDatesAgree(t: Table, u: Table, c: string)
    requires WellFormed(t) && WellFormed(u) && |t.rows| == |u.rows|
    requires c in t.columns <==> c in u.columns
    requires c in t.columns ==> forall k :: 0 <= k < |t.rows| ==> t.rows[k][c] == u.rows[k][c]
    ensures ParseDates(t, c) == ParseDates(u, c)
  {
    if c in t.columns && ParseDates(t, c).Ok? {
      assert ParseDates(t, c).value == ParseDates(u, c).value;
    }
  }

  /** Two column assignments in a row, as one step: the frame gains both names, each gets its values, all else is kept. */
  lemma SetTwoColumns(t: Table, a: string, va: seq<Value>, b: string, vb: seq<Value>)
    requires WellFormed(t) && |va| == |t.rows| && |vb| == |t.rows| && a != b
    ensures var r := SetColumn(SetColumn(t, a, va), b, vb);
            && WellFormed(r) && r.index == t.index && |r.rows| == |t.rows|
            && ColumnSet(r.columns) == ColumnSet(t.columns) + {a, b}
            && (forall k :: 0 <= k < |t.rows| ==> r.rows[k][a] == va[k] && r.rows[k][b] == vb[k])
            && forall k, c :: 0 <= k < |t.rows| && c in t.rows[k] && c != a && c != b ==>
                 c in r.rows[k] && r.rows[k][c] == t.rows[k][c]
  {
    var t1 := SetColumn(t, a, va);
    var r := SetColumn(t1, b, vb);
    assert ColumnSet(t1.columns) == ColumnSet(t.columns) + {a};
    assert ColumnSet(r.columns) == ColumnSet(t1.columns) + {b};
  }

  // ---------------------------------------------------------------------
  // add_year_month_season
  // ---------------------------------------------------------------------

  function YearCell(d: Option<Date>): Value {
    if d.Some? then Num(d.value.year as real) else Missing
  }

  function MonthCell(d: Option<Date>): Value {
    if d.Some? then Num(d.value.month as real) else Missing
  }

  /**
   * `(x % 12 + 3) // 3` on a month number: the meteorological season,
   * with December, January and February in season 1.
   */
  function SeasonIndex(m: int): (i: int)
    ensures 1 <= m <= 12 ==> 1 <= i <= 4
    ensures 1 <= m <= 12 ==> (i == 1 <==> m == 12 || m == 1 || m == 2)
    ensures 1 <= m <= 12 ==> (i == 2 <==> 3 <= m <= 5)
    ensures 1 <= m <= 12 ==> (i == 3 <==> 6 <= m <= 8)
    ensures 1 <= m <= 12 ==> (i == 4 <==> 9 <= m <= 11)
  {
    (m % 12 + 3) / 3
  }

  /** `Series.map({1: 'Winter', 2: 'Spring', 3: 'Summer', 4: 'Fall'})`: an unmapped key gives NaN. */
  function SeasonName(i: int): (v: Value)
    ensures v.Text? <==> 1 <= i <= 4
  {
    if i == 1 then Text("Winter")
    else if i == 2 then Text("Spring")
    else if i == 3 then Text("Summer")
    else if i == 4 then Text("Fall")
    else Missing
  }

  /** End to end: December to February are Winter, then Spring, Summer and Fall by three-month blocks. */
  lemma SeasonOfMonth(m: int)
    requires 1 <= m <= 12
    ensures SeasonName(SeasonIndex(m)) == Text(if m == 12 || m <= 2 then "Winter"
                                               else if m <= 5 then "Spring"
                                               else if m <= 8 then "Summer"
                                               else "Fall")
  {
  }

  function SeasonCell(d: Option<Date>): Value
    requires d.Some? ==> ValidDate(d.value)
  {
    if d.Some? then SeasonName(SeasonIndex(d.value.month)) else Missing
  }

  /** Parsed dates have valid calendar fields. */
  predicate ValidDates(ds: seq<Option<Date>>) {
    forall k :: 0 <= k < |ds| && ds[k].Some? ==> ValidDate(ds[k].value)
  }

  function YearColumn(ds: seq<Option<Date>>): (vals: seq<Value>)
    ensures |vals| == |ds| && forall k :: 0 <= k < |ds| ==> vals[k] == YearCell(ds[k])
  {
    seq(|ds|, k requires 0 <= k < |ds| => YearCell(ds[k]))
  }

  function MonthColumn(ds: seq<Option<Date>>): (vals: seq<Value>)
    ensures |vals| == |ds| && forall k :: 0 <= k < |ds| ==> vals[k] == MonthCell(ds[k])
  {
    seq(|ds|, k requires 0 <= k < |ds| => MonthCell(ds[k]))
  }

  function SeasonColumn(ds: seq<Option<Date>>): (vals: seq<Value>)
    requires ValidDates(ds)
    ensures |vals| == |ds| && forall k :: 0 <= k < |ds| ==> vals[k] == SeasonCell(ds[k])
  {
    seq(|ds|, k requires 0 <= k < |ds| => SeasonCell(ds[k]))
  }

  lemma ParsedDatesValid(t: Table, c: string)
    requires WellFormed(t) && ParseDates(t, c).Ok?
    ensures ValidDates(ParseDates(t, c).value)
  {
    var ds := ParseDates(t, c).value;
    forall k | 0 <= k < |ds| && ds[k].Some?
      ensures ValidDate(ds[k].value)
    {
      assert Ok(ds[k]) == ParseDateCell(t.rows[k][c]);
    }
  }

  /**
   * `add_year_month_season(df, date_column)`: `year` from the parsed dates,
   * then the date column parsed again (it may now be `year`) for `month`,
   * then `season` from the month numbers.
   */
  function CalendarRun(t: Table, dateColumn: string): (r: (Table, Outcome))
    requires WellFormed(t)
    ensures WellFormed(r.0) && r.0.index == t.index && |r.0.rows| == |t.rows|
  {
    match ParseDates(t, dateColumn)
    case Err(e) => (t, Fail(e))
    case Ok(ds) =>
      var t1 := SetColumn(t, "year", YearColumn(ds));
      match ParseDates(t1, dateColumn)
      case Err(e) => (t1, Fail(e))
      case Ok(ms) =>
        ParsedDatesValid(t1, dateColumn);
        (SetColumn(SetColumn(t1, "month", MonthColumn(ms)), "season", SeasonColumn(ms)), Pass)
  }

  /** `add_year_month_season(df, date_column)` on the caller's frame. */
  method AddYearMonthSeason(df: DataFrame, dateColumn: string) returns (o: Outcome)
    requires df.Valid()
    modifies df
    ensures df.Valid() && (df.Snapshot(), o) == CalendarRun(old(df.Snapshot()), dateColumn)
  {
    var parsed := ParseDates(df.Snapshot(), dateColumn);
    if parsed.Err? {
      return Fail(parsed.error);
    }
    df.Assign("year", YearColumn(parsed.value));
    var reparsed := ParseDates(df.Snapshot(), dateColumn);
    if reparsed.Err? {
      return Fail(reparsed.error);
    }
    ParsedDatesValid(df.Snapshot(), dateColumn);
    df.Assign("month", MonthColumn(reparsed.value));
    df.Assign("season", SeasonColumn(reparsed.value));
    return Pass;
  }

  /** `add_year_month_season` completes exactly when every cell of the date column parses. */
  lemma CalendarOutcome(t: Table, dateColumn: string)
    requires WellFormed(t) && dateColumn != "year"
    ensures CalendarRun(t, dateColumn).1 == Pass <==> ParseDates(t, dateColumn).Ok?
    ensures CalendarRun(t, dateColumn).1 != Pass ==>
              CalendarRun(t, dateColumn) == (t, Fail(ParseDates(t, dateColumn).error))
  {
    if ParseDates(t, dateColumn).Ok? {
      CalendarRunOk(t, dateColumn);
    }
  }

  /**
   * The calendar cells of one output row, given the input row: missing when
   * the date is missing; otherwise the date is an ISO date and the row holds
   * its year, its month (1 to 12) and the season name of that month.
   */
  predicate CalendarRow(row: Row, out: Row, dateColumn: string) {
    && dateColumn in row && "year" in out && "month" in out && "season" in out
    && var cell := row[dateColumn];
       && (cell == Missing ==> out["year"] == Missing && out["month"] == Missing && out["season"] == Missing)
       && (cell != Missing ==>
             && cell.Text? && ParseIsoDate(cell.s).Some?
             && out["year"] == Num(ParseIsoDate(cell.s).value.year as real)
             && out["month"] == Num(ParseIsoDate(cell.s).value.month as real)
             && 1 <= ParseIsoDate(cell.s).value.month <= 12
             && out["season"] == SeasonName(SeasonIndex(ParseIsoDate(cell.s).value.month)))
  }

  /**
   * For a date column other than `year` whose cells all parse: the frame
   * gains the three calendar columns; a row with a date gets its year, its
   * month (1 to 12) and the season of that month; a row without one gets missing values;
   * every other cell is kept.
   */
  lemma CalendarColumns(t: Table, dateColumn: string)
    requires WellFormed(t) && dateColumn != "year" && ParseDates(t, dateColumn).Ok?
    ensures CalendarRun(t, dateColumn).1 == Pass && dateColumn in t.columns
    ensures var r := CalendarRun(t, dateColumn).0;
            ColumnSet(r.columns) == ColumnSet(t.columns) + {"year", "month", "season"}
    ensures var r := CalendarRun(t, dateColumn).0;
            forall k, c :: 0 <= k < |t.rows| && c in t.rows[k] && c !in {"year", "month", "season"} ==>
              c in r.rows[k] && r.rows[k][c] == t.rows[k][c]
    ensures var r := CalendarRun(t, dateColumn).0;
            forall k :: 0 <= k < |t.rows| ==> CalendarRow(t.rows[k], r.rows[k], dateColumn)
  {
    var ds := ParseDates(t, dateColumn).value;
    CalendarRunOk(t, dateColumn);
    CalendarFrameCells(t, ds);
    var r := CalendarFrame(t, ds);
    forall k | 0 <= k < |t.rows|
      ensures CalendarRow(t.rows[k], r.rows[k], dateColumn)
    {
      var cell := t.rows[k][dateColumn];
      assert Ok(ds[k]) == ParseDateCell(cell);
      if cell != Missing {
        assert ds[k].Some?;
      }
    }
  }

  /** The frame a successful `add_year_month_season` leaves, in terms of the parsed dates. */
  function CalendarFrame(t: Table, ds: seq<Option<Date>>): Table
    requires WellFormed(t) && |ds| == |t.rows| && ValidDates(ds)
  {
    SetColumn(SetColumn(SetColumn(t, "year", YearColumn(ds)), "month", MonthColumn(ds)), "season", SeasonColumn(ds))
  }

  /** When the dates parse, the re-parse after writing `year` sees the same dates. */
  lemma CalendarRunOk(t: Table, dateColumn: string)
    requires WellFormed(t) && dateColumn != "year" && ParseDates(t, dateColumn).Ok?
    ensures |ParseDates(t, dateColumn).value| == |t.rows| && ValidDates(ParseDates(t, dateColumn).value)
    ensures CalendarRun(t, dateColumn) == (CalendarFrame(t, ParseDates(t, dateColumn).value), Pass)
  {
    var ds := ParseDates(t, dateColumn).value;
    var t1 := SetColumn(t, "year", YearColumn(ds));
    assert ColumnSet(t1.columns) == ColumnSet(t.columns) + {"year"};
    ParseDatesAgree(t, t1, dateColumn);
    ParsedDatesValid(t, dateColumn);
  }

  /** The three calendar columns of the frame, cell by cell; all else is kept. */
  lemma CalendarFrameCells(t: Table, ds: seq<Option<Date>>)
    requires WellFormed(t) && |ds| == |t.rows| && ValidDates(ds)
    ensures var r := CalendarFrame(t, ds);
            && ColumnSet(r.columns) == ColumnSet(t.columns) + {"year", "month", "season"}
            && (forall k, c :: 0 <= k < |t.rows| && c in t.rows[k] && c !in {"year", "month", "season"} ==>
                  c in r.rows[k] && r.rows[k][c] == t.rows[k][c])
            && forall k :: 0 <= k < |t.rows| ==>
                 && r.rows[k]["year"] == YearCell(ds[k])
                 && r.rows[k]["month"] == MonthCell(ds[k])
                 && r.rows[k]["season"] == SeasonCell(ds[k])
  {
    var t1 := SetColumn(t, "year", YearColumn(ds));
    assert ColumnSet(t1.columns) == ColumnSet(t.columns) + {"year"};
    SetTwoColumns(t1, "month", MonthColumn(ds), "season", SeasonColumn(ds));
  }

  // ---------------------------------------------------------------------
  // calculate_doy_columns
  // ---------------------------------------------------------------------

  /** `2 * np.pi * doy / 365.25`. */
  function DoyAngle(d: Date, pi: real): real
    requires ValidDate(d)
  {
    2.0 * pi * (DayOfYear(d) as real) / 365.25
  }

  function TrigCell(d: Option<Date>, pi: real, f: real -> real): Value
    requires d.Some? ==> ValidDate(d.value)
  {
    if d.Some? then Num(f(DoyAngle(d.value, pi))) else Missing
  }

  /** `np.sin(angle)` or `np.cos(angle)` over the parsed dates. */
  function TrigColumn(ds: seq<Option<Date>>, pi: real, f: real -> real): (vals: seq<Value>)
    requires ValidDates(ds)
    ensures |vals| == |ds| && forall k :: 0 <= k < |ds| ==> vals[k] == TrigCell(ds[k], pi, f)
  {
    seq(|ds|, k requires 0 <= k < |ds| => TrigCell(ds[k], pi, f))
  }

  /**
   * `calculate_doy_columns(df, date_column)`: the day of year is computed
   * first; the two assignments that follow cannot fail, so the frame either
   * gains both columns or is left as it was.
   */
  function CyclicDayOfYear(t: Table, dateColumn: string, pi: real, sin: real -> real, cos: real -> real): (r: Result<Table>)
    requires WellFormed(t)
    ensures r.Err? <==> ParseDates(t, dateColumn).Err?
    ensures r.Err? ==> r.error == ParseDates(t, dateColumn).error
    ensures r.Ok? ==>
              && WellFormed(r.value) && r.value.index == t.index && |r.value.rows| == |t.rows|
              && ColumnSet(r.value.columns) == ColumnSet(t.columns) + {"doy_sin", "doy_cos"}
              && (forall k, c :: 0 <= k < |t.rows| && c in t.rows[k] && c != "doy_sin" && c != "doy_cos" ==>
                    c in r.value.rows[k] && r.value.rows[k][c] == t.rows[k][c])
              && forall k :: 0 <= k < |t.rows| ==>
                   var d := ParseDateCell(t.rows[k][dateColumn]).value;
                   && (d.None? ==> r.value.rows[k]["doy_sin"] == Missing && r.value.rows[k]["doy_cos"] == Missing)
                   && (d.Some? ==>
                         r.value.rows[k]["doy_sin"] == Num(sin(DoyAngle(d.value, pi)))
                         && r.value.rows[k]["doy_cos"] == Num(cos(DoyAngle(d.value, pi))))
  {
    match ParseDates(t, dateColumn)
    case Err(e) => Err(e)
    case Ok(ds) =>
      ParsedDatesValid(t, dateColumn);
      var vs, vc := TrigColumn(ds, pi, sin), TrigColumn(ds, pi, cos);
      SetTwoColumns(t, "doy_sin", vs, "doy_cos", vc);
      assert forall k :: 0 <= k < |t.rows| ==> ds[k] == ParseDateCell(t.rows[k][dateColumn]).value;
      Ok(SetColumn(SetColumn(t, "doy_sin", vs), "doy_cos", vc))
  }

  /** `calculate_doy_columns(df, date_column)` on the caller's frame. */
  method CalculateDoyColumns(df: DataFrame, dateColumn: string, pi: real, sin: real -> real, cos: real -> real)
    returns (o: Outcome)
    requires df.Valid()
    modifies df
    ensures df.Valid()
    ensures var r := CyclicDayOfYear(old(df.Snapshot()), dateColumn, pi, sin, cos);
            (o == Pass <==> r.Ok?) && (r.Ok? ==> df.Snapshot() == r.value)
            && (r.Err? ==> o == Fail(r.error) && df.Snapshot() == old(df.Snapshot()))
  {
    var r := CyclicDayOfYear(df.Snapshot(), dateColumn, pi, sin, cos);
    if r.Err? {
      return Fail(r.error);
    }
    df.Update(r.value);
    return Pass;
  }

  /** A frame that already has its day-of-year columns is left as it is by computing them again. */
  lemma CyclicDayOfYearIdempotent(t: Table, dateColumn: string, pi: real, sin: real -> real, cos: real -> real)
    requires WellFormed(t) && dateColumn != "doy_sin" && dateColumn != "doy_cos"
    requires CyclicDayOfYear(t, dateColumn, pi, sin, cos).Ok?
    ensures var once := CyclicDayOfYear(t, dateColumn, pi, sin, cos).value;
            CyclicDayOfYear(once, dateColumn, pi, sin, cos) == Ok(once)
  {
    var once := CyclicDayOfYear(t, dateColumn, pi, sin, cos).value;
    ParseDatesAgree(t, once, dateColumn);
    ParsedDatesValid(t, dateColumn);
    var ds := ParseDates(t, dateColumn).value;
    var vs, vc := TrigColumn(ds, pi, sin), TrigColumn(ds, pi, cos);
    assert once == SetColumn(SetColumn(t, "doy_sin", vs), "doy_cos", vc);
    SetColumnUnchanged(once, "doy_sin", vs);
    SetColumnUnchanged(once, "doy_cos", vc);
  }

  // ---------------------------------------------------------------------
  // add_yesterday_observation
  // ---------------------------------------------------------------------

  /** `Series.shift(1)`: every value moves down one position; the first becomes NaN. */
  function Shift1(vals: seq<Value>): (r: seq<Value>)
    ensures |r| == |vals|
    ensures |vals| > 0 ==> r[0] == Missing
    ensures forall k :: 1 <= k < |vals| ==> r[k] == vals[k - 1]
  {
    if vals == [] then [] else [Missing] + vals[..|vals| - 1]
  }

  /** `df[target + '_yesterday'] = df[target].shift(1)`, as a value. */
  function WithYesterday(t: Table, target: string): (r: Result<Table>)
    requires WellFormed(t)
    ensures r.Err? <==> target !in t.columns
    ensures r.Err? ==> r.error == KeyNotFound(target)
    ensures r.Ok? ==>
              && WellFormed(r.value) && r.value.index == t.index && |r.value.rows| == |t.rows|
              && ColumnSet(r.value.columns) == ColumnSet(t.columns) + {target + "_yesterday"}
              && (|t.rows| > 0 ==> r.value.rows[0][target + "_yesterday"] == Missing)
              && (forall k :: 1 <= k < |t.rows| ==> r.value.rows[k][target + "_yesterday"] == t.rows[k - 1][target])
              && forall k, c :: 0 <= k < |t.rows| && c in t.rows[k] && c != target + "_yesterday" ==>
                   c in r.value.rows[k] && r.value.rows[k][c] == t.rows[k][c]
  {
    if target !in t.columns then Err(KeyNotFound(target))
    else
      var r := SetColumn(t, target + "_yesterday", Shift1(Column(t, target)));
      assert ColumnSet(r.columns) == ColumnSet(t.columns) + {target + "_yesterday"};
      Ok(r)
  }

  /** `add_yesterday_observation(df, target_column)` on the caller's frame. */
  method AddYesterdayObservation(df: DataFrame, target: string) returns (o: Outcome)
    requires df.Valid()
    modifies df
    ensures df.Valid()
    ensures var r := WithYesterday(old(df.Snapshot()), target);
            (o == Pass <==> r.Ok?) && (r.Ok? ==> df.Snapshot() == r.value)
            && (r.Err? ==> o == Fail(r.error) && df.Snapshot() == old(df.Snapshot()))
  {
    var t := df.Snapshot();
    if target !in t.columns {
      return Fail(KeyNotFound(target));
    }
    df.Assign(target + "_yesterday", Shift1(Column(t, target)));
    return Pass;
  }

  /** The yesterday column is the target column one row later: dropping its first cell gives the target without its last. */
  lemma YesterdayIsShiftedTarget(t: Table, target: string)
    requires WellFormed(t) && target in t.columns && |t.rows| > 0
    ensures var r := WithYesterday(t, target).value;
            Column(r, target + "_yesterday")[1..] == Column(t, target)[..|t.rows| - 1]
  {
    var r := WithYesterday(t, target).value;
    var n := |t.rows|;
    assert target + "_yesterday" in r.columns;
    var y, x := Column(r, target + "_yesterday"), Column(t, target);
    forall k | 0 <= k < n - 1
      ensures y[1..][k] == x[..n - 1][k]
    {
      assert y[1..][k] == r.rows[k + 1][target + "_yesterday"];
    }
  }

  // ---------------------------------------------------------------------
  // sort_group_by_column
  // ---------------------------------------------------------------------

  /** Every row has the group and sort columns. */
  predicate Keyed(rows: seq<Row>, g: string, s: string) {
    forall row :: row in rows ==> g in row && s in row
  }

  /**
   * The order the grouped sort leaves rows in: groups by ascending key (the
   * sorted `groupby`), and within a group by the sort column (`sort_values`).
   */
  predicate RowLe(a: Row, b: Row, g: string, s: string)
    requires g in a && s in a && g in b && s in b
  {
    ValueLess(a[g], b[g]) || (a[g] == b[g] && ValueLe(a[s], b[s]))
  }

  predicate GroupSorted(rows: seq<Row>, g: string, s: string)
    requires Keyed(rows, g, s)
  {
    forall i, j :: 0 <= i < j < |rows| ==> RowLe(rows[i], rows[j], g, s)
  }

  lemma RowLeTotal(a: Row, b: Row, g: string, s: string)
    requires g in a && s in a && g in b && s in b
    ensures RowLe(a, b, g, s) || RowLe(b, a, g, s)
  {
    ValueLeTotal(a[g], b[g]);
    ValueLeTotal(a[s], b[s]);
  }

  lemma RowLeTransitive(a: Row, b: Row, c: Row, g: string, s: string)
    requires g in a && s in a && g in b && s in b && g in c && s in c
    requires RowLe(a, b, g, s) && RowLe(b, c, g, s)
    ensures RowLe(a, c, g, s)
  {
    ValueLeTransitive(a[g], b[g], c[g]);
    if a[g] == b[g] && b[g] == c[g] {
      ValueLeTransitive(a[s], b[s], c[s]);
    } else if a[g] == c[g] {
      ValueLeAntisymmetric(a[g], b[g]);
    }
  }

  /** Puts `x` before the first row it does not come after. */
  function InsertRow(x: Row, sorted: seq<Row>, g: string, s: string): (r: seq<Row>)
    requires g in x && s in x && Keyed(sorted, g, s)
    ensures multiset(r) == multiset(sorted) + multiset{x}
    ensures Keyed(r, g, s)
  {
    if sorted == [] then [x]
    else if RowLe(x, sorted[0], g, s) then [x] + sorted
    else
      assert sorted == [sorted[0]] + sorted[1..];
      [sorted[0]] + InsertRow(x, sorted[1..], g, s)
  }

  /** A row that comes before every row of a sorted sequence can be put in front of it. */
  lemma ConsSorted(y: Row, rest: seq<Row>, g: string, s: string)
    requires g in y && s in y && Keyed(rest, g, s) && GroupSorted(rest, g, s)
    requires forall z :: z in rest ==> RowLe(y, z, g, s)
    ensures Keyed([y] + rest, g, s) && GroupSorted([y] + rest, g, s)
  {
    var r := [y] + rest;
    forall i, j | 0 <= i < j < |r|
      ensures RowLe(r[i], r[j], g, s)
    {
      assert r[j] == rest[j - 1];
      if i > 0 {
        assert r[i] == rest[i - 1];
      }
    }
  }

  /** The first row of a sorted sequence comes before all the others. */
  lemma HeadFirst(sorted: seq<Row>, g: string, s: string)
    requires sorted != [] && Keyed(sorted, g, s) && GroupSorted(sorted, g, s)
    ensures forall z :: z in sorted[1..] ==> RowLe(sorted[0], z, g, s)
  {
    forall z | z in sorted[1..]
      ensures RowLe(sorted[0], z, g, s)
    {
      var j :| 0 <= j < |sorted[1..]| && sorted[1..][j] == z;
      assert z == sorted[j + 1];
    }
  }

  lemma {:induction false} InsertRowSorted(x: Row, sorted: seq<Row>, g: string, s: string)
    requires g in x && s in x && Keyed(sorted, g, s) && GroupSorted(sorted, g, s)
    ensures GroupSorted(InsertRow(x, sorted, g, s), g, s)
  {
    if sorted != [] {
      var head, tail := sorted[0], sorted[1..];
      assert sorted == [head] + tail;
      HeadFirst(sorted, g, s);
      if RowLe(x, head, g, s) {
        forall z | z in sorted
          ensures RowLe(x, z, g, s)
        {
          if z != head {
            RowLeTransitive(x, head, z, g, s);
          }
        }
        ConsSorted(x, sorted, g, s);
      } else {
        RowLeTotal(x, head, g, s);
        InsertRowSorted(x, tail, g, s);
        var rest := InsertRow(x, tail, g, s);
        forall z | z in rest
          ensures RowLe(head, z, g, s)
        {
          assert z in multiset(rest);
          assert z == x || z in multiset(tail);
        }
        ConsSorted(head, rest, g, s);
      }
    }
  }

  /** Insertion sort by `RowLe`. */
  function SortRows(rows: seq<Row>, g: string, s: string): (r: seq<Row>)
    requires Keyed(rows, g, s)
    ensures multiset(r) == multiset(rows)
    ensures Keyed(r, g, s)
  {
    if rows == [] then []
    else
      assert rows == [rows[0]] + rows[1..];
      InsertRow(rows[0], SortRows(rows[1..], g, s), g, s)
  }

  lemma {:induction false} SortRowsSorted(rows: seq<Row>, g: string, s: string)
    requires Keyed(rows, g, s)
    ensures GroupSorted(SortRows(rows, g, s), g, s)
  {
    if rows != [] {
      SortRowsSorted(rows[1..], g, s);
      InsertRowSorted(rows[0], SortRows(rows[1..], g, s), g, s);
    }
  }

  /** The rows `groupby` puts in a group: those whose key is not missing. */
  function KeyPresent(t: Table, g: string): (mask: seq<bool>)
    requires WellFormed(t) && g in t.columns
    ensures |mask| == |t.rows|
    ensures forall k :: 0 <= k < |t.rows| ==> (mask[k] <==> t.rows[k][g] != Missing)
  {
    seq(|t.rows|, k requires 0 <= k < |t.rows| => t.rows[k][g] != Missing)
  }

  /** Some group holds both a number and a string in the sort column: `sort_values` cannot order them. */
  predicate MixedWithinGroup(t: Table, g: string, s: string)
    requires WellFormed(t) && g in t.columns && s in t.columns
  {
    exists i, j :: 0 <= i < |t.rows| && 0 <= j < |t.rows| && t.rows[i][g] != Missing
      && t.rows[i][g] == t.rows[j][g] && t.rows[i][s].Num? && t.rows[j][s].Text?
  }

  /** The rows with a group key, in frame order. */
  function KeyedRows(t: Table, g: string, s: string): (rows: seq<Row>)
    requires WellFormed(t) && g in t.columns && s in t.columns
    ensures rows == KeptRows(t.rows, KeyPresent(t, g))
    ensures forall row :: row in rows ==> row.Keys == ColumnSet(t.columns) && row[g] != Missing
    ensures Keyed(rows, g, s)
  {
    var mask := KeyPresent(t, g);
    var keyed := Select(t, mask);
    RowsOfSelect(t, mask);
    forall row | row in keyed.rows
      ensures row.Keys == ColumnSet(t.columns) && row[g] != Missing
    {
      var i :| 0 <= i < |t.rows| && mask[i] && t.rows[i] == row;
    }
    keyed.rows
  }

  /** Two sequences with one multiset have the same members. */
  lemma SameMembers(a: seq<Row>, b: seq<Row>)
    requires multiset(a) == multiset(b)
    ensures forall x :: x in a <==> x in b
  {
    forall x
      ensures x in a <==> x in b
    {
      assert x in a <==> x in multiset(a);
      assert x in b <==> x in multiset(b);
    }
  }

  /** The rows with a group key, sorted by `RowLe`. */
  function GroupedRows(t: Table, g: string, s: string): (sorted: seq<Row>)
    requires WellFormed(t) && g in t.columns && s in t.columns
    ensures multiset(sorted) == multiset(KeptRows(t.rows, KeyPresent(t, g)))
    ensures forall row :: row in sorted ==> row.Keys == ColumnSet(t.columns) && row[g] != Missing
    ensures forall k :: 0 <= k < |sorted| ==> sorted[k].Keys == ColumnSet(t.columns)
    ensures Keyed(sorted, g, s) && GroupSorted(sorted, g, s)
  {
    var keyed := KeyedRows(t, g, s);
    var sorted := SortRows(keyed, g, s);
    SortRowsSorted(keyed, g, s);
    SameMembers(sorted, keyed);
    assert forall k :: 0 <= k < |sorted| ==> sorted[k] in sorted;
    sorted
  }

  /**
   * Within every group the rows stand in `sort_values` order: of two rows
   * with the same key, the earlier one's sort cell is not greater.
   */
  predicate SortedWithinGroups(rows: seq<Row>, g: string, s: string)
    requires forall k :: 0 <= k < |rows| ==> g in rows[k] && s in rows[k]
  {
    forall i, j :: 0 <= i < j < |rows| && rows[i][g] != Missing && rows[i][g] == rows[j][g] ==>
      ValueLe(rows[i][s], rows[j][s])
  }

  /** Each group's rows form one block. */
  predicate Contiguous(rows: seq<Row>, g: string)
    requires forall k :: 0 <= k < |rows| ==> g in rows[k]
  {
    forall i, j, k :: 0 <= i < j < k < |rows| && rows[i][g] == rows[k][g] ==> rows[j][g] == rows[i][g]
  }

  /** Dropping rows keeps the order of the rest, so groups already in order stay in order. */
  lemma KeptRowsKeepOrder(rows: seq<Row>, mask: seq<bool>, g: string, s: string)
    requires |rows| == |mask|
    requires forall k :: 0 <= k < |rows| ==> g in rows[k] && s in rows[k]
    requires SortedWithinGroups(rows, g, s)
    ensures var kept := KeptRows(rows, mask);
            && (forall k :: 0 <= k < |kept| ==> g in kept[k] && s in kept[k])
            && SortedWithinGroups(kept, g, s)
  {
    PickPositions(rows, mask);
    var p := Positions(mask);
    var kept := KeptRows(rows, mask);
    assert forall k :: 0 <= k < |kept| ==> kept[k] == rows[p[k]];
  }

  /** Sorting by (group key, sort key) puts each group in one block, sorted. */
  lemma GroupSortedBlocks(rows: seq<Row>, g: string, s: string)
    requires Keyed(rows, g, s) && GroupSorted(rows, g, s)
    ensures forall k :: 0 <= k < |rows| ==> g in rows[k] && s in rows[k]
    ensures Contiguous(rows, g) && SortedWithinGroups(rows, g, s)
  {
    assert forall k :: 0 <= k < |rows| ==> rows[k] in rows;
    forall i, j, k | 0 <= i < j < k < |rows| && rows[i][g] == rows[k][g]
      ensures rows[j][g] == rows[i][g]
    {
      assert RowLe(rows[i], rows[j], g, s) && RowLe(rows[j], rows[k], g, s);
      ValueLeAntisymmetric(rows[i][g], rows[j][g]);
    }
  }

  /**
   * The grouped sort `sort_group_by_column` is meant to perform: ValueError
   * if either column is absent, TypeError if a group mixes numbers and
   * strings in the sort column; otherwise the rows with a group key, groups
   * by ascending key, each sorted by the sort column, relabelled 0 .. n-1.
   * Rows tied on both columns may come in any order.
   */
  function GroupedSort(t: Table, g: string, s: string): (r: Result<Table>)
    requires WellFormed(t)
    ensures r.Err? <==> g !in t.columns || s !in t.columns || MixedWithinGroup(t, g, s)
    ensures (g !in t.columns || s !in t.columns) ==> r == Err(InvalidValue)
    ensures g in t.columns && s in t.columns && r.Err? ==> r.error == TypeMismatch
    ensures r.Ok? ==>
              && WellFormed(r.value) && r.value.columns == t.columns
              && r.value.index == Range(|r.value.rows|)
              && multiset(r.value.rows) == multiset(KeptRows(t.rows, KeyPresent(t, g)))
              && Keyed(r.value.rows, g, s)
              && (forall row :: row in r.value.rows ==> row[g] != Missing)
              && GroupSorted(r.value.rows, g, s)
  {
    if g !in t.columns || s !in t.columns then Err(InvalidValue)
    else if MixedWithinGroup(t, g, s) then Err(TypeMismatch)
    else
      var sorted := GroupedRows(t, g, s);
      Ok(Table(t.columns, Range(|sorted|), sorted))
  }

  /** The intended grouped sort puts each group in one block, in sort order. */
  lemma GroupedSortContiguous(t: Table, g: string, s: string)
    requires WellFormed(t) && GroupedSort(t, g, s).Ok?
    ensures var rows := GroupedSort(t, g, s).value.rows;
            && (forall k :: 0 <= k < |rows| ==> g in rows[k] && s in rows[k])
            && Contiguous(rows, g) && SortedWithinGroups(rows, g, s)
  {
    GroupSortedBlocks(GroupedSort(t, g, s).value.rows, g, s);
  }

  /**
   * `sort_group_by_column(df, group_by_column, sort_by_column)` as pandas
   * runs it. `groupby(..., group_keys=False).apply(...)` concatenates the
   * sorted groups in ascending key order only when some group's
   * `sort_values` moved a row; when every group is already in order, the
   * result is put back in frame order (rows without a key dropped). Either
   * way `reset_index(drop=True)` relabels the rows 0 .. n-1.
   */
  function SortGroupByColumn(t: Table, g: string, s: string): (r: Result<Table>)
    requires WellFormed(t)
    ensures r.Err? <==> g !in t.columns || s !in t.columns || MixedWithinGroup(t, g, s)
    ensures (g !in t.columns || s !in t.columns) ==> r == Err(InvalidValue)
    ensures g in t.columns && s in t.columns && r.Err? ==> r.error == TypeMismatch
    ensures r.Ok? ==>
              && WellFormed(r.value) && r.value.columns == t.columns
              && r.value.index == Range(|r.value.rows|)
              && multiset(r.value.rows) == multiset(KeptRows(t.rows, KeyPresent(t, g)))
              && Keyed(r.value.rows, g, s)
              && (forall row :: row in r.value.rows ==> row[g] != Missing)
              && (forall k :: 0 <= k < |r.value.rows| ==> g in r.value.rows[k] && s in r.value.rows[k])
              && SortedWithinGroups(r.value.rows, g, s)
    ensures r.Ok? ==> g in t.columns && s in t.columns
    ensures r.Ok? && SortedWithinGroups(t.rows, g, s) ==> r.value.rows == KeptRows(t.rows, KeyPresent(t, g))
    ensures r.Ok? && !SortedWithinGroups(t.rows, g, s) ==> r == GroupedSort(t, g, s) && GroupSorted(r.value.rows, g, s)
  {
    if g !in t.columns || s !in t.columns then Err(InvalidValue)
    else if MixedWithinGroup(t, g, s) then Err(TypeMismatch)
    else if SortedWithinGroups(t.rows, g, s) then
      var kept := KeyedRows(t, g, s);
      KeptRowsKeepOrder(t.rows, KeyPresent(t, g), g, s);
      Ok(Table(t.columns, Range(|kept|), kept))
    else
      GroupSortedBlocks(GroupedSort(t, g, s).value.rows, g, s);
      GroupedSort(t, g, s)
  }

  /** With every group key present, the result is a permutation of the whole frame. */
  lemma SortGroupByColumnPermutes(t: Table, g: string, s: string)
    requires WellFormed(t) && SortGroupByColumn(t, g, s).Ok?
    requires forall k :: 0 <= k < |t.rows| ==> t.rows[k][g] != Missing
    ensures multiset(SortGroupByColumn(t, g, s).value.rows) == multiset(t.rows)
  {
    KeptRowsAll(t.rows, KeyPresent(t, g));
  }

  /** When some group had to be reordered, each group comes out as one block. */
  lemma SortGroupByColumnContiguous(t: Table, g: string, s: string)
    requires WellFormed(t) && SortGroupByColumn(t, g, s).Ok?
    ensures var rows := SortGroupByColumn(t, g, s).value.rows;
            !SortedWithinGroups(t.rows, g, s) ==> Contiguous(rows, g)
  {
    if !SortedWithinGroups(t.rows, g, s) {
      GroupedSortContiguous(t, g, s);
    }
  }

  /** Stations A, B, A with readings 1, 1, 2. */
  function StationSample(): (t: Table)
    ensures WellFormed(t) && "Station" in t.columns && "P" in t.columns
  {
    Table(["Station", "P"], [0, 1, 2],
          [map["Station" := Text("A"), "P" := Num(1.0)],
           map["Station" := Text("B"), "P" := Num(1.0)],
           map["Station" := Text("A"), "P" := Num(2.0)]])
  }

  /** In the sample no station mixes kinds of reading, and each station's readings are in order. */
  lemma StationSampleInOrder()
    ensures !MixedWithinGroup(StationSample(), "Station", "P")
    ensures SortedWithinGroups(StationSample().rows, "Station", "P")
    ensures forall k :: 0 <= k < |StationSample().rows| ==> StationSample().rows[k]["Station"] != Missing
  {
    var rows: seq<Row> := StationSample().rows;
    assert forall k :: 0 <= k < |rows| ==> rows[k]["P"].Num?;
    forall i, j | 0 <= i < j < |rows| && rows[i]["Station"] == rows[j]["Station"]
      ensures ValueLe(rows[i]["P"], rows[j]["P"])
    {
      assert i == 0 && j == 2;
    }
  }

  /**
   * On the sample every station is already in order, so the result keeps
   * frame order, and there station A is split in two.
   */
  lemma SortGroupByColumnInterleaves()
    ensures SortGroupByColumn(StationSample(), "Station", "P").Ok?
    ensures SortGroupByColumn(StationSample(), "Station", "P").value.rows == StationSample().rows
    ensures !Contiguous(StationSample().rows, "Station")
  {
    StationSampleInOrder();
    StationSampleAllKeyed();
    StationSampleSplit();
  }

  /** Every sample row has a station, so dropping keyless rows keeps them all. */
  lemma StationSampleAllKeyed()
    ensures KeptRows(StationSample().rows, KeyPresent(StationSample(), "Station")) == StationSample().rows
  {
    StationSampleInOrder();
    KeptRowsAll(StationSample().rows, KeyPresent(StationSample(), "Station"));
  }

  /** In frame order the sample's station A rows are not adjacent. */
  lemma StationSampleSplit()
    ensures !Contiguous(StationSample().rows, "Station")
  {
    var rows := StationSample().rows;
    assert rows[0]["Station"] == rows[2]["Station"] != rows[1]["Station"];
  }

  /** The grouped sort gives the sample one block per station. */
  lemma GroupedSortOfSample()
    ensures GroupedSort(StationSample(), "Station", "P").Ok?
    ensures Contiguous(GroupedSort(StationSample(), "Station", "P").value.rows, "Station")
  {
    StationSampleInOrder();
    GroupedSortContiguous(StationSample(), "Station", "P");
  }
}
