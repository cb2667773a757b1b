/**
 * Small frame and list utilities (src/data/utils.py): two row filters, the
 * group keys whose summed difference of two columns reaches a threshold, and
 * the symmetric difference of two lists.
 */
module Utils {
  import opened Values
  import opened Frames

  // ---------------------------------------------------------------------
  // FilterByList and filter_by_series
  // ---------------------------------------------------------------------

  /**
   * `FilterByList(df, series, value_list)`: `df[df[series].isin(value_list)]`.
   * `isin` matches a missing cell when the list holds a missing value.
   */
  function FilterByList(t: Table, series: string, valueList: seq<Value>): (r: Result<Table>)
    requires WellFormed(t)
    ensures series !in t.columns ==> r == Err(KeyNotFound(series))
    ensures series in t.columns ==> r.Ok?
    ensures r.Ok? ==> WellFormed(r.value) && r.value.columns == t.columns
    ensures r.Ok? ==> r.value.rows == KeptRows(t.rows, seq(|t.rows|, k requires 0 <= k < |t.rows| =>
                                                  series in t.rows[k] && t.rows[k][series] in valueList))
    ensures r.Ok? ==> forall row :: row in r.value.rows ==> series in row && row[series] in valueList
    ensures r.Ok? ==> forall k :: 0 <= k < |t.rows| && t.rows[k][series] in valueList ==>
                        t.rows[k] in r.value.rows
  {
    if series !in t.columns then Err(KeyNotFound(series))
    else
      var mask := seq(|t.rows|, k requires 0 <= k < |t.rows| =>
                    series in t.rows[k] && t.rows[k][series] in valueList);
      RowsOfSelect(t, mask);
      Ok(Select(t, mask))
  }

  /** `x == value` on a cell: NaN equals nothing, not even NaN. */
  predicate Matches(v: Value, value: Value) {
    v != Missing && v == value
  }

  /** `filter_by_series(df, series, value)`: `df[df[series] == value]`. */
  function FilterBySeries(t: Table, series: string, value: Value): (r: Result<Table>)
    requires WellFormed(t)
    ensures series !in t.columns ==> r == Err(KeyNotFound(series))
    ensures series in t.columns ==> r.Ok?
    ensures r.Ok? ==> WellFormed(r.value) && r.value.columns == t.columns
    ensures r.Ok? ==> r.value.rows == KeptRows(t.rows, seq(|t.rows|, k requires 0 <= k < |t.rows| =>
                                                  series in t.rows[k] && Matches(t.rows[k][series], value)))
    ensures r.Ok? ==> forall row :: row in r.value.rows ==> series in row && row[series] == value
    ensures r.Ok? ==> value == Missing ==> r.value.rows == []
    ensures r.Ok? ==> forall k :: 0 <= k < |t.rows| && t.rows[k][series] == value && value != Missing ==>
                        t.rows[k] in r.value.rows
  {
    if series !in t.columns then Err(KeyNotFound(series))
    else
      var mask := seq(|t.rows|, k requires 0 <= k < |t.rows| =>
                    series in t.rows[k] && Matches(t.rows[k][series], value));
      RowsOfSelect(t, mask);
      var r := Select(t, mask);
      assert value == Missing ==> r.rows == [] by {
        if value == Missing {
          KeptRowsNone(t.rows, mask);
        }
      }
      Ok(r)
  }

  /** For a present value, filtering on equality is filtering on the one-element list. */
  lemma FilterBySeriesIsListOfOne(t: Table, series: string, value: Value)
    requires WellFormed(t) && value != Missing
    ensures FilterBySeries(t, series, value) == FilterByList(t, series, [value])
  {
    if series in t.columns {
      var m1 := seq(|t.rows|, k requires 0 <= k < |t.rows| =>
                  series in t.rows[k] && Matches(t.rows[k][series], value));
      var m2 := seq(|t.rows|, k requires 0 <= k < |t.rows| =>
                  series in t.rows[k] && t.rows[k][series] in [value]);
      assert m1 == m2;
    }
  }

  /**
   * The two filters part ways on NaN: `isin([nan])` keeps the rows with a
   * missing cell, `== nan` keeps none.
   */
  lemma FiltersDifferOnMissing()
    ensures var t := Table(["Site"], [0], [map["Site" := Missing]]);
            FilterByList(t, "Site", [Missing]) == Ok(t)
            && FilterBySeries(t, "Site", Missing) == Ok(Table(["Site"], [], []))
  {
    var t := Table(["Site"], [0], [map["Site" := Missing]]);
    var mask := seq(|t.rows|, k requires 0 <= k < |t.rows| =>
                  "Site" in t.rows[k] && t.rows[k]["Site"] in [Missing]);
    SelectAll(t, mask);
    var none := FilterBySeries(t, "Site", Missing).value;
    assert none.index == [] by {
      assert |none.index| == |none.rows|;
    }
  }

  /** Filtering a filtered frame by the same list keeps it as it is. */
  lemma FilterByListIdempotent(t: Table, series: string, valueList: seq<Value>)
    requires WellFormed(t) && series in t.columns
    ensures var once := FilterByList(t, series, valueList).value;
            FilterByList(once, series, valueList) == Ok(once)
  {
    var once := FilterByList(t, series, valueList).value;
    var mask := seq(|once.rows|, k requires 0 <= k < |once.rows| =>
                  series in once.rows[k] && once.rows[k][series] in valueList);
    assert forall k :: 0 <= k < |once.rows| ==> once.rows[k] in once.rows;
    SelectAll(once, mask);
  }

  // ---------------------------------------------------------------------
  // list_groups_by_difference
  // ---------------------------------------------------------------------

  /** The scratch column the code writes the differences to, then drops. */
  const TempColumn := "temp_diff"

  /** `x - y` on two cells that can be subtracted: NaN when either is missing. */
  function DiffCell(x: Value, y: Value): Value {
    if x.Num? && y.Num? then Num(x.x - y.x) else Missing
  }

  /**
   * A row whose two cells are both present and one of them a string: the
   * subtraction pandas falls back to for object columns only evaluates rows
   * where both cells are present, and there `str - x` raises TypeError.
   */
  predicate Unsubtractable(x: Value, y: Value) {
    x != Missing && y != Missing && (x.Text? || y.Text?)
  }

  /**
   * `df[field_a] - df[field_b]`: a KeyError names `field_a` first, then
   * `field_b`; a row with a string beside a present cell raises TypeError; a
   * row with a missing cell gives NaN whatever the other cell holds.
   */
  function DiffColumn(t: Table, a: string, b: string): (r: Result<seq<Value>>)
    requires WellFormed(t)
    ensures a !in t.columns ==> r == Err(KeyNotFound(a))
    ensures a in t.columns && b !in t.columns ==> r == Err(KeyNotFound(b))
    ensures a in t.columns && b in t.columns ==>
              (r.Err? <==> exists k :: 0 <= k < |t.rows| && Unsubtractable(t.rows[k][a], t.rows[k][b]))
    ensures a in t.columns && b in t.columns && r.Err? ==> r.error == TypeMismatch
    ensures r.Ok? ==> |r.value| == |t.rows|
    ensures r.Ok? ==> forall k :: 0 <= k < |t.rows| ==>
                        a in t.rows[k] && b in t.rows[k] && r.value[k] == DiffCell(t.rows[k][a], t.rows[k][b])
  {
    if a !in t.columns then Err(KeyNotFound(a))
    else if b !in t.columns then Err(KeyNotFound(b))
    else if exists k :: 0 <= k < |t.rows| && Unsubtractable(t.rows[k][a], t.rows[k][b]) then Err(TypeMismatch)
    else Ok(seq(|t.rows|, k requires 0 <= k < |t.rows| => DiffCell(t.rows[k][a], t.rows[k][b])))
  }

  /** A string beside a missing cell gives NaN rather than an error. */
  lemma TextBesideMissingIsMissing()
    ensures var t := Table(["A", "B"], [0], [map["A" := Text("x"), "B" := Missing]]);
            DiffColumn(t, "A", "B") == Ok([Missing])
  {
    var t := Table(["A", "B"], [0], [map["A" := Text("x"), "B" := Missing]]);
    assert WellFormed(t);
    assert !Unsubtractable(t.rows[0]["A"], t.rows[0]["B"]);
    var r := DiffColumn(t, "A", "B");
    assert |r.value| == 1 && r.value[0] == DiffCell(Text("x"), Missing);
    assert r.value == [Missing];
  }

  predicate HasKey(rows: seq<Row>, g: string) {
    forall k :: 0 <= k < |rows| ==> g in rows[k]
  }

  /** The keys `groupby(g)` forms: each present value of column `g` once; missing keys are dropped. */
  function GroupKeys(rows: seq<Row>, g: string): (r: seq<Value>)
    requires HasKey(rows, g)
    ensures Distinct(r)
    ensures forall v :: v in r <==> v != Missing && exists k :: 0 <= k < |rows| && rows[k][g] == v
  {
    if rows == [] then []
    else
      var n := |rows| - 1;
      var front := GroupKeys(rows[..n], g);
      assert forall k :: 0 <= k < n ==> rows[..n][k] == rows[k];
      var v := rows[n][g];
      if v == Missing || v in front then front else front + [v]
  }

  /** `groupby(g)[col].sum()` for one key: missing cells add nothing. */
  function GroupSum(rows: seq<Row>, g: string, col: string, key: Value): real
    requires HasKey(rows, g) && HasKey(rows, col)
  {
    if rows == [] then 0.0
    else
      var n := |rows| - 1;
      var cell := rows[n][col];
      GroupSum(rows[..n], g, col, key) + (if rows[n][g] == key && cell.Num? then cell.x else 0.0)
  }

  function Abs(x: real): real {
    if x < 0.0 then -x else x
  }

  /** `grouped[g][grouped[col].abs() >= threshold].unique()`, walking the keys in order. */
  function MeetingThreshold(keys: seq<Value>, rows: seq<Row>, g: string, col: string, threshold: real)
    : (r: seq<Value>)
    requires HasKey(rows, g) && HasKey(rows, col)
    ensures forall v :: v in r <==> v in keys && Abs(GroupSum(rows, g, col, v)) >= threshold
    ensures Distinct(keys) ==> Distinct(r)
  {
    if keys == [] then []
    else
      var rest := MeetingThreshold(keys[1..], rows, g, col, threshold);
      assert Distinct(keys) ==> keys[0] !in keys[1..] && Distinct(keys[1..]);
      if Abs(GroupSum(rows, g, col, keys[0])) >= threshold then [keys[0]] + rest else rest
  }

  /**
   * `list_groups_by_difference(df, group_by_column, field_a, field_b,
   * diff_threshold)`: the frame the call leaves behind and the keys it
   * returns. The difference column is written before the group-by, so a
   * missing group column raises KeyError with `temp_diff` left in the frame.
   * Grouping by `temp_diff` itself makes `reset_index` raise ValueError (the
   * summed column and the group labels share the name), again before the
   * drop.
   */
  function GroupsRun(t: Table, g: string, a: string, b: string, threshold: real)
    : (r: (Table, Result<seq<Value>>))
    requires WellFormed(t)
    ensures WellFormed(r.0)
    ensures DiffColumn(t, a, b).Err? ==> r == (t, Err(DiffColumn(t, a, b).error))
    ensures DiffColumn(t, a, b).Ok? && g !in t.columns && g != TempColumn ==>
              r.1 == Err(KeyNotFound(g))
    ensures DiffColumn(t, a, b).Ok? && g == TempColumn ==> r.1 == Err(InvalidValue)
    ensures DiffColumn(t, a, b).Ok? && r.1.Err? ==>
              TempColumn in r.0.columns && ColumnSet(r.0.columns) == ColumnSet(t.columns) + {TempColumn}
    ensures DiffColumn(t, a, b).Ok? && g in t.columns && g != TempColumn ==>
              r.1.Ok? && Distinct(r.1.value) && TempColumn !in r.0.columns
  {
    match DiffColumn(t, a, b)
    case Err(e) => (t, Err(e))
    case Ok(diffs) =>
      var t1 := SetColumn(t, TempColumn, diffs);
      if g == TempColumn then (t1, Err(InvalidValue))
      else if g !in t1.columns then (t1, Err(KeyNotFound(g)))
      else
        assert HasKey(t1.rows, g) && HasKey(t1.rows, TempColumn);
        var found := MeetingThreshold(GroupKeys(t1.rows, g), t1.rows, g, TempColumn, threshold);
        (DropColumn(t1, TempColumn), Ok(found))
  }

  /** The method on the caller's frame: assign `temp_diff`, group, filter, drop `temp_diff`. */
  method ListGroupsByDifference(df: DataFrame, g: string, a: string, b: string, threshold: real)
    returns (r: Result<seq<Value>>)
    requires df.Valid()
    modifies df
    ensures df.Valid()
    ensures (df.Snapshot(), r) == GroupsRun(old(df.Snapshot()), g, a, b, threshold)
  {
    var diffs := DiffColumn(df.Snapshot(), a, b);
    if diffs.Err? {
      return Err(diffs.error);
    }
    df.Assign(TempColumn, diffs.value);
    if g == TempColumn {
      return Err(InvalidValue);
    }
    if g !in df.columns {
      return Err(KeyNotFound(g));
    }
    var t1 := df.Snapshot();
    assert HasKey(t1.rows, g) && HasKey(t1.rows, TempColumn);
    var found := MeetingThreshold(GroupKeys(t1.rows, g), t1.rows, g, TempColumn, threshold);
    df.Drop(TempColumn);
    return Ok(found);
  }

  /**
   * Reference definition of a group's total: the sum, over the rows whose
   * key is `key`, of `a - b`, a row with a missing operand adding nothing.
   */
  function GroupTotal(rows: seq<Row>, g: string, a: string, b: string, key: Value): real
    requires HasKey(rows, g) && HasKey(rows, a) && HasKey(rows, b)
  {
    if rows == [] then 0.0
    else
      var n := |rows| - 1;
      var row := rows[n];
      GroupTotal(rows[..n], g, a, b, key)
      + (if row[g] == key && row[a].Num? && row[b].Num? then row[a].x - row[b].x else 0.0)
  }

  /** Summing the difference column group by group is summing `a - b` group by group. */
  lemma {:induction false} GroupSumOfDiffs(rows: seq<Row>, rows1: seq<Row>, g: string, a: string, b: string,
                                           key: Value)
    requires HasKey(rows, g) && HasKey(rows, a) && HasKey(rows, b) && g != TempColumn
    requires |rows1| == |rows|
    requires forall k :: 0 <= k < |rows| ==>
               rows1[k] == rows[k][TempColumn := DiffCell(rows[k][a], rows[k][b])]
    ensures HasKey(rows1, g) && HasKey(rows1, TempColumn)
    ensures GroupSum(rows1, g, TempColumn, key) == GroupTotal(rows, g, a, b, key)
  {
    if rows != [] {
      var n := |rows| - 1;
      GroupSumOfDiffs(rows[..n], rows1[..n], g, a, b, key);
    }
  }

  /**
   * What `list_groups_by_difference` returns: exactly the present keys of the
   * group column whose total of `field_a - field_b` has absolute value at
   * least the threshold, each once.
   */
  lemma GroupsByDifferenceSelects(t: Table, g: string, a: string, b: string, threshold: real)
    requires WellFormed(t) && GroupsRun(t, g, a, b, threshold).1.Ok?
    ensures g in t.columns && a in t.columns && b in t.columns
    ensures var keys := GroupsRun(t, g, a, b, threshold).1.value;
            && Distinct(keys)
            && forall v :: v in keys <==>
                 && v != Missing
                 && (exists k :: 0 <= k < |t.rows| && t.rows[k][g] == v)
                 && Abs(GroupTotal(t.rows, g, a, b, v)) >= threshold
  {
    var diffs := DiffColumn(t, a, b).value;
    var t1 := SetColumn(t, TempColumn, diffs);
    assert HasKey(t.rows, g) && HasKey(t.rows, a) && HasKey(t.rows, b);
    assert HasKey(t1.rows, g) && HasKey(t1.rows, TempColumn);
    var candidates := GroupKeys(t1.rows, g);
    assert GroupsRun(t, g, a, b, threshold).1.value == MeetingThreshold(candidates, t1.rows, g, TempColumn, threshold);
    DiffRows(t, a, b);
    forall v
      ensures GroupSum(t1.rows, g, TempColumn, v) == GroupTotal(t.rows, g, a, b, v)
    {
      GroupSumOfDiffs(t.rows, t1.rows, g, a, b, v);
    }
    forall v
      ensures v in candidates <==> v != Missing && exists k :: 0 <= k < |t.rows| && t.rows[k][g] == v
    {
      assert forall k :: 0 <= k < |t.rows| ==> t1.rows[k][g] == t.rows[k][g];
    }
  }

  /** The frame with the difference column written, row by row. */
  lemma DiffRows(t: Table, a: string, b: string)
    requires WellFormed(t) && DiffColumn(t, a, b).Ok?
    ensures var t1 := SetColumn(t, TempColumn, DiffColumn(t, a, b).value);
            && |t1.rows| == |t.rows|
            && forall k :: 0 <= k < |t.rows| ==>
                 a in t.rows[k] && b in t.rows[k]
                 && t1.rows[k] == t.rows[k][TempColumn := DiffCell(t.rows[k][a], t.rows[k][b])]
  {
  }

  /** With the default threshold of zero, every present key of the group column comes back. */
  lemma GroupsByDifferenceDefaultThreshold(t: Table, g: string, a: string, b: string)
    requires WellFormed(t) && GroupsRun(t, g, a, b, 0.0).1.Ok?
    ensures g in t.columns
    ensures forall k :: 0 <= k < |t.rows| && t.rows[k][g] != Missing ==>
              t.rows[k][g] in GroupsRun(t, g, a, b, 0.0).1.value
  {
    GroupsByDifferenceSelects(t, g, a, b, 0.0);
  }

  /**
   * After a successful call the frame has its rows back without `temp_diff`:
   * a frame that had no such column is restored exactly, one that had one
   * loses it.
   */
  lemma GroupsRunRestoresFrame(t: Table, g: string, a: string, b: string, threshold: real)
    requires WellFormed(t) && GroupsRun(t, g, a, b, threshold).1.Ok?
    ensures var after := GroupsRun(t, g, a, b, threshold).0;
            && after.index == t.index && |after.rows| == |t.rows|
            && ColumnSet(after.columns) == ColumnSet(t.columns) - {TempColumn}
            && (forall k :: 0 <= k < |t.rows| ==> after.rows[k] == t.rows[k] - {TempColumn})
    ensures TempColumn !in t.columns ==> GroupsRun(t, g, a, b, threshold).0 == t
  {
    DropAfterSet(t, TempColumn, DiffColumn(t, a, b).value);
  }

  // ---------------------------------------------------------------------
  // disjunctive_union_lists
  // ---------------------------------------------------------------------

  /** `list(set(xs) - set(ys))`, elements in order of first appearance. */
  function Minus<T(==,!new)>(xs: seq<T>, ys: seq<T>): (r: seq<T>)
    ensures Distinct(r)
    ensures forall x :: x in r <==> x in xs && x !in ys
  {
    if xs == [] then []
    else
      var n := |xs| - 1;
      var front := Minus(xs[..n], ys);
      assert forall x :: x in xs <==> x in xs[..n] || x == xs[n] by {
        assert xs == xs[..n] + [xs[n]];
      }
      if xs[n] in ys || xs[n] in front then front else front + [xs[n]]
  }

  /** `disjunctive_union_lists(li1, li2)`: the symmetric difference, as a list without repeats. */
  function DisjunctiveUnionLists<T(==,!new)>(li1: seq<T>, li2: seq<T>): (r: seq<T>)
    ensures Distinct(r)
    ensures forall x :: x in r <==> (x in li1) != (x in li2)
  {
    var left, right := Minus(li1, li2), Minus(li2, li1);
    assert forall i, j :: 0 <= i < |left| && 0 <= j < |right| ==> left[i] != right[j] by {
      forall i, j | 0 <= i < |left| && 0 <= j < |right| ensures left[i] != right[j] {
        assert left[i] in left && right[j] in right;
      }
    }
    left + right
  }

  /** In a list without repeats every member occurs once. */
  lemma {:induction false} DistinctOccursOnce<T>(s: seq<T>, x: T)
    requires Distinct(s)
    ensures multiset(s)[x] == if x in s then 1 else 0
  {
    if s != [] {
      var n := |s| - 1;
      assert s == s[..n] + [s[n]];
      assert Distinct(s[..n]);
      DistinctOccursOnce(s[..n], x);
      assert s[n] !in s[..n];
    }
  }

  /** Swapping the arguments gives the same elements, each once: the same list up to order. */
  lemma DisjunctiveUnionSymmetric<T(!new)>(li1: seq<T>, li2: seq<T>)
    ensures multiset(DisjunctiveUnionLists(li1, li2)) == multiset(DisjunctiveUnionLists(li2, li1))
  {
    var r, s := DisjunctiveUnionLists(li1, li2), DisjunctiveUnionLists(li2, li1);
    forall x
      ensures multiset(r)[x] == multiset(s)[x]
    {
      DistinctOccursOnce(r, x);
      DistinctOccursOnce(s, x);
    }
  }
}
