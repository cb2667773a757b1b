/**
 * A pandas DataFrame as the data-preparation code sees it: an ordered list of
 * column names, one index label per row, and the rows, each a map from column
 * name to cell. The library operations the code relies on are written out as
 * sequence functions: column assignment (`df[c] = ...`), column drop,
 * positional selection (`df.iloc[...]`), boolean-mask selection
 * (`df[mask]`, `df.loc[mask]`) and `reset_index(drop=True)`.
 */
module Frames {
  import opened Values

  type Row = map<string, Value>

  datatype Table = Table(columns: seq<string>, index: seq<int>, rows: seq<Row>)

  function ColumnSet(columns: seq<string>): set<string> {
    set c | c in columns
  }

  /** Every row has exactly the frame's columns; one index label per row. */
  predicate WellFormed(t: Table) {
    && |t.index| == |t.rows|
    && Distinct(t.columns)
    && forall k :: 0 <= k < |t.rows| ==> t.rows[k].Keys == ColumnSet(t.columns)
  }

  /** `df[c]` as a list of cells. */
  function Column(t: Table, c: string): (vals: seq<Value>)
    requires WellFormed(t) && c in t.columns
    ensures |vals| == |t.rows|
    ensures forall k :: 0 <= k < |t.rows| ==> vals[k] == t.rows[k][c]
  {
    seq(|t.rows|, k requires 0 <= k < |t.rows| => t.rows[k][c])
  }

  /** The first listed column the frame lacks, if there is one. */
  function FirstAbsent(cols: seq<string>, t: Table): (r: Option<string>)
    ensures r.None? <==> forall c :: c in cols ==> c in t.columns
    ensures r.Some? ==> r.value in cols && r.value !in t.columns
  {
    if cols == [] then None
    else if cols[0] !in t.columns then Some(cols[0])
    else FirstAbsent(cols[1..], t)
  }

  /** Some cell of column `c` is a string. */
  predicate HasText(t: Table, c: string)
    requires WellFormed(t) && c in t.columns
  {
    exists k :: 0 <= k < |t.rows| && t.rows[k][c].Text?
  }

  /** Some cell of column `c` is a number. */
  predicate HasNumber(t: Table, c: string)
    requires WellFormed(t) && c in t.columns
  {
    exists k :: 0 <= k < |t.rows| && t.rows[k][c].Num?
  }

  /**
   * `df[c] = vals`: an existing column keeps its place and takes the new
   * values, a new column is appended; nothing else changes.
   */
  function SetColumn(t: Table, c: string, vals: seq<Value>): (r: Table)
    requires WellFormed(t) && |vals| == |t.rows|
    ensures WellFormed(r)
    ensures r.index == t.index && |r.rows| == |t.rows|
    ensures r.columns == if c in t.columns then t.columns else t.columns + [c]
    ensures forall k :: 0 <= k < |r.rows| ==> c in r.rows[k] && r.rows[k][c] == vals[k]
    ensures forall k, d :: 0 <= k < |r.rows| && d in t.rows[k] && d != c ==>
              d in r.rows[k] && r.rows[k][d] == t.rows[k][d]
  {
    var columns := if c in t.columns then t.columns else t.columns + [c];
    assert ColumnSet(columns) == ColumnSet(t.columns) + {c};
    Table(columns, t.index, seq(|t.rows|, k requires 0 <= k < |t.rows| => t.rows[k][c := vals[k]]))
  }

  /** Writing a column with the values it already holds changes nothing. */
  lemma SetColumnUnchanged(t: Table, c: string, vals: seq<Value>)
    requires WellFormed(t) && |vals| == |t.rows| && c in t.columns
    requires forall k :: 0 <= k < |t.rows| ==> t.rows[k][c] == vals[k]
    ensures SetColumn(t, c, vals) == t
  {
    var r := SetColumn(t, c, vals);
    forall k | 0 <= k < |t.rows|
      ensures r.rows[k] == t.rows[k]
    {
      assert r.rows[k] == t.rows[k][c := vals[k]];
    }
  }

  function Without(cs: seq<string>, c: string): (r: seq<string>)
    ensures ColumnSet(r) == ColumnSet(cs) - {c}
    ensures Distinct(cs) ==> Distinct(r)
  {
    if cs == [] then []
    else if cs[0] == c then Without(cs[1..], c)
    else
      var rest := Without(cs[1..], c);
      var r := [cs[0]] + rest;
      assert cs == [cs[0]] + cs[1..];
      assert ColumnSet(r) == {cs[0]} + ColumnSet(rest);
      assert Distinct(cs) ==> cs[0] !in ColumnSet(rest) && Distinct(rest);
      r
  }

  /** Dropping a column that was appended gives back the columns before it. */
  lemma {:induction false} WithoutAppended(cs: seq<string>, c: string)
    requires c !in cs
    ensures Without(cs + [c], c) == cs
  {
    if cs != [] {
      assert (cs + [c])[1..] == cs[1..] + [c];
      WithoutAppended(cs[1..], c);
    }
  }

  /** `df.drop(columns=[c])`: the column goes, everything else stays. */
  function DropColumn(t: Table, c: string): (r: Table)
    requires WellFormed(t)
    ensures WellFormed(r)
    ensures r.index == t.index && |r.rows| == |t.rows|
    ensures ColumnSet(r.columns) == ColumnSet(t.columns) - {c}
    ensures forall k :: 0 <= k < |r.rows| ==> r.rows[k] == t.rows[k] - {c}
  {
    Table(Without(t.columns, c), t.index, seq(|t.rows|, k requires 0 <= k < |t.rows| => t.rows[k] - {c}))
  }

  /**
   * Writing a column and then dropping it leaves every row without that
   * column; a frame that lacked it gets back exactly as it was.
   */
  lemma DropAfterSet(t: Table, c: string, vals: seq<Value>)
    requires WellFormed(t) && |vals| == |t.rows|
    ensures var r := DropColumn(SetColumn(t, c, vals), c);
            && r.index == t.index && |r.rows| == |t.rows|
            && ColumnSet(r.columns) == ColumnSet(t.columns) - {c}
            && forall k :: 0 <= k < |t.rows| ==> r.rows[k] == t.rows[k] - {c}
    ensures c !in t.columns ==> DropColumn(SetColumn(t, c, vals), c) == t
  {
    var t1 := SetColumn(t, c, vals);
    var r := DropColumn(t1, c);
    forall k | 0 <= k < |t.rows|
      ensures r.rows[k] == t.rows[k] - {c}
    {
      assert t1.rows[k] == t.rows[k][c := vals[k]];
    }
    if c !in t.columns {
      WithoutAppended(t.columns, c);
      forall k | 0 <= k < |t.rows|
        ensures r.rows[k] == t.rows[k]
      {
        assert c !in t.rows[k];
      }
    }
  }

  /** The positions where a boolean mask is true, in increasing order. */
  function Positions(mask: seq<bool>): (p: seq<nat>)
    ensures |p| <= |mask|
    ensures forall k :: 0 <= k < |p| ==> p[k] < |mask| && mask[p[k]]
    ensures forall i :: 0 <= i < |mask| && mask[i] ==> i in p
    ensures forall k, l :: 0 <= k < l < |p| ==> p[k] < p[l]
  {
    if mask == [] then []
    else
      var n := |mask| - 1;
      var front := Positions(mask[..n]);
      assert forall i :: 0 <= i < n && mask[i] ==> mask[..n][i];
      front + (if mask[n] then [n] else [])
  }

  /** `df.iloc[p]`: the rows at the given positions, with their index labels. */
  function Take(t: Table, p: seq<int>): (r: Table)
    requires WellFormed(t)
    requires forall k :: 0 <= k < |p| ==> 0 <= p[k] < |t.rows|
    ensures WellFormed(r) && r.columns == t.columns && |r.rows| == |p|
    ensures forall k :: 0 <= k < |p| ==> r.rows[k] == t.rows[p[k]] && r.index[k] == t.index[p[k]]
  {
    Table(t.columns,
          seq(|p|, k requires 0 <= k < |p| => t.index[p[k]]),
          seq(|p|, k requires 0 <= k < |p| => t.rows[p[k]]))
  }

  /**
   * `df[mask]` / `df.loc[mask]` for a boolean mask: the rows where the mask is
   * true, with their labels. That they come in their original order is
   * RowsOfSelect below.
   */
  function Select(t: Table, mask: seq<bool>): (r: Table)
    requires WellFormed(t) && |mask| == |t.rows|
    ensures WellFormed(r) && r.columns == t.columns && |r.rows| <= |t.rows|
    ensures forall row :: row in r.rows ==> exists i :: 0 <= i < |t.rows| && mask[i] && t.rows[i] == row
    ensures forall i :: 0 <= i < |t.rows| && mask[i] ==> t.rows[i] in r.rows
  {
    var p := Positions(mask);
    var r := Take(t, p);
    assert forall i :: 0 <= i < |t.rows| && mask[i] ==> t.rows[i] in r.rows by {
      forall i | 0 <= i < |t.rows| && mask[i] ensures t.rows[i] in r.rows {
        var k :| 0 <= k < |p| && p[k] == i;
        assert r.rows[k] == t.rows[i];
      }
    }
    r
  }

  /** Reference definition of a mask filter: walk the rows, keep those whose mask bit is set. */
  function KeptRows(rows: seq<Row>, mask: seq<bool>): seq<Row>
    requires |rows| == |mask|
  {
    if rows == [] then []
    else
      var n := |rows| - 1;
      KeptRows(rows[..n], mask[..n]) + (if mask[n] then [rows[n]] else [])
  }

  /** Mask selection keeps exactly the flagged rows, in their original order. */
  lemma {:induction false} RowsOfSelect(t: Table, mask: seq<bool>)
    requires WellFormed(t) && |mask| == |t.rows|
    ensures Select(t, mask).rows == KeptRows(t.rows, mask)
  {
    PickPositions(t.rows, mask);
  }

  lemma {:induction false} PickPositions(rows: seq<Row>, mask: seq<bool>)
    requires |rows| == |mask|
    ensures var p := Positions(mask);
            seq(|p|, k requires 0 <= k < |p| => rows[p[k]]) == KeptRows(rows, mask)
  {
    if rows != [] {
      var n := |rows| - 1;
      PickPositions(rows[..n], mask[..n]);
      var front := Positions(mask[..n]);
      var p := Positions(mask);
      assert p == front + (if mask[n] then [n] else []);
      var picked := seq(|p|, k requires 0 <= k < |p| => rows[p[k]]);
      var pickedFront := seq(|front|, k requires 0 <= k < |front| => rows[..n][front[k]]);
      assert picked[..|front|] == pickedFront;
      if mask[n] {
        assert picked == pickedFront + [rows[n]];
      } else {
        assert picked == pickedFront;
      }
    }
  }

  /** A mask that keeps every row keeps them all, in order. */
  lemma {:induction false} KeptRowsAll(rows: seq<Row>, mask: seq<bool>)
    requires |rows| == |mask|
    requires forall i :: 0 <= i < |mask| ==> mask[i]
    ensures KeptRows(rows, mask) == rows
  {
    if rows != [] {
      var n := |rows| - 1;
      KeptRowsAll(rows[..n], mask[..n]);
      assert rows == rows[..n] + [rows[n]];
    }
  }

  /** A mask that keeps no row keeps nothing. */
  lemma {:induction false} KeptRowsNone(rows: seq<Row>, mask: seq<bool>)
    requires |rows| == |mask|
    requires forall i :: 0 <= i < |mask| ==> !mask[i]
    ensures KeptRows(rows, mask) == []
  {
    if rows != [] {
      KeptRowsNone(rows[..|rows| - 1], mask[..|rows| - 1]);
    }
  }

  /** A mask and its negation split the rows between them: together they hold every row once. */
  lemma {:induction false} KeptRowsComplement(rows: seq<Row>, mask: seq<bool>, other: seq<bool>)
    requires |rows| == |mask| == |other|
    requires forall i :: 0 <= i < |mask| ==> other[i] == !mask[i]
    ensures multiset(KeptRows(rows, mask)) + multiset(KeptRows(rows, other)) == multiset(rows)
  {
    if rows != [] {
      var n := |rows| - 1;
      KeptRowsComplement(rows[..n], mask[..n], other[..n]);
      assert rows == rows[..n] + [rows[n]];
    }
  }

  /** The row labels `reset_index(drop=True)` gives: 0 .. n-1. */
  function Range(n: nat): (r: seq<int>)
    ensures |r| == n && forall i :: 0 <= i < n ==> r[i] == i
  {
    seq(n, i => i)
  }

  /** A mask that keeps every row keeps the frame as it is. */
  lemma SelectAll(t: Table, mask: seq<bool>)
    requires WellFormed(t) && |mask| == |t.rows|
    requires forall i :: 0 <= i < |mask| ==> mask[i]
    ensures Select(t, mask) == t
  {
    PositionsAll(mask);
    var r := Take(t, Range(|t.rows|));
    assert Select(t, mask) == r;
    assert r.rows == t.rows;
    assert r.index == t.index;
  }

  lemma {:induction false} PositionsAll(mask: seq<bool>)
    requires forall i :: 0 <= i < |mask| ==> mask[i]
    ensures Positions(mask) == Range(|mask|)
  {
    if mask != [] {
      var n := |mask| - 1;
      PositionsAll(mask[..n]);
      assert Positions(mask) == Range(n) + [n];
    }
  }

  /**
   * A frame the code changes in place. Its value at any moment is a `Table`;
   * the column-adding feature functions and the in-place cleaning paths
   * update it through `Assign`, `Drop` and `Update`.
   */
  class DataFrame {
    var columns: seq<string>
    var index: seq<int>
    var rows: seq<Row>

    function Snapshot(): Table
      reads this
    {
      Table(columns, index, rows)
    }

    ghost predicate Valid()
      reads this
    {
      WellFormed(Snapshot())
    }

    constructor (t: Table)
      requires WellFormed(t)
      ensures Valid() && Snapshot() == t
    {
      columns, index, rows := t.columns, t.index, t.rows;
    }

    /** `df[name] = vals` */
    method Assign(name: string, vals: seq<Value>)
      requires Valid() && |vals| == |rows|
      modifies this
      ensures Valid() && Snapshot() == SetColumn(old(Snapshot()), name, vals)
    {
      var t := SetColumn(Snapshot(), name, vals);
      columns, index, rows := t.columns, t.index, t.rows;
    }

    /** `df.drop(columns=[name], inplace=True)` */
    method Drop(name: string)
      requires Valid()
      modifies this
      ensures Valid() && Snapshot() == DropColumn(old(Snapshot()), name)
    {
      var t := DropColumn(Snapshot(), name);
      columns, index, rows := t.columns, t.index, t.rows;
    }

    /** The frame takes the value an in-place pandas operation computed. */
    method Update(t: Table)
      requires WellFormed(t)
      modifies this
      ensures Valid() && Snapshot() == t
    {
      columns, index, rows := t.columns, t.index, t.rows;
    }
  }
}
