/**
 * Partitioning and split assembly (src/data/splitting.py): the split of a
 * time series at a date, and `prepare_data_splits`, which computes the
 * predictors' mean and standard deviation once from the whole frame and then,
 * split by split, selects the rows, optionally reorders them, standardizes
 * the predictors and takes the target.
 *
 * Arithmetic is exact over `real`; the square root is a parameter.
 */
module Splitting {
  import opened Values
  import opened Frames

  // ---------------------------------------------------------------------
  // time_series_split
  // ---------------------------------------------------------------------

  /** `df['Date'] < split_date`: a missing date compares false. */
  function BeforeMask(t: Table, splitDate: string): (mask: seq<bool>)
    requires WellFormed(t) && "Date" in t.columns
    ensures |mask| == |t.rows|
    ensures forall k :: 0 <= k < |t.rows| ==>
              (mask[k] <==> t.rows[k]["Date"].Text? && StrLess(t.rows[k]["Date"].s, splitDate))
  {
    seq(|t.rows|, k requires 0 <= k < |t.rows| => t.rows[k]["Date"].Text? && StrLess(t.rows[k]["Date"].s, splitDate))
  }

  /** `df['Date'] >= split_date`: a missing date compares false. */
  function AtOrAfterMask(t: Table, splitDate: string): (mask: seq<bool>)
    requires WellFormed(t) && "Date" in t.columns
    ensures |mask| == |t.rows|
    ensures forall k :: 0 <= k < |t.rows| ==>
              (mask[k] <==> t.rows[k]["Date"].Text? && StrLe(splitDate, t.rows[k]["Date"].s))
  {
    seq(|t.rows|, k requires 0 <= k < |t.rows| => t.rows[k]["Date"].Text? && StrLe(splitDate, t.rows[k]["Date"].s))
  }

  /**
   * `time_series_split(df, split_date)`: the rows dated before the split
   * date and the rows dated on or after it, each in the frame's order.
   * Comparing a numeric date column with the string raises TypeError.
   */
  function TimeSeriesSplit(t: Table, splitDate: string): (r: Result<(Table, Table)>)
    requires WellFormed(t)
    ensures "Date" !in t.columns ==> r == Err(KeyNotFound("Date"))
    ensures "Date" in t.columns ==> (r.Err? <==> HasNumber(t, "Date"))
    ensures "Date" in t.columns && r.Err? ==> r.error == TypeMismatch
    ensures r.Ok? ==> WellFormed(r.value.0) && WellFormed(r.value.1)
    ensures r.Ok? ==> r.value.0.columns == t.columns && r.value.1.columns == t.columns
    ensures r.Ok? ==> r.value.0.rows == KeptRows(t.rows, BeforeMask(t, splitDate))
    ensures r.Ok? ==> r.value.1.rows == KeptRows(t.rows, AtOrAfterMask(t, splitDate))
    ensures r.Ok? ==> forall row: Row :: row in r.value.0.rows ==>
              "Date" in row && row["Date"].Text? && StrLess(row["Date"].s, splitDate)
    ensures r.Ok? ==> forall row: Row :: row in r.value.1.rows ==>
              "Date" in row && row["Date"].Text? && StrLe(splitDate, row["Date"].s)
  {
    if "Date" !in t.columns then Err(KeyNotFound("Date"))
    else if HasNumber(t, "Date") then Err(TypeMismatch)
    else
      RowsOfSelect(t, BeforeMask(t, splitDate));
      RowsOfSelect(t, AtOrAfterMask(t, splitDate));
      Ok((Select(t, BeforeMask(t, splitDate)), Select(t, AtOrAfterMask(t, splitDate))))
  }

  /**
   * No row goes to both halves, and when every row has a date the two halves
   * together hold every row of the frame exactly once.
   */
  lemma TimeSeriesSplitPartitions(t: Table, splitDate: string)
    requires WellFormed(t) && TimeSeriesSplit(t, splitDate).Ok?
    ensures forall k :: 0 <= k < |t.rows| ==> !(BeforeMask(t, splitDate)[k] && AtOrAfterMask(t, splitDate)[k])
    ensures (forall k :: 0 <= k < |t.rows| ==> t.rows[k]["Date"] != Missing) ==>
              var (train, test) := TimeSeriesSplit(t, splitDate).value;
              multiset(train.rows) + multiset(test.rows) == multiset(t.rows)
  {
    var before, after := BeforeMask(t, splitDate), AtOrAfterMask(t, splitDate);
    forall k | 0 <= k < |t.rows| && t.rows[k]["Date"].Text?
      ensures after[k] == !before[k]
    {
      StrGeIsNotLess(t.rows[k]["Date"].s, splitDate);
    }
    if forall k :: 0 <= k < |t.rows| ==> t.rows[k]["Date"] != Missing {
      assert forall k :: 0 <= k < |t.rows| ==> t.rows[k]["Date"].Text?;
      KeptRowsComplement(t.rows, before, after);
    }
  }

  /** A row with a missing date goes to neither half. */
  lemma TimeSeriesSplitDropsUndated(t: Table, splitDate: string, k: int)
    requires WellFormed(t) && TimeSeriesSplit(t, splitDate).Ok?
    requires 0 <= k < |t.rows| && t.rows[k]["Date"] == Missing
    ensures t.rows[k] !in TimeSeriesSplit(t, splitDate).value.0.rows
    ensures t.rows[k] !in TimeSeriesSplit(t, splitDate).value.1.rows
  {
  }

  // ---------------------------------------------------------------------
  // Whole-frame statistics: `df[predictors].to_numpy()`, `.mean(axis=0)`,
  // `.std(axis=0)`
  // ---------------------------------------------------------------------

  function Sum(xs: seq<real>): real {
    if xs == [] then 0.0 else Sum(xs[..|xs| - 1]) + xs[|xs| - 1]
  }

  /** The arithmetic mean. */
  function Mean(xs: seq<real>): (m: real)
    requires |xs| > 0
    ensures m * (|xs| as real) == Sum(xs)
  {
    Sum(xs) / (|xs| as real)
  }

  /** Sum of squared deviations from `m`. */
  function SumSquares(xs: seq<real>, m: real): (r: real)
    ensures r >= 0.0
  {
    if xs == [] then 0.0
    else
      SquareSign(xs[|xs| - 1] - m);
      SumSquares(xs[..|xs| - 1], m) + Square(xs[|xs| - 1] - m)
  }

  /** The population variance (`ddof=0`, numpy's default). */
  function Variance(xs: seq<real>): (v: real)
    requires |xs| > 0
    ensures v >= 0.0
  {
    SumSquares(xs, Mean(xs)) / (|xs| as real)
  }

  /** `d * d`, kept behind a function so the solver treats the product as one term. */
  function Square(d: real): real {
    d * d
  }

  lemma SquarePositive(d: real)
    requires d > 0.0
    ensures Square(d) > 0.0
  {
    calc {
      Square(d);
      d * d;
    > { assert d * d > 0.0 * d; }
      0.0;
    }
  }

  /** A square is never negative, and is zero only for zero. */
  lemma SquareSign(d: real)
    ensures Square(d) >= 0.0
    ensures d == 0.0 || Square(d) > 0.0
  {
    if d > 0.0 {
      SquarePositive(d);
    } else if d < 0.0 {
      SquarePositive(-d);
      assert Square(d) == Square(-d);
    }
  }

  lemma {:induction false} SumSquaresZero(xs: seq<real>, m: real)
    ensures SumSquares(xs, m) == 0.0 <==> forall i :: 0 <= i < |xs| ==> xs[i] == m
  {
    if xs != [] {
      var n := |xs| - 1;
      SumSquaresZero(xs[..n], m);
      SquareSign(xs[n] - m);
      assert forall i :: 0 <= i < n ==> xs[..n][i] == xs[i];
    }
  }

  lemma {:induction false} SumConstant(xs: seq<real>, c: real)
    requires forall i :: 0 <= i < |xs| ==> xs[i] == c
    ensures Sum(xs) == (|xs| as real) * c
  {
    if xs != [] {
      SumConstant(xs[..|xs| - 1], c);
    }
  }

  /** The population variance of a non-empty column is zero exactly when the column is constant. */
  lemma ZeroVarianceIffConstant(xs: seq<real>)
    requires |xs| > 0
    ensures Variance(xs) == 0.0 <==> forall i :: 0 <= i < |xs| ==> xs[i] == xs[0]
  {
    var m := Mean(xs);
    SumSquaresZero(xs, m);
    if forall i :: 0 <= i < |xs| ==> xs[i] == xs[0] {
      SumConstant(xs, xs[0]);
      assert m * (|xs| as real) == (|xs| as real) * xs[0];
      assert m == xs[0];
    }
  }

  /** The numbers of a column with no missing or string cell. */
  function Numbers(t: Table, c: string): (xs: seq<real>)
    requires WellFormed(t) && c in t.columns
    requires forall k :: 0 <= k < |t.rows| ==> t.rows[k][c].Num?
    ensures |xs| == |t.rows| && forall k :: 0 <= k < |t.rows| ==> t.rows[k][c] == Num(xs[k])
  {
    seq(|t.rows|, k requires 0 <= k < |t.rows| => t.rows[k][c].x)
  }

  datatype Stats = Stats(mean: seq<Value>, std: seq<Value>)

  /**
   * Mean and standard deviation of one numeric column. NaN (`Missing`) when
   * the column is empty or holds a missing value, as numpy gives.
   */
  function ColumnStats(t: Table, c: string, sqrt: real -> real): (r: (Value, Value))
    requires WellFormed(t) && c in t.columns && !HasText(t, c)
    ensures r.0.Num? <==> |t.rows| > 0 && forall k :: 0 <= k < |t.rows| ==> t.rows[k][c] != Missing
    ensures r.1.Num? <==> r.0.Num?
    ensures r.0.Num? ==> r.0.x == Mean(Numbers(t, c)) && r.1.x == sqrt(Variance(Numbers(t, c)))
  {
    if |t.rows| == 0 || exists k :: 0 <= k < |t.rows| && t.rows[k][c] == Missing then (Missing, Missing)
    else
      assert forall k :: 0 <= k < |t.rows| ==> t.rows[k][c].Num?;
      var xs := Numbers(t, c);
      (Num(Mean(xs)), Num(sqrt(Variance(xs))))
  }

  /**
   * With a square root that is zero only at zero, a complete numeric column
   * gets a zero standard deviation exactly when it is constant, and then
   * every cell standardized against it is `Missing`.
   */
  lemma ZeroStdIffConstant(t: Table, c: string, sqrt: real -> real)
    requires WellFormed(t) && c in t.columns && !HasText(t, c)
    requires |t.rows| > 0 && forall k :: 0 <= k < |t.rows| ==> t.rows[k][c] != Missing
    requires forall v :: v >= 0.0 ==> (sqrt(v) == 0.0 <==> v == 0.0)
    ensures ColumnStats(t, c, sqrt).1 == Num(0.0) <==>
              forall k :: 0 <= k < |t.rows| ==> t.rows[k][c] == t.rows[0][c]
    ensures ColumnStats(t, c, sqrt).1 == Num(0.0) ==>
              forall w :: Standardize(w, ColumnStats(t, c, sqrt).0, ColumnStats(t, c, sqrt).1) == Missing
  {
    assert forall k :: 0 <= k < |t.rows| ==> t.rows[k][c].Num?;
    var xs := Numbers(t, c);
    ZeroVarianceIffConstant(xs);
    assert (forall k :: 0 <= k < |t.rows| ==> t.rows[k][c] == t.rows[0][c]) <==>
           (forall i :: 0 <= i < |xs| ==> xs[i] == xs[0]);
  }

  /** Some predictor column holds a string: numpy's mean over the object array raises TypeError. */
  predicate TextInColumns(t: Table, cols: seq<string>)
    requires WellFormed(t) && forall c :: c in cols ==> c in t.columns
  {
    exists j :: 0 <= j < |cols| && HasText(t, cols[j])
  }

  /** `x_mean`, `x_std` over the whole frame, one entry per predictor, in the predictors' order. */
  function Statistics(t: Table, predictors: seq<string>, sqrt: real -> real): (r: Result<Stats>)
    requires WellFormed(t)
    ensures FirstAbsent(predictors, t).Some? ==> r == Err(KeyNotFound(FirstAbsent(predictors, t).value))
    ensures FirstAbsent(predictors, t).None? ==> (r.Err? <==> TextInColumns(t, predictors))
    ensures FirstAbsent(predictors, t).None? && r.Err? ==> r.error == TypeMismatch
    ensures r.Ok? ==> |r.value.mean| == |predictors| && |r.value.std| == |predictors|
    ensures r.Ok? ==> forall j :: 0 <= j < |predictors| ==>
              predictors[j] in t.columns && !HasText(t, predictors[j])
              && (r.value.mean[j], r.value.std[j]) == ColumnStats(t, predictors[j], sqrt)
  {
    match FirstAbsent(predictors, t)
    case Some(c) => Err(KeyNotFound(c))
    case None =>
      if TextInColumns(t, predictors) then Err(TypeMismatch)
      else
        var cs := seq(|predictors|, j requires 0 <= j < |predictors| => ColumnStats(t, predictors[j], sqrt));
        Ok(Stats(seq(|cs|, j requires 0 <= j < |cs| => cs[j].0), seq(|cs|, j requires 0 <= j < |cs| => cs[j].1)))
  }

  // ---------------------------------------------------------------------
  // One split
  // ---------------------------------------------------------------------

  /**
   * A value of `splits_info`: a numpy array goes to `df.iloc`, anything else
   * to `df[...]`. Modelled: an integer array, a boolean array, and a list of
   * booleans.
   */
  datatype Selector =
    | IntArray(positions: seq<int>)
    | BoolArray(flags: seq<bool>)
    | BoolList(items: seq<bool>)

  /** A position `iloc` accepts: from the front, or negative from the back. */
  predicate InBounds(p: int, n: nat) {
    -(n as int) <= p < n
  }

  function Normalize(p: int, n: nat): (q: nat)
    requires InBounds(p, n)
    ensures q < n && (p >= 0 ==> q == p) && (p < 0 ==> q == p + n)
  {
    if p < 0 then p + n else p
  }

  /**
   * The sub-frame a selector picks, with pandas' errors for bad positions and
   * masks of the wrong length. An empty list is not a boolean mask to pandas:
   * `df[[]]` selects no columns and keeps every row.
   */
  function SubFrame(t: Table, sel: Selector): (r: Result<Table>)
    requires WellFormed(t)
    ensures sel.IntArray? ==>
              (r.Err? <==> exists k :: 0 <= k < |sel.positions| && !InBounds(sel.positions[k], |t.rows|))
    ensures sel.IntArray? && r.Err? ==> r.error == PositionOutOfRange
    ensures sel.IntArray? && r.Ok? ==>
              |r.value.rows| == |sel.positions| &&
              forall k :: 0 <= k < |sel.positions| ==>
                r.value.rows[k] == t.rows[Normalize(sel.positions[k], |t.rows|)]
    ensures sel.BoolArray? ==> (r.Err? <==> |sel.flags| != |t.rows|)
    ensures sel.BoolArray? && r.Err? ==> r.error == PositionOutOfRange
    ensures sel.BoolArray? && r.Ok? ==> r.value.rows == KeptRows(t.rows, sel.flags)
    ensures sel.BoolList? ==> (r.Err? <==> sel.items != [] && |sel.items| != |t.rows|)
    ensures sel.BoolList? && r.Err? ==> r.error == InvalidValue
    ensures sel.BoolList? && sel.items != [] && r.Ok? ==> r.value.rows == KeptRows(t.rows, sel.items)
    ensures sel == BoolList([]) ==>
              r.Ok? && r.value.columns == [] && r.value.index == t.index && |r.value.rows| == |t.rows|
    ensures r.Ok? ==> WellFormed(r.value) && (sel != BoolList([]) ==> r.value.columns == t.columns)
  {
    match sel
    case IntArray(ps) =>
      if exists k :: 0 <= k < |ps| && !InBounds(ps[k], |t.rows|) then Err(PositionOutOfRange)
      else Ok(Take(t, seq(|ps|, k requires 0 <= k < |ps| => Normalize(ps[k], |t.rows|))))
    case BoolArray(mask) =>
      if |mask| != |t.rows| then Err(PositionOutOfRange)
      else
        RowsOfSelect(t, mask);
        Ok(Select(t, mask))
    case BoolList(mask) =>
      if mask == [] then Ok(Table([], t.index, seq(|t.rows|, k => map[])))
      else if |mask| != |t.rows| then Err(InvalidValue)
      else
        RowsOfSelect(t, mask);
        Ok(Select(t, mask))
  }

  /** The optional `sort_func` takes a frame to a frame (or raises). */
  ghost predicate KeepsWellFormed(sortFunc: Option<Table -> Result<Table>>) {
    sortFunc.Some? ==>
      forall u :: WellFormed(u) && sortFunc.value(u).Ok? ==> WellFormed(sortFunc.value(u).value)
  }

  /** The split's frame: the selected rows, reordered by `sort_func` when one is given. */
  function SplitFrame(t: Table, sel: Selector, sortFunc: Option<Table -> Result<Table>>): (r: Result<Table>)
    requires WellFormed(t) && KeepsWellFormed(sortFunc)
    ensures r.Ok? ==> WellFormed(r.value)
    ensures sortFunc.None? ==> r == SubFrame(t, sel)
  {
    match SubFrame(t, sel)
    case Err(e) => Err(e)
    case Ok(u) => if sortFunc.Some? then sortFunc.value(u) else Ok(u)
  }

  /** `(x - mean) / std` on one cell; NaN in, or a zero deviation, gives `Missing`. */
  function Standardize(v: Value, mean: Value, std: Value): (r: Value)
    ensures r.Num? <==> v.Num? && mean.Num? && std.Num? && std.x != 0.0
    ensures r.Num? ==> r.x * std.x + mean.x == v.x
  {
    if v.Num? && mean.Num? && std.Num? && std.x != 0.0 then Num((v.x - mean.x) / std.x) else Missing
  }

  /** `X_k`, `Y_k` of one split. */
  datatype SplitArrays = SplitArrays(x: seq<seq<Value>>, y: seq<Value>)

  /**
   * One pass of the loop body: select, sort, then
   * `(split_df[predictors].to_numpy() - x_mean) / x_std` and
   * `split_df[target].to_numpy()` from the same frame, so row `i` of `X_k`
   * and entry `i` of `Y_k` come from the same row.
   */
  function SplitOutput(t: Table, predictors: seq<string>, target: string, sel: Selector,
                       sortFunc: Option<Table -> Result<Table>>, stats: Stats): (r: Result<SplitArrays>)
    requires WellFormed(t) && KeepsWellFormed(sortFunc)
    requires |stats.mean| == |predictors| && |stats.std| == |predictors|
    ensures r.Ok? ==> SplitFrame(t, sel, sortFunc).Ok?
    ensures r.Ok? ==>
              var u := SplitFrame(t, sel, sortFunc).value;
              && |r.value.x| == |u.rows| && |r.value.y| == |u.rows|
              && target in u.columns
              && (forall j :: 0 <= j < |predictors| ==> predictors[j] in u.columns)
              && (forall i :: 0 <= i < |u.rows| ==> r.value.y[i] == u.rows[i][target])
              && (forall i :: 0 <= i < |u.rows| ==> |r.value.x[i]| == |predictors|)
              && forall i, j :: 0 <= i < |u.rows| && 0 <= j < |predictors| ==>
                   r.value.x[i][j] == Standardize(u.rows[i][predictors[j]], stats.mean[j], stats.std[j])
  {
    match SplitFrame(t, sel, sortFunc)
    case Err(e) => Err(e)
    case Ok(u) =>
      match FirstAbsent(predictors, u)
      case Some(c) => Err(KeyNotFound(c))
      case None =>
        if TextInColumns(u, predictors) then Err(TypeMismatch)
        else if target !in u.columns then Err(KeyNotFound(target))
        else
          var x := seq(|u.rows|, i requires 0 <= i < |u.rows| =>
                     seq(|predictors|, j requires 0 <= j < |predictors| =>
                       Standardize(u.rows[i][predictors[j]], stats.mean[j], stats.std[j])));
          Ok(SplitArrays(x, Column(u, target)))
  }

  /** Without `sort_func`, `X_k` and `Y_k` have one row per selected position, or per set flag. */
  lemma SplitRowCount(t: Table, predictors: seq<string>, target: string, sel: Selector, stats: Stats)
    requires WellFormed(t) && |stats.mean| == |predictors| && |stats.std| == |predictors|
    requires SplitOutput(t, predictors, target, sel, None, stats).Ok?
    ensures var out := SplitOutput(t, predictors, target, sel, None, stats).value;
            && |out.x| == |out.y|
            && (sel.IntArray? ==> |out.y| == |sel.positions|)
            && (sel.BoolArray? ==> |out.y| == |Positions(sel.flags)|)
            && (sel.BoolList? ==> |out.y| == |Positions(sel.items)|)
  {
    if sel.BoolArray? {
      RowsOfSelect(t, sel.flags);
    } else if sel.BoolList? {
      RowsOfSelect(t, sel.items);
    }
  }

  /**
   * An empty list as a split's selector picks no columns, so reading the
   * predictors, or the target when there are none, raises KeyError.
   */
  lemma EmptyListSplitFails(t: Table, predictors: seq<string>, target: string, stats: Stats)
    requires WellFormed(t) && |stats.mean| == |predictors| && |stats.std| == |predictors|
    ensures var r := SplitOutput(t, predictors, target, BoolList([]), None, stats);
            && (predictors != [] ==> r == Err(KeyNotFound(predictors[0])))
            && (predictors == [] ==> r == Err(KeyNotFound(target)))
  {
    var u := SubFrame(t, BoolList([])).value;
    if predictors != [] {
      assert predictors[0] !in u.columns;
    }
  }

  // ---------------------------------------------------------------------
  // prepare_data_splits
  // ---------------------------------------------------------------------

  /** A value of the returned `data` dict. */
  datatype NdArray = Matrix(rows: seq<seq<Value>>) | Vector(cells: seq<Value>)

  /** `(data, x_mean, x_std)`. */
  datatype Prepared = Prepared(data: map<string, NdArray>, mean: seq<Value>, std: seq<Value>)

  function SplitKeys(splitsInfo: seq<(string, Selector)>): (keys: seq<string>)
    ensures |keys| == |splitsInfo| && forall i :: 0 <= i < |splitsInfo| ==> keys[i] == splitsInfo[i].0
  {
    seq(|splitsInfo|, i requires 0 <= i < |splitsInfo| => splitsInfo[i].0)
  }

  /** The keys `data` ends up with: `X_k` and `Y_k` for every split key `k`. */
  function DataNames(splitsInfo: seq<(string, Selector)>): set<string> {
    (set i | 0 <= i < |splitsInfo| :: "X_" + splitsInfo[i].0) + (set i | 0 <= i < |splitsInfo| :: "Y_" + splitsInfo[i].0)
  }

  /** The loop over `splits_info`, from a partly filled `data`: stops at the first split that raises. */
  function FillSplits(data: map<string, NdArray>, t: Table, predictors: seq<string>, target: string,
                      splits: seq<(string, Selector)>, sortFunc: Option<Table -> Result<Table>>,
                      stats: Stats): Result<map<string, NdArray>>
    requires WellFormed(t) && KeepsWellFormed(sortFunc)
    requires |stats.mean| == |predictors| && |stats.std| == |predictors|
    decreases |splits|
  {
    if splits == [] then Ok(data)
    else
      match SplitOutput(t, predictors, target, splits[0].1, sortFunc, stats)
      case Err(e) => Err(e)
      case Ok(out) =>
        var k := splits[0].0;
        FillSplits(data["X_" + k := Matrix(out.x)]["Y_" + k := Vector(out.y)],
                   t, predictors, target, splits[1..], sortFunc, stats)
  }

  /**
   * `prepare_data_splits(df, predictors, target, splits_info, sort_func)`:
   * the statistics come from the whole frame, before and independent of any
   * split.
   */
  function Prepare(t: Table, predictors: seq<string>, target: string, splitsInfo: seq<(string, Selector)>,
                   sortFunc: Option<Table -> Result<Table>>, sqrt: real -> real): (r: Result<Prepared>)
    requires WellFormed(t) && KeepsWellFormed(sortFunc)
    ensures r.Ok? ==> Statistics(t, predictors, sqrt) == Ok(Stats(r.value.mean, r.value.std))
    ensures Statistics(t, predictors, sqrt).Err? ==> r == Err(Statistics(t, predictors, sqrt).error)
  {
    match Statistics(t, predictors, sqrt)
    case Err(e) => Err(e)
    case Ok(stats) =>
      match FillSplits(map[], t, predictors, target, splitsInfo, sortFunc, stats)
      case Err(e) => Err(e)
      case Ok(data) => Ok(Prepared(data, stats.mean, stats.std))
  }

  /** `prepare_data_splits` as the code runs it: statistics first, then one split per iteration. */
  method PrepareDataSplits(t: Table, predictors: seq<string>, target: string, splitsInfo: seq<(string, Selector)>,
                           sortFunc: Option<Table -> Result<Table>>, sqrt: real -> real)
    returns (r: Result<Prepared>)
    requires WellFormed(t) && KeepsWellFormed(sortFunc)
    ensures r == Prepare(t, predictors, target, splitsInfo, sortFunc, sqrt)
  {
    var stats := Statistics(t, predictors, sqrt);
    if stats.Err? {
      return Err(stats.error);
    }
    var data: map<string, NdArray> := map[];
    var i := 0;
    while i < |splitsInfo|
      invariant 0 <= i <= |splitsInfo|
      invariant FillSplits(data, t, predictors, target, splitsInfo[i..], sortFunc, stats.value)
             == FillSplits(map[], t, predictors, target, splitsInfo, sortFunc, stats.value)
    {
      assert splitsInfo[i..][0] == splitsInfo[i] && splitsInfo[i..][1..] == splitsInfo[i + 1..];
      var (k, sel) := splitsInfo[i];
      var out := SplitOutput(t, predictors, target, sel, sortFunc, stats.value);
      if out.Err? {
        return Err(out.error);
      }
      data := data["X_" + k := Matrix(out.value.x)]["Y_" + k := Vector(out.value.y)];
      i := i + 1;
    }
    return Ok(Prepared(data, stats.value.mean, stats.value.std));
  }

  lemma {:induction false} FillSplitsKeys(data: map<string, NdArray>, t: Table, predictors: seq<string>, target: string,
                                          splits: seq<(string, Selector)>, sortFunc: Option<Table -> Result<Table>>,
                                          stats: Stats)
    requires WellFormed(t) && KeepsWellFormed(sortFunc)
    requires |stats.mean| == |predictors| && |stats.std| == |predictors|
    requires FillSplits(data, t, predictors, target, splits, sortFunc, stats).Ok?
    ensures FillSplits(data, t, predictors, target, splits, sortFunc, stats).value.Keys == data.Keys + DataNames(splits)
    decreases |splits|
  {
    if splits != [] {
      var out := SplitOutput(t, predictors, target, splits[0].1, sortFunc, stats).value;
      var k := splits[0].0;
      var next := data["X_" + k := Matrix(out.x)]["Y_" + k := Vector(out.y)];
      FillSplitsKeys(next, t, predictors, target, splits[1..], sortFunc, stats);
      assert DataNames(splits) == {"X_" + k, "Y_" + k} + DataNames(splits[1..]) by {
        forall i | 1 <= i < |splits| ensures splits[i] == splits[1..][i - 1] { }
        forall i | 0 <= i < |splits[1..]| ensures splits[1..][i] == splits[i + 1] { }
      }
    }
  }

  /** The returned `data` has exactly the keys `X_k` and `Y_k`, one pair per key of `splits_info`. */
  lemma PrepareKeys(t: Table, predictors: seq<string>, target: string, splitsInfo: seq<(string, Selector)>,
                    sortFunc: Option<Table -> Result<Table>>, sqrt: real -> real)
    requires WellFormed(t) && KeepsWellFormed(sortFunc)
    requires Prepare(t, predictors, target, splitsInfo, sortFunc, sqrt).Ok?
    ensures Prepare(t, predictors, target, splitsInfo, sortFunc, sqrt).value.data.Keys == DataNames(splitsInfo)
  {
    var stats := Statistics(t, predictors, sqrt).value;
    FillSplitsKeys(map[], t, predictors, target, splitsInfo, sortFunc, stats);
  }

  /** Keys made from distinct split keys do not collide. */
  lemma DataNamesDistinct(a: string, b: string)
    ensures "X_" + a == "X_" + b ==> a == b
    ensures "Y_" + a == "Y_" + b ==> a == b
    ensures "X_" + a != "Y_" + b
  {
    assert ("X_" + a)[0] == 'X' && ("Y_" + b)[0] == 'Y';
    if "X_" + a == "X_" + b {
      assert a == ("X_" + a)[2..];
    }
    if "Y_" + a == "Y_" + b {
      assert a == ("Y_" + a)[2..];
    }
  }

  /** With distinct split keys, no later split writes the first split's `X_k` or `Y_k`. */
  lemma HeadNamesFresh(splits: seq<(string, Selector)>)
    requires splits != [] && Distinct(SplitKeys(splits))
    ensures Distinct(SplitKeys(splits[1..]))
    ensures "X_" + splits[0].0 !in DataNames(splits[1..]) && "Y_" + splits[0].0 !in DataNames(splits[1..])
  {
    var k := splits[0].0;
    assert SplitKeys(splits[1..]) == SplitKeys(splits)[1..];
    forall i | 0 <= i < |splits[1..]|
      ensures "X_" + k != "X_" + splits[1..][i].0 && "X_" + k != "Y_" + splits[1..][i].0
      ensures "Y_" + k != "X_" + splits[1..][i].0 && "Y_" + k != "Y_" + splits[1..][i].0
    {
      assert splits[1..][i] == splits[i + 1];
      assert SplitKeys(splits)[0] != SplitKeys(splits)[i + 1];
      DataNamesDistinct(k, splits[1..][i].0);
      DataNamesDistinct(splits[1..][i].0, k);
    }
  }

  lemma {:induction false} FillSplitsContents(data: map<string, NdArray>, t: Table, predictors: seq<string>, target: string,
                                              splits: seq<(string, Selector)>, sortFunc: Option<Table -> Result<Table>>,
                                              stats: Stats)
    requires WellFormed(t) && KeepsWellFormed(sortFunc)
    requires |stats.mean| == |predictors| && |stats.std| == |predictors|
    requires Distinct(SplitKeys(splits))
    requires FillSplits(data, t, predictors, target, splits, sortFunc, stats).Ok?
    ensures forall i :: 0 <= i < |splits| ==>
              var out := SplitOutput(t, predictors, target, splits[i].1, sortFunc, stats);
              var m := FillSplits(data, t, predictors, target, splits, sortFunc, stats).value;
              && out.Ok?
              && "X_" + splits[i].0 in m && m["X_" + splits[i].0] == Matrix(out.value.x)
              && "Y_" + splits[i].0 in m && m["Y_" + splits[i].0] == Vector(out.value.y)
    decreases |splits|
  {
    if splits != [] {
      var out0 := SplitOutput(t, predictors, target, splits[0].1, sortFunc, stats).value;
      var k := splits[0].0;
      var next := data["X_" + k := Matrix(out0.x)]["Y_" + k := Vector(out0.y)];
      var m := FillSplits(data, t, predictors, target, splits, sortFunc, stats).value;
      assert m == FillSplits(next, t, predictors, target, splits[1..], sortFunc, stats).value;
      HeadNamesFresh(splits);
      FillSplitsContents(next, t, predictors, target, splits[1..], sortFunc, stats);
      FillSplitsUntouched(next, t, predictors, target, splits[1..], sortFunc, stats, "X_" + k);
      FillSplitsUntouched(next, t, predictors, target, splits[1..], sortFunc, stats, "Y_" + k);
      DataNamesDistinct(k, k);
      assert m["X_" + k] == Matrix(out0.x) && m["Y_" + k] == Vector(out0.y);
      forall i | 1 <= i < |splits|
        ensures splits[i] == splits[1..][i - 1]
      {
      }
    }
  }

  /** A key no later split writes keeps its value. */
  lemma {:induction false} FillSplitsUntouched(data: map<string, NdArray>, t: Table, predictors: seq<string>, target: string,
                                               splits: seq<(string, Selector)>, sortFunc: Option<Table -> Result<Table>>,
                                               stats: Stats, key: string)
    requires WellFormed(t) && KeepsWellFormed(sortFunc)
    requires |stats.mean| == |predictors| && |stats.std| == |predictors|
    requires FillSplits(data, t, predictors, target, splits, sortFunc, stats).Ok?
    requires key in data && key !in DataNames(splits)
    ensures key in FillSplits(data, t, predictors, target, splits, sortFunc, stats).value
    ensures FillSplits(data, t, predictors, target, splits, sortFunc, stats).value[key] == data[key]
    decreases |splits|
  {
    if splits != [] {
      var out := SplitOutput(t, predictors, target, splits[0].1, sortFunc, stats).value;
      var k := splits[0].0;
      var next := data["X_" + k := Matrix(out.x)]["Y_" + k := Vector(out.y)];
      assert "X_" + k in DataNames(splits) && "Y_" + k in DataNames(splits);
      assert DataNames(splits[1..]) <= DataNames(splits) by {
        forall i | 0 <= i < |splits[1..]| ensures splits[1..][i] == splits[i + 1] { }
      }
      FillSplitsUntouched(next, t, predictors, target, splits[1..], sortFunc, stats, key);
    }
  }

  /**
   * For a successful call with distinct split keys: every split succeeded,
   * and `X_k` and `Y_k` are that split's standardized predictors and targets,
   * computed with the whole-frame statistics.
   */
  lemma PrepareContents(t: Table, predictors: seq<string>, target: string, splitsInfo: seq<(string, Selector)>,
                        sortFunc: Option<Table -> Result<Table>>, sqrt: real -> real)
    requires WellFormed(t) && KeepsWellFormed(sortFunc) && Distinct(SplitKeys(splitsInfo))
    requires Prepare(t, predictors, target, splitsInfo, sortFunc, sqrt).Ok?
    ensures var p := Prepare(t, predictors, target, splitsInfo, sortFunc, sqrt).value;
            forall i :: 0 <= i < |splitsInfo| ==>
              var out := SplitOutput(t, predictors, target, splitsInfo[i].1, sortFunc, Stats(p.mean, p.std));
              && out.Ok?
              && "X_" + splitsInfo[i].0 in p.data && p.data["X_" + splitsInfo[i].0] == Matrix(out.value.x)
              && "Y_" + splitsInfo[i].0 in p.data && p.data["Y_" + splitsInfo[i].0] == Vector(out.value.y)
  {
    var stats := Statistics(t, predictors, sqrt).value;
    FillSplitsContents(map[], t, predictors, target, splitsInfo, sortFunc, stats);
  }

  /** The call fails exactly when the statistics fail or some split does. */
  lemma {:induction false} FillSplitsFails(data: map<string, NdArray>, t: Table, predictors: seq<string>, target: string,
                                           splits: seq<(string, Selector)>, sortFunc: Option<Table -> Result<Table>>,
                                           stats: Stats)
    requires WellFormed(t) && KeepsWellFormed(sortFunc)
    requires |stats.mean| == |predictors| && |stats.std| == |predictors|
    ensures FillSplits(data, t, predictors, target, splits, sortFunc, stats).Err? <==>
              exists i :: 0 <= i < |splits| && SplitOutput(t, predictors, target, splits[i].1, sortFunc, stats).Err?
    decreases |splits|
  {
    if splits != [] {
      var first := SplitOutput(t, predictors, target, splits[0].1, sortFunc, stats);
      if first.Ok? {
        var k := splits[0].0;
        var next := data["X_" + k := Matrix(first.value.x)]["Y_" + k := Vector(first.value.y)];
        FillSplitsFails(next, t, predictors, target, splits[1..], sortFunc, stats);
        if exists i :: 0 <= i < |splits| && SplitOutput(t, predictors, target, splits[i].1, sortFunc, stats).Err? {
          var i :| 0 <= i < |splits| && SplitOutput(t, predictors, target, splits[i].1, sortFunc, stats).Err?;
          assert splits[i] == splits[1..][i - 1];
        }
        if exists i :: 0 <= i < |splits[1..]| && SplitOutput(t, predictors, target, splits[1..][i].1, sortFunc, stats).Err? {
          var i :| 0 <= i < |splits[1..]| && SplitOutput(t, predictors, target, splits[1..][i].1, sortFunc, stats).Err?;
          assert splits[1..][i] == splits[i + 1];
        }
      }
    }
  }
}
