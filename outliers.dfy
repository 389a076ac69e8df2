/**
 * core/outliers.py: outliers of a numeric column by the 1.5 x IQR fence
 * rule, and the per-column ranking of outlier percentages.
 *
 * The quartiles are inputs: pandas' interpolating quantile is floating-point
 * numerics and is not modelled.
 */
module Outliers {
  import opened Seqs
  import opened Frame

  /** The 25% and 75% quantiles of a column's non-null values. */
  datatype Quartiles = Quartiles(q1: real, q3: real)

  datatype OutlierStats = OutlierStats(outliers: nat, total: nat, outlierPct: real)

  /** One row of the ranking frame: {"column": c, **stats}. */
  datatype OutlierRow = OutlierRow(column: string, stats: OutlierStats)

  function RowOutlierPct(r: OutlierRow): real { r.stats.outlierPct }

  /** A non-null number strictly outside [lower, upper]; a value on a fence is not an outlier. */
  function OutsideFences(lower: real, upper: real): Cell -> bool
  {
    (o: Cell) => o.Some? && o.value.Num? && (o.value.x < lower || o.value.x > upper)
  }

  /** The positions of the non-null cells strictly outside the fences. */
  ghost function OutlierPositions(cells: seq<Cell>, lower: real, upper: real): set<int>
  {
    set k | 0 <= k < |cells| && cells[k].Some? && cells[k].value.Num?
      && (cells[k].value.x < lower || cells[k].value.x > upper)
  }

  /** ((s < lower) | (s > upper)).sum() over s = dropna(): exactly the cells outside the fences. */
  function OutlierCount(cells: seq<Cell>, lower: real, upper: real): (n: nat)
    ensures n == |OutlierPositions(cells, lower, upper)|
    ensures n <= NonNullCount(cells)
  {
    var p := OutsideFences(lower, upper);
    CountIsIndexSetSize(cells, p, |cells|);
    assert cells[..|cells|] == cells;
    assert IndexSet(cells, p, |cells|) == OutlierPositions(cells, lower, upper);
    CountMono(cells, p, IsPresent);
    Count(cells, p)
  }

  /** The column df[col] reads, when it is a numeric column of t. */
  predicate IsNumericColumnName(t: Table, col: string)
  {
    col in Names(t.columns) && ColumnNamed(t.columns, col).kind == Numeric
  }

  /**
   * iqr_outliers_count(df, col): no non-null value gives (0, 0, 0.0); a zero
   * IQR gives no outliers out of the non-null count; otherwise the values
   * strictly outside [q1 - 1.5 iqr, q3 + 1.5 iqr] are counted.
   */
  function IqrOutliersCount(t: Table, col: string, q: Quartiles): (r: OutlierStats)
    requires IsNumericColumnName(t, col)
    ensures r.total == NonNullCount(ColumnNamed(t.columns, col).cells)
    ensures r.outliers <= r.total
    ensures r.outlierPct == Percent(r.outliers, r.total) && 0.0 <= r.outlierPct <= 100.0
    ensures r.total == 0 ==> r == OutlierStats(0, 0, 0.0)
    ensures q.q3 - q.q1 == 0.0 ==> r == OutlierStats(0, r.total, 0.0)
    ensures r.total > 0 && q.q3 - q.q1 != 0.0 ==>
      r.outliers == |OutlierPositions(ColumnNamed(t.columns, col).cells,
                                      q.q1 - 1.5 * (q.q3 - q.q1), q.q3 + 1.5 * (q.q3 - q.q1))|
  {
    var s := ColumnNamed(t.columns, col).cells;
    var total := NonNullCount(s);
    if total == 0 then
      OutlierStats(0, 0, 0.0)
    else
      var iqr := q.q3 - q.q1;
      if iqr == 0.0 then
        OutlierStats(0, total, 0.0)
      else
        var lower := q.q1 - 1.5 * iqr;
        var upper := q.q3 + 1.5 * iqr;
        var outliers := OutlierCount(s, lower, upper);
        OutlierStats(outliers, total, Percent(outliers, total))
  }

  /** {"column": c, **iqr_outliers_count(df, c)} for one requested column. */
  function RowFor(t: Table, c: string, quartiles: Column -> Quartiles): OutlierRow
    requires IsNumericColumnName(t, c)
  {
    OutlierRow(c, IqrOutliersCount(t, c, quartiles(ColumnNamed(t.columns, c))))
  }

  /** The ranking table before sorting: one row per requested column, in the given order. */
  ghost function OutlierTable(t: Table, names: seq<string>, quartiles: Column -> Quartiles): (r: seq<OutlierRow>)
    requires forall n :: n in names ==> IsNumericColumnName(t, n)
    ensures |r| == |names|
    ensures forall k :: 0 <= k < |names| ==> r[k] == RowFor(t, names[k], quartiles)
  {
    if names == [] then []
    else [RowFor(t, names[0], quartiles)] + OutlierTable(t, names[1..], quartiles)
  }

  /** The top rows of the ranking table are rows for requested columns, and beat every row left out. */
  lemma TopRowsFacts(t: Table, names: seq<string>, quartiles: Column -> Quartiles, topN: nat)
    requires forall n :: n in names ==> IsNumericColumnName(t, n)
    ensures var all := OutlierTable(t, names, quartiles);
      var top := TopN(all, RowOutlierPct, topN);
      && (forall o :: o in top ==>
            o.column in names && o.stats == IqrOutliersCount(t, o.column, quartiles(ColumnNamed(t.columns, o.column))))
      && (forall o, x :: o in top && x in multiset(all) - multiset(top) ==> x.stats.outlierPct <= o.stats.outlierPct)
  {
    var all := OutlierTable(t, names, quartiles);
    var top := TopN(all, RowOutlierPct, topN);
    forall o | o in top
      ensures o.column in names && o.stats == IqrOutliersCount(t, o.column, quartiles(ColumnNamed(t.columns, o.column)))
    {
      var k :| 0 <= k < |all| && all[k] == o;
      assert names[k] in names;
    }
    forall o, x | o in top && x in multiset(all) - multiset(top)
      ensures x.stats.outlierPct <= o.stats.outlierPct
    {
      assert RowOutlierPct(x) <= RowOutlierPct(o);
    }
  }

  /**
   * top_outlier_columns: builds one row per requested column, then keeps
   * the top_n rows by outlier percentage, largest first. The source cannot
   * sort an empty row list (there is no outlier_pct column to sort on), and
   * every caller checks that there is a numeric column first.
   */
  method TopOutlierColumns(t: Table, names: seq<string>, quartiles: Column -> Quartiles, topN: nat)
    returns (out: seq<OutlierRow>)
    requires |names| > 0
    requires forall n :: n in names ==> IsNumericColumnName(t, n)
    ensures |out| == Min(topN, |names|)
    ensures SortedDesc(out, RowOutlierPct)
    ensures multiset(out) <= multiset(OutlierTable(t, names, quartiles))
    ensures forall o :: o in out ==>
      o.column in names && o.stats == IqrOutliersCount(t, o.column, quartiles(ColumnNamed(t.columns, o.column)))
    ensures forall o, x :: o in out && x in multiset(OutlierTable(t, names, quartiles)) - multiset(out) ==>
      x.stats.outlierPct <= o.stats.outlierPct
  {
    var rows: seq<OutlierRow> := [];
    for i := 0 to |names|
      invariant |rows| == i
      invariant forall k :: 0 <= k < i ==> names[k] in names && rows[k] == RowFor(t, names[k], quartiles)
    {
      var c := names[i];
      assert c in names;
      var stats := IqrOutliersCount(t, c, quartiles(ColumnNamed(t.columns, c)));
      rows := rows + [OutlierRow(c, stats)];
      assert rows[i] == RowFor(t, c, quartiles);
    }
    assert rows == OutlierTable(t, names, quartiles);
    out := TopN(rows, RowOutlierPct, topN);
    TopRowsFacts(t, names, quartiles, topN);
  }
}
