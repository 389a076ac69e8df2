/**
 * Per-column missingness: core/missing.py (missing_summary) and the sorted
 * per-column missing percentages shared by core/quality.py and
 * core/profiling.py.
 */
module Missing {
  import opened Seqs
  import opened Frame

  /** One row of the summary frame, indexed by the column name. */
  datatype MissingRow = MissingRow(column: string, missingCount: nat, missingPct: real)

  function RowColumn(r: MissingRow): string { r.column }

  function RowCount(r: MissingRow): int { r.missingCount }

  function RowPct(r: MissingRow): real { r.missingPct }

  function PctOf(e: ColumnPct): real { e.pct }

  function PctColumn(e: ColumnPct): string { e.column }

  /** The unsorted summary: one row per column, in column order. */
  function SummaryRows(cols: seq<Column>, rows: nat): (r: seq<MissingRow>)
    ensures |r| == |cols|
    ensures forall i :: 0 <= i < |cols| ==>
      r[i] == MissingRow(cols[i].name, NullCount(cols[i].cells), Percent(NullCount(cols[i].cells), rows))
  {
    if cols == [] then []
    else [MissingRow(cols[0].name, NullCount(cols[0].cells), Percent(NullCount(cols[0].cells), rows))]
         + SummaryRows(cols[1..], rows)
  }

  lemma {:induction false} SummaryRowsNames(cols: seq<Column>, rows: nat)
    ensures MapSeq(RowColumn, SummaryRows(cols, rows)) == Names(cols)
  {
    var r := MapSeq(RowColumn, SummaryRows(cols, rows));
    assert |r| == |Names(cols)|;
    forall i | 0 <= i < |r| ensures r[i] == Names(cols)[i] {
    }
  }

  lemma {:induction false} SummaryRowsSum(cols: seq<Column>, rows: nat)
    ensures SumBy(SummaryRows(cols, rows), RowCount) == MissingCells(cols)
  {
    if cols != [] {
      SummaryRowsSum(cols[1..], rows);
      assert SummaryRows(cols, rows)[1..] == SummaryRows(cols[1..], rows);
    }
  }

  /** x reports the null count and percentage of some column of t. */
  ghost predicate RowOfTable(t: Table, x: MissingRow)
  {
    && x.missingCount <= t.rows
    && x.missingPct == Percent(x.missingCount, t.rows)
    && 0.0 <= x.missingPct <= 100.0
    && exists c :: c in t.columns && c.name == x.column && x.missingCount == NullCount(c.cells)
  }

  lemma SummaryRowsOfTable(t: Table)
    requires Valid(t)
    ensures forall x :: x in SummaryRows(t.columns, t.rows) ==> RowOfTable(t, x)
  {
    var rows := SummaryRows(t.columns, t.rows);
    forall x | x in rows ensures RowOfTable(t, x) {
      var i :| 0 <= i < |rows| && rows[i] == x;
      assert ColumnValid(t.columns[i], t.rows);
      assert t.columns[i] in t.columns;
    }
  }

  /**
   * missing_summary: null count and percentage of every column, ordered by
   * non-increasing percentage (ties in no promised order).
   */
  function MissingSummary(t: Table): (r: seq<MissingRow>)
    requires Valid(t) && t.rows > 0
    ensures |r| == |t.columns|
    ensures multiset(MapSeq(RowColumn, r)) == multiset(Names(t.columns))
    ensures forall x :: x in r ==> RowOfTable(t, x)
    ensures SortedDesc(r, RowPct)
    ensures SumBy(r, RowCount) == MissingCells(t.columns)
  {
    var rows := SummaryRows(t.columns, t.rows);
    SortMap(rows, RowPct, RowColumn);
    SummaryRowsNames(t.columns, t.rows);
    SortSum(rows, RowPct, RowCount);
    SummaryRowsSum(t.columns, t.rows);
    SummaryRowsOfTable(t);
    var sorted := SortDesc(rows, RowPct);
    PermutationMembers(rows, sorted);
    sorted
  }

  /** The unsorted per-column missing percentages, in column order. */
  function MissingPcts(cols: seq<Column>, rows: nat): (r: seq<ColumnPct>)
    ensures |r| == |cols|
    ensures forall i :: 0 <= i < |cols| ==> r[i] == ColumnPct(cols[i].name, MissingPct(rows, cols[i]))
  {
    if cols == [] then []
    else [ColumnPct(cols[0].name, MissingPct(rows, cols[0]))] + MissingPcts(cols[1..], rows)
  }

  /** e reports the missing percentage of some column of t. */
  ghost predicate PctOfTable(t: Table, e: ColumnPct)
  {
    && 0.0 <= e.pct <= 100.0
    && exists c :: c in t.columns && c.name == e.column && e.pct == MissingPct(t.rows, c)
  }

  lemma MissingPctsOfTable(t: Table)
    requires Valid(t)
    ensures forall e :: e in MissingPcts(t.columns, t.rows) ==> PctOfTable(t, e)
  {
    var all := MissingPcts(t.columns, t.rows);
    forall e | e in all ensures PctOfTable(t, e) {
      var i :| 0 <= i < |all| && all[i] == e;
      assert ColumnValid(t.columns[i], t.rows);
      assert t.columns[i] in t.columns;
    }
  }

  /** An entry whose name is not among the names of es is not in es. */
  lemma AbsentByName(es: seq<ColumnPct>, x: ColumnPct)
    requires x.column !in MapSeq(PctColumn, es)
    ensures x !in es
  {
    forall k | 0 <= k < |es| ensures es[k] != x {
      assert MapSeq(PctColumn, es)[k] == es[k].column;
    }
  }

  /** An entry left out of a top-n selection by name has a percentage no larger than any entry kept. */
  lemma TopPctDominates(all: seq<ColumnPct>, n: nat, e: ColumnPct, x: ColumnPct)
    requires e in TopN(all, PctOf, n)
    requires x in all && x.column !in MapSeq(PctColumn, TopN(all, PctOf, n))
    ensures x.pct <= e.pct
  {
    AbsentByName(TopN(all, PctOf, n), x);
    TopNDominates(all, PctOf, n, e, x);
    assert PctOf(x) <= PctOf(e);
  }

  /** Every column left out of a top-n selection is missing no more than any column kept. */
  lemma TopMissingDominates(t: Table, n: nat, e: ColumnPct, c: Column)
    requires e in TopN(MissingPcts(t.columns, t.rows), PctOf, n)
    requires c in t.columns && c.name !in MapSeq(PctColumn, TopN(MissingPcts(t.columns, t.rows), PctOf, n))
    ensures MissingPct(t.rows, c) <= e.pct
  {
    var all := MissingPcts(t.columns, t.rows);
    var i :| 0 <= i < |t.columns| && t.columns[i] == c;
    var x := all[i];
    assert x == ColumnPct(c.name, MissingPct(t.rows, c)) && x in all;
    TopPctDominates(all, n, e, x);
  }

  /** The per-column entries of the missing percentages are named after the columns, in column order. */
  lemma MissingPctsNames(cols: seq<Column>, rows: nat)
    ensures MapSeq(PctColumn, MissingPcts(cols, rows)) == Names(cols)
  {
  }

  /** Distinct column names are distinct elements of Names. */
  lemma ValidNamesNoDup(t: Table)
    requires Valid(t)
    ensures NoDup(Names(t.columns))
  {
  }

  /**
   * (isna().sum() / len(df) * 100).sort_values(ascending=False).head(n):
   * the n largest column missing percentages, largest first.
   */
  function TopMissing(t: Table, n: nat): (r: seq<ColumnPct>)
    requires Valid(t) && t.rows > 0
    ensures |r| == Min(n, |t.columns|)
    ensures SortedDesc(r, PctOf)
    ensures multiset(r) <= multiset(MissingPcts(t.columns, t.rows))
    ensures NoDup(MapSeq(PctColumn, r))
    ensures forall e :: e in r ==> PctOfTable(t, e)
    ensures forall e, c :: e in r && c in t.columns && c.name !in MapSeq(PctColumn, r) ==>
      MissingPct(t.rows, c) <= e.pct
  {
    MissingPctsOfTable(t);
    TopNMap(MissingPcts(t.columns, t.rows), PctOf, n, PctColumn);
    MissingPctsNames(t.columns, t.rows);
    ValidNamesNoDup(t);
    NoDupSubMultiset(Names(t.columns), MapSeq(PctColumn, TopN(MissingPcts(t.columns, t.rows), PctOf, n)));
    forall e, c | e in TopN(MissingPcts(t.columns, t.rows), PctOf, n) && c in t.columns
        && c.name !in MapSeq(PctColumn, TopN(MissingPcts(t.columns, t.rows), PctOf, n))
      ensures MissingPct(t.rows, c) <= e.pct
    {
      TopMissingDominates(t, n, e, c);
    }
    TopN(MissingPcts(t.columns, t.rows), PctOf, n)
  }
}
