/**
 * The in-memory table the statistics layer works on: an ordered list of
 * named columns, each tagged numeric or not (what select_dtypes decides),
 * each holding one optional cell per row (None is a null / NaN cell).
 */
module Frame {
  import opened Seqs

  datatype Option<T> = None | Some(value: T)

  /** Whether select_dtypes(include=["number"]) picks the column. */
  datatype Kind = Numeric | Other

  datatype Value = Num(x: real) | Text(s: string)

  type Cell = Option<Value>

  datatype Column = Column(name: string, kind: Kind, cells: seq<Cell>)

  /** `rows` is kept apart from the columns so that a frame with rows and no columns can be described. */
  datatype Table = Table(rows: nat, columns: seq<Column>)

  /** A per-column percentage, one entry of a {column: pct} dictionary. */
  datatype ColumnPct = ColumnPct(column: string, pct: real)

  predicate ColumnValid(c: Column, rows: nat)
  {
    && |c.cells| == rows
    && (c.kind == Numeric ==> forall k :: 0 <= k < |c.cells| && c.cells[k].Some? ==> c.cells[k].value.Num?)
  }

  /** Every column has one cell per row, numeric columns hold numbers only, and column names are distinct. */
  predicate Valid(t: Table)
  {
    && (forall i :: 0 <= i < |t.columns| ==> ColumnValid(t.columns[i], t.rows))
    && (forall i, j :: 0 <= i < j < |t.columns| ==> t.columns[i].name != t.columns[j].name)
  }

  predicate IsNull(o: Cell) { o.None? }

  predicate IsPresent(o: Cell) { o.Some? }

  predicate IsNumericColumn(c: Column) { c.kind == Numeric }

  predicate IsOtherColumn(c: Column) { c.kind == Other }

  function ColumnName(c: Column): string { c.name }

  /** isna().sum() of one column. */
  function NullCount(cells: seq<Cell>): nat
  {
    Count(cells, IsNull)
  }

  /** Length of dropna() of one column. */
  function NonNullCount(cells: seq<Cell>): nat
  {
    Count(cells, IsPresent)
  }

  lemma NullsAndPresent(cells: seq<Cell>)
    ensures NullCount(cells) + NonNullCount(cells) == |cells|
  {
    CountComplement(cells, IsNull, IsPresent);
  }

  /** The distinct non-null values of a column. */
  function PresentValues(cells: seq<Cell>): set<Value>
  {
    set k | 0 <= k < |cells| && cells[k].Some? :: cells[k].value
  }

  /** nunique(dropna=True). */
  function NUnique(cells: seq<Cell>): nat
  {
    |PresentValues(cells)|
  }

  /**
   * part / whole * 100, and 0.0 when whole is 0 (the `if rows else 0.0`
   * guard of the source). Where the source does not guard the division, a
   * NaN compares false with every threshold, just as 0.0 does with the
   * positive thresholds used here.
   */
  function Percent(part: nat, whole: nat): (r: real)
    ensures r >= 0.0
    ensures part <= whole ==> r <= 100.0
    ensures part < whole ==> r < 100.0
    ensures r == 0.0 <==> part == 0 || whole == 0
  {
    if whole == 0 then 0.0
    else
      var r := (part as real) / (whole as real) * 100.0;
      assert part <= whole ==> (part as real) / (whole as real) <= 1.0;
      assert part < whole ==> (part as real) / (whole as real) < 1.0;
      r
  }

  /** The missing percentage of one column in a table of `rows` rows. */
  function MissingPct(rows: nat, c: Column): real
  {
    Percent(NullCount(c.cells), rows)
  }

  /** missing_pct > threshold, as a column mask. */
  function MissingOver(rows: nat, threshold: real): Column -> bool
  {
    c => MissingPct(rows, c) > threshold
  }

  /** The column names, in column order (df.columns). */
  function Names(cols: seq<Column>): (r: seq<string>)
    ensures |r| == |cols|
    ensures forall i :: 0 <= i < |cols| ==> r[i] == cols[i].name
  {
    MapSeq(ColumnName, cols)
  }

  /** Numeric columns' names: select_dtypes(include=["number"]).columns. */
  function NumericNames(t: Table): seq<string>
  {
    Names(Filter(t.columns, IsNumericColumn))
  }

  /** isna().sum().sum(): the column null counts added up. */
  function MissingCells(cols: seq<Column>): nat
  {
    if cols == [] then 0 else NullCount(cols[0].cells) + MissingCells(cols[1..])
  }

  /** A table never has more missing cells than cells. */
  lemma {:induction false} MissingCellsBound(t: Table, k: nat)
    requires Valid(t) && k <= |t.columns|
    ensures MissingCells(t.columns[k..]) <= (|t.columns| - k) * t.rows
    decreases |t.columns| - k
  {
    if k < |t.columns| {
      MissingCellsBound(t, k + 1);
      assert t.columns[k..][1..] == t.columns[k + 1..];
      assert ColumnValid(t.columns[k], t.rows);
      assert (|t.columns| - k) * t.rows == (|t.columns| - (k + 1)) * t.rows + t.rows;
    }
  }

  /** rows * cols, the number of cells. */
  function CellCount(t: Table): nat
  {
    t.rows * |t.columns|
  }

  lemma MissingCellsTotal(t: Table)
    requires Valid(t)
    ensures MissingCells(t.columns) <= CellCount(t)
  {
    MissingCellsBound(t, 0);
    assert t.columns[0..] == t.columns;
  }

  /** Row i across all columns, the unit df.duplicated() compares. */
  function Row(t: Table, i: nat): (r: seq<Cell>)
    requires Valid(t) && i < t.rows
    ensures |r| == |t.columns|
    ensures forall k :: 0 <= k < |t.columns| ==> r[k] == t.columns[k].cells[i]
  {
    seq(|t.columns|, k requires 0 <= k < |t.columns| => assert ColumnValid(t.columns[k], t.rows); t.columns[k].cells[i])
  }

  /** The first column named n (df[n]). */
  function ColumnNamed(cols: seq<Column>, n: string): (c: Column)
    requires n in Names(cols)
    ensures c in cols && c.name == n
  {
    if cols[0].name == n then cols[0]
    else
      assert Names(cols) == [cols[0].name] + Names(cols[1..]);
      ColumnNamed(cols[1..], n)
  }

  /** With distinct names, the column a name looks up is the one of that name. */
  lemma ColumnNamedUnique(t: Table, c: Column)
    requires Valid(t) && c in t.columns
    ensures c.name in Names(t.columns) && ColumnNamed(t.columns, c.name) == c
  {
    var i :| 0 <= i < |t.columns| && t.columns[i] == c;
    assert Names(t.columns)[i] == c.name;
    var d := ColumnNamed(t.columns, c.name);
    var j :| 0 <= j < |t.columns| && t.columns[j] == d;
    assert t.columns[i].name == t.columns[j].name;
  }

  /** With distinct names, a column's name is numeric exactly when the column is. */
  lemma NumericNameIff(t: Table, c: Column)
    requires Valid(t) && c in t.columns
    ensures c.name in NumericNames(t) <==> c.kind == Numeric
  {
    var nums := Filter(t.columns, IsNumericColumn);
    if c.kind == Numeric {
      var i :| 0 <= i < |t.columns| && t.columns[i] == c;
      assert c in nums;
      var k :| 0 <= k < |nums| && nums[k] == c;
      assert NumericNames(t)[k] == c.name;
    }
    if c.name in NumericNames(t) {
      var k :| 0 <= k < |nums| && Names(nums)[k] == c.name;
      var d := nums[k];
      assert d in t.columns && d.kind == Numeric;
      var i :| 0 <= i < |t.columns| && t.columns[i] == c;
      var j :| 0 <= j < |t.columns| && t.columns[j] == d;
    }
  }
}
