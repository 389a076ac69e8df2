/**
 * core/quality.py: the data-quality report (missingness, duplicate rows,
 * column kinds, high-cardinality columns) and the 0-100 quality score.
 */
module Quality {
  import opened Seqs
  import opened Frame
  import opened Missing

  datatype QualityReport = QualityReport(
    rows: nat,
    cols: nat,
    missingCells: nat,
    missingCellPct: real,
    colsMissingOver40: nat,
    colsMissingOver20: nat,
    topMissingColumns: seq<ColumnPct>,
    duplicateRows: nat,
    duplicateRowPct: real,
    numericColCount: nat,
    categoricalColCount: nat,
    highCardinalityCols: seq<string>)

  /** A column is high-cardinality when it has more than this many distinct non-null values. */
  const CardinalityLimit: nat := 50

  /** How many missing-percentage entries and high-cardinality names the report keeps. */
  const ReportTop: nat := 10

  function Take<T>(s: seq<T>, n: nat): (r: seq<T>)
    ensures |r| == Min(n, |s|) && r == s[..|r|]
  {
    s[..Min(n, |s|)]
  }

  // ---------------------------------------------------------------- duplicates

  /** df.duplicated()[i]: row i equals some earlier row (the first occurrence is kept). */
  predicate IsDuplicateRow(t: Table, i: nat)
    requires Valid(t) && i < t.rows
  {
    exists j :: 0 <= j < i && Row(t, j) == Row(t, i)
  }

  /** The number of duplicate rows among the first n. */
  function DuplicatesBelow(t: Table, n: nat): nat
    requires Valid(t) && n <= t.rows
  {
    if n == 0 then 0
    else DuplicatesBelow(t, n - 1) + (if IsDuplicateRow(t, n - 1) then 1 else 0)
  }

  /** df.duplicated().sum(); pandas answers an empty frame (no rows or no columns) with no flags. */
  function DuplicateRows(t: Table): nat
    requires Valid(t)
  {
    if |t.columns| == 0 then 0 else DuplicatesBelow(t, t.rows)
  }

  /** The first row is never a duplicate, so at most n - 1 of n rows are. */
  lemma {:induction false} DuplicatesBelowBound(t: Table, n: nat)
    requires Valid(t) && 0 < n <= t.rows
    ensures DuplicatesBelow(t, n) <= n - 1
  {
    if n > 1 {
      DuplicatesBelowBound(t, n - 1);
    }
  }

  /** No duplicate among the first n rows exactly when those rows are pairwise different. */
  lemma {:induction false} NoDuplicatesBelow(t: Table, n: nat)
    requires Valid(t) && n <= t.rows
    ensures DuplicatesBelow(t, n) == 0 <==> forall i, j :: 0 <= i < j < n ==> Row(t, i) != Row(t, j)
  {
    if n > 0 {
      NoDuplicatesBelow(t, n - 1);
      if DuplicatesBelow(t, n) == 0 {
        forall i, j | 0 <= i < j < n ensures Row(t, i) != Row(t, j) {
          if j == n - 1 {
            assert !IsDuplicateRow(t, n - 1);
          }
        }
      }
    }
  }

  /** duplicate_rows is less than rows whenever there are rows, and 0 exactly when all rows differ. */
  lemma DuplicateRowsFacts(t: Table)
    requires Valid(t)
    ensures t.rows > 0 ==> DuplicateRows(t) < t.rows
    ensures |t.columns| > 0 ==>
      (DuplicateRows(t) == 0 <==> forall i, j :: 0 <= i < j < t.rows ==> Row(t, i) != Row(t, j))
  {
    if t.rows > 0 && |t.columns| > 0 {
      DuplicatesBelowBound(t, t.rows);
    }
    NoDuplicatesBelow(t, t.rows);
  }

  // ---------------------------------------------------------- column kinds

  function NotIn(ns: seq<string>): string -> bool
  {
    n => n !in ns
  }

  /** cat_cols: the column names that are not numeric names, in column order. */
  function CategoricalNames(t: Table): seq<string>
  {
    Filter(Names(t.columns), NotIn(NumericNames(t)))
  }

  /** cat_cols filtered by nunique(dropna=True) > 50. */
  function HighCardCategorical(numeric: seq<string>): Column -> bool
  {
    (c: Column) => c.name !in numeric && NUnique(c.cells) > CardinalityLimit
  }

  /** The same filter written on the column kind. */
  predicate IsHighCardOther(c: Column)
  {
    c.kind == Other && NUnique(c.cells) > CardinalityLimit
  }

  /** high_card_cols before truncation. */
  function HighCardinalityNames(t: Table): seq<string>
  {
    Names(Filter(t.columns, HighCardCategorical(NumericNames(t))))
  }

  lemma {:induction false} CategoricalSplit(cols: seq<Column>, numeric: seq<string>)
    requires forall c :: c in cols ==> (c.name in numeric <==> c.kind == Numeric)
    ensures Filter(Names(cols), NotIn(numeric)) == Names(Filter(cols, IsOtherColumn))
  {
    if cols != [] {
      assert Names(cols) == [cols[0].name] + Names(cols[1..]);
      assert Names(cols)[1..] == Names(cols[1..]);
      assert forall c :: c in cols[1..] ==> c in cols;
      CategoricalSplit(cols[1..], numeric);
      if cols[0].kind == Other {
        assert Filter(cols, IsOtherColumn) == [cols[0]] + Filter(cols[1..], IsOtherColumn);
      } else {
        assert Filter(cols, IsOtherColumn) == Filter(cols[1..], IsOtherColumn);
      }
    }
  }

  lemma {:induction false} FilterCongruent<T>(s: seq<T>, p: T -> bool, q: T -> bool)
    requires forall x :: x in s ==> p(x) == q(x)
    ensures Filter(s, p) == Filter(s, q)
  {
    if s != [] {
      assert forall x :: x in s[1..] ==> x in s;
      FilterCongruent(s[1..], p, q);
    }
  }

  /** Under distinct names, cat_cols are exactly the non-numeric columns and the two counts add up to cols. */
  lemma CategoricalIsOther(t: Table)
    requires Valid(t)
    ensures CategoricalNames(t) == Names(Filter(t.columns, IsOtherColumn))
    ensures |NumericNames(t)| + |CategoricalNames(t)| == |t.columns|
  {
    forall c | c in t.columns ensures c.name in NumericNames(t) <==> c.kind == Numeric {
      NumericNameIff(t, c);
    }
    CategoricalSplit(t.columns, NumericNames(t));
    CountComplement(t.columns, IsNumericColumn, IsOtherColumn);
  }

  /** Under distinct names, the high-cardinality filter over cat_cols is the filter over non-numeric columns. */
  lemma HighCardinalityIsOther(t: Table)
    requires Valid(t)
    ensures HighCardinalityNames(t) == Names(Filter(t.columns, IsHighCardOther))
  {
    forall c | c in t.columns ensures HighCardCategorical(NumericNames(t))(c) == IsHighCardOther(c) {
      NumericNameIff(t, c);
    }
    FilterCongruent(t.columns, HighCardCategorical(NumericNames(t)), IsHighCardOther);
  }

  // -------------------------------------------------------------- the report

  /** Every name in ns names a non-numeric column of t with more than 50 distinct non-null values. */
  ghost predicate AllHighCardOther(t: Table, ns: seq<string>)
  {
    forall n :: n in ns ==> exists c :: c in t.columns && c.name == n && IsHighCardOther(c)
  }

  lemma HighCardinalityMembers(t: Table)
    requires Valid(t)
    ensures AllHighCardOther(t, HighCardinalityNames(t))
  {
    HighCardinalityIsOther(t);
    var hc := Filter(t.columns, IsHighCardOther);
    forall n | n in Names(hc) ensures exists c :: c in t.columns && c.name == n && IsHighCardOther(c) {
      var k :| 0 <= k < |hc| && Names(hc)[k] == n;
      assert hc[k] in hc;
    }
  }

  /** quality_report; per-column percentages divide by the row count, so rows must be positive. */
  function QualityReportOf(t: Table): (r: QualityReport)
    requires Valid(t) && t.rows > 0
    ensures r.rows == t.rows && r.cols == |t.columns|
    ensures r.missingCells == MissingCells(t.columns) && r.missingCells <= CellCount(t)
    ensures r.missingCellPct == Percent(r.missingCells, CellCount(t))
    ensures 0.0 <= r.missingCellPct <= 100.0 && (r.cols == 0 ==> r.missingCellPct == 0.0)
    ensures r.colsMissingOver20 == Count(t.columns, MissingOver(t.rows, 20.0))
    ensures r.colsMissingOver40 == Count(t.columns, MissingOver(t.rows, 40.0))
    ensures r.colsMissingOver40 <= r.colsMissingOver20 <= r.cols
    ensures |r.topMissingColumns| == Min(ReportTop, r.cols)
    ensures SortedDesc(r.topMissingColumns, PctOf)
    ensures r.topMissingColumns == TopMissing(t, ReportTop)
    ensures NoDup(MapSeq(PctColumn, r.topMissingColumns))
    ensures forall e :: e in r.topMissingColumns ==> PctOfTable(t, e)
    ensures forall e, c :: e in r.topMissingColumns && c in t.columns && c.name !in MapSeq(PctColumn, r.topMissingColumns) ==>
      MissingPct(t.rows, c) <= e.pct
    ensures r.duplicateRows == DuplicateRows(t) && r.duplicateRows < r.rows
    ensures r.duplicateRowPct == Percent(r.duplicateRows, r.rows) && 0.0 <= r.duplicateRowPct < 100.0
    ensures r.numericColCount + r.categoricalColCount == r.cols
    ensures r.categoricalColCount == Count(t.columns, IsOtherColumn)
    ensures r.highCardinalityCols == Take(Names(Filter(t.columns, IsHighCardOther)), ReportTop)
    ensures |r.highCardinalityCols| <= ReportTop
    ensures AllHighCardOther(t, r.highCardinalityCols)
  {
    var missingCells := MissingCells(t.columns);
    MissingCellsTotal(t);
    CountMono(t.columns, MissingOver(t.rows, 40.0), MissingOver(t.rows, 20.0));
    DuplicateRowsFacts(t);
    CategoricalIsOther(t);
    HighCardinalityIsOther(t);
    HighCardinalityMembers(t);
    var high := Take(HighCardinalityNames(t), ReportTop);
    assert forall n :: n in high ==> n in HighCardinalityNames(t);
    QualityReport(
      t.rows,
      |t.columns|,
      missingCells,
      Percent(missingCells, CellCount(t)),
      Count(t.columns, MissingOver(t.rows, 40.0)),
      Count(t.columns, MissingOver(t.rows, 20.0)),
      TopMissing(t, ReportTop),
      DuplicateRows(t),
      Percent(DuplicateRows(t), t.rows),
      |NumericNames(t)|,
      |CategoricalNames(t)|,
      high)
  }

  // --------------------------------------------------------------- the score

  function RealMin(a: real, b: real): real { if a <= b then a else b }

  /** Python's round() on a number: to the nearest integer, halves to the even one. */
  function RoundHalfEven(x: real): (n: int)
    ensures x - 0.5 <= n as real <= x + 0.5
    ensures (n as real == x - 0.5 || n as real == x + 0.5) ==> n % 2 == 0
  {
    var f := x.Floor;
    var frac := x - f as real;
    if frac < 0.5 then f
    else if frac > 0.5 then f + 1
    else if f % 2 == 0 then f
    else f + 1
  }

  lemma RoundHalfEvenMono(x: real, y: real)
    requires x <= y
    ensures RoundHalfEven(x) <= RoundHalfEven(y)
  {
  }

  lemma RoundHalfEvenOfInt(n: int)
    ensures RoundHalfEven(n as real) == n
  {
  }

  /** The four penalties of quality_score, each capped: 40, 20, 20 and 20 points. */
  function MissingPenalty(r: QualityReport): real { RealMin(40.0, r.missingCellPct) }

  function DuplicatePenalty(r: QualityReport): real { RealMin(20.0, r.duplicateRowPct) }

  function EmptyColumnPenalty(r: QualityReport): real { Min(20, r.colsMissingOver40 * 5) as real }

  function CardinalityPenalty(r: QualityReport): real { Min(20, |r.highCardinalityCols| * 2) as real }

  function TotalPenalty(r: QualityReport): real
  {
    MissingPenalty(r) + DuplicatePenalty(r) + EmptyColumnPenalty(r) + CardinalityPenalty(r)
  }

  /** max(0, round(x)). */
  function ClampedRound(x: real): int
  {
    Max(0, RoundHalfEven(x))
  }

  lemma ClampedRoundMono(x: real, y: real)
    requires x <= y
    ensures ClampedRound(x) <= ClampedRound(y)
  {
    RoundHalfEvenMono(x, y);
  }

  /** 100 less the penalties, rounded half to even and clamped below at 0. */
  function Score(r: QualityReport): int
  {
    ClampedRound(100.0 - TotalPenalty(r))
  }

  /** The report's percentages are not negative (as every report QualityReportOf builds). */
  predicate NonNegativeRates(r: QualityReport)
  {
    r.missingCellPct >= 0.0 && r.duplicateRowPct >= 0.0
  }

  /** quality_score: starts at 100 and subtracts the four capped penalties one by one. */
  method QualityScore(r: QualityReport) returns (score: int)
    ensures score == Score(r)
    ensures 0 <= score
    ensures NonNegativeRates(r) ==> score <= 100
    ensures TotalPenalty(r) == 0.0 ==> score == 100
  {
    var s: real := 100.0;
    s := s - RealMin(40.0, r.missingCellPct);
    s := s - RealMin(20.0, r.duplicateRowPct);
    s := s - Min(20, r.colsMissingOver40 * 5) as real;
    s := s - Min(20, |r.highCardinalityCols| * 2) as real;
    score := ClampedRound(s);
    ScoreBounds(r);
  }

  lemma ScoreBounds(r: QualityReport)
    ensures 0 <= Score(r)
    ensures NonNegativeRates(r) ==> Score(r) <= 100
    ensures TotalPenalty(r) == 0.0 ==> Score(r) == 100
  {
    RoundHalfEvenOfInt(100);
    if NonNegativeRates(r) {
      RoundHalfEvenMono(100.0 - TotalPenalty(r), 100.0);
    }
  }

  /** Each penalty stays within its cap, so with non-negative rates the penalties never exceed 100. */
  lemma PenaltyCaps(r: QualityReport)
    ensures MissingPenalty(r) <= 40.0 && DuplicatePenalty(r) <= 20.0
    ensures EmptyColumnPenalty(r) <= 20.0 && CardinalityPenalty(r) <= 20.0
    ensures NonNegativeRates(r) ==> 0.0 <= TotalPenalty(r) <= 100.0
  {
  }

  /** Each penalty grows with its input. */
  lemma PenaltyMono(a: QualityReport, b: QualityReport)
    requires a.missingCellPct <= b.missingCellPct
    requires a.duplicateRowPct <= b.duplicateRowPct
    requires a.colsMissingOver40 <= b.colsMissingOver40
    requires |a.highCardinalityCols| <= |b.highCardinalityCols|
    ensures TotalPenalty(a) <= TotalPenalty(b)
  {
    assert MissingPenalty(a) <= MissingPenalty(b) && DuplicatePenalty(a) <= DuplicatePenalty(b);
    assert EmptyColumnPenalty(a) <= EmptyColumnPenalty(b) && CardinalityPenalty(a) <= CardinalityPenalty(b);
  }

  /** A larger value of any penalty input never raises the score. */
  lemma ScoreAntitone(a: QualityReport, b: QualityReport)
    requires a.missingCellPct <= b.missingCellPct
    requires a.duplicateRowPct <= b.duplicateRowPct
    requires a.colsMissingOver40 <= b.colsMissingOver40
    requires |a.highCardinalityCols| <= |b.highCardinalityCols|
    ensures Score(b) <= Score(a)
  {
    PenaltyMono(a, b);
    ClampedRoundMono(100.0 - TotalPenalty(b), 100.0 - TotalPenalty(a));
  }

  /** Past its cap a penalty input no longer changes the score. */
  lemma ScoreSaturates(a: QualityReport, b: QualityReport)
    requires a.missingCellPct >= 40.0 && b.missingCellPct >= 40.0
    requires a.duplicateRowPct >= 20.0 && b.duplicateRowPct >= 20.0
    requires a.colsMissingOver40 >= 4 && b.colsMissingOver40 >= 4
    requires |a.highCardinalityCols| >= 10 && |b.highCardinalityCols| >= 10
    ensures Score(a) == Score(b) == 0
  {
    RoundHalfEvenOfInt(0);
    assert TotalPenalty(a) == 100.0 && TotalPenalty(b) == 100.0;
  }
}
