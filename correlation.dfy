/**
 * core/correlation.py: the correlation matrix of the numeric columns and
 * the strongest pairs of its strict upper triangle.
 *
 * The correlation coefficient itself (Pearson, or whichever `method` names)
 * is floating-point numerics and is an input: a function from two columns
 * to a value, None where pandas produces NaN.
 */
module Correlation {
  import opened Seqs
  import opened Frame

  /** A labelled correlation matrix; entries[i][j] correlates names[i] with names[j]. */
  datatype Matrix = Matrix(names: seq<string>, entries: seq<seq<Option<real>>>)

  /** One row of the pairs frame: var_1, var_2, corr, abs_corr. */
  datatype CorrPair = CorrPair(var1: string, var2: string, corr: real, absCorr: real)

  function Abs(x: real): (r: real)
    ensures r >= 0.0 && (r == x || r == -x)
  {
    if x < 0.0 then -x else x
  }

  function AbsCorrOf(p: CorrPair): real { p.absCorr }

  /** One label per row and per column. */
  predicate Square(m: Matrix)
  {
    && |m.entries| == |m.names|
    && forall i :: 0 <= i < |m.entries| ==> |m.entries[i]| == |m.names|
  }

  /** The numeric columns, in column order: select_dtypes(include=["number"]). */
  function NumericColumns(t: Table): seq<Column>
  {
    Filter(t.columns, IsNumericColumn)
  }

  /**
   * compute_corr: an empty frame when there are fewer than two numeric
   * columns, otherwise the square matrix over the numeric columns with
   * entry (i, j) the coefficient of columns i and j.
   */
  function ComputeCorr(t: Table, coefficient: (Column, Column) -> Option<real>): (m: Matrix)
    ensures Square(m)
    ensures m.names == [] <==> |NumericNames(t)| < 2
    ensures |NumericNames(t)| >= 2 ==> m.names == NumericNames(t)
    ensures forall i, j :: 0 <= i < |m.names| && 0 <= j < |m.names| ==>
      m.entries[i][j] == coefficient(NumericColumns(t)[i], NumericColumns(t)[j])
  {
    var nums := NumericColumns(t);
    if |nums| < 2 then Matrix([], [])
    else
      Matrix(Names(nums),
             seq(|nums|, i requires 0 <= i < |nums| =>
               seq(|nums|, j requires 0 <= j < |nums| => coefficient(nums[i], nums[j]))))
  }

  /** Distinct column names give a matrix with distinct labels. */
  lemma ComputeCorrLabels(t: Table, coefficient: (Column, Column) -> Option<real>)
    requires Valid(t)
    ensures NoDup(ComputeCorr(t, coefficient).names)
  {
    assert NoDup(t.columns) by {
      forall i, j | 0 <= i < j < |t.columns| ensures t.columns[i] != t.columns[j] {
        assert t.columns[i].name != t.columns[j].name;
      }
    }
    var nums := NumericColumns(t);
    FilterNoDup(t.columns, IsNumericColumn);
    forall i, j | 0 <= i < j < |nums| ensures Names(nums)[i] != Names(nums)[j] {
      assert nums[i] in nums && nums[j] in nums;
      var a :| 0 <= a < |t.columns| && t.columns[a] == nums[i];
      var b :| 0 <= b < |t.columns| && t.columns[b] == nums[j];
      assert a != b;
    }
  }

  /** Entry (i, k) of the strict upper triangle (i < k) is defined and p reports it. */
  ghost predicate IsUpper(m: Matrix, p: CorrPair, i: int, k: int)
    requires Square(m)
  {
    && 0 <= i < k < |m.names|
    && m.entries[i][k] == Some(p.corr)
    && p.var1 == m.names[i] && p.var2 == m.names[k]
    && p.absCorr == Abs(p.corr)
  }

  ghost predicate IsUpperPair(m: Matrix, p: CorrPair)
    requires Square(m)
  {
    exists i, k :: IsUpper(m, p, i, k)
  }

  /** The defined entries of row i from column j on, in column order. */
  function RowPairs(m: Matrix, i: nat, j: nat): (r: seq<CorrPair>)
    requires Square(m) && i < |m.names| && j <= |m.names|
    ensures |r| <= |m.names| - j
    decreases |m.names| - j
  {
    if j == |m.names| then []
    else
      var rest := RowPairs(m, i, j + 1);
      match m.entries[i][j]
      case None => rest
      case Some(v) => [CorrPair(m.names[i], m.names[j], v, Abs(v))] + rest
  }

  /** The defined strict-upper entries of rows i and on, row by row. */
  function UpperFrom(m: Matrix, i: nat): seq<CorrPair>
    requires Square(m) && i <= |m.names|
    decreases |m.names| - i
  {
    if i == |m.names| then [] else RowPairs(m, i, i + 1) + UpperFrom(m, i + 1)
  }

  /** corr.where(~tril(ones)).stack(): the strict upper triangle with NaN dropped, row-major. */
  function UpperPairs(m: Matrix): seq<CorrPair>
    requires Square(m)
  {
    UpperFrom(m, 0)
  }

  lemma {:induction false} RowPairsMembers(m: Matrix, i: nat, j: nat)
    requires Square(m) && i < j <= |m.names|
    ensures forall p :: p in RowPairs(m, i, j) <==> exists k :: j <= k && IsUpper(m, p, i, k)
    decreases |m.names| - j
  {
    if j < |m.names| {
      RowPairsMembers(m, i, j + 1);
      forall p | (exists k :: j <= k && IsUpper(m, p, i, k))
        ensures p in RowPairs(m, i, j)
      {
        var k :| j <= k && IsUpper(m, p, i, k);
        if k > j {
          assert exists k' :: j + 1 <= k' && IsUpper(m, p, i, k');
        }
      }
      forall p | p in RowPairs(m, i, j)
        ensures exists k :: j <= k && IsUpper(m, p, i, k)
      {
        if p !in RowPairs(m, i, j + 1) {
          assert IsUpper(m, p, i, j);
        }
      }
    }
  }

  lemma {:induction false} UpperFromMembers(m: Matrix, i: nat)
    requires Square(m) && i <= |m.names|
    ensures forall p :: p in UpperFrom(m, i) <==> exists a, k :: i <= a && IsUpper(m, p, a, k)
    decreases |m.names| - i
  {
    if i < |m.names| {
      UpperFromMembers(m, i + 1);
      RowPairsMembers(m, i, i + 1);
      forall p | (exists a, k :: i <= a && IsUpper(m, p, a, k))
        ensures p in UpperFrom(m, i)
      {
        var a, k :| i <= a && IsUpper(m, p, a, k);
        if a == i {
          assert i + 1 <= k;
        } else {
          assert i + 1 <= a;
        }
      }
    }
  }

  /** A pair is listed exactly when it reports a defined entry above the diagonal. */
  lemma UpperPairsMembers(m: Matrix)
    requires Square(m)
    ensures forall p :: p in UpperPairs(m) <==> IsUpperPair(m, p)
  {
    UpperFromMembers(m, 0);
  }

  /** Every entry of rows i.. above the diagonal is defined. */
  ghost predicate DefinedFrom(m: Matrix, i: nat)
    requires Square(m)
  {
    forall a, k :: i <= a < k < |m.names| ==> m.entries[a][k].Some?
  }

  lemma {:induction false} RowPairsLength(m: Matrix, i: nat, j: nat)
    requires Square(m) && i < j <= |m.names| && DefinedFrom(m, i)
    ensures |RowPairs(m, i, j)| == |m.names| - j
    decreases |m.names| - j
  {
    if j < |m.names| {
      RowPairsLength(m, i, j + 1);
      assert m.entries[i][j].Some?;
    }
  }

  lemma {:induction false} UpperFromLength(m: Matrix, i: nat)
    requires Square(m) && i <= |m.names|
    ensures 2 * |UpperFrom(m, i)| <= (|m.names| - i) * (|m.names| - i - 1)
    ensures DefinedFrom(m, i) ==> 2 * |UpperFrom(m, i)| == (|m.names| - i) * (|m.names| - i - 1)
    decreases |m.names| - i
  {
    if i < |m.names| {
      UpperFromLength(m, i + 1);
      var d := |m.names| - i;
      assert d * (d - 1) == (d - 1) * (d - 2) + 2 * (d - 1);
      if DefinedFrom(m, i) {
        RowPairsLength(m, i, i + 1);
      }
    }
  }

  /** An n x n matrix yields at most n(n-1)/2 pairs, exactly that many when no entry is NaN. */
  lemma UpperPairsLength(m: Matrix)
    requires Square(m)
    ensures 2 * |UpperPairs(m)| <= |m.names| * (|m.names| - 1)
    ensures DefinedFrom(m, 0) ==> 2 * |UpperPairs(m)| == |m.names| * (|m.names| - 1)
  {
    UpperFromLength(m, 0);
  }

  /** p and q name the same two variables, in either order. */
  predicate SamePair(p: CorrPair, q: CorrPair)
  {
    || (p.var1 == q.var1 && p.var2 == q.var2)
    || (p.var1 == q.var2 && p.var2 == q.var1)
  }

  /** No two positions name the same unordered pair (so no pair occurs twice). */
  ghost predicate PairsDistinct(s: seq<CorrPair>)
  {
    forall x, y :: 0 <= x < y < |s| ==> !SamePair(s[x], s[y])
  }

  lemma PairsDistinctConcat(a: seq<CorrPair>, b: seq<CorrPair>)
    requires PairsDistinct(a) && PairsDistinct(b)
    requires forall p, q :: p in a && q in b ==> !SamePair(p, q)
    ensures PairsDistinct(a + b)
  {
    forall x, y | 0 <= x < y < |a + b| ensures !SamePair((a + b)[x], (a + b)[y]) {
      if y < |a| {
        assert (a + b)[x] == a[x] && (a + b)[y] == a[y];
      } else if x < |a| {
        assert (a + b)[x] in a && (a + b)[y] in b;
      } else {
        assert (a + b)[x] == b[x - |a|] && (a + b)[y] == b[y - |a|];
      }
    }
  }

  lemma {:induction false} RowPairsDistinct(m: Matrix, i: nat, j: nat)
    requires Square(m) && NoDup(m.names) && i < j <= |m.names|
    ensures PairsDistinct(RowPairs(m, i, j))
    decreases |m.names| - j
  {
    if j < |m.names| {
      RowPairsDistinct(m, i, j + 1);
      var rest := RowPairs(m, i, j + 1);
      if m.entries[i][j].Some? {
        var v := m.entries[i][j].value;
        var head := CorrPair(m.names[i], m.names[j], v, Abs(v));
        RowPairsMembers(m, i, j + 1);
        forall q | q in rest ensures !SamePair(head, q) {
          var k :| j + 1 <= k && IsUpper(m, q, i, k);
          assert m.names[j] != m.names[k] && m.names[i] != m.names[k];
        }
        PairsDistinctConcat([head], rest);
      }
    }
  }

  lemma {:induction false} UpperFromDistinct(m: Matrix, i: nat)
    requires Square(m) && NoDup(m.names) && i <= |m.names|
    ensures PairsDistinct(UpperFrom(m, i))
    decreases |m.names| - i
  {
    if i < |m.names| {
      UpperFromDistinct(m, i + 1);
      RowPairsDistinct(m, i, i + 1);
      RowPairsMembers(m, i, i + 1);
      UpperFromMembers(m, i + 1);
      forall p, q | p in RowPairs(m, i, i + 1) && q in UpperFrom(m, i + 1) ensures !SamePair(p, q) {
        var k :| i + 1 <= k && IsUpper(m, p, i, k);
        var a, k' :| i + 1 <= a && IsUpper(m, q, a, k');
        assert m.names[i] != m.names[a] && m.names[i] != m.names[k'];
      }
      PairsDistinctConcat(RowPairs(m, i, i + 1), UpperFrom(m, i + 1));
    }
  }

  /** A selection of the elements of a sequence of distinct pairs is a sequence of distinct pairs. */
  lemma PairsDistinctSub(a: seq<CorrPair>, b: seq<CorrPair>)
    requires PairsDistinct(a) && multiset(b) <= multiset(a)
    ensures PairsDistinct(b)
  {
    assert NoDup(a) by {
      forall x, y | 0 <= x < y < |a| ensures a[x] != a[y] {
        assert !SamePair(a[x], a[y]);
      }
    }
    NoDupSubMultiset(a, b);
    forall x, y | 0 <= x < y < |b| ensures !SamePair(b[x], b[y]) {
      assert b[x] in multiset(a) && b[y] in multiset(a);
      var u :| 0 <= u < |a| && a[u] == b[x];
      var w :| 0 <= w < |a| && a[w] == b[y];
      if u < w {
        assert !SamePair(a[u], a[w]);
      } else if w < u {
        assert !SamePair(a[w], a[u]);
      }
    }
  }

  /**
   * top_correlations: the top_n pairs of the strict upper triangle by
   * absolute coefficient, largest first; an empty matrix gives no pairs.
   */
  function TopCorrelations(m: Matrix, topN: nat): (r: seq<CorrPair>)
    requires Square(m)
    ensures |r| == Min(topN, |UpperPairs(m)|)
    ensures SortedDesc(r, AbsCorrOf)
    ensures multiset(r) <= multiset(UpperPairs(m))
    ensures forall p :: p in r ==> IsUpperPair(m, p)
    ensures forall p, q :: p in r && q in multiset(UpperPairs(m)) - multiset(r) ==> AbsCorrOf(q) <= AbsCorrOf(p)
    ensures m.names == [] ==> r == []
  {
    if |m.names| == 0 then
      []
    else
      var r := TopN(UpperPairs(m), AbsCorrOf, topN);
      TopPairsAreUpper(m, r);
      r
  }

  /** Pairs drawn from the listed pairs report entries above the diagonal. */
  lemma TopPairsAreUpper(m: Matrix, r: seq<CorrPair>)
    requires Square(m)
    requires forall p :: p in r ==> p in UpperPairs(m)
    ensures forall p :: p in r ==> IsUpperPair(m, p)
  {
    UpperPairsMembers(m);
  }

  /** With distinct labels, the selected pairs name distinct variables and distinct unordered pairs. */
  lemma TopCorrelationsDistinct(m: Matrix, topN: nat)
    requires Square(m) && NoDup(m.names)
    ensures PairsDistinct(TopCorrelations(m, topN))
    ensures forall p :: p in TopCorrelations(m, topN) ==> p.var1 != p.var2
  {
    UpperFromDistinct(m, 0);
    var r := TopCorrelations(m, topN);
    if |m.names| > 0 {
      PairsDistinctSub(UpperPairs(m), r);
    }
    forall p | p in r ensures p.var1 != p.var2 {
      var i, k :| IsUpper(m, p, i, k);
    }
  }
}
