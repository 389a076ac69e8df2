/**
 * core/profiling.py: the per-column profile (missing percentage, distinct
 * count, and either the numeric summary or the most frequent values) and
 * the dataset profile (size and the most-missing columns).
 *
 * The describe() statistics of a numeric column are floating-point numerics
 * and are an input here; value_counts() is modelled as a value tally.
 */
module Profiling {
  import opened Seqs
  import opened Frame
  import opened Missing

  /** One entry of value_counts(): a value and how many cells hold it. */
  datatype ValueCount = ValueCount(value: Value, count: nat)

  function ValueOf(e: ValueCount): Value { e.value }

  function CountOf(e: ValueCount): int { e.count }

  function CountKey(e: ValueCount): real { e.count as real }

  /** The values of a tally, in tally order. */
  function Keys(vs: seq<ValueCount>): seq<Value>
  {
    MapSeq(ValueOf, vs)
  }

  /** The cell holds exactly v. */
  function HoldsValue(v: Value): Cell -> bool
  {
    o => o == Some(v)
  }

  /** How many cells hold v. */
  function Occurrences(cells: seq<Cell>, v: Value): nat
  {
    Count(cells, HoldsValue(v))
  }

  /** The count a tally records for v, 0 when v is not in it. */
  function Lookup(vs: seq<ValueCount>, v: Value): nat
  {
    if vs == [] then 0
    else if vs[0].value == v then vs[0].count
    else Lookup(vs[1..], v)
  }

  /** One more cell holding v: its entry goes up by one, or a new entry of 1 is added. */
  function Bump(vs: seq<ValueCount>, v: Value): seq<ValueCount>
  {
    if vs == [] then [ValueCount(v, 1)]
    else if vs[0].value == v then [ValueCount(v, vs[0].count + 1)] + vs[1..]
    else [vs[0]] + Bump(vs[1..], v)
  }

  /** value_counts(dropna=True) before sorting: one entry per distinct non-null value. */
  function Tally(cells: seq<Cell>): seq<ValueCount>
  {
    if cells == [] then []
    else if cells[0].Some? then Bump(Tally(cells[1..]), cells[0].value)
    else Tally(cells[1..])
  }

  /** Bumping v adds v to the values if it is new, and keeps them distinct. */
  lemma {:induction false} BumpKeys(vs: seq<ValueCount>, v: Value)
    ensures forall w :: w in Keys(Bump(vs, v)) <==> w in Keys(vs) || w == v
    ensures NoDup(Keys(vs)) ==> NoDup(Keys(Bump(vs, v)))
  {
    if vs != [] && vs[0].value != v {
      BumpKeys(vs[1..], v);
      assert Keys(vs) == [vs[0].value] + Keys(vs[1..]);
      assert Keys(Bump(vs, v)) == [vs[0].value] + Keys(Bump(vs[1..], v));
      if NoDup(Keys(vs)) {
        assert vs[0].value !in Keys(vs[1..]);
        NoDupCons(vs[0].value, Keys(vs[1..]));
        NoDupCons(vs[0].value, Keys(Bump(vs[1..], v)));
      }
    } else if vs != [] {
      assert Keys(Bump(vs, v)) == [v] + Keys(vs[1..]);
      assert Keys(vs) == [v] + Keys(vs[1..]);
    } else {
      assert Keys(Bump(vs, v)) == [v];
    }
  }

  /** A sequence with distinct elements stays so under a new head not already in it, and conversely. */
  lemma NoDupCons<T>(x: T, s: seq<T>)
    ensures NoDup([x] + s) <==> x !in s && NoDup(s)
  {
    if NoDup([x] + s) {
      forall i, j | 0 <= i < j < |s| ensures s[i] != s[j] {
        assert ([x] + s)[i + 1] == s[i] && ([x] + s)[j + 1] == s[j];
      }
      forall k | 0 <= k < |s| ensures s[k] != x {
        assert ([x] + s)[0] == x && ([x] + s)[k + 1] == s[k];
      }
    }
    if x !in s && NoDup(s) {
      forall i, j | 0 <= i < j < |[x] + s| ensures ([x] + s)[i] != ([x] + s)[j] {
        assert ([x] + s)[j] == s[j - 1];
        if i > 0 {
          assert ([x] + s)[i] == s[i - 1];
        }
      }
    }
  }

  /** Bumping v raises the count recorded for v by one and leaves every other count alone. */
  lemma {:induction false} BumpLookup(vs: seq<ValueCount>, v: Value, w: Value)
    ensures Lookup(Bump(vs, v), w) == Lookup(vs, w) + (if w == v then 1 else 0)
  {
    if vs != [] && vs[0].value != v {
      BumpLookup(vs[1..], v, w);
      assert Bump(vs, v)[1..] == Bump(vs[1..], v);
    } else if vs != [] {
      assert Bump(vs, v)[1..] == vs[1..];
    }
  }

  /** Bumping adds one to the total count. */
  lemma {:induction false} BumpSum(vs: seq<ValueCount>, v: Value)
    ensures SumBy(Bump(vs, v), CountOf) == SumBy(vs, CountOf) + 1
  {
    if vs != [] && vs[0].value != v {
      BumpSum(vs[1..], v);
      assert Bump(vs, v)[1..] == Bump(vs[1..], v);
    } else if vs != [] {
      assert Bump(vs, v)[1..] == vs[1..];
    } else {
      assert Bump(vs, v)[1..] == [];
    }
  }

  /** Bumping keeps every count at least 1. */
  lemma {:induction false} BumpPositive(vs: seq<ValueCount>, v: Value)
    requires forall e :: e in vs ==> e.count >= 1
    ensures forall e :: e in Bump(vs, v) ==> e.count >= 1
  {
    if vs != [] && vs[0].value != v {
      BumpPositive(vs[1..], v);
    }
  }

  /** The tally's values are distinct, and they are exactly the non-null values of the column. */
  lemma {:induction false} TallyKeys(cells: seq<Cell>)
    ensures NoDup(Keys(Tally(cells)))
    ensures forall w :: w in Keys(Tally(cells)) <==> Some(w) in cells
  {
    if cells != [] {
      TallyKeys(cells[1..]);
      assert cells == [cells[0]] + cells[1..];
      if cells[0].Some? {
        BumpKeys(Tally(cells[1..]), cells[0].value);
      }
    }
  }

  /** Each value of the tally is counted as often as it occurs, and a value that does not occur counts 0. */
  lemma {:induction false} TallyLookup(cells: seq<Cell>, w: Value)
    ensures Lookup(Tally(cells), w) == Occurrences(cells, w)
  {
    if cells != [] {
      TallyLookup(cells[1..], w);
      assert cells == [cells[0]] + cells[1..];
      FilterAppend([cells[0]], cells[1..], HoldsValue(w));
      if cells[0].Some? {
        BumpLookup(Tally(cells[1..]), cells[0].value, w);
      }
    }
  }

  /** The counts of the tally add up to the number of non-null cells. */
  lemma {:induction false} TallySum(cells: seq<Cell>)
    ensures SumBy(Tally(cells), CountOf) == NonNullCount(cells)
  {
    if cells != [] {
      TallySum(cells[1..]);
      assert cells == [cells[0]] + cells[1..];
      FilterAppend([cells[0]], cells[1..], IsPresent);
      if cells[0].Some? {
        BumpSum(Tally(cells[1..]), cells[0].value);
      }
    }
  }

  /** Every value in the tally occurs at least once. */
  lemma {:induction false} TallyPositive(cells: seq<Cell>)
    ensures forall e :: e in Tally(cells) ==> e.count >= 1
  {
    if cells != [] {
      TallyPositive(cells[1..]);
      if cells[0].Some? {
        BumpPositive(Tally(cells[1..]), cells[0].value);
      }
    }
  }

  /** In a tally with distinct values, an entry's count is the count recorded for its value. */
  lemma {:induction false} LookupMember(vs: seq<ValueCount>, e: ValueCount)
    requires NoDup(Keys(vs)) && e in vs
    ensures Lookup(vs, e.value) == e.count
  {
    if vs[0] != e {
      assert Keys(vs) == [vs[0].value] + Keys(vs[1..]);
      NoDupCons(vs[0].value, Keys(vs[1..]));
      var k :| 0 <= k < |vs| && vs[k] == e;
      assert Keys(vs)[k] == e.value;
      assert vs[0].value != e.value;
      LookupMember(vs[1..], e);
    }
  }

  /** A sequence of distinct elements has as many elements as its set. */
  lemma {:induction false} NoDupCard<T>(s: seq<T>)
    requires NoDup(s)
    ensures |set x | x in s| == |s|
  {
    if s != [] {
      assert s == [s[0]] + s[1..];
      NoDupCons(s[0], s[1..]);
      NoDupCard(s[1..]);
      assert (set x | x in s) == {s[0]} + (set x | x in s[1..]);
    }
  }

  /** value_counts() has one entry per distinct non-null value: as many as nunique(dropna=True). */
  lemma TallySize(cells: seq<Cell>)
    ensures |Tally(cells)| == NUnique(cells)
  {
    TallyKeys(cells);
    NoDupCard(Keys(Tally(cells)));
    var ks := set x | x in Keys(Tally(cells));
    forall w ensures w in ks <==> w in PresentValues(cells) {
      if Some(w) in cells {
        var k :| 0 <= k < |cells| && cells[k] == Some(w);
        assert cells[k].value == w;
      }
    }
    assert ks == PresentValues(cells);
  }

  /** value_counts(dropna=True).head(5): the number of most frequent values kept. */
  const TopValuesShown: nat := 5

  /** Every entry of a top-n selection of the tally is a value of the column with its true count. */
  lemma TopTallyTrue(cells: seq<Cell>, n: nat, e: ValueCount)
    requires e in TopN(Tally(cells), CountKey, n)
    ensures 1 <= e.count == Occurrences(cells, e.value) && Some(e.value) in cells
  {
    var all := Tally(cells);
    TallyKeys(cells);
    TallyPositive(cells);
    LookupMember(all, e);
    TallyLookup(cells, e.value);
    var k :| 0 <= k < |all| && all[k] == e;
    assert Keys(all)[k] == e.value;
  }

  /** A value of the column left out of a top-n selection of the tally occurs no more often than any value kept. */
  lemma TopTallyDominates(cells: seq<Cell>, n: nat, e: ValueCount, w: Value)
    requires e in TopN(Tally(cells), CountKey, n)
    requires Some(w) in cells && w !in Keys(TopN(Tally(cells), CountKey, n))
    ensures Occurrences(cells, w) <= e.count
  {
    var all := Tally(cells);
    var r := TopN(all, CountKey, n);
    TallyKeys(cells);
    assert w in Keys(all);
    var k :| 0 <= k < |all| && Keys(all)[k] == w;
    var x := all[k];
    TopNDominates(all, CountKey, n, e, x);
    LookupMember(all, x);
    TallyLookup(cells, w);
  }

  /** A top-n selection of the tally names each value at most once and counts no more than the non-null cells. */
  lemma TopTallyShape(cells: seq<Cell>, n: nat)
    ensures NoDup(Keys(TopN(Tally(cells), CountKey, n)))
    ensures SumBy(TopN(Tally(cells), CountKey, n), CountOf) <= NonNullCount(cells)
    ensures |TopN(Tally(cells), CountKey, n)| == Min(n, NUnique(cells))
  {
    var all := Tally(cells);
    TallySize(cells);
    TallyKeys(cells);
    TallyPositive(cells);
    TallySum(cells);
    TopNSum(all, CountKey, n, CountOf);
    TopNMap(all, CountKey, n, ValueOf);
    NoDupSubMultiset(Keys(all), Keys(TopN(all, CountKey, n)));
  }

  /**
   * value_counts(dropna=True).head(5): at most five distinct non-null values,
   * most frequent first, each with its true count; any value left out occurs
   * no more often than any value kept (ties in no promised order).
   */
  function TopValueCounts(cells: seq<Cell>): (r: seq<ValueCount>)
    ensures |r| == Min(TopValuesShown, NUnique(cells))
    ensures SortedDesc(r, CountKey)
    ensures NoDup(Keys(r))
    ensures forall e :: e in r ==> 1 <= e.count == Occurrences(cells, e.value) && Some(e.value) in cells
    ensures SumBy(r, CountOf) <= NonNullCount(cells)
    ensures forall e, w :: e in r && Some(w) in cells && w !in Keys(r) ==> Occurrences(cells, w) <= e.count
  {
    var r := TopN(Tally(cells), CountKey, TopValuesShown);
    TopTallyShape(cells, TopValuesShown);
    forall e | e in r ensures 1 <= e.count == Occurrences(cells, e.value) && Some(e.value) in cells {
      TopTallyTrue(cells, TopValuesShown, e);
    }
    forall e, w | e in r && Some(w) in cells && w !in Keys(r) ensures Occurrences(cells, w) <= e.count {
      TopTallyDominates(cells, TopValuesShown, e, w);
    }
    r
  }

  /** The statistics describe() reports for a numeric column; an input of the model. */
  datatype Describe = Describe(min: real, p25: real, median: real, p75: real, max: real, mean: real, std: real)

  /** What a profile adds to its four base keys. */
  datatype Detail =
    | Basic
    | Summary(stats: Describe)
    | TopValues(values: seq<ValueCount>)

  /** The dictionary column_profile returns. */
  datatype Profile = Profile(column: string, dtype: Kind, missingPct: real, unique: nat, detail: Detail)

  /**
   * column_profile(df, col): the base keys for df[col], then either the
   * describe() summary (numeric) or the five most frequent non-null values
   * (any other column). The missing percentage is the null fraction of the
   * column's own cells.
   */
  method ColumnProfile(t: Table, col: string, describe: Column -> Describe) returns (profile: Profile)
    requires col in Names(t.columns)
    ensures var c := ColumnNamed(t.columns, col);
      && profile.column == col && profile.dtype == c.kind
      && profile.missingPct == Percent(NullCount(c.cells), |c.cells|)
      && 0.0 <= profile.missingPct <= 100.0
      && (Valid(t) ==> profile.missingPct == MissingPct(t.rows, c))
      && profile.unique == NUnique(c.cells) == |Tally(c.cells)|
      && (profile.detail.Summary? <==> c.kind == Numeric)
      && (profile.detail.TopValues? <==> c.kind == Other)
      && (profile.detail.Summary? ==> profile.detail.stats == describe(c))
      && (profile.detail.TopValues? ==>
            profile.detail.values == TopValueCounts(c.cells) && |profile.detail.values| <= TopValuesShown)
  {
    var s := ColumnNamed(t.columns, col);
    var pct := Percent(NullCount(s.cells), |s.cells|);
    NullsAndPresent(s.cells);
    profile := Profile(col, s.kind, pct, NUnique(s.cells), Basic);
    if s.kind == Numeric {
      profile := profile.(detail := Summary(describe(s)));
    } else {
      var vc := TopValueCounts(s.cells);
      profile := profile.(detail := TopValues(vc));
    }
    TallySize(s.cells);
    if Valid(t) {
      var i :| 0 <= i < |t.columns| && t.columns[i] == s;
      assert ColumnValid(t.columns[i], t.rows);
    }
  }

  /** The dictionary dataset_profile returns. */
  datatype DatasetSummary = DatasetSummary(rows: nat, cols: nat, topMissing: seq<ColumnPct>)

  /**
   * dataset_profile(df, top_n_missing): the row and column counts and the
   * top_n_missing largest column missing percentages, largest first, one
   * per column.
   */
  function DatasetProfile(t: Table, topNMissing: nat): (r: DatasetSummary)
    requires Valid(t) && t.rows > 0
    ensures r.rows == t.rows && r.cols == |t.columns|
    ensures |r.topMissing| == Min(topNMissing, |t.columns|)
    ensures SortedDesc(r.topMissing, PctOf)
    ensures NoDup(MapSeq(PctColumn, r.topMissing))
    ensures forall e :: e in r.topMissing ==> PctOfTable(t, e)
    ensures forall e, c :: e in r.topMissing && c in t.columns && c.name !in MapSeq(PctColumn, r.topMissing) ==>
      MissingPct(t.rows, c) <= e.pct
  {
    var top := TopMissing(t, topNMissing);
    DatasetSummary(t.rows, |t.columns|, top)
  }
}
