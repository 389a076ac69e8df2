/**
 * core/insights_rules.py: the rule-based insights shown beside the
 * dashboard, in rule order: data size, heavily missing columns, the first
 * strong positive and the first strong negative correlation pair, and
 * high-cardinality categorical columns.
 *
 * An insight is kept as the data its sentence is made from; the wording of
 * the sentence is not modelled.
 */
module Insights {
  import opened Seqs
  import opened Frame
  import opened Correlation
  import opened Quality

  datatype Insight =
    | DataSize(rows: nat, cols: nat)
    | HighMissing(columns: seq<string>)
    | StrongPositive(var1: string, var2: string, corr: real)
    | StrongNegative(var1: string, var2: string, corr: real)
    | HighCardinality(columns: seq<string>)

  /** The position of each rule in the order the rules run. */
  function Rank(i: Insight): nat
  {
    match i
    case DataSize(_, _) => 0
    case HighMissing(_) => 1
    case StrongPositive(_, _, _) => 2
    case StrongNegative(_, _, _) => 3
    case HighCardinality(_) => 4
  }

  /** A column is reported as heavily missing above this percentage. */
  const MissingThreshold: real := 20.0

  /** |r| above this is a strong correlation. */
  const StrongCorrelation: real := 0.7

  const MissingListed: nat := 5

  const CardinalityListed: nat := 3

  /** The insight list is cut to this many entries. */
  const MaxInsights: nat := 7

  predicate IsStrongPositive(p: CorrPair) { p.corr > StrongCorrelation }

  predicate IsStrongNegative(p: CorrPair) { p.corr < -StrongCorrelation }

  /** The first pair, in the order of the pairs frame, that satisfies the rule. */
  function FirstStrong(pairs: seq<CorrPair>, strong: CorrPair -> bool): (r: Option<CorrPair>)
    ensures r.Some? <==> exists k :: 0 <= k < |pairs| && strong(pairs[k])
    ensures r.Some? ==> exists k :: IsFirstMatch(pairs, strong, k) && r.value == pairs[k]
  {
    if pairs == [] then None
    else if strong(pairs[0]) then
      assert IsFirstMatch(pairs, strong, 0);
      Some(pairs[0])
    else
      var r := FirstStrong(pairs[1..], strong);
      assert forall k :: 1 <= k < |pairs| ==> pairs[k] == pairs[1..][k - 1];
      assert r.Some? ==> exists k :: IsFirstMatch(pairs, strong, k) && r.value == pairs[k] by {
        if r.Some? {
          var k :| IsFirstMatch(pairs[1..], strong, k) && r.value == pairs[1..][k];
          assert IsFirstMatch(pairs, strong, k + 1);
        }
      }
      r
  }

  /** pairs[pairs["corr"] ...].iloc[0] on a non-empty selection is the first pair that satisfies the rule. */
  lemma FirstStrongIsSelectionHead(pairs: seq<CorrPair>, strong: CorrPair -> bool)
    ensures FirstStrong(pairs, strong).Some? <==> Filter(pairs, strong) != []
    ensures Filter(pairs, strong) != [] ==> FirstStrong(pairs, strong) == Some(Filter(pairs, strong)[0])
  {
    FilterNonEmpty(pairs, strong);
    if Filter(pairs, strong) != [] {
      FilterHead(pairs, strong);
      var k :| IsFirstMatch(pairs, strong, k) && Filter(pairs, strong)[0] == pairs[k];
      var j :| IsFirstMatch(pairs, strong, j) && FirstStrong(pairs, strong).value == pairs[j];
      assert !(j < k) && !(k < j);
    }
  }

  /** df[c].nunique() > 50. */
  predicate IsHighCardinality(c: Column) { NUnique(c.cells) > CardinalityLimit }

  /** The first n names of the columns satisfying p, in column order. */
  function Listed(cols: seq<Column>, p: Column -> bool, n: nat): seq<string>
  {
    Take(Names(Filter(cols, p)), n)
  }

  /**
   * A listing names only columns that satisfy p, as many as there are up
   * to n, and every such column when there are at most n of them.
   */
  lemma ListedColumns(cols: seq<Column>, p: Column -> bool, n: nat)
    ensures |Listed(cols, p, n)| == Min(n, Count(cols, p))
    ensures forall x :: x in Listed(cols, p, n) ==> exists c :: c in cols && p(c) && c.name == x
    ensures Count(cols, p) <= n ==> forall c :: c in cols && p(c) ==> c.name in Listed(cols, p, n)
  {
    var kept := Filter(cols, p);
    var ls := Listed(cols, p, n);
    forall x | x in ls ensures exists c :: c in cols && p(c) && c.name == x {
      var k :| 0 <= k < |ls| && ls[k] == x;
      assert kept[k] in kept;
    }
    if Count(cols, p) <= n {
      forall c | c in cols && p(c) ensures c.name in ls {
        var i :| 0 <= i < |cols| && cols[i] == c;
        var k :| 0 <= k < |kept| && kept[k] == c;
        assert ls[k] == c.name;
      }
    }
  }

  /** The cardinality rule on select_dtypes(exclude=["number"]) picks the non-numeric high-cardinality columns. */
  lemma CardinalityRule(cols: seq<Column>)
    ensures Names(Filter(Filter(cols, IsOtherColumn), IsHighCardinality)) == Names(Filter(cols, IsHighCardOther))
  {
    FilterFilter(cols, IsOtherColumn, IsHighCardinality, IsHighCardOther);
  }

  /** A prefix as long as the sequence is the sequence. */
  lemma TakeAll<T>(s: seq<T>, n: nat)
    requires n == |s|
    ensures s[..n] == s
  {
  }

  /** The insights are in strictly increasing rule order, so no rule fires twice. */
  ghost predicate InRuleOrder(s: seq<Insight>)
  {
    forall i, j :: 0 <= i < j < |s| ==> Rank(s[i]) < Rank(s[j])
  }

  function Opt(o: Option<Insight>): seq<Insight>
  {
    if o.Some? then [o.value] else []
  }

  /** The insight list put together from what each rule produced. */
  function Assemble(size: Insight, missing: Option<Insight>, positive: Option<Insight>,
                    negative: Option<Insight>, cardinality: Option<Insight>): seq<Insight>
  {
    [size] + Opt(missing) + Opt(positive) + Opt(negative) + Opt(cardinality)
  }

  /** o is absent or holds an insight of the given rule. */
  predicate OfRank(o: Option<Insight>, k: nat)
  {
    o.Some? ==> Rank(o.value) == k
  }

  /** Every insight of rule k in s is the outcome o, and o, if any, is in s. */
  ghost predicate Selects(s: seq<Insight>, o: Option<Insight>, k: nat)
  {
    && (forall x :: x in s && Rank(x) == k ==> Some(x) == o)
    && (o.Some? ==> o.value in s)
  }

  /** An assembled list holds the data-size insight and the rules' outcomes, and nothing else. */
  lemma AssembleMembers(size: Insight, missing: Option<Insight>, positive: Option<Insight>,
                        negative: Option<Insight>, cardinality: Option<Insight>)
    ensures forall x :: x in Assemble(size, missing, positive, negative, cardinality) <==>
      x == size || Some(x) == missing || Some(x) == positive || Some(x) == negative || Some(x) == cardinality
  {
  }

  /**
   * Putting the rules' outcomes together in rule order gives at most five
   * insights, data size first, in rule order.
   */
  lemma AssembleOrder(size: Insight, missing: Option<Insight>, positive: Option<Insight>,
                      negative: Option<Insight>, cardinality: Option<Insight>)
    requires Rank(size) == 0 && OfRank(missing, 1) && OfRank(positive, 2)
    requires OfRank(negative, 3) && OfRank(cardinality, 4)
    ensures var s := Assemble(size, missing, positive, negative, cardinality);
      1 <= |s| <= 5 && s[0] == size && InRuleOrder(s)
  {
    var a := [size] + Opt(missing);
    var b := a + Opt(positive);
    var c := b + Opt(negative);
    assert forall x :: x in a ==> Rank(x) <= 1;
    assert forall x :: x in b ==> Rank(x) <= 2;
    assert forall x :: x in c ==> Rank(x) <= 3;
    AppendOptInRuleOrder([size], missing);
    AppendOptInRuleOrder(a, positive);
    AppendOptInRuleOrder(b, negative);
    AppendOptInRuleOrder(c, cardinality);
  }

  /** In an assembled list, an insight of a rule is exactly that rule's outcome. */
  lemma AssembleSelects(size: Insight, missing: Option<Insight>, positive: Option<Insight>,
                        negative: Option<Insight>, cardinality: Option<Insight>)
    requires Rank(size) == 0 && OfRank(missing, 1) && OfRank(positive, 2)
    requires OfRank(negative, 3) && OfRank(cardinality, 4)
    ensures var s := Assemble(size, missing, positive, negative, cardinality);
      && Selects(s, missing, 1) && Selects(s, positive, 2)
      && Selects(s, negative, 3) && Selects(s, cardinality, 4)
  {
    AssembleMembers(size, missing, positive, negative, cardinality);
  }

  /** Appending an outcome whose rule comes after every insight so far keeps the rule order. */
  lemma AppendOptInRuleOrder(s: seq<Insight>, o: Option<Insight>)
    requires InRuleOrder(s)
    requires o.Some? ==> forall y :: y in s ==> Rank(y) < Rank(o.value)
    ensures InRuleOrder(s + Opt(o))
  {
    if o.Some? {
      var x := o.value;
      forall i, j | 0 <= i < j < |s + [x]| ensures Rank((s + [x])[i]) < Rank((s + [x])[j]) {
        assert (s + [x])[i] in s;
        if j < |s| {
          assert (s + [x])[j] == s[j];
        }
      }
    } else {
      assert s + Opt(o) == s;
    }
  }

  /** What the missing-values rule produces: the first names of the columns over 20% missing, if any. */
  function MissingOutcome(t: Table): Option<Insight>
  {
    var highMiss := Names(Filter(t.columns, MissingOver(t.rows, MissingThreshold)));
    if |highMiss| > 0 then Some(HighMissing(Take(highMiss, MissingListed))) else None
  }

  /** What the positive-correlation rule produces from the pairs frame. */
  function PositiveOutcome(pairs: seq<CorrPair>): Option<Insight>
  {
    match FirstStrong(pairs, IsStrongPositive)
    case None => None
    case Some(r) => Some(StrongPositive(r.var1, r.var2, r.corr))
  }

  /** What the negative-correlation rule produces from the pairs frame. */
  function NegativeOutcome(pairs: seq<CorrPair>): Option<Insight>
  {
    match FirstStrong(pairs, IsStrongNegative)
    case None => None
    case Some(r) => Some(StrongNegative(r.var1, r.var2, r.corr))
  }

  /** What the cardinality rule produces: the first names of the high-cardinality non-numeric columns, if any. */
  function CardinalityOutcome(t: Table): Option<Insight>
  {
    var highCard := Names(Filter(Filter(t.columns, IsOtherColumn), IsHighCardinality));
    if |highCard| > 0 then Some(HighCardinality(Take(highCard, CardinalityListed))) else None
  }

  /** Each rule produces, if anything, an insight of its own kind. */
  lemma OutcomeRanks(t: Table, pairs: seq<CorrPair>)
    ensures OfRank(MissingOutcome(t), 1) && OfRank(PositiveOutcome(pairs), 2)
    ensures OfRank(NegativeOutcome(pairs), 3) && OfRank(CardinalityOutcome(t), 4)
  {
  }

  /** Insights list the columns over 20% missing exactly when there are some. */
  ghost predicate ReportsMissing(t: Table, s: seq<Insight>)
  {
    && ((exists x :: x in s && x.HighMissing?) <==> Count(t.columns, MissingOver(t.rows, MissingThreshold)) > 0)
    && (forall x :: x in s && x.HighMissing? ==>
          x.columns == Listed(t.columns, MissingOver(t.rows, MissingThreshold), MissingListed))
  }

  /** Insights report the first pair above 0.7 exactly when there is one. */
  ghost predicate ReportsPositive(pairs: seq<CorrPair>, s: seq<Insight>)
  {
    && ((exists x :: x in s && x.StrongPositive?) <==> exists k :: 0 <= k < |pairs| && IsStrongPositive(pairs[k]))
    && (forall x :: x in s && x.StrongPositive? ==>
          exists k :: IsFirstMatch(pairs, IsStrongPositive, k)
            && x == StrongPositive(pairs[k].var1, pairs[k].var2, pairs[k].corr))
  }

  /** Insights report the first pair below -0.7 exactly when there is one. */
  ghost predicate ReportsNegative(pairs: seq<CorrPair>, s: seq<Insight>)
  {
    && ((exists x :: x in s && x.StrongNegative?) <==> exists k :: 0 <= k < |pairs| && IsStrongNegative(pairs[k]))
    && (forall x :: x in s && x.StrongNegative? ==>
          exists k :: IsFirstMatch(pairs, IsStrongNegative, k)
            && x == StrongNegative(pairs[k].var1, pairs[k].var2, pairs[k].corr))
  }

  /** Insights list the high-cardinality non-numeric columns exactly when there are some. */
  ghost predicate ReportsCardinality(t: Table, s: seq<Insight>)
  {
    && ((exists x :: x in s && x.HighCardinality?) <==> Count(t.columns, IsHighCardOther) > 0)
    && (forall x :: x in s && x.HighCardinality? ==>
          x.columns == Listed(t.columns, IsHighCardOther, CardinalityListed))
  }

  /** The missing-values rule fires exactly when some column is over 20% missing, and lists the first of them. */
  lemma MissingOutcomeMeaning(t: Table)
    ensures MissingOutcome(t).Some? <==> Count(t.columns, MissingOver(t.rows, MissingThreshold)) > 0
    ensures MissingOutcome(t).Some? ==>
      MissingOutcome(t).value == HighMissing(Listed(t.columns, MissingOver(t.rows, MissingThreshold), MissingListed))
  {
  }

  /** The cardinality rule fires exactly when some non-numeric column has over 50 values, and lists the first of them. */
  lemma CardinalityOutcomeMeaning(t: Table)
    ensures CardinalityOutcome(t).Some? <==> Count(t.columns, IsHighCardOther) > 0
    ensures CardinalityOutcome(t).Some? ==>
      CardinalityOutcome(t).value == HighCardinality(Listed(t.columns, IsHighCardOther, CardinalityListed))
  {
    CardinalityRule(t.columns);
  }

  /** The positive rule fires exactly when some pair is above 0.7, and reports the first such pair. */
  lemma PositiveOutcomeMeaning(pairs: seq<CorrPair>)
    ensures PositiveOutcome(pairs).Some? <==> exists k :: 0 <= k < |pairs| && IsStrongPositive(pairs[k])
    ensures PositiveOutcome(pairs).Some? ==>
      (exists k :: IsFirstMatch(pairs, IsStrongPositive, k) &&
                   PositiveOutcome(pairs).value == StrongPositive(pairs[k].var1, pairs[k].var2, pairs[k].corr))
  {
  }

  /** The negative rule fires exactly when some pair is below -0.7, and reports the first such pair. */
  lemma NegativeOutcomeMeaning(pairs: seq<CorrPair>)
    ensures NegativeOutcome(pairs).Some? <==> exists k :: 0 <= k < |pairs| && IsStrongNegative(pairs[k])
    ensures NegativeOutcome(pairs).Some? ==>
      (exists k :: IsFirstMatch(pairs, IsStrongNegative, k) &&
                   NegativeOutcome(pairs).value == StrongNegative(pairs[k].var1, pairs[k].var2, pairs[k].corr))
  {
  }

  /** A list that selects the missing-values outcome reports the heavily missing columns. */
  lemma MissingReported(t: Table, s: seq<Insight>, o: Option<Insight>)
    requires Selects(s, o, 1)
    requires o.Some? <==> Count(t.columns, MissingOver(t.rows, MissingThreshold)) > 0
    requires o.Some? ==> o.value == HighMissing(Listed(t.columns, MissingOver(t.rows, MissingThreshold), MissingListed))
    ensures ReportsMissing(t, s)
  {
    forall x | x in s && x.HighMissing? ensures Some(x) == o {
      assert Rank(x) == 1;
    }
  }

  /** A list that selects the positive outcome reports the first strong positive pair. */
  lemma PositiveReported(pairs: seq<CorrPair>, s: seq<Insight>, o: Option<Insight>)
    requires Selects(s, o, 2)
    requires o.Some? <==> exists k :: 0 <= k < |pairs| && IsStrongPositive(pairs[k])
    requires o.Some? ==>
      (exists k :: IsFirstMatch(pairs, IsStrongPositive, k) &&
                   o.value == StrongPositive(pairs[k].var1, pairs[k].var2, pairs[k].corr))
    ensures ReportsPositive(pairs, s)
  {
    forall x | x in s && x.StrongPositive? ensures Some(x) == o {
      assert Rank(x) == 2;
    }
  }

  /** A list that selects the negative outcome reports the first strong negative pair. */
  lemma NegativeReported(pairs: seq<CorrPair>, s: seq<Insight>, o: Option<Insight>)
    requires Selects(s, o, 3)
    requires o.Some? <==> exists k :: 0 <= k < |pairs| && IsStrongNegative(pairs[k])
    requires o.Some? ==>
      (exists k :: IsFirstMatch(pairs, IsStrongNegative, k) &&
                   o.value == StrongNegative(pairs[k].var1, pairs[k].var2, pairs[k].corr))
    ensures ReportsNegative(pairs, s)
  {
    forall x | x in s && x.StrongNegative? ensures Some(x) == o {
      assert Rank(x) == 3;
    }
  }

  /** A list that selects the cardinality outcome reports the high-cardinality non-numeric columns. */
  lemma CardinalityReported(t: Table, s: seq<Insight>, o: Option<Insight>)
    requires Selects(s, o, 4)
    requires o.Some? <==> Count(t.columns, IsHighCardOther) > 0
    requires o.Some? ==> o.value == HighCardinality(Listed(t.columns, IsHighCardOther, CardinalityListed))
    ensures ReportsCardinality(t, s)
  {
    forall x | x in s && x.HighCardinality? ensures Some(x) == o {
      assert Rank(x) == 4;
    }
  }

  /** The list the rules assemble, before the cut to seven entries. */
  function RuleInsights(t: Table, pairs: seq<CorrPair>): seq<Insight>
  {
    Assemble(DataSize(t.rows, |t.columns|), MissingOutcome(t), PositiveOutcome(pairs),
             NegativeOutcome(pairs), CardinalityOutcome(t))
  }

  /** The assembled list starts with the data size, is in rule order, and the cut to seven keeps all of it. */
  lemma RuleInsightsShape(t: Table, pairs: seq<CorrPair>)
    ensures var s := RuleInsights(t, pairs);
      && 1 <= |s| <= 5 && s[0] == DataSize(t.rows, |t.columns|)
      && s[..Min(MaxInsights, |s|)] == s
      && InRuleOrder(s)
  {
    var s := RuleInsights(t, pairs);
    OutcomeRanks(t, pairs);
    AssembleOrder(DataSize(t.rows, |t.columns|), MissingOutcome(t), PositiveOutcome(pairs),
                  NegativeOutcome(pairs), CardinalityOutcome(t));
    TakeAll(s, |s|);
  }

  /** The assembled list reports what each rule found, and nothing else for that rule. */
  lemma RuleInsightsReports(t: Table, pairs: seq<CorrPair>)
    ensures var s := RuleInsights(t, pairs);
      && ReportsMissing(t, s) && ReportsPositive(pairs, s)
      && ReportsNegative(pairs, s) && ReportsCardinality(t, s)
  {
    var s := RuleInsights(t, pairs);
    OutcomeRanks(t, pairs);
    AssembleSelects(DataSize(t.rows, |t.columns|), MissingOutcome(t), PositiveOutcome(pairs),
                    NegativeOutcome(pairs), CardinalityOutcome(t));
    MissingOutcomeMeaning(t);
    MissingReported(t, s, MissingOutcome(t));
    PositiveOutcomeMeaning(pairs);
    PositiveReported(pairs, s, PositiveOutcome(pairs));
    NegativeOutcomeMeaning(pairs);
    NegativeReported(pairs, s, NegativeOutcome(pairs));
    CardinalityOutcomeMeaning(t);
    CardinalityReported(t, s, CardinalityOutcome(t));
  }

  /** The insight's high-cardinality listing is the first three names of quality_report's high_cardinality_cols. */
  lemma CardinalityListingAgrees(t: Table)
    requires Valid(t) && t.rows > 0
    ensures Listed(t.columns, IsHighCardOther, CardinalityListed)
      == Take(QualityReportOf(t).highCardinalityCols, CardinalityListed)
  {
    TakeTake(Names(Filter(t.columns, IsHighCardOther)), ReportTop, CardinalityListed);
  }

  /** The first b of the first a elements are the first b elements, for b <= a. */
  lemma TakeTake<T>(s: seq<T>, a: nat, b: nat)
    requires b <= a
    ensures Take(Take(s, a), b) == Take(s, b)
  {
  }

  /** The "missing" block: appends the heavily-missing listing when some column is over 20% missing. */
  method AddMissingInsight(t: Table, insights: seq<Insight>) returns (out: seq<Insight>)
    ensures out == insights + Opt(MissingOutcome(t))
  {
    out := insights;
    var highMiss := Names(Filter(t.columns, MissingOver(t.rows, MissingThreshold)));
    if |highMiss| > 0 {
      out := out + [HighMissing(Take(highMiss, MissingListed))];
    }
  }

  /** The "correlation" block: appends the first strong positive and the first strong negative pair. */
  method AddCorrelationInsights(corrPairs: seq<CorrPair>, insights: seq<Insight>) returns (out: seq<Insight>)
    ensures out == insights + Opt(PositiveOutcome(corrPairs)) + Opt(NegativeOutcome(corrPairs))
  {
    out := insights;
    if |corrPairs| > 0 {
      var strongPos := FirstStrong(corrPairs, IsStrongPositive);
      var strongNeg := FirstStrong(corrPairs, IsStrongNegative);
      if strongPos.Some? {
        var r := strongPos.value;
        out := out + [StrongPositive(r.var1, r.var2, r.corr)];
      }
      assert out == insights + Opt(PositiveOutcome(corrPairs));
      if strongNeg.Some? {
        var r := strongNeg.value;
        out := out + [StrongNegative(r.var1, r.var2, r.corr)];
      }
    } else {
      assert insights + Opt(PositiveOutcome(corrPairs)) + Opt(NegativeOutcome(corrPairs)) == insights;
    }
  }

  /** The "cardinality" block: appends the high-cardinality listing when some non-numeric column has over 50 values. */
  method AddCardinalityInsight(t: Table, insights: seq<Insight>) returns (out: seq<Insight>)
    ensures out == insights + Opt(CardinalityOutcome(t))
  {
    out := insights;
    var catCols := Filter(t.columns, IsOtherColumn);
    var highCard := Names(Filter(catCols, IsHighCardinality));
    if |highCard| > 0 {
      out := out + [HighCardinality(Take(highCard, CardinalityListed))];
    }
  }

  /**
   * generate_insights: the data-size insight first, then each rule whose
   * condition holds, in rule order, each at most once. An empty pairs frame
   * produces no correlation insight; the per-column percentages are over
   * len(df), and an empty frame, with NaN percentages, has no column above
   * the threshold.
   */
  method GenerateInsights(t: Table, corrPairs: seq<CorrPair>) returns (insights: seq<Insight>)
    ensures 1 <= |insights| <= 5 && insights[0] == DataSize(t.rows, |t.columns|)
    ensures InRuleOrder(insights)
    ensures ReportsMissing(t, insights)
    ensures ReportsPositive(corrPairs, insights)
    ensures ReportsNegative(corrPairs, insights)
    ensures ReportsCardinality(t, insights)
  {
    var size := DataSize(t.rows, |t.columns|);
    insights := [size];
    insights := AddMissingInsight(t, insights);
    insights := AddCorrelationInsights(corrPairs, insights);
    insights := AddCardinalityInsight(t, insights);

    assert insights == RuleInsights(t, corrPairs);
    RuleInsightsShape(t, corrPairs);
    RuleInsightsReports(t, corrPairs);
    insights := insights[..Min(MaxInsights, |insights|)];
  }
}
