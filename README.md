# autodataanalyst statistics core in Dafny

This project models the statistics and data-quality layer of the
autodataanalyst dashboard, which runs over an in-memory table. It covers:

- the per-column missingness summary;
- the data-quality report and its 0–100 score;
- IQR outlier counting and the ranking of columns by outlier percentage;
- the correlation matrix over numeric columns and the ranking of its strongest pairs;
- the rule-based insights;
- the column and dataset profiles.

It proves properties of each of these.

The table (module `Frame`) is a row count and a list of named columns:

- A column is numeric or not, which is what `select_dtypes(include=["number"])` decides.
- A column holds one optional cell per row; `None` is a null (NaN) cell.
- A table is `Valid` when every column has one cell per row, numeric columns hold only numbers, and column names are distinct.

Modules:

- `Seqs`: generic filtering, counting, mapping, sums, insertion sort and top-n selection. pandas' `sort_values(...).head(n)` is modelled as `TopN`, whose contract is "sorted, part of the input, and nothing left out beats anything kept". No tie order is promised, because pandas' default sort is not stable.
- `Frame`: the table, null counting, the guarded percentage, column lookup by name.
- `Missing`: `missing_summary` and the sorted per-column missing percentages.
- `Quality`: `quality_report` and `quality_score`.
- `Outliers`: `iqr_outliers_count` and `top_outlier_columns`.
- `Correlation`: `compute_corr` and `top_correlations`.
- `Insights`: `generate_insights`.
- `Profiling`: `column_profile` and `dataset_profile`.

`top_outlier_columns`, `generate_insights`, `quality_score` and
`column_profile` build their results step by step, so they are modelled as
methods. Each method is proved against functions whose properties are proved
as lemmas. The rest of the source is expressions and is modelled as
functions.

Three points where the model follows the code:

- The quality score penalises four things: the missing-cell percentage, the duplicate-row percentage, the number of columns over 40% missing, and the number of high-cardinality columns.
- `generate_insights` produces at most five insights. Its final cut to seven never drops one; `Insights.RuleInsightsShape` proves this.
- The source's percentages divide by the row count without a guard on some paths, and the result is NaN for an empty frame. In this model a NaN percentage is 0.0, which compares the same way against the positive thresholds the rules use (NaN > 20 and 0.0 > 20 are both false).

## Model

| member | source | states |
|---|---|---|
| Frame.Percent | core/quality.py:6 | The guarded percentage. It is 0 when the whole is 0, never negative, at most 100 when the part does not exceed the whole, below 100 when the part is smaller, and 0 exactly when the part or the whole is 0. |
| Frame.MissingCellsTotal | core/quality.py:5 | The total of the column null counts never exceeds rows × cols. |
| Frame.ColumnNamed | core/outliers.py:4 | df[col] yields a column of the table that carries that name. |
| Frame.ColumnNamedUnique | core/profiling.py:4 | With distinct names, looking a column's name up yields that very column. |
| Frame.NumericNameIff | core/quality.py:15 | With distinct names, a column's name is among the numeric names exactly when the column is numeric. |
| Missing.MissingSummary | core/missing.py:3-11 | One row per column. The row names are a permutation of the column names. Each row holds that column's null count and its percentage of the row count, in [0, 100]. Rows are in non-increasing percentage order, and the counts add up to the table's missing cells. |
| Missing.SummaryRowsSum | core/missing.py:7 | The per-column null counts add up to the table's total of missing cells. |
| Missing.TopMissing | core/quality.py:8 | The n largest per-column missing percentages: min(n, cols) entries, largest first, drawn from the per-column percentages with each column at most once. Each is a true percentage of a column of the table. A column left out is missing no more than any column kept. |
| Missing.TopMissingDominates | core/quality.py:28 | A column not among the top entries has a missing percentage no larger than any top entry. |
| Quality.NoDuplicatesBelow | core/quality.py:12 | No row among the first n is flagged by duplicated() exactly when those rows are pairwise different. |
| Quality.DuplicateRowsFacts | core/quality.py:12 | A non-empty frame has fewer duplicate rows than rows (the first occurrence is never flagged). With columns, there are 0 duplicates exactly when all rows differ. |
| Quality.CategoricalIsOther | core/quality.py:15-16 | With distinct names, cat_cols are exactly the non-numeric columns in column order, and numeric plus categorical counts equal cols. |
| Quality.HighCardinalityIsOther | core/quality.py:18 | With distinct names, the high-cardinality filter over cat_cols picks the non-numeric columns with more than 50 distinct non-null values, in column order. |
| Quality.HighCardinalityMembers | core/quality.py:18 | Every high-cardinality name is a non-numeric column with more than 50 distinct non-null values. |
| Quality.QualityReportOf | core/quality.py:3-34 | Each report field against the table: the missing-cell total is within rows × cols, and missing_cell_pct is in [0, 100] and 0 with no columns. The over-40 and over-20 counts are ordered and bounded by cols. top_missing_columns is TopMissing with n = 10: 10 entries (fewer if the table has fewer columns), sorted, each column at most once, each true, and no column left out is missing more than one kept. Duplicate rows are fewer than rows, with a percentage below 100. Numeric plus categorical counts equal cols. The high-cardinality list is the first ten qualifying names. |
| Quality.RoundHalfEven | core/quality.py:43 | Python's round(): within 0.5 of the argument, and even on an exact half. |
| Quality.QualityScore | core/quality.py:36-43 | Subtracting the four capped penalties from 100 and rounding gives Score(r). The result is at least 0, at most 100 for non-negative rates, and exactly 100 when there is no penalty. |
| Quality.ScoreBounds | core/quality.py:43 | The score is at least 0, at most 100 for non-negative rates, and exactly 100 when no penalty applies. |
| Quality.PenaltyCaps | core/quality.py:39-42 | The penalties stay within 40, 20, 20 and 20 points, so with non-negative rates they total at most 100. |
| Quality.PenaltyMono | core/quality.py:39-42 | Raising any penalty input never lowers the total penalty. |
| Quality.ScoreAntitone | core/quality.py:38-43 | Raising any penalty input never raises the score. |
| Quality.ScoreSaturates | core/quality.py:39-43 | Once every input is past its cap, the score is 0 whatever the inputs are. |
| Outliers.OutlierCount | core/outliers.py:18 | The outlier count is exactly the number of non-null positions strictly outside the fences, and at most the non-null count. |
| Outliers.IqrOutliersCount | core/outliers.py:3-20 | The total is the non-null count and the outliers do not exceed it. outlier_pct is their percentage, in [0, 100]. No non-null value gives (0, 0, 0.0). A zero IQR gives no outliers out of the total. Otherwise the outliers are the values strictly outside [q1 − 1.5·iqr, q3 + 1.5·iqr]. |
| Outliers.TopRowsFacts | core/outliers.py:27 | The kept rows come from requested columns and hold those columns' own statistics. A row left out has an outlier percentage no larger than any row kept. |
| Outliers.TopOutlierColumns | core/outliers.py:22-28 | The loop builds one row per requested column, in order. The result keeps min(top_n, columns) rows, largest outlier percentage first, drawn from those rows. Each kept row holds its column's own statistics, and no row left out beats a row kept. |
| Correlation.ComputeCorr | core/correlation.py:4-8 | Fewer than two numeric columns give the empty frame. Otherwise the result is a square matrix labelled by the numeric column names in column order, and entry (i, j) is the coefficient of numeric columns i and j. |
| Correlation.ComputeCorrLabels | core/correlation.py:5 | Distinct column names give distinct matrix labels. |
| Correlation.UpperPairsMembers | core/correlation.py:14-18 | A pair is listed exactly when it reports a defined (non-NaN) entry strictly above the diagonal, with its two labels and its absolute value. |
| Correlation.UpperPairsLength | core/correlation.py:14-18 | An n × n matrix yields at most n(n−1)/2 pairs, and exactly that many when no entry above the diagonal is NaN. |
| Correlation.UpperFromDistinct | core/correlation.py:14-18 | With distinct labels, no two listed pairs name the same two variables. |
| Correlation.TopCorrelations | core/correlation.py:10-25 | An empty matrix gives no pairs. Otherwise the result has min(top_n, pairs) strict-upper pairs drawn from the listed pairs without repetition, largest absolute coefficient first, and no pair left out has a larger absolute coefficient than one kept. |
| Correlation.TopCorrelationsDistinct | core/correlation.py:14-23 | With distinct labels, the selected pairs name two different variables each and no unordered pair twice. |
| Insights.FirstStrong | core/insights_rules.py:18-21 | The result is some pair exactly when a pair satisfies the rule, and then it is the first such pair. |
| Insights.FirstStrongIsSelectionHead | core/insights_rules.py:20-21 | The first matching pair is iloc[0] of the boolean selection, and there is none exactly when the selection is empty. |
| Insights.ListedColumns | core/insights_rules.py:14 | A listing of the first n qualifying names has min(n, qualifying) names, each naming a qualifying column. It names them all when there are at most n. |
| Insights.CardinalityRule | core/insights_rules.py:31-32 | Filtering select_dtypes(exclude=["number"]) by nunique() > 50 picks the non-numeric columns with more than 50 distinct values. |
| Insights.MissingOutcomeMeaning | core/insights_rules.py:11-14 | The missing rule fires exactly when some column is over 20% missing, and lists the first five such names. |
| Insights.PositiveOutcomeMeaning | core/insights_rules.py:18-24 | The positive rule fires exactly when some pair has corr > 0.7, and reports the first such pair. |
| Insights.NegativeOutcomeMeaning | core/insights_rules.py:19-28 | The negative rule fires exactly when some pair has corr < −0.7, and reports the first such pair. |
| Insights.CardinalityOutcomeMeaning | core/insights_rules.py:31-34 | The cardinality rule fires exactly when some non-numeric column has more than 50 distinct values, and lists the first three. |
| Insights.AddMissingInsight | core/insights_rules.py:10-14 | The block appends the missing rule's outcome, and nothing when the rule does not fire. |
| Insights.AddCorrelationInsights | core/insights_rules.py:16-28 | The block appends the positive and then the negative outcome. An empty pairs frame appends nothing. |
| Insights.AddCardinalityInsight | core/insights_rules.py:30-34 | The block appends the cardinality rule's outcome, and nothing when the rule does not fire. |
| Insights.RuleInsightsShape | core/insights_rules.py:3-36 | The assembled list has 1 to 5 insights. The data size is first, rules appear in rule order with each at most once, and the cut to seven keeps everything. |
| Insights.RuleInsightsReports | core/insights_rules.py:10-34 | For each rule, the list holds an insight of that rule exactly when its condition holds, and that insight carries the rule's data. |
| Insights.GenerateInsights | core/insights_rules.py:3-36 | 1 to 5 insights, the data size first, in rule order. Heavily missing columns are listed exactly when some column is over 20% missing, and the listing is the first five of them. The first pair above 0.7 is reported exactly when one exists, and likewise the first pair below −0.7. High-cardinality non-numeric columns are listed exactly when there are some, and the listing is the first three. |
| Insights.CardinalityListingAgrees | core/insights_rules.py:32-34 | The insight's high-cardinality names are the first three of quality_report's high_cardinality_cols. |
| Profiling.TallyKeys | core/profiling.py:27 | value_counts() has a distinct entry for every non-null value of the column, and for no other value. |
| Profiling.TallyLookup | core/profiling.py:27 | The count value_counts() gives a value is the number of cells holding it. |
| Profiling.TallySum | core/profiling.py:27 | The counts add up to the non-null count. |
| Profiling.TallySize | core/profiling.py:12 | value_counts() has one entry per distinct non-null value, as many as nunique(dropna=True). |
| Profiling.TopValueCounts | core/profiling.py:27-28 | The result has min(5, nunique) distinct values, most frequent first, each with its true count (at least 1). The counts add up to at most the non-null count, and a value left out occurs no more often than any value kept. |
| Profiling.ColumnProfile | core/profiling.py:3-30 | column, dtype, missing_pct (the null fraction × 100, in [0, 100]) and unique (nunique, the number of distinct non-null values). Exactly one extra part: the describe() summary for a numeric column, or the top five values for any other column. |
| Profiling.DatasetProfile | core/profiling.py:33-39 | Rows and cols, and the top_n_missing largest per-column missing percentages: largest first, one per column, each true of the table, and no column left out is missing more than a column kept. |

## Left out

- The Streamlit app, the LLM helpers, the charts and the file loader are not part of this model.
- Floating-point numerics are inputs, not modelled. These are pandas' interpolating quantiles (q1 and q3 are given per column), the Pearson coefficient (a coefficient function of two columns, whose NaN becomes `None`), and the `describe()` statistics (a `Describe` record per column). All other arithmetic is on exact reals.
- The `method` argument of `compute_corr` is folded into the coefficient function.
- A column's dtype string is reduced to numeric or not. Boolean columns, which `is_numeric_dtype` accepts and `select_dtypes(include=["number"])` does not, are not distinguished.
- Tables with duplicate column names are outside `Valid`, because for them `df[c]` yields a frame, not a column.
- Sentence text is not modelled. Insights are kept as the data their sentences are built from, so string joining and the `:.2f` formatting are out.
- Dictionaries produced by `to_dict()` are sequences of (key, value) entries in order.
- Missing.MissingSummary, Missing.TopMissing, Quality.QualityReportOf and Profiling.DatasetProfile require at least one row. With no rows the source divides by zero and produces NaN percentages, which is not modelled.
- Profiling.ColumnProfile: a column with no cells gets a missing percentage of 0.0, where the source gets NaN. The numeric summary is passed through from the `describe()` input.
- Outliers.TopOutlierColumns requires a non-empty list of numeric columns. The source cannot sort an empty frame because there is no outlier_pct column, and non-numeric columns have no quantiles.
- Correlation.TopCorrelations requires a square labelled matrix, which is what `compute_corr` produces.
- Negative `top_n` values, which `head` treats as "all but the last n", are not modelled; counts are natural numbers.
- Outliers.TopOutlierColumns, Correlation.TopCorrelations, Missing.MissingSummary and Profiling.TopValueCounts promise no order among equal keys, because pandas' default sort is not stable.
