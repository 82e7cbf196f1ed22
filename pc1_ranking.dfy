/**
 * YoloPCA.py: keep the models common to every dataset, build one row of
 * averaged required metrics per model, score the rows by their first
 * principal component, and sort the rows by descending score.
 *
 * The fitted PCA is a parameter: `pc1(X, i)` is the PC1 score that fitting
 * PCA to the matrix X gives row i.
 */
module Pc1Ranking {
  import opened Basics
  import opened Sorting
  import opened MetricsTable
  import opened Paths

  /** One row of `agg_df` before scoring: the model and its averages of the required metrics, in their declared order. */
  datatype Aggregate = Aggregate(model: string, means: seq<Option<real>>)

  /** One row of the output: the model, its PC1 score and its averaged metrics. */
  datatype Scored = Scored(model: string, score: real, metrics: seq<real>)

  /** The fitted PCA's first component, as a function of the whole matrix and a row index. */
  type Projection = (seq<seq<real>>, nat) -> real

  /** `{metric: sub.groupby('Dataset')[metric].first().mean() for metric in required_metrics}`. */
  function AggregateOf(rows: seq<Row>, m: string): (a: Aggregate)
    ensures a.model == m && |a.means| == |RequiredMetrics|
    ensures forall j :: 0 <= j < |RequiredMetrics| ==> a.means[j] == GroupMean(rows, m, RequiredMetrics[j])
  {
    Aggregate(m, seq(|RequiredMetrics|, j requires 0 <= j < |RequiredMetrics| => GroupMean(rows, m, RequiredMetrics[j])))
  }

  /** `rows`: one aggregate per valid model, in `valid_models` order. */
  function Aggregates(rows: seq<Row>, valid: seq<string>): (r: seq<Aggregate>)
    ensures |r| == |valid|
  {
    seq(|valid|, k requires 0 <= k < |valid| => AggregateOf(rows, valid[k]))
  }

  /** No average is missing: the only input sklearn's PCA accepts. */
  predicate Complete(aggs: seq<Aggregate>) {
    forall k, j :: 0 <= k < |aggs| && 0 <= j < |aggs[k].means| ==> aggs[k].means[j].Some?
  }

  function Values(means: seq<Option<real>>): (r: seq<real>)
    requires forall j :: 0 <= j < |means| ==> means[j].Some?
    ensures |r| == |means| && forall j :: 0 <= j < |means| ==> Some(r[j]) == means[j]
  {
    seq(|means|, j requires 0 <= j < |means| => means[j].value)
  }

  /** `agg_df[required_metrics]` as a matrix. */
  function Matrix(aggs: seq<Aggregate>): (x: seq<seq<real>>)
    requires Complete(aggs)
    ensures |x| == |aggs|
  {
    seq(|aggs|, k requires 0 <= k < |aggs| => Values(aggs[k].means))
  }

  /** `agg_df['PC1_score'] = pca.fit_transform(...)`: each row gets its score. */
  function Scores(aggs: seq<Aggregate>, pc1: Projection): (r: seq<Scored>)
    requires Complete(aggs)
    ensures |r| == |aggs|
  {
    var x := Matrix(aggs);
    seq(|aggs|, k requires 0 <= k < |aggs| => Scored(aggs[k].model, pc1(x, k), x[k]))
  }

  /** `sort_values('PC1_score', ascending=False)`: x goes before y when its score is greater. */
  predicate HigherScore(x: Scored, y: Scored) {
    x.score > y.score
  }

  lemma HigherScoreIsWeak()
    ensures StrictWeakOrder(HigherScore)
  {
  }

  /**
   * The table YoloPCA.py prints and saves, or why it stops: a required column
   * is missing (KeyError), the table has no datasets (TypeError), no model is
   * in every dataset (an empty frame has no `Model` column to index by), or an
   * average is missing (PCA rejects NaN input).
   */
  function Pc1Ranking(t: Table, pc1: Projection): Result<seq<Scored>> {
    var missing := MissingRequired(t.columns);
    if missing.Some? then Err(MissingColumn(missing.value))
    else match ValidModels(t.rows)
      case Err(f) => Err(f)
      case Ok(valid) =>
        if valid == [] then Err(EmptyAggregate)
        else
          var aggs := Aggregates(t.rows, valid);
          if !Complete(aggs) then Err(MissingValue)
          else Ok(InsertionSort(Scores(aggs, pc1), HigherScore))
  }

  function ScoredModel(s: Scored): string {
    s.model
  }

  /** `os.path.splitext(csv_file_path)[0] + '_PC1_ranking.csv'`: beside the input, as WithSuffixSpec proves. */
  function OutputPath(input: string): string {
    WithSuffix(input, "_PC1_ranking.csv")
  }

  // ---- the loop of YoloPCA.py ----

  /** The loop that appends one dict of averages per valid model to `rows`. */
  method AggregateRows(rows: seq<Row>, valid: seq<string>) returns (aggs: seq<Aggregate>)
    ensures aggs == Aggregates(rows, valid)
  {
    aggs := [];
    for i := 0 to |valid|
      invariant |aggs| == i
      invariant forall q :: 0 <= q < i ==> aggs[q] == AggregateOf(rows, valid[q])
    {
      var means: seq<Option<real>> := [];
      for j := 0 to |RequiredMetrics|
        invariant |means| == j
        invariant forall q :: 0 <= q < j ==> means[q] == GroupMean(rows, valid[i], RequiredMetrics[q])
      {
        means := means + [GroupMean(rows, valid[i], RequiredMetrics[j])];
      }
      assert means == AggregateOf(rows, valid[i]).means;
      aggs := aggs + [Aggregate(valid[i], means)];
    }
  }

  /** Whether every average is present, checked row by row. */
  method CheckComplete(aggs: seq<Aggregate>) returns (ok: bool)
    ensures ok == Complete(aggs)
  {
    for k := 0 to |aggs|
      invariant forall p, q :: 0 <= p < k && 0 <= q < |aggs[p].means| ==> aggs[p].means[q].Some?
    {
      for j := 0 to |aggs[k].means|
        invariant forall q :: 0 <= q < j ==> aggs[k].means[q].Some?
      {
        if aggs[k].means[j].None? {
          return false;
        }
      }
    }
    return true;
  }

  /** YoloPCA.py from the loaded table to the sorted, scored table. */
  method RankByPc1(t: Table, pc1: Projection) returns (r: Result<seq<Scored>>)
    ensures r == Pc1Ranking(t, pc1)
  {
    var missing := MissingRequired(t.columns);
    if missing.Some? {
      return Err(MissingColumn(missing.value));
    }
    var vm := ValidModels(t.rows);
    if vm.Err? {
      return Err(vm.failure);
    }
    var valid := vm.value;
    if |valid| == 0 {
      return Err(EmptyAggregate);
    }
    var aggs := AggregateRows(t.rows, valid);
    var ok := CheckComplete(aggs);
    if !ok {
      return Err(MissingValue);
    }
    var scored := Scores(aggs, pc1);
    var a := new Scored[|scored|](k requires 0 <= k < |scored| => scored[k]);
    assert a[..] == scored;
    SortInPlace(a, HigherScore);
    return Ok(a[..]);
  }

  // ---- what the ranking promises ----

  /** Some model in every dataset has no number at all in one of the required columns. */
  ghost predicate SomeAverageMissing(rows: seq<Row>) {
    exists m, j :: InEveryDataset(rows, m) && 0 <= j < |RequiredMetrics| &&
      forall i :: 0 <= i < |rows| && rows[i].model == m ==> ValueAt(rows[i], RequiredMetrics[j]).None?
  }

  /**
   * The run stops exactly when a required column is missing, when the table
   * is empty, when no model is in every dataset (there is no separate check
   * for that, unlike YoloBets.py, so it surfaces as the empty-frame failure),
   * or when some common model has no number at all for a required metric.
   */
  lemma Pc1RankingErrors(t: Table, pc1: Projection)
    ensures Pc1Ranking(t, pc1).Err? && Pc1Ranking(t, pc1).failure.MissingColumn?
      <==> exists c :: c in RequiredMetrics && c !in t.columns
    ensures MissingRequired(t.columns).None? ==>
      (Pc1Ranking(t, pc1) == Err(NoDatasets) <==> t.rows == [])
    ensures MissingRequired(t.columns).None? && t.rows != [] ==>
      (Pc1Ranking(t, pc1) == Err(EmptyAggregate) <==> forall m :: !InEveryDataset(t.rows, m))
    ensures MissingRequired(t.columns).None? && t.rows != [] && (exists m :: InEveryDataset(t.rows, m)) ==>
      (Pc1Ranking(t, pc1) == Err(MissingValue) <==> SomeAverageMissing(t.rows))
  {
    ValidModelsSpec(t.rows);
    if MissingRequired(t.columns).None? && t.rows != [] {
      var valid := ValidModels(t.rows).value;
      if valid != [] {
        assert InEveryDataset(t.rows, valid[0]);
        AggregatesComplete(t.rows, valid);
      }
    }
  }

  /** The aggregates are complete exactly when no valid model lacks every number for some metric. */
  lemma AggregatesComplete(rows: seq<Row>, valid: seq<string>)
    requires rows != [] && ValidModels(rows) == Ok(valid)
    ensures Complete(Aggregates(rows, valid)) <==> !SomeAverageMissing(rows)
  {
    if !Complete(Aggregates(rows, valid)) {
      IncompleteHasMissing(rows, valid);
    }
    if SomeAverageMissing(rows) {
      MissingMakesIncomplete(rows, valid);
    }
  }

  lemma IncompleteHasMissing(rows: seq<Row>, valid: seq<string>)
    requires rows != [] && ValidModels(rows) == Ok(valid)
    requires !Complete(Aggregates(rows, valid))
    ensures SomeAverageMissing(rows)
  {
    ValidModelsSpec(rows);
    var aggs := Aggregates(rows, valid);
    var k, j :| 0 <= k < |aggs| && 0 <= j < |aggs[k].means| && aggs[k].means[j].None?;
    GroupMeanMissing(rows, valid[k], RequiredMetrics[j]);
    assert InEveryDataset(rows, valid[k]);
  }

  lemma MissingMakesIncomplete(rows: seq<Row>, valid: seq<string>)
    requires rows != [] && ValidModels(rows) == Ok(valid)
    requires SomeAverageMissing(rows)
    ensures !Complete(Aggregates(rows, valid))
  {
    ValidModelsSpec(rows);
    var aggs := Aggregates(rows, valid);
    var m, j :| InEveryDataset(rows, m) && 0 <= j < |RequiredMetrics| &&
      forall i :: 0 <= i < |rows| && rows[i].model == m ==> ValueAt(rows[i], RequiredMetrics[j]).None?;
    var k :| 0 <= k < |valid| && valid[k] == m;
    GroupMeanMissing(rows, m, RequiredMetrics[j]);
    assert aggs[k].means[j].None?;
  }

  /**
   * The output has one row per model found in every dataset, each model
   * once, and the rows are those of the scored table, reordered.
   */
  lemma Pc1RankingIsPermutation(t: Table, pc1: Projection)
    requires Pc1Ranking(t, pc1).Ok?
    ensures var valid := ValidModels(t.rows).value;
      multiset(Pc1Ranking(t, pc1).value) == multiset(Scores(Aggregates(t.rows, valid), pc1))
    ensures multiset(Project(Pc1Ranking(t, pc1).value, ScoredModel)) == multiset(ValidModels(t.rows).value)
    ensures forall m :: m in Project(Pc1Ranking(t, pc1).value, ScoredModel) <==> InEveryDataset(t.rows, m)
  {
    var valid := ValidModels(t.rows).value;
    var scored := Scores(Aggregates(t.rows, valid), pc1);
    var r := Pc1Ranking(t, pc1).value;
    SortPermutes(scored, HigherScore);
    ProjectSort(scored, HigherScore, ScoredModel);
    assert Project(scored, ScoredModel) == valid;
    ValidModelsSpec(t.rows);
    forall m ensures m in Project(r, ScoredModel) <==> m in valid {
      assert m in Project(r, ScoredModel) <==> m in multiset(Project(r, ScoredModel));
    }
  }

  /** The rows come out by non-increasing PC1 score. */
  lemma Pc1RankingIsSorted(t: Table, pc1: Projection)
    requires Pc1Ranking(t, pc1).Ok?
    ensures var r := Pc1Ranking(t, pc1).value;
      forall i, j :: 0 <= i < j < |r| ==> r[i].score >= r[j].score
  {
    var valid := ValidModels(t.rows).value;
    HigherScoreIsWeak();
    SortSorts(Scores(Aggregates(t.rows, valid), pc1), HigherScore);
  }

  /** Row k of the scored table is valid model k with its averages and the PC1 score of row k of the matrix. */
  lemma ScoresSpec(rows: seq<Row>, valid: seq<string>, pc1: Projection, k: nat)
    requires Complete(Aggregates(rows, valid)) && k < |valid|
    ensures var aggs := Aggregates(rows, valid);
      var e := Scores(aggs, pc1)[k];
      && e.model == valid[k]
      && |e.metrics| == |RequiredMetrics|
      && (forall j :: 0 <= j < |RequiredMetrics| ==> Some(e.metrics[j]) == GroupMean(rows, valid[k], RequiredMetrics[j]))
      && e.score == pc1(Matrix(aggs), k)
  {
  }

  /** Every output row is a row of the scored table. */
  lemma RankedRowOrigin(t: Table, pc1: Projection, e: Scored)
    requires Pc1Ranking(t, pc1).Ok? && e in Pc1Ranking(t, pc1).value
    ensures var valid := ValidModels(t.rows).value;
      exists k :: 0 <= k < |valid| && Scores(Aggregates(t.rows, valid), pc1)[k] == e
  {
    var valid := ValidModels(t.rows).value;
    SortPermutes(Scores(Aggregates(t.rows, valid), pc1), HigherScore);
    assert e in multiset(Scores(Aggregates(t.rows, valid), pc1));
  }

  /**
   * Every output row carries its model's averages: the mean over datasets of
   * the first number per dataset, for each required metric in order, and the
   * PC1 score of that model's row of the matrix.
   */
  lemma Pc1RankingRows(t: Table, pc1: Projection, e: Scored)
    requires Pc1Ranking(t, pc1).Ok? && e in Pc1Ranking(t, pc1).value
    ensures var valid := ValidModels(t.rows).value;
      && |e.metrics| == |RequiredMetrics|
      && (forall j :: 0 <= j < |RequiredMetrics| ==> Some(e.metrics[j]) == GroupMean(t.rows, e.model, RequiredMetrics[j]))
      && exists k :: 0 <= k < |valid| && valid[k] == e.model && e.score == pc1(Matrix(Aggregates(t.rows, valid)), k)
  {
    var valid := ValidModels(t.rows).value;
    RankedRowOrigin(t, pc1, e);
    var k :| 0 <= k < |valid| && Scores(Aggregates(t.rows, valid), pc1)[k] == e;
    ScoresSpec(t.rows, valid, pc1, k);
  }

  /** Averages of metrics that lie in [0, 1] lie in [0, 1]. */
  lemma Pc1RankingMetricBounds(t: Table, pc1: Projection, e: Scored)
    requires Pc1Ranking(t, pc1).Ok? && e in Pc1Ranking(t, pc1).value
    requires forall i, j :: 0 <= i < |t.rows| && 0 <= j < |RequiredMetrics| && ValueAt(t.rows[i], RequiredMetrics[j]).Some? ==>
      0.0 <= ValueAt(t.rows[i], RequiredMetrics[j]).value <= 1.0
    ensures forall j :: 0 <= j < |e.metrics| ==> 0.0 <= e.metrics[j] <= 1.0
  {
    var valid := ValidModels(t.rows).value;
    RankedRowOrigin(t, pc1, e);
    var k :| 0 <= k < |valid| && Scores(Aggregates(t.rows, valid), pc1)[k] == e;
    ScoresSpec(t.rows, valid, pc1, k);
    forall j | 0 <= j < |e.metrics| ensures 0.0 <= e.metrics[j] <= 1.0 {
      GroupMeanBounds(t.rows, valid[k], RequiredMetrics[j], 0.0, 1.0);
    }
  }
}
