/**
 * YoloEmb.py: pivot the evaluations into one row per model with one feature
 * per (metric, dataset) pair, keep the models that have every feature, embed
 * their rows and an all-ones "ideal" row with the same fitted scaler and
 * two-component PCA, and sort the models by their distance to the ideal.
 *
 * The fitted transform is a parameter: `embed(X, v)` is the (PC1, PC2) point
 * that StandardScaler and PCA, both fitted on the matrix X, give the vector v.
 */
module IdealDistance {
  import opened Basics
  import opened Ordering
  import opened Sorting
  import opened MetricsTable
  import opened Paths

  /** One pivot column: a metric measured on a dataset. */
  datatype Feature = Feature(metric: string, dataset: string)

  /** Scaler and PCA fitted on a matrix, applied to one vector. */
  type Embedding = (seq<seq<real>>, seq<real>) -> (real, real)

  /**
   * One output row: the model, its embedding and its distance to the ideal's
   * embedding (the squared Euclidean norm; see SquaredDistance).
   */
  datatype Placed = Placed(model: string, pc1: real, pc2: real, distance: real)

  // ---- the pivot ----

  /** The column label `f"{metric}_{ds}"`. */
  function FeatureName(f: Feature): string {
    f.metric + "_" + f.dataset
  }

  /** The labels of a pivot axis: each value once, ascending. */
  function SortedLabels(s: seq<string>): seq<string> {
    InsertionSort(Unique(s), StrLessFirst)
  }

  /** The features of one metric, one per dataset, in order. */
  function MetricFeatures(metric: string, datasets: seq<string>): (r: seq<Feature>)
    ensures |r| == |datasets| && forall j :: 0 <= j < |datasets| ==> r[j] == Feature(metric, datasets[j])
  {
    seq(|datasets|, j requires 0 <= j < |datasets| => Feature(metric, datasets[j]))
  }

  /** The pivot's columns: metric-major, with the datasets in order under each metric. */
  function Features(metrics: seq<string>, datasets: seq<string>): seq<Feature> {
    if metrics == [] then []
    else Features(metrics[..|metrics| - 1], datasets) + MetricFeatures(metrics[|metrics| - 1], datasets)
  }

  /** `pivot` refuses a (Model, Dataset) pair that occurs in two rows ("Index contains duplicate entries"). */
  predicate Duplicated(rows: seq<Row>) {
    exists i, j :: 0 <= i < j < |rows| && Evaluates(rows[j], rows[i].model, rows[i].dataset)
  }

  /** The first row for model `m` on dataset `d`; without duplicate pairs, the only one. */
  function RowFor(rows: seq<Row>, m: string, d: string): (r: Option<Row>)
    ensures r.Some? ==> r.value in rows && Evaluates(r.value, m, d)
    ensures r.None? ==> forall y :: y in rows ==> !Evaluates(y, m, d)
  {
    if rows == [] then None
    else if Evaluates(rows[0], m, d) then Some(rows[0])
    else RowFor(rows[1..], m, d)
  }

  /** The pivot cell of model `m` under feature `f`: missing when no row holds it or its cell is not a number. */
  function PivotCell(rows: seq<Row>, m: string, f: Feature): Option<real> {
    match RowFor(rows, m, f.dataset)
    case None => None
    case Some(y) => ValueAt(y, f.metric)
  }

  /** The pivot row of `m` has no missing cell: `dropna` keeps it. */
  predicate HasAllFeatures(rows: seq<Row>, m: string, feats: seq<Feature>) {
    forall i :: 0 <= i < |feats| ==> PivotCell(rows, m, feats[i]).Some?
  }

  /** `pivot.dropna()`: the models whose pivot row is complete, in index order. */
  function Retained(rows: seq<Row>, models: seq<string>, feats: seq<Feature>): (r: seq<string>)
    ensures forall m :: m in r <==> m in models && HasAllFeatures(rows, m, feats)
    ensures StrictlyAscending(models) ==> StrictlyAscending(r)
  {
    if models == [] then []
    else
      var init, last := models[..|models| - 1], models[|models| - 1];
      var kept := Retained(rows, init, feats);
      assert StrictlyAscending(models) ==> StrictlyAscending(init) && forall x :: x in kept ==> StrLess(x, last);
      kept + (if HasAllFeatures(rows, last, feats) then [last] else [])
  }

  /** The values of a complete pivot row. */
  function FeatureRow(rows: seq<Row>, m: string, feats: seq<Feature>): (v: seq<real>)
    requires HasAllFeatures(rows, m, feats)
    ensures |v| == |feats| && forall i :: 0 <= i < |feats| ==> Some(v[i]) == PivotCell(rows, m, feats[i])
  {
    seq(|feats|, i requires 0 <= i < |feats| => PivotCell(rows, m, feats[i]).value)
  }

  /** `X = pivot.values`: one row per retained model. */
  function FeatureMatrix(rows: seq<Row>, kept: seq<string>, feats: seq<Feature>): (x: seq<seq<real>>)
    requires forall k :: 0 <= k < |kept| ==> HasAllFeatures(rows, kept[k], feats)
    ensures |x| == |kept| && forall k :: 0 <= k < |kept| ==> x[k] == FeatureRow(rows, kept[k], feats)
  {
    seq(|kept|, k requires 0 <= k < |kept| => FeatureRow(rows, kept[k], feats))
  }

  // ---- the ideal and the distances ----

  /** `np.ones_like(row)` for a row of length n. */
  function Ones(n: nat): (v: seq<real>)
    ensures |v| == n && forall i :: 0 <= i < n ==> v[i] == 1.0
  {
    seq(n, i => 1.0)
  }

  /** `ideal_raw`: the all-ones vector as long as the first row of X. */
  function Ideal(x: seq<seq<real>>): seq<real>
    requires x != []
  {
    Ones(|x[0]|)
  }

  lemma SquareNonNegative(d: real)
    ensures d * d >= 0.0
  {
    if d < 0.0 {
      assert d * d == (-d) * (-d);
    }
  }

  /** The squared Euclidean norm of the vector (d0, d1). */
  function SquaredNorm(d0: real, d1: real): (r: real)
    ensures r >= 0.0
    ensures d0 == 0.0 && d1 == 0.0 ==> r == 0.0
  {
    SquareNonNegative(d0);
    SquareNonNegative(d1);
    d0 * d0 + d1 * d1
  }

  /**
   * The square of `np.linalg.norm(p - q)`: the model compares squared
   * distances, which order points the same way as the distances themselves.
   * It is never negative, and it is zero at the ideal itself.
   */
  function SquaredDistance(p: (real, real), q: (real, real)): (r: real)
    ensures r >= 0.0
    ensures p == q ==> r == 0.0
  {
    SquaredNorm(p.0 - q.0, p.1 - q.1)
  }

  function Place(m: string, p: (real, real), ideal: (real, real)): Placed {
    Placed(m, p.0, p.1, SquaredDistance(p, ideal))
  }

  /** The `out` frame before sorting: each retained model with its embedding and its distance to the ideal's. */
  function Placements(x: seq<seq<real>>, kept: seq<string>, embed: Embedding): (r: seq<Placed>)
    requires x != [] && |x| == |kept|
    ensures |r| == |kept|
    ensures forall k :: 0 <= k < |kept| ==> r[k] == Place(kept[k], embed(x, x[k]), embed(x, Ideal(x)))
  {
    var ideal := embed(x, Ideal(x));
    seq(|kept|, k requires 0 <= k < |kept| => Place(kept[k], embed(x, x[k]), ideal))
  }

  /** `sort_values('Distance_to_Ideal')`: x goes before y when it is nearer the ideal. */
  predicate Nearer(x: Placed, y: Placed) {
    x.distance < y.distance
  }

  function PlacedModel(e: Placed): string {
    e.model
  }

  /** The sorted pivot labels and the features built from the table. */
  function TableFeatures(rows: seq<Row>): seq<Feature> {
    Features(RequiredMetrics, SortedLabels(DatasetColumn(rows)))
  }

  function Kept(rows: seq<Row>): seq<string> {
    Retained(rows, SortedLabels(ModelColumn(rows)), TableFeatures(rows))
  }

  /** `X`: the pivot rows of the kept models. */
  function KeptMatrix(rows: seq<Row>): seq<seq<real>> {
    FeatureMatrix(rows, Kept(rows), TableFeatures(rows))
  }

  /**
   * The table YoloEmb.py prints and saves, or why it stops: a required column
   * is missing (KeyError), a (Model, Dataset) pair occurs twice (pivot's
   * ValueError), or fewer than two models survive `dropna` (a two-component
   * PCA needs at least two samples).
   */
  function IdealRanking(t: Table, embed: Embedding): Result<seq<Placed>> {
    var missing := MissingRequired(t.columns);
    if missing.Some? then Err(MissingColumn(missing.value))
    else if Duplicated(t.rows) then Err(DuplicateEntry)
    else
      var kept := Kept(t.rows);
      if |kept| < 2 then Err(InsufficientData)
      else
        Ok(InsertionSort(Placements(KeptMatrix(t.rows), kept, embed), Nearer))
  }

  /** `os.path.splitext(csv_file_path)[0] + '_PCA_distances.csv'`: beside the input, as WithSuffixSpec proves. */
  function OutputPath(input: string): string {
    WithSuffix(input, "_PCA_distances.csv")
  }

  // ---- what the ranking promises ----

  /** There are |metrics| * |datasets| features. */
  lemma {:induction false} FeaturesLength(metrics: seq<string>, datasets: seq<string>)
    ensures |Features(metrics, datasets)| == |metrics| * |datasets|
  {
    if metrics != [] {
      FeaturesLength(metrics[..|metrics| - 1], datasets);
      assert |metrics| * |datasets| == (|metrics| - 1) * |datasets| + |datasets|;
    }
  }

  /** A feature is a column exactly when its metric and its dataset are labels. */
  lemma {:induction false} FeaturesMembers(metrics: seq<string>, datasets: seq<string>, f: Feature)
    ensures f in Features(metrics, datasets) <==> f.metric in metrics && f.dataset in datasets
  {
    if metrics != [] {
      var init, last := metrics[..|metrics| - 1], metrics[|metrics| - 1];
      FeaturesMembers(init, datasets, f);
      assert f.metric in metrics <==> f.metric in init || f.metric == last;
      if f.metric == last && f.dataset in datasets {
        var b :| 0 <= b < |datasets| && datasets[b] == f.dataset;
        assert MetricFeatures(last, datasets)[b] == f;
      }
    }
  }

  /** Metric-major order: metric a on dataset b is column `a * |datasets| + b`. */
  lemma {:induction false} FeaturesOrder(metrics: seq<string>, datasets: seq<string>, a: nat, b: nat)
    requires a < |metrics| && b < |datasets|
    ensures a * |datasets| + b < |Features(metrics, datasets)|
    ensures Features(metrics, datasets)[a * |datasets| + b] == Feature(metrics[a], datasets[b])
  {
    var init, last := metrics[..|metrics| - 1], metrics[|metrics| - 1];
    var n := |datasets|;
    FeaturesLength(metrics, datasets);
    FeaturesLength(init, datasets);
    assert |metrics| * n == |init| * n + n;
    if a < |init| {
      FeaturesOrder(init, datasets, a, b);
      assert a * n + b < |init| * n;
    } else {
      assert a * n == |init| * n;
    }
  }

  predicate StartsWith(s: string, prefix: string) {
    |prefix| <= |s| && s[..|prefix|] == prefix
  }

  /** Reads a column label back into the feature it names, for labels of the required metrics. */
  function ParseFeatureName(name: string): Feature {
    var metric :=
      if StartsWith(name, MapStrict + "_") then MapStrict
      else if StartsWith(name, Map50 + "_") then Map50
      else if StartsWith(name, Precision + "_") then Precision
      else Recall;
    Feature(metric, if |metric| < |name| then name[|metric| + 1..] else "")
  }

  /** A label of a required metric can be read back into its feature. */
  lemma ParseFeatureNameInverse(f: Feature)
    requires f.metric in RequiredMetrics
    ensures ParseFeatureName(FeatureName(f)) == f
  {
    var name := FeatureName(f);
    assert StartsWith(name, f.metric + "_") by {
      assert name[..|f.metric| + 1] == f.metric + "_";
    }
    assert name[|f.metric| + 1..] == f.dataset;
    if f.metric == Map50 {
      assert !StartsWith(name, MapStrict + "_") by {
        assert name[7] == '_' && (MapStrict + "_")[7] == ':';
      }
    } else if f.metric == Precision || f.metric == Recall {
      assert !StartsWith(name, MapStrict + "_") && !StartsWith(name, Map50 + "_") by {
        assert name[0] != 'm';
      }
      if f.metric == Recall {
        assert !StartsWith(name, Precision + "_") by {
          assert name[0] == 'R';
        }
      }
    }
  }

  /** The column labels tell the features apart: no two features of the required metrics get the same name. */
  lemma FeatureNamesDistinct(f: Feature, g: Feature)
    requires f.metric in RequiredMetrics && g.metric in RequiredMetrics
    requires FeatureName(f) == FeatureName(g)
    ensures f == g
  {
    ParseFeatureNameInverse(f);
    ParseFeatureNameInverse(g);
  }

  /** The pivot's labels are the distinct values, each once, in ascending order. */
  lemma SortedLabelsSpec(s: seq<string>)
    ensures StrictlyAscending(SortedLabels(s))
    ensures forall x :: x in SortedLabels(s) <==> x in s
  {
    var u := Unique(s);
    var v := SortedLabels(s);
    SortPermutes(u, StrLessFirst);
    StrLessIsWeak();
    SortSorts(u, StrLessFirst);
    DistinctPermutation(u, v);
    StrLessIsStrictTotalOrder();
    forall i, j | 0 <= i < j < |v| ensures StrLess(v[i], v[j]) {
      assert !StrLessFirst(v[j], v[i]);
    }
    forall x ensures x in v <==> x in s {
      assert x in v <==> x in multiset(u);
    }
  }

  /** Without duplicate pairs, the row a pivot cell comes from is the one row of its pair. */
  lemma RowForUnique(rows: seq<Row>, y: Row)
    requires !Duplicated(rows) && y in rows
    ensures RowFor(rows, y.model, y.dataset) == Some(y)
  {
    var r := RowFor(rows, y.model, y.dataset).value;
    var i :| 0 <= i < |rows| && rows[i] == r;
    var j :| 0 <= j < |rows| && rows[j] == y;
    assert Evaluates(rows[j], rows[i].model, rows[i].dataset);
    assert Evaluates(rows[i], rows[j].model, rows[j].dataset);
  }

  /** The distance from p to q is the distance from q to p. */
  lemma SquaredDistanceSymmetric(p: (real, real), q: (real, real))
    ensures SquaredDistance(p, q) == SquaredDistance(q, p)
  {
    assert SquaredNorm(p.0 - q.0, p.1 - q.1) == SquaredNorm(-(p.0 - q.0), -(p.1 - q.1));
  }

  /** Some row of model `m` on dataset `d` holds a number in column `c`. */
  ghost predicate HoldsNumber(rows: seq<Row>, m: string, d: string, c: string) {
    exists y :: y in rows && Evaluates(y, m, d) && ValueAt(y, c).Some?
  }

  /** Some row is on dataset `d`. */
  ghost predicate HasDataset(rows: seq<Row>, d: string) {
    exists i :: 0 <= i < |rows| && rows[i].dataset == d
  }

  /**
   * Model `m` has a row, and for every dataset of the table and every
   * required metric some row of `m` on that dataset holds a number.
   */
  ghost predicate CompleteModel(rows: seq<Row>, m: string) {
    && (exists y :: y in rows && y.model == m)
    && forall i, j :: 0 <= i < |rows| && 0 <= j < |RequiredMetrics| ==>
      HoldsNumber(rows, m, rows[i].dataset, RequiredMetrics[j])
  }

  /** Without duplicate pairs, a pivot cell is present exactly when the row of its pair holds a number there. */
  lemma PivotCellPresent(rows: seq<Row>, m: string, f: Feature)
    requires !Duplicated(rows)
    ensures PivotCell(rows, m, f).Some? <==> HoldsNumber(rows, m, f.dataset, f.metric)
  {
    if HoldsNumber(rows, m, f.dataset, f.metric) {
      var y :| y in rows && Evaluates(y, m, f.dataset) && ValueAt(y, f.metric).Some?;
      RowForUnique(rows, y);
    }
  }

  /** The table's features: a required metric on a dataset that occurs in some row. */
  lemma TableFeaturesMembers(rows: seq<Row>, f: Feature)
    ensures f in TableFeatures(rows) <==> f.metric in RequiredMetrics && HasDataset(rows, f.dataset)
  {
    FeaturesMembers(RequiredMetrics, SortedLabels(DatasetColumn(rows)), f);
    SortedLabelsSpec(DatasetColumn(rows));
    if f.dataset in DatasetColumn(rows) {
      var i :| 0 <= i < |rows| && DatasetColumn(rows)[i] == f.dataset;
    }
    if HasDataset(rows, f.dataset) {
      var i :| 0 <= i < |rows| && rows[i].dataset == f.dataset;
      assert DatasetColumn(rows)[i] == f.dataset;
    }
  }

  lemma CompleteHasAllFeatures(rows: seq<Row>, m: string)
    requires !Duplicated(rows) && CompleteModel(rows, m)
    ensures HasAllFeatures(rows, m, TableFeatures(rows))
  {
    var feats := TableFeatures(rows);
    forall q | 0 <= q < |feats| ensures PivotCell(rows, m, feats[q]).Some? {
      var f := feats[q];
      TableFeaturesMembers(rows, f);
      var i :| 0 <= i < |rows| && rows[i].dataset == f.dataset;
      var j :| 0 <= j < |RequiredMetrics| && RequiredMetrics[j] == f.metric;
      assert HoldsNumber(rows, m, rows[i].dataset, RequiredMetrics[j]);
      PivotCellPresent(rows, m, f);
    }
  }

  lemma HasAllFeaturesComplete(rows: seq<Row>, m: string)
    requires !Duplicated(rows) && rows != [] && HasAllFeatures(rows, m, TableFeatures(rows))
    ensures CompleteModel(rows, m)
  {
    var feats := TableFeatures(rows);
    forall i, j | 0 <= i < |rows| && 0 <= j < |RequiredMetrics|
      ensures HoldsNumber(rows, m, rows[i].dataset, RequiredMetrics[j])
    {
      var f := Feature(RequiredMetrics[j], rows[i].dataset);
      TableFeaturesMembers(rows, f);
      var q :| 0 <= q < |feats| && feats[q] == f;
      PivotCellPresent(rows, m, f);
    }
    assert HoldsNumber(rows, m, rows[0].dataset, RequiredMetrics[0]);
  }

  /**
   * `dropna` keeps exactly the complete models, each once and in ascending
   * order: a model absent from some dataset, or with a missing or
   * non-numeric required metric there, is dropped.
   */
  lemma KeptSpec(rows: seq<Row>, m: string)
    requires !Duplicated(rows)
    ensures StrictlyAscending(Kept(rows))
    ensures m in Kept(rows) <==> CompleteModel(rows, m)
  {
    SortedLabelsSpec(ModelColumn(rows));
    if m in ModelColumn(rows) {
      var i :| 0 <= i < |rows| && ModelColumn(rows)[i] == m;
      assert rows[i] in rows;
    }
    if m in Kept(rows) {
      HasAllFeaturesComplete(rows, m);
    }
    if CompleteModel(rows, m) {
      var y :| y in rows && y.model == m;
      var i :| 0 <= i < |rows| && rows[i] == y;
      assert ModelColumn(rows)[i] == m;
      CompleteHasAllFeatures(rows, m);
    }
  }

  /**
   * The run stops exactly when a required column is missing, when a
   * (Model, Dataset) pair occurs twice, or when fewer than two models are
   * complete.
   */
  lemma IdealRankingErrors(t: Table, embed: Embedding)
    ensures IdealRanking(t, embed).Err? && IdealRanking(t, embed).failure.MissingColumn?
      <==> exists c :: c in RequiredMetrics && c !in t.columns
    ensures MissingRequired(t.columns).None? ==>
      (IdealRanking(t, embed) == Err(DuplicateEntry) <==>
        exists i, j :: 0 <= i < j < |t.rows| && t.rows[i].model == t.rows[j].model && t.rows[i].dataset == t.rows[j].dataset)
    ensures MissingRequired(t.columns).None? && !Duplicated(t.rows) ==>
      (IdealRanking(t, embed) == Err(InsufficientData) <==>
        !exists m1, m2 :: m1 != m2 && CompleteModel(t.rows, m1) && CompleteModel(t.rows, m2))
  {
    if MissingRequired(t.columns).None? && !Duplicated(t.rows) {
      TwoKept(t.rows);
    }
  }

  /** At least two models are kept exactly when two different models are complete. */
  lemma TwoKept(rows: seq<Row>)
    requires !Duplicated(rows)
    ensures |Kept(rows)| >= 2 <==> exists m1, m2 :: m1 != m2 && CompleteModel(rows, m1) && CompleteModel(rows, m2)
  {
    var kept := Kept(rows);
    KeptSpec(rows, "");
    if |kept| >= 2 {
      StrLessIsStrictTotalOrder();
      assert StrLess(kept[0], kept[1]);
      KeptSpec(rows, kept[0]);
      KeptSpec(rows, kept[1]);
    }
    if m1, m2 :| m1 != m2 && CompleteModel(rows, m1) && CompleteModel(rows, m2) {
      KeptSpec(rows, m1);
      KeptSpec(rows, m2);
      assert m1 in kept && m2 in kept;
    }
  }

  /**
   * The output has one row per complete model, each model once, and the
   * rows are those of the unsorted frame, reordered.
   */
  lemma IdealRankingIsPermutation(t: Table, embed: Embedding)
    requires IdealRanking(t, embed).Ok?
    ensures multiset(IdealRanking(t, embed).value) == multiset(Placements(KeptMatrix(t.rows), Kept(t.rows), embed))
    ensures multiset(Project(IdealRanking(t, embed).value, PlacedModel)) == multiset(Kept(t.rows))
    ensures forall m :: m in Project(IdealRanking(t, embed).value, PlacedModel) <==> CompleteModel(t.rows, m)
  {
    var kept := Kept(t.rows);
    var placed := Placements(KeptMatrix(t.rows), kept, embed);
    var r := IdealRanking(t, embed).value;
    SortPermutes(placed, Nearer);
    ProjectSort(placed, Nearer, PlacedModel);
    assert Project(placed, PlacedModel) == kept;
    forall m ensures m in Project(r, PlacedModel) <==> CompleteModel(t.rows, m) {
      KeptSpec(t.rows, m);
      assert m in Project(r, PlacedModel) <==> m in multiset(Project(r, PlacedModel));
    }
  }

  lemma NearerIsWeak()
    ensures StrictWeakOrder(Nearer)
  {
  }

  /** The rows come out by non-decreasing distance, so the first row is nearest the ideal. */
  lemma IdealRankingIsSorted(t: Table, embed: Embedding)
    requires IdealRanking(t, embed).Ok?
    ensures var r := IdealRanking(t, embed).value;
      && |r| >= 2
      && (forall i, j :: 0 <= i < j < |r| ==> r[i].distance <= r[j].distance)
      && forall j :: 0 <= j < |r| ==> r[0].distance <= r[j].distance
  {
    var placed := Placements(KeptMatrix(t.rows), Kept(t.rows), embed);
    var r := IdealRanking(t, embed).value;
    assert r == InsertionSort(placed, Nearer);
    NearerIsWeak();
    SortSorts(placed, Nearer);
    SortLength(placed, Nearer);
    forall i, j | 0 <= i < j < |r| ensures r[i].distance <= r[j].distance {
      assert !Nearer(r[j], r[i]);
    }
  }

  /**
   * Every output row is a complete model placed by the fitted transform: its
   * point is the embedding of its own pivot row, and its distance is the
   * squared distance to the embedding, under the same fit, of the all-ones
   * vector with one entry per feature.
   */
  lemma IdealRankingRows(t: Table, embed: Embedding, e: Placed)
    requires IdealRanking(t, embed).Ok? && e in IdealRanking(t, embed).value
    ensures CompleteModel(t.rows, e.model)
    ensures e.distance >= 0.0
    ensures var kept, x := Kept(t.rows), KeptMatrix(t.rows);
      exists k :: 0 <= k < |kept| && kept[k] == e.model &&
        (e.pc1, e.pc2) == embed(x, x[k]) &&
        e.distance == SquaredDistance((e.pc1, e.pc2), embed(x, Ones(|TableFeatures(t.rows)|)))
  {
    var kept, x := Kept(t.rows), KeptMatrix(t.rows);
    var placed := Placements(x, kept, embed);
    SortPermutes(placed, Nearer);
    assert e in multiset(placed);
    var k :| 0 <= k < |placed| && placed[k] == e;
    assert Ideal(x) == Ones(|TableFeatures(t.rows)|);
    KeptSpec(t.rows, kept[k]);
  }

  /** Row k of the matrix holds, feature by feature, the pivot cells of the k-th kept model. */
  lemma KeptMatrixRow(rows: seq<Row>, k: nat, q: nat)
    requires k < |Kept(rows)| && q < |TableFeatures(rows)|
    ensures |KeptMatrix(rows)[k]| == |TableFeatures(rows)|
    ensures Some(KeptMatrix(rows)[k][q]) == PivotCell(rows, Kept(rows)[k], TableFeatures(rows)[q])
  {
  }
}
