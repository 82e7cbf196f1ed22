/**
 * The metrics table the ranking scripts read: one row per (Model, Dataset)
 * evaluation, with its metric cells; and the steps YoloBets.py and YoloPCA.py
 * share: coercing cells to numbers, the models common to every dataset, the
 * first value per (model, dataset), and the mean that skips missing values.
 */
module MetricsTable {
  import opened Basics
  import opened Ordering
  import opened Sorting

  /** A cell as the CSV reader hands it over: a number, other text, or nothing. */
  datatype Cell = Number(value: real) | Text(text: string) | Blank

  /** One evaluation: the Model and Dataset columns and the remaining cells by column name. */
  datatype Row = Row(model: string, dataset: string, cells: map<string, Cell>)

  /** The header (every column name) and the rows, in file order. */
  datatype Table = Table(columns: seq<string>, rows: seq<Row>)

  const MapStrict := "mAP@0.5:0.95"
  const Map50 := "mAP@0.5"
  const Precision := "Precision"
  const Recall := "Recall"

  /** The accuracy metrics every ranking script requires, in their declared order. */
  const RequiredMetrics: seq<string> := [MapStrict, Map50, Precision, Recall]

  /** `pd.to_numeric(errors='coerce')`: a cell that is not a number becomes missing, never an error. */
  function Coerce(c: Cell): (r: Option<real>)
    ensures r.None? <==> !c.Number?
    ensures r.Some? ==> c == Number(r.value)
  {
    match c
    case Number(v) => Some(v)
    case _ => None
  }

  /** The numeric value of column `col` in row `r` (an empty cell reads as missing). */
  function ValueAt(r: Row, col: string): Option<real> {
    if col in r.cells then Coerce(r.cells[col]) else None
  }

  /** The first required metric the header lacks: the one whose `df[col]` raises KeyError. */
  function MissingRequired(columns: seq<string>): (r: Option<string>)
    ensures r.None? <==> forall m :: m in RequiredMetrics ==> m in columns
    ensures r.Some? ==> r.value in RequiredMetrics && r.value !in columns
  {
    if MapStrict !in columns then Some(MapStrict)
    else if Map50 !in columns then Some(Map50)
    else if Precision !in columns then Some(Precision)
    else if Recall !in columns then Some(Recall)
    else None
  }

  // ---- distinct values in order of first appearance ----

  ghost predicate Distinct<T>(s: seq<T>) {
    forall i, j :: 0 <= i < |s| && 0 <= j < |s| && i != j ==> s[i] != s[j]
  }

  /** pandas' `unique()`: each value once, in order of first appearance. */
  function Unique(s: seq<string>): (r: seq<string>)
    ensures forall x :: x in r <==> x in s
    ensures Distinct(r)
  {
    if s == [] then []
    else if s[|s| - 1] in s[..|s| - 1] then Unique(s[..|s| - 1])
    else Unique(s[..|s| - 1]) + [s[|s| - 1]]
  }

  /** The position where `x` first appears in `s`. */
  function FirstIndex(s: seq<string>, x: string): (r: nat)
    requires x in s
    ensures r < |s| && s[r] == x && x !in s[..r]
  {
    if s[0] == x then 0 else FirstIndex(s[1..], x) + 1
  }

  /** Appending to `s` does not move the first appearance of a value already in it. */
  lemma {:induction false} FirstIndexAppend(s: seq<string>, y: string, x: string)
    requires x in s
    ensures FirstIndex(s + [y], x) == FirstIndex(s, x)
  {
    var i, j := FirstIndex(s + [y], x), FirstIndex(s, x);
    assert (s + [y])[j] == x;
    assert (s + [y])[..j] == s[..j];
  }

  /** `unique()` lists the values in the order in which they first appear. */
  lemma {:induction false} UniqueOrder(s: seq<string>)
    ensures forall i, j :: 0 <= i < j < |Unique(s)| ==> FirstIndex(s, Unique(s)[i]) < FirstIndex(s, Unique(s)[j])
    decreases |s|
  {
    if s != [] {
      var init, last := s[..|s| - 1], s[|s| - 1];
      assert s == init + [last];
      UniqueOrder(init);
      var u, r := Unique(init), Unique(s);
      forall x | x in init ensures FirstIndex(s, x) == FirstIndex(init, x) {
        FirstIndexAppend(init, last, x);
      }
      if last !in init {
        assert FirstIndex(s, last) == |s| - 1 by {
          assert s[..FirstIndex(s, last)] == init[..FirstIndex(s, last)];
        }
      }
      forall i, j | 0 <= i < j < |r| ensures FirstIndex(s, r[i]) < FirstIndex(s, r[j]) {
        assert r[i] == u[i] && r[i] in init;
        if j < |u| {
          assert r[j] == u[j] && r[j] in init;
        }
      }
    }
  }

  lemma UniqueAppendSeen(s: seq<string>, x: string)
    requires x in s
    ensures Unique(s + [x]) == Unique(s)
  {
    assert (s + [x])[..|s|] == s;
  }

  /** A sequence is distinct exactly when no value occurs in it twice. */
  lemma {:induction false} DistinctMultiset<T>(s: seq<T>)
    ensures Distinct(s) <==> forall x :: multiset(s)[x] <= 1
  {
    if s != [] {
      var init, last := s[..|s| - 1], s[|s| - 1];
      assert s == init + [last];
      DistinctMultiset(init);
      if Distinct(s) {
        assert Distinct(init) by {
          forall i, j | 0 <= i < |init| && 0 <= j < |init| && i != j ensures init[i] != init[j] {
            assert s[i] != s[j];
          }
        }
        assert last !in init;
      }
      if forall x :: multiset(s)[x] <= 1 {
        assert forall x :: multiset(init)[x] <= multiset(s)[x];
        assert multiset(init)[last] == 0;
        forall i, j | 0 <= i < |s| && 0 <= j < |s| && i != j ensures s[i] != s[j] {
          if i < |init| && j < |init| {
            assert init[i] != init[j];
          } else if i < |init| {
            assert init[i] in multiset(init);
          } else {
            assert init[j] in multiset(init);
          }
        }
      }
    }
  }

  /** Two sequences holding the same values as often: both are distinct or neither is. */
  lemma DistinctPermutation<T>(s: seq<T>, t: seq<T>)
    requires multiset(s) == multiset(t)
    requires Distinct(s)
    ensures Distinct(t)
  {
    DistinctMultiset(s);
    DistinctMultiset(t);
  }

  // ---- the common-model filter ----

  function DatasetColumn(rows: seq<Row>): (r: seq<string>)
    ensures |r| == |rows| && forall i :: 0 <= i < |rows| ==> r[i] == rows[i].dataset
  {
    seq(|rows|, i requires 0 <= i < |rows| => rows[i].dataset)
  }

  function ModelColumn(rows: seq<Row>): (r: seq<string>)
    ensures |r| == |rows| && forall i :: 0 <= i < |rows| ==> r[i] == rows[i].model
  {
    seq(|rows|, i requires 0 <= i < |rows| => rows[i].model)
  }

  /** `df['Dataset'].unique()`. */
  function Datasets(rows: seq<Row>): seq<string> {
    Unique(DatasetColumn(rows))
  }

  /** `set(df[df['Dataset'] == d]['Model'])`. */
  function ModelsIn(rows: seq<Row>, d: string): set<string> {
    set r | r in rows && r.dataset == d :: r.model
  }

  /** `set.intersection(*sets)`, which needs at least one set. */
  function Intersection(sets: seq<set<string>>): set<string>
    requires |sets| > 0
  {
    if |sets| == 1 then sets[0] else Intersection(sets[..|sets| - 1]) * sets[|sets| - 1]
  }

  lemma {:induction false} IntersectionMembers(sets: seq<set<string>>, m: string)
    requires |sets| > 0
    ensures m in Intersection(sets) <==> forall i :: 0 <= i < |sets| ==> m in sets[i]
  {
    if |sets| > 1 {
      IntersectionMembers(sets[..|sets| - 1], m);
    }
  }

  /** `models_per_dataset`: one model set per distinct dataset, in order of first appearance. */
  function ModelSets(rows: seq<Row>): (r: seq<set<string>>)
    ensures |r| == |Datasets(rows)|
    ensures forall k :: 0 <= k < |r| ==> r[k] == ModelsIn(rows, Datasets(rows)[k])
  {
    var ds := Datasets(rows);
    seq(|ds|, i requires 0 <= i < |ds| => ModelsIn(rows, ds[i]))
  }

  /** The intersection of the per-dataset model sets; the call fails when there is no dataset at all. */
  function CommonModels(rows: seq<Row>): Result<set<string>> {
    if |Datasets(rows)| == 0 then Err(NoDatasets) else Ok(Intersection(ModelSets(rows)))
  }

  /** Row `r` evaluates model `m` on dataset `d`. */
  predicate Evaluates(r: Row, m: string, d: string) {
    r.model == m && r.dataset == d
  }

  /** Some row evaluates model `m` on dataset `d`. */
  ghost predicate HasRow(rows: seq<Row>, m: string, d: string) {
    exists y :: y in rows && Evaluates(y, m, d)
  }

  /** Model `m` has a row for every dataset that occurs in the table. */
  ghost predicate InEveryDataset(rows: seq<Row>, m: string) {
    forall x :: x in rows ==> HasRow(rows, m, x.dataset)
  }

  lemma DatasetsMembers(rows: seq<Row>, d: string)
    ensures d in Datasets(rows) <==> exists x :: x in rows && x.dataset == d
  {
    if x :| x in rows && x.dataset == d {
      var i :| 0 <= i < |rows| && rows[i] == x;
      assert DatasetColumn(rows)[i] == d;
    }
  }

  lemma InAllSetsIsInEveryDataset(rows: seq<Row>, m: string)
    requires forall k :: 0 <= k < |ModelSets(rows)| ==> m in ModelSets(rows)[k]
    ensures InEveryDataset(rows, m)
  {
    var ds := Datasets(rows);
    forall x | x in rows ensures HasRow(rows, m, x.dataset) {
      DatasetsMembers(rows, x.dataset);
      var k :| 0 <= k < |ds| && ds[k] == x.dataset;
      assert m in ModelSets(rows)[k];
    }
  }

  lemma InEveryDatasetIsInAllSets(rows: seq<Row>, m: string)
    requires InEveryDataset(rows, m)
    ensures forall k :: 0 <= k < |ModelSets(rows)| ==> m in ModelSets(rows)[k]
  {
    var ds := Datasets(rows);
    forall k | 0 <= k < |ds| ensures m in ModelsIn(rows, ds[k]) {
      DatasetsMembers(rows, ds[k]);
      var x :| x in rows && x.dataset == ds[k];
      assert HasRow(rows, m, x.dataset);
      var y :| y in rows && Evaluates(y, m, x.dataset);
    }
  }

  /** The filter keeps exactly the models that occur in every dataset, and fails only on an empty table. */
  lemma CommonModelsSpec(rows: seq<Row>, m: string)
    ensures CommonModels(rows).Err? <==> rows == []
    ensures CommonModels(rows).Ok? ==> (m in CommonModels(rows).value <==> InEveryDataset(rows, m))
  {
    if rows != [] {
      DatasetsMembers(rows, rows[0].dataset);
      IntersectionMembers(ModelSets(rows), m);
      if m in Intersection(ModelSets(rows)) {
        InAllSetsIsInEveryDataset(rows, m);
      }
      if InEveryDataset(rows, m) {
        InEveryDatasetIsInAllSets(rows, m);
      }
    }
  }

  /** The elements of `s` that lie in `keep`, in order. */
  function KeepIn(s: seq<string>, keep: set<string>): (r: seq<string>)
    ensures forall x :: x in r <==> x in s && x in keep
    ensures Distinct(s) ==> Distinct(r)
  {
    if s == [] then []
    else if s[|s| - 1] in keep then KeepIn(s[..|s| - 1], keep) + [s[|s| - 1]]
    else KeepIn(s[..|s| - 1], keep)
  }

  /** `sorted(set.intersection(*models_per_dataset))`. */
  function ValidModels(rows: seq<Row>): Result<seq<string>> {
    match CommonModels(rows)
    case Err(f) => Err(f)
    case Ok(common) => Ok(InsertionSort(KeepIn(Unique(ModelColumn(rows)), common), StrLessFirst))
  }

  /** "x sorts before y" for Python's ascending `sorted` on strings. */
  predicate StrLessFirst(x: string, y: string) {
    StrLess(x, y)
  }

  lemma StrLessIsWeak()
    ensures StrictWeakOrder(StrLessFirst)
  {
    StrLessIsStrictTotalOrder();
  }

  /** Strictly ascending in Python's string order; in particular no model occurs twice. */
  ghost predicate StrictlyAscending(s: seq<string>) {
    forall i, j :: 0 <= i < j < |s| ==> StrLess(s[i], s[j])
  }

  /**
   * The valid models are the models found in every dataset, each once, in
   * ascending order; the step fails exactly when the table has no rows.
   */
  lemma ValidModelsSpec(rows: seq<Row>)
    ensures ValidModels(rows).Err? <==> rows == []
    ensures ValidModels(rows).Ok? ==>
      && StrictlyAscending(ValidModels(rows).value)
      && Distinct(ValidModels(rows).value)
      && forall m :: m in ValidModels(rows).value <==> InEveryDataset(rows, m)
  {
    CommonModelsSpec(rows, "");
    if rows != [] {
      var common := CommonModels(rows).value;
      var cands := KeepIn(Unique(ModelColumn(rows)), common);
      var v := InsertionSort(cands, StrLessFirst);
      SortPermutes(cands, StrLessFirst);
      StrLessIsWeak();
      SortSorts(cands, StrLessFirst);
      DistinctPermutation(cands, v);
      StrLessIsStrictTotalOrder();
      forall i, j | 0 <= i < j < |v| ensures StrLess(v[i], v[j]) {
        assert !StrLessFirst(v[j], v[i]);
      }
      forall m ensures m in v <==> InEveryDataset(rows, m) {
        CommonModelsSpec(rows, m);
        assert m in v <==> m in multiset(cands);
        if InEveryDataset(rows, m) {
          assert HasRow(rows, m, rows[0].dataset);
          var y :| y in rows && Evaluates(y, m, rows[0].dataset);
          var j :| 0 <= j < |rows| && rows[j] == y;
          assert ModelColumn(rows)[j] == m;
        }
      }
    }
  }

  // ---- the first value per (model, dataset) ----

  /**
   * `subset.groupby('Dataset')[col].first()` for one group: the first NON-MISSING
   * value of `col` among the rows of model `m` on dataset `d`, or missing if none.
   */
  function FirstValue(rows: seq<Row>, m: string, d: string, col: string): Option<real> {
    if rows == [] then None
    else if Evaluates(rows[0], m, d) && ValueAt(rows[0], col).Some? then ValueAt(rows[0], col)
    else FirstValue(rows[1..], m, d, col)
  }

  /** The value is that of the earliest matching row whose cell holds a number. */
  lemma {:induction false} FirstValueSpec(rows: seq<Row>, m: string, d: string, col: string)
    ensures FirstValue(rows, m, d, col).None? <==>
      forall i :: 0 <= i < |rows| && Evaluates(rows[i], m, d) ==> ValueAt(rows[i], col).None?
    ensures FirstValue(rows, m, d, col).Some? ==>
      exists i :: && 0 <= i < |rows| && Evaluates(rows[i], m, d)
                  && ValueAt(rows[i], col) == FirstValue(rows, m, d, col)
                  && forall j :: 0 <= j < i && Evaluates(rows[j], m, d) ==> ValueAt(rows[j], col).None?
  {
    if rows != [] {
      FirstValueSpec(rows[1..], m, d, col);
      var r := FirstValue(rows, m, d, col);
      if !(Evaluates(rows[0], m, d) && ValueAt(rows[0], col).Some?) && r.Some? {
        var i :| && 0 <= i < |rows[1..]| && Evaluates(rows[1..][i], m, d)
                 && ValueAt(rows[1..][i], col) == r
                 && forall j :: 0 <= j < i && Evaluates(rows[1..][j], m, d) ==> ValueAt(rows[1..][j], col).None?;
        assert forall j :: 0 < j < i + 1 ==> rows[j] == rows[1..][j - 1];
      }
      if r.None? {
        forall i | 0 <= i < |rows| && Evaluates(rows[i], m, d) ensures ValueAt(rows[i], col).None? {
          if i > 0 { assert rows[i] == rows[1..][i - 1]; }
        }
      }
    }
  }

  /** Rows appended after a (model, dataset) group already has a value change nothing for it. */
  lemma {:induction false} FirstValueIgnoresLaterRows(rows: seq<Row>, more: seq<Row>, m: string, d: string, col: string)
    requires FirstValue(rows, m, d, col).Some?
    ensures FirstValue(rows + more, m, d, col) == FirstValue(rows, m, d, col)
  {
    assert rows != [];
    assert (rows + more)[0] == rows[0];
    if !(Evaluates(rows[0], m, d) && ValueAt(rows[0], col).Some?) {
      assert (rows + more)[1..] == rows[1..] + more;
      FirstValueIgnoresLaterRows(rows[1..], more, m, d, col);
    }
  }

  /** A row for another (model, dataset) pair changes nothing for this one. */
  lemma {:induction false} FirstValueOtherRow(rows: seq<Row>, r: Row, m: string, d: string, col: string)
    requires !Evaluates(r, m, d)
    ensures FirstValue(rows + [r], m, d, col) == FirstValue(rows, m, d, col)
  {
    if rows == [] {
      assert ([] + [r])[1..] == [];
    } else {
      assert (rows + [r])[0] == rows[0];
      assert (rows + [r])[1..] == rows[1..] + [r];
      FirstValueOtherRow(rows[1..], r, m, d, col);
    }
  }

  // ---- the mean that skips missing values ----

  /** The values that are present, in order. */
  function Present(xs: seq<Option<real>>): (r: seq<real>)
    ensures |r| <= |xs|
  {
    if xs == [] then []
    else if xs[|xs| - 1].Some? then Present(xs[..|xs| - 1]) + [xs[|xs| - 1].value]
    else Present(xs[..|xs| - 1])
  }

  function Sum(xs: seq<real>): real {
    if xs == [] then 0.0 else Sum(xs[..|xs| - 1]) + xs[|xs| - 1]
  }

  /** pandas' `Series.mean()`: the mean of the present values, missing when none is present. */
  function MeanPresent(xs: seq<Option<real>>): Option<real> {
    var p := Present(xs);
    if |p| == 0 then None else Some(Sum(p) / (|p| as real))
  }

  lemma {:induction false} PresentEmpty(xs: seq<Option<real>>)
    ensures |Present(xs)| == 0 <==> forall i :: 0 <= i < |xs| ==> xs[i].None?
  {
    if xs != [] {
      PresentEmpty(xs[..|xs| - 1]);
    }
  }

  lemma {:induction false} PresentBounds(xs: seq<Option<real>>, lo: real, hi: real)
    requires forall i :: 0 <= i < |xs| && xs[i].Some? ==> lo <= xs[i].value <= hi
    ensures forall k :: 0 <= k < |Present(xs)| ==> lo <= Present(xs)[k] <= hi
  {
    if xs != [] {
      PresentBounds(xs[..|xs| - 1], lo, hi);
    }
  }

  lemma {:induction false} SumBounds(p: seq<real>, lo: real, hi: real)
    requires forall k :: 0 <= k < |p| ==> lo <= p[k] <= hi
    ensures lo * (|p| as real) <= Sum(p) <= hi * (|p| as real)
  {
    if p != [] {
      SumBounds(p[..|p| - 1], lo, hi);
    }
  }

  lemma DivideBounds(s: real, n: real, lo: real, hi: real)
    requires n > 0.0 && lo * n <= s <= hi * n
    ensures lo <= s / n <= hi
  {
    var q := s / n;
    assert q * n == s;
  }

  /**
   * The mean is missing exactly when every value is missing, and otherwise
   * lies within any bounds of the present values (for metrics in [0, 1], in [0, 1]).
   */
  lemma MeanPresentSpec(xs: seq<Option<real>>, lo: real, hi: real)
    requires forall i :: 0 <= i < |xs| && xs[i].Some? ==> lo <= xs[i].value <= hi
    ensures MeanPresent(xs).None? <==> forall i :: 0 <= i < |xs| ==> xs[i].None?
    ensures MeanPresent(xs).Some? ==> lo <= MeanPresent(xs).value <= hi
  {
    PresentEmpty(xs);
    if |Present(xs)| > 0 {
      PresentBounds(xs, lo, hi);
      MeanBounds(Present(xs), lo, hi);
    }
  }

  lemma MeanBounds(p: seq<real>, lo: real, hi: real)
    requires |p| > 0 && forall k :: 0 <= k < |p| ==> lo <= p[k] <= hi
    ensures lo <= Sum(p) / (|p| as real) <= hi
  {
    SumBounds(p, lo, hi);
    DivideBounds(Sum(p), |p| as real, lo, hi);
  }

  // ---- the per-model average of one metric ----

  /** `df[df['Model'] == m]`. */
  function RowsOf(rows: seq<Row>, m: string): (r: seq<Row>)
    ensures forall x :: x in r <==> x in rows && x.model == m
  {
    if rows == [] then []
    else if rows[|rows| - 1].model == m then RowsOf(rows[..|rows| - 1], m) + [rows[|rows| - 1]]
    else RowsOf(rows[..|rows| - 1], m)
  }

  /** The first value of `col` for model `m` in each dataset the model has rows for. */
  function FirstPerDataset(rows: seq<Row>, m: string, col: string): seq<Option<real>> {
    var ds := Datasets(RowsOf(rows, m));
    seq(|ds|, i requires 0 <= i < |ds| => FirstValue(rows, m, ds[i], col))
  }

  /** `subset.groupby('Dataset')[col].first().mean()` for `subset = df[df['Model'] == m]`. */
  function GroupMean(rows: seq<Row>, m: string, col: string): Option<real> {
    MeanPresent(FirstPerDataset(rows, m, col))
  }

  /**
   * A later duplicate row for a (model, dataset) pair whose cell is already
   * known has no effect on the model's average.
   */
  lemma DuplicateRowIgnored(rows: seq<Row>, r: Row, col: string)
    requires exists i :: 0 <= i < |rows| && Evaluates(rows[i], r.model, r.dataset)
    requires FirstValue(rows, r.model, r.dataset, col).Some?
    ensures GroupMean(rows + [r], r.model, col) == GroupMean(rows, r.model, col)
  {
    var m := r.model;
    SeenDatasetsUnchanged(rows, r);
    var ds := Datasets(RowsOf(rows, m));
    var before, after := FirstPerDataset(rows, m, col), FirstPerDataset(rows + [r], m, col);
    assert |after| == |ds| == |before|;
    forall j | 0 <= j < |ds| ensures after[j] == before[j] {
      FirstValueAfterKnown(rows, r, ds[j], col);
    }
    assert after == before;
  }

  /** Once a (model, dataset) pair has a value, a further row for that model leaves every first value alone. */
  lemma FirstValueAfterKnown(rows: seq<Row>, r: Row, d: string, col: string)
    requires FirstValue(rows, r.model, r.dataset, col).Some?
    ensures FirstValue(rows + [r], r.model, d, col) == FirstValue(rows, r.model, d, col)
  {
    if d == r.dataset {
      FirstValueIgnoresLaterRows(rows, [r], r.model, d, col);
    } else {
      FirstValueOtherRow(rows, r, r.model, d, col);
    }
  }

  /** A row for a dataset the model already has rows for adds no dataset to its group. */
  lemma SeenDatasetsUnchanged(rows: seq<Row>, r: Row)
    requires exists i :: 0 <= i < |rows| && Evaluates(rows[i], r.model, r.dataset)
    ensures Datasets(RowsOf(rows + [r], r.model)) == Datasets(RowsOf(rows, r.model))
  {
    var sub := RowsOf(rows, r.model);
    RowsOfAppend(rows, r);
    EvaluatedDatasetSeen(rows, r);
    DatasetColumnAppend(sub, r);
    UniqueAppendSeen(DatasetColumn(sub), r.dataset);
  }

  lemma RowsOfAppend(rows: seq<Row>, r: Row)
    ensures RowsOf(rows + [r], r.model) == RowsOf(rows, r.model) + [r]
  {
    assert (rows + [r])[..|rows|] == rows;
  }

  lemma EvaluatedDatasetSeen(rows: seq<Row>, r: Row)
    requires exists i :: 0 <= i < |rows| && Evaluates(rows[i], r.model, r.dataset)
    ensures r.dataset in DatasetColumn(RowsOf(rows, r.model))
  {
    var sub := RowsOf(rows, r.model);
    var i :| 0 <= i < |rows| && Evaluates(rows[i], r.model, r.dataset);
    assert rows[i] in sub;
    var k :| 0 <= k < |sub| && sub[k] == rows[i];
    assert DatasetColumn(sub)[k] == r.dataset;
  }

  lemma DatasetColumnAppend(rows: seq<Row>, r: Row)
    ensures DatasetColumn(rows + [r]) == DatasetColumn(rows) + [r.dataset]
  {
  }

  /** A model's average is missing exactly when none of its rows holds a number in that column. */
  lemma GroupMeanMissing(rows: seq<Row>, m: string, col: string)
    ensures GroupMean(rows, m, col).None? <==>
      forall i :: 0 <= i < |rows| && rows[i].model == m ==> ValueAt(rows[i], col).None?
  {
    var xs := FirstPerDataset(rows, m, col);
    var ds := Datasets(RowsOf(rows, m));
    PresentEmpty(xs);
    if GroupMean(rows, m, col).None? {
      forall i | 0 <= i < |rows| && rows[i].model == m ensures ValueAt(rows[i], col).None? {
        var d := rows[i].dataset;
        assert rows[i] in RowsOf(rows, m);
        DatasetsMembers(RowsOf(rows, m), d);
        var k :| 0 <= k < |ds| && ds[k] == d;
        assert xs[k].None?;
        FirstValueSpec(rows, m, d, col);
        assert Evaluates(rows[i], m, d);
      }
    } else {
      var k :| 0 <= k < |xs| && xs[k].Some?;
      FirstValueSpec(rows, m, ds[k], col);
      var i :| 0 <= i < |rows| && Evaluates(rows[i], m, ds[k]) && ValueAt(rows[i], col) == xs[k];
    }
  }

  /** An average of numbers that all lie in [lo, hi] lies in [lo, hi]. */
  lemma GroupMeanBounds(rows: seq<Row>, m: string, col: string, lo: real, hi: real)
    requires forall i :: 0 <= i < |rows| && ValueAt(rows[i], col).Some? ==> lo <= ValueAt(rows[i], col).value <= hi
    ensures GroupMean(rows, m, col).Some? ==> lo <= GroupMean(rows, m, col).value <= hi
  {
    var xs := FirstPerDataset(rows, m, col);
    var ds := Datasets(RowsOf(rows, m));
    forall k | 0 <= k < |xs| && xs[k].Some? ensures lo <= xs[k].value <= hi {
      FirstValueSpec(rows, m, ds[k], col);
    }
    MeanPresentSpec(xs, lo, hi);
  }
}
