/**
 * YoloBets.py end to end: check the required columns, keep the models common
 * to every dataset, average their metrics, count pairwise wins, and sort the
 * results descending by (wins, average primary metric, tie-breakers...).
 * The first entry of the sorted results is reported as the best model.
 */
module BetsRanking {
  import opened Basics
  import opened Ordering
  import opened Sorting
  import opened MetricsTable
  import opened WinRanking

  /** One tuple of `results`: the model, its wins, its averages and its sort key. */
  datatype Entry = Entry(
    model: string,
    wins: nat,
    avgPrimary: Option<real>,
    avgInference: SpeedAverage,
    avgTotal: SpeedAverage,
    avgFps: SpeedAverage,
    key: Key)

  /** `(wins[m], avg_primary) + tuple(avg_tie)`. */
  function SortKey(wins: nat, s: Stats): Key {
    [Some(wins as real), s.avgPrimary] + s.avgTie
  }

  function EntryOf(m: string, wins: nat, s: Stats): Entry {
    Entry(m, wins, s.avgPrimary, s.avgInference, s.avgTotal, s.avgFps, SortKey(wins, s))
  }

  /** `sort(key=..., reverse=True)`: x goes before y when x's key is the greater. */
  predicate RankedBefore(x: Entry, y: Entry) {
    KeyLess(y.key, x.key)
  }

  /** Ranking by descending key is a strict weak order, so the stable sort's promises apply. */
  lemma RankedBeforeIsWeak()
    ensures StrictWeakOrder(RankedBefore)
  {
    KeyLessIsStrictTotalOrder();
    forall x: Entry, y: Entry, z: Entry | RankedBefore(x, z)
      ensures RankedBefore(x, y) || RankedBefore(y, z)
    {
      if y.key != x.key && !KeyLess(y.key, x.key) {
        assert KeyLess(x.key, y.key);
      }
    }
  }

  /** Two entries tie in the sort exactly when their keys are equal. */
  lemma TiedIsSameKey(x: Entry, y: Entry)
    ensures Tied(x, y, RankedBefore) <==> x.key == y.key
  {
    KeyLessIsStrictTotalOrder();
  }

  // ---- the pipeline as a function of the table ----

  /** `model_stats`, keyed by model. */
  function StatsMap(rows: seq<Row>, valid: seq<string>, present: seq<string>): map<string, Stats> {
    map m | m in valid :: StatsOf(rows, m, present)
  }

  /** `results` before sorting: one entry per valid model, in `valid_models` order. */
  function Results(t: Table, valid: seq<string>): (r: seq<Entry>)
    ensures |r| == |valid|
  {
    var stats := StatsMap(t.rows, valid, PresentSpeed(t.columns));
    var av := Averages(valid, stats);
    seq(|valid|, k requires 0 <= k < |valid| => EntryOf(valid[k], WinsOf(av, k), stats[valid[k]]))
  }

  /**
   * The ranking YoloBets.py prints, or why it stops: a required column is
   * missing (KeyError), the table has no datasets (TypeError from intersecting
   * no sets), or no model is in every dataset (the explicit exit).
   */
  function Ranking(t: Table): Result<seq<Entry>> {
    var missing := MissingRequired(t.columns);
    if missing.Some? then Err(MissingColumn(missing.value))
    else match ValidModels(t.rows)
      case Err(f) => Err(f)
      case Ok(valid) =>
        if valid == [] then Err(NoCommonModels)
        else Ok(InsertionSort(Results(t, valid), RankedBefore))
  }

  /** `results[0][0]`, the model reported as best. */
  function Best(ranking: seq<Entry>): string
    requires |ranking| > 0
  {
    ranking[0].model
  }

  function ModelOf(e: Entry): string {
    e.model
  }

  /** The model column of a list of entries. */
  function ModelsOf(entries: seq<Entry>): (r: seq<string>)
    ensures |r| == |entries| && forall k :: 0 <= k < |entries| ==> r[k] == entries[k].model
  {
    Project(entries, ModelOf)
  }

  // ---- the loops of YoloBets.py ----

  /** The loop that appends one entry per valid model to `results`. */
  method BuildResults(models: seq<string>, stats: map<string, Stats>, wins: map<string, nat>)
    returns (results: seq<Entry>)
    requires forall m :: m in models ==> m in stats && m in wins
    ensures |results| == |models|
    ensures forall k :: 0 <= k < |models| ==>
      results[k] == EntryOf(models[k], wins[models[k]], stats[models[k]])
  {
    results := [];
    for i := 0 to |models|
      invariant |results| == i
      invariant forall k :: 0 <= k < i ==> results[k] == EntryOf(models[k], wins[models[k]], stats[models[k]])
    {
      var m := models[i];
      results := results + [EntryOf(m, wins[m], stats[m])];
    }
  }

  /** `results.sort(key=lambda x: x[6], reverse=True)`, carried out in place on an array. */
  method SortResults(results: seq<Entry>) returns (sorted: seq<Entry>)
    ensures sorted == InsertionSort(results, RankedBefore)
  {
    var a := new Entry[|results|](k requires 0 <= k < |results| => results[k]);
    assert a[..] == results;
    SortInPlace(a, RankedBefore);
    sorted := a[..];
  }

  /** YoloBets.py from the loaded table to the sorted results. */
  method RankByWins(t: Table) returns (r: Result<seq<Entry>>)
    ensures r == Ranking(t)
  {
    var missing := MissingRequired(t.columns);
    if missing.Some? {
      return Err(MissingColumn(missing.value));
    }
    var vm := ValidModels(t.rows);
    if vm.Err? {
      return Err(vm.failure);
    }
    var valid := vm.value;
    if |valid| == 0 {
      return Err(NoCommonModels);
    }
    ValidModelsSpec(t.rows);
    var results := ScoreModels(t, valid);
    results := SortResults(results);
    return Ok(results);
  }

  /** The statistics, win counting and result loops for the common models, before the sort. */
  method ScoreModels(t: Table, valid: seq<string>) returns (results: seq<Entry>)
    requires Distinct(valid)
    ensures results == Results(t, valid)
  {
    var present := PresentSpeed(t.columns);
    var stats := BuildStats(t.rows, valid, present);
    assert stats == StatsMap(t.rows, valid, present);
    var wins := CountWins(valid, stats);
    results := BuildResults(valid, stats, wins);
  }

  // ---- what the ranking promises ----

  /** The run stops exactly in the three situations the script cannot go past. */
  lemma RankingErrors(t: Table)
    ensures Ranking(t).Err? && Ranking(t).failure.MissingColumn?
      <==> exists c :: c in RequiredMetrics && c !in t.columns
    ensures (forall c :: c in RequiredMetrics ==> c in t.columns) ==>
      (Ranking(t) == Err(NoDatasets) <==> t.rows == [])
    ensures (forall c :: c in RequiredMetrics ==> c in t.columns) && t.rows != [] ==>
      (Ranking(t) == Err(NoCommonModels) <==> forall m :: !InEveryDataset(t.rows, m))
    ensures Ranking(t).Ok? ==> |Ranking(t).value| > 0
  {
    ValidModelsSpec(t.rows);
    CommonModelsSpec(t.rows, "");
    if MissingRequired(t.columns).None? && t.rows != [] {
      var valid := ValidModels(t.rows).value;
      SortLength(Results(t, valid), RankedBefore);
      if valid != [] {
        assert InEveryDataset(t.rows, valid[0]);
      }
    }
  }

  /** The results list holds the valid models in order, each with its wins and averages. */
  lemma ResultsEntries(t: Table, valid: seq<string>)
    ensures ModelsOf(Results(t, valid)) == valid
    ensures forall k :: 0 <= k < |valid| ==>
      var e := Results(t, valid)[k];
      && e.wins == WinsOf(Averages(valid, StatsMap(t.rows, valid, PresentSpeed(t.columns))), k)
      && e.avgPrimary == GroupMean(t.rows, valid[k], PrimaryMetric)
      && e.key == [Some(e.wins as real), e.avgPrimary] + StatsOf(t.rows, valid[k], PresentSpeed(t.columns)).avgTie
  {
  }

  /** The ranking is a permutation of `valid_models`, and of the results list. */
  lemma RankingIsPermutation(t: Table)
    requires Ranking(t).Ok?
    ensures multiset(Ranking(t).value) == multiset(Results(t, ValidModels(t.rows).value))
    ensures multiset(ModelsOf(Ranking(t).value)) == multiset(ValidModels(t.rows).value)
    ensures forall m :: m in ModelsOf(Ranking(t).value) <==> InEveryDataset(t.rows, m)
  {
    var valid := ValidModels(t.rows).value;
    SortPermutes(Results(t, valid), RankedBefore);
    ProjectSort(Results(t, valid), RankedBefore, ModelOf);
    ResultsEntries(t, valid);
    ValidModelsSpec(t.rows);
    forall m ensures m in ModelsOf(Ranking(t).value) <==> m in valid {
      assert m in ModelsOf(Ranking(t).value) <==> m in multiset(ModelsOf(Ranking(t).value));
    }
  }

  /** The ranking is non-increasing in the key (wins, average primary, tie-breakers...). */
  lemma RankingIsSorted(t: Table)
    requires Ranking(t).Ok?
    ensures forall i, j :: 0 <= i < j < |Ranking(t).value| ==>
      !KeyLess(Ranking(t).value[i].key, Ranking(t).value[j].key)
  {
    RankedBeforeIsWeak();
    SortSorts(Results(t, ValidModels(t.rows).value), RankedBefore);
  }

  /** Entries with equal keys keep their `valid_models` order: the sort is stable. */
  lemma RankingIsStable(t: Table, y: Entry)
    requires Ranking(t).Ok?
    ensures TiedWith(Ranking(t).value, y, RankedBefore) == TiedWith(Results(t, ValidModels(t.rows).value), y, RankedBefore)
  {
    RankedBeforeIsWeak();
    SortIsStable(Results(t, ValidModels(t.rows).value), y, RankedBefore);
  }

  /** The key of an entry starts with its wins. */
  predicate KeyStartsWithWins(e: Entry) {
    |e.key| > 0 && e.key[0] == Some(e.wins as real)
  }

  lemma RankingKeysStartWithWins(t: Table)
    requires Ranking(t).Ok?
    ensures forall j :: 0 <= j < |Ranking(t).value| ==> KeyStartsWithWins(Ranking(t).value[j])
  {
    var results := Results(t, ValidModels(t.rows).value);
    RankingIsPermutation(t);
    forall j | 0 <= j < |Ranking(t).value| ensures KeyStartsWithWins(Ranking(t).value[j]) {
      assert Ranking(t).value[j] in multiset(results);
    }
  }

  /** The reported best model has the greatest key, and so the most wins. */
  lemma BestHasGreatestKey(t: Table)
    requires Ranking(t).Ok?
    ensures |Ranking(t).value| > 0
    ensures forall j :: 0 <= j < |Ranking(t).value| ==> !KeyLess(Ranking(t).value[0].key, Ranking(t).value[j].key)
    ensures forall j :: 0 <= j < |Ranking(t).value| ==> Ranking(t).value[j].wins <= Ranking(t).value[0].wins
  {
    RankingErrors(t);
    RankingIsSorted(t);
    RankingKeysStartWithWins(t);
    KeyLessIsStrictTotalOrder();
    var r := Ranking(t).value;
    forall j | 0 <= j < |r| ensures !KeyLess(r[0].key, r[j].key) {
    }
    forall j | 0 <= j < |r| ensures r[j].wins <= r[0].wins {
      assert KeyStartsWithWins(r[0]) && KeyStartsWithWins(r[j]);
    }
  }

  /** If one entry has strictly more wins than every other, a reordering that puts most wins first puts it first. */
  lemma UniqueMostWinsFirst(results: seq<Entry>, r: seq<Entry>, k: nat)
    requires multiset(r) == multiset(results) && |r| > 0
    requires forall j :: 0 <= j < |r| ==> r[j].wins <= r[0].wins
    requires k < |results|
    requires forall j :: 0 <= j < |results| && j != k ==> results[j].wins < results[k].wins
    ensures r[0] == results[k]
  {
    assert r[0] in multiset(results);
    var j :| 0 <= j < |results| && results[j] == r[0];
    assert results[k] in multiset(r);
    var p :| 0 <= p < |r| && r[p] == results[k];
    assert r[p].wins <= r[0].wins;
  }

  /** A model whose average primary metric strictly beats every other valid model's is reported best. */
  lemma StrictMaxIsBest(t: Table, k: nat)
    requires Ranking(t).Ok?
    requires k < |ValidModels(t.rows).value|
    requires
      var valid := ValidModels(t.rows).value;
      forall j :: 0 <= j < |valid| && j != k ==>
        Greater(GroupMean(t.rows, valid[k], PrimaryMetric), GroupMean(t.rows, valid[j], PrimaryMetric))
    ensures Best(Ranking(t).value) == ValidModels(t.rows).value[k]
  {
    var valid := ValidModels(t.rows).value;
    var results := Results(t, valid);
    StrictMaxMostWins(t, valid, k);
    RankingIsPermutation(t);
    BestHasGreatestKey(t);
    UniqueMostWinsFirst(results, Ranking(t).value, k);
  }

  /** The strict maximum of the average primary metric has strictly more wins than any other model. */
  lemma StrictMaxMostWins(t: Table, valid: seq<string>, k: nat)
    requires k < |valid|
    requires forall j :: 0 <= j < |valid| && j != k ==>
      Greater(GroupMean(t.rows, valid[k], PrimaryMetric), GroupMean(t.rows, valid[j], PrimaryMetric))
    ensures forall j :: 0 <= j < |valid| && j != k ==> Results(t, valid)[j].wins < Results(t, valid)[k].wins
  {
    var results := Results(t, valid);
    var av := Averages(valid, StatsMap(t.rows, valid, PresentSpeed(t.columns)));
    ResultsEntries(t, valid);
    forall j | 0 <= j < |av| && j != k ensures Greater(av[k], av[j]) {
    }
    StrictMaxWinsAll(av, k);
    forall j | 0 <= j < |results| && j != k ensures results[j].wins < results[k].wins {
      StrictMaxOthersFewer(av, k, j);
    }
  }
}
