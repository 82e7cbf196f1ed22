/**
 * YoloBets.py: rank the models common to every dataset by pairwise wins on
 * the averaged primary metric (mAP@0.5:0.95), breaking ties by the average
 * primary metric and then by the other accuracy metrics.
 */
module WinRanking {
  import opened Basics
  import opened Ordering
  import opened Sorting
  import opened MetricsTable

  const InferenceColumn := "Inference (ms/img)"
  const TotalColumn := "Total (ms/img)"
  const FpsColumn := "FPS"

  /** The optional speed metrics, in their declared order. */
  const SpeedMetrics: seq<string> := [InferenceColumn, TotalColumn, FpsColumn]

  const PrimaryMetric := MapStrict

  /** Position of a speed metric in the declared order. */
  function SpeedRank(col: string): nat {
    if col == InferenceColumn then 0 else if col == TotalColumn then 1 else 2
  }

  /** `present_speed`: the speed metrics the header has, in their declared order. */
  function PresentSpeed(columns: seq<string>): (r: seq<string>)
    ensures forall c :: c in r <==> c in SpeedMetrics && c in columns
    ensures forall i, j :: 0 <= i < j < |r| ==> SpeedRank(r[i]) < SpeedRank(r[j])
  {
    (if InferenceColumn in columns then [InferenceColumn] else [])
    + (if TotalColumn in columns then [TotalColumn] else [])
    + (if FpsColumn in columns then [FpsColumn] else [])
  }

  /** The elements of `s` other than `x`, in order. */
  function Without(s: seq<string>, x: string): (r: seq<string>)
    ensures forall y :: y in r <==> y in s && y != x
  {
    if s == [] then []
    else if s[0] == x then Without(s[1..], x)
    else [s[0]] + Without(s[1..], x)
  }

  /** `tie_breakers`: the required metrics other than the primary one, in declared order. */
  function TieBreakers(): seq<string> {
    Without(RequiredMetrics, PrimaryMetric)
  }

  lemma TieBreakersAre()
    ensures TieBreakers() == [Map50, Precision, Recall]
  {
    var r := RequiredMetrics;
    assert Without([], PrimaryMetric) == [];
    assert Without([Recall], PrimaryMetric) == [Recall];
    assert [Precision, Recall][1..] == [Recall];
    assert Without([Precision, Recall], PrimaryMetric) == [Precision, Recall];
    assert [Map50, Precision, Recall][1..] == [Precision, Recall];
    assert Without([Map50, Precision, Recall], PrimaryMetric) == [Map50, Precision, Recall];
    assert r[1..] == [Map50, Precision, Recall];
  }

  // ---- per-model statistics ----

  /** An average speed: not recorded when the table lacks the column, else the mean (possibly missing). */
  datatype SpeedAverage = NotRecorded | Averaged(mean: Option<real>)

  /** `model_stats[m]`. */
  datatype Stats = Stats(
    model: string,
    avgPrimary: Option<real>,
    avgTie: seq<Option<real>>,
    avgInference: SpeedAverage,
    avgTotal: SpeedAverage,
    avgFps: SpeedAverage)

  function SpeedAverageOf(rows: seq<Row>, m: string, col: string, present: seq<string>): SpeedAverage {
    if col in present then Averaged(GroupMean(rows, m, col)) else NotRecorded
  }

  function StatsOf(rows: seq<Row>, m: string, present: seq<string>): Stats {
    var ties := TieBreakers();
    Stats(m,
          GroupMean(rows, m, PrimaryMetric),
          seq(|ties|, i requires 0 <= i < |ties| => GroupMean(rows, m, ties[i])),
          SpeedAverageOf(rows, m, InferenceColumn, present),
          SpeedAverageOf(rows, m, TotalColumn, present),
          SpeedAverageOf(rows, m, FpsColumn, present))
  }

  /** A speed average is left unrecorded exactly when the table has no such column. */
  lemma SpeedAverageAbsent(t: Table, m: string, col: string)
    requires col in SpeedMetrics
    ensures SpeedAverageOf(t.rows, m, col, PresentSpeed(t.columns)).NotRecorded? <==> col !in t.columns
  {
  }

  /** The loop that fills `model_stats`, one valid model at a time. */
  method BuildStats(rows: seq<Row>, valid: seq<string>, present: seq<string>) returns (stats: map<string, Stats>)
    ensures stats.Keys == set m | m in valid
    ensures forall m :: m in stats ==> stats[m] == StatsOf(rows, m, present)
  {
    stats := map[];
    for i := 0 to |valid|
      invariant stats.Keys == set k | 0 <= k < i :: valid[k]
      invariant forall m :: m in stats ==> stats[m] == StatsOf(rows, m, present)
    {
      stats := stats[valid[i] := StatsOf(rows, valid[i], present)];
    }
    assert forall m :: m in valid <==> exists k :: 0 <= k < |valid| && valid[k] == m;
  }

  // ---- pairwise wins ----

  /** Number of models in [lo, hi) that model k beats. */
  function CountBeaten(av: seq<Option<real>>, k: nat, lo: nat, hi: nat): nat
    requires k < |av| && hi <= |av|
  {
    if hi <= lo then 0
    else CountBeaten(av, k, lo, hi - 1) + (if Greater(av[k], av[hi - 1]) then 1 else 0)
  }

  /** Number of models in [0, hi) that do not beat model k. */
  function CountNotBeating(av: seq<Option<real>>, k: nat, hi: nat): nat
    requires k < |av| && hi <= |av|
  {
    if hi == 0 then 0
    else CountNotBeating(av, k, hi - 1) + (if !Greater(av[hi - 1], av[k]) then 1 else 0)
  }

  /**
   * The wins of the k-th model: every later model it strictly beats, and every
   * earlier model that does not strictly beat it (so ties go to the later model).
   */
  function WinsOf(av: seq<Option<real>>, k: nat): nat
    requires k < |av|
  {
    CountBeaten(av, k, k + 1, |av|) + CountNotBeating(av, k, k)
  }

  /** The average primary metric of each model, in the models' order. */
  function Averages(models: seq<string>, stats: map<string, Stats>): (av: seq<Option<real>>)
    requires forall m :: m in models ==> m in stats
    ensures |av| == |models|
    ensures forall k :: 0 <= k < |models| ==> av[k] == stats[models[k]].avgPrimary
  {
    seq(|models|, k requires 0 <= k < |models| => stats[models[k]].avgPrimary)
  }

  // ---- the nested loops, pair by pair ----

  /** The point model k gets from comparing pair (i, j): the first if it strictly beats the second, else the second. */
  function Point(av: seq<Option<real>>, i: nat, j: nat, k: nat): nat
    requires i < |av| && j < |av|
  {
    if Greater(av[i], av[j]) then (if k == i then 1 else 0) else (if k == j then 1 else 0)
  }

  /** Points model k collects while model i is compared with models i+1 .. j-1. */
  function RowGain(av: seq<Option<real>>, i: nat, j: nat, k: nat): nat
    requires i < |av| && j <= |av|
  {
    if j <= i + 1 then 0 else RowGain(av, i, j - 1, k) + Point(av, i, j - 1, k)
  }

  /** Points model k collects in the first i rows of the nested loops. */
  function RowsGain(av: seq<Option<real>>, i: nat, k: nat): nat
    requires i <= |av|
  {
    if i == 0 then 0 else RowsGain(av, i - 1, k) + RowGain(av, i - 1, |av|, k)
  }

  /** A row started by a later model gives model k nothing. */
  lemma {:induction false} RowGainAfter(av: seq<Option<real>>, i: nat, j: nat, k: nat)
    requires k < i < |av| && j <= |av|
    ensures RowGain(av, i, j, k) == 0
  {
    if j > i + 1 {
      RowGainAfter(av, i, j - 1, k);
    }
  }

  /** Model k's own row gives it one point per later model it strictly beats. */
  lemma {:induction false} RowGainOwn(av: seq<Option<real>>, k: nat, j: nat)
    requires k < j <= |av|
    ensures RowGain(av, k, j, k) == CountBeaten(av, k, k + 1, j)
  {
    if j > k + 1 {
      RowGainOwn(av, k, j - 1);
    }
  }

  /** A row started by an earlier model i gives model k a point exactly when i does not strictly beat k. */
  lemma {:induction false} RowGainBefore(av: seq<Option<real>>, i: nat, j: nat, k: nat)
    requires i < k < |av| && i < j <= |av|
    ensures RowGain(av, i, j, k) == if k < j && !Greater(av[i], av[k]) then 1 else 0
  {
    if j > i + 1 {
      RowGainBefore(av, i, j - 1, k);
    }
  }

  /** After the first i rows, model k holds its points against earlier models, and its own row once i passes it. */
  lemma {:induction false} RowsGainCounts(av: seq<Option<real>>, i: nat, k: nat)
    requires i <= |av| && k < |av|
    ensures RowsGain(av, i, k) == if i <= k then CountNotBeating(av, k, i)
                                  else CountNotBeating(av, k, k) + CountBeaten(av, k, k + 1, |av|)
  {
    if i > 0 {
      RowsGainCounts(av, i - 1, k);
      if i - 1 < k {
        RowGainBefore(av, i - 1, |av|, k);
      } else if i - 1 == k {
        RowGainOwn(av, k, |av|);
      } else {
        RowGainAfter(av, i - 1, |av|, k);
      }
    }
  }

  /** Once every row is done, each model holds exactly its wins. */
  lemma RowsGainIsWins(av: seq<Option<real>>, k: nat)
    requires k < |av|
    ensures RowsGain(av, |av|, k) == WinsOf(av, k)
  {
    RowsGainCounts(av, |av|, k);
  }

  // ---- the same loops over the `wins` dictionary ----

  /** Every model is a key of `d`. */
  ghost predicate Keyed<V>(models: seq<string>, d: map<string, V>) {
    forall n :: 0 <= n < |models| ==> models[n] in d
  }

  /** The model that gets the point of the pair (i, j). */
  function PairWinner(models: seq<string>, stats: map<string, Stats>, i: nat, j: nat): string
    requires Keyed(models, stats)
    requires i < |models| && j < |models|
  {
    if Greater(stats[models[i]].avgPrimary, stats[models[j]].avgPrimary) then models[i] else models[j]
  }

  /** The counts `w` after model i has been scored against models i+1 .. j-1. */
  ghost function RowTally(models: seq<string>, stats: map<string, Stats>, w: map<string, nat>, i: nat, j: nat)
    : (r: map<string, nat>)
    requires Keyed(models, stats) && Keyed(models, w)
    requires i < j <= |models|
    ensures Keyed(models, r)
  {
    if j == i + 1 then w
    else
      var r := RowTally(models, stats, w, i, j - 1);
      var winner := PairWinner(models, stats, i, j - 1);
      r[winner := r[winner] + 1]
  }

  /** `{m: 0 for m in models}`. */
  function Zeros(models: seq<string>): (w: map<string, nat>)
    ensures forall m :: m in w <==> m in models
    ensures forall m :: m in w ==> w[m] == 0
  {
    if models == [] then map[] else Zeros(models[..|models| - 1])[models[|models| - 1] := 0]
  }

  /** The counts at the start of row i of the nested loops begun with counts `w0` (after all rows, for i == |models|). */
  ghost function Tally(models: seq<string>, stats: map<string, Stats>, w0: map<string, nat>, i: nat)
    : (w: map<string, nat>)
    requires Keyed(models, stats) && Keyed(models, w0)
    requires i <= |models|
    ensures Keyed(models, w)
  {
    if i == 0 then w0
    else RowTally(models, stats, Tally(models, stats, w0, i - 1), i - 1, |models|)
  }

  /** The tallied models and their averages, in the models' order. */
  ghost predicate TallyInputs(models: seq<string>, stats: map<string, Stats>, av: seq<Option<real>>) {
    && (Keyed(models, stats))
    && |av| == |models|
    && forall n :: 0 <= n < |models| ==> av[n] == stats[models[n]].avgPrimary
  }

  /** No position other than k holds model k's name. */
  ghost predicate NameUnique(models: seq<string>, k: nat) {
    k < |models| && forall n :: 0 <= n < |models| && n != k ==> models[n] != models[k]
  }

  /** With model k's name unique, a row adds to its count exactly its row gain. */
  lemma {:induction false} RowTallyGain(models: seq<string>, stats: map<string, Stats>, av: seq<Option<real>>,
                                        w: map<string, nat>, i: nat, j: nat, k: nat)
    requires TallyInputs(models, stats, av) && NameUnique(models, k)
    requires Keyed(models, w)
    requires i < j <= |models| && k < |models|
    ensures RowTally(models, stats, w, i, j)[models[k]] == w[models[k]] + RowGain(av, i, j, k)
  {
    if j > i + 1 {
      RowTallyGain(models, stats, av, w, i, j - 1, k);
      var winner := if Greater(av[i], av[j - 1]) then i else j - 1;
      assert PairWinner(models, stats, i, j - 1) == models[winner];
      assert models[winner] == models[k] <==> winner == k;
    }
  }

  /** Scoring a row only raises counts of keys already present. */
  lemma {:induction false} RowTallyKeys(models: seq<string>, stats: map<string, Stats>, w: map<string, nat>, i: nat, j: nat)
    requires Keyed(models, stats) && Keyed(models, w)
    requires i < j <= |models|
    ensures RowTally(models, stats, w, i, j).Keys == w.Keys
  {
    if j > i + 1 {
      RowTallyKeys(models, stats, w, i, j - 1);
    }
  }

  /** The nested loops add no key to the counts they start from. */
  lemma {:induction false} TallyKeys(models: seq<string>, stats: map<string, Stats>, w0: map<string, nat>, i: nat)
    requires Keyed(models, stats) && Keyed(models, w0)
    requires i <= |models|
    ensures Tally(models, stats, w0, i).Keys == w0.Keys
  {
    if i > 0 {
      TallyKeys(models, stats, w0, i - 1);
      RowTallyKeys(models, stats, Tally(models, stats, w0, i - 1), i - 1, |models|);
    }
  }

  /** With model k's name unique, the tally adds to its starting count its points from the first i rows. */
  lemma {:induction false} TallyGain(models: seq<string>, stats: map<string, Stats>, av: seq<Option<real>>,
                                     w0: map<string, nat>, i: nat, k: nat)
    requires TallyInputs(models, stats, av) && NameUnique(models, k) && Keyed(models, w0)
    requires i <= |models| && k < |models|
    ensures Tally(models, stats, w0, i)[models[k]] == w0[models[k]] + RowsGain(av, i, k)
  {
    if i > 0 {
      TallyGain(models, stats, av, w0, i - 1, k);
      RowTallyGain(models, stats, av, Tally(models, stats, w0, i - 1), i - 1, |models|, k);
    }
  }

  /** Starting from zero, the tally after the last row is every model's wins. */
  lemma TallyIsWins(models: seq<string>, stats: map<string, Stats>)
    requires Distinct(models) && forall m :: m in models ==> m in stats
    ensures Keyed(models, stats) && Keyed(models, Zeros(models))
    ensures forall k :: 0 <= k < |models| ==>
      Tally(models, stats, Zeros(models), |models|)[models[k]] == WinsOf(Averages(models, stats), k)
  {
    var av := Averages(models, stats);
    assert TallyInputs(models, stats, av);
    forall k | 0 <= k < |models|
      ensures Tally(models, stats, Zeros(models), |models|)[models[k]] == WinsOf(av, k)
    {
      assert NameUnique(models, k);
      TallyGain(models, stats, av, Zeros(models), |models|, k);
      RowsGainIsWins(av, k);
    }
  }

  /** The inner loop of `wins`: model i against every later model. */
  method ScoreRow(models: seq<string>, stats: map<string, Stats>, wins0: map<string, nat>, i: nat)
    returns (wins: map<string, nat>)
    requires Keyed(models, stats) && Keyed(models, wins0)
    requires i < |models|
    ensures wins == RowTally(models, stats, wins0, i, |models|)
  {
    wins := wins0;
    var j := i + 1;
    while j < |models|
      invariant i + 1 <= j <= |models|
      invariant wins == RowTally(models, stats, wins0, i, j)
    {
      var mi, mj := models[i], models[j];
      if Greater(stats[mi].avgPrimary, stats[mj].avgPrimary) {
        wins := wins[mi := wins[mi] + 1];
      } else {
        wins := wins[mj := wins[mj] + 1];
      }
      j := j + 1;
    }
  }

  /** The nested loops of `wins`, row by row. */
  method ScoreAllPairs(models: seq<string>, stats: map<string, Stats>) returns (wins: map<string, nat>)
    requires Keyed(models, stats)
    ensures Keyed(models, Zeros(models))
    ensures wins == Tally(models, stats, Zeros(models), |models|)
  {
    wins := Zeros(models);
    ghost var w0 := wins;
    var i := 0;
    while i < |models|
      invariant 0 <= i <= |models|
      invariant wins == Tally(models, stats, w0, i)
    {
      wins := ScoreRow(models, stats, wins, i);
      i := i + 1;
    }
  }

  /** `wins`: every unordered pair of valid models is compared once, and each model ends with its wins. */
  method CountWins(models: seq<string>, stats: map<string, Stats>) returns (wins: map<string, nat>)
    requires Distinct(models)
    requires forall m :: m in models ==> m in stats
    ensures forall m :: m in wins <==> m in models
    ensures forall k :: 0 <= k < |models| ==> wins[models[k]] == WinsOf(Averages(models, stats), k)
  {
    TallyIsWins(models, stats);
    wins := ScoreAllPairs(models, stats);
    TallyKeys(models, stats, Zeros(models), |models|);
  }

  /** Each model wins at most once against each other model. */
  lemma {:induction false} WinsBounded(av: seq<Option<real>>, k: nat)
    requires k < |av|
    ensures WinsOf(av, k) <= |av| - 1
  {
    CountBeatenBounded(av, k, k + 1, |av|);
    CountNotBeatingBounded(av, k, k);
  }

  lemma {:induction false} CountBeatenBounded(av: seq<Option<real>>, k: nat, lo: nat, hi: nat)
    requires k < |av| && hi <= |av|
    ensures CountBeaten(av, k, lo, hi) <= if hi <= lo then 0 else hi - lo
  {
    if hi > lo { CountBeatenBounded(av, k, lo, hi - 1); }
  }

  lemma {:induction false} CountNotBeatingBounded(av: seq<Option<real>>, k: nat, hi: nat)
    requires k < |av| && hi <= |av|
    ensures CountNotBeating(av, k, hi) <= hi
  {
    if hi > 0 { CountNotBeatingBounded(av, k, hi - 1); }
  }

  // ---- what the win counts mean ----

  /** Splitting the range of opponents splits the count. */
  lemma {:induction false} CountBeatenSplit(av: seq<Option<real>>, k: nat, lo: nat, mid: nat, hi: nat)
    requires k < |av| && lo <= mid <= hi <= |av|
    ensures CountBeaten(av, k, lo, hi) == CountBeaten(av, k, lo, mid) + CountBeaten(av, k, mid, hi)
  {
    if hi > mid {
      CountBeatenSplit(av, k, lo, mid, hi - 1);
    }
  }

  /** An opponent that model k does not beat keeps its count below the range's size. */
  lemma {:induction false} CountBeatenMissOne(av: seq<Option<real>>, k: nat, lo: nat, hi: nat, x: nat)
    requires k < |av| && lo <= x < hi <= |av| && !Greater(av[k], av[x])
    ensures CountBeaten(av, k, lo, hi) <= hi - lo - 1
  {
    if x < hi - 1 {
      CountBeatenMissOne(av, k, lo, hi - 1, x);
    } else {
      CountBeatenBounded(av, k, lo, hi - 1);
    }
  }

  /** An earlier opponent that beats model k keeps its count below the range's size. */
  lemma {:induction false} CountNotBeatingMissOne(av: seq<Option<real>>, k: nat, hi: nat, x: nat)
    requires k < |av| && x < hi <= |av| && Greater(av[x], av[k])
    ensures CountNotBeating(av, k, hi) <= hi - 1
  {
    if x < hi - 1 {
      CountNotBeatingMissOne(av, k, hi - 1, x);
    } else {
      CountNotBeatingBounded(av, k, hi - 1);
    }
  }

  /** Model k beats every opponent in the range. */
  lemma {:induction false} CountBeatenAll(av: seq<Option<real>>, k: nat, lo: nat, hi: nat)
    requires k < |av| && lo <= hi <= |av|
    requires forall j :: lo <= j < hi ==> Greater(av[k], av[j])
    ensures CountBeaten(av, k, lo, hi) == hi - lo
  {
    if hi > lo {
      CountBeatenAll(av, k, lo, hi - 1);
    }
  }

  /** Model k beats no opponent in the range. */
  lemma {:induction false} CountBeatenNone(av: seq<Option<real>>, k: nat, lo: nat, hi: nat)
    requires k < |av| && hi <= |av|
    requires forall j :: lo <= j < hi ==> !Greater(av[k], av[j])
    ensures CountBeaten(av, k, lo, hi) == 0
  {
    if hi > lo {
      CountBeatenNone(av, k, lo, hi - 1);
    }
  }

  /** No earlier opponent beats model k. */
  lemma {:induction false} CountNotBeatingAll(av: seq<Option<real>>, k: nat, hi: nat)
    requires k < |av| && hi <= |av|
    requires forall i :: 0 <= i < hi ==> !Greater(av[i], av[k])
    ensures CountNotBeating(av, k, hi) == hi
  {
    if hi > 0 {
      CountNotBeatingAll(av, k, hi - 1);
    }
  }

  /**
   * The tie rule: when no average strictly exceeds another (all equal or all
   * missing), every comparison goes to the later model, so the k-th model in
   * sorted order has exactly k wins.
   */
  lemma AllTiedWins(av: seq<Option<real>>, k: nat)
    requires k < |av|
    requires forall i, j :: 0 <= i < |av| && 0 <= j < |av| ==> !Greater(av[i], av[j])
    ensures WinsOf(av, k) == k
  {
    CountBeatenNone(av, k, k + 1, |av|);
    CountNotBeatingAll(av, k, k);
  }

  /** With every average present, model i fails to beat model k exactly when k beats i, for distinct averages. */
  lemma {:induction false} NotBeatingIsBeaten(av: seq<Option<real>>, k: nat, hi: nat)
    requires k < |av| && hi <= |av|
    requires forall i :: 0 <= i < |av| ==> av[i].Some?
    requires forall i :: 0 <= i < hi ==> av[i] != av[k]
    ensures CountNotBeating(av, k, hi) == CountBeaten(av, k, 0, hi)
  {
    if hi > 0 {
      NotBeatingIsBeaten(av, k, hi - 1);
    }
  }

  /** Every average is present and no two models share one. */
  ghost predicate PresentAndDistinct(av: seq<Option<real>>) {
    && (forall i :: 0 <= i < |av| ==> av[i].Some?)
    && forall i, j :: 0 <= i < j < |av| ==> av[i].value != av[j].value
  }

  /**
   * With all averages present and distinct, a model's wins are the number of
   * models with a strictly smaller average.
   */
  lemma DistinctWins(av: seq<Option<real>>, k: nat)
    requires k < |av| && PresentAndDistinct(av)
    ensures WinsOf(av, k) == |set j | 0 <= j < |av| && av[j].value < av[k].value|
  {
    forall i | 0 <= i < k ensures av[i] != av[k] {
      assert av[i].value != av[k].value;
    }
    NotBeatingIsBeaten(av, k, k);
    CountBeatenSplit(av, k, 0, k, |av|);
    CountBeatenSplit(av, k, k, k + 1, |av|);
    CountBeatenIsSet(av, k, 0, |av|);
  }

  /** The count of beaten opponents is the size of the set of opponents with a smaller (present) average. */
  lemma {:induction false} CountBeatenIsSet(av: seq<Option<real>>, k: nat, lo: nat, hi: nat)
    requires k < |av| && lo <= hi <= |av|
    requires forall i :: 0 <= i < |av| ==> av[i].Some?
    ensures CountBeaten(av, k, lo, hi) == |set j | lo <= j < hi && av[j].value < av[k].value|
  {
    if hi > lo {
      CountBeatenIsSet(av, k, lo, hi - 1);
      var prev := set j | lo <= j < hi - 1 && av[j].value < av[k].value;
      var now := set j | lo <= j < hi && av[j].value < av[k].value;
      if av[hi - 1].value < av[k].value {
        assert now == prev + {hi - 1};
      } else {
        assert now == prev;
      }
    }
  }

  /** A model whose average strictly beats every other one wins all n - 1 of its comparisons. */
  lemma StrictMaxWinsAll(av: seq<Option<real>>, k: nat)
    requires k < |av|
    requires forall j :: 0 <= j < |av| && j != k ==> Greater(av[k], av[j])
    ensures WinsOf(av, k) == |av| - 1
  {
    CountBeatenAll(av, k, k + 1, |av|);
    forall i | 0 <= i < k ensures !Greater(av[i], av[k]) {
      assert Greater(av[k], av[i]);
    }
    CountNotBeatingAll(av, k, k);
  }

  /** ... and every other model wins fewer. */
  lemma StrictMaxOthersFewer(av: seq<Option<real>>, k: nat, j: nat)
    requires k < |av| && j < |av| && j != k
    requires Greater(av[k], av[j])
    ensures WinsOf(av, j) < |av| - 1
  {
    if j < k {
      assert !Greater(av[j], av[k]);
      CountBeatenMissOne(av, j, j + 1, |av|, k);
      CountNotBeatingBounded(av, j, j);
    } else {
      CountBeatenBounded(av, j, j + 1, |av|);
      CountNotBeatingMissOne(av, j, j, k);
    }
  }

  // ---- every pair awards exactly one point ----

  /** Points of the pair (i, j) held by models 0 .. m-1. */
  function PointSum(av: seq<Option<real>>, i: nat, j: nat, m: nat): nat
    requires i < |av| && j < |av| && m <= |av|
  {
    if m == 0 then 0 else PointSum(av, i, j, m - 1) + Point(av, i, j, m - 1)
  }

  /** Row gains of models 0 .. m-1. */
  function GainSum(av: seq<Option<real>>, i: nat, j: nat, m: nat): nat
    requires i < |av| && j <= |av| && m <= |av|
  {
    if m == 0 then 0 else GainSum(av, i, j, m - 1) + RowGain(av, i, j, m - 1)
  }

  /** Points of models 0 .. m-1 after the first i rows. */
  function RowsSum(av: seq<Option<real>>, i: nat, m: nat): nat
    requires i <= |av| && m <= |av|
  {
    if m == 0 then 0 else RowsSum(av, i, m - 1) + RowsGain(av, i, m - 1)
  }

  /** Wins of models 0 .. m-1. */
  function WinsSum(av: seq<Option<real>>, m: nat): nat
    requires m <= |av|
  {
    if m == 0 then 0 else WinsSum(av, m - 1) + WinsOf(av, m - 1)
  }

  /** 0 + 1 + ... + (n - 1). */
  function Triangle(n: nat): nat {
    if n == 0 then 0 else Triangle(n - 1) + (n - 1)
  }

  lemma {:induction false} TriangleClosed(n: nat)
    ensures 2 * Triangle(n) == n * (n - 1)
  {
    if n > 0 {
      TriangleClosed(n - 1);
    }
  }

  lemma {:induction false} PointSumWinner(av: seq<Option<real>>, i: nat, j: nat, m: nat)
    requires i < j < |av| && m <= |av|
    ensures PointSum(av, i, j, m) == if (if Greater(av[i], av[j]) then i else j) < m then 1 else 0
  {
    if m > 0 {
      PointSumWinner(av, i, j, m - 1);
    }
  }

  lemma {:induction false} GainSumEmptyRow(av: seq<Option<real>>, i: nat, m: nat)
    requires i < |av| && m <= |av|
    ensures GainSum(av, i, i + 1, m) == 0
  {
    if m > 0 {
      GainSumEmptyRow(av, i, m - 1);
    }
  }

  lemma {:induction false} GainSumStep(av: seq<Option<real>>, i: nat, j: nat, m: nat)
    requires i + 1 < j <= |av| && m <= |av|
    ensures GainSum(av, i, j, m) == GainSum(av, i, j - 1, m) + PointSum(av, i, j - 1, m)
  {
    if m > 0 {
      GainSumStep(av, i, j, m - 1);
    }
  }

  /** Row i hands out one point per pair (i, i+1) .. (i, j-1). */
  lemma {:induction false} GainSumRow(av: seq<Option<real>>, i: nat, j: nat)
    requires i < j <= |av|
    ensures GainSum(av, i, j, |av|) == j - i - 1
  {
    if j == i + 1 {
      GainSumEmptyRow(av, i, |av|);
    } else {
      GainSumRow(av, i, j - 1);
      GainSumStep(av, i, j, |av|);
      PointSumWinner(av, i, j - 1, |av|);
    }
  }

  lemma {:induction false} RowsSumStep(av: seq<Option<real>>, i: nat, m: nat)
    requires 0 < i <= |av| && m <= |av|
    ensures RowsSum(av, i, m) == RowsSum(av, i - 1, m) + GainSum(av, i - 1, |av|, m)
  {
    if m > 0 {
      RowsSumStep(av, i, m - 1);
    }
  }

  lemma {:induction false} RowsSumStart(av: seq<Option<real>>, m: nat)
    requires m <= |av|
    ensures RowsSum(av, 0, m) == 0
  {
    if m > 0 {
      RowsSumStart(av, m - 1);
    }
  }

  /** The first i rows hand out (n-1) + (n-2) + ... + (n-i) points. */
  lemma {:induction false} RowsSumPairs(av: seq<Option<real>>, i: nat)
    requires i <= |av|
    ensures RowsSum(av, i, |av|) + Triangle(|av| - i) == Triangle(|av|)
  {
    if i == 0 {
      RowsSumStart(av, |av|);
    } else {
      RowsSumPairs(av, i - 1);
      RowsSumStep(av, i, |av|);
      GainSumRow(av, i - 1, |av|);
    }
  }

  lemma {:induction false} WinsSumIsRowsSum(av: seq<Option<real>>, m: nat)
    requires m <= |av|
    ensures WinsSum(av, m) == RowsSum(av, |av|, m)
  {
    if m > 0 {
      WinsSumIsRowsSum(av, m - 1);
      RowsGainIsWins(av, m - 1);
    }
  }

  /** Every unordered pair awards exactly one win: the n models' wins add up to n(n-1)/2. */
  lemma WinsTotal(av: seq<Option<real>>)
    ensures 2 * WinsSum(av, |av|) == |av| * (|av| - 1)
  {
    WinsSumIsRowsSum(av, |av|);
    RowsSumPairs(av, |av|);
    TriangleClosed(|av|);
  }

  /** Averages A = 0.81, B = 0.825, C = 0.75 in sorted order [A, B, C]: B beats both, A beats C. */
  lemma ThreeModelExample()
    ensures var av := [Some(0.81), Some(0.825), Some(0.75)];
      WinsOf(av, 0) == 1 && WinsOf(av, 1) == 2 && WinsOf(av, 2) == 0
  {
    var av := [Some(0.81), Some(0.825), Some(0.75)];
    assert CountBeaten(av, 0, 1, 2) == 0;
    assert CountBeaten(av, 1, 2, 2) == 0;
    assert CountNotBeating(av, 1, 1) == 1;
    assert CountNotBeating(av, 2, 2) == CountNotBeating(av, 2, 1);
  }
}
