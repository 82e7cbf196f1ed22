# YOLO model ranking, modelled in Dafny

This project models the model-ranking pipeline of the oyster-detection research
scripts under `ModelResearch/YoloTesting/`. Its input is a metrics table: one row per
(model, dataset) evaluation, holding Precision, Recall, mAP@0.5, mAP@0.5:0.95 and
optional speed columns. The model covers four scripts:

- `YoloCompareAll.py` validates every trained model on every dataset yaml that
  exists and builds the master metrics table. It derives the model and dataset
  names, the per-image times and the FPS. It then sorts the table by dataset
  ascending and mAP@0.5:0.95 descending (module `Evaluation`). The YOLO library
  is a parameter, `validate(path, yaml)`, and so is the file-existence test.
- `YoloBets.py` ranks the models by pairwise wins (modules `MetricsTable`,
  `WinRanking`, `BetsRanking`):
  - it keeps the models that occur in every dataset, as a sorted intersection;
  - it averages each metric over datasets, using the first value per dataset;
  - it counts, for every unordered pair, which model has the greater average
    primary metric, with a tie going to the later model;
  - it sorts by (wins, average primary, tie-breakers…) in descending order.
- `YoloPCA.py` ranks the same averages by a first-principal-component score
  (module `Pc1Ranking`). The fitted PCA is a parameter.
- `YoloEmb.py` does the following (module `IdealDistance`):
  - pivots the table into one feature per (metric, dataset);
  - drops incomplete models;
  - embeds each model and an all-ones "ideal" vector with the same fitted scaler
    and PCA (a parameter);
  - ranks by distance to the ideal.

Shared pieces:

- `Basics`: `Option`, `Result` and the failures at which a script stops.
- `Ordering`: Python's order on strings and on tuples of numbers.
- `Sorting`: a stable insertion sort, as a function and as an in-place array
  method.
- `Paths`: Windows `os.path` `split`/`splitext` and `str.replace`.

The pipeline is modelled in the form of the source:

- Loops that fill dictionaries and lists become methods with loop invariants.
  Examples are `model_stats`, `wins` and `results` in `YoloBets.py`, `rows` in
  `YoloPCA.py`, and `results_list` and `all_results` in `YoloCompareAll.py`.
  Each such method is proved equal to a specification function, and the
  properties are lemmas about that function.
- `YoloEmb.py` is a chain of expressions, so it becomes functions and lemmas.

Where the design notes and the code disagree, the model follows the code:

- `groupby('Dataset')[col].first()` takes the first **non-missing** value of the
  column in each group, not the value of the first row. A later duplicate row
  therefore matters when the earlier rows' cells are missing (`MetricsTable.FirstValue`).
- In `evaluate_models`, `YOLO(path)` and `.to(device)` lie outside the `try`. A
  model that cannot be loaded therefore ends the whole run. Only failures during
  validation are skipped (`Evaluation.Evaluated`).
- `YoloCompareAll.py`'s docstring says the results are sorted by mAP@0.5 in
  ascending order. The code sorts the master table by Dataset ascending, then
  mAP@0.5:0.95 descending (`Evaluation.MasterBefore`).
- `YoloPCA.py` has no check for an empty intersection. That case surfaces as
  the failure of `set_index('Model')` on an empty frame (`Failure.EmptyAggregate`).
- `YoloCompareAll.py`'s per-dataset `sort_values` fails on an empty frame. A
  dataset on which no model validates therefore ends the run (`Failure.NoRecords`).

## Model

| member | source | states |
|---|---|---|
| MetricsTable.Coerce | ModelResearch/YoloTesting/YoloPCA.py:18-19 | a cell becomes missing exactly when it is not a number, never an error; a number is kept |
| MetricsTable.MissingRequired | ModelResearch/YoloTesting/YoloBets.py:29-30 | no column is reported exactly when every required metric is in the header; a reported column is required and absent (the KeyError) |
| MetricsTable.Unique | ModelResearch/YoloTesting/YoloBets.py:33 | `unique()` holds exactly the values of the column, each once; UniqueOrder states their order |
| MetricsTable.UniqueAppendSeen | ModelResearch/YoloTesting/YoloBets.py:33 | a value seen before adds nothing to `unique()` |
| MetricsTable.FirstIndex | ModelResearch/YoloTesting/YoloBets.py:33 | the position where a value first appears: it holds the value and nothing before it does |
| MetricsTable.UniqueOrder | ModelResearch/YoloTesting/YoloBets.py:33 | `unique()` lists the values in the order of their first appearance in the column |
| MetricsTable.DistinctMultiset | ModelResearch/YoloTesting/YoloBets.py:36 | a sequence has no repeats exactly when every value occurs at most once in its multiset |
| MetricsTable.DistinctPermutation | ModelResearch/YoloTesting/YoloBets.py:86 | a reordering of a repeat-free sequence is repeat-free |
| MetricsTable.DatasetColumn | ModelResearch/YoloTesting/YoloBets.py:33 | the Dataset column, row by row |
| MetricsTable.ModelColumn | ModelResearch/YoloTesting/YoloEmb.py:18 | the Model column, row by row |
| MetricsTable.IntersectionMembers | ModelResearch/YoloTesting/YoloBets.py:36 | a model is in the intersection exactly when it is in every set |
| MetricsTable.ModelSets | ModelResearch/YoloTesting/YoloBets.py:35 | one set per distinct dataset, in order, holding the models of that dataset's rows |
| MetricsTable.DatasetsMembers | ModelResearch/YoloTesting/YoloBets.py:33 | a dataset is listed exactly when some row names it |
| MetricsTable.InAllSetsIsInEveryDataset | ModelResearch/YoloTesting/YoloBets.py:35-36 | a model in every per-dataset set has a row on every dataset |
| MetricsTable.InEveryDatasetIsInAllSets | ModelResearch/YoloTesting/YoloBets.py:35-36 | a model with a row on every dataset is in every per-dataset set |
| MetricsTable.CommonModelsSpec | ModelResearch/YoloTesting/YoloBets.py:33-36 | the intersection fails (TypeError) exactly on an empty table; otherwise a model is in it exactly when it has a row on every dataset |
| MetricsTable.CommonModels | ModelResearch/YoloTesting/YoloBets.py:33-36 | `set.intersection(*models_per_dataset)`, a TypeError when there is no dataset; CommonModelsSpec states its members |
| MetricsTable.KeepIn | ModelResearch/YoloTesting/YoloPCA.py:24 | the filter keeps exactly the elements in the set and keeps them repeat-free |
| MetricsTable.StrLessIsWeak | ModelResearch/YoloTesting/YoloBets.py:36 | Python's string order is a strict weak order, so `sorted` is well defined |
| MetricsTable.ValidModelsSpec | ModelResearch/YoloTesting/YoloPCA.py:22-24 | `valid_models` fails exactly on an empty table; otherwise it is strictly ascending, repeat-free, and holds exactly the models found in every dataset |
| MetricsTable.ValidModels | ModelResearch/YoloTesting/YoloPCA.py:22-24 | `sorted(set.intersection(...))`; ValidModelsSpec states that it is ascending, repeat-free and holds exactly the models in every dataset |
| MetricsTable.FirstValueSpec | ModelResearch/YoloTesting/YoloBets.py:56 | the group's first value is missing exactly when no row of the pair holds a number; otherwise it is the value of the earliest row that holds one |
| MetricsTable.FirstValueIgnoresLaterRows | ModelResearch/YoloTesting/YoloBets.py:56 | once a pair has a value, appended rows do not change it |
| MetricsTable.FirstValueOtherRow | ModelResearch/YoloTesting/YoloBets.py:56 | a row of another (model, dataset) pair does not change this pair's value |
| MetricsTable.FirstValue | ModelResearch/YoloTesting/YoloBets.py:56 | `groupby('Dataset')[col].first()` for one model and dataset; FirstValueSpec states that it is the earliest number of the pair |
| MetricsTable.Present | ModelResearch/YoloTesting/YoloBets.py:56 | the present values are no more than the values |
| MetricsTable.PresentEmpty | ModelResearch/YoloTesting/YoloBets.py:56 | no value is present exactly when every value is missing |
| MetricsTable.PresentBounds | ModelResearch/YoloTesting/YoloBets.py:56 | present values keep the bounds of the values |
| MetricsTable.MeanPresent | ModelResearch/YoloTesting/YoloBets.py:56 | the NaN-skipping `mean()`; MeanPresentSpec states when it is missing and its bounds |
| MetricsTable.SumBounds | ModelResearch/YoloTesting/YoloBets.py:56 | a sum of n values in [lo, hi] lies in [n·lo, n·hi] |
| MetricsTable.DivideBounds | ModelResearch/YoloTesting/YoloBets.py:56 | dividing such a sum by n gives a value in [lo, hi] |
| MetricsTable.MeanPresentSpec | ModelResearch/YoloTesting/YoloBets.py:56 | `mean()` is missing exactly when every value is missing, and otherwise lies within the bounds of the present values |
| MetricsTable.MeanBounds | ModelResearch/YoloTesting/YoloBets.py:56 | the mean of a non-empty list of numbers lies within any bounds of its elements |
| MetricsTable.RowsOf | ModelResearch/YoloTesting/YoloBets.py:52 | `df[df['Model'] == m]` holds exactly the rows of model m |
| MetricsTable.DuplicateRowIgnored | ModelResearch/YoloTesting/YoloBets.py:56-59 | a later duplicate row of a pair whose value is known leaves the model's average unchanged |
| MetricsTable.FirstValueAfterKnown | ModelResearch/YoloTesting/YoloBets.py:56 | such a row leaves every first value of the model unchanged |
| MetricsTable.SeenDatasetsUnchanged | ModelResearch/YoloTesting/YoloBets.py:56 | such a row adds no group to the groupby |
| MetricsTable.EvaluatedDatasetSeen | ModelResearch/YoloTesting/YoloBets.py:56 | a dataset the model has a row for is one of its groups |
| MetricsTable.FirstPerDataset | ModelResearch/YoloTesting/YoloBets.py:56 | one first value per dataset the model has rows for, in order of first appearance |
| MetricsTable.GroupMean | ModelResearch/YoloTesting/YoloBets.py:56 | `subset.groupby('Dataset')[col].first().mean()`; GroupMeanMissing and GroupMeanBounds state its meaning |
| MetricsTable.GroupMeanMissing | ModelResearch/YoloTesting/YoloPCA.py:31 | a model's average is missing exactly when none of its rows holds a number in that column |
| MetricsTable.GroupMeanBounds | ModelResearch/YoloTesting/YoloPCA.py:31 | averages of values in [lo, hi] lie in [lo, hi] |
| WinRanking.PresentSpeed | ModelResearch/YoloTesting/YoloBets.py:22-26 | `present_speed` holds exactly the speed metrics in the header, in their declared order |
| WinRanking.Without | ModelResearch/YoloTesting/YoloBets.py:47 | the filter keeps exactly the elements other than the excluded one |
| WinRanking.TieBreakers | ModelResearch/YoloTesting/YoloBets.py:47 | the tie-breakers: the required metrics without the primary one; TieBreakersAre states the list |
| WinRanking.TieBreakersAre | ModelResearch/YoloTesting/YoloBets.py:19-47 | the tie-breakers are mAP@0.5, Precision, Recall, in that order |
| WinRanking.SpeedAverageAbsent | ModelResearch/YoloTesting/YoloBets.py:62-64 | a speed average is None exactly when the table lacks that column |
| WinRanking.StatsOf | ModelResearch/YoloTesting/YoloBets.py:50-64 | one entry of `model_stats`: the averaged primary metric, tie-breakers and present speed columns |
| WinRanking.BuildStats | ModelResearch/YoloTesting/YoloBets.py:50-66 | `model_stats` has exactly the valid models as keys, each with its averages |
| WinRanking.Averages | ModelResearch/YoloTesting/YoloBets.py:72 | the average primary metric of each valid model, in order |
| WinRanking.WinsOf | ModelResearch/YoloTesting/YoloBets.py:69-75 | the independent count of a model's wins: the later models it strictly beats plus the earlier models that do not strictly beat it; CountWins proves the loops reach it |
| WinRanking.RowGainAfter | ModelResearch/YoloTesting/YoloBets.py:70-75 | an outer iteration for a later model gives model k nothing |
| WinRanking.RowGainOwn | ModelResearch/YoloTesting/YoloBets.py:70-75 | model k's own iteration gives it one point per later model it strictly beats |
| WinRanking.RowGainBefore | ModelResearch/YoloTesting/YoloBets.py:70-75 | an earlier model's iteration gives k a point exactly when that model does not strictly beat k |
| WinRanking.RowsGainCounts | ModelResearch/YoloTesting/YoloBets.py:70-75 | after i outer iterations, model k holds its points against earlier models, plus its own iteration once passed |
| WinRanking.RowsGainIsWins | ModelResearch/YoloTesting/YoloBets.py:70-75 | after the loops each model holds exactly its wins |
| WinRanking.RowTally | ModelResearch/YoloTesting/YoloBets.py:71-75 | the inner loop changes counts only, never the set of models counted |
| WinRanking.Zeros | ModelResearch/YoloTesting/YoloBets.py:69 | `{m: 0 for m in valid_models}` |
| WinRanking.Tally | ModelResearch/YoloTesting/YoloBets.py:70-75 | the nested loops keep the set of models counted |
| WinRanking.RowTallyGain | ModelResearch/YoloTesting/YoloBets.py:71-75 | the inner loop adds to a model's count exactly its points from that iteration |
| WinRanking.TallyGain | ModelResearch/YoloTesting/YoloBets.py:70-75 | the outer loop adds to a model's count exactly its points so far |
| WinRanking.RowTallyKeys | ModelResearch/YoloTesting/YoloBets.py:71-75 | the inner loop only raises counts of models already in `wins`: it adds no key |
| WinRanking.TallyKeys | ModelResearch/YoloTesting/YoloBets.py:69-75 | the nested loops leave `wins` with exactly the keys it started with |
| WinRanking.TallyIsWins | ModelResearch/YoloTesting/YoloBets.py:69-75 | starting from zero, the final counts are every model's wins |
| WinRanking.ScoreRow | ModelResearch/YoloTesting/YoloBets.py:71-75 | the inner loop's dictionary updates equal one row of the tally |
| WinRanking.ScoreAllPairs | ModelResearch/YoloTesting/YoloBets.py:69-75 | the nested loops' dictionary equals the full tally |
| WinRanking.CountWins | ModelResearch/YoloTesting/YoloBets.py:69-75 | `wins` has the valid models as keys and each model's count is its wins: later models it strictly beats plus earlier models that do not strictly beat it |
| WinRanking.WinsBounded | ModelResearch/YoloTesting/YoloBets.py:70-75 | each model has at most n−1 wins |
| WinRanking.CountBeatenBounded | ModelResearch/YoloTesting/YoloBets.py:72-73 | a model beats at most as many models as the range holds |
| WinRanking.CountNotBeatingBounded | ModelResearch/YoloTesting/YoloBets.py:74-75 | at most as many earlier models fail to beat it as there are |
| WinRanking.CountBeatenSplit | ModelResearch/YoloTesting/YoloBets.py:72-73 | counts over adjacent ranges add up |
| WinRanking.CountBeatenMissOne | ModelResearch/YoloTesting/YoloBets.py:72-73 | one opponent not beaten keeps the count below the range size |
| WinRanking.CountNotBeatingMissOne | ModelResearch/YoloTesting/YoloBets.py:74-75 | one earlier opponent that wins keeps the count below the range size |
| WinRanking.CountBeatenAll | ModelResearch/YoloTesting/YoloBets.py:72-73 | beating everyone in a range counts the whole range |
| WinRanking.CountBeatenNone | ModelResearch/YoloTesting/YoloBets.py:72-73 | beating no one in a range counts zero |
| WinRanking.CountNotBeatingAll | ModelResearch/YoloTesting/YoloBets.py:74-75 | when no earlier model beats k, all of them count |
| WinRanking.AllTiedWins | ModelResearch/YoloTesting/YoloBets.py:72-75 | when no average strictly beats another, ties go to the later model, so the k-th model has exactly k wins |
| WinRanking.NotBeatingIsBeaten | ModelResearch/YoloTesting/YoloBets.py:72-75 | with present, distinct averages, not beating k means being beaten by k |
| WinRanking.DistinctWins | ModelResearch/YoloTesting/YoloBets.py:70-75 | with present, distinct averages, a model's wins are the number of models with a strictly smaller average |
| WinRanking.CountBeatenIsSet | ModelResearch/YoloTesting/YoloBets.py:72-73 | the beaten count is the size of the set of smaller averages |
| WinRanking.StrictMaxWinsAll | ModelResearch/YoloTesting/YoloBets.py:70-75 | the strict maximum of the averages wins all n−1 comparisons |
| WinRanking.StrictMaxOthersFewer | ModelResearch/YoloTesting/YoloBets.py:70-75 | every model it beats has fewer than n−1 wins |
| WinRanking.TriangleClosed | ModelResearch/YoloTesting/YoloBets.py:70-71 | 0 + 1 + … + (n−1) = n(n−1)/2 |
| WinRanking.PointSumWinner | ModelResearch/YoloTesting/YoloBets.py:72-75 | each pair gives its one point to exactly one model |
| WinRanking.GainSumEmptyRow | ModelResearch/YoloTesting/YoloBets.py:71 | an empty inner loop hands out nothing |
| WinRanking.GainSumStep | ModelResearch/YoloTesting/YoloBets.py:71-75 | one more inner step hands out that pair's point |
| WinRanking.GainSumRow | ModelResearch/YoloTesting/YoloBets.py:71-75 | the inner loop of model i hands out one point per later model |
| WinRanking.RowsSumStep | ModelResearch/YoloTesting/YoloBets.py:70-75 | one more outer iteration adds its row's points |
| WinRanking.RowsSumStart | ModelResearch/YoloTesting/YoloBets.py:69 | before the loops no point is handed out |
| WinRanking.RowsSumPairs | ModelResearch/YoloTesting/YoloBets.py:70-75 | the first i outer iterations hand out (n−1) + … + (n−i) points |
| WinRanking.WinsSumIsRowsSum | ModelResearch/YoloTesting/YoloBets.py:70-75 | the sum of all wins is the sum of the points handed out |
| WinRanking.WinsTotal | ModelResearch/YoloTesting/YoloBets.py:69-75 | every unordered pair awards exactly one win: the wins add up to n(n−1)/2 |
| WinRanking.ThreeModelExample | ModelResearch/YoloTesting/YoloBets.py:69-75 | averages A=0.81, B=0.825, C=0.75 give wins A=1, B=2, C=0 |
| BetsRanking.RankedBeforeIsWeak | ModelResearch/YoloTesting/YoloBets.py:86 | the descending key order is a strict weak order |
| BetsRanking.TiedIsSameKey | ModelResearch/YoloTesting/YoloBets.py:86 | two results tie in the sort exactly when their keys are equal |
| BetsRanking.Results | ModelResearch/YoloTesting/YoloBets.py:78-83 | one result per valid model |
| BetsRanking.ModelsOf | ModelResearch/YoloTesting/YoloBets.py:83 | the model column of the results, entry by entry |
| BetsRanking.BuildResults | ModelResearch/YoloTesting/YoloBets.py:78-83 | the loop appends, for each valid model in order, its wins, averages and key `(wins, avg_primary) + tuple(avg_tie)` |
| BetsRanking.SortResults | ModelResearch/YoloTesting/YoloBets.py:86 | the in-place sort yields the stable descending sort by key |
| BetsRanking.RankByWins | ModelResearch/YoloTesting/YoloBets.py:29-86 | the script's steps, run in order, yield the specified ranking or its failure |
| BetsRanking.ScoreModels | ModelResearch/YoloTesting/YoloBets.py:50-83 | the statistics, win and results loops over the common models build exactly the specified unsorted results |
| BetsRanking.Ranking | ModelResearch/YoloTesting/YoloBets.py:29-86 | the whole ranking or the failure that stops the script; RankingErrors, RankingIsPermutation, RankingIsSorted and RankingIsStable state its properties |
| BetsRanking.RankingErrors | ModelResearch/YoloTesting/YoloBets.py:29-39 | the run stops on a missing required column, on an empty table (no sets to intersect), or when no model is in every dataset (the explicit exit), and only then; a ranking is never empty |
| BetsRanking.ResultsEntries | ModelResearch/YoloTesting/YoloBets.py:78-83 | the results list the valid models in order, each with its wins, its average primary metric and its key |
| BetsRanking.RankingIsPermutation | ModelResearch/YoloTesting/YoloBets.py:86 | the ranking is a permutation of the results and of `valid_models`, and holds exactly the models found in every dataset |
| BetsRanking.RankingIsSorted | ModelResearch/YoloTesting/YoloBets.py:86 | the ranking is non-increasing in the key (wins, avg_primary, tie-breakers…) |
| BetsRanking.RankingIsStable | ModelResearch/YoloTesting/YoloBets.py:86 | entries with equal keys keep their `valid_models` order |
| BetsRanking.RankingKeysStartWithWins | ModelResearch/YoloTesting/YoloBets.py:82 | every key starts with the model's wins |
| BetsRanking.BestHasGreatestKey | ModelResearch/YoloTesting/YoloBets.py:110 | `results[0]` exists, has the greatest key, and has the most wins |
| BetsRanking.UniqueMostWinsFirst | ModelResearch/YoloTesting/YoloBets.py:86 | a unique holder of the most wins is first in any reordering that puts most wins first |
| BetsRanking.StrictMaxIsBest | ModelResearch/YoloTesting/YoloBets.py:70-110 | a model whose average primary metric strictly beats every other one is reported best |
| BetsRanking.StrictMaxMostWins | ModelResearch/YoloTesting/YoloBets.py:70-75 | that model has strictly more wins than any other |
| Ordering.LexLessIrreflexive | ModelResearch/YoloTesting/YoloBets.py:86 | no tuple is less than itself |
| Ordering.LexLessTransitive | ModelResearch/YoloTesting/YoloBets.py:86 | tuple comparison is transitive |
| Ordering.LexLessTotal | ModelResearch/YoloTesting/YoloBets.py:86 | any two different tuples compare |
| Ordering.LexIsStrictTotalOrder | ModelResearch/YoloTesting/YoloBets.py:86 | lexicographic order over a strict total order is one |
| Ordering.StrLessIsStrictTotalOrder | ModelResearch/YoloTesting/YoloBets.py:36 | Python's string `<` is a strict total order |
| Ordering.OptLessIsStrictTotalOrder | ModelResearch/YoloTesting/YoloBets.py:86 | the order on possibly-missing averages (missing lowest) is a strict total order |
| Ordering.KeyLessIsStrictTotalOrder | ModelResearch/YoloTesting/YoloBets.py:82-86 | key comparison is a strict total order |
| Ordering.KeyLessHead | ModelResearch/YoloTesting/YoloBets.py:82-86 | keys with different first components compare by them |
| Sorting.Insert | ModelResearch/YoloTesting/YoloBets.py:86 | one step of the stable sort: `x` goes after every element it does not precede |
| Sorting.InsertionSort | ModelResearch/YoloTesting/YoloBets.py:86 | the stable sort; SortPermutes, SortSorts and SortIsStable state that it reorders, orders and keeps ties in input order |
| Sorting.InsertPermutes | ModelResearch/YoloTesting/YoloBets.py:86 | inserting adds exactly the inserted element |
| Sorting.InsertKeepsSorted | ModelResearch/YoloTesting/YoloBets.py:86 | inserting into a sorted sequence keeps it sorted |
| Sorting.InsertTiedWith | ModelResearch/YoloTesting/YoloBets.py:86 | inserting keeps the relative order of tied elements |
| Sorting.SortPermutes | ModelResearch/YoloTesting/YoloBets.py:86 | sorting is a permutation |
| Sorting.SortSorts | ModelResearch/YoloTesting/YoloBets.py:86 | the result is sorted |
| Sorting.SortIsStable | ModelResearch/YoloTesting/YoloBets.py:86 | tied elements keep their input order (Python's sort is stable) |
| Sorting.SortLength | ModelResearch/YoloTesting/YoloBets.py:86 | sorting keeps the length |
| Sorting.Project | ModelResearch/YoloTesting/YoloPCA.py:43 | a column of a frame, element by element |
| Sorting.ProjectSnoc | ModelResearch/YoloTesting/YoloPCA.py:43 | the column of an appended row is appended |
| Sorting.ProjectInsert | ModelResearch/YoloTesting/YoloPCA.py:43 | inserting a row adds its value to the column's multiset |
| Sorting.ProjectSort | ModelResearch/YoloTesting/YoloPCA.py:43 | sorting the rows permutes each column |
| Sorting.InsertInPlace | ModelResearch/YoloTesting/YoloBets.py:86 | shifting one element left in the array yields the functional insertion, and the rest of the array is unchanged |
| Sorting.InsertPassesLast | ModelResearch/YoloTesting/YoloBets.py:86 | one shift step of the in-place insertion |
| Sorting.SortInPlace | ModelResearch/YoloTesting/YoloBets.py:86 | `list.sort` in place leaves the array holding the stable sort of its old contents |
| Pc1Ranking.AggregateOf | ModelResearch/YoloTesting/YoloPCA.py:30-34 | a model's row holds, for each required metric in order, its first-per-dataset-then-mean average |
| Pc1Ranking.Aggregates | ModelResearch/YoloTesting/YoloPCA.py:27-35 | one row per valid model |
| Pc1Ranking.Values | ModelResearch/YoloTesting/YoloPCA.py:40 | the numbers of a complete row, in order |
| Pc1Ranking.Matrix | ModelResearch/YoloTesting/YoloPCA.py:40 | one matrix row per aggregated model |
| Pc1Ranking.Scores | ModelResearch/YoloTesting/YoloPCA.py:40 | every row gets a PC1 score |
| Pc1Ranking.HigherScoreIsWeak | ModelResearch/YoloTesting/YoloPCA.py:43 | ordering by descending score is a strict weak order |
| Pc1Ranking.AggregateRows | ModelResearch/YoloTesting/YoloPCA.py:27-35 | the loop appends the aggregate of each valid model, in order |
| Pc1Ranking.CheckComplete | ModelResearch/YoloTesting/YoloPCA.py:40 | the check succeeds exactly when no average is missing |
| Pc1Ranking.RankByPc1 | ModelResearch/YoloTesting/YoloPCA.py:17-43 | the script's steps, run in order, yield the specified ranking or its failure |
| Pc1Ranking.Pc1Ranking | ModelResearch/YoloTesting/YoloPCA.py:17-43 | the PC1 ranking or the failure that stops the script; Pc1RankingErrors, Pc1RankingIsPermutation and Pc1RankingIsSorted state its properties |
| Pc1Ranking.Pc1RankingErrors | ModelResearch/YoloTesting/YoloPCA.py:18-40 | the run stops exactly on a missing required column, an empty table, no model in every dataset (no explicit check; the empty frame fails), or a common model with no number for some metric (PCA rejects NaN) |
| Pc1Ranking.AggregatesComplete | ModelResearch/YoloTesting/YoloPCA.py:27-40 | the averages are complete exactly when no common model lacks every number for some metric |
| Pc1Ranking.IncompleteHasMissing | ModelResearch/YoloTesting/YoloPCA.py:27-40 | a missing average comes from a common model with no number at all for that metric |
| Pc1Ranking.MissingMakesIncomplete | ModelResearch/YoloTesting/YoloPCA.py:27-40 | a common model with no number for a metric leaves that average missing |
| Pc1Ranking.Pc1RankingIsPermutation | ModelResearch/YoloTesting/YoloPCA.py:40-43 | the output is a permutation of the scored rows, with one row per model found in every dataset |
| Pc1Ranking.Pc1RankingIsSorted | ModelResearch/YoloTesting/YoloPCA.py:43 | scores are non-increasing |
| Pc1Ranking.ScoresSpec | ModelResearch/YoloTesting/YoloPCA.py:30-40 | scored row k is valid model k with its averages and the PC1 score of matrix row k |
| Pc1Ranking.RankedRowOrigin | ModelResearch/YoloTesting/YoloPCA.py:43 | every output row is a scored row |
| Pc1Ranking.Pc1RankingRows | ModelResearch/YoloTesting/YoloPCA.py:30-43 | every output row carries its model's averages and its own PC1 score |
| Pc1Ranking.Pc1RankingMetricBounds | ModelResearch/YoloTesting/YoloPCA.py:31 | with metrics in [0, 1], the printed averages lie in [0, 1] |
| Pc1Ranking.OutputPath | ModelResearch/YoloTesting/YoloPCA.py:50 | `splitext(path)[0] + '_PC1_ranking.csv'`; Paths.WithSuffixSpec states that this is the input path with its extension replaced, in the same directory |
| IdealDistance.MetricFeatures | ModelResearch/YoloTesting/YoloEmb.py:18 | one feature per dataset for a metric, in order |
| IdealDistance.RowFor | ModelResearch/YoloTesting/YoloEmb.py:18 | a found row belongs to the pair; none is found only when no row has the pair |
| IdealDistance.Retained | ModelResearch/YoloTesting/YoloEmb.py:20 | `dropna` keeps exactly the models with every feature, in ascending order |
| IdealDistance.FeatureRow | ModelResearch/YoloTesting/YoloEmb.py:23 | a model's feature vector holds its pivot cells, feature by feature |
| IdealDistance.FeatureMatrix | ModelResearch/YoloTesting/YoloEmb.py:23-24 | `X` has one row per retained model, each its feature vector |
| IdealDistance.Ones | ModelResearch/YoloTesting/YoloEmb.py:35 | the ideal has the row length and every entry 1.0 |
| IdealDistance.SquaredNorm | ModelResearch/YoloTesting/YoloEmb.py:40 | a squared norm is non-negative and zero at the origin |
| IdealDistance.SquaredDistance | ModelResearch/YoloTesting/YoloEmb.py:40 | a squared distance is non-negative and zero from a point to itself |
| IdealDistance.SquaredDistanceSymmetric | ModelResearch/YoloTesting/YoloEmb.py:40 | the distance from p to q is the distance from q to p |
| IdealDistance.Placements | ModelResearch/YoloTesting/YoloEmb.py:32-47 | each retained model gets the embedding of its own row and the distance to the embedding of the ideal, under the same fit |
| IdealDistance.FeaturesLength | ModelResearch/YoloTesting/YoloEmb.py:18-19 | there are (number of metrics) × (number of datasets) features |
| IdealDistance.FeaturesMembers | ModelResearch/YoloTesting/YoloEmb.py:18-19 | a feature is a column exactly when its metric and its dataset are labels |
| IdealDistance.FeaturesOrder | ModelResearch/YoloTesting/YoloEmb.py:18-19 | the columns are metric-major: metric a on dataset b is column a × (number of datasets) + b |
| IdealDistance.ParseFeatureNameInverse | ModelResearch/YoloTesting/YoloEmb.py:19 | a `metric_dataset` label of a required metric reads back into its feature |
| IdealDistance.FeatureNamesDistinct | ModelResearch/YoloTesting/YoloEmb.py:19 | different features get different labels |
| IdealDistance.SortedLabelsSpec | ModelResearch/YoloTesting/YoloEmb.py:18 | pivot labels are the distinct values, each once, ascending |
| IdealDistance.RowForUnique | ModelResearch/YoloTesting/YoloEmb.py:18 | without duplicate pairs, a pivot cell comes from the one row of its pair |
| IdealDistance.PivotCellPresent | ModelResearch/YoloTesting/YoloEmb.py:14-18 | a pivot cell is present exactly when the pair's row holds a number for the metric |
| IdealDistance.TableFeaturesMembers | ModelResearch/YoloTesting/YoloEmb.py:13-19 | the features are the required metrics on the datasets that occur |
| IdealDistance.CompleteHasAllFeatures | ModelResearch/YoloTesting/YoloEmb.py:20 | a complete model has every feature |
| IdealDistance.HasAllFeaturesComplete | ModelResearch/YoloTesting/YoloEmb.py:20 | a model with every feature is complete |
| IdealDistance.Kept | ModelResearch/YoloTesting/YoloEmb.py:18-20 | the models `dropna` keeps, in the pivot index order; KeptSpec states which they are |
| IdealDistance.KeptSpec | ModelResearch/YoloTesting/YoloEmb.py:14-20 | a model survives `dropna` exactly when it has a number for every required metric on every dataset; survivors are ascending and unique |
| IdealDistance.IdealRankingErrors | ModelResearch/YoloTesting/YoloEmb.py:15-32 | the run stops exactly on a missing required column, a (Model, Dataset) pair in two rows (pivot refuses it), or fewer than two complete models (two-component PCA) |
| IdealDistance.IdealRanking | ModelResearch/YoloTesting/YoloEmb.py:13-48 | the distance ranking or the failure that stops the script; IdealRankingErrors, IdealRankingIsPermutation, IdealRankingIsSorted and IdealRankingRows state its properties |
| IdealDistance.TwoKept | ModelResearch/YoloTesting/YoloEmb.py:20-32 | at least two models survive exactly when two different models are complete |
| IdealDistance.IdealRankingIsPermutation | ModelResearch/YoloTesting/YoloEmb.py:43-48 | the output is a permutation of the unsorted frame, with one row per complete model |
| IdealDistance.NearerIsWeak | ModelResearch/YoloTesting/YoloEmb.py:48 | ordering by ascending distance is a strict weak order |
| IdealDistance.IdealRankingIsSorted | ModelResearch/YoloTesting/YoloEmb.py:48 | distances are non-decreasing, so the first row is nearest the ideal |
| IdealDistance.IdealRankingRows | ModelResearch/YoloTesting/YoloEmb.py:35-47 | every output row is a complete model whose point is the embedding of its own row, and whose non-negative distance is to the embedding of the all-ones vector with one entry per feature, under the same fit |
| IdealDistance.KeptMatrixRow | ModelResearch/YoloTesting/YoloEmb.py:23 | row k of X holds the pivot cells of the k-th surviving model |
| IdealDistance.OutputPath | ModelResearch/YoloTesting/YoloEmb.py:55 | `splitext(path)[0] + '_PCA_distances.csv'`; Paths.WithSuffixSpec states that this is the input path with its extension replaced, in the same directory |
| Paths.TailStart | ModelResearch/YoloTesting/YoloCompareAll.py:36 | the last component starts after the last separator and holds none |
| Paths.StripSeps | ModelResearch/YoloTesting/YoloCompareAll.py:36 | stripping removes exactly the trailing separators |
| Paths.Split | ModelResearch/YoloTesting/YoloCompareAll.py:36 | ntpath `split`; SplitSpec states the head, the separators and the separator-free tail |
| Paths.Dirname | ModelResearch/YoloTesting/YoloCompareAll.py:36 | `os.path.dirname`: the head of `split` |
| Paths.Basename | ModelResearch/YoloTesting/YoloCompareAll.py:36 | `os.path.basename`: the tail of `split` |
| Paths.SplitSpec | ModelResearch/YoloTesting/YoloCompareAll.py:36 | `split` cuts a path into a head prefix, separators and a separator-free last component |
| Paths.TailStartAppend | ModelResearch/YoloTesting/YoloPCA.py:50 | appending text without a separator keeps the last component's start |
| Paths.LastDot | ModelResearch/YoloTesting/YoloPCA.py:50 | the last dot, and no dot after it |
| Paths.SplitExt | ModelResearch/YoloTesting/YoloPCA.py:50 | ntpath `splitext`; SplitExtSpec states the root, the extension and when the extension is empty |
| Paths.SplitExtSpec | ModelResearch/YoloTesting/YoloPCA.py:50 | root plus extension is the path; the extension is empty or a dot with no dot or separator after it, and is non-empty exactly when the last component has a dot after another character |
| Paths.WithSuffix | ModelResearch/YoloTesting/YoloPCA.py:50 | `os.path.splitext(p)[0] + suffix`; WithSuffixSpec states its meaning |
| Paths.WithSuffixSpec | ModelResearch/YoloTesting/YoloPCA.py:50 | the suffix replaces only the extension, so the file stays in the same directory |
| Paths.Replace | ModelResearch/YoloTesting/YoloCompareAll.py:46 | `str.replace`; ReplaceAbsent and ReplaceFirst together state what it does to every string |
| Paths.ReplaceAbsent | ModelResearch/YoloTesting/YoloCompareAll.py:46 | without an occurrence of the target, `replace` changes nothing |
| Paths.ReplaceFirst | ModelResearch/YoloTesting/YoloCompareAll.py:46 | the leftmost occurrence of the target becomes the replacement, the text before it is kept, and replacing goes on after it |
| Paths.ReplaceChars | ModelResearch/YoloTesting/YoloCompareAll.py:46 | every character of the result comes from the input or from the replacement |
| Paths.ReplaceKeepsSeparatorFree | ModelResearch/YoloTesting/YoloCompareAll.py:44-46 | a separator-free name stays separator-free after replacing with separator-free text |
| Paths.ReplaceYoloPrefix | ModelResearch/YoloTesting/YoloCompareAll.py:46 | output text made of characters outside `YOLOv` comes from the same input text |
| Paths.ReplaceYoloLeavesNone | ModelResearch/YoloTesting/YoloCompareAll.py:46 | after replacing, no `yolo` is left, not even one formed across a replacement |
| Evaluation.DatasetName | ModelResearch/YoloTesting/YoloCompareAll.py:36 | `os.path.basename(os.path.dirname(data_yaml))`; DatasetNameIsComponent states its meaning |
| Evaluation.DatasetNameIsComponent | ModelResearch/YoloTesting/YoloCompareAll.py:36 | the dataset name is the last component of the yaml's directory: it ends that directory, follows a separator or starts it, and holds no separator |
| Evaluation.ModelName | ModelResearch/YoloTesting/YoloCompareAll.py:44-46 | the grandparent directory's name with `yolo` written `YOLOv`; ModelNameIsComponent states its meaning |
| Evaluation.ModelNameIsComponent | ModelResearch/YoloTesting/YoloCompareAll.py:44-46 | the model name is `replace('yolo', 'YOLOv')` of the last component of the directory two levels above the weights file; that directory is a prefix of the path, and neither the component nor the name holds a separator |
| Evaluation.ModelNameHasNoYolo | ModelResearch/YoloTesting/YoloCompareAll.py:44-46 | a model name never contains `yolo`: every occurrence in the grandparent directory was rewritten |
| Evaluation.StageTime | ModelResearch/YoloTesting/YoloCompareAll.py:56-58 | `results.speed.get(stage, 0)` |
| Evaluation.TotalTime | ModelResearch/YoloTesting/YoloCompareAll.py:60 | the sum of the three stage times |
| Evaluation.Fps | ModelResearch/YoloTesting/YoloCompareAll.py:63 | FPS is never negative; for a positive total it is positive and FPS × total = 1000; otherwise it is 0 |
| Evaluation.MakeRecord | ModelResearch/YoloTesting/YoloCompareAll.py:65-77 | the dict appended for a successful validation; RecordTimes states its fields (rounding left out) |
| Evaluation.RecordTimes | ModelResearch/YoloTesting/YoloCompareAll.py:56-77 | a record's total is the sum of its three stage times (missing ones counting 0); FPS × total = 1000 when the total is positive, else FPS is 0; the metrics are copied |
| Evaluation.Evaluated | ModelResearch/YoloTesting/YoloCompareAll.py:33-85 | `evaluate_models` as a function of the models, the yaml and the validator; its lemmas follow |
| Evaluation.AfterModel | ModelResearch/YoloTesting/YoloCompareAll.py:42-83 | one pass of the loop over the models |
| Evaluation.EvaluatedSnoc | ModelResearch/YoloTesting/YoloCompareAll.py:42-83 | one more model: a load failure ends the run, a validation failure adds nothing, a success appends its record |
| Evaluation.EvaluatedErrorPersists | ModelResearch/YoloTesting/YoloCompareAll.py:49-50 | after a load failure the remaining models change nothing |
| Evaluation.EvaluateModels | ModelResearch/YoloTesting/YoloCompareAll.py:33-85 | the loop of `evaluate_models` yields the specified records or the load failure |
| Evaluation.ValidatedModelsMembers | ModelResearch/YoloTesting/YoloCompareAll.py:51-83 | the validated models are exactly the models whose validation succeeded |
| Evaluation.EvaluatedWhenAllLoad | ModelResearch/YoloTesting/YoloCompareAll.py:42-85 | when every model loads, the result is one record per validated model, in order, built from its measurements; failed validations are skipped and later models still evaluated |
| Evaluation.EvaluatedFirstFailure | ModelResearch/YoloTesting/YoloCompareAll.py:49-50 | the first model that cannot be loaded ends `evaluate_models` with its error |
| Evaluation.EvaluatedOkLoadsAll | ModelResearch/YoloTesting/YoloCompareAll.py:49-50 | `evaluate_models` returns only when every model loaded |
| Evaluation.EvaluatedRecords | ModelResearch/YoloTesting/YoloCompareAll.py:42-85 | every returned record has the yaml's dataset name and belongs to a validated model, and every validated model has its record there |
| Evaluation.ValidatedRecordOf | ModelResearch/YoloTesting/YoloCompareAll.py:65-77 | the record of a validated model names the yaml's dataset |
| Evaluation.Collected | ModelResearch/YoloTesting/YoloCompareAll.py:116-130 | `all_results` as a function of the yamls; its lemmas follow |
| Evaluation.CollectedSnoc | ModelResearch/YoloTesting/YoloCompareAll.py:119-130 | one more yaml: a missing one is skipped, a failure ends the run, an empty frame fails the per-dataset sort, otherwise the frame is appended |
| Evaluation.CollectedErrorPersists | ModelResearch/YoloTesting/YoloCompareAll.py:119-130 | after a failure the remaining yamls change nothing |
| Evaluation.RunComparison | ModelResearch/YoloTesting/YoloCompareAll.py:116-143 | the loop of `main` and the master sort yield the specified table, no table, or the failure |
| Evaluation.CollectedComplete | ModelResearch/YoloTesting/YoloCompareAll.py:119-125 | after a successful collection, every yaml on disk has its non-empty frame collected |
| Evaluation.CollectedSound | ModelResearch/YoloTesting/YoloCompareAll.py:119-125 | every collected frame is the result for a yaml on disk |
| Evaluation.CollectedFailure | ModelResearch/YoloTesting/YoloCompareAll.py:119-129 | a failed collection fails on a yaml on disk, either with that yaml's load failure or because none of its models validated |
| Evaluation.CollectedNothingOnDisk | ModelResearch/YoloTesting/YoloCompareAll.py:119-122 | with no yaml on disk nothing is evaluated |
| Evaluation.CompareAll | ModelResearch/YoloTesting/YoloCompareAll.py:116-162 | the master table, `None` when the run ends without results, or the failure that ends it |
| Evaluation.CompareAllWritesNothing | ModelResearch/YoloTesting/YoloCompareAll.py:139-162 | the run ends without a results file and without an error (the "No results generated" branch) exactly when no dataset yaml exists |
| Evaluation.CompareAllFails | ModelResearch/YoloTesting/YoloCompareAll.py:119-129 | the run fails exactly when some yaml on disk has a model that cannot be loaded, or no model that validates |
| Evaluation.Concat | ModelResearch/YoloTesting/YoloCompareAll.py:140 | `pd.concat(all_results)`: the frames one after another; ConcatMembers states its members |
| Evaluation.MasterBefore | ModelResearch/YoloTesting/YoloCompareAll.py:140-143 | the master order: Dataset ascending, then mAP@0.5:0.95 descending |
| Evaluation.ConcatMembers | ModelResearch/YoloTesting/YoloCompareAll.py:140 | a record is in the concatenation exactly when it is in one of the frames |
| Evaluation.MasterBeforeIsWeak | ModelResearch/YoloTesting/YoloCompareAll.py:140-143 | (Dataset ascending, mAP@0.5:0.95 descending) is a strict weak order |
| Evaluation.MasterTableIsSorted | ModelResearch/YoloTesting/YoloCompareAll.py:140-143 | datasets ascend and, within a dataset, mAP@0.5:0.95 does not increase; ties keep their collected order |
| Evaluation.MasterTableIsPermutation | ModelResearch/YoloTesting/YoloCompareAll.py:140-143 | the master table is a permutation of the concatenated frames |
| Evaluation.FrameRecordFromDisk | ModelResearch/YoloTesting/YoloCompareAll.py:124-125 | a record of a collected frame belongs to a model validated on a yaml on disk |
| Evaluation.MasterTableSound | ModelResearch/YoloTesting/YoloCompareAll.py:119-143 | every row of the master table is the record of a model validated on a yaml on disk |
| Evaluation.MasterTableComplete | ModelResearch/YoloTesting/YoloCompareAll.py:119-143 | every model validated on a yaml on disk has its record in the master table |

## Left out

- Reading and writing CSV files, console printing, `%.4f` and other number formatting, the timestamped file name, `os.makedirs`, `multiprocessing.freeze_support` and the device choice are not modelled. They are I/O or process concerns. The output paths are modelled; the files are not.
- The YOLO library (`YOLO(path)`, `.to`, `.val`, `results.box`, `results.speed`) is the parameter `validate`. Whether a yaml exists is the parameter `onDisk`.
- sklearn's `StandardScaler` and `PCA` are parameters: a first-component score (`Pc1Ranking.Projection`) and a fitted two-component embedding (`IdealDistance.Embedding`). Their numerical content is not modelled. The model does capture that the ideal vector goes through the same fit as the model rows.
- IdealDistance.SquaredDistance: the distance is the squared Euclidean norm, not `np.linalg.norm`. Real square roots are not available. Squaring orders non-negative distances the same way, so the ranking is the same, but the printed values differ.
- IdealDistance.SquaredDistance: the model does not prove that the distance is positive for a point other than the ideal. Only non-negativity and zero at the ideal are proved.
- Evaluation.RecordTimes: the record's values are not rounded (`round(…, 3)`, `round(…, 2)`, `round(fps, 1)`). The FPS relation holds for the unrounded values.
- Evaluation.MakeRecord: the metrics are taken as measured, as the means `validate` reports. `results.box.*.mean()` is part of the YOLO library.
- Floating point is modelled as `real`, and NaN as a missing value (`None`). For the sort key of `YoloBets.py`, Python's tuple comparison with NaN is not an order. The model puts a missing average below every number (`Ordering.OptLess`). The win comparison `>` is modelled as written: it is false whenever an average is missing.
- `sort_values` on a single column uses an unstable quicksort by default. The model sorts with the stable insertion sort, which is one of its possible outcomes. The rankings of `YoloPCA.py` and `YoloEmb.py` state only sorted order and permutation, which hold for any such sort.
- The per-dataset sorted copies (`YoloCompareAll.py` lines 127-136) and the FPS-sorted copy (line 159) are only printed. Only the failure the per-dataset sort raises on an empty frame is modelled.
- Windows drive letters and UNC prefixes in `os.path.split` are not modelled. Both `\` and `/` are separators, as in `ntpath`.
- The Model and Dataset columns are assumed present. Every row has both fields in `MetricsTable.Row`, and only a missing metric column is a modelled failure.
- `ModelResearch/YoloTesting/YoloCompare.py`, the training, detection and export scripts, and the web front end are not part of this model.
