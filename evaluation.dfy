/**
 * YoloCompareAll.py: validate every model on every dataset that exists, turn
 * each successful validation into one record of the metrics table, and sort
 * all records by dataset, then by descending mAP@0.5:0.95.
 *
 * The YOLO library is a parameter: `validate(path, yaml)` says whether loading
 * the weights failed, whether validation raised, or what it measured. Whether
 * a file exists is a parameter too.
 */
module Evaluation {
  import opened Basics
  import opened Ordering
  import opened Sorting
  import opened Paths

  /** What `model.val(...)` measured: mean precision, recall, mAP@0.5, mAP@0.5:0.95 (`mapAll`) and `results.speed`. */
  datatype Measured = Measured(precision: real, recall: real, map50: real, mapAll: real, speed: map<string, real>)

  /** The outcome of one model on one dataset. */
  datatype Validation =
    | LoadFailed           // `YOLO(path)` or `.to(device)` raised: nothing catches it
    | ValFailed            // something inside the try block raised: the model is skipped
    | Validated(m: Measured)

  /** One row of the metrics table. */
  datatype Record = Record(
    dataset: string, model: string,
    precision: real, recall: real, map50: real, mapAll: real,
    preprocess: real, inference: real, postprocess: real, total: real, fps: real)

  type Validator = (string, string) -> Validation

  // ---- names ----

  /** `os.path.basename(os.path.dirname(data_yaml))`: the directory holding the yaml. */
  function DatasetName(yaml: string): string {
    Basename(Dirname(yaml))
  }

  /** The directory two levels above the weights file, with `yolo` written `YOLOv`. */
  function ModelName(path: string): string {
    Replace(Basename(Dirname(Dirname(path))), Yolo, YoloV)
  }

  // ---- speed ----

  /** `results.speed.get(stage, 0)`. */
  function StageTime(speed: map<string, real>, stage: string): real {
    if stage in speed then speed[stage] else 0.0
  }

  /** Milliseconds per image over the three stages. */
  function TotalTime(speed: map<string, real>): real {
    StageTime(speed, "preprocess") + StageTime(speed, "inference") + StageTime(speed, "postprocess")
  }

  /** Frames per second: `1000 / total_time if total_time > 0 else 0`. */
  function Fps(total: real): (r: real)
    ensures r >= 0.0
    ensures total > 0.0 ==> r > 0.0 && r * total == 1000.0
    ensures total <= 0.0 ==> r == 0.0
  {
    if total > 0.0 then 1000.0 / total else 0.0
  }

  /** The dict appended to `results_list` for a successful validation. */
  function MakeRecord(dataset: string, model: string, m: Measured): Record {
    var pre, inf, post := StageTime(m.speed, "preprocess"), StageTime(m.speed, "inference"), StageTime(m.speed, "postprocess");
    var total := pre + inf + post;
    Record(dataset, model, m.precision, m.recall, m.map50, m.mapAll, pre, inf, post, total, Fps(total))
  }

  // ---- evaluate_models ----

  /**
   * `evaluate_models(models, data_yaml)`: one record per model whose
   * validation succeeded, in the order of `models`; a model that cannot be
   * loaded ends the run.
   */
  function Evaluated(models: seq<string>, yaml: string, validate: Validator): Result<seq<Record>> {
    if models == [] then Ok([])
    else AfterModel(Evaluated(models[..|models| - 1], yaml, validate), models[|models| - 1], yaml, validate)
  }

  /**
   * One pass of the loop of `evaluate_models`: a model that cannot be loaded
   * ends the run, a failed validation adds nothing, a success appends its record.
   */
  function AfterModel(sofar: Result<seq<Record>>, path: string, yaml: string, validate: Validator): Result<seq<Record>> {
    match sofar
    case Err(f) => Err(f)
    case Ok(rs) =>
      match validate(path, yaml)
      case LoadFailed => Err(ModelLoadFailed(path))
      case ValFailed => Ok(rs)
      case Validated(m) => Ok(rs + [MakeRecord(DatasetName(yaml), ModelName(path), m)])
  }

  /** One more model: what `evaluate_models` does with the last path. */
  lemma EvaluatedSnoc(done: seq<string>, path: string, yaml: string, validate: Validator)
    ensures Evaluated(done + [path], yaml, validate) == AfterModel(Evaluated(done, yaml, validate), path, yaml, validate)
  {
    assert (done + [path])[..|done|] == done;
  }

  /** Once a model fails to load, the models after it change nothing. */
  lemma {:induction false} EvaluatedErrorPersists(models: seq<string>, i: nat, yaml: string, validate: Validator)
    requires i <= |models| && Evaluated(models[..i], yaml, validate).Err?
    ensures Evaluated(models, yaml, validate) == Evaluated(models[..i], yaml, validate)
    decreases |models|
  {
    if i == |models| {
      assert models[..i] == models;
    } else {
      var init := models[..|models| - 1];
      assert init[..i] == models[..i];
      EvaluatedErrorPersists(init, i, yaml, validate);
    }
  }

  /** The loop of `evaluate_models`. */
  method EvaluateModels(models: seq<string>, yaml: string, validate: Validator) returns (r: Result<seq<Record>>)
    ensures r == Evaluated(models, yaml, validate)
  {
    var results: seq<Record> := [];
    var dataset := DatasetName(yaml);
    for i := 0 to |models|
      invariant Evaluated(models[..i], yaml, validate) == Ok(results)
    {
      var path := models[i];
      assert models[..i + 1] == models[..i] + [path];
      EvaluatedSnoc(models[..i], path, yaml, validate);
      var name := ModelName(path);
      var outcome := validate(path, yaml);
      match outcome {
        case LoadFailed =>
          EvaluatedErrorPersists(models, i + 1, yaml, validate);
          return Err(ModelLoadFailed(path));
        case ValFailed =>
        case Validated(m) =>
          results := results + [MakeRecord(dataset, name, m)];
      }
    }
    assert models[..|models|] == models;
    return Ok(results);
  }

  // ---- main ----

  /** `all_results`: one frame per existing dataset yaml, in order. */
  function Collected(yamls: seq<string>, onDisk: string -> bool, models: seq<string>, validate: Validator): Result<seq<seq<Record>>> {
    if yamls == [] then Ok([])
    else
      match Collected(yamls[..|yamls| - 1], onDisk, models, validate)
      case Err(f) => Err(f)
      case Ok(frames) =>
        var yaml := yamls[|yamls| - 1];
        if !onDisk(yaml) then Ok(frames)
        else
          match Evaluated(models, yaml, validate)
          case Err(f) => Err(f)
          case Ok(rs) =>
            // an empty frame has no mAP@0.5:0.95 column to sort by
            if rs == [] then Err(NoRecords(DatasetName(yaml))) else Ok(frames + [rs])
  }

  /** `pd.concat(all_results)`. */
  function Concat(frames: seq<seq<Record>>): seq<Record> {
    if frames == [] then [] else Concat(frames[..|frames| - 1]) + frames[|frames| - 1]
  }

  /** `sort_values(by=["Dataset", "mAP@0.5:0.95"], ascending=[True, False])`: x goes before y. */
  predicate MasterBefore(x: Record, y: Record) {
    StrLess(x.dataset, y.dataset) || (x.dataset == y.dataset && x.mapAll > y.mapAll)
  }

  /** The master table written to the results file, or None when no dataset yaml exists. */
  function CompareAll(yamls: seq<string>, onDisk: string -> bool, models: seq<string>, validate: Validator): Result<Option<seq<Record>>> {
    match Collected(yamls, onDisk, models, validate)
    case Err(f) => Err(f)
    case Ok(frames) => if frames == [] then Ok(None) else Ok(Some(InsertionSort(Concat(frames), MasterBefore)))
  }

  /** One more dataset yaml: what the loop of `main` does with the last one. */
  lemma CollectedSnoc(done: seq<string>, yaml: string, onDisk: string -> bool, models: seq<string>, validate: Validator)
    ensures Collected(done + [yaml], onDisk, models, validate) ==
      match Collected(done, onDisk, models, validate)
      case Err(f) => Err(f)
      case Ok(frames) =>
        if !onDisk(yaml) then Ok(frames)
        else
          match Evaluated(models, yaml, validate)
          case Err(f) => Err(f)
          case Ok(rs) => if rs == [] then Err(NoRecords(DatasetName(yaml))) else Ok(frames + [rs])
  {
    assert (done + [yaml])[..|done|] == done;
  }

  /** Once a dataset fails, the yamls after it change nothing. */
  lemma {:induction false} CollectedErrorPersists(yamls: seq<string>, i: nat, onDisk: string -> bool, models: seq<string>, validate: Validator)
    requires i <= |yamls| && Collected(yamls[..i], onDisk, models, validate).Err?
    ensures Collected(yamls, onDisk, models, validate) == Collected(yamls[..i], onDisk, models, validate)
    decreases |yamls|
  {
    if i == |yamls| {
      assert yamls[..i] == yamls;
    } else {
      var init := yamls[..|yamls| - 1];
      assert init[..i] == yamls[..i];
      CollectedErrorPersists(init, i, onDisk, models, validate);
    }
  }

  /** The loop of `main` over the dataset yamls, then the master sort. */
  method RunComparison(yamls: seq<string>, onDisk: string -> bool, models: seq<string>, validate: Validator)
    returns (r: Result<Option<seq<Record>>>)
    ensures r == CompareAll(yamls, onDisk, models, validate)
  {
    var allResults: seq<seq<Record>> := [];
    for i := 0 to |yamls|
      invariant Collected(yamls[..i], onDisk, models, validate) == Ok(allResults)
    {
      var yaml := yamls[i];
      assert yamls[..i + 1] == yamls[..i] + [yaml];
      CollectedSnoc(yamls[..i], yaml, onDisk, models, validate);
      if !onDisk(yaml) {
        continue;
      }
      var df := EvaluateModels(models, yaml, validate);
      if df.Err? {
        CollectedErrorPersists(yamls, i + 1, onDisk, models, validate);
        return Err(df.failure);
      }
      if df.value == [] {
        CollectedErrorPersists(yamls, i + 1, onDisk, models, validate);
        return Err(NoRecords(DatasetName(yaml)));
      }
      allResults := allResults + [df.value];
    }
    assert yamls[..|yamls|] == yamls;
    if allResults == [] {
      return Ok(None);
    }
    return Ok(Some(InsertionSort(Concat(allResults), MasterBefore)));
  }

  // ---- what the comparison promises ----

  /**
   * The name of a dataset is the last component of the directory part of
   * the yaml's path: the directory part is a prefix of the path, the name
   * ends it, a separator or nothing precedes the name, and the name holds
   * no separator.
   */
  lemma DatasetNameIsComponent(yaml: string)
    ensures var dir, name := Dirname(yaml), DatasetName(yaml);
      && |dir| <= |yaml| && dir == yaml[..|dir|]
      && |name| <= |dir| && name == dir[|dir| - |name|..]
      && (|name| == |dir| || IsSep(dir[|dir| - |name| - 1]))
      && forall k :: 0 <= k < |name| ==> !IsSep(name[k])
  {
    SplitSpec(yaml);
    SplitSpec(Dirname(yaml));
  }

  /**
   * The name of a model is the last component of the directory two levels
   * above its weights file, put through `replace('yolo', 'YOLOv')`: that
   * directory is a prefix of the path, the component ends it, a separator or
   * nothing precedes the component, and neither the component nor the model
   * name holds a separator.
   */
  lemma ModelNameIsComponent(path: string)
    ensures var dir := Dirname(Dirname(path)); var comp := Basename(dir);
      && |dir| <= |path| && dir == path[..|dir|]
      && |comp| <= |dir| && comp == dir[|dir| - |comp|..]
      && (|comp| == |dir| || IsSep(dir[|dir| - |comp| - 1]))
      && (forall k :: 0 <= k < |comp| ==> !IsSep(comp[k]))
      && ModelName(path) == Replace(comp, Yolo, YoloV)
      && forall k :: 0 <= k < |ModelName(path)| ==> !IsSep(ModelName(path)[k])
  {
    var parent := Dirname(path);
    DatasetNameIsComponent(parent);
    SplitSpec(path);
    assert Dirname(parent) == path[..|Dirname(parent)|];
    ReplaceKeepsSeparatorFree(Basename(Dirname(parent)), Yolo, YoloV);
  }

  /** A model name never spells `yolo` in lower case: every occurrence was rewritten. */
  lemma ModelNameHasNoYolo(path: string)
    ensures forall i :: 0 <= i <= |ModelName(path)| ==> !OccursAt(ModelName(path), Yolo, i)
  {
    ReplaceYoloLeavesNone(Basename(Dirname(Dirname(path))));
  }

  /**
   * A record's total time is the sum of its three stage times, and its frame
   * rate times its total time is 1000 milliseconds when the total is positive;
   * otherwise the frame rate is 0.
   */
  lemma RecordTimes(dataset: string, model: string, m: Measured)
    ensures var r := MakeRecord(dataset, model, m);
      && r.total == r.preprocess + r.inference + r.postprocess == TotalTime(m.speed)
      && r.fps >= 0.0
      && (r.total > 0.0 ==> r.fps * r.total == 1000.0)
      && (r.total <= 0.0 ==> r.fps == 0.0)
      && r.dataset == dataset && r.model == model
      && (r.precision, r.recall, r.map50, r.mapAll) == (m.precision, m.recall, m.map50, m.mapAll)
  {
  }

  /** The models whose validation on `yaml` succeeded, in order. */
  function ValidatedModels(models: seq<string>, yaml: string, validate: Validator): seq<string> {
    if models == [] then []
    else
      var path := models[|models| - 1];
      ValidatedModels(models[..|models| - 1], yaml, validate) + (if validate(path, yaml).Validated? then [path] else [])
  }

  lemma {:induction false} ValidatedModelsMembers(models: seq<string>, yaml: string, validate: Validator)
    ensures forall p :: p in ValidatedModels(models, yaml, validate) <==> p in models && validate(p, yaml).Validated?
    decreases |models|
  {
    if models != [] {
      var init := models[..|models| - 1];
      ValidatedModelsMembers(init, yaml, validate);
      assert models == init + [models[|models| - 1]];
    }
  }

  /**
   * When every model loads, `evaluate_models` returns one record per model
   * that validated, in the order of `models`, built from what it measured.
   */
  lemma {:induction false} EvaluatedWhenAllLoad(models: seq<string>, yaml: string, validate: Validator)
    requires forall i :: 0 <= i < |models| ==> !validate(models[i], yaml).LoadFailed?
    ensures Evaluated(models, yaml, validate).Ok?
    ensures var rs := Evaluated(models, yaml, validate).value;
      var vm := ValidatedModels(models, yaml, validate);
      && |rs| == |vm|
      && forall k :: 0 <= k < |vm| ==>
        validate(vm[k], yaml).Validated? && rs[k] == MakeRecord(DatasetName(yaml), ModelName(vm[k]), validate(vm[k], yaml).m)
    decreases |models|
  {
    if models != [] {
      var init := models[..|models| - 1];
      EvaluatedWhenAllLoad(init, yaml, validate);
    }
  }

  /** The first model that cannot be loaded ends `evaluate_models` with that model's error. */
  lemma EvaluatedFirstFailure(models: seq<string>, i: nat, yaml: string, validate: Validator)
    requires i < |models| && validate(models[i], yaml).LoadFailed?
    requires forall j :: 0 <= j < i ==> !validate(models[j], yaml).LoadFailed?
    ensures Evaluated(models, yaml, validate) == Err(ModelLoadFailed(models[i]))
  {
    var done := models[..i];
    EvaluatedWhenAllLoad(done, yaml, validate);
    EvaluatedSnoc(done, models[i], yaml, validate);
    assert models[..i + 1] == done + [models[i]];
    EvaluatedErrorPersists(models, i + 1, yaml, validate);
  }

  /** `r` is the record of a model in `models` that validated on `yaml`. */
  ghost predicate RecordOf(r: Record, yaml: string, models: seq<string>, validate: Validator) {
    exists j :: 0 <= j < |models| && validate(models[j], yaml).Validated? &&
      r == MakeRecord(DatasetName(yaml), ModelName(models[j]), validate(models[j], yaml).m)
  }

  /** `evaluate_models` succeeds only when every model loads. */
  lemma {:induction false} EvaluatedOkLoadsAll(models: seq<string>, yaml: string, validate: Validator)
    requires Evaluated(models, yaml, validate).Ok?
    ensures forall i :: 0 <= i < |models| ==> !validate(models[i], yaml).LoadFailed?
    decreases |models|
  {
    if models != [] {
      var init := models[..|models| - 1];
      EvaluatedOkLoadsAll(init, yaml, validate);
      assert forall i :: 0 <= i < |init| ==> init[i] == models[i];
    }
  }

  /**
   * A successful `evaluate_models` loaded every model, and each record it
   * returns belongs to the dataset of `yaml` and to a model that validated;
   * conversely each model that validated has its record there.
   */
  lemma EvaluatedRecords(models: seq<string>, yaml: string, validate: Validator)
    requires Evaluated(models, yaml, validate).Ok?
    ensures forall i :: 0 <= i < |models| ==> !validate(models[i], yaml).LoadFailed?
    ensures var rs := Evaluated(models, yaml, validate).value;
      && (forall k :: 0 <= k < |rs| ==> rs[k].dataset == DatasetName(yaml) && RecordOf(rs[k], yaml, models, validate))
      && (forall j :: 0 <= j < |models| && validate(models[j], yaml).Validated? ==>
            MakeRecord(DatasetName(yaml), ModelName(models[j]), validate(models[j], yaml).m) in rs)
  {
    EvaluatedOkLoadsAll(models, yaml, validate);
    EvaluatedWhenAllLoad(models, yaml, validate);
    ValidatedModelsMembers(models, yaml, validate);
    var rs := Evaluated(models, yaml, validate).value;
    var vm := ValidatedModels(models, yaml, validate);
    forall k | 0 <= k < |rs| ensures rs[k].dataset == DatasetName(yaml) && RecordOf(rs[k], yaml, models, validate) {
      ValidatedRecordOf(models, yaml, validate, vm[k], rs[k]);
    }
    forall j | 0 <= j < |models| && validate(models[j], yaml).Validated?
      ensures MakeRecord(DatasetName(yaml), ModelName(models[j]), validate(models[j], yaml).m) in rs
    {
      assert models[j] in vm;
      var k :| 0 <= k < |vm| && vm[k] == models[j];
    }
  }

  /** The record built for a model in `models` that validated is a `RecordOf` for `yaml`. */
  lemma ValidatedRecordOf(models: seq<string>, yaml: string, validate: Validator, path: string, r: Record)
    requires path in models && validate(path, yaml).Validated?
    requires r == MakeRecord(DatasetName(yaml), ModelName(path), validate(path, yaml).m)
    ensures r.dataset == DatasetName(yaml) && RecordOf(r, yaml, models, validate)
  {
    var j :| 0 <= j < |models| && models[j] == path;
  }

  /** The frame `evaluate_models` returned for `yaml` is a non-empty one among `frames`. */
  ghost predicate Collects(frames: seq<seq<Record>>, yaml: string, models: seq<string>, validate: Validator) {
    Evaluated(models, yaml, validate).Ok? && Evaluated(models, yaml, validate).value != [] &&
    Evaluated(models, yaml, validate).value in frames
  }

  /** `frame` is what `evaluate_models` returned for some yaml on disk. */
  ghost predicate FromYamlOnDisk(frame: seq<Record>, yamls: seq<string>, onDisk: string -> bool, models: seq<string>, validate: Validator) {
    exists i :: 0 <= i < |yamls| && onDisk(yamls[i]) && Evaluated(models, yamls[i], validate) == Ok(frame)
  }

  /** A successful collection holds a non-empty frame for every yaml on disk. */
  lemma {:induction false} CollectedComplete(yamls: seq<string>, onDisk: string -> bool, models: seq<string>, validate: Validator)
    requires Collected(yamls, onDisk, models, validate).Ok?
    ensures forall i :: 0 <= i < |yamls| && onDisk(yamls[i]) ==>
      Collects(Collected(yamls, onDisk, models, validate).value, yamls[i], models, validate)
    decreases |yamls|
  {
    if yamls != [] {
      var init := yamls[..|yamls| - 1];
      CollectedComplete(init, onDisk, models, validate);
      var earlier := Collected(init, onDisk, models, validate).value;
      var frames := Collected(yamls, onDisk, models, validate).value;
      assert forall f :: f in earlier ==> f in frames;
      forall i | 0 <= i < |yamls| && onDisk(yamls[i]) ensures Collects(frames, yamls[i], models, validate) {
        if i < |init| {
          assert yamls[i] == init[i];
          assert Collects(earlier, init[i], models, validate);
        }
      }
    }
  }

  /** Every frame of a successful collection comes from a yaml on disk. */
  lemma {:induction false} CollectedSound(yamls: seq<string>, onDisk: string -> bool, models: seq<string>, validate: Validator)
    requires Collected(yamls, onDisk, models, validate).Ok?
    ensures var frames := Collected(yamls, onDisk, models, validate).value;
      forall k :: 0 <= k < |frames| ==> FromYamlOnDisk(frames[k], yamls, onDisk, models, validate)
    decreases |yamls|
  {
    if yamls != [] {
      var init := yamls[..|yamls| - 1];
      var last := yamls[|yamls| - 1];
      CollectedSound(init, onDisk, models, validate);
      var earlier := Collected(init, onDisk, models, validate).value;
      var frames := Collected(yamls, onDisk, models, validate).value;
      assert frames == earlier || (onDisk(last) && frames == earlier + [Evaluated(models, last, validate).value]);
      forall k | 0 <= k < |frames| ensures FromYamlOnDisk(frames[k], yamls, onDisk, models, validate) {
        if k < |earlier| {
          assert FromYamlOnDisk(earlier[k], init, onDisk, models, validate);
          var i :| 0 <= i < |init| && onDisk(init[i]) && Evaluated(models, init[i], validate) == Ok(earlier[k]);
          assert yamls[i] == init[i];
        } else {
          assert yamls[|yamls| - 1] == last;
        }
      }
    }
  }

  /**
   * A failed collection stops at a yaml on disk whose models did not all
   * load, or for which no model validated; the error is that yaml's.
   */
  lemma {:induction false} CollectedFailure(yamls: seq<string>, onDisk: string -> bool, models: seq<string>, validate: Validator)
    requires Collected(yamls, onDisk, models, validate).Err?
    ensures var f := Collected(yamls, onDisk, models, validate).failure;
      exists i :: 0 <= i < |yamls| && onDisk(yamls[i]) &&
        (Evaluated(models, yamls[i], validate) == Err(f) ||
         (Evaluated(models, yamls[i], validate) == Ok([]) && f == NoRecords(DatasetName(yamls[i]))))
    decreases |yamls|
  {
    var init := yamls[..|yamls| - 1];
    var f := Collected(yamls, onDisk, models, validate).failure;
    if Collected(init, onDisk, models, validate).Err? {
      CollectedFailure(init, onDisk, models, validate);
      var i :| 0 <= i < |init| && onDisk(init[i]) &&
        (Evaluated(models, init[i], validate) == Err(f) ||
         (Evaluated(models, init[i], validate) == Ok([]) && f == NoRecords(DatasetName(init[i]))));
      assert init[i] == yamls[i];
    } else {
      var last := |yamls| - 1;
      assert onDisk(yamls[last]);
    }
  }

  /** With no yaml on disk nothing is evaluated and the collection is empty. */
  lemma {:induction false} CollectedNothingOnDisk(yamls: seq<string>, onDisk: string -> bool, models: seq<string>, validate: Validator)
    requires forall i :: 0 <= i < |yamls| ==> !onDisk(yamls[i])
    ensures Collected(yamls, onDisk, models, validate) == Ok([])
    decreases |yamls|
  {
    if yamls != [] {
      var init := yamls[..|yamls| - 1];
      assert forall i :: 0 <= i < |init| ==> init[i] == yamls[i];
      CollectedNothingOnDisk(init, onDisk, models, validate);
    }
  }

  /**
   * The run ends without a results file and without an error exactly when
   * none of the dataset yamls exists. (A failing run writes no file either.)
   */
  lemma CompareAllWritesNothing(yamls: seq<string>, onDisk: string -> bool, models: seq<string>, validate: Validator)
    ensures CompareAll(yamls, onDisk, models, validate) == Ok(None) <==> forall i :: 0 <= i < |yamls| ==> !onDisk(yamls[i])
  {
    if CompareAll(yamls, onDisk, models, validate) == Ok(None) {
      CollectedComplete(yamls, onDisk, models, validate);
    }
    if forall i :: 0 <= i < |yamls| ==> !onDisk(yamls[i]) {
      CollectedNothingOnDisk(yamls, onDisk, models, validate);
    }
  }

  /**
   * The comparison fails exactly when some yaml on disk has a model that
   * cannot be loaded or has no model that validates.
   */
  lemma CompareAllFails(yamls: seq<string>, onDisk: string -> bool, models: seq<string>, validate: Validator)
    ensures CompareAll(yamls, onDisk, models, validate).Err? <==>
      exists i :: 0 <= i < |yamls| && onDisk(yamls[i]) &&
        (Evaluated(models, yamls[i], validate).Err? || Evaluated(models, yamls[i], validate) == Ok([]))
  {
    if CompareAll(yamls, onDisk, models, validate).Err? {
      CollectedFailure(yamls, onDisk, models, validate);
    } else {
      CollectedComplete(yamls, onDisk, models, validate);
    }
  }

  lemma {:induction false} ConcatMembers(frames: seq<seq<Record>>)
    ensures forall r :: r in Concat(frames) <==> exists k :: 0 <= k < |frames| && r in frames[k]
    decreases |frames|
  {
    if frames != [] {
      var init := frames[..|frames| - 1];
      ConcatMembers(init);
      assert forall k :: 0 <= k < |init| ==> init[k] == frames[k];
    }
  }

  /** Ascending dataset name, then descending mAP@0.5:0.95, is a strict weak order. */
  lemma MasterBeforeIsWeak()
    ensures StrictWeakOrder(MasterBefore)
  {
    StrLessIsStrictTotalOrder();
  }

  /**
   * The master table lists datasets in ascending order and, within one
   * dataset, models by non-increasing mAP@0.5:0.95; records that tie keep the
   * order in which they were collected.
   */
  lemma MasterTableIsSorted(yamls: seq<string>, onDisk: string -> bool, models: seq<string>, validate: Validator)
    requires CompareAll(yamls, onDisk, models, validate).Ok? && CompareAll(yamls, onDisk, models, validate).value.Some?
    ensures var t := CompareAll(yamls, onDisk, models, validate).value.value;
      forall i, j :: 0 <= i < j < |t| ==>
        !StrLess(t[j].dataset, t[i].dataset) && (t[i].dataset == t[j].dataset ==> t[i].mapAll >= t[j].mapAll)
    ensures var t := CompareAll(yamls, onDisk, models, validate).value.value;
      var all := Concat(Collected(yamls, onDisk, models, validate).value);
      forall y :: TiedWith(t, y, MasterBefore) == TiedWith(all, y, MasterBefore)
  {
    var all := Concat(Collected(yamls, onDisk, models, validate).value);
    MasterBeforeIsWeak();
    SortSorts(all, MasterBefore);
    forall y ensures TiedWith(InsertionSort(all, MasterBefore), y, MasterBefore) == TiedWith(all, y, MasterBefore) {
      SortIsStable(all, y, MasterBefore);
    }
  }

  /** The master table is a reordering of the collected frames, concatenated. */
  lemma MasterTableIsPermutation(yamls: seq<string>, onDisk: string -> bool, models: seq<string>, validate: Validator)
    requires CompareAll(yamls, onDisk, models, validate).Ok? && CompareAll(yamls, onDisk, models, validate).value.Some?
    ensures var t := CompareAll(yamls, onDisk, models, validate).value.value;
      multiset(t) == multiset(Concat(Collected(yamls, onDisk, models, validate).value))
  {
    SortPermutes(Concat(Collected(yamls, onDisk, models, validate).value), MasterBefore);
  }

  /** `r` is the record of a model that validated on some yaml on disk. */
  ghost predicate RecordFromDisk(r: Record, yamls: seq<string>, onDisk: string -> bool, models: seq<string>, validate: Validator) {
    exists i :: 0 <= i < |yamls| && onDisk(yamls[i]) && RecordOf(r, yamls[i], models, validate)
  }

  lemma FrameRecordFromDisk(frame: seq<Record>, r: Record, yamls: seq<string>, onDisk: string -> bool, models: seq<string>, validate: Validator)
    requires FromYamlOnDisk(frame, yamls, onDisk, models, validate) && r in frame
    ensures RecordFromDisk(r, yamls, onDisk, models, validate)
  {
    var i :| 0 <= i < |yamls| && onDisk(yamls[i]) && Evaluated(models, yamls[i], validate) == Ok(frame);
    EvaluatedRecords(models, yamls[i], validate);
    var n :| 0 <= n < |frame| && frame[n] == r;
  }

  /** Each record of the master table is the record of a model that validated on a yaml on disk. */
  lemma MasterTableSound(yamls: seq<string>, onDisk: string -> bool, models: seq<string>, validate: Validator)
    requires CompareAll(yamls, onDisk, models, validate).Ok? && CompareAll(yamls, onDisk, models, validate).value.Some?
    ensures var t := CompareAll(yamls, onDisk, models, validate).value.value;
      forall k :: 0 <= k < |t| ==> RecordFromDisk(t[k], yamls, onDisk, models, validate)
  {
    var frames := Collected(yamls, onDisk, models, validate).value;
    var all := Concat(frames);
    var t := InsertionSort(all, MasterBefore);
    MasterTableIsPermutation(yamls, onDisk, models, validate);
    ConcatMembers(frames);
    CollectedSound(yamls, onDisk, models, validate);
    forall k | 0 <= k < |t| ensures RecordFromDisk(t[k], yamls, onDisk, models, validate) {
      assert t[k] in multiset(all);
      assert t[k] in all;
      var f :| 0 <= f < |frames| && t[k] in frames[f];
      FrameRecordFromDisk(frames[f], t[k], yamls, onDisk, models, validate);
    }
  }

  /** Every model that validated on a yaml on disk has its record in the master table. */
  lemma MasterTableComplete(yamls: seq<string>, onDisk: string -> bool, models: seq<string>, validate: Validator)
    requires CompareAll(yamls, onDisk, models, validate).Ok? && CompareAll(yamls, onDisk, models, validate).value.Some?
    ensures var t := CompareAll(yamls, onDisk, models, validate).value.value;
      forall i, j :: 0 <= i < |yamls| && onDisk(yamls[i]) && 0 <= j < |models| && validate(models[j], yamls[i]).Validated? ==>
        MakeRecord(DatasetName(yamls[i]), ModelName(models[j]), validate(models[j], yamls[i]).m) in t
  {
    var frames := Collected(yamls, onDisk, models, validate).value;
    var all := Concat(frames);
    var t := InsertionSort(all, MasterBefore);
    MasterTableIsPermutation(yamls, onDisk, models, validate);
    ConcatMembers(frames);
    CollectedComplete(yamls, onDisk, models, validate);
    forall i, j | 0 <= i < |yamls| && onDisk(yamls[i]) && 0 <= j < |models| && validate(models[j], yamls[i]).Validated?
      ensures MakeRecord(DatasetName(yamls[i]), ModelName(models[j]), validate(models[j], yamls[i]).m) in t
    {
      assert Collects(frames, yamls[i], models, validate);
      var rs := Evaluated(models, yamls[i], validate).value;
      EvaluatedRecords(models, yamls[i], validate);
      var f :| 0 <= f < |frames| && frames[f] == rs;
      var r := MakeRecord(DatasetName(yamls[i]), ModelName(models[j]), validate(models[j], yamls[i]).m);
      assert r in all;
      assert r in multiset(t);
    }
  }
}
