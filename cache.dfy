/**
 * The model cache (LgbCache). The cache holds, for its key, one snapshot
 * (LgbObj): the loaded model, which is null when loading it failed, and the
 * feature-id map. The reads on the request path never throw: a missing
 * snapshot or a missing model yields the default score 0 and the empty map.
 */
module Cache {
  import opened Wrappers
  import FeatureIdMap

  /** The sparse vector handed to the model: values first, then their indices. */
  datatype SparseVector = SparseVector(values: seq<int>, indices: seq<int>)

  /**
   * The parsed model. Its scoring function is opaque; None stands for a call
   * that throws.
   */
  datatype Predictor = Predictor(predict: SparseVector -> Option<seq<int>>)

  /** LgbObj: the model (None for null) and the feature-name to feature-id map. */
  datatype LgbObj = LgbObj(lgbModel: Option<Predictor>, featureIdMap: map<string, int>)

  /** The key the no-argument constructor registers. */
  const DefaultKey: string := "LGBMTuner"

  /**
   * scoreByLgbModel: the first score the model gives for the vector, or 0 when
   * predict throws or its score list is empty (the index-out-of-bounds
   * exception is caught as well).
   */
  function ScoreByLgbModel(model: Predictor, indices: seq<int>, values: seq<int>): (score: int)
    ensures score == 0 ||
            exists scores :: model.predict(SparseVector(values, indices)) == Some(scores) &&
                             |scores| > 0 && score == scores[0]
    ensures forall scores :: model.predict(SparseVector(values, indices)) == Some(scores) && |scores| > 0 ==>
              score == scores[0]
  {
    match model.predict(SparseVector(values, indices))
    case None => 0
    case Some(scores) => if |scores| == 0 then 0 else scores[0]
  }

  class LgbCache {
    /** The field KEY: every read goes to this key, whatever key the caller names. */
    var key: string
    /**
     * The entry the cache holds for KEY: None until the first Reload. Loading
     * a missing entry is done by Reload, not by the reads.
     */
    var snapshot: Option<LgbObj>

    /** The no-argument constructor: init with the default key and an empty cache. */
    constructor ()
      ensures key == DefaultKey && snapshot == None
    {
      key := DefaultKey;
      snapshot := None;
    }

    /** init: sets KEY and replaces the cache by a new, empty one. */
    method Init(newKey: string)
      modifies this
      ensures key == newKey && snapshot == None
    {
      key := newKey;
      snapshot := None;
    }

    /**
     * One run of the cache loader, installed as the key's snapshot. model is
     * what loadLgbModelFromPath returned (None when reading or parsing the model
     * failed: the exception is swallowed there) and featureFile the lines of the
     * feature-id-map file (None when it cannot be opened). Neither failure stops
     * the load: a snapshot is always installed, and a failed model load replaces
     * the previous model by none.
     */
    method Reload(model: Option<Predictor>, featureFile: Option<seq<string>>)
      modifies this
      ensures key == old(key)
      ensures snapshot.Some? && snapshot.value.lgbModel == model
      ensures featureFile.None? ==> snapshot.value.featureIdMap == map[]
      ensures featureFile.Some? ==> snapshot.value.featureIdMap == FeatureIdMap.FeatureIdMap(featureFile.value)
    {
      var featureIdMap := FeatureIdMap.LoadFeatureIdMapFromPath(featureFile);
      snapshot := Some(LgbObj(model, featureIdMap));
    }

    /**
     * predict: 0 unless there is a snapshot and it holds a model; then the
     * model's first score for the vector built from values and indices.
     */
    function Predict(indices: seq<int>, values: seq<int>): (score: int)
      reads this
      ensures snapshot.None? ==> score == 0
      ensures snapshot.Some? && snapshot.value.lgbModel.None? ==> score == 0
      ensures snapshot.Some? && snapshot.value.lgbModel.Some? ==>
                score == ScoreByLgbModel(snapshot.value.lgbModel.value, indices, values)
    {
      match snapshot
      case None => 0
      case Some(lgb) =>
        match lgb.lgbModel
        case None => 0
        case Some(model) => ScoreByLgbModel(model, indices, values)
    }

    /**
     * getFeatureIdMap: the snapshot's map, or the empty map when there is no
     * snapshot. The key argument is not consulted; the field KEY is.
     */
    function GetFeatureIdMap(requestedKey: string): (featureIdMap: map<string, int>)
      reads this
      ensures snapshot.None? ==> featureIdMap == map[]
      ensures snapshot.Some? ==> featureIdMap == snapshot.value.featureIdMap
    {
      if snapshot.Some? then snapshot.value.featureIdMap else map[]
    }
  }

  /** The map a reader sees does not depend on the key it asks for. */
  lemma FeatureIdMapIgnoresKey(cache: LgbCache, k1: string, k2: string)
    ensures cache.GetFeatureIdMap(k1) == cache.GetFeatureIdMap(k2)
  {
  }

  /**
   * A reload whose model load failed leaves a snapshot without a model: every
   * request then scores 0, even when an earlier reload had installed a model,
   * while the feature-id map is still served.
   */
  method FailedModelReload(cache: LgbCache, featureFile: Option<seq<string>>,
                           indices: seq<int>, values: seq<int>) returns (score: int)
    modifies cache
    ensures score == 0 && cache.Predict(indices, values) == 0
    ensures cache.GetFeatureIdMap(cache.key) ==
              if featureFile.None? then map[] else FeatureIdMap.FeatureIdMap(featureFile.value)
  {
    cache.Reload(None, featureFile);
    score := cache.Predict(indices, values);
  }

  /** What a client can conclude from the specifications alone. */
  method ReloadScenario(model: Predictor, lines: seq<string>, indices: seq<int>, values: seq<int>)
  {
    var cache := new LgbCache();
    cache.Reload(Some(model), Some(lines));
    assert cache.Predict(indices, values) == ScoreByLgbModel(model, indices, values);
    assert cache.GetFeatureIdMap("another key") == FeatureIdMap.FeatureIdMap(lines);
    cache.Reload(None, Some(lines));
    assert cache.Predict(indices, values) == 0;
    assert cache.key == DefaultKey;
  }
}
