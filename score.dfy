/**
 * The scorer (LgbScore.getScoreByLgbModel): turns a map from feature index to
 * feature value into two parallel arrays, one slot per key, and asks the cache
 * for a score. A missing cache, an empty map, or any exception gives 0.
 */
module Score {
  import opened Wrappers
  import Cache

  /**
   * Feature values are boxed in the source, so a value may be null (None):
   * unboxing it throws.
   */
  predicate HasNull(features: map<int, Option<int>>) {
    exists k :: k in features && features[k].None?
  }

  /**
   * indices and values are parallel arrays holding every key of features
   * exactly once, each next to its value.
   */
  ghost predicate IsPacking(features: map<int, Option<int>>, indices: seq<int>, values: seq<int>) {
    && |indices| == |values| == |features|
    && (forall i :: 0 <= i < |indices| ==> indices[i] in features && features[indices[i]] == Some(values[i]))
    && (forall i, j :: 0 <= i < j < |indices| ==> indices[i] != indices[j])
    && (forall k :: k in features ==> k in indices)
  }

  /** The index-to-value map that parallel arrays describe, later slots winning. */
  function ZipToMap(indices: seq<int>, values: seq<int>): (m: map<int, int>)
    requires |indices| == |values|
    ensures m.Keys == set i | 0 <= i < |indices| :: indices[i]
    decreases |indices|
  {
    if indices == [] then map[]
    else
      var n := |indices| - 1;
      ZipToMap(indices[..n], values[..n])[indices[n] := values[n]]
  }

  lemma {:induction false} ZipAt(indices: seq<int>, values: seq<int>, i: nat)
    requires |indices| == |values| && i < |indices|
    requires forall a, b :: 0 <= a < b < |indices| ==> indices[a] != indices[b]
    ensures indices[i] in ZipToMap(indices, values) && ZipToMap(indices, values)[indices[i]] == values[i]
    decreases |indices|
  {
    var n := |indices| - 1;
    if i < n {
      ZipAt(indices[..n], values[..n], i);
    }
  }

  /**
   * Packing loses nothing: the vector built from the two arrays holds exactly
   * the features' keys, each with its value.
   */
  lemma PackingRoundTrip(features: map<int, Option<int>>, indices: seq<int>, values: seq<int>)
    requires IsPacking(features, indices, values)
    ensures ZipToMap(indices, values).Keys == features.Keys
    ensures forall k :: k in features ==> features[k] == Some(ZipToMap(indices, values)[k])
  {
    var m := ZipToMap(indices, values);
    forall k | k in features ensures k in m && features[k] == Some(m[k]) {
      var i :| 0 <= i < |indices| && indices[i] == k;
      ZipAt(indices, values, i);
    }
  }

  lemma HasElement(s: set<int>)
    requires |s| > 0
    ensures exists k :: k in s
  {
    assert (forall k :: k !in s) ==> s == {};
  }

  /**
   * getScoreByLgbModel with the extracted features as a parameter. The keys
   * are visited in an order the model does not fix, so the result is the
   * cache's score for SOME packing of the features.
   */
  method GetScoreByLgbModel(lgbCache: Cache.LgbCache?, features: map<int, Option<int>>) returns (score: int)
    ensures lgbCache == null ==> score == 0
    ensures lgbCache != null && |features| == 0 ==> score == 0
    ensures lgbCache != null && HasNull(features) ==> score == 0
    ensures lgbCache != null && |features| > 0 && !HasNull(features) ==>
              exists indices, values :: IsPacking(features, indices, values) &&
                                        score == lgbCache.Predict(indices, values)
  {
    if lgbCache == null {
      return 0;
    }
    if |features| == 0 {
      return 0;
    }
    var indices := new int[|features|];
    var values := new int[|features|];
    var index := 0;
    var remaining := features.Keys;
    while |remaining| > 0
      invariant forall k :: k in remaining ==> k in features
      invariant index + |remaining| == |features|
      invariant forall i :: 0 <= i < index ==>
                  indices[i] in features && indices[i] !in remaining && features[indices[i]] == Some(values[i])
      invariant forall i, j :: 0 <= i < j < index ==> indices[i] != indices[j]
      invariant forall k :: k in features && k !in remaining ==> k in indices[..index]
      decreases |remaining|
    {
      HasElement(remaining);
      var key :| key in remaining;
      ghost var before := indices[..];
      indices[index] := key;
      var value := features[key];
      if value.None? {
        // unboxing null throws; the handler returns 0.0
        return 0;
      }
      values[index] := value.value;
      assert indices[..index + 1] == before[..index] + [key];
      index := index + 1;
      remaining := remaining - {key};
    }
    assert index == |features|;
    assert indices[..index] == indices[..];
    assert IsPacking(features, indices[..], values[..]);
    score := lgbCache.Predict(indices[..], values[..]);
  }
}
