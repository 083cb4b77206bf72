# LightGbm4j serving core, modelled in Dafny

LightGbm4j serves scores from a LightGBM model on a request path. A cache
(`LgbCache`) holds one snapshot (`LgbObj`) for its key. The snapshot pairs the
parsed model with a feature-id map, which maps feature names to indices. A
scorer (`LgbScore`) packs a feature map into two parallel arrays and asks the
cache for a score. Tree nodes split numeric values with `NumericalDecision`.

This project models four pieces of that core:

- `feature_id_map.dfy` models the feature-id-map reader `loadFeatureIdMapFromPath`.
  - `LoadFeatureIdMapFromPath` is its line loop, written as a `while` loop.
  - `FeatureIdMap` is the specification the loop is proved against.
  - The lemmas give the meaning: which lines count, last one wins, a bad id stops the read, the size bound, the file format.
- `java_text.dfy` models the parts of `String.trim`, `String.split` and `Integer.parseInt` that the reader relies on. Each has an inverse or characterisation proved against it.
- `cache.dfy` models the snapshot datatypes and a class `LgbCache`.
  - The class fields are `key` (the field `KEY`) and `snapshot`, the entry the cache holds for `KEY`. `None` means nothing is loaded yet.
  - `Reload` models one run of the cache loader.
  - `Predict` and `GetFeatureIdMap` model the read guards.
- `score.dfy` models `getScoreByLgbModel`: its guard chain and the loop that fills `indices` and `values`.
- `numerical_decision.dfy` models `decision(fval, threshold)` over any `compareTo` that meets the `Comparable` contract.

Behaviour of the code that the model keeps:

- Both loaders swallow their exceptions, so the cache loader always returns an object. When the model cannot be loaded, that object has a null model. It replaces the previous snapshot, and every request scores 0 until a later reload installs a model (`Cache.FailedModelReload`).
- A line is accepted only when it splits into exactly 3 fields.
- A line with the wrong number of fields is skipped. A three-field line with a bad id ends the read, and every line after it is ignored.

Modelling choices:

- Floating-point scores and feature values are modelled as `int`.
- The model's `predict` is an opaque function inside `Cache.Predictor`. It returns `None` when it throws.
- A file is given as its lines. `None` stands for a file that cannot be opened.

## Model

| member | source | states |
|---|---|---|
| `JavaText.SkipLeading` | src/main/java/com/lightgbm/cache/LgbCache.java:118 | the start index lies between i and the length; every character skipped is at most U+0020; the character at the index, if any, is above U+0020 |
| `JavaText.SkipTrailing` | src/main/java/com/lightgbm/cache/LgbCache.java:118 | the end index lies between the start and the old end; every character dropped is at most U+0020; the character before the index is above U+0020 unless the range is empty |
| `JavaText.Trim` | src/main/java/com/lightgbm/cache/LgbCache.java:118 | the trimmed line neither starts nor ends with a character at most U+0020; a line already in that form is returned unchanged |
| `JavaText.TrimIsInfix` | src/main/java/com/lightgbm/cache/LgbCache.java:118 | the trimmed line is the infix of the line that starts at the first character above U+0020, and every character removed before or after it is at most U+0020 |
| `JavaText.Fields` | src/main/java/com/lightgbm/cache/LgbCache.java:118 | splitting gives at least one field, and no field contains the separator |
| `JavaText.JoinFields` | src/main/java/com/lightgbm/cache/LgbCache.java:118 | joining the fields with the separator gives back the original line, so interior empty fields are kept |
| `JavaText.DropTrailingEmpty` | src/main/java/com/lightgbm/cache/LgbCache.java:118 | the result is a prefix of the fields, every field it drops is empty, and its last field, if any, is not empty |
| `JavaText.JavaSplit` | src/main/java/com/lightgbm/cache/LgbCache.java:118 | a line without the separator is its own only field; otherwise the result is the fields of the line with exactly the trailing empty ones removed |
| `JavaText.FieldsNoSep` | src/main/java/com/lightgbm/cache/LgbCache.java:118 | a line without a tab is a single field |
| `JavaText.FieldsAppend` | src/main/java/com/lightgbm/cache/LgbCache.java:118 | the text before the first tab is field 0, and the rest splits on its own |
| `JavaText.LastFieldNonEmpty` | src/main/java/com/lightgbm/cache/LgbCache.java:118 | a non-empty line that does not end in a tab has a non-empty last field |
| `JavaText.SplitKeepsAllFields` | src/main/java/com/lightgbm/cache/LgbCache.java:118 | split drops nothing from a line that does not end with the separator, which covers every trimmed line |
| `JavaText.ParseInt` | src/main/java/com/lightgbm/cache/LgbCache.java:121 | an accepted id is a non-empty text whose value lies in the Java int range |
| `JavaText.ParseIntAccepted` | src/main/java/com/lightgbm/cache/LgbCache.java:121 | accepted text is an optional `-` or `+` followed by one or more ASCII digits; without its sign and leading zeros it is the decimal text of the value; a negative value has a `-` and a `-` gives a value of at most 0 |
| `JavaText.ParseIntWellFormed` | src/main/java/com/lightgbm/cache/LgbCache.java:121 | conversely, every optional `-` or `+` followed by ASCII digits whose value is in the int range is accepted with that value, a leading `+` and leading zeros included |
| `JavaText.ParseShow` | src/main/java/com/lightgbm/cache/LgbCache.java:121 | parseInt reads back every int that Integer.toString writes: the round trip |
| `FeatureIdMap.ClassifyLine` | src/main/java/com/lightgbm/cache/LgbCache.java:118-122 | a line that is put into the map carries an id within the int range |
| `FeatureIdMap.Fold` | src/main/java/com/lightgbm/cache/LgbCache.java:117-124 | reading more lines never removes a name already in the map |
| `FeatureIdMap.FeatureIdMap` | src/main/java/com/lightgbm/cache/LgbCache.java:110-133 | the map the loader returns has at most one entry per line of the file |
| `FeatureIdMap.Consumed` | src/main/java/com/lightgbm/cache/LgbCache.java:117-131 | counts the lines read before the first line that throws: none of them aborts, and the next line, if there is one, does |
| `FeatureIdMap.LoadFeatureIdMapFromPath` | src/main/java/com/lightgbm/cache/LgbCache.java:110-133 | the loop returns exactly `FeatureIdMap(lines)`, including on the early return from the catch; an unopenable file gives the empty map |
| `FeatureIdMap.SkippedLineIgnored` | src/main/java/com/lightgbm/cache/LgbCache.java:118-119 | a line that does not split into exactly 3 fields, such as 2 or 4, can be removed without changing the result |
| `FeatureIdMap.BadIdKeepsPrefix` | src/main/java/com/lightgbm/cache/LgbCache.java:121-132 | a 3-field line whose field 0 is not an int gives exactly the map of the lines before it; later lines are ignored |
| `FeatureIdMap.NameMapped` | src/main/java/com/lightgbm/cache/LgbCache.java:119-122 | a name is in the map if and only if some accepted line before the stop names it |
| `FeatureIdMap.LaterLineWins` | src/main/java/com/lightgbm/cache/LgbCache.java:122 | when several accepted lines share a name, the last one's id is in the map |
| `FeatureIdMap.NoAcceptedLineGivesEmptyMap` | src/main/java/com/lightgbm/cache/LgbCache.java:112-132 | input with no accepted line gives the empty map, not an error |
| `FeatureIdMap.SizeBound` | src/main/java/com/lightgbm/cache/LgbCache.java:117-124 | the map is never larger than the number of lines read, which is at most the number of lines |
| `FeatureIdMap.FormattedLineAccepted` | src/main/java/com/lightgbm/cache/LgbCache.java:118-122 | a line written as id, tab, name, tab, third field splits into exactly those three fields and maps the name to the id, for any name including the empty one |
| `FeatureIdMap.TwoFieldLineFields` | src/main/java/com/lightgbm/cache/LgbCache.java:118-119 | a line of an id and a name only has 2 fields |
| `FeatureIdMap.SingleLineFold` | src/main/java/com/lightgbm/cache/LgbCache.java:117-124 | a one-line file gives the empty map when the line aborts, and otherwise that line's effect on the empty map |
| `FeatureIdMap.SingleAcceptedLine` | src/main/java/com/lightgbm/cache/LgbCache.java:120-122 | a one-line file whose line is accepted maps exactly that name to that id |
| `FeatureIdMap.SingleSkippedLine` | src/main/java/com/lightgbm/cache/LgbCache.java:119 | a one-line file whose line is skipped gives the empty map |
| `FeatureIdMap.UserAgeExample` | src/main/java/com/lightgbm/cache/LgbCache.java:120-122 | the line `42\tuser_age\tstat` gives `user_age -> 42` |
| `FeatureIdMap.EmptyNameExample` | src/main/java/com/lightgbm/cache/LgbCache.java:118-122 | `42\t\tx` has 3 fields with an empty middle one and maps the empty name to 42 |
| `FeatureIdMap.TwoFieldExample` | src/main/java/com/lightgbm/cache/LgbCache.java:119 | the 2-field line `42\tuser_age` is skipped |
| `Cache.ScoreByLgbModel` | src/main/java/com/lightgbm/cache/LgbCache.java:166-175 | the score is 0 or the first score the model returns for the vector, and it is that first score whenever the model returns a non-empty list |
| `Cache.LgbCache.constructor` | src/main/java/com/lightgbm/cache/LgbCache.java:41-45 | the new cache has the key `LGBMTuner` and no snapshot yet |
| `Cache.LgbCache.Init` | src/main/java/com/lightgbm/cache/LgbCache.java:47-53 | sets KEY and starts from an empty cache |
| `Cache.LgbCache.Reload` | src/main/java/com/lightgbm/cache/LgbCache.java:56-68 | always installs a snapshot: the model as loaded (possibly none) and the parsed feature-id map; KEY is unchanged |
| `Cache.LgbCache.Predict` | src/main/java/com/lightgbm/cache/LgbCache.java:149-175 | 0 when there is no snapshot or its model is null; otherwise the model's first score, or 0 when predict throws or returns no score |
| `Cache.LgbCache.GetFeatureIdMap` | src/main/java/com/lightgbm/cache/LgbCache.java:135-147 | the empty map when there is no snapshot, else the snapshot's map |
| `Cache.FeatureIdMapIgnoresKey` | src/main/java/com/lightgbm/cache/LgbCache.java:135-139 | the result is the same for every key argument, since KEY is read instead |
| `Cache.FailedModelReload` | src/main/java/com/lightgbm/cache/LgbCache.java:56-68 | after a reload whose model load failed, requests score 0 while the new feature-id map is still served |
| `Score.ZipToMap` | src/main/java/com/lightgbm/score/LgbScore.java:35-42 | the map that two parallel arrays describe has exactly the array's indices as keys |
| `Score.PackingRoundTrip` | src/main/java/com/lightgbm/score/LgbScore.java:35-42 | a packing loses nothing: the arrays describe exactly the feature map, each key with its value |
| `Score.GetScoreByLgbModel` | src/main/java/com/lightgbm/score/LgbScore.java:18-49 | 0 for a null cache, an empty map, or a null value; otherwise the cache's score for parallel arrays of length equal to the map size, pairwise distinct indices, every key once, each value equal to the map's value at its key |
| `NumericalDecision.IsComparable` | src/main/java/com/lightgbm/lgbUtil/NumericalDecision.java:3 | the `Comparable` contract; a comparison that meets it compares every value equal to itself |
| `NumericalDecision.Decision` | src/main/java/com/lightgbm/lgbUtil/NumericalDecision.java:5-11 | under the `Comparable` contract the value goes to the true side exactly when the threshold compares at least equal to it |
| `NumericalDecision.IntCompareIsComparable` | src/main/java/com/lightgbm/lgbUtil/NumericalDecision.java:3 | Integer.compare meets the Comparable contract |
| `NumericalDecision.DecisionOnInts` | src/main/java/com/lightgbm/lgbUtil/NumericalDecision.java:5-11 | on ints the decision holds exactly when fval <= threshold |
| `NumericalDecision.AtMostTransitive` | src/main/java/com/lightgbm/lgbUtil/NumericalDecision.java:6 | under the Comparable contract, `compareTo(...) <= 0` is transitive |
| `NumericalDecision.ThresholdGoesLeft` | src/main/java/com/lightgbm/lgbUtil/NumericalDecision.java:6-7 | `decision(t, t)` holds |
| `NumericalDecision.AboveThresholdGoesRight` | src/main/java/com/lightgbm/lgbUtil/NumericalDecision.java:6-10 | the decision is false if and only if compareTo is positive; under the `Comparable` contract, exactly when the threshold compares below the value |
| `NumericalDecision.MonotoneInValue` | src/main/java/com/lightgbm/lgbUtil/NumericalDecision.java:6 | if `decision(a, t)` holds and b is at most a, then `decision(b, t)` holds |
| `NumericalDecision.MonotoneInThreshold` | src/main/java/com/lightgbm/lgbUtil/NumericalDecision.java:6 | if `decision(f, t1)` holds and t1 is at most t2, then `decision(f, t2)` holds |

## Left out

- Guava's `LoadingCache` (LgbCache.java:53-69): refresh-after-write, coalesced reloads and stale-while-revalidate are library behaviour that cannot be seen. `snapshot` is the entry the cache holds and `Reload` one completed load.
- Cache.LgbCache.Predict: a `get` on a missing entry (LgbCache.java:139, 153) loads it synchronously with the loader in Java, so a request on a fresh cache triggers a load. The model does not perform that load: with no snapshot, `Predict` gives 0 and `GetFeatureIdMap` gives the empty map until `Reload` runs.
- Cache.LgbCache.GetFeatureIdMap: Java hands out the snapshot's own `HashMap` (LgbCache.java:141, 196-198), so a caller's `put` into it changes what every later reader sees. The model returns the map as a value, so this aliasing is not captured.
- The scheduled warm-up task, `CACHE_REFRESH_HOUR` and `close` (LgbCache.java:30, 35, 72-86, 206-213). They exist for background concurrency and shutdown.
- File and Hadoop I/O (LgbCache.java:93-98, 111-115, 125). A file is given as its lines, or as `None` when it cannot be opened. An I/O error in the middle of the file is not modelled, and neither is `BufferedReader`'s line-terminator handling.
- `loadLgbModelFromPath` (LgbCache.java:90-108) is a parameter of `Reload`: the parsed model, or `None` when reading or parsing failed.
- `LgbParser`, `Predictor.predict` and `SparseVector` are not part of this model. The predictor is an opaque function, and tree traversal and score summation are not modelled.
- Floating-point scores and feature values are modelled as integers. The `Comparable` values of a decision are left generic.
- Logging throughout.
- Cache.LgbCache.Predict: the `int[]` and `float[]` arguments are passed as sequences of their contents, since `predict` only reads them.
- JavaText.ParseInt: Java's `Character.digit` also accepts non-ASCII Unicode decimal digits. The model accepts only `0`-`9`, so such a line aborts the read here.
- `LgbObj`'s setters (LgbCache.java:192-202) are never called, so the snapshot is a value.
- Score.GetScoreByLgbModel: the source fills the feature map with a comment where the feature processing would go, so its map is always empty and the method always returns 0.0. The model takes the map as a parameter.
- Score.GetScoreByLgbModel: the key order is that of `HashMap.keySet()`, which the model does not fix. The ensures therefore name some packing of the map, not the exact one Java produces.
- Score.GetScoreByLgbModel: a null key in the feature map is not modelled. A null value is modelled, as `None`: unboxing it throws, and the catch returns 0.
