# MotivationalEngine, modelled in Dafny

This project models the serving core of the Sphery ML performance engine:
the class `MotivationalEngine` in `src/motivational_engine.py`. The engine
does three things:

- **Registry load.** At construction it walks the model directory. It keeps
  every file whose name ends in `_gmm_v1.pkl` and turns the name into a key
  by deleting that text. It deserializes the bundle and stores it under the
  key. A later file with the same key replaces the earlier bundle.
- **Key derivation.** `get_model_key` builds `{game_mode}_{difficulty}_{duration}min`.
- **Inference.** `predict` resolves the key and raises "No model found" when
  the registry lacks it. It then builds the feature vector in the bundle's
  `features` order, scales it, and asks the Gaussian mixture for a cluster
  label and for membership probabilities. It returns the label, the largest
  probability as the confidence, the cluster's percentile targets, and every
  statistic's value for that cluster.

Files and modules:

| file | module | contents |
|---|---|---|
| `wrappers.dfy` | `Wrappers` | `Option` and `Result` |
| `text.dfy` | `Text` | `str.endswith`, `str.replace(p, "")`, `str(int)` and a parser that reads it back, split at the last occurrence of a character |
| `keys.dfy` | `Keys` | `get_model_key`, and a key parser that recovers the key's parts |
| `inference.dfy` | `Inference` | the bundle record, the feature vector, `max`, the statistics projection, and the body of `predict` |
| `registry.dfy` | `Registry` | `_load_all_models` as a loop (`LoadAllModels`), specified by the function `RegistryOf`, and the lemmas about the registry |
| `engine.dfy` | `Engine` | the class `MotivationalEngine`: its two fields, construction, and `predict` |
| `scenario.dfy` | `Scenario` | the repository's demo request, worked through the model |

How the outside world enters the model:

- The directory listing (`os.listdir`) is an input `seq<string>` in listing order.
- The deserializer (`joblib.load` of `os.path.join(dir, fname)`) is a
  `Loader`, a function from the directory and the file name to `Some(bundle)`.
  `None` means that reading the file raises. The exception propagates, so the
  whole construction fails and names the first such model file.
- The fitted scaler and mixture are fields of the bundle record with function
  types: `transform`, `predict` and `predictProba`. They are opaque. `transform`
  may return `None`, which stands for the library rejecting a vector of the
  wrong shape.
- Python's `str` of the duration is a `render` parameter. The difficulty, and
  the cluster label used to index `cluster_stats`, are rendered by
  `Text.IntToString`, which is Python's `str` of an integer (`-1` becomes `"-1"`).

Every exception that `predict` raises is a constructor of `Inference.Error`,
with what the exception names:

- `NoModelFound(key)`
- `MissingFeature(feature)`
- `ShapeRejected`
- `NoProbabilities`: `max()` of an empty array.
- `MissingPercentiles(cluster)`
- `MissingClusterStat(str(cluster))`: the `KeyError` names the missing inner key.

Registry loading fails with `Registry.LoadError`.

Behaviour of the code worth knowing, all of it stated in the model:

- **Duplicate keys.** Two model files whose names give the same key are not
  an error. The later file in listing order supplies the bundle
  (`Registry.RegistryLastWriteWins`).
- **No validation at load time.** The code loads a bundle without looking
  inside it. A missing field only surfaces later, as a `KeyError` in
  `predict`. The model types the bundle as a record with all five fields, so
  such a bundle is not representable.
- **Float durations in the key.** `predict('DualFlow', -1, 10.0, ...)` renders
  the duration with Python's `str`, which gives `10.0`. The request therefore
  asks for `DualFlow_-1_10.0min`, and a file named
  `DualFlow_-1_10min_gmm_v1.pkl` does not serve it. The same request with the
  integer `10` reaches that file's bundle
  (`Scenario.DemoFloatDurationMissesModel`).
- **Confidence bounds and tie-breaking.** The code itself does not check that
  the confidence lies in [0, 1], or that the cluster label is a largest
  probability's index. Both come from the mixture model of the library. The
  model proves what follows when the library provides them
  (`Inference.ConfidenceOfCluster`).

## Model

| member | source | states |
|---|---|---|
| `Text.EndsWith` | src/motivational_engine.py:12 | `s.endswith(suffix)` holds of every stem followed by `suffix`, and when it holds, `s` is a stem followed by `suffix` |
| `Text.RemoveAll` | src/motivational_engine.py:13 | `s.replace(p, "")`, deleting occurrences left to right; the result is never longer than the input (what it deletes is stated by the lemmas below) |
| `Text.RemoveAllChangesIff` | src/motivational_engine.py:13 | `replace(p, "")` leaves a name unchanged when `p` does not occur in it, and makes it strictly shorter when `p` occurs anywhere in it |
| `Text.RemoveAllAfterClean` | src/motivational_engine.py:13 | for a pattern that cannot overlap itself, a string taken apart at its first occurrence loses that occurrence, keeps what comes before, and has the rest treated the same way |
| `Text.RemoveAllTrailingOnly` | src/motivational_engine.py:13 | when `p` occurs in `s` only as its suffix, deleting every occurrence gives a string that, followed by `p`, is `s` again |
| `Text.NatToString` | src/motivational_engine.py:18 | the decimal rendering of a natural is a non-empty string of digits with no leading zero |
| `Text.IntToString` | src/motivational_engine.py:18 | `str(int)` is non-empty and contains no underscore, so it cannot blur the key's separators |
| `Text.IntToStringRoundTrip` | src/motivational_engine.py:18 | `str(int)` loses nothing: parsing it back gives the same integer |
| `Keys.ModelKey` | src/motivational_engine.py:17-18 | the key starts with the game mode followed by an underscore and ends with `min` |
| `Keys.KeyRoundTrip` | src/motivational_engine.py:17-18 | a key gives back the game mode, the difficulty and the rendered duration, when the rendered duration has no underscore (the game mode may have them) |
| `Keys.KeyInjective` | src/motivational_engine.py:17-18 | two requests share a key if and only if their game modes and difficulties are equal and their durations render alike |
| `Inference.FeatureVector` | src/motivational_engine.py:25-30 | the vector exists iff every feature is in the player data; it has one entry per feature, in the bundle's order, entry i being `player_data[features[i]]`; otherwise the error names the first missing feature |
| `Inference.FeatureVectorReadsOnlyFeatures` | src/motivational_engine.py:30 | player data that agree on the bundle's features give the same vector (extra keys have no effect) |
| `Inference.Max` | src/motivational_engine.py:33 | the maximum of a non-empty probability row is one of its elements and no element exceeds it |
| `Inference.ProjectStats` | src/motivational_engine.py:36 | the projection succeeds iff every statistic has the cluster's label; it then has exactly the bundle's statistic names, each mapped to its value for that label; otherwise the error names the label |
| `Inference.Scaled` | src/motivational_engine.py:30-31 | a missing feature stops before the scaler; otherwise the scaled vector is the scaler's output on the raw vector, and a rejected shape is the error |
| `Inference.Infer` | src/motivational_engine.py:24-43 | on success the label is the mixture's label of the scaled vector, the confidence is the maximum of its probability row, and the label indexes the percentile targets and every inner statistics map, whose values are returned; a missing feature or rejected shape is the error |
| `Inference.InferSucceedsIff` | src/motivational_engine.py:30-36 | inference succeeds exactly when every stage can go through, and the first stage that cannot gives the error: empty probabilities, then a missing percentile entry, then a missing statistic label |
| `Inference.ConfidenceOfCluster` | src/motivational_engine.py:32-33 | probabilities in [0, 1] give a confidence in [0, 1]; when the label indexes a largest probability, the confidence is that cluster's probability |
| `Inference.InferReadsOnlyFeatures` | src/motivational_engine.py:25-30 | the outcome of inference does not depend on player data outside the bundle's features |
| `Registry.KeyOfStripsSuffix` | src/motivational_engine.py:12-13 | for a model file carrying the suffix once, at its end, key + `_gmm_v1.pkl` is the file name |
| `Registry.IsModelFile` | src/motivational_engine.py:12 | a name is kept iff it ends with `_gmm_v1.pkl`: every stem followed by the suffix is kept, and a kept name has the suffix at its end |
| `Registry.KeyOf` | src/motivational_engine.py:13 | the key is the file name itself iff `_gmm_v1.pkl` occurs nowhere in it, and strictly shorter otherwise |
| `Registry.KeyOfAfterClean` | src/motivational_engine.py:13 | every occurrence of `_gmm_v1.pkl` is deleted: for a name taken apart at its first occurrence, the key is the part before it followed by the key of the rest; with `KeyOf`'s contract this fixes the key of every name |
| `Registry.RegistryOf` | src/motivational_engine.py:9-15 | the registry after a listing, in listing order (skip non-model files, insert under the key, later files replace earlier ones, the first unreadable model file aborts); a failure names a listed model file whose load fails |
| `Registry.ModelFiles` | src/motivational_engine.py:11-12 | the files kept are exactly the listed names ending in `_gmm_v1.pkl` |
| `Registry.LoadAllModels` | src/motivational_engine.py:9-15 | the loop over the listing returns the registry `RegistryOf` describes: skip non-model files, insert under the stripped key with later files replacing earlier ones, and abort on the first unreadable model file |
| `Registry.RegistryFailureIsFinal` | src/motivational_engine.py:11-14 | once a prefix of the listing fails to load, the whole load fails with the same error |
| `Registry.RegistryLoadsIff` | src/motivational_engine.py:11-14 | the load succeeds iff every model file can be read; a failure names the first model file that cannot |
| `Registry.RegistryKeys` | src/motivational_engine.py:11-13 | the registry's keys are exactly the stripped names of the listed model files; other names never become keys |
| `Registry.RegistryLastWriteWins` | src/motivational_engine.py:13-14 | a model file's bundle is the one stored under its key when no later model file has the same key |
| `Registry.RegistrySizeBound` | src/motivational_engine.py:10-15 | the registry has at most as many entries as there are model files |
| `Registry.RegistrySizeExact` | src/motivational_engine.py:10-15 | when no two model files share a key, the registry has exactly one entry per model file |
| `Registry.RegistryIgnoresOtherFiles` | src/motivational_engine.py:11-12 | loading only the model files gives the same registry as loading the whole listing |
| `Engine.MotivationalEngine.constructor` | src/motivational_engine.py:5-7 | the engine holds the directory and the registry it was given |
| `Engine.MotivationalEngine.Open` | src/motivational_engine.py:5-15 | construction loads the listing of the models directory, `models` unless given; it fails with the load's error, or yields a fresh engine whose registry is the one the listing describes |
| `Engine.MotivationalEngine.Predict` | src/motivational_engine.py:20-43 | an absent key gives "No model found" for that key whatever the player data; a present key gives inference on its bundle, whose cluster then indexes the bundle's percentile targets and statistics; being a function that only reads the registry, equal calls give equal results |
| `Scenario.DemoKey` | src/motivational_engine.py:12-13 | the demo's model file `DualFlow_-1_10min_gmm_v1.pkl` has the key `DualFlow_-1_10min` |
| `Scenario.DemoRegistry` | src/motivational_engine.py:9-15 | a listing with only that file gives a one-entry registry under that key |
| `Scenario.DemoRequestKeys` | src/motivational_engine.py:17-18 | the demo request resolves to `DualFlow_-1_10.0min` for the duration `10.0` and to `DualFlow_-1_10min` for the duration `10` |
| `Scenario.DemoFloatDurationMissesModel` | src/motivational_engine.py:47-54 | against the registry `DemoRegistry` derives, the demo request with `10.0` fails with "No model found", and with `10` it scores against the bundle |

## Left out

- The scripts under `scripts/` are left out. They are database queries and printing, with no engine logic.
- `os.listdir` is left out: it is I/O, and its result is the input `names`. Its own errors (a missing or unreadable directory) are not modelled.
- `joblib.load` and `os.path.join` are left out: they are I/O and deserialization. They form the `Loader` parameter, which receives the directory and the file name.
- Bundle fields are not checked: a missing field (`KeyError` on `model_data['features']` and the like) is not modelled, because the bundle is a typed record with all five fields.
- The numerics of the scaler and of the Gaussian mixture are left out, because they are floating-point library code. They are opaque functions. `gmm.predict` and `gmm.predict_proba` are taken to be total.
- Floating point is modelled as `real`, so NaN and rounding are not modelled. There are three consequences:
  - player values and probabilities are reals;
  - `int(...)` and `float(...)` conversions are identities;
  - how numpy's `max` treats NaN is not modelled.
- Python's `str` of a float duration is left out: it is the abstract `render` parameter.
- `str(game_mode)` for a game mode that is not a string is left out: the game mode is a `string`.
- Fixed value types: the values of `percentile_targets` are taken to be maps from metric names to reals, and `player_data` maps names to reals.
- Dictionary order is left out: the key order of the returned `cluster_stats` dictionary is not modelled, because the result is a Dafny `map`.
- Aliasing of the percentile targets is left out. `predict` returns the bundle's own `percentile_targets[cluster]` dict, so a caller that mutates the result changes the registry. The model has value semantics and cannot show this.
- Only the `Open` and `Predict` entry points are modelled. The `models_dir` and `models` fields are never reassigned after construction, and nothing in the model reassigns them.
- The `__main__` demo block is left out: nothing is printed. Its request is stated in `Scenario.DemoFloatDurationMissesModel`.
