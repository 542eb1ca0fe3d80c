# Car damage detection: threshold decision and result path

A model of the decision step of the car-damage web service
(`predict_damage` in `model/detect_damage.py`). A vehicle photograph is
preprocessed into a tensor and scored by a multi-label classifier, which
gives one score per damage-location class. The service turns that score
vector into the list of `{class_name, probability}` entries shown to the
user and saves a copy of the photograph under a result name.

The model has four modules:

- `Wrappers` (`wrappers.dfy`): the `Option` datatype.
- `Threshold` (`threshold.dfy`): the prediction threshold (0.2) and the
  sentinel entry. It has the NumPy mask (`IsPredicted`), boolean
  indexing (`Masked`) and the loop that builds `damage_info`
  (`DecideDamage`). `DecideDamage` is proved equal to a reference
  definition (`Detections` / `DamageInfo`) that has one entry per
  qualifying catalog index. Lemmas prove that the decision is sound,
  complete, keeps labels and scores paired, keeps catalog order, has an
  inclusive boundary and uses the sentinel correctly.
- `Paths` (`paths.dfy`): POSIX `os.path.basename` and `os.path.join`
  for two arguments, and the `result_<basename>` naming rule.
- `DamagePrediction` (`predict.dfy`): `preprocess_image` as an outcome,
  and the `predict_damage` orchestration. That covers the early
  `(None, [])` return, scoring, the decision, and the save-or-fall-back
  result path.

Two behaviours of the code are easy to misread, and the model follows the code:

- A ranked list might be expected, but the code does not sort the entries by
  probability. NumPy boolean indexing and `zip` keep catalog (index) order.
  `Threshold.ExampleNotRanked` shows a case where a lower score comes before
  a higher one.
- An inference failure might be expected to give an empty result, but the
  code does not catch errors raised by `model.predict`. Such an error leaves
  `predict_damage`. Scoring is a total function parameter here, so this path
  is not modelled.

## Model

| member | source | states |
|---|---|---|
| `Threshold.MaskedAt` | model/detect_damage.py:189-190 | boolean indexing with a mask picks the elements at the mask's set positions, in order, so labels and probabilities masked alike stay index-aligned and equally long |
| `Threshold.QualifyingIndices` | model/detect_damage.py:186-190 | every selected index is a valid catalog index |
| `Threshold.QualifyingIndicesCharacterized` | model/detect_damage.py:186-190 | an index is selected if and only if its score is at least 0.2, and selected indices are listed in strictly increasing (catalog) order |
| `Threshold.DecideDamage` | model/detect_damage.py:186-205 | the mask-select-zip-append loop, with the sentinel branch, produces exactly the reference `DamageInfo`: one entry per qualifying index or the lone sentinel |
| `Threshold.DetectionsSound` | model/detect_damage.py:186-190 | every reported entry has a probability of at least the threshold and is `{labels[i], scores[i]}` for one index `i` |
| `Threshold.DetectionsComplete` | model/detect_damage.py:186-205 | every index whose score reaches the threshold is reported with its own label and score, and the number of entries equals the number of such indices |
| `Threshold.DetectionsInCatalogOrder` | model/detect_damage.py:189-190 | of any two entries, the earlier one is built from a smaller catalog index than the later one, whatever their scores, so entries keep catalog order rather than being ranked |
| `Threshold.BoundaryInclusive` | model/detect_damage.py:113 | a score exactly equal to 0.2 yields an entry for its label |
| `Threshold.SentinelExactlyWhenNothingQualifies` | model/detect_damage.py:194-198 | the entry list is never empty, it is the single sentinel (the message naming the threshold, with an empty probability) exactly when every score is below the threshold, and otherwise it has no sentinel |
| `Threshold.ExampleTwoOfThree` | model/detect_damage.py:186-205 | scores [0.1, 0.9, 0.3] over [A, B, C] give [B 0.9, C 0.3] |
| `Threshold.ExampleNotRanked` | model/detect_damage.py:201-205 | scores [0.3, 0.9] over [A, B] give [A 0.3, B 0.9], so the code applies no ranking |
| `Threshold.ExampleNothingQualifies` | model/detect_damage.py:194-198 | scores all below 0.2 give the sentinel alone |
| `Paths.BaseStart` | model/detect_damage.py:213 | the last component starts at 0 or just after a separator, and no separator follows it |
| `Paths.Basename` | model/detect_damage.py:213 | the basename is the longest suffix of the path that contains no separator |
| `Paths.Join` | model/detect_damage.py:214 | an absolute second component is the result; otherwise the result is the first component followed by the second, with exactly one `/` inserted between them unless the first is empty or already ends in `/` |
| `Paths.ResultFilename` | model/detect_damage.py:213 | the result file name (`result_` + basename) is non-empty and contains no separator, so it is one path component |
| `Paths.BaseStartOfAppended` | model/detect_damage.py:213-214 | after a directory prefix (empty or ending in a separator), a separator-free name is the whole last component: it starts right at the end of the prefix |
| `Paths.ResultPathInFolder` | model/detect_damage.py:213-215 | the result path is exactly `<result_folder>/result_<basename>` (no extra `/` when the folder is empty or ends in one), so it depends only on the folder and the input's file name; it starts with the folder and its basename is `result_` + the input's basename |
| `DamagePrediction.PredictDamage` | model/detect_damage.py:146-222 | `preprocess_image` is taken as its outcome only (146-167): a missing file or any processing error gives `(None, [])`. Otherwise the entries are `DamageInfo` of the scores and are never empty. The path is `join(result_folder, "result_" + basename(image_path))` after a successful save and `image_path` after a failed one |

## Left out

- Loading the Keras model and the JSON class catalog at import time, and the exit on failure. The catalog is a parameter.
- A catalog whose length differs from the score vector's. Nothing in the loading code compares the two. A mismatch makes the boolean indexing at `model/detect_damage.py:189` raise `IndexError`, which nobody catches. The `requires` on `DecideDamage` and `PredictDamage` excludes that case.
- The body of `preprocess_image`: PIL decoding, RGB conversion, the 224x224 resize, EfficientNet `preprocess_input` and the batch dimension. These are foreign library calls. Their outcome is the `ImageLoad` parameter.
- `model.predict`. The neural network is a function parameter `score`. An exception raised by it is not modelled.
- Floating point. Scores and the threshold are exact reals. The float32 scores compared with the binary 0.2 are not modelled, so rounding at the boundary is not captured.
- The `:.2%` string formatting of the probability. The entry keeps the score as a number. The sentinel's empty string is `None`.
- `os.makedirs`, reopening the image and `save`. These are file-system and PIL I/O and are reduced to one success flag. The flag covers every failure among them, including a `save` that rejects an unknown file extension. The model does not capture that PIL re-encodes the image in the format implied by the extension, or that the folder is created.
- Logging with `print` on each error path.
- The commented-out earlier version at the top of `model/detect_damage.py` (dead code).
- `app.py` (Flask routing, upload saving, templates), `debug_prediction.py`, `check_model_classes.py`, `test_model.py` and `convert_model_legacy.py`. These are web plumbing and diagnostic or conversion scripts with no decision logic.
- Concurrency. The service makes one synchronous call per request.
