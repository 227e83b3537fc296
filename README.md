# Cluster classifier: feature encoding and nearest-centroid ranking

This project models the computational core of the browser-side cluster classifier in
`js/clasificador.js`. The classifier loads a rules descriptor. The descriptor holds a
*feature space* (a list of `num`, `ord` and `nom` features) and a list of *centroids*. On
submit, the classifier encodes the form into a numeric vector and ranks the centroids by
distance to that vector. The closest centroid is the prediction.

The model has four parts, one module each, plus shared types and a worked example:

- `Types` (`types.dfy`) holds the values that move through the pipeline:
  - features, with a `Kind` per `type`;
  - form values (`RawValue`);
  - the four error messages the submit handler can show;
  - `Option` and `Result`.
- `ExpansionSpec` (`expansion_spec.dfy`) is the slot layout compiler `buildExpansionSpec`.
  - The method `BuildExpansionSpec` walks the features with a cursor, as the source does.
  - It is proved equal to the layout function `Compile`.
  - Lemmas about `Compile` prove that the slot ranges follow the features and partition
    `[0, vectorLength)`.
- `Encoder` (`encoder.dfy`) is `encodeFormToVector`.
  - The method `EncodeFormToVector` zero-fills an `array<real>`. For each feature it finds the
    first slot with that name and writes into the array in place. It returns the first error.
  - It is proved equal to the function `Encode`, which folds a per-feature write over the
    features.
  - Lemmas connect `Encode` to an independent reference. That reference concatenates each
    feature's own encoding in feature order. They also cover the per-type rules, the
    first-error-wins order and the untouched zero entries.
- `Ranking` (`ranking.dfy`) is `euclidean` and `predictCluster`.
  - It computes one distance per centroid.
  - It sorts them in place with a stable insertion sort on an `array<Scored>`.
  - The best entry is the first of the ranking.
  - Lemmas prove that the ranking is a permutation, that it is unique, and that the best entry
    is the nearest centroid.
- `Pipeline` (`pipeline.dfy`) is the submit handler's computation. It encodes, then runs the
  centroid dimension guard, then predicts. Its result is proved to match `SubmitOutcome`.
- `WorkedExample` (`worked_example.dfy`) works a two-feature descriptor through every step, as lemmas.

How the model stands in for the browser:

- The DOM read `document.querySelector(...)?.value` becomes a map from field name to
  `RawValue`.
  - A missing key means there is no such element, so the raw value is undefined.
  - A `RawValue` has two parts. `text` is the field's string. `number` is the value
    `Number(text)` would give.
- Distances are kept squared: `euclidean` without its final `Math.sqrt`. The square root is
  monotone, so the order of the ranking is the same.
- `euclidean`'s `(b[i] ?? 0)` padding for a shorter centroid vector is modelled, in `Diff`.

Where the descriptor format would allow more than the code checks, the model follows the code:

- Neither `buildExpansionSpec` nor `encodeFormToVector` validates a descriptor, and the model
  has no error for this. (A `nom` or `ord` feature without `values` or `order` does fail in
  the source, in `renderFields`; see "## Left out".)
  - A feature whose `type` is none of `num`, `ord` or `nom` gets no slot and is skipped
    (`Unrecognized`).
  - Duplicate names are allowed. The encoder then uses the first slot with the name, through
    `find`. Its `meta` is read with the `?? 0`, `?? 1` and `|| []` defaults (`KindAt`).
- The whole form is encoded before the centroid dimensions are checked. A form error
  therefore wins over a dimension error.
- An `ord` or `nom` field with no element reports "value not allowed", not "select a value".
  The source checks for the empty string only by `raw === ""`.
- With no centroids, `predictCluster` returns `dists[0]` as `best`, which is undefined. This
  is modelled as `None`. `Pipeline.Submit` then succeeds, while the source's next step,
  `renderResultado`, fails on it (see `Pipeline.Submit` under "## Left out").

## Model

| member | source | states |
|---|---|---|
| ExpansionSpec.BuildExpansionSpec | js/clasificador.js:96-111 | the cursor loop returns exactly `Compile(features)`: one slot per recognised feature, in order, and the final cursor as `vectorLength` |
| ExpansionSpec.SlotsFollowFeatures | js/clasificador.js:99-108 | slot `m` belongs to the `m`-th recognised feature: its name, its meta, width 1 for `num`/`ord` and `|values|` for `nom`; an unrecognised type adds no slot |
| ExpansionSpec.CompiledLayoutPartitions | js/clasificador.js:97-110 | each `startIndex` is the sum of the earlier lengths, `vectorLength` is the sum of all lengths, slots are pairwise disjoint and every position below `vectorLength` lies in exactly one slot |
| ExpansionSpec.SlotOfFeature | js/clasificador.js:98-109 | a recognised feature's slot starts at the cursor the features before it left and has that feature's width |
| Encoder.FeatureEncoding | js/clasificador.js:120-134 | a feature's own z-score, index in `order` or one-hot pattern, or its error; on success it has the kind's width: one entry for `num` and `ord`, `|values|` for `nom`, none for an unrecognised type |
| Encoder.KindAt | js/clasificador.js:122-131 | the kind the encoder acts on keeps the feature's own `type`, takes `mean`, `std`, `order` and `values` from the found slot's meta with the `?? 0`, `?? 1` and `|| []` defaults, and gives back the feature's own kind when the slot carries that feature's own parameters |
| Encoder.EncodeFeature | js/clasificador.js:116-134 | a feature writes nothing exactly when no slot has its name or its type is unrecognised; otherwise it fails exactly when its encoding under the found slot's meta fails, with that error, and else writes that encoding, of that kind's width, from the found slot's `startIndex`; this holds also when a duplicate name makes it read another feature's slot |
| Encoder.IndexOf | js/clasificador.js:127 | `indexOf`: -1 exactly when the value is absent, otherwise the first position holding it |
| Encoder.SlotIndex | js/clasificador.js:116 | `find` by name: -1 exactly when no slot has the name, otherwise the first slot that has it |
| Encoder.EncodeFormToVector | js/clasificador.js:113-137 | the zero-fill and per-feature write loops return exactly `Encode(features, layout, inputs)`, including the first error |
| Encoder.EncodeField | js/clasificador.js:115-135 | the `forEach` callback for feature `k`: from the vector after the first `k` features it leaves the vector after `k + 1`, or returns feature `k`'s error |
| Encoder.WriteOneHot | js/clasificador.js:133 | the one-hot loop leaves the array equal to the old contents with `OneHot(n, pos)` written from `start` |
| Encoder.EncodePrefix | js/clasificador.js:114-135 | after any number of features, a successful vector has length `vectorLength` |
| Encoder.WriteFits | js/clasificador.js:116-133 | under the compiled layout, every write a feature makes ends within `vectorLength` |
| Encoder.EncodeFailsAtFirstBadField | js/clasificador.js:115-135 | encoding fails exactly when some feature fails, and the error is that of the first failing feature |
| Encoder.UnwrittenStaysZero | js/clasificador.js:114 | an entry that no feature writes keeps the 0 of the fill |
| Encoder.EncodeMatchesFeatureOrder | js/clasificador.js:113-137 | with unique names, the encoded vector is the concatenation of every feature's own encoding in feature order |
| Encoder.SlotHoldsFeatureEncoding | js/clasificador.js:116-134 | with unique names, a recognised feature's slot range holds exactly its own encoding |
| Encoder.NumericEncoding | js/clasificador.js:120-124 | a `num` field fails with "required" exactly when missing or empty; otherwise its one entry maps back to the raw number through `z * std + mean`, or equals the raw number when `std` is 0 |
| Encoder.MeanEncodesToZero | js/clasificador.js:122-123 | the mean itself encodes to 0 when `std` is non-zero |
| Encoder.OrdinalEncoding | js/clasificador.js:125-129 | an `ord` field succeeds exactly when its value is non-empty and in `order`; the empty option gives "select a value" and a value outside `order` gives "value not allowed"; on success the entry is the first index of the value, in `[0, |order|)` |
| Encoder.OrdinalEnds | js/clasificador.js:127-128 | with distinct categories, the first encodes to 0 and the last to `|order| - 1` |
| Encoder.NominalEncoding | js/clasificador.js:130-134 | a `nom` field succeeds exactly when its value is non-empty and in `values`, with the same two errors; on success it writes `|values|` entries, 1 at the first match and 0 elsewhere |
| Ranking.SquaredEuclidean | js/clasificador.js:43-50 | the accumulation loop returns `SqDist(a, b)`, which is never negative |
| Ranking.SqDistSelf | js/clasificador.js:43-50 | a centroid equal to the input is at distance 0 |
| Ranking.SqDistZeroIffEqual | js/clasificador.js:43-50 | between vectors of equal length, distance 0 holds exactly when they are equal |
| Ranking.SqDistSymmetric | js/clasificador.js:43-50 | between vectors of equal length, the distance is symmetric |
| Ranking.Scores | js/clasificador.js:140 | `centroids.map`: one entry per centroid, in centroid order, carrying its cluster and its non-negative squared distance to the form's vector |
| Ranking.SortByDist | js/clasificador.js:141 | the in-place sort leaves the array sorted by distance, and every distance's entries stay in their original relative order |
| Ranking.PredictCluster | js/clasificador.js:139-143 | the ranking has one entry per centroid and is the stable ascending sort of the centroid scores; `best` is its first entry, or none without centroids |
| Ranking.StableIsPermutation | js/clasificador.js:141 | a stable rearrangement is a permutation: same multiset, same length |
| Ranking.RankingUnique | js/clasificador.js:141 | two sorted stable rearrangements of the same scores are equal, so the ranking does not depend on the sort algorithm |
| Ranking.BestIsNearest | js/clasificador.js:142 | the best entry is one of the centroid scores, and no centroid is closer |
| Ranking.ExactMatchIsBest | js/clasificador.js:139-142 | a centroid equal to the input, with no earlier centroid at distance 0, is the best entry at distance 0 |
| Pipeline.CheckCentroidDimensions | js/clasificador.js:238-242 | no error exactly when every centroid has `vectorLength` coordinates; otherwise the error of the first centroid that does not, with its cluster, its length and the expected length |
| Pipeline.Submit | js/clasificador.js:237-243 | an encoding error is returned unchanged; otherwise a dimension error stops before ranking; otherwise the prediction of `predictCluster` on the encoded vector; it succeeds exactly when both checks pass |
| Pipeline.SubmitPicksNearest | js/clasificador.js:243 | a successful submit with centroids picks a centroid at the least distance from the encoded form |
| WorkedExample.ExampleEncoding | js/clasificador.js:113-137 | age 40 with mean 30 and deviation 10, then `owns_home = "yes"`, encodes to `[1, 1, 0]` |
| WorkedExample.ExampleSubmit | js/clasificador.js:237-243 | that form against centroids `[1, 1, 0]` and `[-1, 0, 1]` predicts the first, with the ranking `[(0, 0), (1, 6)]` |
| WorkedExample.ExampleDimensionMismatch | js/clasificador.js:238-242 | a two-coordinate centroid is refused with its cluster, its length 2 and the expected 3 |

## Left out

- DOM construction and rendering are not modelled: `el`, `renderFields`, `renderResultado`, the chart, `clearForm`, the cluster explanation table and the dashboard. They are UI code and compute nothing the pipeline uses.
- Loading is not modelled: `fetch` of the rules, file-input parsing, the `localStorage` save and restore, and the demo filler. They are I/O.
- `withSpinner`, the event listeners and the browser's `checkValidity` gate are not modelled. They are async glue and browser behaviour. `Pipeline.Submit` is the body that runs once the form is valid.
- Descriptor values are typed in the model: `order` and `values` are sequences of strings, and `mean` and `std` are numbers. The JSON allows more. A category that is not a string never matches, because the form value is always a string and the source compares with a strict `indexOf` (js/clasificador.js:127,132). Every submit of such a feature then fails with "value not allowed". A string `mean` or `std` is coerced by `Number(...)` (js/clasificador.js:122). Neither case is modelled.
- `Number(raw)` parsing and NaN are not modelled. A numeric field carries its parsed number in `RawValue.number`.
- JavaScript floating-point arithmetic is not modelled. The z-score and the distances are exact `real` arithmetic. Values that rounding would make equal, or unequal, can tie differently in the source's sort.
- `Math.sqrt` is not modelled. `Ranking.SquaredEuclidean` returns the squared distance, and the `dist` fields of the ranking are squared. The order is the same because the square root is monotone on non-negative numbers.
- `Ranking.PredictCluster`: the sort is an insertion sort proved stable. The source relies on the engine's stable `Array.prototype.sort` (ECMA-262, 10th edition, section 22.1.3.27). `Ranking.RankingUnique` shows any stable sort gives the same ranking.
- Pipeline.Submit: with no centroids it returns `Ok` with `best` = `None`. In the source, the rendering step `renderResultado` (js/clasificador.js:244, 145-149) then throws on `best.cluster`. The handler shows that error (js/clasificador.js:249-251) and skips saving the form values (js/clasificador.js:246-248). Rendering is UI code and is not modelled.
- `Kind` makes `order` and `values` mandatory for `ord` and `nom` features. In the source, a descriptor without them makes `renderFields` throw at `opts.forEach` (js/clasificador.js:78,81). That throw comes after `init` has replaced `RULES` (js/clasificador.js:214) and before `EXPANSION_SPEC` is rebuilt (js/clasificador.js:216). Later submits would then encode the new features against the old layout. That stale state is not modelled: `Encoder.EncodeFormToVector` and `Pipeline.Submit` require `layout == Compile(features)`, which holds only for descriptors that `init` accepts.
- Cluster ids are modelled as unbounded integers. The descriptor's ids are JSON values that are only copied and displayed.
- The thrown messages' text, in Spanish in the source, is modelled by the error constructor and the label, cluster or lengths it names.
