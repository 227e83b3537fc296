/**
 * The submit handler's computation: encode the form, refuse centroids whose dimension differs
 * from the layout's vector length (the first such centroid in list order is reported), then
 * rank the centroids.
 */
module Pipeline {
  import opened Types
  import opened ExpansionSpec
  import opened Encoder
  import opened Ranking

  /** Every centroid has exactly `n` coordinates. */
  predicate DimensionsMatch(centroids: seq<Centroid>, n: nat) {
    forall i :: 0 <= i < |centroids| ==> |centroids[i].vector| == n
  }

  /** The error the dimension check raises for the centroid at position `i`. */
  function MismatchAt(centroids: seq<Centroid>, i: nat, n: nat): Error
    requires i < |centroids|
  {
    DimensionMismatch(centroids[i].cluster, |centroids[i].vector|, n)
  }

  /**
   * `RULES.centroids.forEach(c => { if (c.vector.length !== vectorLength) throw … })`: nothing
   * when every dimension matches, otherwise the error for the first centroid that does not.
   */
  method CheckCentroidDimensions(centroids: seq<Centroid>, n: nat) returns (r: Option<Error>)
    ensures r.None? <==> DimensionsMatch(centroids, n)
    ensures r.Some? ==>
      exists i :: (0 <= i < |centroids| && |centroids[i].vector| != n &&
                   DimensionsMatch(centroids[..i], n) && r.value == MismatchAt(centroids, i, n))
  {
    for i := 0 to |centroids|
      invariant DimensionsMatch(centroids[..i], n)
    {
      if |centroids[i].vector| != n {
        return Some(MismatchAt(centroids, i, n));
      }
      assert centroids[..i + 1] == centroids[..i] + [centroids[i]];
    }
    assert centroids[..|centroids|] == centroids;
    return None;
  }

  /** The outcome of one submit, as a function of the descriptor, the form and the centroids. */
  ghost predicate SubmitOutcome(features: seq<Feature>, inputs: map<string, RawValue>,
                                centroids: seq<Centroid>, r: Result<Prediction>)
  {
    var layout := Compile(features);
    match Encode(features, layout, inputs)
    case Err(e) => r == Err(e)
    case Ok(vec) =>
      if !DimensionsMatch(centroids, layout.vectorLength) then
        r.Err? && r.error.DimensionMismatch? &&
        exists i :: 0 <= i < |centroids| && |centroids[i].vector| != layout.vectorLength &&
          DimensionsMatch(centroids[..i], layout.vectorLength) &&
          r.error == MismatchAt(centroids, i, layout.vectorLength)
      else
        r.Ok? && |r.value.ranking| == |centroids| &&
        Ranks(Scores(vec, centroids), r.value.ranking) &&
        r.value.best == if |centroids| == 0 then None else Some(r.value.ranking[0])
  }

  /**
   * The body of the submit listener, from `encodeFormToVector` to `predictCluster`; the layout
   * is the one `buildExpansionSpec` compiled from the same descriptor.
   */
  method Submit(features: seq<Feature>, layout: Layout, inputs: map<string, RawValue>,
                centroids: seq<Centroid>) returns (r: Result<Prediction>)
    requires layout == Compile(features)
    ensures SubmitOutcome(features, inputs, centroids, r)
    ensures r.Ok? <==> Encode(features, layout, inputs).Ok? && DimensionsMatch(centroids, layout.vectorLength)
  {
    var encoded := EncodeFormToVector(features, layout, inputs);
    if encoded.Err? {
      return Err(encoded.error);
    }
    var mismatch := CheckCentroidDimensions(centroids, layout.vectorLength);
    if mismatch.Some? {
      return Err(mismatch.value);
    }
    var p := PredictCluster(encoded.value, centroids);
    return Ok(p);
  }

  /**
   * With every centroid of the layout's dimension, the nearest centroid wins: the best entry
   * is some centroid's score, at a distance no other centroid undercuts.
   */
  lemma SubmitPicksNearest(features: seq<Feature>, inputs: map<string, RawValue>,
                           centroids: seq<Centroid>, r: Result<Prediction>)
    requires SubmitOutcome(features, inputs, centroids, r) && r.Ok? && |centroids| > 0
    ensures r.value.best.Some?
    ensures exists k :: (0 <= k < |centroids| && r.value.best.value ==
                         Scored(centroids[k].cluster,
                                SqDist(Encode(features, Compile(features), inputs).value, centroids[k].vector)))
    ensures forall k :: 0 <= k < |centroids| ==>
      r.value.best.value.dist <= SqDist(Encode(features, Compile(features), inputs).value, centroids[k].vector)
  {
    var vec := Encode(features, Compile(features), inputs).value;
    var scores := Scores(vec, centroids);
    BestIsNearest(scores, r.value.ranking);
    var k :| 0 <= k < |scores| && scores[k] == r.value.ranking[0];
    assert r.value.best.value == Scored(centroids[k].cluster, SqDist(vec, centroids[k].vector));
    forall j | 0 <= j < |centroids|
      ensures r.value.best.value.dist <= SqDist(vec, centroids[j].vector)
    {
      assert scores[j].dist == SqDist(vec, centroids[j].vector);
    }
  }
}
