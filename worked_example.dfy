/**
 * A two-feature descriptor worked through the whole submit path: a numeric `age` standardised
 * with mean 30 and deviation 10, and a nominal `owns_home` over `["yes", "no"]`.
 */
module WorkedExample {
  import opened Types
  import opened ExpansionSpec
  import opened Encoder
  import opened Ranking
  import opened Pipeline

  function Features(): seq<Feature> {
    [ Feature("age", Some("Age"), Num(Some(30.0), Some(10.0))),
      Feature("owns_home", None, Nom(["yes", "no"])) ]
  }

  function Form(age: RawValue, home: RawValue): map<string, RawValue> {
    map["age" := age, "owns_home" := home]
  }

  function Centroids(): seq<Centroid> {
    [ Centroid(0, [1.0, 1.0, 0.0]), Centroid(1, [-1.0, 0.0, 1.0]) ]
  }

  /** `age` takes position 0 and `owns_home` positions 1 and 2. */
  lemma ExampleLayout()
    ensures Compile(Features()) ==
      Layout([ Slot("age", NumMeta(Some(30.0), Some(10.0)), 0, 1),
               Slot("owns_home", NomMeta(["yes", "no"]), 1, 2) ], 3)
  {
    var fs := Features();
    assert fs[..1] == [fs[0]];
    assert fs[..1][..0] == [];
    assert fs[..|fs| - 1] == fs[..1];
    assert Extent(fs[..1]) == 1;
    assert SlotsOf(fs[..1]) == [Slot("age", NumMeta(Some(30.0), Some(10.0)), 0, 1)];
    assert Extent(fs) == 3;
  }

  lemma AgeEncoding()
    ensures FeatureEncoding(Features()[0], Some(RawValue("40", 40.0))) == Ok([1.0])
  {
    assert Standardize(40.0, 30.0, 10.0) == 1.0;
  }

  lemma HomeEncoding()
    ensures FeatureEncoding(Features()[1], Some(RawValue("yes", 0.0))) == Ok([1.0, 0.0])
  {
    assert IndexOf(["yes", "no"], "yes") == 0;
    assert OneHot(2, 0) == [1.0, 0.0];
  }

  /** Age 40 is one deviation above the mean; "yes" is the first category. */
  lemma ExampleEncoding()
    ensures Encode(Features(), Compile(Features()), Form(RawValue("40", 40.0), RawValue("yes", 0.0))) ==
      Ok([1.0, 1.0, 0.0])
  {
    var fs, inputs := Features(), Form(RawValue("40", 40.0), RawValue("yes", 0.0));
    EncodeMatchesFeatureOrder(fs, inputs);
    AgeEncoding();
    HomeEncoding();
    assert Lookup(inputs, "age") == Some(RawValue("40", 40.0));
    assert Lookup(inputs, "owns_home") == Some(RawValue("yes", 0.0));
    assert fs[..1] == [fs[0]];
    assert fs[..1][..0] == [];
    assert EncodeInOrder(fs[..1][..0], inputs) == Ok([]);
    assert [] + [1.0] == [1.0];
    assert EncodeInOrder(fs[..1], inputs) == Ok([1.0]);
    assert fs[..|fs| - 1] == fs[..1];
    assert EncodeInOrder(fs, inputs) == Ok([1.0] + [1.0, 0.0]);
    assert [1.0] + [1.0, 0.0] == [1.0, 1.0, 0.0];
  }

  /** An empty numeric field is reported by its label. */
  lemma ExampleMissingAge()
    ensures Encode(Features(), Compile(Features()), Form(RawValue("", 0.0), RawValue("yes", 0.0))) ==
      Err(RequiredField("Age"))
  {
    var fs, inputs := Features(), Form(RawValue("", 0.0), RawValue("yes", 0.0));
    EncodeMatchesFeatureOrder(fs, inputs);
    assert fs[..1] == [fs[0]];
    assert fs[..1][..0] == [];
    assert fs[..|fs| - 1] == fs[..1];
    assert FeatureEncoding(fs[0], Lookup(inputs, "age")) == Err(RequiredField("Age"));
  }

  /** The encoded form coincides with centroid 0, at squared distance 6 from centroid 1. */
  lemma ExampleRanking(ranking: seq<Scored>)
    requires Ranks(Scores([1.0, 1.0, 0.0], Centroids()), ranking)
    ensures ranking == [Scored(0, 0.0), Scored(1, 6.0)]
  {
    var vec := [1.0, 1.0, 0.0];
    SqDistSelf(vec);
    var far := Centroids()[1].vector;
    assert Square(2.0) == 4.0 && Square(1.0) == 1.0 && Square(-1.0) == 1.0;
    assert SquaredSum(vec, far, 1) == 4.0;
    assert SquaredSum(vec, far, 2) == 5.0;
    assert SqDist(vec, far) == 6.0;
    var scores := Scores(vec, Centroids());
    assert scores == [Scored(0, 0.0), Scored(1, 6.0)];
    assert SortedByDist(scores);
    RankingUnique(scores, ranking);
  }

  /** The whole submit: centroid 0 is the prediction. */
  lemma ExampleSubmit(r: Result<Prediction>)
    requires SubmitOutcome(Features(), Form(RawValue("40", 40.0), RawValue("yes", 0.0)), Centroids(), r)
    ensures r == Ok(Prediction(Some(Scored(0, 0.0)), [Scored(0, 0.0), Scored(1, 6.0)]))
  {
    ExampleLayout();
    ExampleEncoding();
    ExampleRanking(r.value.ranking);
  }

  /** A centroid of the wrong dimension is refused with its cluster, its length and the expected one. */
  lemma ExampleDimensionMismatch(r: Result<Prediction>)
    requires SubmitOutcome(Features(), Form(RawValue("40", 40.0), RawValue("yes", 0.0)),
                           [Centroid(7, [0.0, 0.0])], r)
    ensures r == Err(DimensionMismatch(7, 2, 3))
  {
    ExampleLayout();
    ExampleEncoding();
    var cs := [Centroid(7, [0.0, 0.0])];
    assert |cs[0].vector| == 2;
    assert !DimensionsMatch(cs, 3);
    var i :| 0 <= i < |cs| && r.error == MismatchAt(cs, i, 3);
    assert i == 0;
  }
}
