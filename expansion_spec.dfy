/**
 * The slot layout (`buildExpansionSpec`): each recognised feature gets a contiguous range of
 * the encoded vector, placed at a running cursor, in feature order.
 */
module ExpansionSpec {
  import opened Types

  /** The `meta` record of a slot: standardisation parameters, category order or category values. */
  datatype Meta =
    | NumMeta(mean: Option<real>, std: Option<real>)
    | OrdMeta(order: seq<string>)
    | NomMeta(values: seq<string>)

  datatype Slot = Slot(name: string, meta: Meta, startIndex: nat, length: nat)

  datatype Layout = Layout(slots: seq<Slot>, vectorLength: nat)

  /** The number of slots a feature occupies: an unrecognised `type` occupies none. */
  function Width(k: Kind): nat {
    match k
    case Num(_, _) => 1
    case Ord(_) => 1
    case Nom(values) => |values|
    case Unrecognized(_) => 0
  }

  function MetaOf(k: Kind): Meta
    requires !k.Unrecognized?
  {
    match k
    case Num(mean, std) => NumMeta(mean, std)
    case Ord(order) => OrdMeta(order)
    case Nom(values) => NomMeta(values)
  }

  /** The cursor once `fs` has been walked. */
  function Extent(fs: seq<Feature>): nat {
    if fs == [] then 0 else Extent(fs[..|fs| - 1]) + Width(fs[|fs| - 1].kind)
  }

  /** The slots pushed while walking `fs`; the last feature's slot starts at the cursor left by the others. */
  function SlotsOf(fs: seq<Feature>): seq<Slot> {
    if fs == [] then []
    else
      var init, f := fs[..|fs| - 1], fs[|fs| - 1];
      SlotsOf(init) + (if f.kind.Unrecognized? then [] else [Slot(f.name, MetaOf(f.kind), Extent(init), Width(f.kind))])
  }

  function Compile(fs: seq<Feature>): Layout {
    Layout(SlotsOf(fs), Extent(fs))
  }

  /** `buildExpansionSpec`: one pass with a cursor, pushing one slot per recognised feature. */
  method BuildExpansionSpec(features: seq<Feature>) returns (layout: Layout)
    ensures layout == Compile(features)
  {
    var slots: seq<Slot> := [];
    var cursor: nat := 0;
    var k := 0;
    while k < |features|
      invariant 0 <= k <= |features|
      invariant slots == SlotsOf(features[..k])
      invariant cursor == Extent(features[..k])
    {
      var f := features[k];
      assert features[..k + 1][..k] == features[..k];
      match f.kind {
        case Num(mean, std) =>
          slots := slots + [Slot(f.name, NumMeta(mean, std), cursor, 1)];
          cursor := cursor + 1;
        case Ord(order) =>
          slots := slots + [Slot(f.name, OrdMeta(order), cursor, 1)];
          cursor := cursor + 1;
        case Nom(values) =>
          slots := slots + [Slot(f.name, NomMeta(values), cursor, |values|)];
          cursor := cursor + |values|;
        case Unrecognized(_) =>
      }
      k := k + 1;
    }
    assert features[..k] == features;
    layout := Layout(slots, cursor);
  }

  /** The features that get a slot, in their order. */
  function Recognized(fs: seq<Feature>): seq<Feature> {
    if fs == [] then []
    else Recognized(fs[..|fs| - 1]) + (if fs[|fs| - 1].kind.Unrecognized? then [] else [fs[|fs| - 1]])
  }

  function SumLengths(slots: seq<Slot>): nat {
    if slots == [] then 0 else SumLengths(slots[..|slots| - 1]) + slots[|slots| - 1].length
  }

  /** Every slot starts where the slots before it end. */
  predicate Contiguous(slots: seq<Slot>) {
    forall k :: 0 <= k < |slots| ==> slots[k].startIndex == SumLengths(slots[..k])
  }

  predicate Covers(s: Slot, p: int) {
    s.startIndex <= p < s.startIndex + s.length
  }

  ghost predicate Covered(slots: seq<Slot>, p: int) {
    exists k :: 0 <= k < |slots| && Covers(slots[k], p)
  }

  /**
   * The slots are the recognised features in order: `num` and `ord` get length 1, `nom` gets
   * one slot per value, and an unrecognised `type` gets no slot.
   */
  lemma {:induction false} SlotsFollowFeatures(fs: seq<Feature>)
    ensures |SlotsOf(fs)| == |Recognized(fs)|
    ensures forall k :: 0 <= k < |Recognized(fs)| ==> !Recognized(fs)[k].kind.Unrecognized?
    ensures forall k :: 0 <= k < |SlotsOf(fs)| ==>
              && SlotsOf(fs)[k].name == Recognized(fs)[k].name
              && SlotsOf(fs)[k].meta == MetaOf(Recognized(fs)[k].kind)
              && SlotsOf(fs)[k].length == Width(Recognized(fs)[k].kind)
  {
    if fs != [] {
      SlotsFollowFeatures(fs[..|fs| - 1]);
    }
  }

  /** Appending a slot that starts at the current total keeps a layout contiguous. */
  lemma ContiguousAppend(a: seq<Slot>, s: Slot)
    requires Contiguous(a) && s.startIndex == SumLengths(a)
    ensures Contiguous(a + [s])
    ensures SumLengths(a + [s]) == SumLengths(a) + s.length
  {
    var b := a + [s];
    assert b[..|b| - 1] == a;
    forall k | 0 <= k < |b|
      ensures b[k].startIndex == SumLengths(b[..k])
    {
      if k < |a| {
        assert b[..k] == a[..k];
      }
    }
  }

  /** Each slot starts at the sum of the lengths before it, and the cursor ends at the sum of all. */
  lemma {:induction false} SlotsContiguous(fs: seq<Feature>)
    ensures Contiguous(SlotsOf(fs))
    ensures SumLengths(SlotsOf(fs)) == Extent(fs)
  {
    if fs != [] {
      var init, f := fs[..|fs| - 1], fs[|fs| - 1];
      SlotsContiguous(init);
      assert Extent(fs) == Extent(init) + Width(f.kind);
      if f.kind.Unrecognized? {
        assert SlotsOf(fs) == SlotsOf(init);
      } else {
        var s := Slot(f.name, MetaOf(f.kind), Extent(init), Width(f.kind));
        assert SlotsOf(fs) == SlotsOf(init) + [s];
        ContiguousAppend(SlotsOf(init), s);
      }
    }
  }

  lemma SumLengthsStep(slots: seq<Slot>, k: nat)
    requires k < |slots|
    ensures SumLengths(slots[..k + 1]) == SumLengths(slots[..k]) + slots[k].length
  {
    assert slots[..k + 1][..k] == slots[..k];
  }

  lemma {:induction false} SumLengthsMonotone(slots: seq<Slot>, i: nat, j: nat)
    requires i <= j <= |slots|
    ensures SumLengths(slots[..i]) <= SumLengths(slots[..j])
  {
    if i < j {
      SumLengthsMonotone(slots, i, j - 1);
      SumLengthsStep(slots, j - 1);
    }
  }

  /** Contiguous slots end within the total and do not overlap. */
  lemma ContiguousDisjoint(slots: seq<Slot>)
    requires Contiguous(slots)
    ensures forall k :: 0 <= k < |slots| ==> slots[k].startIndex + slots[k].length <= SumLengths(slots)
    ensures forall k1, k2 :: 0 <= k1 < k2 < |slots| ==> slots[k1].startIndex + slots[k1].length <= slots[k2].startIndex
  {
    assert slots[..|slots|] == slots;
    forall k | 0 <= k < |slots|
      ensures slots[k].startIndex + slots[k].length <= SumLengths(slots)
    {
      SumLengthsStep(slots, k);
      SumLengthsMonotone(slots, k + 1, |slots|);
    }
    forall k1, k2 | 0 <= k1 < k2 < |slots|
      ensures slots[k1].startIndex + slots[k1].length <= slots[k2].startIndex
    {
      SumLengthsStep(slots, k1);
      SumLengthsMonotone(slots, k1 + 1, k2);
    }
  }

  /** Contiguous slots leave no gap below the total. */
  lemma {:induction false} ContiguousCover(slots: seq<Slot>, p: int)
    requires Contiguous(slots)
    requires 0 <= p < SumLengths(slots)
    ensures Covered(slots, p)
  {
    var n := |slots|;
    var init := slots[..n - 1];
    assert Contiguous(init) by {
      forall k | 0 <= k < |init|
        ensures init[k].startIndex == SumLengths(init[..k])
      {
        assert init[..k] == slots[..k];
      }
    }
    if p < SumLengths(init) {
      ContiguousCover(init, p);
      var k :| 0 <= k < |init| && Covers(init[k], p);
      assert Covers(slots[k], p);
    } else {
      assert Covers(slots[n - 1], p);
    }
  }

  /**
   * The compiled slots partition `[0, vectorLength)`: each starts where the previous ones end,
   * the lengths add up to `vectorLength`, every position lies in exactly one slot.
   */
  lemma CompiledLayoutPartitions(fs: seq<Feature>, layout: Layout)
    requires layout == Compile(fs)
    ensures forall k :: 0 <= k < |layout.slots| ==> layout.slots[k].startIndex == SumLengths(layout.slots[..k])
    ensures layout.vectorLength == SumLengths(layout.slots)
    ensures forall k :: 0 <= k < |layout.slots| ==> layout.slots[k].startIndex + layout.slots[k].length <= layout.vectorLength
    ensures forall k1, k2 :: 0 <= k1 < k2 < |layout.slots| ==>
              layout.slots[k1].startIndex + layout.slots[k1].length <= layout.slots[k2].startIndex
    ensures forall p :: 0 <= p < layout.vectorLength ==> Covered(layout.slots, p)
    ensures forall p, k1, k2 ::
              0 <= k1 < |layout.slots| && 0 <= k2 < |layout.slots| && Covers(layout.slots[k1], p) && Covers(layout.slots[k2], p)
              ==> k1 == k2
  {
    SlotsContiguous(fs);
    ContiguousDisjoint(layout.slots);
    forall p | 0 <= p < layout.vectorLength
      ensures Covered(layout.slots, p)
    {
      ContiguousCover(layout.slots, p);
    }
  }

  /** Walking a prefix of the features pushes a prefix of the slots. */
  lemma {:induction false} SlotsPrefix(fs: seq<Feature>, j: nat)
    requires j <= |fs|
    ensures |SlotsOf(fs[..j])| <= |SlotsOf(fs)|
    ensures SlotsOf(fs)[..|SlotsOf(fs[..j])|] == SlotsOf(fs[..j])
  {
    if j < |fs| {
      var init := fs[..|fs| - 1];
      assert init[..j] == fs[..j];
      SlotsPrefix(init, j);
      var a := SlotsOf(init);
      assert SlotsOf(fs)[..|a|] == a;
    } else {
      assert fs[..j] == fs;
    }
  }

  /** A recognised feature's slot starts at the cursor left by the features before it. */
  lemma SlotOfFeature(fs: seq<Feature>, k: nat)
    requires k < |fs| && !fs[k].kind.Unrecognized?
    ensures |SlotsOf(fs[..k])| < |SlotsOf(fs)|
    ensures SlotsOf(fs)[|SlotsOf(fs[..k])|] == Slot(fs[k].name, MetaOf(fs[k].kind), Extent(fs[..k]), Width(fs[k].kind))
  {
    SlotsPrefix(fs, k + 1);
    assert fs[..k + 1][..k] == fs[..k];
  }

  ghost predicate NameOccurs(fs: seq<Feature>, name: string) {
    exists i :: 0 <= i < |fs| && fs[i].name == name
  }

  /** Every slot is named after some feature. */
  lemma {:induction false} SlotNamesOccur(fs: seq<Feature>)
    ensures forall m :: 0 <= m < |SlotsOf(fs)| ==> NameOccurs(fs, SlotsOf(fs)[m].name)
  {
    if fs != [] {
      var init := fs[..|fs| - 1];
      SlotNamesOccur(init);
      var last := |fs| - 1;
      var tail := if fs[last].kind.Unrecognized? then [] else [Slot(fs[last].name, MetaOf(fs[last].kind), Extent(init), Width(fs[last].kind))];
      assert SlotsOf(fs) == SlotsOf(init) + tail;
      forall m | 0 <= m < |SlotsOf(fs)|
        ensures NameOccurs(fs, SlotsOf(fs)[m].name)
      {
        if m < |SlotsOf(init)| {
          var i :| 0 <= i < |init| && init[i].name == SlotsOf(init)[m].name;
          assert fs[i] == init[i];
        } else {
          assert fs[last].name == SlotsOf(fs)[m].name;
        }
      }
    }
  }

  /** The cursor never moves backwards. */
  lemma {:induction false} ExtentMonotone(fs: seq<Feature>, j: nat)
    requires j <= |fs|
    ensures Extent(fs[..j]) <= Extent(fs)
  {
    if j < |fs| {
      var init := fs[..|fs| - 1];
      assert init[..j] == fs[..j];
      ExtentMonotone(init, j);
    } else {
      assert fs[..j] == fs;
    }
  }
}
