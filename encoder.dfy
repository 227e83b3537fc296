/**
 * The vector encoder (`encodeFormToVector`): a zero-filled vector of `vectorLength` entries,
 * into which every feature writes its z-score, ordinal index or one-hot pattern at the slot it
 * finds by name. The form is the map `inputs` from field name to field value; a name missing
 * from it is a field the page does not have.
 */
module Encoder {
  import opened Types
  import opened ExpansionSpec

  /** `s.indexOf(x)`: the first position holding `x`, or -1. */
  function IndexOf(s: seq<string>, x: string): (r: int)
    ensures -1 <= r < |s|
    ensures r == -1 <==> x !in s
    ensures 0 <= r ==> s[r] == x && forall j :: 0 <= j < r ==> s[j] != x
  {
    if s == [] then -1
    else if s[0] == x then 0
    else
      var r := IndexOf(s[1..], x);
      assert s == [s[0]] + s[1..];
      if r == -1 then -1 else r + 1
  }

  /** `slots.find(x => x.name === name)`, as the position of the first slot with that name, or -1. */
  function SlotIndex(slots: seq<Slot>, name: string): (r: int)
    ensures -1 <= r < |slots|
    ensures r == -1 <==> forall j :: 0 <= j < |slots| ==> slots[j].name != name
    ensures 0 <= r ==> slots[r].name == name && forall j :: 0 <= j < r ==> slots[j].name != name
  {
    if slots == [] then -1
    else if slots[0].name == name then 0
    else
      var r := SlotIndex(slots[1..], name);
      if r == -1 then -1 else r + 1
  }

  /** The value of the form field called `name`, if the form has one. */
  function Lookup(inputs: map<string, RawValue>, name: string): Option<RawValue> {
    if name in inputs then Some(inputs[name]) else None
  }

  /** The z-score `(x - mu) / sd`, or `x` unchanged when `sd` is zero. */
  function Standardize(x: real, mu: real, sd: real): real {
    if sd != 0.0 then (x - mu) / sd else x
  }

  function OneHot(n: nat, pos: nat): seq<real> {
    seq(n, i => if i == pos then 1.0 else 0.0)
  }

  function Zeros(n: nat): seq<real> {
    seq(n, _ => 0.0)
  }

  /**
   * One feature's encoding, read from the feature's own fields: its z-score, its index in
   * `order` or its one-hot pattern over `values`. An unrecognised type encodes to nothing.
   */
  function FeatureEncoding(f: Feature, raw: Option<RawValue>): (r: Result<seq<real>>)
    ensures r.Ok? ==> |r.value| == Width(f.kind)
  {
    match f.kind
    case Num(mean, std) =>
      if raw.None? || raw.value.text == "" then Err(RequiredField(Caption(f)))
      else Ok([Standardize(raw.value.number, mean.GetOr(0.0), std.GetOr(1.0))])
    case Ord(order) =>
      if raw.Some? && raw.value.text == "" then Err(SelectValue(Caption(f)))
      else
        var idx := if raw.None? then -1 else IndexOf(order, raw.value.text);
        if idx == -1 then Err(ValueNotAllowed(Caption(f))) else Ok([idx as real])
    case Nom(values) =>
      if raw.Some? && raw.value.text == "" then Err(SelectValue(Caption(f)))
      else
        var pos := if raw.None? then -1 else IndexOf(values, raw.value.text);
        if pos == -1 then Err(ValueNotAllowed(Caption(f))) else Ok(OneHot(|values|, pos))
    case Unrecognized(_) => Ok([])
  }

  function MeanOf(m: Meta): real {
    match m
    case NumMeta(mean, _) => mean.GetOr(0.0)
    case _ => 0.0
  }

  function StdOf(m: Meta): real {
    match m
    case NumMeta(_, std) => std.GetOr(1.0)
    case _ => 1.0
  }

  function OrderOf(m: Meta): seq<string> {
    match m
    case OrdMeta(order) => order
    case _ => []
  }

  function ValuesOf(m: Meta): seq<string> {
    match m
    case NomMeta(values) => values
    case _ => []
  }

  /**
   * The kind the encoder acts on: the feature's own `type`, with its parameters taken from the
   * slot it found, defaulting as `s.meta.mean ?? 0`, `s.meta.std ?? 1`, `s.meta.order || []`
   * and `s.meta.values || []` do.
   */
  function KindAt(k: Kind, m: Meta): (r: Kind)
    ensures r.Num? == k.Num? && r.Ord? == k.Ord? && r.Nom? == k.Nom? && r.Unrecognized? == k.Unrecognized?
    ensures r.Num? ==> r.mean.GetOr(0.0) == MeanOf(m) && r.std.GetOr(1.0) == StdOf(m)
    ensures r.Ord? ==> r.order == OrderOf(m)
    ensures r.Nom? ==> r.values == ValuesOf(m)
    ensures !k.Unrecognized? && m == MetaOf(k) ==> r == k
  {
    match k
    case Num(_, _) => (match m case NumMeta(mean, std) => Num(mean, std) case _ => Num(None, None))
    case Ord(_) => Ord(OrderOf(m))
    case Nom(_) => Nom(ValuesOf(m))
    case Unrecognized(t) => Unrecognized(t)
  }

  /** The entries a feature overwrites: `vals` from position `start` on. */
  datatype Write = Write(start: nat, vals: seq<real>)

  predicate Touches(w: Write, j: int) {
    w.start <= j < w.start + |w.vals|
  }

  function Apply(v: seq<real>, w: Write): seq<real> {
    seq(|v|, j requires 0 <= j < |v| => if Touches(w, j) then w.vals[j - w.start] else v[j])
  }

  /**
   * What one feature does to the vector: nothing when no slot carries its name or its type is
   * unrecognised, otherwise its encoding at the start of the first slot with its name, or the
   * error that encoding raises.
   */
  function EncodeFeature(f: Feature, slots: seq<Slot>, raw: Option<RawValue>): (r: Result<Option<Write>>)
    ensures r == Ok(None) <==> SlotIndex(slots, f.name) < 0 || f.kind.Unrecognized?
    ensures var idx := SlotIndex(slots, f.name);
            r.Err? ==> 0 <= idx && !f.kind.Unrecognized?
                       && FeatureEncoding(f.(kind := KindAt(f.kind, slots[idx].meta)), raw) == Err(r.error)
    ensures var idx := SlotIndex(slots, f.name);
            r.Ok? && r.value.Some? ==>
              && !f.kind.Unrecognized? && 0 <= idx
              && r.value.value.start == slots[idx].startIndex
              && FeatureEncoding(f.(kind := KindAt(f.kind, slots[idx].meta)), raw) == Ok(r.value.value.vals)
              && |r.value.value.vals| == Width(KindAt(f.kind, slots[idx].meta))
    ensures var idx := SlotIndex(slots, f.name);
            0 <= idx && !f.kind.Unrecognized? ==>
              (r.Err? <==> FeatureEncoding(f.(kind := KindAt(f.kind, slots[idx].meta)), raw).Err?)
  {
    var k := SlotIndex(slots, f.name);
    if k < 0 || f.kind.Unrecognized? then Ok(None)
    else
      var s := slots[k];
      match FeatureEncoding(f.(kind := KindAt(f.kind, s.meta)), raw)
      case Err(e) => Err(e)
      case Ok(vals) => Ok(Some(Write(s.startIndex, vals)))
  }

  /** The vector after the first `k` features, or the first error among them. */
  function EncodePrefix(fs: seq<Feature>, layout: Layout, inputs: map<string, RawValue>, k: nat): (r: Result<seq<real>>)
    requires k <= |fs|
    ensures r.Ok? ==> |r.value| == layout.vectorLength
  {
    if k == 0 then Ok(Zeros(layout.vectorLength))
    else
      match EncodePrefix(fs, layout, inputs, k - 1)
      case Err(e) => Err(e)
      case Ok(v) =>
        match EncodeFeature(fs[k - 1], layout.slots, Lookup(inputs, fs[k - 1].name))
        case Err(e) => Err(e)
        case Ok(None) => Ok(v)
        case Ok(Some(w)) => Ok(Apply(v, w))
  }

  function Encode(fs: seq<Feature>, layout: Layout, inputs: map<string, RawValue>): Result<seq<real>> {
    EncodePrefix(fs, layout, inputs, |fs|)
  }

  /** `encodeFormToVector(features, spec)` with the form read through `inputs`. */
  method EncodeFormToVector(features: seq<Feature>, layout: Layout, inputs: map<string, RawValue>)
    returns (r: Result<seq<real>>)
    requires layout == Compile(features)
    ensures r == Encode(features, layout, inputs)
  {
    var v := new real[layout.vectorLength];
    for i := 0 to v.Length
      invariant forall j :: 0 <= j < i ==> v[j] == 0.0
    {
      v[i] := 0.0;
    }
    assert v[..] == Zeros(layout.vectorLength);
    for k := 0 to |features|
      invariant EncodePrefix(features, layout, inputs, k) == Ok(v[..])
    {
      var err := EncodeField(features, layout, inputs, k, v);
      if err.Some? {
        ErrorPersists(features, layout, inputs, k + 1);
        return Err(err.value);
      }
    }
    r := Ok(v[..]);
  }

  /**
   * The `forEach` callback for the feature at position `k`: it writes the feature's encoding
   * into the first slot with its name, or reports the error that stops the encoding.
   */
  method EncodeField(features: seq<Feature>, layout: Layout, inputs: map<string, RawValue>, k: nat, v: array<real>)
    returns (err: Option<Error>)
    requires layout == Compile(features) && k < |features|
    requires EncodePrefix(features, layout, inputs, k) == Ok(v[..])
    modifies v
    ensures err.None? ==> EncodePrefix(features, layout, inputs, k + 1) == Ok(v[..])
    ensures err.Some? ==> EncodePrefix(features, layout, inputs, k + 1) == Err(err.value)
  {
    var f := features[k];
    var idx := SlotIndex(layout.slots, f.name);
    var raw := Lookup(inputs, f.name);
    ghost var before := v[..];
    if idx < 0 {
      return None;
    }
    var s := layout.slots[idx];
    match f.kind {
      case Num(_, _) =>
        if raw.None? || raw.value.text == "" {
          return Some(RequiredField(Caption(f)));
        }
        var x, mu, sd := raw.value.number, MeanOf(s.meta), StdOf(s.meta);
        var w := Write(s.startIndex, [Standardize(x, mu, sd)]);
        assert EncodeFeature(f, layout.slots, raw) == Ok(Some(w));
        WriteFits(features, k, raw, w);
        v[s.startIndex] := if sd != 0.0 then (x - mu) / sd else x;
        assert v[..] == Apply(before, w);
      case Ord(_) =>
        var order := OrderOf(s.meta);
        if raw.Some? && raw.value.text == "" {
          return Some(SelectValue(Caption(f)));
        }
        var i := if raw.None? then -1 else IndexOf(order, raw.value.text);
        if i == -1 {
          return Some(ValueNotAllowed(Caption(f)));
        }
        var w := Write(s.startIndex, [i as real]);
        assert EncodeFeature(f, layout.slots, raw) == Ok(Some(w));
        WriteFits(features, k, raw, w);
        v[s.startIndex] := i as real;
        assert v[..] == Apply(before, w);
      case Nom(_) =>
        var values := ValuesOf(s.meta);
        if raw.Some? && raw.value.text == "" {
          return Some(SelectValue(Caption(f)));
        }
        var pos := if raw.None? then -1 else IndexOf(values, raw.value.text);
        if pos == -1 {
          return Some(ValueNotAllowed(Caption(f)));
        }
        var w := Write(s.startIndex, OneHot(|values|, pos));
        assert EncodeFeature(f, layout.slots, raw) == Ok(Some(w));
        WriteFits(features, k, raw, w);
        WriteOneHot(v, s.startIndex, |values|, pos);
      case Unrecognized(_) =>
    }
    return None;
  }

  /** `for (i = 0; i < n; i++) v[start + i] = (i === pos) ? 1 : 0` */
  method WriteOneHot(v: array<real>, start: nat, n: nat, pos: nat)
    requires start + n <= v.Length
    modifies v
    ensures v[..] == Apply(old(v[..]), Write(start, OneHot(n, pos)))
  {
    for i := 0 to n
      invariant forall j :: 0 <= j < v.Length ==>
                  v[j] == if start <= j < start + i then (if j - start == pos then 1.0 else 0.0) else old(v[j])
    {
      v[start + i] := if i == pos then 1.0 else 0.0;
    }
  }

  /** Once a prefix has failed, the whole encoding fails with the same error. */
  lemma {:induction false} ErrorPersists(fs: seq<Feature>, layout: Layout, inputs: map<string, RawValue>, k: nat)
    requires k <= |fs| && EncodePrefix(fs, layout, inputs, k).Err?
    ensures Encode(fs, layout, inputs) == EncodePrefix(fs, layout, inputs, k)
    decreases |fs| - k
  {
    if k < |fs| {
      ErrorPersists(fs, layout, inputs, k + 1);
    }
  }

  /** A slot that carries nominal values is as long as its values. */
  lemma NominalSlotLength(fs: seq<Feature>, m: nat)
    requires m < |SlotsOf(fs)| && SlotsOf(fs)[m].meta.NomMeta?
    ensures SlotsOf(fs)[m].length == |SlotsOf(fs)[m].meta.values|
  {
    SlotsFollowFeatures(fs);
    var g := Recognized(fs)[m];
    assert SlotsOf(fs)[m].meta == MetaOf(g.kind);
  }

  /** The kind the encoder reads from a compiled slot is at most as wide as that slot. */
  lemma KindAtWidth(fs: seq<Feature>, m: nat, k: Kind)
    requires m < |SlotsOf(fs)| && !k.Unrecognized?
    ensures k.Nom? ==> Width(KindAt(k, SlotsOf(fs)[m].meta)) <= SlotsOf(fs)[m].length
    ensures !k.Nom? ==> Width(KindAt(k, SlotsOf(fs)[m].meta)) == 1
  {
    if k.Nom? && SlotsOf(fs)[m].meta.NomMeta? {
      NominalSlotLength(fs, m);
    }
  }

  /** A compiled slot ends within the vector. */
  lemma SlotEndsWithin(fs: seq<Feature>, m: nat)
    requires m < |SlotsOf(fs)|
    ensures SlotsOf(fs)[m].startIndex + SlotsOf(fs)[m].length <= Extent(fs)
  {
    SlotsContiguous(fs);
    ContiguousDisjoint(SlotsOf(fs));
  }

  /** Compiled slots start in order. */
  lemma SlotStartsInOrder(fs: seq<Feature>, i: nat, j: nat)
    requires i <= j < |SlotsOf(fs)|
    ensures SlotsOf(fs)[i].startIndex <= SlotsOf(fs)[j].startIndex
  {
    if i < j {
      SlotsContiguous(fs);
      ContiguousDisjoint(SlotsOf(fs));
    }
  }

  /** Under the compiled layout every write a feature makes lies inside the vector. */
  lemma WriteFits(fs: seq<Feature>, k: nat, raw: Option<RawValue>, w: Write)
    requires k < |fs|
    requires EncodeFeature(fs[k], SlotsOf(fs), raw) == Ok(Some(w))
    ensures w.start + |w.vals| <= Extent(fs)
  {
    var slots := SlotsOf(fs);
    var f := fs[k];
    var idx := SlotIndex(slots, f.name);
    KindAtWidth(fs, idx, f.kind);
    if f.kind.Nom? {
      SlotEndsWithin(fs, idx);
    } else {
      // A single entry: it lies before the end of the feature's own slot, which comes no earlier.
      var own := |SlotsOf(fs[..k])|;
      SlotOfFeature(fs, k);
      assert slots[own].name == f.name && slots[own].length == 1;
      SlotStartsInOrder(fs, idx, own);
      SlotEndsWithin(fs, own);
    }
  }

  /** The feature at position `k` fails to encode. */
  predicate FeatureFails(fs: seq<Feature>, layout: Layout, inputs: map<string, RawValue>, k: nat)
    requires k < |fs|
  {
    EncodeFeature(fs[k], layout.slots, Lookup(inputs, fs[k].name)).Err?
  }

  lemma {:induction false} PrefixFailsAtFirstBadField(fs: seq<Feature>, layout: Layout, inputs: map<string, RawValue>, n: nat)
    requires n <= |fs|
    ensures EncodePrefix(fs, layout, inputs, n).Err? <==> exists k :: 0 <= k < n && FeatureFails(fs, layout, inputs, k)
    ensures EncodePrefix(fs, layout, inputs, n).Err? ==>
              exists k :: 0 <= k < n && FeatureFails(fs, layout, inputs, k)
                && (forall j :: 0 <= j < k ==> !FeatureFails(fs, layout, inputs, j))
                && EncodePrefix(fs, layout, inputs, n).error == EncodeFeature(fs[k], layout.slots, Lookup(inputs, fs[k].name)).error
  {
    if n > 0 {
      var p, raw := EncodePrefix(fs, layout, inputs, n - 1), Lookup(inputs, fs[n - 1].name);
      PrefixFailsAtFirstBadField(fs, layout, inputs, n - 1);
      if p.Err? {
        assert EncodePrefix(fs, layout, inputs, n) == p;
        var k :| 0 <= k < n - 1 && FeatureFails(fs, layout, inputs, k)
                 && (forall j :: 0 <= j < k ==> !FeatureFails(fs, layout, inputs, j))
                 && p.error == EncodeFeature(fs[k], layout.slots, Lookup(inputs, fs[k].name)).error;
        assert 0 <= k < n;
      } else if FeatureFails(fs, layout, inputs, n - 1) {
        assert EncodePrefix(fs, layout, inputs, n) == Err(EncodeFeature(fs[n - 1], layout.slots, raw).error);
        assert forall j :: 0 <= j < n - 1 ==> !FeatureFails(fs, layout, inputs, j);
      } else {
        assert EncodePrefix(fs, layout, inputs, n).Ok?;
        forall k | 0 <= k < n
          ensures !FeatureFails(fs, layout, inputs, k)
        {
        }
      }
    }
  }

  /**
   * Encoding fails exactly when some feature fails, and then with the error of the first
   * failing feature: the features are checked in order and the first error wins.
   */
  lemma EncodeFailsAtFirstBadField(fs: seq<Feature>, layout: Layout, inputs: map<string, RawValue>)
    ensures Encode(fs, layout, inputs).Err? <==> exists k :: 0 <= k < |fs| && FeatureFails(fs, layout, inputs, k)
    ensures Encode(fs, layout, inputs).Err? ==>
              exists k :: 0 <= k < |fs| && FeatureFails(fs, layout, inputs, k)
                && (forall j :: 0 <= j < k ==> !FeatureFails(fs, layout, inputs, j))
                && Encode(fs, layout, inputs).error == EncodeFeature(fs[k], layout.slots, Lookup(inputs, fs[k].name)).error
  {
    PrefixFailsAtFirstBadField(fs, layout, inputs, |fs|);
  }

  /** The feature at position `k` overwrites entry `j`. */
  predicate FeatureWrites(fs: seq<Feature>, layout: Layout, inputs: map<string, RawValue>, k: nat, j: int)
    requires k < |fs|
  {
    match EncodeFeature(fs[k], layout.slots, Lookup(inputs, fs[k].name))
    case Ok(Some(w)) => Touches(w, j)
    case _ => false
  }

  lemma {:induction false} PrefixUnwrittenStaysZero(fs: seq<Feature>, layout: Layout, inputs: map<string, RawValue>, n: nat, j: int)
    requires n <= |fs| && EncodePrefix(fs, layout, inputs, n).Ok?
    requires 0 <= j < layout.vectorLength
    requires forall k :: 0 <= k < n ==> !FeatureWrites(fs, layout, inputs, k, j)
    ensures EncodePrefix(fs, layout, inputs, n).value[j] == 0.0
  {
    if n > 0 {
      PrefixUnwrittenStaysZero(fs, layout, inputs, n - 1, j);
      assert !FeatureWrites(fs, layout, inputs, n - 1, j);
    }
  }

  /** An entry that no feature writes keeps the 0 it was filled with. */
  lemma UnwrittenStaysZero(fs: seq<Feature>, layout: Layout, inputs: map<string, RawValue>, j: int)
    requires Encode(fs, layout, inputs).Ok?
    requires 0 <= j < layout.vectorLength
    requires forall k :: 0 <= k < |fs| ==> !FeatureWrites(fs, layout, inputs, k, j)
    ensures Encode(fs, layout, inputs).value[j] == 0.0
  {
    PrefixUnwrittenStaysZero(fs, layout, inputs, |fs|, j);
  }

  /** The reference encoding: every feature's own encoding, concatenated in feature order. */
  function EncodeInOrder(fs: seq<Feature>, inputs: map<string, RawValue>): (r: Result<seq<real>>)
    ensures r.Ok? ==> |r.value| == Extent(fs)
  {
    if fs == [] then Ok([])
    else
      var f := fs[|fs| - 1];
      match EncodeInOrder(fs[..|fs| - 1], inputs)
      case Err(e) => Err(e)
      case Ok(u) =>
        match FeatureEncoding(f, Lookup(inputs, f.name))
        case Err(e) => Err(e)
        case Ok(e) => Ok(u + e)
  }

  function Padded(r: Result<seq<real>>, n: nat): Result<seq<real>> {
    match r
    case Err(e) => Err(e)
    case Ok(u) => Ok(u + Zeros(n))
  }

  /** With unique names, a recognised feature finds the slot it was given itself. */
  lemma OwnSlotFound(fs: seq<Feature>, k: nat)
    requires UniqueNames(fs) && k < |fs| && !fs[k].kind.Unrecognized?
    ensures SlotIndex(SlotsOf(fs), fs[k].name) == |SlotsOf(fs[..k])|
  {
    var slots, m := SlotsOf(fs), |SlotsOf(fs[..k])|;
    SlotOfFeature(fs, k);
    SlotsPrefix(fs, k);
    SlotNamesOccur(fs[..k]);
    forall j | 0 <= j < m
      ensures slots[j].name != fs[k].name
    {
      assert slots[j] == SlotsOf(fs[..k])[j];
      var i :| 0 <= i < |fs[..k]| && fs[..k][i].name == slots[j].name;
      assert fs[i].name == slots[j].name;
    }
    assert slots[m].name == fs[k].name;
  }

  lemma ApplyOnPadded(u: seq<real>, e: seq<real>, n: nat)
    requires |e| <= n
    ensures Apply(u + Zeros(n), Write(|u|, e)) == (u + e) + Zeros(n - |e|)
  {
    var lhs, rhs := Apply(u + Zeros(n), Write(|u|, e)), (u + e) + Zeros(n - |e|);
    assert |lhs| == |rhs|;
    forall j | 0 <= j < |lhs|
      ensures lhs[j] == rhs[j]
    {
    }
  }

  /** How the prefix encoding of the reference grows by one feature: its own encoding, appended. */
  function Extend(r: Result<seq<real>>, e: Result<seq<real>>): Result<seq<real>> {
    match r
    case Err(err) => Err(err)
    case Ok(u) => (match e case Err(err) => Err(err) case Ok(x) => Ok(u + x))
  }

  /** Feature `j` writes its own encoding at the cursor the features before it left. */
  function OwnWrite(fs: seq<Feature>, j: nat, raw: Option<RawValue>): Result<Option<Write>>
    requires j < |fs|
  {
    if fs[j].kind.Unrecognized? then Ok(None)
    else match FeatureEncoding(fs[j], raw)
      case Err(e) => Err(e)
      case Ok(e) => Ok(Some(Write(Extent(fs[..j]), e)))
  }

  /** Every feature's write under `layout` is its own encoding at its own cursor. */
  predicate WritesOwn(fs: seq<Feature>, layout: Layout, inputs: map<string, RawValue>) {
    forall j {:trigger OwnWrite(fs, j, Lookup(inputs, fs[j].name))} :: 0 <= j < |fs| ==>
      EncodeFeature(fs[j], layout.slots, Lookup(inputs, fs[j].name)) == OwnWrite(fs, j, Lookup(inputs, fs[j].name))
  }

  /** With unique names, a feature writes its own encoding at the cursor the features before it left. */
  lemma FeatureWritesOwnEncoding(fs: seq<Feature>, j: nat, raw: Option<RawValue>)
    requires UniqueNames(fs) && j < |fs|
    ensures EncodeFeature(fs[j], SlotsOf(fs), raw) == OwnWrite(fs, j, raw)
  {
    var f := fs[j];
    if !f.kind.Unrecognized? {
      OwnSlotFound(fs, j);
      SlotOfFeature(fs, j);
      EncodeAtOwnMeta(f, SlotsOf(fs), raw, |SlotsOf(fs[..j])|);
    }
  }

  /** A feature whose first slot carries its own parameters encodes exactly as `FeatureEncoding` says. */
  lemma EncodeAtOwnMeta(f: Feature, slots: seq<Slot>, raw: Option<RawValue>, m: nat)
    requires !f.kind.Unrecognized? && m < |slots| && SlotIndex(slots, f.name) == m
    requires slots[m].meta == MetaOf(f.kind)
    ensures EncodeFeature(f, slots, raw) ==
              match FeatureEncoding(f, raw)
              case Err(e) => Err(e)
              case Ok(e) => Ok(Some(Write(slots[m].startIndex, e)))
  {
    assert f.(kind := KindAt(f.kind, MetaOf(f.kind))) == f;
  }

  /** With unique names the compiled layout lets every feature write its own encoding. */
  lemma CompiledWritesOwn(fs: seq<Feature>, inputs: map<string, RawValue>)
    requires UniqueNames(fs)
    ensures WritesOwn(fs, Compile(fs), inputs)
  {
    forall j | 0 <= j < |fs|
      ensures EncodeFeature(fs[j], SlotsOf(fs), Lookup(inputs, fs[j].name)) == OwnWrite(fs, j, Lookup(inputs, fs[j].name))
    {
      FeatureWritesOwnEncoding(fs, j, Lookup(inputs, fs[j].name));
    }
  }

  lemma {:induction false} PrefixMatchesFeatureOrder(fs: seq<Feature>, layout: Layout, inputs: map<string, RawValue>, k: nat)
    requires WritesOwn(fs, layout, inputs) && layout.vectorLength == Extent(fs) && k <= |fs|
    ensures Extent(fs[..k]) <= Extent(fs)
    ensures EncodePrefix(fs, layout, inputs, k) == Padded(EncodeInOrder(fs[..k], inputs), Extent(fs) - Extent(fs[..k]))
  {
    if k == 0 {
      PrefixMatchesBase(fs, layout, inputs);
    } else {
      PrefixMatchesFeatureOrder(fs, layout, inputs, k - 1);
      var raw := Lookup(inputs, fs[k - 1].name);
      assert EncodeFeature(fs[k - 1], layout.slots, raw) == OwnWrite(fs, k - 1, raw);
      PrefixMatchesStep(fs, layout, inputs, k - 1);
    }
  }

  /** Before any feature, the vector is the zero fill. */
  lemma PrefixMatchesBase(fs: seq<Feature>, layout: Layout, inputs: map<string, RawValue>)
    requires layout.vectorLength == Extent(fs)
    ensures Extent(fs[..0]) <= Extent(fs)
    ensures EncodePrefix(fs, layout, inputs, 0) == Padded(EncodeInOrder(fs[..0], inputs), Extent(fs) - Extent(fs[..0]))
  {
    assert fs[..0] == [];
    assert [] + Zeros(Extent(fs)) == Zeros(Extent(fs));
  }

  /** One feature more: the write of feature `j` on the padded reference prefix appends its encoding. */
  lemma PrefixMatchesStep(fs: seq<Feature>, layout: Layout, inputs: map<string, RawValue>, j: nat)
    requires j < |fs| && layout.vectorLength == Extent(fs)
    requires EncodeFeature(fs[j], layout.slots, Lookup(inputs, fs[j].name)) == OwnWrite(fs, j, Lookup(inputs, fs[j].name))
    requires Extent(fs[..j]) <= Extent(fs)
    requires EncodePrefix(fs, layout, inputs, j) == Padded(EncodeInOrder(fs[..j], inputs), Extent(fs) - Extent(fs[..j]))
    ensures Extent(fs[..j + 1]) <= Extent(fs)
    ensures EncodePrefix(fs, layout, inputs, j + 1) ==
              Padded(EncodeInOrder(fs[..j + 1], inputs), Extent(fs) - Extent(fs[..j + 1]))
  {
    var k, n := j + 1, Extent(fs);
    ExtentMonotone(fs, k);
    var f, pre := fs[j], fs[..j];
    var raw := Lookup(inputs, f.name);
    PrefixStep(fs, layout, inputs, j);
    InOrderStep(fs, inputs, j);
    PaddedStep(EncodeInOrder(pre, inputs), FeatureEncoding(f, raw), OwnWrite(fs, j, raw),
               Extent(pre), n - Extent(pre), n - Extent(fs[..k]), f.kind.Unrecognized?);
  }

  /** How one more feature changes the vector. */
  function StepWith(r: Result<seq<real>>, e: Result<Option<Write>>): Result<seq<real>> {
    match r
    case Err(x) => Err(x)
    case Ok(v) =>
      match e
      case Err(x) => Err(x)
      case Ok(None) => Ok(v)
      case Ok(Some(w)) => Ok(Apply(v, w))
  }

  lemma PrefixStep(fs: seq<Feature>, layout: Layout, inputs: map<string, RawValue>, j: nat)
    requires j < |fs|
    ensures EncodePrefix(fs, layout, inputs, j + 1) ==
              StepWith(EncodePrefix(fs, layout, inputs, j), EncodeFeature(fs[j], layout.slots, Lookup(inputs, fs[j].name)))
  {
  }

  lemma InOrderStep(fs: seq<Feature>, inputs: map<string, RawValue>, j: nat)
    requires j < |fs|
    ensures Extent(fs[..j + 1]) == Extent(fs[..j]) + Width(fs[j].kind)
    ensures EncodeInOrder(fs[..j + 1], inputs) ==
              Extend(EncodeInOrder(fs[..j], inputs), FeatureEncoding(fs[j], Lookup(inputs, fs[j].name)))
  {
    assert fs[..j + 1][..j] == fs[..j];
    assert fs[..j + 1][j] == fs[j];
  }

  /**
   * The padded reference prefix `r`, ending at `cursor`, followed by a feature encoding `e`
   * written at `cursor` (or nothing, when `skip`), is the padded reference prefix one feature longer.
   */
  lemma PaddedStep(r: Result<seq<real>>, e: Result<seq<real>>, w: Result<Option<Write>>,
                   cursor: nat, rest: nat, after: nat, skip: bool)
    requires r.Ok? ==> |r.value| == cursor
    requires skip ==> e == Ok([]) && w == Ok(None)
    requires !skip ==> w == match e case Err(x) => Err(x) case Ok(v) => Ok(Some(Write(cursor, v)))
    requires e.Ok? ==> |e.value| + after == rest
    ensures StepWith(Padded(r, rest), w) == Padded(Extend(r, e), after)
  {
    if r.Ok? && e.Ok? {
      AppendEncoding(r.value, e.value, rest, skip);
    }
  }

  /** Writing `e` at the end of `u` into the zero padding, or writing nothing when `e` is empty. */
  lemma AppendEncoding(u: seq<real>, e: seq<real>, n: nat, skip: bool)
    requires |e| <= n && (skip ==> e == [])
    ensures (if skip then u + Zeros(n) else Apply(u + Zeros(n), Write(|u|, e))) == (u + e) + Zeros(n - |e|)
  {
    if skip {
      assert u + e == u;
    } else {
      ApplyOnPadded(u, e, n);
    }
  }

  /**
   * With unique names and the compiled layout, the encoded vector is the features' own
   * encodings laid end to end, and it fails with the first failing feature's error.
   */
  lemma EncodeMatchesFeatureOrder(fs: seq<Feature>, inputs: map<string, RawValue>)
    requires UniqueNames(fs)
    ensures Encode(fs, Compile(fs), inputs) == EncodeInOrder(fs, inputs)
  {
    CompiledWritesOwn(fs, inputs);
    PrefixMatchesFeatureOrder(fs, Compile(fs), inputs, |fs|);
    assert fs[..|fs|] == fs;
    match EncodeInOrder(fs, inputs)
    case Err(_) =>
    case Ok(u) =>
      assert u + Zeros(0) == u;
  }

  /** A successful reference encoding starts with the reference encoding of every prefix. */
  lemma {:induction false} InOrderPrefix(fs: seq<Feature>, inputs: map<string, RawValue>, k: nat)
    requires k <= |fs| && EncodeInOrder(fs, inputs).Ok?
    ensures EncodeInOrder(fs[..k], inputs).Ok? && Extent(fs[..k]) <= Extent(fs)
    ensures EncodeInOrder(fs, inputs).value[..Extent(fs[..k])] == EncodeInOrder(fs[..k], inputs).value
    decreases |fs|
  {
    ExtentMonotone(fs, k);
    if k == |fs| {
      assert fs[..k] == fs;
    } else {
      var m := |fs| - 1;
      var init := fs[..m];
      InOrderStep(fs, inputs, m);
      assert fs[..m + 1] == fs;
      InOrderPrefix(init, inputs, k);
      assert init[..k] == fs[..k];
      var u, e := EncodeInOrder(init, inputs).value, FeatureEncoding(fs[m], Lookup(inputs, fs[m].name)).value;
      var lo := Extent(fs[..k]);
      assert EncodeInOrder(fs, inputs).value == u + e;
      assert (u + e)[..lo] == u[..lo];
    }
  }

  /** In the reference encoding, feature `k`'s encoding sits between the cursors before and after it. */
  lemma SegmentOfFeature(fs: seq<Feature>, inputs: map<string, RawValue>, k: nat)
    requires k < |fs| && EncodeInOrder(fs, inputs).Ok?
    ensures Extent(fs[..k]) <= Extent(fs[..k + 1]) <= Extent(fs)
    ensures FeatureEncoding(fs[k], Lookup(inputs, fs[k].name)).Ok?
    ensures EncodeInOrder(fs, inputs).value[Extent(fs[..k])..Extent(fs[..k + 1])]
            == FeatureEncoding(fs[k], Lookup(inputs, fs[k].name)).value
  {
    InOrderPrefix(fs, inputs, k);
    InOrderPrefix(fs, inputs, k + 1);
    InOrderStep(fs, inputs, k);
    var v := EncodeInOrder(fs, inputs).value;
    var lo, hi := Extent(fs[..k]), Extent(fs[..k + 1]);
    var u, e := EncodeInOrder(fs[..k], inputs).value, FeatureEncoding(fs[k], Lookup(inputs, fs[k].name)).value;
    assert v[..hi] == u + e;
    assert v[lo..hi] == (u + e)[lo..];
  }

  /**
   * With unique names and the compiled layout, every recognised feature's slot holds exactly
   * that feature's own encoding.
   */
  lemma SlotHoldsFeatureEncoding(fs: seq<Feature>, inputs: map<string, RawValue>, k: nat)
    requires UniqueNames(fs) && k < |fs| && !fs[k].kind.Unrecognized?
    requires Encode(fs, Compile(fs), inputs).Ok?
    ensures 0 <= SlotIndex(Compile(fs).slots, fs[k].name)
    ensures var s := Compile(fs).slots[SlotIndex(Compile(fs).slots, fs[k].name)];
            && s.startIndex + s.length <= Compile(fs).vectorLength
            && FeatureEncoding(fs[k], Lookup(inputs, fs[k].name)).Ok?
            && Encode(fs, Compile(fs), inputs).value[s.startIndex..s.startIndex + s.length]
               == FeatureEncoding(fs[k], Lookup(inputs, fs[k].name)).value
  {
    EncodeMatchesFeatureOrder(fs, inputs);
    OwnSlotFound(fs, k);
    SlotOfFeature(fs, k);
    InOrderStep(fs, inputs, k);
    SegmentOfFeature(fs, inputs, k);
    var s := SlotsOf(fs)[|SlotsOf(fs[..k])|];
    assert s.startIndex == Extent(fs[..k]) && s.startIndex + s.length == Extent(fs[..k + 1]);
  }

  /**
   * A numeric field fails exactly when it is missing or empty; otherwise it holds the z-score,
   * which maps back to the raw number, or the raw number itself when `std` is 0.
   */
  lemma NumericEncoding(f: Feature, raw: Option<RawValue>)
    requires f.kind.Num?
    ensures FeatureEncoding(f, raw).Err? <==> raw.None? || raw.value.text == ""
    ensures FeatureEncoding(f, raw).Err? ==> FeatureEncoding(f, raw).error == RequiredField(Caption(f))
    ensures FeatureEncoding(f, raw).Ok? ==>
              var z, x, mu, sd := FeatureEncoding(f, raw).value, raw.value.number, f.kind.mean.GetOr(0.0), f.kind.std.GetOr(1.0);
              && |z| == 1
              && (sd != 0.0 ==> z[0] * sd + mu == x)
              && (sd == 0.0 ==> z[0] == x)
  {
  }

  /** A numeric field holding exactly the mean encodes to 0 when `std` is non-zero. */
  lemma MeanEncodesToZero(f: Feature, raw: Option<RawValue>)
    requires f.kind.Num? && f.kind.std.GetOr(1.0) != 0.0
    requires raw.Some? && raw.value.text != "" && raw.value.number == f.kind.mean.GetOr(0.0)
    ensures FeatureEncoding(f, raw) == Ok([0.0])
  {
  }

  /**
   * An ordinal field fails on the empty option or on a value outside `order`; otherwise it
   * holds the first position of its value in `order`.
   */
  lemma OrdinalEncoding(f: Feature, raw: Option<RawValue>)
    requires f.kind.Ord?
    ensures FeatureEncoding(f, raw).Ok? <==> raw.Some? && raw.value.text != "" && raw.value.text in f.kind.order
    ensures raw.Some? && raw.value.text == "" ==> FeatureEncoding(f, raw) == Err(SelectValue(Caption(f)))
    ensures raw.None? || (raw.value.text != "" && raw.value.text !in f.kind.order) ==>
              FeatureEncoding(f, raw) == Err(ValueNotAllowed(Caption(f)))
    ensures FeatureEncoding(f, raw).Ok? ==>
              exists i :: 0 <= i < |f.kind.order| && FeatureEncoding(f, raw).value == [i as real]
                && f.kind.order[i] == raw.value.text && forall j :: 0 <= j < i ==> f.kind.order[j] != raw.value.text
  {
    if FeatureEncoding(f, raw).Ok? {
      var i := IndexOf(f.kind.order, raw.value.text);
      assert FeatureEncoding(f, raw).value == [i as real];
    }
  }

  /** With distinct categories, the first one encodes to 0 and the last one to `|order| - 1`. */
  lemma OrdinalEnds(f: Feature, first: RawValue, last: RawValue)
    requires f.kind.Ord? && |f.kind.order| > 0
    requires forall i, j :: 0 <= i < j < |f.kind.order| ==> f.kind.order[i] != f.kind.order[j]
    requires first.text == f.kind.order[0] && last.text == f.kind.order[|f.kind.order| - 1]
    requires first.text != "" && last.text != ""
    ensures FeatureEncoding(f, Some(first)) == Ok([0.0])
    ensures FeatureEncoding(f, Some(last)) == Ok([(|f.kind.order| - 1) as real])
  {
    var order := f.kind.order;
    var i := IndexOf(order, last.text);
    assert order[i] == order[|order| - 1];
  }

  /**
   * A nominal field fails on the empty option or on a value outside `values`; otherwise it holds
   * one entry per value, exactly one of them 1 (at the first match) and the rest 0.
   */
  lemma NominalEncoding(f: Feature, raw: Option<RawValue>)
    requires f.kind.Nom?
    ensures FeatureEncoding(f, raw).Ok? <==> raw.Some? && raw.value.text != "" && raw.value.text in f.kind.values
    ensures raw.Some? && raw.value.text == "" ==> FeatureEncoding(f, raw) == Err(SelectValue(Caption(f)))
    ensures raw.None? || (raw.value.text != "" && raw.value.text !in f.kind.values) ==>
              FeatureEncoding(f, raw) == Err(ValueNotAllowed(Caption(f)))
    ensures FeatureEncoding(f, raw).Ok? ==>
              var z := FeatureEncoding(f, raw).value;
              && |z| == |f.kind.values|
              && exists pos :: 0 <= pos < |z| && f.kind.values[pos] == raw.value.text
                   && (forall j :: 0 <= j < pos ==> f.kind.values[j] != raw.value.text)
                   && z[pos] == 1.0
                   && (forall j :: 0 <= j < |z| && j != pos ==> z[j] == 0.0)
  {
    if FeatureEncoding(f, raw).Ok? {
      var pos := IndexOf(f.kind.values, raw.value.text);
      assert FeatureEncoding(f, raw).value[pos] == 1.0;
    }
  }
}
