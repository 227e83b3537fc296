/**
 * The classifier's data model: the feature-space descriptor it loads, the raw form values it
 * reads and the errors its submit path reports.
 */
module Types {

  datatype Option<T> = None | Some(value: T) {
    /** `x ?? default` */
    function GetOr(default: T): T {
      match this
      case Some(v) => v
      case None => default
    }
  }

  /** The messages the submit handler shows, with the label or cluster they name. */
  datatype Error =
    | RequiredField(field: string)       // a numeric field left empty
    | SelectValue(field: string)         // an ordinal or nominal field left on the empty option
    | ValueNotAllowed(field: string)     // a category that is not in `order` / `values`
    | DimensionMismatch(cluster: int, actual: nat, expected: nat)

  datatype Result<T> = Ok(value: T) | Err(error: Error)

  /**
   * A feature's `type` together with the fields that type reads: `num` carries `mean` and
   * `std` (either may be missing), `ord` its `order`, `nom` its `values`. Any other `type`
   * string is Unrecognized.
   */
  datatype Kind =
    | Num(mean: Option<real>, std: Option<real>)
    | Ord(order: seq<string>)
    | Nom(values: seq<string>)
    | Unrecognized(tag: string)

  datatype Feature = Feature(name: string, labelText: Option<string>, kind: Kind)

  /** `f.label ?? f.name`: how error messages refer to a feature. */
  function Caption(f: Feature): string {
    f.labelText.GetOr(f.name)
  }

  /** The feature descriptor's own invariant: no two features share a name. */
  predicate UniqueNames(fs: seq<Feature>) {
    forall i, j :: 0 <= i < j < |fs| ==> fs[i].name != fs[j].name
  }

  /**
   * The value of a form field: its text, and the number `Number(text)` reads from it
   * (only numeric features use the latter).
   */
  datatype RawValue = RawValue(text: string, number: real)
}
