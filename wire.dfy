/**
 * Wire types: the schema that drives the traversal. `wire.ts` is not part of
 * this model; the type tree, its labeled-ness test and its printer are given
 * here as the encoder and decoder use them.
 */
module Wire {
  import opened Wrappers

  type DedupeKey = string

  datatype Type =
    | Nullable(of: Type, dedupeKey: Option<DedupeKey>)
    | Dedupe(key: DedupeKey, of: Type)
    | Record(fields: seq<Field>)
    | Array(of: Type)
    | String
    | Bytes
    | Int32
    | Boolean
    | Null
    | Float64
    | Fixed(length: nat)
    | Variant

  datatype Field = Field(name: string, ty: Type, omittable: bool)

  /**
   * `Wire.isLabeled`: whether the type's encoding in the main block starts
   * with a label of its own, so that no NonNull marker is needed before it.
   * Int32 writes nothing to the main block and a record starts with its first
   * field, so neither is labeled (encoder.ts:256-265).
   */
  predicate IsLabeled(t: Type)
  {
    match t
    case Nullable(_, _) => true
    case String => true
    case Bytes => true
    case Boolean => true
    case Array(_) => true
    case Variant => true
    case Dedupe(_, of) => IsLabeled(of)
    case _ => false
  }

  /** `Wire.print`, as far as the decoder's reader keys need it. */
  function Print(t: Type): string
  {
    match t
    case Nullable(of, _) => Print(of) + "?"
    case Dedupe(key, of) => Print(of) + "<" + key + ">"
    case Record(_) => "RECORD"
    case Array(of) => "[" + Print(of) + "]"
    case String => "STRING"
    case Bytes => "BYTES"
    case Int32 => "INT32"
    case Boolean => "BOOLEAN"
    case Null => "NULL"
    case Float64 => "FLOAT64"
    case Fixed(_) => "FIXED"
    case Variant => "VARIANT"
  }
}
