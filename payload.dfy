/**
 * The byte payloads of deduplicated scalars: UTF-8 for STRING
 * (`utf8encode`, `utf8decode`) and the bytes themselves for BYTES.
 */
module Payload {
  import opened Wrappers
  import opened Bytes
  import opened Js
  import Utf8

  datatype Kind = Utf8String | RawBytes

  /** A writer's `valueToBytes`; a value of the wrong JavaScript type is refused. */
  function ToBytes(k: Kind, v: Value): (r: Result<seq<byte>>)
    ensures r.Ok? <==> (k == Utf8String && v.VString?) || (k == RawBytes && v.VBytes?)
  {
    match k
    case Utf8String => if v.VString? then Ok(Utf8.Encode(v.s)) else Err(TypeMismatch)
    case RawBytes => if v.VBytes? then Ok(v.bytes) else Err(TypeMismatch)
  }

  /** A reader's `fromBytes`, which for strings drops a leading byte order mark. */
  function FromBytes(k: Kind, b: seq<byte>): Value
  {
    match k
    case Utf8String => VString(Utf8.Decode(b))
    case RawBytes => VBytes(b)
  }

  /** The value a writer's payload was made from: the payload decoded with a leading byte order mark kept. */
  function Source(k: Kind, b: seq<byte>): Value
  {
    match k
    case Utf8String => VString(Utf8.DecodeAll(b))
    case RawBytes => VBytes(b)
  }

  /** What a value reads back as through its payload: a string loses one leading byte order mark. */
  function Stripped(v: Value): Value
  {
    if v.VString? then VString(Utf8.StripBom(v.s)) else v
  }

  /**
   * Every payload a writer produces comes from the value it was made from,
   * and reads back as that value without a leading byte order mark.
   */
  lemma FromToBytes(k: Kind, v: Value)
    requires ToBytes(k, v).Ok?
    ensures Source(k, ToBytes(k, v).value) == v
    ensures FromBytes(k, ToBytes(k, v).value) == Stripped(v)
  {
    if k == Utf8String {
      Utf8.DecodeAllEncode(v.s);
      Utf8.DecodeEncode(v.s);
    }
  }

  /** Any payload reads back as the value it comes from, without a leading byte order mark. */
  lemma FromBytesSource(k: Kind, b: seq<byte>)
    ensures FromBytes(k, b) == Stripped(Source(k, b))
  {
    if k == Utf8String {
      Utf8.DecodeDropsBom(b);
    }
  }
}
