/**
 * The JavaScript values the codec encodes and builds: `null`, `undefined`,
 * booleans, (integral) numbers, strings, byte arrays, arrays and plain
 * objects, with the few JavaScript operations the traversal applies to them.
 */
module Js {
  import opened Wrappers
  import opened Bytes

  datatype Value =
    | VUndefined
    | VNull
    | VBool(b: bool)
    | VNumber(n: int)
    | VString(s: string)
    | VBytes(bytes: seq<byte>)
    | VArray(elems: seq<Value>)
    | VObject(props: map<string, Value>)

  /** `v == null`: loose equality holds for both `null` and `undefined`. */
  predicate IsNullish(v: Value)
  {
    v.VUndefined? || v.VNull?
  }

  /** JavaScript truthiness, as `js && …` tests it. */
  predicate Truthy(v: Value)
  {
    match v
    case VUndefined => false
    case VNull => false
    case VBool(b) => b
    case VNumber(n) => n != 0
    case VString(s) => s != ""
    case _ => true
  }

  /** `name in v`: a TypeError unless `v` is an object; arrays and byte arrays have no named fields. */
  function HasProperty(v: Value, name: string): (r: Result<bool>)
    ensures r.Ok? <==> v.VObject? || v.VArray? || v.VBytes?
  {
    match v
    case VObject(props) => Ok(name in props)
    case VArray(_) => Ok(false)
    case VBytes(_) => Ok(false)
    case _ => Err(JsTypeError)
  }

  /** `v[name]`: a TypeError on `null` and `undefined`, `undefined` for a missing property. */
  function GetProperty(v: Value, name: string): (r: Result<Value>)
    ensures r.Err? <==> IsNullish(v)
    ensures r.Ok? && v.VObject? && name in v.props ==> r.value == v.props[name]
  {
    match v
    case VUndefined => Err(JsTypeError)
    case VNull => Err(JsTypeError)
    case VObject(props) => Ok(if name in props then props[name] else VUndefined)
    case _ => Ok(VUndefined)
  }
}
