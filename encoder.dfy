/**
 * The schema-driven encoder (encoder.ts). `writeCedar` walks a JavaScript
 * value along its wire type, appending labels and markers to the main
 * message and handing scalars to the writer of their deduplication key;
 * `getResult` lays the writers' blocks and the main message out as a framed
 * message.
 *
 * What the traversal computes is given as functions on the encoder's state
 * (`EncodeValue` and its helpers), which `CedarEncoder`'s methods are
 * specified by. The traversal reproduces the source's branches as written,
 * including the ones where the decoder does not read back what is written.
 */
module Encoder {
  import opened Wrappers
  import opened Bytes
  import opened Label
  import opened Js
  import opened Wire
  import opened Dedup
  import Payload
  import Framing
  import Utf8
  import Buf

  /** An entry of the encoder's writer map; the map iterates in insertion order. */
  datatype Entry = Entry(key: DedupeKey, writer: Writer)

  /** The encoder's state: the main message so far, and the writers in the order they were made. */
  datatype EncState = EncState(buf: seq<byte>, writers: seq<Entry>)

  const Initial: EncState := EncState([], [])

  /** `this.buf.write(bytes)`. */
  function Emit(s: EncState, bytes: seq<byte>): (r: EncState)
    ensures r.buf == s.buf + bytes && r.writers == s.writers
  {
    s.(buf := s.buf + bytes)
  }

  /** No two entries of the writer map share a key. */
  ghost predicate KeysDistinct(ws: seq<Entry>)
  {
    forall i, j :: 0 <= i < j < |ws| ==> ws[i].key != ws[j].key
  }

  /** `writers.get(key)`: the position of the entry with that key. */
  function Find(ws: seq<Entry>, key: DedupeKey): (r: Option<nat>)
    ensures r.Some? ==> r.value < |ws| && ws[r.value].key == key
    ensures r.None? <==> forall i :: 0 <= i < |ws| ==> ws[i].key != key
  {
    if ws == [] then None
    else if ws[0].key == key then Some(0)
    else match Find(ws[1..], key)
      case None => None
      case Some(i) => Some(i + 1)
  }

  /** `makeWriter`: a deduplicating writer of UTF-8 or raw payloads, a varint writer for INT32. */
  function MakeWriter(t: Type): (r: Result<Writer>)
    ensures r.Ok? ==> WriterValid(r.value) && r.value.valuesAsBytes == []
    ensures r.Err? <==> !(t.String? || t.Bytes? || t.Int32?)
  {
    match t
    case String =>
      FreshTrackerNumbered();
      Ok(DeduplicatingWriter(Payload.Utf8String, FreshTracker, []))
    case Bytes =>
      FreshTrackerNumbered();
      Ok(DeduplicatingWriter(Payload.RawBytes, FreshTracker, []))
    case Int32 => Ok(BytesWriter([]))
    case _ => Err(UnsupportedDedupeType)
  }

  /**
   * `getWriter`: the writer already kept under `key`, or a new one made for
   * `t` and kept under `key` after all the others; its position in the map.
   */
  function SelectWriter(s: EncState, key: DedupeKey, t: Type): (r: Result<(nat, EncState)>)
    ensures r.Ok? ==>
      && r.value.0 < |r.value.1.writers|
      && r.value.1.writers[r.value.0].key == key
      && r.value.1.buf == s.buf
      && (Find(s.writers, key).Some? ==> r.value == (Find(s.writers, key).value, s))
      && (Find(s.writers, key).None? ==>
            && r.value.0 == |s.writers|
            && MakeWriter(t).Ok?
            && r.value.1.writers == s.writers + [Entry(key, MakeWriter(t).value)])
    ensures r.Err? <==> Find(s.writers, key).None? && MakeWriter(t).Err?
  {
    match Find(s.writers, key)
    case Some(i) => Ok((i, s))
    case None =>
      var w :- MakeWriter(t);
      Ok((|s.writers|, s.(writers := s.writers + [Entry(key, w)])))
  }

  /**
   * `write`: hand `v` to the writer of `key`, and append the label it returns,
   * if any, to the main message. There must be a deduplication key.
   */
  function WriteScalar(s: EncState, key: Option<DedupeKey>, t: Type, v: Value): (r: Result<(Option<int>, EncState)>)
    ensures key.None? ==> r == Err(MissingDedupeKey)
  {
    if key.None? then Err(MissingDedupeKey)
    else
      var got :- SelectWriter(s, key.value, t);
      var i := got.0;
      var s1 := got.1;
      var written :- WriterWrite(s1.writers[i].writer, v);
      var s2 := s1.(writers := s1.writers[i := Entry(key.value, written.1)]);
      if written.0.Some? then Ok((written.0, Emit(s2, Encode(written.0.value)))) else Ok((None, s2))
  }

  /** `js && name in js && js[name] != null`: whether the record's field counts as present. */
  function FieldPresent(js: Value, name: string): (r: Result<bool>)
    ensures !Truthy(js) ==> r == Ok(false)
    ensures js.VObject? ==> r == Ok(name in js.props && !IsNullish(js.props[name]))
    ensures (js.VArray? || js.VBytes?) ==> r == Ok(false)
    ensures Truthy(js) && !(js.VObject? || js.VArray? || js.VBytes?) ==> r == Err(JsTypeError)
  {
    if !Truthy(js) then Ok(false)
    else
      var has :- HasProperty(js, name);
      if !has then Ok(false)
      else
        Ok(!IsNullish(GetProperty(js, name).value))
  }

  /** `omittable && js && (!(name in js) || js[name] === undefined)`: whether an absent field is written as Absent. */
  function FieldOmitted(js: Value, f: Field): (r: Result<bool>)
    ensures !f.omittable || !Truthy(js) ==> r == Ok(false)
    ensures f.omittable && js.VObject? ==> r == Ok(f.name !in js.props || js.props[f.name] == VUndefined)
  {
    if !f.omittable || !Truthy(js) then Ok(false)
    else
      var has :- HasProperty(js, f.name);
      if !has then Ok(true)
      else
        Ok(GetProperty(js, f.name).value == VUndefined)
  }

  /** `writeCedar(js, wt, encoder, dedupeKey)`: the state after writing `js` as `wt`. */
  function EncodeValue(s: EncState, js: Value, wt: Type, key: Option<DedupeKey>): Result<EncState>
    decreases wt, 1
  {
    match wt
    case Nullable(of, dk) =>
      // A null value gets the Null marker and then goes on down the type like any other value.
      var s1 := if IsNullish(js) then Emit(s, Encode(NullMarker)) else s;
      var s2 := if !IsLabeled(of) then Emit(s1, Encode(NonNullMarker)) else s1;
      EncodeValue(s2, js, of, dk)
    case Dedupe(k, of) =>
      if key.Some? then Err(NestedDedupe) else EncodeValue(s, js, of, Some(k))
    case Record(fields) => EncodeFields(s, js, fields, 0)
    case String | Bytes | Int32 =>
      var w :- WriteScalar(s, key, wt, js);
      Ok(w.1)
    case Null => Ok(s)
    case Boolean => Ok(Emit(s, Encode(if Truthy(js) then TrueMarker else FalseMarker)))
    case Float64 => Err(NotImplemented)
    case Fixed(_) => if js.VBytes? then Ok(Emit(s, js.bytes)) else Err(TypeMismatch)
    case Array(of) =>
      if !js.VArray? then Err(NotAnArray)
      else EncodeElements(Emit(s, Encode(|js.elems|)), js.elems, of, 0)
    case Variant => Err(NotImplemented)
  }

  /** The record loop from field `i` on. */
  function EncodeFields(s: EncState, js: Value, fields: seq<Field>, i: nat): Result<EncState>
    decreases Record(fields), 0, |fields| - i
  {
    if i >= |fields| then Ok(s)
    else
      var s1 :- EncodeField(s, js, fields[i]);
      EncodeFields(s1, js, fields, i + 1)
  }

  /** One pass of the record loop: a present field, an omitted one, a missing nullable one, or a throw. */
  function EncodeField(s: EncState, js: Value, f: Field): Result<EncState>
    decreases f.ty, 2
  {
    var present :- FieldPresent(js, f.name);
    if present then
      var s1 := if f.omittable && !IsLabeled(f.ty) then Emit(s, Encode(NonNullMarker)) else s;
      var v :- GetProperty(js, f.name);
      EncodeValue(s1, v, f.ty, None)
    else
      var omitted :- FieldOmitted(js, f);
      if omitted then Ok(Emit(s, Encode(AbsentMarker)))
      else if f.ty.Nullable? then
        var v :- GetProperty(js, f.name);
        EncodeValue(s, v, f.ty, None)
      else Err(MissingField)
  }

  /** The `forEach` over an array's elements from element `i` on. */
  function EncodeElements(s: EncState, elems: seq<Value>, of: Type, i: nat): Result<EncState>
    decreases Array(of), 0, |elems| - i
  {
    if i >= |elems| then Ok(s)
    else
      var s1 :- EncodeValue(s, elems[i], of, None);
      EncodeElements(s1, elems, of, i + 1)
  }

  /** The writer map's invariant: distinct keys, and every writer's payloads are what its tracker numbered. */
  ghost predicate Valid(s: EncState)
  {
    && KeysDistinct(s.writers)
    && forall i :: 0 <= i < |s.writers| ==> WriterValid(s.writers[i].writer)
  }

  /** `s'` grows `s`: the main message and each writer's payloads are only appended to, and writers are only added after the others. */
  ghost predicate Extends(s: EncState, s': EncState)
  {
    && s.buf <= s'.buf
    && |s.writers| <= |s'.writers|
    && forall i :: 0 <= i < |s.writers| ==>
         && s'.writers[i].key == s.writers[i].key
         && s'.writers[i].writer.DeduplicatingWriter? == s.writers[i].writer.DeduplicatingWriter?
         && s.writers[i].writer.valuesAsBytes <= s'.writers[i].writer.valuesAsBytes
  }

  lemma ExtendsTrans(s1: EncState, s2: EncState, s3: EncState)
    requires Extends(s1, s2) && Extends(s2, s3)
    ensures Extends(s1, s3)
  {
  }

  /** `getWriter` keeps the invariant and only grows the state. */
  lemma SelectWriterValid(s: EncState, key: DedupeKey, t: Type)
    requires Valid(s)
    requires SelectWriter(s, key, t).Ok?
    ensures var s' := SelectWriter(s, key, t).value.1; Valid(s') && Extends(s, s')
  {
  }

  /** A writer write keeps the writer valid, of the same kind, and only appends to its payloads. */
  lemma WriterWriteGrows(w: Writer, v: Value)
    requires WriterValid(w)
    requires WriterWrite(w, v).Ok?
    ensures var w' := WriterWrite(w, v).value.1;
      WriterValid(w') && w'.DeduplicatingWriter? == w.DeduplicatingWriter? && w.valuesAsBytes <= w'.valuesAsBytes
  {
    WriterWriteValid(w, v);
  }

  /** Replacing a writer by a valid one that grows it, under the same key, keeps the invariant and grows the state. */
  lemma ReplaceWriterValid(s: EncState, i: nat, w: Writer)
    requires Valid(s) && i < |s.writers|
    requires WriterValid(w)
    requires w.DeduplicatingWriter? == s.writers[i].writer.DeduplicatingWriter?
    requires s.writers[i].writer.valuesAsBytes <= w.valuesAsBytes
    ensures var s' := s.(writers := s.writers[i := Entry(s.writers[i].key, w)]); Valid(s') && Extends(s, s')
  {
  }

  /** `write` keeps the invariant and only grows the state. */
  lemma WriteValid(s: EncState, key: Option<DedupeKey>, t: Type, v: Value)
    requires Valid(s)
    requires WriteScalar(s, key, t, v).Ok?
    ensures var s' := WriteScalar(s, key, t, v).value.1; Valid(s') && Extends(s, s')
  {
    var got := SelectWriter(s, key.value, t).value;
    var i := got.0;
    var s1 := got.1;
    SelectWriterValid(s, key.value, t);
    var w := s1.writers[i].writer;
    WriterWriteGrows(w, v);
    var written := WriterWrite(w, v).value;
    ReplaceWriterValid(s1, i, written.1);
    var s2 := s1.(writers := s1.writers[i := Entry(key.value, written.1)]);
    ExtendsTrans(s, s1, s2);
  }

  /**
   * The key a NULLABLE passes down to a type that is not a scalar matters
   * only to a DEDUPE, which throws on it; every other type ignores it.
   */
  lemma PassedKeyIgnored(s: EncState, js: Value, of: Type, dk: Option<DedupeKey>)
    requires !(of.String? || of.Bytes? || of.Int32?)
    ensures EncodeValue(s, js, of, dk)
         == if of.Dedupe? && dk.Some? then Err(NestedDedupe) else EncodeValue(s, js, of, None)
  {
  }

  /**
   * Writing a value keeps the writer map's invariant, and only appends: to the
   * main message, to each writer's payloads, and to the writer map.
   */
  lemma {:induction false} EncodeValueValid(s: EncState, js: Value, wt: Type, key: Option<DedupeKey>)
    requires Valid(s)
    requires EncodeValue(s, js, wt, key).Ok?
    ensures Valid(EncodeValue(s, js, wt, key).value) && Extends(s, EncodeValue(s, js, wt, key).value)
    decreases wt, 1
  {
    match wt
    case Nullable(of, dk) =>
      var s1 := if IsNullish(js) then Emit(s, Encode(NullMarker)) else s;
      var s2 := if !IsLabeled(of) then Emit(s1, Encode(NonNullMarker)) else s1;
      EncodeValueValid(s2, js, of, dk);
      ExtendsTrans(s, s2, EncodeValue(s2, js, of, dk).value);
    case Dedupe(k, of) =>
      EncodeValueValid(s, js, of, Some(k));
    case Record(fields) =>
      EncodeFieldsValid(s, js, fields, 0);
    case String =>
      WriteValid(s, key, wt, js);
    case Bytes =>
      WriteValid(s, key, wt, js);
    case Int32 =>
      WriteValid(s, key, wt, js);
    case Null =>
    case Boolean =>
    case Float64 =>
    case Fixed(_) =>
    case Array(of) =>
      var s1 := Emit(s, Encode(|js.elems|));
      EncodeElementsValid(s1, js.elems, of, 0);
      ExtendsTrans(s, s1, EncodeElements(s1, js.elems, of, 0).value);
    case Variant =>
  }

  lemma {:induction false} EncodeFieldsValid(s: EncState, js: Value, fields: seq<Field>, i: nat)
    requires Valid(s)
    requires EncodeFields(s, js, fields, i).Ok?
    ensures Valid(EncodeFields(s, js, fields, i).value) && Extends(s, EncodeFields(s, js, fields, i).value)
    decreases Record(fields), 0, |fields| - i
  {
    if i < |fields| {
      EncodeFieldValid(s, js, fields[i]);
      var s1 := EncodeField(s, js, fields[i]).value;
      EncodeFieldsValid(s1, js, fields, i + 1);
      ExtendsTrans(s, s1, EncodeFields(s1, js, fields, i + 1).value);
    }
  }

  lemma {:induction false} EncodeFieldValid(s: EncState, js: Value, f: Field)
    requires Valid(s)
    requires EncodeField(s, js, f).Ok?
    ensures Valid(EncodeField(s, js, f).value) && Extends(s, EncodeField(s, js, f).value)
    decreases f.ty, 2
  {
    var present := FieldPresent(js, f.name).value;
    if present {
      var s1 := if f.omittable && !IsLabeled(f.ty) then Emit(s, Encode(NonNullMarker)) else s;
      var v := GetProperty(js, f.name).value;
      EncodeValueValid(s1, v, f.ty, None);
      ExtendsTrans(s, s1, EncodeValue(s1, v, f.ty, None).value);
    } else if !FieldOmitted(js, f).value {
      EncodeValueValid(s, GetProperty(js, f.name).value, f.ty, None);
    }
  }

  lemma {:induction false} EncodeElementsValid(s: EncState, elems: seq<Value>, of: Type, i: nat)
    requires Valid(s)
    requires EncodeElements(s, elems, of, i).Ok?
    ensures Valid(EncodeElements(s, elems, of, i).value) && Extends(s, EncodeElements(s, elems, of, i).value)
    decreases Array(of), 0, |elems| - i
  {
    if i < |elems| {
      EncodeValueValid(s, elems[i], of, None);
      var s1 := EncodeValue(s, elems[i], of, None).value;
      EncodeElementsValid(s1, elems, of, i + 1);
      ExtendsTrans(s, s1, EncodeElements(s1, elems, of, i + 1).value);
    }
  }

  /** `buildHeader`: a single flags byte, with no flag set. */
  const Header: seq<byte> := [0]

  /** The block of each writer, in the writer map's order: its payloads laid end to end. */
  function Blocks(ws: seq<Entry>): (r: seq<seq<byte>>)
    ensures |r| == |ws|
    ensures forall i :: 0 <= i < |ws| ==> r[i] == Concat(ws[i].writer.valuesAsBytes)
  {
    seq(|ws|, i requires 0 <= i < |ws| => Concat(ws[i].writer.valuesAsBytes))
  }

  /** What `getResult` returns: the header, then every writer's block and last the main message, each framed by its length. */
  function Message(s: EncState): seq<byte>
  {
    Header + Framing.Frame(Blocks(s.writers) + [s.buf])
  }

  /**
   * The message splits back, after the header byte, into the writers' blocks
   * in the order the writers were made, followed by the main message.
   */
  lemma MessageUnframes(s: EncState)
    ensures Message(s)[0] == 0
    ensures Framing.Unframe(Message(s), 1, []) == Ok(Blocks(s.writers) + [s.buf])
  {
    Framing.UnframeFrame(Header, Blocks(s.writers) + [s.buf]);
  }

  /** `CedarEncoder`. The writer map is kept as its entries in insertion order. */
  class CedarEncoder {
    var buf: seq<byte>
    var writers: seq<Entry>

    function State(): EncState
      reads this
    {
      EncState(buf, writers)
    }

    constructor ()
      ensures State() == Initial
    {
      buf := [];
      writers := [];
    }

    method BuildHeader() returns (flags: seq<byte>)
      ensures flags == Header
    {
      flags := [0];
    }

    method WriteBytesRaw(bytes: seq<byte>)
      modifies this`buf
      ensures buf == old(buf) + bytes
    {
      buf := buf + bytes;
    }

    /** `writeVarInt`: the ZigZag varint of `n`, which is the label encoding of `n`. */
    method WriteVarInt(n: int)
      modifies this`buf
      ensures buf == old(buf) + Encode(n)
    {
      buf := buf + Varint(ZigZag(n));
    }

    /** `writeBytes`: the length, then the bytes. */
    method WriteBytes(bytes: seq<byte>)
      modifies this`buf
      ensures buf == old(buf) + Encode(|bytes|) + bytes
    {
      WriteVarInt(|bytes|);
      WriteBytesRaw(bytes);
    }

    /** `writeString`: the length of the UTF-8 bytes, then the bytes. */
    method WriteString(str: string)
      modifies this`buf
      ensures buf == old(buf) + Encode(|Utf8.Encode(str)|) + Utf8.Encode(str)
    {
      var bytes := Utf8.Encode(str);
      WriteVarInt(|bytes|);
      buf := buf + bytes;
    }

    /** `writeStringLength`: only the length of the bytes. */
    method WriteStringLength(str: string, bytes: seq<byte>)
      modifies this`buf
      ensures buf == old(buf) + Encode(|bytes|)
    {
      WriteVarInt(|bytes|);
    }

    method WriteLabel(bytes: seq<byte>)
      modifies this`buf
      ensures buf == old(buf) + bytes
    {
      WriteBytesRaw(bytes);
    }

    method GetWriter(key: Option<DedupeKey>, t: Type) returns (r: Result<nat>)
      modifies this`writers
      ensures key.None? ==> r == Err(MissingDedupeKey) && writers == old(writers)
      ensures key.Some? ==> match SelectWriter(old(State()), key.value, t)
        case Ok((i, s)) => r == Ok(i) && State() == s
        case Err(e) => r == Err(e) && writers == old(writers)
    {
      if key.None? {
        return Err(MissingDedupeKey);
      }
      var found := Find(writers, key.value);
      if found.Some? {
        return Ok(found.value);
      }
      var w :- MakeWriter(t);
      writers := writers + [Entry(key.value, w)];
      r := Ok(|writers| - 1);
    }

    method Write(key: Option<DedupeKey>, t: Type, v: Value) returns (r: Result<Option<int>>)
      modifies this
      ensures match WriteScalar(old(State()), key, t, v)
        case Ok((l, s)) => r == Ok(l) && State() == s
        case Err(e) => r == Err(e)
    {
      var i :- GetWriter(key, t);
      var written :- WriterWrite(writers[i].writer, v);
      writers := writers[i := Entry(key.value, written.1)];
      if written.0.Some? {
        WriteLabel(Encode(written.0.value));
      }
      r := Ok(written.0);
    }

    /** `writeCedar`, with the encoder its own `encoder` argument. */
    method WriteCedar(js: Value, wt: Type, key: Option<DedupeKey>) returns (r: Outcome)
      modifies this
      ensures match EncodeValue(old(State()), js, wt, key)
        case Ok(s) => r == Pass && State() == s
        case Err(e) => r == Fail(e)
      decreases wt, 1
    {
      match wt
      case Nullable(of, dk) =>
        r := WriteNullable(js, of, dk);
      case Dedupe(k, of) =>
        if key.Some? {
          return Fail(NestedDedupe);
        }
        assert EncodeValue(old(State()), js, wt, key) == EncodeValue(State(), js, of, Some(k));
        r := WriteCedar(js, of, Some(k));
      case Record(fields) =>
        r := WriteFields(js, fields);
      case String | Bytes | Int32 =>
        var l := Write(key, wt, js);
        r := if l.Ok? then Pass else Fail(l.error);
      case Null =>
        r := Pass;
      case Boolean =>
        WriteLabel(Encode(if Truthy(js) then TrueMarker else FalseMarker));
        r := Pass;
      case Float64 =>
        r := Fail(NotImplemented);
      case Fixed(_) =>
        if !js.VBytes? {
          return Fail(TypeMismatch);
        }
        WriteBytesRaw(js.bytes);
        r := Pass;
      case Array(of) =>
        if !js.VArray? {
          return Fail(NotAnArray);
        }
        WriteVarInt(|js.elems|);
        r := WriteElements(js.elems, of);
      case Variant =>
        r := Fail(NotImplemented);
    }

    /** The NULLABLE case of `writeCedar`: the markers, then the value under the inner type and the nullable's own key. */
    method WriteNullable(js: Value, of: Type, dk: Option<DedupeKey>) returns (r: Outcome)
      modifies this
      ensures match EncodeValue(old(State()), js, Nullable(of, dk), None)
        case Ok(s) => r == Pass && State() == s
        case Err(e) => r == Fail(e)
      decreases Nullable(of, dk), 0
    {
      if IsNullish(js) {
        WriteLabel(Encode(NullMarker));
      }
      if !IsLabeled(of) {
        WriteLabel(Encode(NonNullMarker));
      }
      r := WriteCedar(js, of, dk);
    }

    /** The record loop of `writeCedar`. */
    method WriteFields(js: Value, fields: seq<Field>) returns (r: Outcome)
      modifies this
      ensures match EncodeFields(old(State()), js, fields, 0)
        case Ok(s) => r == Pass && State() == s
        case Err(e) => r == Fail(e)
      decreases Record(fields), 0, |fields| + 1
    {
      var i := 0;
      while i < |fields|
        invariant 0 <= i <= |fields|
        invariant EncodeFields(old(State()), js, fields, 0) == EncodeFields(State(), js, fields, i)
      {
        r := WriteField(js, fields[i]);
        if r.Fail? {
          return;
        }
        i := i + 1;
      }
      r := Pass;
    }

    /** The array loop of `writeCedar`. */
    method WriteElements(elems: seq<Value>, of: Type) returns (r: Outcome)
      modifies this
      ensures match EncodeElements(old(State()), elems, of, 0)
        case Ok(s) => r == Pass && State() == s
        case Err(e) => r == Fail(e)
      decreases Array(of), 0
    {
      var i := 0;
      while i < |elems|
        invariant 0 <= i <= |elems|
        invariant EncodeElements(old(State()), elems, of, 0) == EncodeElements(State(), elems, of, i)
      {
        r := WriteCedar(elems[i], of, None);
        if r.Fail? {
          return;
        }
        i := i + 1;
      }
      r := Pass;
    }

    /** One pass of the record loop of `writeCedar`. */
    method WriteField(js: Value, f: Field) returns (r: Outcome)
      modifies this
      ensures match EncodeField(old(State()), js, f)
        case Ok(s) => r == Pass && State() == s
        case Err(e) => r == Fail(e)
      decreases f.ty, 2
    {
      var present := FieldPresent(js, f.name);
      if present.Err? {
        return Fail(present.error);
      }
      if present.value {
        if f.omittable && !IsLabeled(f.ty) {
          WriteLabel(Encode(NonNullMarker));
        }
        // A present field belongs to an object, so reading it cannot throw.
        var v := GetProperty(js, f.name).value;
        r := WriteCedar(v, f.ty, None);
        return;
      }
      // The presence test above already ran `name in js`, so this one cannot throw.
      var omitted := FieldOmitted(js, f).value;
      if omitted {
        WriteLabel(Encode(AbsentMarker));
        r := Pass;
      } else if f.ty.Nullable? {
        var v := GetProperty(js, f.name);
        if v.Err? {
          return Fail(v.error);
        }
        r := WriteCedar(v.value, f.ty, None);
      } else {
        r := Fail(MissingField);
      }
    }

    /** `jsToCedarWithType`. */
    method JsToCedarWithType(js: Value, wt: Type) returns (r: Outcome)
      modifies this
      ensures match EncodeValue(old(State()), js, wt, None)
        case Ok(s) => r == Pass && State() == s
        case Err(e) => r == Fail(e)
    {
      r := WriteCedar(js, wt, None);
    }

    /**
     * `getResult`: sizes the result exactly, writes the header, each writer's
     * block and the main message, each block after its length, and checks
     * that the result fills the space it sized. It always does.
     */
    method GetResult() returns (r: Result<seq<byte>>)
      ensures r == Ok(Message(State()))
    {
      var header := BuildHeader();
      ghost var blocks := Blocks(writers);
      var bufLength := Encode(|buf|);
      var lengthHeaders, dataBytesNeeded := BlockLengths();
      var dataLength := |header| + dataBytesNeeded + |bufLength| + |buf|;
      Framing.FrameAppend(blocks, buf);
      assert dataLength == |Message(State())|;
      var out := new Buf.OutBuf(dataLength);
      out.Write(header);
      assert out.Contents() == Header;
      WriteBlocks(out, writers, lengthHeaders);
      ghost var framed := out.Contents();
      assert framed == Header + Framing.Frame(blocks);
      out.Write(bufLength);
      out.Write(buf);
      AppendAssoc(framed, bufLength, buf);
      AppendAssoc(Header, Framing.Frame(blocks), Framing.FrameBlock(buf));
      assert out.Contents() == Message(State());
      assert out.data[..] == out.Contents();
      r := if out.length == out.data.Length then Ok(out.data[..]) else Err(IncorrectResultLength);
    }

    /** The first loop of `getResult`: each writer's length header, and the bytes the framed blocks need. */
    method BlockLengths() returns (lengthHeaders: seq<seq<byte>>, dataBytesNeeded: nat)
      ensures |lengthHeaders| == |writers|
      ensures forall i :: 0 <= i < |writers| ==> lengthHeaders[i] == Encode(|Blocks(writers)[i]|)
      ensures dataBytesNeeded == |Framing.Frame(Blocks(writers))|
    {
      ghost var blocks := Blocks(writers);
      lengthHeaders := [];
      dataBytesNeeded := 0;
      for i := 0 to |writers|
        invariant |lengthHeaders| == i
        invariant forall j :: 0 <= j < i ==> lengthHeaders[j] == Encode(|blocks[j]|)
        invariant dataBytesNeeded == |Framing.Frame(blocks[..i])|
      {
        var values := writers[i].writer.valuesAsBytes;
        var deduperBytesNeeded := 0;
        for j := 0 to |values|
          invariant deduperBytesNeeded == |Concat(values[..j])|
        {
          assert values[..j + 1] == values[..j] + [values[j]];
          ConcatAppend(values[..j], values[j]);
          deduperBytesNeeded := deduperBytesNeeded + |values[j]|;
        }
        assert values[..|values|] == values;
        var deduperLengthHeader := Encode(deduperBytesNeeded);
        lengthHeaders := lengthHeaders + [deduperLengthHeader];
        assert blocks[..i + 1] == blocks[..i] + [blocks[i]];
        Framing.FrameAppend(blocks[..i], blocks[i]);
        dataBytesNeeded := dataBytesNeeded + deduperBytesNeeded;
        dataBytesNeeded := dataBytesNeeded + |deduperLengthHeader|;
      }
      assert blocks[..|writers|] == blocks;
    }
  }

  /** The second loop of `getResult`: each writer's length header, then its block. */
  method WriteBlocks(out: Buf.OutBuf, ws: seq<Entry>, lengthHeaders: seq<seq<byte>>)
    requires out.Valid()
    requires |lengthHeaders| == |ws|
    requires forall i :: 0 <= i < |ws| ==> lengthHeaders[i] == Encode(|Blocks(ws)[i]|)
    requires out.length + |Framing.Frame(Blocks(ws))| <= out.data.Length
    modifies out, out.data
    ensures out.Valid()
    ensures out.Contents() == old(out.Contents()) + Framing.Frame(Blocks(ws))
  {
    ghost var blocks := Blocks(ws);
    ghost var start := out.Contents();
    for i := 0 to |ws|
      invariant out.Valid()
      invariant out.Contents() == start + Framing.Frame(blocks[..i])
    {
      var b := blocks[i];
      Framing.FrameNext(blocks, i);
      assert lengthHeaders[i] + b == Framing.FrameBlock(b);
      ghost var before := out.Contents();
      assert |before| == |start| + |Framing.Frame(blocks[..i])|;
      WriteBlock(out, lengthHeaders[i], ws[i].writer.valuesAsBytes);
      AppendAssoc(before, lengthHeaders[i], b);
      AppendAssoc(start, Framing.Frame(blocks[..i]), Framing.FrameBlock(b));
    }
    assert blocks[..|ws|] == blocks;
  }

  /** One pass of that loop: the length header, then each payload. */
  method WriteBlock(out: Buf.OutBuf, header: seq<byte>, values: seq<seq<byte>>)
    requires out.Valid()
    requires out.length + |header| + |Concat(values)| <= out.data.Length
    modifies out, out.data
    ensures out.Valid()
    ensures out.Contents() == old(out.Contents()) + header + Concat(values)
  {
    out.Write(header);
    ghost var start := out.Contents();
    for j := 0 to |values|
      invariant out.Valid()
      invariant out.Contents() == start + Concat(values[..j])
    {
      ConcatNext(values, j);
      out.Write(values[j]);
      AppendAssoc(start, Concat(values[..j]), values[j]);
    }
    assert values[..|values|] == values;
  }
}
