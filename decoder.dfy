/**
 * The schema-driven decoder (decoder.ts): `BlockTracker` splits the message
 * into its blocks, and `readCedar` walks the wire type, reading markers and
 * labels from the main message (the last block) and scalars through the
 * reader of their deduplication key, each reader taking the next unused
 * block when it is made.
 *
 * What the traversal computes is given as functions on the decoder's state
 * (`DecodeValue` and its helpers), which `CedarDecoder`'s methods are
 * specified by. The traversal reproduces the source's branches as written.
 */
module Decoder {
  import opened Wrappers
  import opened Bytes
  import opened Label
  import opened Js
  import opened Wire
  import opened BlockReader
  import opened Buf
  import Framing
  import Payload

  /** The decoder's state: the main message's cursor, the readers by key, and the index of the next unused block. */
  datatype DecState = DecState(pos: nat, readers: map<DedupeKey, Reader>, nextBlock: nat)

  /** `blockTracker.nextBlock`: the next unused block; there is none after the last. */
  function NextUnusedBlock(blocks: seq<seq<byte>>, st: DecState): (r: Result<(seq<byte>, DecState)>)
    ensures r.Ok? <==> st.nextBlock < |blocks|
    ensures r.Ok? ==> r.value == (blocks[st.nextBlock], st.(nextBlock := st.nextBlock + 1))
  {
    if st.nextBlock < |blocks| then Ok((blocks[st.nextBlock], st.(nextBlock := st.nextBlock + 1)))
    else Err(NoMoreBlocks)
  }

  /** `makeReader`: a reader for STRING, BYTES or INT32 over the next unused block. */
  function NewReader(blocks: seq<seq<byte>>, st: DecState, t: Type): (r: Result<(Reader, DecState)>)
    ensures r.Ok? ==>
      && (t.String? || t.Bytes? || t.Int32?)
      && st.nextBlock < |blocks|
      && r.value.0.block == blocks[st.nextBlock] && r.value.0.pos == 0
      && (r.value.0.DeduplicatingLabelReader? ==> r.value.0.values == [])
      && r.value.1 == st.(nextBlock := st.nextBlock + 1)
    ensures !(t.String? || t.Bytes? || t.Int32?) ==> r == Err(UnsupportedDedupeType)
  {
    match t
    case String =>
      var next :- NextUnusedBlock(blocks, st);
      Ok((DeduplicatingLabelReader(Payload.Utf8String, next.0, 0, []), next.1))
    case Bytes =>
      var next :- NextUnusedBlock(blocks, st);
      Ok((DeduplicatingLabelReader(Payload.RawBytes, next.0, 0, []), next.1))
    case Int32 =>
      var next :- NextUnusedBlock(blocks, st);
      Ok((UnlabeledVarIntReader(next.0, 0), next.1))
    case _ => Err(UnsupportedDedupeType)
  }

  /** The key `getReader` files a reader under: the deduplication key, or else the printed type followed by `!`. */
  function ReaderKey(memoKey: Option<DedupeKey>, t: Type): DedupeKey
  {
    match memoKey
    case Some(k) => k
    case None => Print(t) + "!"
  }

  /** `getReader`: the reader kept under the key, or a new one which is then kept under it. */
  function SelectReader(blocks: seq<seq<byte>>, st: DecState, memoKey: Option<DedupeKey>, t: Type)
    : (r: Result<(Reader, DecState)>)
    ensures r.Ok? ==> ReaderKey(memoKey, t) in r.value.1.readers && r.value.1.readers[ReaderKey(memoKey, t)] == r.value.0
    ensures r.Ok? ==> r.value.1.pos == st.pos
    ensures ReaderKey(memoKey, t) in st.readers ==> r == Ok((st.readers[ReaderKey(memoKey, t)], st))
  {
    var key := ReaderKey(memoKey, t);
    if key in st.readers then Ok((st.readers[key], st))
    else
      var made :- NewReader(blocks, st, t);
      Ok((made.0, made.1.(readers := made.1.readers[key := made.0])))
  }

  /** `reader.read(buf)` for the scalar types, the reader being kept, advanced, under its key. */
  function DecodeScalar(blocks: seq<seq<byte>>, msg: seq<byte>, st: DecState, wt: Type, memoKey: Option<DedupeKey>)
    : Result<(Value, DecState)>
  {
    var got :- SelectReader(blocks, st, memoKey, wt);
    var read :- ReaderRead(got.0, msg, got.1.pos);
    Ok((read.0, got.1.(pos := read.2, readers := got.1.readers[ReaderKey(memoKey, wt) := read.1])))
  }

  /** `readCedar(buf, wt, memoKey)`: the value read from the main message `msg`, and the state afterwards. */
  function DecodeValue(blocks: seq<seq<byte>>, msg: seq<byte>, st: DecState, wt: Type, memoKey: Option<DedupeKey>)
    : Result<(Value, DecState)>
    decreases wt, 1
  {
    match wt
    case Nullable(of, _) =>
      if st.pos >= |msg| then Err(ReadPastEnd)
      else
        var marker := msg[st.pos];
        if marker == Encode(NullMarker)[0] then Ok((VNull, st.(pos := st.pos + 1)))
        else if !IsLabeled(of) then
          if marker != Encode(NonNullMarker)[0] then Err(InvalidNonNull)
          else DecodeValue(blocks, msg, st.(pos := st.pos + 1), of, None)
        else
          // The byte is the first of the value's own label: read it again.
          DecodeValue(blocks, msg, st, of, None)
    case Dedupe(k, of) => DecodeValue(blocks, msg, st, of, Some(k))
    case Record(fields) => DecodeFields(blocks, msg, st, fields, 0, map[])
    case Array(of) =>
      var read :- Label.Read(msg, st.pos);
      if read.0 < 0 then Err(NegativeArrayLength)
      else DecodeElements(blocks, msg, st.(pos := read.1), of, read.0, [])
    case String => DecodeScalar(blocks, msg, st, wt, memoKey)
    case Bytes => DecodeScalar(blocks, msg, st, wt, memoKey)
    case Int32 => DecodeScalar(blocks, msg, st, wt, memoKey)
    case Boolean =>
      var read :- Label.Read(msg, st.pos);
      // Both markers read back as false.
      if read.0 == FalseMarker || read.0 == TrueMarker then Ok((VBool(false), st.(pos := read.1)))
      else Err(InvalidBoolean)
    case _ => Err(UnsupportedType)
  }

  /** The record loop from field `i` on, `obj` holding the fields read so far. */
  function DecodeFields(blocks: seq<seq<byte>>, msg: seq<byte>, st: DecState, fields: seq<Field>, i: nat,
                        obj: map<string, Value>): Result<(Value, DecState)>
    decreases Record(fields), 0, |fields| - i
  {
    if i >= |fields| then Ok((VObject(obj), st))
    else
      var read :- DecodeField(blocks, msg, st, fields[i]);
      DecodeFields(blocks, msg, read.1, fields, i + 1, obj[fields[i].name := read.0])
  }

  /**
   * One pass of the record loop. An omittable field first has a label read
   * for it: Error throws, NonNull before an unlabeled type reaches the
   * unbound `length`, Absent makes the field `undefined`, and any other label
   * is skipped before the field's value is read.
   */
  function DecodeField(blocks: seq<seq<byte>>, msg: seq<byte>, st: DecState, f: Field): Result<(Value, DecState)>
    decreases f.ty, 2
  {
    if f.omittable then
      var read :- Label.Read(msg, st.pos);
      if read.0 == ErrorMarker then Err(ErrorLabel)
      else if !IsLabeled(f.ty) && read.0 == NonNullMarker then Err(UnboundLength)
      else if read.0 == AbsentMarker then Ok((VUndefined, st.(pos := read.1)))
      else DecodeValue(blocks, msg, st.(pos := read.1), f.ty, None)
    else DecodeValue(blocks, msg, st, f.ty, None)
  }

  /** `new Array(length).fill(undefined).map(...)`: `count` elements in order, `acc` holding those read so far. */
  function DecodeElements(blocks: seq<seq<byte>>, msg: seq<byte>, st: DecState, of: Type, count: nat,
                          acc: seq<Value>): Result<(Value, DecState)>
    decreases Array(of), 0, count - |acc|
  {
    if |acc| >= count then Ok((VArray(acc), st))
    else
      var read :- DecodeValue(blocks, msg, st, of, None);
      DecodeElements(blocks, msg, read.1, of, count, acc + [read.0])
  }

  /** The readers only grow: each keeps its kind and block, moves forward, and only appends to its table. */
  ghost predicate ReaderGrows(r: Reader, r': Reader)
  {
    && r'.DeduplicatingLabelReader? == r.DeduplicatingLabelReader?
    && r'.block == r.block
    && r.pos <= r'.pos
    && (r.DeduplicatingLabelReader? ==> r'.payload == r.payload && r.values <= r'.values)
  }

  /** `st'` is a later state than `st`: the cursor has not moved back, no reader was dropped or rewound, and no block was given back. */
  ghost predicate Later(st: DecState, st': DecState)
  {
    && st.pos <= st'.pos
    && st.nextBlock <= st'.nextBlock
    && (forall k :: k in st.readers ==> k in st'.readers && ReaderGrows(st.readers[k], st'.readers[k]))
  }

  lemma LaterTrans(s1: DecState, s2: DecState, s3: DecState)
    requires Later(s1, s2) && Later(s2, s3)
    ensures Later(s1, s3)
  {
  }

  /** A scalar read leaves a later state behind. */
  lemma DecodeScalarLater(blocks: seq<seq<byte>>, msg: seq<byte>, st: DecState, wt: Type, memoKey: Option<DedupeKey>)
    requires DecodeScalar(blocks, msg, st, wt, memoKey).Ok?
    ensures Later(st, DecodeScalar(blocks, msg, st, wt, memoKey).value.1)
  {
    var got := SelectReader(blocks, st, memoKey, wt).value;
    ReaderReadMonotone(got.0, msg, got.1.pos);
  }

  /**
   * Decoding only moves forward: the main message's cursor never moves back,
   * blocks are handed out in order and never returned, and every reader only
   * advances and only appends to its table.
   */
  lemma {:induction false} DecodeValueLater(blocks: seq<seq<byte>>, msg: seq<byte>, st: DecState, wt: Type,
                                            memoKey: Option<DedupeKey>)
    requires DecodeValue(blocks, msg, st, wt, memoKey).Ok?
    ensures Later(st, DecodeValue(blocks, msg, st, wt, memoKey).value.1)
    decreases wt, 1
  {
    match wt
    case Nullable(of, _) =>
      var marker := msg[st.pos];
      if marker == Encode(NullMarker)[0] {
      } else if !IsLabeled(of) {
        var st1 := st.(pos := st.pos + 1);
        DecodeValueLater(blocks, msg, st1, of, None);
        LaterTrans(st, st1, DecodeValue(blocks, msg, st1, of, None).value.1);
      } else {
        DecodeValueLater(blocks, msg, st, of, None);
      }
    case Dedupe(k, of) => DecodeValueLater(blocks, msg, st, of, Some(k));
    case Record(fields) => DecodeFieldsLater(blocks, msg, st, fields, 0, map[]);
    case Array(of) =>
      var read := Label.Read(msg, st.pos).value;
      var st1 := st.(pos := read.1);
      DecodeElementsLater(blocks, msg, st1, of, read.0, []);
      LaterTrans(st, st1, DecodeElements(blocks, msg, st1, of, read.0, []).value.1);
    case String => DecodeScalarLater(blocks, msg, st, wt, memoKey);
    case Bytes => DecodeScalarLater(blocks, msg, st, wt, memoKey);
    case Int32 => DecodeScalarLater(blocks, msg, st, wt, memoKey);
    case Boolean =>
  }

  lemma {:induction false} DecodeFieldsLater(blocks: seq<seq<byte>>, msg: seq<byte>, st: DecState, fields: seq<Field>,
                                             i: nat, obj: map<string, Value>)
    requires DecodeFields(blocks, msg, st, fields, i, obj).Ok?
    ensures Later(st, DecodeFields(blocks, msg, st, fields, i, obj).value.1)
    decreases Record(fields), 0, |fields| - i
  {
    if i < |fields| {
      DecodeFieldLater(blocks, msg, st, fields[i]);
      var read := DecodeField(blocks, msg, st, fields[i]).value;
      DecodeFieldsLater(blocks, msg, read.1, fields, i + 1, obj[fields[i].name := read.0]);
      LaterTrans(st, read.1, DecodeFields(blocks, msg, read.1, fields, i + 1, obj[fields[i].name := read.0]).value.1);
    }
  }

  lemma {:induction false} DecodeFieldLater(blocks: seq<seq<byte>>, msg: seq<byte>, st: DecState, f: Field)
    requires DecodeField(blocks, msg, st, f).Ok?
    ensures Later(st, DecodeField(blocks, msg, st, f).value.1)
    decreases f.ty, 2
  {
    if f.omittable {
      var read := Label.Read(msg, st.pos).value;
      var st1 := st.(pos := read.1);
      if read.0 != AbsentMarker {
        DecodeValueLater(blocks, msg, st1, f.ty, None);
        LaterTrans(st, st1, DecodeValue(blocks, msg, st1, f.ty, None).value.1);
      }
    } else {
      DecodeValueLater(blocks, msg, st, f.ty, None);
    }
  }

  lemma {:induction false} DecodeElementsLater(blocks: seq<seq<byte>>, msg: seq<byte>, st: DecState, of: Type,
                                               count: nat, acc: seq<Value>)
    requires DecodeElements(blocks, msg, st, of, count, acc).Ok?
    ensures Later(st, DecodeElements(blocks, msg, st, of, count, acc).value.1)
    decreases Array(of), 0, count - |acc|
  {
    if |acc| < count {
      DecodeValueLater(blocks, msg, st, of, None);
      var read := DecodeValue(blocks, msg, st, of, None).value;
      DecodeElementsLater(blocks, msg, read.1, of, count, acc + [read.0]);
      LaterTrans(st, read.1, DecodeElements(blocks, msg, read.1, of, count, acc + [read.0]).value.1);
    }
  }

  /**
   * `new CedarDecoder(buf)` followed by `cedarToJsWithType(wt)`: skip the
   * header byte, split off the blocks, and read the value from the last one
   * with no readers yet and every block unused.
   */
  function DecodeMessage(data: seq<byte>, wt: Type): Result<Value>
  {
    var blocks :- Framing.Unframe(data, 1, []);
    var read :- DecodeValue(blocks, blocks[|blocks| - 1], DecState(0, map[], 0), wt, None);
    Ok(read.0)
  }

  /** `BlockTracker`. */
  class BlockTracker {
    const blocks: seq<seq<byte>>
    var nextBlockIndex: nat
    const message: Cursor

    constructor (blocks: seq<seq<byte>>)
      requires blocks != []
      ensures this.blocks == blocks && nextBlockIndex == 0
      ensures fresh(message) && message.data == blocks[|blocks| - 1] && message.pos == 0
    {
      this.blocks := blocks;
      nextBlockIndex := 0;
      message := new Cursor(blocks[|blocks| - 1]);
    }

    /** The constructor's loop, which reads the blocks off `buf`, and the tracker it then sets up. */
    static method Create(buf: Cursor) returns (r: Result<BlockTracker>)
      modifies buf
      ensures Framing.Unframe(buf.data, old(buf.pos), []).Err? ==>
        r == Err(Framing.Unframe(buf.data, old(buf.pos), []).error)
      ensures Framing.Unframe(buf.data, old(buf.pos), []).Ok? ==>
        && r.Ok? && fresh(r.value) && fresh(r.value.message)
        && r.value.blocks == Framing.Unframe(buf.data, old(buf.pos), []).value
        && r.value.nextBlockIndex == 0
        && r.value.message.data == r.value.blocks[|r.value.blocks| - 1] && r.value.message.pos == 0
    {
      var blocks: seq<seq<byte>> := [];
      ghost var start := buf.pos;
      while true
        invariant Framing.Unframe(buf.data, start, []) == Framing.Unframe(buf.data, buf.pos, blocks)
        decreases |buf.data| - buf.pos
      {
        var blockLength :- buf.ReadLabel();
        if blockLength < 0 {
          return Err(InvalidBlockLength);
        }
        var block := buf.Read(blockLength);
        if |block| != blockLength {
          return Err(ShortBlock);
        }
        blocks := blocks + [block];
        if buf.pos >= |buf.data| {
          break;
        }
      }
      var tracker := new BlockTracker(blocks);
      r := Ok(tracker);
    }

    /** `nextBlock`. */
    method NextBlock() returns (r: Result<seq<byte>>)
      modifies this`nextBlockIndex
      ensures var st := DecState(0, map[], old(nextBlockIndex));
        match NextUnusedBlock(blocks, st)
        case Ok((b, st')) => r == Ok(b) && nextBlockIndex == st'.nextBlock
        case Err(e) => r == Err(e) && nextBlockIndex == old(nextBlockIndex)
    {
      if nextBlockIndex >= |blocks| {
        return Err(NoMoreBlocks);
      }
      r := Ok(blocks[nextBlockIndex]);
      nextBlockIndex := nextBlockIndex + 1;
    }
  }

  /** `CedarDecoder`. Readers are kept as values; a read stores the advanced reader back under its key. */
  class CedarDecoder {
    const buf: Cursor
    var readers: map<DedupeKey, Reader>
    const blockTracker: BlockTracker

    /** The decoder's state while reading from `cursor`. */
    function State(cursor: Cursor): DecState
      reads this, blockTracker, cursor
    {
      DecState(cursor.pos, readers, blockTracker.nextBlockIndex)
    }

    constructor (buf: Cursor, blockTracker: BlockTracker)
      ensures this.buf == buf && this.blockTracker == blockTracker && readers == map[]
    {
      this.buf := buf;
      this.blockTracker := blockTracker;
      readers := map[];
    }

    /** `new CedarDecoder(buf)`: skips the header byte, then sets up the block tracker. */
    static method Create(buf: Cursor) returns (r: Result<CedarDecoder>)
      modifies buf
      ensures var u := Framing.Unframe(buf.data, old(buf.pos) + 1, []);
        && (u.Err? ==> r == Err(u.error))
        && (u.Ok? ==>
              && r.Ok? && fresh(r.value) && fresh(r.value.blockTracker) && fresh(r.value.blockTracker.message)
              && r.value.buf == buf && r.value.readers == map[]
              && r.value.blockTracker.blocks == u.value && r.value.blockTracker.nextBlockIndex == 0
              && r.value.blockTracker.message.data == u.value[|u.value| - 1]
              && r.value.blockTracker.message.pos == 0)
    {
      buf.IncrementPosition(1);
      var made := BlockTracker.Create(buf);
      if made.Err? {
        return Err(made.error);
      }
      var tracker := made.value;
      var decoder := new CedarDecoder(buf, tracker);
      r := Ok(decoder);
    }

    /** `cedarToJsWithType`: reads the value from the main message. */
    method CedarToJsWithType(wt: Type) returns (r: Result<Value>)
      modifies this, blockTracker, blockTracker.message
      ensures match DecodeValue(blockTracker.blocks, blockTracker.message.data, old(State(blockTracker.message)), wt, None)
        case Ok((v, st)) => r == Ok(v) && State(blockTracker.message) == st
        case Err(e) => r == Err(e)
    {
      r := ReadCedar(blockTracker.message, wt, None);
    }

    /** `makeReader`. */
    method MakeReader(t: Type) returns (r: Result<Reader>)
      modifies blockTracker
      ensures match NewReader(blockTracker.blocks, DecState(0, map[], old(blockTracker.nextBlockIndex)), t)
        case Ok((reader, st)) => r == Ok(reader) && blockTracker.nextBlockIndex == st.nextBlock
        case Err(e) => r == Err(e)
    {
      if !(t.String? || t.Bytes? || t.Int32?) {
        return Err(UnsupportedDedupeType);
      }
      var next :- blockTracker.NextBlock();
      if t.String? {
        r := Ok(DeduplicatingLabelReader(Payload.Utf8String, next, 0, []));
      } else if t.Bytes? {
        r := Ok(DeduplicatingLabelReader(Payload.RawBytes, next, 0, []));
      } else {
        r := Ok(UnlabeledVarIntReader(next, 0));
      }
    }

    /** `getReader`. */
    method GetReader(cursor: Cursor, memoKey: Option<DedupeKey>, t: Type) returns (r: Result<Reader>)
      modifies this, blockTracker
      ensures match SelectReader(blockTracker.blocks, old(State(cursor)), memoKey, t)
        case Ok((reader, st)) => r == Ok(reader) && State(cursor) == st
        case Err(e) => r == Err(e)
    {
      var key := ReaderKey(memoKey, t);
      if key in readers {
        return Ok(readers[key]);
      }
      var reader :- MakeReader(t);
      readers := readers[key := reader];
      r := Ok(reader);
    }

    /** `readCedar(buf, wt, memoKey)`. */
    method ReadCedar(cursor: Cursor, wt: Type, memoKey: Option<DedupeKey>) returns (r: Result<Value>)
      modifies this, blockTracker, cursor
      ensures match DecodeValue(blockTracker.blocks, cursor.data, old(State(cursor)), wt, memoKey)
        case Ok((v, st)) => r == Ok(v) && State(cursor) == st
        case Err(e) => r == Err(e)
      decreases wt, 1
    {
      match wt
      case Nullable(of, _) =>
        var marker :- cursor.Get();
        if marker == Encode(NullMarker)[0] {
          return Ok(VNull);
        }
        if !IsLabeled(of) {
          if marker != Encode(NonNullMarker)[0] {
            return Err(InvalidNonNull);
          }
        } else {
          cursor.IncrementPosition(-1);
        }
        r := ReadCedar(cursor, of, None);
      case Dedupe(k, of) =>
        r := ReadCedar(cursor, of, Some(k));
      case Record(fields) =>
        r := ReadRecord(cursor, fields);
      case Array(of) =>
        r := ReadArray(cursor, of);
      case String =>
        r := ReadScalar(cursor, wt, memoKey);
      case Bytes =>
        r := ReadScalar(cursor, wt, memoKey);
      case Int32 =>
        r := ReadScalar(cursor, wt, memoKey);
      case Boolean =>
        var l :- cursor.ReadLabel();
        if l == FalseMarker {
          r := Ok(VBool(false));
        } else if l == TrueMarker {
          r := Ok(VBool(false));
        } else {
          r := Err(InvalidBoolean);
        }
      case _ =>
        r := Err(UnsupportedType);
    }

    /** The RECORD case of `readCedar`: the fields in order, each under its name. */
    method ReadRecord(cursor: Cursor, fields: seq<Field>) returns (r: Result<Value>)
      modifies this, blockTracker, cursor
      ensures match DecodeFields(blockTracker.blocks, cursor.data, old(State(cursor)), fields, 0, map[])
        case Ok((v, st)) => r == Ok(v) && State(cursor) == st
        case Err(e) => r == Err(e)
      decreases Record(fields), 0
    {
      var obj: map<string, Value> := map[];
      var i := 0;
      while i < |fields|
        invariant 0 <= i <= |fields|
        invariant DecodeFields(blockTracker.blocks, cursor.data, old(State(cursor)), fields, 0, map[])
               == DecodeFields(blockTracker.blocks, cursor.data, State(cursor), fields, i, obj)
      {
        var v :- ReadField(cursor, fields[i]);
        obj := obj[fields[i].name := v];
        i := i + 1;
      }
      r := Ok(VObject(obj));
    }

    /** The ARRAY case of `readCedar`: the length label, then that many elements. */
    method ReadArray(cursor: Cursor, of: Type) returns (r: Result<Value>)
      modifies this, blockTracker, cursor
      ensures match DecodeValue(blockTracker.blocks, cursor.data, old(State(cursor)), Array(of), None)
        case Ok((v, st)) => r == Ok(v) && State(cursor) == st
        case Err(e) => r == Err(e)
      decreases Array(of), 0
    {
      var length :- cursor.ReadLabel();
      if length < 0 {
        return Err(NegativeArrayLength);
      }
      var elems: seq<Value> := [];
      while |elems| < length
        invariant DecodeValue(blockTracker.blocks, cursor.data, old(State(cursor)), Array(of), None)
               == DecodeElements(blockTracker.blocks, cursor.data, State(cursor), of, length, elems)
        decreases length - |elems|
      {
        var v :- ReadCedar(cursor, of, None);
        elems := elems + [v];
      }
      r := Ok(VArray(elems));
    }

    /** One pass of the record loop of `readCedar`. */
    method ReadField(cursor: Cursor, f: Field) returns (r: Result<Value>)
      modifies this, blockTracker, cursor
      ensures match DecodeField(blockTracker.blocks, cursor.data, old(State(cursor)), f)
        case Ok((v, st)) => r == Ok(v) && State(cursor) == st
        case Err(e) => r == Err(e)
      decreases f.ty, 2
    {
      if f.omittable {
        var l :- cursor.ReadLabel();
        if l == ErrorMarker {
          return Err(ErrorLabel);
        }
        if !IsLabeled(f.ty) && l == NonNullMarker {
          return Err(UnboundLength);
        }
        if l == AbsentMarker {
          return Ok(VUndefined);
        }
      }
      r := ReadCedar(cursor, f.ty, None);
    }

    /** The STRING, BYTES and INT32 case of `readCedar`: `getReader(memoKey, wt).read(buf)`. */
    method ReadScalar(cursor: Cursor, wt: Type, memoKey: Option<DedupeKey>) returns (r: Result<Value>)
      modifies this, blockTracker, cursor
      ensures match DecodeScalar(blockTracker.blocks, cursor.data, old(State(cursor)), wt, memoKey)
        case Ok((v, st)) => r == Ok(v) && State(cursor) == st
        case Err(e) => r == Err(e)
    {
      var reader :- GetReader(cursor, memoKey, wt);
      var read := ReaderRead(reader, cursor.data, cursor.pos);
      if read.Err? {
        return Err(read.error);
      }
      readers := readers[ReaderKey(memoKey, wt) := read.value.1];
      cursor.pos := read.value.2;
      r := Ok(read.value.0);
    }
  }
}
