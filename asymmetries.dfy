/**
 * Where the encoder and the decoder disagree. Each lemma runs a fresh
 * encoder's `jsToCedarWithType` and `getResult` on one small value, runs a
 * fresh decoder on the bytes, and names what comes back, which is not the
 * value that went in. These are the branches the round trip of the
 * RoundTrip module leaves out of its fragment.
 */
module Asymmetries {
  import opened Wrappers
  import opened Bytes
  import opened Label
  import opened Js
  import opened Wire
  import opened Encoder
  import opened Decoder
  import opened RoundTrip
  import Framing
  import Utf8
  import Payload
  import BlockReader
  import Buf

  /** The main message of a fresh encoder that has written `js` as `wt`, given that the write succeeds. */
  function MainBlock(js: Value, wt: Type): seq<byte>
    requires EncodeValue(Initial, js, wt, None).Ok?
  {
    EncodeValue(Initial, js, wt, None).value.buf
  }

  /** Decoding the message of a successful encoding is decoding its last block against its writers' blocks. */
  lemma DecodeEncoded(js: Value, wt: Type)
    requires EncodeValue(Initial, js, wt, None).Ok?
    ensures var fin := EncodeValue(Initial, js, wt, None).value;
      && EncodeMessage(js, wt) == Ok(Message(fin))
      && DecodeMessage(Message(fin), wt)
         == match DecodeValue(Blocks(fin.writers) + [fin.buf], fin.buf, DecState(0, map[], 0), wt, None)
            case Ok((v, _)) => Ok(v)
            case Err(e) => Err(e)
  {
    var fin := EncodeValue(Initial, js, wt, None).value;
    MessageUnframes(fin);
    assert (Blocks(fin.writers) + [fin.buf])[|fin.writers|] == fin.buf;
  }

  lemma EncodeElementsStep(s: EncState, elems: seq<Value>, of: Type, i: nat, s': EncState)
    requires i < |elems| && EncodeValue(s, elems[i], of, None) == Ok(s')
    ensures EncodeElements(s, elems, of, i) == EncodeElements(s', elems, of, i + 1)
  {
  }

  lemma EncodeFieldsStep(s: EncState, js: Value, fields: seq<Field>, i: nat, s': EncState)
    requires i < |fields| && EncodeField(s, js, fields[i]) == Ok(s')
    ensures EncodeFields(s, js, fields, i) == EncodeFields(s', js, fields, i + 1)
  {
  }

  lemma DecodeElementsStep(blocks: seq<seq<byte>>, msg: seq<byte>, d: DecState, of: Type, count: nat,
                           acc: seq<Value>, v: Value, d': DecState)
    requires |acc| < count && DecodeValue(blocks, msg, d, of, None) == Ok((v, d'))
    ensures DecodeElements(blocks, msg, d, of, count, acc) == DecodeElements(blocks, msg, d', of, count, acc + [v])
  {
  }

  lemma DecodeFieldsStep(blocks: seq<seq<byte>>, msg: seq<byte>, d: DecState, fields: seq<Field>, i: nat,
                         obj: map<string, Value>, v: Value, d': DecState)
    requires i < |fields| && DecodeField(blocks, msg, d, fields[i]) == Ok((v, d'))
    ensures DecodeFields(blocks, msg, d, fields, i, obj) == DecodeFields(blocks, msg, d', fields, i + 1, obj[fields[i].name := v])
  {
  }

  /**
   * BOOLEAN: `true` is written as the True marker, and the decoder reads the
   * True marker back as `false` (decoder.ts:352).
   */
  lemma TrueReadsBackFalse()
    ensures EncodeMessage(VBool(true), Boolean).Ok?
    ensures DecodeMessage(EncodeMessage(VBool(true), Boolean).value, Boolean) == Ok(VBool(false))
  {
    var fin := EncodeValue(Initial, VBool(true), Boolean, None).value;
    assert fin.buf == Encode(TrueMarker) == [2];
    DecodeEncoded(VBool(true), Boolean);
    ReadEncode(fin.buf, 0, TrueMarker);
  }

  /** U+FEFF followed by "x", and its UTF-8 encoding. */
  const BomX: string := [Utf8.ByteOrderMark, 'x']
  const BomXBytes: seq<byte> := [0xEF, 0xBB, 0xBF, 120]

  /** The encoder on that string under DEDUPE(k, STRING): the payload's length 4 as the label, and the payload stored. */
  lemma EncodeBomX()
    ensures EncodeValue(Initial, VString(BomX), Dedupe("k", String), None)
         == Ok(EncState(Encode(4), [Entry("k", StringWriter1(BomX, BomXBytes))]))
  {
    var js := VString(BomX);
    var w1 := StringWriter1(BomX, BomXBytes);
    var s1 := Initial.(writers := Initial.writers + [Entry("k", StringWriter0)]);
    assert Utf8.EncodeChar(Utf8.ByteOrderMark) == [0xEF, 0xBB, 0xBF];
    assert BomX[1..] == "x" && Utf8.Encode("x") == [120];
    assert Utf8.Encode(BomX) == BomXBytes;
    assert SelectWriter(Initial, "k", String) == Ok((0, s1));
    WriteFirstString(BomX, BomXBytes);
    assert s1.writers[0 := Entry("k", w1)] == [Entry("k", w1)];
    assert Initial.buf + Encode(|BomXBytes|) == Encode(4);
    assert WriteScalar(Initial, Some("k"), String, js) == Ok((Some(4), EncState(Encode(4), [Entry("k", w1)])));
  }

  /** The decoder's reader for key k takes the four bytes from the first block and decodes them without the mark. */
  lemma DecodeBomX(blocks: seq<seq<byte>>)
    requires |blocks| >= 1 && blocks[0] == BomXBytes
    ensures DecodeValue(blocks, Encode(4), DecState(0, map[], 0), Dedupe("k", String), None).Ok?
    ensures DecodeValue(blocks, Encode(4), DecState(0, map[], 0), Dedupe("k", String), None).value.0 == VString("x")
  {
    var r0 := BlockReader.DeduplicatingLabelReader(Payload.Utf8String, BomXBytes, 0, []);
    var d1 := DecState(0, map["k" := r0], 1);
    assert SelectReader(blocks, DecState(0, map[], 0), Some("k"), String) == Ok((r0, d1));
    ReadBomX();
  }

  /** That reader's first read: the length 4 takes the four bytes, which decode to "x". */
  lemma ReadBomX()
    ensures var r0 := BlockReader.DeduplicatingLabelReader(Payload.Utf8String, BomXBytes, 0, []);
      && BlockReader.ReaderRead(r0, Encode(4), 0).Ok?
      && BlockReader.ReaderRead(r0, Encode(4), 0).value.0 == VString("x")
  {
    assert Buf.Take(BomXBytes, 0, 4) == BomXBytes;
    assert Utf8.Decode(BomXBytes) == "x" by {
      Utf8.DecodeSkipsBomBytes(BomXBytes);
      assert BomXBytes[3..] == [120];
    }
    ReadLength(Payload.Utf8String, BomXBytes, 0, [], Encode(4), 0, 4, BomXBytes);
  }

  /**
   * STRING: the decoder's `new TextDecoder()` drops a leading byte order
   * mark (decoder.ts:41-42), which the encoder's `TextEncoder` wrote out:
   * U+FEFF followed by "x" reads back as "x".
   */
  lemma BomDropped()
    ensures var js := VString(BomX);
      && EncodeMessage(js, Dedupe("k", String)).Ok?
      && DecodeMessage(EncodeMessage(js, Dedupe("k", String)).value, Dedupe("k", String)) == Ok(VString("x"))
  {
    var js := VString(BomX);
    var wt := Dedupe("k", String);
    EncodeBomX();
    var fin := EncState(Encode(4), [Entry("k", StringWriter1(BomX, BomXBytes))]);
    DecodeEncoded(js, wt);
    var blocks := Blocks(fin.writers) + [fin.buf];
    assert blocks[0] == Concat([BomXBytes]) == BomXBytes;
    DecodeBomX(blocks);
  }

  /** A string writer that has seen nothing. */
  const StringWriter0: Dedup.Writer := Dedup.DeduplicatingWriter(Payload.Utf8String, Dedup.FreshTracker, [])

  /** A string writer whose one value is `str`, its payload `bytes`. */
  function StringWriter1(str: string, bytes: seq<byte>): Dedup.Writer
  {
    Dedup.DeduplicatingWriter(Payload.Utf8String, Dedup.WriterTracker(map[VString(str) := -4], -4), [bytes])
  }

  /** A fresh string writer stores a string as its first payload and labels it with the payload's length. */
  lemma WriteFirstString(str: string, bytes: seq<byte>)
    requires Utf8.Encode(str) == bytes
    ensures Dedup.WriterWrite(StringWriter0, VString(str)) == Ok((Some(|bytes|), StringWriter1(str, bytes)))
  {
    assert [] + [bytes] == [bytes];
  }

  /** null under NULLABLE(STRING): the Null marker, then the string writer's Null label. */
  lemma EncodeNullString(buf: seq<byte>)
    ensures EncodeValue(EncState(buf, []), VNull, Nullable(String, Some("s")), None)
         == Ok(EncState(buf + [1] + [1], [Entry("s", StringWriter0)]))
  {
    var s1 := Emit(EncState(buf, []), Encode(NullMarker));
    assert s1.writers + [Entry("s", StringWriter0)] == [Entry("s", StringWriter0)];
    var s2 := s1.(writers := [Entry("s", StringWriter0)]);
    assert SelectWriter(s1, "s", String) == Ok((0, s2));
    assert Dedup.WriterWrite(StringWriter0, VNull) == Ok((Some(NullMarker), StringWriter0));
    assert s2.writers[0 := Entry("s", StringWriter0)] == s2.writers;
    assert WriteScalar(s1, Some("s"), String, VNull) == Ok((Some(NullMarker), Emit(s2, Encode(NullMarker))));
    assert EncodeValue(s1, VNull, String, Some("s")) == Ok(Emit(s2, Encode(NullMarker)));
    assert EncodeValue(EncState(buf, []), VNull, Nullable(String, Some("s")), None)
        == EncodeValue(s1, VNull, String, Some("s"));
  }

  /** "x" under NULLABLE(STRING), its writer having seen nothing: the length label 1, and "x" stored. */
  lemma EncodeStringX(buf: seq<byte>)
    ensures EncodeValue(EncState(buf, [Entry("s", StringWriter0)]), VString("x"), Nullable(String, Some("s")), None)
         == Ok(EncState(buf + [2], [Entry("s", StringWriter1("x", [120]))]))
  {
    var s := EncState(buf, [Entry("s", StringWriter0)]);
    var w := StringWriter1("x", [120]);
    assert SelectWriter(s, "s", String) == Ok((0, s));
    assert Utf8.Encode("x") == [120];
    WriteFirstString("x", [120]);
    assert s.writers[0 := Entry("s", w)] == [Entry("s", w)];
    assert WriteScalar(s, Some("s"), String, VString("x")) == Ok((Some(1), EncState(buf + Encode(1), [Entry("s", w)])));
    assert EncodeValue(s, VString("x"), String, Some("s")) == Ok(EncState(buf + [2], [Entry("s", w)]));
    assert EncodeValue(s, VString("x"), Nullable(String, Some("s")), None) == EncodeValue(s, VString("x"), String, Some("s"));
  }

  /** The encoder's main message for `[null, "x"]`: the length, two Null markers, and the length of "x". */
  lemma EncodeNullThenX()
    ensures EncodeValue(Initial, VArray([VNull, VString("x")]), Array(Nullable(String, Some("s"))), None)
         == Ok(EncState([4, 1, 1, 2], [Entry("s", StringWriter1("x", [120]))]))
  {
    var el := Nullable(String, Some("s"));
    var elems := [VNull, VString("x")];
    assert Encode(2) == [4];
    var s0 := EncState([4], []);
    var s2 := EncState([4, 1, 1, 2], [Entry("s", StringWriter1("x", [120]))]);
    ArrayEncodeStart(Initial, VArray(elems), el);
    assert Emit(Initial, Encode(2)) == s0;
    assert EncodeElements(s2, elems, el, 2) == Ok(s2);
    EncodeNullString([4]);
    assert [4] + [1] + [1] == [4, 1, 1];
    var s1 := EncState([4, 1, 1], [Entry("s", StringWriter0)]);
    EncodeElementsStep(s0, elems, el, 0, s1);
    EncodeStringX([4, 1, 1]);
    assert [4, 1, 1] + [2] == [4, 1, 1, 2];
    EncodeElementsStep(s1, elems, el, 1, s2);
  }

  /** The decoder over that main message, whatever the blocks before it: two nulls, and the last byte left unread. */
  lemma DecodeNullThenX(blocks: seq<seq<byte>>)
    ensures DecodeValue(blocks, [4, 1, 1, 2], DecState(0, map[], 0), Array(Nullable(String, Some("s"))), None)
         == Ok((VArray([VNull, VNull]), DecState(3, map[], 0)))
  {
    var msg: seq<byte> := [4, 1, 1, 2];
    var el := Nullable(String, Some("s"));
    ReadEncode(msg, 0, 2);
    var d1 := DecState(1, map[], 0);
    var d2 := DecState(2, map[], 0);
    var d3 := DecState(3, map[], 0);
    assert DecodeValue(blocks, msg, DecState(0, map[], 0), Array(el), None) == DecodeElements(blocks, msg, d1, el, 2, []);
    assert DecodeValue(blocks, msg, d1, el, None) == Ok((VNull, d2));
    DecodeElementsStep(blocks, msg, d1, el, 2, [], VNull, d2);
    assert [] + [VNull] == [VNull];
    assert DecodeValue(blocks, msg, d2, el, None) == Ok((VNull, d3));
    DecodeElementsStep(blocks, msg, d2, el, 2, [VNull], VNull, d3);
    assert [VNull] + [VNull] == [VNull, VNull];
    assert DecodeElements(blocks, msg, d3, el, 2, [VNull, VNull]) == Ok((VArray([VNull, VNull]), d3));
  }

  /**
   * NULLABLE: a null value gets the Null marker and then goes on down the
   * type (encoder.ts:274-283). Under a nullable string the string writer then
   * writes the Null marker a second time, and the decoder, which stops at the
   * first Null marker, reads that second marker as the next element's null:
   * `[null, "x"]` reads back as `[null, null]`.
   */
  lemma NullWrittenTwice()
    ensures var wt := Array(Nullable(String, Some("s")));
      var js := VArray([VNull, VString("x")]);
      && EncodeValue(Initial, js, wt, None).Ok?
      && MainBlock(js, wt) == Encode(2) + Encode(NullMarker) + Encode(NullMarker) + Encode(1)
      && EncodeMessage(js, wt).Ok?
      && DecodeMessage(EncodeMessage(js, wt).value, wt) == Ok(VArray([VNull, VNull]))
  {
    var wt := Array(Nullable(String, Some("s")));
    var js := VArray([VNull, VString("x")]);
    EncodeNullThenX();
    var fin := EncState([4, 1, 1, 2], [Entry("s", StringWriter1("x", [120]))]);
    DecodeEncoded(js, wt);
    DecodeNullThenX(Blocks(fin.writers) + [fin.buf]);
  }

  /**
   * RECORD: a present omittable field of a labeled type is written with no
   * marker before it (encoder.ts:315-321), but the decoder reads a marker
   * for every omittable field (decoder.ts:324) and so consumes the value's
   * own label: `{a: []}` leaves nothing for the array's length.
   */
  lemma PresentOmittableLosesLabel()
    ensures var wt := Record([Field("a", Array(Boolean), true)]);
      var js := VObject(map["a" := VArray([])]);
      && EncodeValue(Initial, js, wt, None).Ok?
      && MainBlock(js, wt) == Encode(0)
      && EncodeMessage(js, wt).Ok?
      && DecodeMessage(EncodeMessage(js, wt).value, wt) == Err(MalformedLabel)
  {
    var wt := Record([Field("a", Array(Boolean), true)]);
    var js := VObject(map["a" := VArray([])]);
    var f := Field("a", Array(Boolean), true);
    var s1 := EncodeField(Initial, js, f).value;
    assert s1.buf == [0];
    assert EncodeFields(Initial, js, [f], 0) == EncodeFields(s1, js, [f], 1);
    DecodeEncoded(js, wt);
    var blocks := Blocks(s1.writers) + [s1.buf];
    ReadEncode(s1.buf, 0, 0);
    assert DecodeField(blocks, s1.buf, DecState(0, map[], 0), f) == Err(MalformedLabel);
  }

  /**
   * RECORD: a present omittable field of an unlabeled type gets the NonNull
   * marker (encoder.ts:316-319), and the decoder, on that marker, advances
   * by a `length` that is not bound at decoder.ts:326, which throws.
   */
  lemma PresentOmittableUnboundLength()
    ensures var wt := Record([Field("a", Record([]), true)]);
      var js := VObject(map["a" := VObject(map[])]);
      && EncodeValue(Initial, js, wt, None).Ok?
      && MainBlock(js, wt) == Encode(NonNullMarker)
      && EncodeMessage(js, wt).Ok?
      && DecodeMessage(EncodeMessage(js, wt).value, wt) == Err(UnboundLength)
  {
    var wt := Record([Field("a", Record([]), true)]);
    var js := VObject(map["a" := VObject(map[])]);
    var f := Field("a", Record([]), true);
    var s1 := EncodeField(Initial, js, f).value;
    assert s1.buf == [0];
    assert EncodeFields(Initial, js, [f], 0) == EncodeFields(s1, js, [f], 1);
    DecodeEncoded(js, wt);
    var blocks := Blocks(s1.writers) + [s1.buf];
    ReadEncode(s1.buf, 0, NonNullMarker);
    assert DecodeField(blocks, s1.buf, DecState(0, map[], 0), f) == Err(UnboundLength);
  }

  /** A string under NULLABLE(STRING) with a key no writer has yet: a new writer stores it, and its length is the label. */
  lemma EncodeFreshString(s: EncState, k: DedupeKey, str: string, bytes: seq<byte>)
    requires Find(s.writers, k).None? && Utf8.Encode(str) == bytes
    ensures EncodeValue(s, VString(str), Nullable(String, Some(k)), None)
         == Ok(EncState(s.buf + Encode(|bytes|), s.writers + [Entry(k, StringWriter1(str, bytes))]))
  {
    var w1 := StringWriter1(str, bytes);
    var s1 := s.(writers := s.writers + [Entry(k, StringWriter0)]);
    assert SelectWriter(s, k, String) == Ok((|s.writers|, s1));
    WriteFirstString(str, bytes);
    assert s1.writers[|s.writers| := Entry(k, w1)] == s.writers + [Entry(k, w1)];
    assert WriteScalar(s, Some(k), String, VString(str))
        == Ok((Some(|bytes|), EncState(s.buf + Encode(|bytes|), s.writers + [Entry(k, w1)])));
    assert EncodeValue(s, VString(str), Nullable(String, Some(k)), None) == EncodeValue(s, VString(str), String, Some(k));
  }

  /** Field a of `{a: "x", b: "y"}`: a first writer, under k1. */
  lemma EncodeFieldA(js: Value)
    requires js.VObject? && js.props == map["a" := VString("x"), "b" := VString("y")]
    ensures EncodeField(Initial, js, Field("a", Nullable(String, Some("k1")), false))
         == Ok(EncState([2], [Entry("k1", StringWriter1("x", [120]))]))
  {
    var e1 := Entry("k1", StringWriter1("x", [120]));
    assert Utf8.Encode("x") == [120] && Encode(1) == [2];
    EncodeFreshString(Initial, "k1", "x", [120]);
    assert Initial.buf + [2] == [2] && Initial.writers + [e1] == [e1];
  }

  /** Field b: a second writer, under k2. */
  lemma EncodeFieldB(js: Value)
    requires js.VObject? && js.props == map["a" := VString("x"), "b" := VString("y")]
    ensures var e1 := Entry("k1", StringWriter1("x", [120]));
      EncodeField(EncState([2], [e1]), js, Field("b", Nullable(String, Some("k2")), false))
      == Ok(EncState([2, 2], [e1, Entry("k2", StringWriter1("y", [121]))]))
  {
    var e1 := Entry("k1", StringWriter1("x", [120]));
    var e2 := Entry("k2", StringWriter1("y", [121]));
    var s1 := EncState([2], [e1]);
    assert Utf8.Encode("y") == [121] && Encode(1) == [2];
    assert Find([e1], "k2") == None;
    EncodeFreshString(s1, "k2", "y", [121]);
    assert s1.buf + [2] == [2, 2] && s1.writers + [e2] == [e1, e2];
  }

  /** The encoder on `{a: "x", b: "y"}` with a and b nullable strings under keys k1 and k2: one writer per key. */
  lemma EncodeTwoKeys()
    ensures var fa := Field("a", Nullable(String, Some("k1")), false);
      var fb := Field("b", Nullable(String, Some("k2")), false);
      var js := VObject(map["a" := VString("x"), "b" := VString("y")]);
      EncodeValue(Initial, js, Record([fa, fb]), None)
      == Ok(EncState([2, 2], [Entry("k1", StringWriter1("x", [120])), Entry("k2", StringWriter1("y", [121]))]))
  {
    var fa := Field("a", Nullable(String, Some("k1")), false);
    var fb := Field("b", Nullable(String, Some("k2")), false);
    var js := VObject(map["a" := VString("x"), "b" := VString("y")]);
    var e1 := Entry("k1", StringWriter1("x", [120]));
    var s1 := EncState([2], [e1]);
    var s2 := EncState([2, 2], [e1, Entry("k2", StringWriter1("y", [121]))]);
    EncodeFieldA(js);
    EncodeFieldsStep(Initial, js, [fa, fb], 0, s1);
    EncodeFieldB(js);
    EncodeFieldsStep(s1, js, [fa, fb], 1, s2);
    assert EncodeFields(s2, js, [fa, fb], 2) == Ok(s2);
  }

  /** A deduplicating reader on a length label takes that many bytes from its block, as far as the block goes. */
  lemma ReadLength(k: Payload.Kind, block: seq<byte>, bpos: nat, values: seq<Value>, parent: seq<byte>, ppos: nat,
                   l: nat, payload: seq<byte>)
    requires HoldsAt(parent, ppos, Encode(l)) && Buf.Take(block, bpos, l) == payload
    ensures BlockReader.ReaderRead(BlockReader.DeduplicatingLabelReader(k, block, bpos, values), parent, ppos)
         == Ok((Payload.FromBytes(k, payload),
                BlockReader.DeduplicatingLabelReader(k, block, bpos + |payload|, values + [Payload.FromBytes(k, payload)]),
                ppos + |Encode(l)|))
  {
    ReadEncode(parent, ppos, l);
  }

  /** The decoder's reader for a nullable string, over the first block, after it has read "x" from it. */
  function ReaderAfterX(): BlockReader.Reader
  {
    BlockReader.DeduplicatingLabelReader(Payload.Utf8String, [120], 1, [VString("x")])
  }

  /** The first string the decoder meets gets a new reader over the first block, filed under the printed type. */
  lemma SelectFirstStringReader(blocks: seq<seq<byte>>)
    requires |blocks| >= 1 && blocks[0] == [120]
    ensures var r0 := BlockReader.DeduplicatingLabelReader(Payload.Utf8String, [120], 0, []);
      SelectReader(blocks, DecState(0, map[], 0), None, String) == Ok((r0, DecState(0, map[ReaderKey(None, String) := r0], 1)))
  {
  }

  /** That reader's first read: the length 1 takes "x" from the block. */
  lemma ReadFirstX()
    ensures BlockReader.ReaderRead(BlockReader.DeduplicatingLabelReader(Payload.Utf8String, [120], 0, []), [2, 2], 0)
         == Ok((VString("x"), ReaderAfterX(), 1))
  {
    assert Utf8.Decode([120]) == "x";
    assert Encode(1) == [2];
    ReadLength(Payload.Utf8String, [120], 0, [], [2, 2], 0, 1, [120]);
    assert [] + [VString("x")] == [VString("x")];
  }

  /** Field a: the decoder files a new reader under the printed type and reads "x" from the first block. */
  lemma DecodeFieldA(blocks: seq<seq<byte>>)
    requires |blocks| >= 1 && blocks[0] == [120]
    ensures DecodeField(blocks, [2, 2], DecState(0, map[], 0), Field("a", Nullable(String, Some("k1")), false))
         == Ok((VString("x"), DecState(1, map[ReaderKey(None, String) := ReaderAfterX()], 1)))
  {
    var msg: seq<byte> := [2, 2];
    var d0 := DecState(0, map[], 0);
    var key := ReaderKey(None, String);
    var r0 := BlockReader.DeduplicatingLabelReader(Payload.Utf8String, [120], 0, []);
    SelectFirstStringReader(blocks);
    ReadFirstX();
    assert map[key := r0][key := ReaderAfterX()] == map[key := ReaderAfterX()];
    assert DecodeScalar(blocks, msg, d0, String, None) == Ok((VString("x"), DecState(1, map[key := ReaderAfterX()], 1)));
    assert DecodeValue(blocks, msg, d0, Nullable(String, Some("k1")), None) == DecodeValue(blocks, msg, d0, String, None);
  }

  /** Field b: the decoder finds the same reader, which reads the length 1 past the end of the first block: "". */
  lemma DecodeFieldB(blocks: seq<seq<byte>>)
    ensures var key := ReaderKey(None, String);
      var r2 := BlockReader.DeduplicatingLabelReader(Payload.Utf8String, [120], 1, [VString("x"), VString("")]);
      DecodeField(blocks, [2, 2], DecState(1, map[key := ReaderAfterX()], 1), Field("b", Nullable(String, Some("k2")), false))
      == Ok((VString(""), DecState(2, map[key := r2], 1)))
  {
    var msg: seq<byte> := [2, 2];
    var key := ReaderKey(None, String);
    var d1 := DecState(1, map[key := ReaderAfterX()], 1);
    var r2 := BlockReader.DeduplicatingLabelReader(Payload.Utf8String, [120], 1, [VString("x"), VString("")]);
    assert SelectReader(blocks, d1, None, String) == Ok((ReaderAfterX(), d1));
    ReadEncode(msg, 1, 1);
    assert Buf.Take([120], 1, 1) == [];
    assert Utf8.Decode([]) == "";
    assert Encode(1) == [2];
    ReadLength(Payload.Utf8String, [120], 1, [VString("x")], msg, 1, 1, []);
    assert [VString("x")] + [VString("")] == [VString("x"), VString("")];
    assert BlockReader.ReaderRead(ReaderAfterX(), msg, 1) == Ok((VString(""), r2, 2));
    assert d1.readers[key := r2] == map[key := r2];
    assert DecodeScalar(blocks, msg, d1, String, None) == Ok((VString(""), DecState(2, map[key := r2], 1)));
    assert DecodeValue(blocks, msg, d1, Nullable(String, Some("k2")), None) == DecodeValue(blocks, msg, d1, String, None);
  }

  /**
   * NULLABLE over a scalar: the encoder files the scalar under the nullable
   * type's own deduplication key (encoder.ts:283), the decoder under the
   * printed type (decoder.ts:315, 367). Two nullable strings with different
   * keys get two blocks on the way out and share one reader on the way in,
   * so the second string is read from the first string's block, past its end.
   */
  lemma NullableKeysMerged()
    ensures var wt := Record([Field("a", Nullable(String, Some("k1")), false), Field("b", Nullable(String, Some("k2")), false)]);
      var js := VObject(map["a" := VString("x"), "b" := VString("y")]);
      && EncodeValue(Initial, js, wt, None).Ok?
      && |EncodeValue(Initial, js, wt, None).value.writers| == 2
      && EncodeMessage(js, wt).Ok?
      && DecodeMessage(EncodeMessage(js, wt).value, wt) == Ok(VObject(map["a" := VString("x"), "b" := VString("")]))
  {
    var wt := Record([Field("a", Nullable(String, Some("k1")), false), Field("b", Nullable(String, Some("k2")), false)]);
    var js := VObject(map["a" := VString("x"), "b" := VString("y")]);
    EncodeTwoKeys();
    var fin := EncState([2, 2], [Entry("k1", StringWriter1("x", [120])), Entry("k2", StringWriter1("y", [121]))]);
    DecodeEncoded(js, wt);
    var blocks := Blocks(fin.writers) + [fin.buf];
    assert blocks[0] == Concat([[120]]) == [120];
    DecodeTwoFields(blocks);
  }

  /** Both fields are read by the one reader over the first block: "x", then "" from past its end. */
  lemma DecodeTwoFields(blocks: seq<seq<byte>>)
    requires |blocks| >= 1 && blocks[0] == [120]
    ensures DecodeValue(blocks, [2, 2], DecState(0, map[], 0),
                        Record([Field("a", Nullable(String, Some("k1")), false), Field("b", Nullable(String, Some("k2")), false)]), None)
         == Ok((VObject(map["a" := VString("x"), "b" := VString("")]),
               DecState(2, map[ReaderKey(None, String) := BlockReader.DeduplicatingLabelReader(Payload.Utf8String, [120], 1, [VString("x"), VString("")])], 1)))
  {
    var fa := Field("a", Nullable(String, Some("k1")), false);
    var fb := Field("b", Nullable(String, Some("k2")), false);
    var msg: seq<byte> := [2, 2];
    var key := ReaderKey(None, String);
    var d0 := DecState(0, map[], 0);
    var d1 := DecState(1, map[key := ReaderAfterX()], 1);
    DecodeFieldA(blocks);
    DecodeFieldsStep(blocks, msg, d0, [fa, fb], 0, map[], VString("x"), d1);
    DecodeFieldB(blocks);
    var r2 := BlockReader.DeduplicatingLabelReader(Payload.Utf8String, [120], 1, [VString("x"), VString("")]);
    var d2 := DecState(2, map[key := r2], 1);
    DecodeFieldsStep(blocks, msg, d1, [fa, fb], 1, map["a" := VString("x")], VString(""), d2);
    assert map[]["a" := VString("x")] == map["a" := VString("x")];
    assert DecodeValue(blocks, msg, d0, Record([fa, fb]), None) == DecodeFields(blocks, msg, d0, [fa, fb], 0, map[]);
  }
}
