# Cedar binary codec — a Dafny model

This project models the core of cedar-js, a schema-driven binary codec for
JavaScript values. A value is encoded against a wire type. The encoder walks
the type and appends labels and markers to a main message. It hands each
scalar (STRING, BYTES, INT32) to a writer chosen by a deduplication key. A
deduplicating writer stores a payload the first time it sees a value. After
that it returns a backreference id for the value. `getResult` lays out the
message:

- a header byte;
- each writer's block, framed by its length;
- last, the main message.

The decoder splits the message back into blocks and walks the same type.
It reads scalars through readers that each take the next unused block.

The model covers the four core files:

- `dedup.ts`: the backreference trackers and the value deduplicator.
- `blockReader.ts`: the four block readers.
- `encoder.ts`: `CedarEncoder`, with `writeCedar` and `getResult`.
- `decoder.ts`: `BlockTracker` and `CedarDecoder`, with `readCedar`,
  `getReader` and `makeReader`.

## How the model is built

- Each traversal is first a function on a value state:
  - the encoder's state is `Encoder.EncState`;
  - the decoder's state is `Decoder.DecState`;
  - `dedup.ts` uses `Dedup.WriterLabel` and `Dedup.ReaderValue`;
  - `blockReader.ts` uses `BlockReader.LabelBlockStep` and
    `BlockReader.DedupBlockStep`.
- The source's classes are Dafny classes with the same fields. Their methods
  change those fields and are proved against the functions above.
- The writers inside the encoder's map and the readers inside the decoder's
  map are kept as values (`Dedup.Writer`, `BlockReader.Reader`). A write or
  read stores the advanced writer or reader back under its key.
- Reading bytes uses `Buf.Cursor`, a byte sequence with a position. The
  result buffer that `getResult` fills is `Buf.OutBuf`, an array written in
  place.

What is proved:

- Each piece has a partner:
  - labels read back as written (`Label.ReadEncode`);
  - UTF-8 payloads decode to the string they came from, less one leading
    byte order mark, which the decoder's `new TextDecoder()` drops
    (`Utf8.DecodeEncode`, `Utf8.DecodeDropsBom`);
  - framed blocks split back into the same blocks (`Framing.UnframeFrame`,
    `Encoder.MessageUnframes`);
  - a writer's backreference resolves in the reader to the same value
    (`Dedup.WriterReaderAgreement`, `RoundTrip.WriterReadBack`);
  - the encoder only appends and keeps its writers consistent
    (`Encoder.EncodeValueValid`);
  - the decoder only moves forward (`Decoder.DecodeValueLater`).
- The whole codec round-trips (`RoundTrip.RoundTrip`). Decoding the bytes
  `getResult` returns gives back the value, for every value in the fragment
  `RoundTrip.Faithful`. The fragment:
  - no null or undefined value, except that every omittable field is there
    and holds `undefined`;
  - STRING, BYTES and INT32 only directly under DEDUPE, and no string that
    starts with U+FEFF;
  - BOOLEAN only `false`;
  - an object with exactly its record's fields;
  - arrays of such values;
  - NULLABLE only over a type that is not a scalar. It may carry a
    deduplication key: below a non-scalar type only a DEDUPE sees that key,
    and the DEDUPE throws (`Encoder.PassedKeyIgnored`);
  - no NULL, FLOAT64, FIXED or VARIANT type.
- Among the values the fragment leaves out are those on which the encoder
  and decoder, as written, disagree. `Asymmetries` proves each such
  disagreement on a concrete value:
  - BOOLEAN `true` reads back as `false` (decoder.ts:352).
  - A null under NULLABLE writes the Null marker and then goes on down the
    inner type. Under a nullable string, the string writer then writes the
    Null marker again.
  - A present omittable field of a labeled type loses its label to the
    decoder's marker read.
  - A present omittable field of an unlabeled type reaches the unbound
    `length` at decoder.ts:326.
  - A nullable scalar is filed under its dedupe key by the encoder and under
    its printed type by the decoder.
  - A string that starts with U+FEFF loses that character on the way back
    (decoder.ts:41-42).

### Choices where the source leaves a gap

- Label constants. `label.ts` is not part of this model. The markers take the
  values the codec's own code relies on: NonNull 0 (encoder.ts:105), False 0,
  True 1, Null -1, Absent -2 and Error -3. Error is also the lowest reserved
  value, and backreference ids count down from -4. `Label.kind` has the five
  outcomes the switches in blockReader.ts and dedup.ts distinguish.
- `Wire.isLabeled`. `wire.ts` is not part of this model. INT32 and RECORD are
  unlabeled, as encoder.ts:256-265 says: `int32?` gets a non-null marker and
  `string?` does not.
- decoder.ts:326 increments the position by `length`, a name not bound in
  `readCedar`. That throws a ReferenceError and is modelled as the error
  `UnboundLength`.
- `Label.encode` and `Label.read` are ZigZag followed by a base-128 varint.
  These are the "ZigZag" and "Base 128 Varints" encodings of the Protocol
  Buffers encoding guide. `writeVarInt` writes the same bytes.

## Model

| member | source | states |
|---|---|---|
| Label.Kind | cedar-js/src/blockReader.ts:15-21 | a label is a length exactly when it is non-negative, and a backreference exactly when it lies below the reserved markers |
| Label.BackreferenceId | cedar-js/src/dedup.ts:27 | the k-th backreference id handed out is a backreference and resolves to table index k |
| Label.ReadEncode | cedar-js/src/blockReader.ts:13 | `Label.read` of an encoded label, whatever follows it, gives the label back and the position just past it |
| Label.FirstByteNull | cedar-js/src/decoder.ts:303 | the first byte of a label's encoding is the Null marker's byte exactly when the label is the Null marker |
| Label.FirstByteNonNull | cedar-js/src/decoder.ts:308 | the first byte of a label's encoding is the NonNull marker's byte exactly when the label is the NonNull marker |
| Label.Encode | cedar-js/src/encoder.ts:125-130 | the bytes of a label, never empty; `writeVarInt` writes them |
| Label.Read | cedar-js/src/blockReader.ts:13 | a label read succeeds only by moving forward and stays within the data |
| Utf8.DecodeEncode | cedar-js/src/decoder.ts:41-42 | decoding the UTF-8 encoding of a string gives the string back, less one leading U+FEFF, which `new TextDecoder()` drops |
| Utf8.Encode | cedar-js/src/encoder.ts:12-13 | `TextEncoder.encode` on a string; `Utf8.DecodeAllEncode` and `Utf8.DecodeEncode` are its partners |
| Utf8.DecodeAllEncode | cedar-js/src/encoder.ts:12-13 | decoding every scalar value of a string's UTF-8 encoding gives the string back, a leading U+FEFF included |
| Utf8.Decode | cedar-js/src/decoder.ts:41-42 | `new TextDecoder().decode`, which does not return a leading byte order mark |
| Utf8.DecodeFirstBom | cedar-js/src/decoder.ts:41-42 | the first scalar value decoded is U+FEFF exactly when the bytes start with EF BB BF, and it then takes those three bytes |
| Utf8.DecodeSkipsBomBytes | cedar-js/src/decoder.ts:41-42 | decoding skips the bytes EF BB BF at the start, and only there, and decodes the rest |
| Utf8.DecodeDropsBom | cedar-js/src/decoder.ts:41-42 | decoding is decoding every scalar value and then dropping one leading U+FEFF |
| Payload.ToBytes | cedar-js/src/encoder.ts:160-163 | a STRING writer takes a string to its UTF-8 bytes and a BYTES writer a byte array to its bytes; other values are refused |
| Payload.FromToBytes | cedar-js/src/decoder.ts:379-382 | every payload a writer produces is made from the value it was given, and the matching reader's `fromBytes` turns it back into that value less one leading U+FEFF |
| Payload.FromBytes | cedar-js/src/decoder.ts:379-382 | a reader's `fromBytes`: the UTF-8 decoding for STRING, the bytes themselves for BYTES |
| Payload.FromBytesSource | cedar-js/src/decoder.ts:379-382 | any payload reads back as the value it was made from, less one leading U+FEFF |
| Js.HasProperty | cedar-js/src/encoder.ts:315 | `name in js` succeeds exactly on objects, arrays and byte arrays |
| Js.GetProperty | cedar-js/src/encoder.ts:329 | `js[name]` throws exactly on null and undefined, and gives a present property's value |
| Buf.Take | cedar-js/src/blockReader.ts:17 | `buf.read(n)` gives the next n bytes when they are there, and otherwise a prefix of what remains |
| Buf.Cursor.constructor | cedar-js/src/decoder.ts:24 | a new read buffer starts at position 0 |
| Buf.Cursor.Get | cedar-js/src/decoder.ts:302 | `get()` returns the byte at the cursor and consumes it, and throws at the end |
| Buf.Cursor.Read | cedar-js/src/blockReader.ts:41 | `read(n)` returns the bytes `Take` gives and moves past exactly those |
| Buf.Cursor.ReadLabel | cedar-js/src/blockReader.ts:30 | the label at the cursor, the cursor moved past it; a malformed label leaves the cursor in place |
| Buf.Cursor.IncrementPosition | cedar-js/src/decoder.ts:312 | moves the cursor by the given amount, backwards for a negative one |
| Buf.OutBuf.constructor | cedar-js/src/encoder.ts:51 | a result buffer of the given capacity, empty |
| Buf.OutBuf.Write | cedar-js/src/encoder.ts:59-61 | the bytes written so far grow by exactly the bytes given |
| Dedup.NumberedIds | cedar-js/src/dedup.ts:7-14 | the ids a tracker has handed out lie below the reserved markers, and no two values share one |
| Dedup.WriterLabelNumbers | cedar-js/src/dedup.ts:9-15 | `labelForValue` gives null the Null marker; it gives the value first seen k-th the id LowestResevedValue-1-k and leaves the tracker alone; it gives a new value null, stores it under the next id and extends the numbering |
| Dedup.WriterLabel | cedar-js/src/dedup.ts:9-15 | `labelForValue`; `Dedup.WriterLabelNumbers` states what it gives |
| Dedup.ReaderValueCases | cedar-js/src/dedup.ts:22-42 | `valueForLabel` appends and returns a length label's payload, resolves a backreference to its table entry or throws outside the table, gives null for Absent and Null, throws on Error, and never changes the entries already there |
| Dedup.ReaderValue | cedar-js/src/dedup.ts:22-42 | `valueForLabel`; `Dedup.ReaderValueCases` states what it gives |
| Dedup.WriterReaderAgreement | cedar-js/src/dedup.ts:22-42 | when the reader's table holds the values in the order the writer first saw them, the id the writer gave a value resolves in the reader to that value |
| Dedup.WriterWrite | cedar-js/src/dedup.ts:68-76 | a writer's `write`; `Dedup.WriterWriteValid` states what it gives |
| Dedup.WriterWriteValid | cedar-js/src/dedup.ts:68-76 | a writer's write only appends one payload at most. A new value gets its payload's length as label, and that payload is the value's `valueToBytes`. A repeated value gets a backreference to a stored payload made from it. The values the payloads were made from stay numbered in the order first seen. Null gets the Null marker. A bytes writer appends the number's varint and returns no label |
| Dedup.DedupWriteRepeat | cedar-js/src/dedup.ts:54-60 | a value met again gets a backreference to the payload made from it, and the writer is unchanged |
| Dedup.DedupWriteNew | cedar-js/src/dedup.ts:68-72 | a value met for the first time has its payload appended and its length returned. That payload reads back as the value less one leading U+FEFF, and the writer stays consistent |
| Dedup.BackreferenceWriterTracker.constructor | cedar-js/src/dedup.ts:4-5 | an empty map, and `lastId` at the lowest reserved value |
| Dedup.BackreferenceWriterTracker.NextId | cedar-js/src/dedup.ts:7 | decrements `lastId` and returns the new value |
| Dedup.BackreferenceWriterTracker.LabelForValue | cedar-js/src/dedup.ts:9-15 | null gives the Null marker, a saved value its id, and a new value null, stored under the next id; the numbering invariant is kept |
| Dedup.BackreferenceReaderTracker.constructor | cedar-js/src/dedup.ts:19 | an empty table |
| Dedup.BackreferenceReaderTracker.ValueForLabel | cedar-js/src/dedup.ts:22-42 | returns and stores what `ReaderValue` gives, and leaves the table alone on a throw |
| Dedup.ValueDeduplicator.constructor | cedar-js/src/dedup.ts:47-66 | no payloads, no values seen, and the given `valueToBytes` |
| Dedup.ValueDeduplicator.NextId | cedar-js/src/dedup.ts:52 | decrements `lastId` and returns the new value |
| Dedup.ValueDeduplicator.LabelForValue | cedar-js/src/dedup.ts:54-60 | the same label and tracker update as the writer tracker's, keeping the numbering invariant |
| Dedup.ValueDeduplicator.Dedup | cedar-js/src/dedup.ts:68-76 | calls `onNew(v, valueToBytes(v))` exactly when the value is new, and otherwise `onRepeat` with its backreference |
| BlockReader.LabelBlockStepEncoded | cedar-js/src/blockReader.ts:12-22 | after a length label, its payload is read from the block and decoded. Absent gives undefined and Error gives null, without touching the block. Null and backreferences throw |
| BlockReader.LabelBlockStep | cedar-js/src/blockReader.ts:12-22 | `LabelBlockReader.read`; `BlockReader.LabelBlockStepEncoded` states what it gives |
| BlockReader.DedupBlockStep | cedar-js/src/blockReader.ts:29-50 | `DeduplicatingLabelBlockReader.read`; `BlockReader.DedupBlockStepTracks` and `BlockReader.DedupBlockStepEncoded` state what it gives |
| BlockReader.FixedSizeStep | cedar-js/src/blockReader.ts:58-60 | `FixedSizeBlockReader.read`; `BlockReader.FixedSizeStepEncoded` states what it gives |
| BlockReader.ReaderRead | cedar-js/src/blockReader.ts:29-66 | one read by any of the four readers; `BlockReader.ReaderReadMonotone` states what it keeps |
| BlockReader.DedupBlockStepTracks | cedar-js/src/blockReader.ts:29-50 | on length and backreference labels the deduplicating block reader resolves the same values as `valueForLabel`, and it throws on every marker |
| BlockReader.DedupBlockStepEncoded | cedar-js/src/blockReader.ts:29-50 | after a length label and its payload, the payload is decoded and appended to the table. A backreference inside the table gives that entry. One outside it throws, and every marker throws |
| BlockReader.FixedSizeStepEncoded | cedar-js/src/blockReader.ts:58-60 | a fixed-size read of bytes that are there gives them decoded and moves past them |
| BlockReader.ReaderReadMonotone | cedar-js/src/blockReader.ts:29-50 | a read keeps the reader's kind and block, only moves its cursor forward and only appends to its table. An unlabeled reader leaves the parent cursor alone |
| BlockReader.LabelBlockReader.constructor | cedar-js/src/blockReader.ts:10 | keeps the block buffer and `fromBytes` |
| BlockReader.LabelBlockReader.Read | cedar-js/src/blockReader.ts:12-22 | result and both cursors as `LabelBlockStep` gives them |
| BlockReader.DeduplicatingLabelBlockReader.constructor | cedar-js/src/blockReader.ts:26-27 | an empty table over the given block |
| BlockReader.DeduplicatingLabelBlockReader.Read | cedar-js/src/blockReader.ts:29-50 | result, table and both cursors as `DedupBlockStep` gives them, and the table is unchanged on a throw |
| BlockReader.FixedSizeBlockReader.constructor | cedar-js/src/blockReader.ts:54-56 | keeps the block buffer, `fromBytes` and the byte length |
| BlockReader.FixedSizeBlockReader.Read | cedar-js/src/blockReader.ts:58-60 | reads `byteLength` bytes from its own block and ignores the parent |
| BlockReader.UnlabeledVarIntBlockReader.constructor | cedar-js/src/blockReader.ts:5 | keeps the block buffer |
| BlockReader.UnlabeledVarIntBlockReader.Read | cedar-js/src/blockReader.ts:64-66 | the label read from its own block, the parent untouched |
| Framing.ReadBlock | cedar-js/src/decoder.ts:29-33 | a block read moves strictly forward and stays within the data |
| Framing.Unframe | cedar-js/src/decoder.ts:28-34 | the loop reads at least one block and keeps the blocks read before it |
| Framing.ReadFrameBlock | cedar-js/src/decoder.ts:29-33 | a length-framed block reads back as exactly that block |
| Framing.UnframeNext | cedar-js/src/decoder.ts:34 | the loop goes on exactly while bytes remain |
| Framing.FrameCons | cedar-js/src/encoder.ts:57-68 | the first block written comes first on the wire |
| Framing.UnframeFramedFrom | cedar-js/src/decoder.ts:28-34 | blocks framed to the end of the data are read back as exactly those blocks |
| Framing.UnframeFrame | cedar-js/src/decoder.ts:27-37 | whatever precedes it, a frame of one or more blocks splits back into exactly those blocks |
| Encoder.Find | cedar-js/src/encoder.ts:222 | the writer map lookup finds an entry under the key, or none exactly when no entry has it |
| Encoder.MakeWriter | cedar-js/src/encoder.ts:158-175 | a consistent empty writer for STRING, BYTES and INT32, and a throw for every other type |
| Encoder.SelectWriter | cedar-js/src/encoder.ts:220-228 | the writer kept under the key, or a new one appended under it. The main message is untouched. It throws exactly when the key is new and the type has no writer |
| Encoder.WriteScalar | cedar-js/src/encoder.ts:213-218 | `write` without a deduplication key throws |
| Encoder.FieldPresent | cedar-js/src/encoder.ts:315 | a falsy record is never present, and on an object a field is present exactly when it is there and not null. Arrays and byte arrays never have one. Other truthy values throw |
| Encoder.FieldOmitted | cedar-js/src/encoder.ts:322 | only an omittable field of a truthy value is omitted, and on an object exactly when it is missing or undefined |
| Encoder.SelectWriterValid | cedar-js/src/encoder.ts:220-228 | `getWriter` keeps the writer map consistent and only adds to it |
| Encoder.WriterWriteGrows | cedar-js/src/encoder.ts:215 | a writer's write keeps it consistent and of the same kind, and only appends to its payloads |
| Encoder.WriteValid | cedar-js/src/encoder.ts:213-218 | `write` keeps the writer map consistent and only appends |
| Encoder.PassedKeyIgnored | cedar-js/src/encoder.ts:283-286 | a deduplication key passed down to a type that is not a scalar changes nothing, except that a DEDUPE below it throws |
| Encoder.EncodeValue | cedar-js/src/encoder.ts:268-384 | `writeCedar`; `Encoder.EncodeValueValid` states what it keeps |
| Encoder.EncodeFields | cedar-js/src/encoder.ts:313-343 | the record loop; `Encoder.EncodeFieldsValid` states what it keeps |
| Encoder.EncodeField | cedar-js/src/encoder.ts:315-341 | one field; `Encoder.EncodeFieldValid` states what it keeps |
| Encoder.EncodeElements | cedar-js/src/encoder.ts:373-375 | the array loop; `Encoder.EncodeElementsValid` states what it keeps |
| Encoder.EncodeValueValid | cedar-js/src/encoder.ts:268-384 | `writeCedar` keeps every writer consistent with its payloads and keeps keys distinct. It only appends to the main message, to each writer's payloads and to the writer map |
| Encoder.EncodeFieldsValid | cedar-js/src/encoder.ts:313-342 | the same for the record loop |
| Encoder.EncodeFieldValid | cedar-js/src/encoder.ts:315-341 | the same for one field |
| Encoder.EncodeElementsValid | cedar-js/src/encoder.ts:375 | the same for the array elements |
| Encoder.Blocks | cedar-js/src/encoder.ts:39-48 | one block per writer, in the map's order, each its payloads laid end to end |
| Encoder.MessageUnframes | cedar-js/src/encoder.ts:32-70 | the result starts with the zero flags byte, and after it splits back into the writers' blocks in order followed by the main message |
| Encoder.Message | cedar-js/src/encoder.ts:32-70 | `getResult`; `Encoder.MessageUnframes` states how it splits back |
| Encoder.CedarEncoder.constructor | cedar-js/src/encoder.ts:15-19 | an empty main message and no writers |
| Encoder.CedarEncoder.BuildHeader | cedar-js/src/encoder.ts:112-117 | a single zero flags byte |
| Encoder.CedarEncoder.WriteBytesRaw | cedar-js/src/encoder.ts:119-123 | appends the bytes |
| Encoder.CedarEncoder.WriteVarInt | cedar-js/src/encoder.ts:125-130 | appends the ZigZag varint, which is the label encoding |
| Encoder.CedarEncoder.WriteBytes | cedar-js/src/encoder.ts:132-138 | appends the length, then the bytes |
| Encoder.CedarEncoder.WriteString | cedar-js/src/encoder.ts:140-146 | appends the UTF-8 length, then the UTF-8 bytes |
| Encoder.CedarEncoder.WriteStringLength | cedar-js/src/encoder.ts:148-151 | appends only the length |
| Encoder.CedarEncoder.WriteLabel | cedar-js/src/encoder.ts:153-156 | appends the label's bytes, with no rewind |
| Encoder.CedarEncoder.GetWriter | cedar-js/src/encoder.ts:220-228 | throws without a key, and otherwise the writer and map `SelectWriter` give |
| Encoder.CedarEncoder.Write | cedar-js/src/encoder.ts:213-218 | the label and new state `WriteScalar` gives |
| Encoder.CedarEncoder.WriteCedar | cedar-js/src/encoder.ts:268-384 | ends in the state `EncodeValue` gives, and fails exactly when it fails |
| Encoder.CedarEncoder.WriteNullable | cedar-js/src/encoder.ts:273-283 | the NULLABLE arm, as `EncodeValue` gives it |
| Encoder.CedarEncoder.WriteFields | cedar-js/src/encoder.ts:313-343 | the record loop, as `EncodeFields` gives it |
| Encoder.CedarEncoder.WriteElements | cedar-js/src/encoder.ts:373-375 | the array loop, as `EncodeElements` gives it |
| Encoder.CedarEncoder.WriteField | cedar-js/src/encoder.ts:315-341 | one field (present, omitted, missing nullable, or a throw), as `EncodeField` gives it |
| Encoder.CedarEncoder.JsToCedarWithType | cedar-js/src/encoder.ts:241-253 | `writeCedar` with no deduplication key |
| Encoder.CedarEncoder.GetResult | cedar-js/src/encoder.ts:32-70 | returns exactly `Message` of the state, whose unframing `MessageUnframes` proves; the length check never fails |
| Encoder.CedarEncoder.BlockLengths | cedar-js/src/encoder.ts:39-48 | each writer's length header, and the exact byte count of the framed blocks |
| Encoder.WriteBlocks | cedar-js/src/encoder.ts:57-63 | the result grows by exactly the framed writer blocks |
| Encoder.WriteBlock | cedar-js/src/encoder.ts:59-62 | the result grows by the length header and then each payload |
| Decoder.NextUnusedBlock | cedar-js/src/decoder.ts:21-25 | the next unused block, the index advanced; it throws exactly when none is left |
| Decoder.NewReader | cedar-js/src/decoder.ts:377-391 | a reader at the start of the next unused block, with an empty table, for STRING, BYTES and INT32; any other type throws |
| Decoder.SelectReader | cedar-js/src/decoder.ts:366-375 | the reader kept under the key (or under the printed type and `!`), or a new one then kept under it; the cursor is untouched |
| Decoder.DecodeScalarLater | cedar-js/src/decoder.ts:342-347 | a scalar read leaves a later state |
| Decoder.DecodeValueLater | cedar-js/src/decoder.ts:298-360 | `readCedar` never moves the cursor back, hands blocks out in order and never returns one, and only advances and appends to each reader |
| Decoder.DecodeFieldsLater | cedar-js/src/decoder.ts:320-336 | the same for the record loop |
| Decoder.DecodeFieldLater | cedar-js/src/decoder.ts:323-334 | the same for one field |
| Decoder.DecodeElementsLater | cedar-js/src/decoder.ts:338-341 | the same for the array elements |
| Decoder.DecodeValue | cedar-js/src/decoder.ts:298-360 | `readCedar`; `Decoder.DecodeValueLater` states what it keeps and `RoundTrip.RoundTripValue` what it reads back |
| Decoder.DecodeFields | cedar-js/src/decoder.ts:320-336 | the record loop; `Decoder.DecodeFieldsLater` states what it keeps |
| Decoder.DecodeField | cedar-js/src/decoder.ts:323-334 | one field; `Decoder.DecodeFieldLater` states what it keeps |
| Decoder.DecodeElements | cedar-js/src/decoder.ts:338-341 | the array loop; `Decoder.DecodeElementsLater` states what it keeps |
| Decoder.DecodeScalar | cedar-js/src/decoder.ts:342-347 | a scalar read through `getReader`; `Decoder.DecodeScalarLater` states what it keeps |
| Decoder.DecodeMessage | cedar-js/src/decoder.ts:63-66 | skipping the header byte, unframing, then `readCedar` on the last block; `RoundTrip.RoundTrip` states what it reads back |
| Decoder.BlockTracker.constructor | cedar-js/src/decoder.ts:36 | the blocks, no block used, and the message a fresh cursor on the last block |
| Decoder.BlockTracker.Create | cedar-js/src/decoder.ts:27-37 | the loop reads exactly the blocks `Unframe` gives, and throws exactly when it throws |
| Decoder.BlockTracker.NextBlock | cedar-js/src/decoder.ts:21-25 | the next unused block, as `NextUnusedBlock` gives it |
| Decoder.CedarDecoder.constructor | cedar-js/src/decoder.ts:43-44 | no readers yet |
| Decoder.CedarDecoder.Create | cedar-js/src/decoder.ts:63-66 | skips the header byte, then unframes the rest |
| Decoder.CedarDecoder.CedarToJsWithType | cedar-js/src/decoder.ts:286 | reads the value from the main message, as `DecodeValue` gives it |
| Decoder.CedarDecoder.MakeReader | cedar-js/src/decoder.ts:377-391 | the reader `NewReader` gives, taking the next unused block |
| Decoder.CedarDecoder.GetReader | cedar-js/src/decoder.ts:366-375 | the reader and readers map `SelectReader` give |
| Decoder.CedarDecoder.ReadCedar | cedar-js/src/decoder.ts:298-360 | the value, cursor and readers `DecodeValue` gives, failing exactly when it fails |
| Decoder.CedarDecoder.ReadRecord | cedar-js/src/decoder.ts:320-336 | the record loop, as `DecodeFields` gives it |
| Decoder.CedarDecoder.ReadArray | cedar-js/src/decoder.ts:338-341 | the length label, then that many elements, as `DecodeValue` gives them |
| Decoder.CedarDecoder.ReadField | cedar-js/src/decoder.ts:323-334 | one field, with the omittable label logic, as `DecodeField` gives it |
| Decoder.CedarDecoder.ReadScalar | cedar-js/src/decoder.ts:342-347 | `getReader(memoKey, wt).read(buf)`, as `DecodeScalar` gives it |
| RoundTrip.WriterReadBack | cedar-js/src/blockReader.ts:29-50 | a reader caught up with its writer reads back the value the writer just wrote, a string less one leading U+FEFF, and is caught up again. A deduplicating writer never writes the Null marker |
| RoundTrip.DedupReadBack | cedar-js/src/blockReader.ts:33-44 | a backreference or a new payload the deduplicating writer wrote reads back as the written value, a string less one leading U+FEFF |
| RoundTrip.Faithful | cedar-js/src/decoder.ts:298-360 | the values the decoder reads back as the encoder wrote them; `RoundTrip.RoundTrip` is proved for them |
| RoundTrip.RoundTripValue | cedar-js/src/decoder.ts:298-360 | from related points, `readCedar` reads back what `writeCedar` wrote, and the two stay related |
| RoundTrip.LabeledNullableRoundTrip | cedar-js/src/decoder.ts:311-315 | a non-null value under NULLABLE over a labeled type reads back |
| RoundTrip.UnlabeledNullableRoundTrip | cedar-js/src/decoder.ts:307-310 | a non-null value under NULLABLE over an unlabeled type reads back past the NonNull marker |
| RoundTrip.DedupeRoundTrip | cedar-js/src/decoder.ts:317-318 | a scalar under DEDUPE is written and read under the same key |
| RoundTrip.ArrayRoundTrip | cedar-js/src/decoder.ts:338-341 | an array reads back: its length, then its elements in order |
| RoundTrip.RoundTripFields | cedar-js/src/decoder.ts:320-336 | a record's fields read back in order under their names |
| RoundTrip.RoundTripElements | cedar-js/src/decoder.ts:340 | array elements read back in order |
| RoundTrip.RoundTrip | cedar-js/src/encoder.ts:241-253 | on the `Faithful` fragment, which leaves out strings starting with U+FEFF, decoding what `jsToCedarWithType` and `getResult` produce gives back the value that was encoded |
| Asymmetries.TrueReadsBackFalse | cedar-js/src/decoder.ts:348-354 | BOOLEAN `true` is encoded, and decodes as `false` |
| Asymmetries.NullWrittenTwice | cedar-js/src/encoder.ts:273-283 | `[null, "x"]` as an array of nullable strings writes the Null marker twice, and decodes as `[null, null]` |
| Asymmetries.PresentOmittableLosesLabel | cedar-js/src/decoder.ts:323-332 | `{a: []}` with `a` an omittable array writes only the length 0, and the decoder takes it as a marker and then finds no length |
| Asymmetries.PresentOmittableUnboundLength | cedar-js/src/decoder.ts:326 | `{a: {}}` with `a` an omittable record writes the NonNull marker, and the decoder fails on the unbound `length` |
| Asymmetries.NullableKeysMerged | cedar-js/src/decoder.ts:366-375 | two nullable strings with different keys get two writers, but one reader on the way back, so the second reads back as `""` |
| Asymmetries.BomDropped | cedar-js/src/decoder.ts:41-42 | the string U+FEFF followed by "x" is encoded with its mark, and decodes as "x" |

## Left out

- Debug tracing is not modelled: `track`, `log`, `tracked`, `console` output and the JSON log files written with `writeFileSync`. Neither is the `DEBUG` flag. None of these changes the bytes.
- `cedarToJsWithType` in decoder.ts (68-296) builds a GraphQL visitor that is never used. Only its call of `readCedar` (286) is modelled.
- `maybeRewindToOverwriteNonNull` (encoder.ts:103-110) and `nonNullPos` are not modelled. The call in `writeLabel` is commented out, and `nonNullPos` is never set to anything but -1, so the rewind in `writeVarInt` never fires.
- Encoder.MakeWriter: the ARRAY writer of encoder.ts:167-171 is left out. `write` is only called for STRING, BYTES and INT32, so no ARRAY writer is ever made.
- FLOAT64 and VARIANT throw in the encoder and are unsupported in the decoder, as in the source. FIXED writes the raw bytes without a length check, as in the source.
- The commented-out null-mask code of the RECORD case is not modelled.
- `DeduplicatingWriter`, `BytesWriter`, `DeduplicatingLabelReader` and `UnlabeledVarIntReader` are not part of this model. They are given the behaviour of `ValueDeduplicator` and of the block readers above.
- `label.ts`, `varint.ts`, `buf.ts` and `wire.ts` are not part of this model. Their constants and encodings are given in `Label`, `Buf` and `Wire`.
- Utf8.Decode: a malformed sequence becomes one U+FFFD per byte, which is simpler than the WHATWG decoder's replacement rules. Dafny strings hold scalar values only, so lone surrogates are not modelled.
- Js.HasProperty: `name in` on an array or byte array is taken to be false, which ignores indices and inherited names. On an object only its own properties are seen. An inherited name such as `constructor` or `toString` passes `name in js` in the source (encoder.ts:315, 322) but is taken as absent here.
- The trackers' `seen` maps compare values structurally. A JavaScript `Map` compares strings by value but a `Uint8Array` by identity. So two equal BYTES values held in different arrays get two payloads in the source, and a payload and a backreference in the model.
- Labels and numbers are unbounded integers. The source's conversions between `BigInt` and `Number`, and the 32-bit range of INT32, are not modelled.
- Writers and readers inside the encoder's and decoder's maps are values, not shared objects. The model does not capture aliasing between map entries.
- RoundTrip.RoundTrip: the round trip is proved only on the `Faithful` fragment. The codec as written does not round-trip outside it, as the `Asymmetries` lemmas show.
- The encoder/decoder disagreements shown in `Asymmetries` are modelled as written, not corrected.
- Payload.ToBytes: a STRING writer refuses a value that is not a string with `TypeMismatch`. The source's `TextEncoder.encode` (encoder.ts:12-13, 160-161) first converts it with `String`: a number becomes its decimal digits and undefined becomes "". That conversion is not modelled. A BYTES writer refuses a value that is not a byte array. The source hands any value to `bytes => bytes` (encoder.ts:163) and then to the buffer, whose code is not part of this model.
- Dedup.WriterWrite: an INT32 writer refuses a value that is not a number with `TypeMismatch`. The source hands it to `VarInt.ZigZag.encode` (encoder.ts:165), and `varint.ts` is not part of this model.
- Encoder.EncodeValue: FIXED refuses a value that is not a byte array with `TypeMismatch`. The source hands any value to `writeBytesRaw` (encoder.ts:361), whose buffer code is not part of this model.
- Decoder.NextUnusedBlock: asking for a block past the last one is modelled as an error. In the source it builds a buffer over `undefined`.
