/**
 * Where the encoder and the decoder agree. For the values of the fragment
 * `Faithful` describes, decoding the bytes `getResult` returns gives back
 * the value `jsToCedarWithType` was given.
 *
 * The fragment: no null or undefined value, except that every omittable
 * field is there and holds undefined; STRING, BYTES and INT32 only directly
 * under DEDUPE, and no string that starts with U+FEFF; BOOLEAN only false;
 * an object with exactly its record's fields; no NULL, FLOAT64, FIXED or
 * VARIANT type. A NULLABLE may carry a deduplication key: below a type that
 * is not a scalar only a DEDUPE sees it, and that throws
 * (`Encoder.PassedKeyIgnored`). Among what is left out are the places where
 * the two sides disagree or one of them throws: a null under NULLABLE, a
 * present omittable field, BOOLEAN true, a scalar read under a key the
 * decoder makes up itself, and a leading byte order mark (see the
 * Asymmetries module for each), an object's other properties, which the
 * decoder does not read, and the types the decoder does not support.
 *
 * The proof is a simulation. `Related` ties each point of the encoder's
 * traversal to the same point of the decoder's traversal over the finished
 * message: the cursor sits at the end of what has been written, there is
 * one reader per writer, and each reader is at the end of its writer's
 * payloads in that writer's block, with the decoded payloads as its table.
 */
module RoundTrip {
  import opened Wrappers
  import opened Bytes
  import opened Label
  import opened Js
  import opened Wire
  import opened Dedup
  import opened Encoder
  import opened Decoder
  import BlockReader
  import Framing
  import Payload

  /** The values the codec reads back as it wrote them. */
  ghost predicate Faithful(wt: Type, v: Value)
    decreases wt
  {
    && !IsNullish(v)
    && match wt
       case Dedupe(_, of) =>
         && ((of.String? && v.VString?) || (of.Bytes? && v.VBytes?) || (of.Int32? && v.VNumber?))
         && Payload.Stripped(v) == v
       case Nullable(of, _) => !(of.String? || of.Bytes? || of.Int32?) && Faithful(of, v)
       case Record(fields) =>
         && v.VObject?
         && v.props.Keys == (set j | 0 <= j < |fields| :: fields[j].name)
         && (forall j :: 0 <= j < |fields| ==>
               && fields[j].name in v.props
               && if fields[j].omittable then v.props[fields[j].name] == VUndefined
                  else Faithful(fields[j].ty, v.props[fields[j].name]))
       case Array(of) => v.VArray? && forall j :: 0 <= j < |v.elems| ==> Faithful(of, v.elems[j])
       case Boolean => v == VBool(false)
       case _ => false
  }

  /** The blocks of the finished message `fin`: the writers' blocks, then the main message. */
  function Layout(fin: EncState): (r: seq<seq<byte>>)
    ensures |r| == |fin.writers| + 1 && r[|fin.writers|] == fin.buf
    ensures forall j :: 0 <= j < |fin.writers| ==> r[j] == Concat(fin.writers[j].writer.valuesAsBytes)
  {
    Blocks(fin.writers) + [fin.buf]
  }

  /** The block of writer `i` in the finished message. */
  function BlockOf(fin: EncState, i: nat): seq<byte>
    requires i < |fin.writers|
  {
    Concat(fin.writers[i].writer.valuesAsBytes)
  }

  /** The reader that has read back, from `block`, everything `w` has written so far. */
  function ReaderFor(w: Writer, block: seq<byte>): BlockReader.Reader
  {
    match w
    case DeduplicatingWriter(p, _, vab) => BlockReader.DeduplicatingLabelReader(p, block, |Concat(vab)|, Decoded(p, vab))
    case BytesWriter(vab) => BlockReader.UnlabeledVarIntReader(block, |Concat(vab)|)
  }

  /** The decoder has a reader under exactly the keys the encoder has a writer under. */
  ghost predicate KeysMatch(ws: seq<Entry>, readers: map<DedupeKey, BlockReader.Reader>)
  {
    forall key :: key in readers <==> Find(ws, key).Some?
  }

  /** The reader under each writer's key has read back, from that writer's finished block, what the writer has written. */
  ghost predicate ReadersMatch(ws: seq<Entry>, readers: map<DedupeKey, BlockReader.Reader>, fin: EncState)
  {
    && |ws| <= |fin.writers|
    && forall j :: 0 <= j < |ws| ==>
         && ws[j].key in readers
         && readers[ws[j].key] == ReaderFor(ws[j].writer, BlockOf(fin, j))
  }

  /** The decoder at `d` has read back from the finished message `fin` exactly what the encoder at `e` has written. */
  ghost predicate Related(e: EncState, d: DecState, fin: EncState)
  {
    && KeysDistinct(e.writers) && Extends(e, fin)
    && d.pos == |e.buf|
    && d.nextBlock == |e.writers|
    && KeysMatch(e.writers, d.readers)
    && ReadersMatch(e.writers, d.readers, fin)
  }

  /** The state after writer `i` writes `v`: the writer replaced, and its label, if any, appended to the main message. */
  function Written(s1: EncState, i: nat, v: Value): EncState
    requires i < |s1.writers| && WriterWrite(s1.writers[i].writer, v).Ok?
  {
    var written := WriterWrite(s1.writers[i].writer, v).value;
    var s2 := s1.(writers := s1.writers[i := Entry(s1.writers[i].key, written.1)]);
    if written.0.Some? then Emit(s2, Encode(written.0.value)) else s2
  }

  lemma ConcatMono(a: seq<seq<byte>>, b: seq<seq<byte>>)
    requires a <= b
    ensures Concat(a) <= Concat(b)
  {
    ConcatPrefix(b, |a|);
    assert b[..|a|] == a;
  }

  /** What follows a prefix of a byte string is held in it right after that prefix. */
  lemma PrefixHolds(a: seq<byte>, b: seq<byte>, whole: seq<byte>)
    requires a + b <= whole
    ensures HoldsAt(whole, |a|, b)
  {
    assert whole[|a|..|a| + |b|] == (a + b)[|a|..];
  }

  lemma DecodedAppend(p: Payload.Kind, vab: seq<seq<byte>>, bytes: seq<byte>)
    ensures Decoded(p, vab + [bytes]) == Decoded(p, vab) + [Payload.FromBytes(p, bytes)]
  {
    assert (vab + [bytes])[..|vab|] == vab;
  }

  lemma FindAppend(ws: seq<Entry>, e: Entry, key: DedupeKey)
    ensures Find(ws + [e], key).Some? <==> Find(ws, key).Some? || key == e.key
  {
    var ws' := ws + [e];
    if Find(ws, key).Some? {
      assert ws'[Find(ws, key).value].key == key;
    }
    if key == e.key {
      assert ws'[|ws|].key == key;
    }
    if Find(ws', key).Some? {
      var i := Find(ws', key).value;
      if i < |ws| {
        assert ws[i].key == key;
      }
    }
  }

  /** Entries with the same keys in the same order are searched alike. */
  lemma {:induction false} FindSameKeys(a: seq<Entry>, b: seq<Entry>, key: DedupeKey)
    requires |a| == |b|
    requires forall j :: 0 <= j < |a| ==> a[j].key == b[j].key
    ensures Find(a, key) == Find(b, key)
    decreases |a|
  {
    if a != [] {
      FindSameKeys(a[1..], b[1..], key);
    }
  }

  /** Appending to the main message keeps the decoder in step, once the decoder has moved past the same bytes. */
  lemma EmitRelated(e: EncState, d: DecState, fin: EncState, bytes: seq<byte>)
    requires Related(e, d, fin)
    requires Extends(Emit(e, bytes), fin)
    ensures Related(Emit(e, bytes), d.(pos := d.pos + |bytes|), fin)
    ensures HoldsAt(fin.buf, d.pos, bytes)
  {
    PrefixHolds(e.buf, bytes, fin.buf);
  }

  /** Replacing writer `i` by one that has written more keeps the decoder in step, once its reader is replaced to match. */
  lemma ReplaceRelated(e1: EncState, d1: DecState, fin: EncState, i: nat, e2: EncState, reader: BlockReader.Reader)
    requires Related(e1, d1, fin) && i < |e1.writers|
    requires KeysDistinct(e2.writers) && Extends(e2, fin)
    requires |e2.writers| == |e1.writers|
    requires forall j :: 0 <= j < |e1.writers| ==> e2.writers[j].key == e1.writers[j].key
    requires forall j :: 0 <= j < |e1.writers| && j != i ==> e2.writers[j].writer == e1.writers[j].writer
    requires reader == ReaderFor(e2.writers[i].writer, BlockOf(fin, i))
    ensures Related(e2, d1.(pos := |e2.buf|, readers := d1.readers[e1.writers[i].key := reader]), fin)
  {
    ReplaceKeys(e1.writers, e2.writers, d1.readers, e1.writers[i].key, reader);
    ReplaceReaders(e1.writers, e2.writers, d1.readers, fin, i, reader);
  }

  lemma ReplaceKeys(ws1: seq<Entry>, ws2: seq<Entry>, readers: map<DedupeKey, BlockReader.Reader>, k: DedupeKey,
                    reader: BlockReader.Reader)
    requires KeysMatch(ws1, readers) && k in readers
    requires |ws2| == |ws1|
    requires forall j :: 0 <= j < |ws1| ==> ws2[j].key == ws1[j].key
    ensures KeysMatch(ws2, readers[k := reader])
  {
    forall key
      ensures key in readers[k := reader] <==> Find(ws2, key).Some?
    {
      FindSameKeys(ws1, ws2, key);
    }
  }

  lemma ReplaceReaders(ws1: seq<Entry>, ws2: seq<Entry>, readers: map<DedupeKey, BlockReader.Reader>, fin: EncState,
                       i: nat, reader: BlockReader.Reader)
    requires KeysDistinct(ws1) && ReadersMatch(ws1, readers, fin) && i < |ws1|
    requires |ws2| == |ws1|
    requires forall j :: 0 <= j < |ws1| ==> ws2[j].key == ws1[j].key
    requires forall j :: 0 <= j < |ws1| && j != i ==> ws2[j].writer == ws1[j].writer
    requires reader == ReaderFor(ws2[i].writer, BlockOf(fin, i))
    ensures ReadersMatch(ws2, readers[ws1[i].key := reader], fin)
  {
    forall j | 0 <= j < |ws2|
      ensures ws2[j].key in readers[ws1[i].key := reader]
      ensures readers[ws1[i].key := reader][ws2[j].key] == ReaderFor(ws2[j].writer, BlockOf(fin, j))
    {
      if j != i {
        assert ws1[j].key != ws1[i].key;
      }
    }
  }

  /**
   * A deduplicating reader meets a backreference to a payload that decodes to
   * `v`: it gives back its table's entry for that payload, which is `v`, and
   * stays where it is.
   */
  lemma ReadRepeat(w: Writer, v: Value, block: seq<byte>, msg: seq<byte>, pos: nat, id: int)
    requires w.DeduplicatingWriter?
    requires HoldsAt(msg, pos, Encode(id))
    requires Kind(id) == Backreference && LabelToOffset(id) < |w.valuesAsBytes|
    requires Payload.FromBytes(w.payload, w.valuesAsBytes[LabelToOffset(id)]) == v
    ensures BlockReader.ReaderRead(ReaderFor(w, block), msg, pos) == Ok((v, ReaderFor(w, block), pos + |Encode(id)|))
  {
    ReadEncode(msg, pos, id);
  }

  /** A deduplicating reader meets the length of a new payload: it decodes the payload from its block and adds it to its table. */
  lemma ReadNew(w: Writer, w': Writer, v: Value, block: seq<byte>, msg: seq<byte>, pos: nat, bytes: seq<byte>, id: int)
    requires w.DeduplicatingWriter? && w'.DeduplicatingWriter? && w'.payload == w.payload
    requires w'.valuesAsBytes == w.valuesAsBytes + [bytes]
    requires Concat(w'.valuesAsBytes) <= block
    requires id == |bytes| && HoldsAt(msg, pos, Encode(id))
    requires Payload.FromBytes(w.payload, bytes) == v
    ensures BlockReader.ReaderRead(ReaderFor(w, block), msg, pos) == Ok((v, ReaderFor(w', block), pos + |Encode(id)|))
  {
    var vab := w.valuesAsBytes;
    ConcatAppend(vab, bytes);
    PrefixHolds(Concat(vab), bytes, block);
    DecodedAppend(w.payload, vab, bytes);
    ReadEncode(msg, pos, |bytes|);
  }

  /** An unlabeled reader reads the number its writer appended to its block, and leaves the main message alone. */
  lemma ReadNumber(w: Writer, block: seq<byte>, msg: seq<byte>, pos: nat, n: int)
    requires w.BytesWriter?
    requires Concat(w.valuesAsBytes + [Encode(n)]) <= block
    ensures BlockReader.ReaderRead(ReaderFor(w, block), msg, pos)
         == Ok((VNumber(n), ReaderFor(BytesWriter(w.valuesAsBytes + [Encode(n)]), block), pos))
  {
    var vab := w.valuesAsBytes;
    ConcatAppend(vab, Encode(n));
    PrefixHolds(Concat(vab), Encode(n), block);
    ReadEncode(block, |Concat(vab)|, n);
  }

  /**
   * Writer and reader agree on one scalar: whatever a valid writer writes for
   * a value that is not null, the reader that has caught up with it reads the
   * value back from the label in the main message and the payloads in the
   * writer's block, and is then caught up with the writer again. A string
   * comes back without a leading byte order mark. A deduplicating writer
   * always returns a label, and never the Null marker.
   */
  lemma WriterReadBack(w: Writer, v: Value, l: Option<int>, w': Writer, block: seq<byte>, msg: seq<byte>, pos: nat)
    requires WriterValid(w) && !IsNullish(v)
    requires WriterWrite(w, v) == Ok((l, w'))
    requires Concat(w'.valuesAsBytes) <= block
    requires l.Some? ==> HoldsAt(msg, pos, Encode(l.value))
    ensures l.Some? ==>
      BlockReader.ReaderRead(ReaderFor(w, block), msg, pos) == Ok((Payload.Stripped(v), ReaderFor(w', block), pos + |Encode(l.value)|))
    ensures l.None? ==> BlockReader.ReaderRead(ReaderFor(w, block), msg, pos) == Ok((v, ReaderFor(w', block), pos))
    ensures w.DeduplicatingWriter? ==> l.Some? && l.value != NullMarker
    ensures v.VString? || v.VBytes? ==> w.DeduplicatingWriter?
  {
    if w.DeduplicatingWriter? {
      DedupShape(w, v, l, w');
      DedupReadBack(w, v, l, w', block, msg, pos);
    } else {
      assert l.None? && w' == BytesWriter(w.valuesAsBytes + [Encode(v.n)]);
      ReadNumber(w, block, msg, pos, v.n);
    }
  }

  /** What a deduplicating writer does with a value that is not null: a backreference, or one new payload and its length. */
  ghost predicate DedupWrite(w: Writer, v: Value, l: Option<int>, w': Writer)
  {
    && w.DeduplicatingWriter? && !IsNullish(v)
    && l.Some? && w'.DeduplicatingWriter? && w'.payload == w.payload
    && (|w'.valuesAsBytes| == |w.valuesAsBytes| ==>
          && Kind(l.value) == Backreference && w' == w
          && LabelToOffset(l.value) < |w.valuesAsBytes|
          && Payload.FromBytes(w.payload, w.valuesAsBytes[LabelToOffset(l.value)]) == Payload.Stripped(v))
    && (|w'.valuesAsBytes| != |w.valuesAsBytes| ==>
          && |w'.valuesAsBytes| == |w.valuesAsBytes| + 1
          && w'.valuesAsBytes == w.valuesAsBytes + [w'.valuesAsBytes[|w.valuesAsBytes|]]
          && l.value == |w'.valuesAsBytes[|w.valuesAsBytes|]|
          && Payload.FromBytes(w.payload, w'.valuesAsBytes[|w.valuesAsBytes|]) == Payload.Stripped(v))
  }

  /** A valid deduplicating writer writes a value that is not null as `DedupWrite` says. */
  lemma DedupShape(w: Writer, v: Value, l: Option<int>, w': Writer)
    requires w.DeduplicatingWriter?
    requires WriterValid(w) && !IsNullish(v)
    requires WriterWrite(w, v) == Ok((l, w'))
    ensures DedupWrite(w, v, l, w')
  {
    WriterWriteValid(w, v);
    if |w'.valuesAsBytes| != |w.valuesAsBytes| {
      assert w'.valuesAsBytes == w.valuesAsBytes + [w'.valuesAsBytes[|w.valuesAsBytes|]];
      Payload.FromToBytes(w.payload, v);
    } else {
      Payload.FromBytesSource(w.payload, w.valuesAsBytes[LabelToOffset(l.value)]);
    }
  }

  /** The reader that has caught up with a deduplicating writer reads back what the writer wrote, from the label and the writer's block. */
  lemma DedupReadBack(w: Writer, v: Value, l: Option<int>, w': Writer, block: seq<byte>, msg: seq<byte>, pos: nat)
    requires DedupWrite(w, v, l, w')
    requires Concat(w'.valuesAsBytes) <= block
    requires HoldsAt(msg, pos, Encode(l.value))
    ensures l.value != NullMarker
    ensures BlockReader.ReaderRead(ReaderFor(w, block), msg, pos)
         == Ok((Payload.Stripped(v), ReaderFor(w', block), pos + |Encode(l.value)|))
  {
    FirstByteNull(l.value);
    if |w'.valuesAsBytes| == |w.valuesAsBytes| {
      DedupReadRepeat(w, v, l, w', block, msg, pos);
    } else {
      DedupReadNew(w, v, l, w', block, msg, pos);
    }
  }

  lemma DedupReadRepeat(w: Writer, v: Value, l: Option<int>, w': Writer, block: seq<byte>, msg: seq<byte>, pos: nat)
    requires DedupWrite(w, v, l, w') && |w'.valuesAsBytes| == |w.valuesAsBytes|
    requires HoldsAt(msg, pos, Encode(l.value))
    ensures BlockReader.ReaderRead(ReaderFor(w, block), msg, pos)
         == Ok((Payload.Stripped(v), ReaderFor(w', block), pos + |Encode(l.value)|))
  {
    ReadRepeat(w, Payload.Stripped(v), block, msg, pos, l.value);
  }

  lemma DedupReadNew(w: Writer, v: Value, l: Option<int>, w': Writer, block: seq<byte>, msg: seq<byte>, pos: nat)
    requires DedupWrite(w, v, l, w') && |w'.valuesAsBytes| != |w.valuesAsBytes|
    requires Concat(w'.valuesAsBytes) <= block
    requires HoldsAt(msg, pos, Encode(l.value))
    ensures BlockReader.ReaderRead(ReaderFor(w, block), msg, pos)
         == Ok((Payload.Stripped(v), ReaderFor(w', block), pos + |Encode(l.value)|))
  {
    ReadNew(w, w', Payload.Stripped(v), block, msg, pos, w'.valuesAsBytes[|w.valuesAsBytes|], l.value);
  }

  /** Keys that stay the same stay distinct. */
  lemma SameKeysDistinct(ws1: seq<Entry>, ws2: seq<Entry>)
    requires KeysDistinct(ws1) && |ws2| == |ws1|
    requires forall j :: 0 <= j < |ws1| ==> ws2[j].key == ws1[j].key
    ensures KeysDistinct(ws2)
  {
    forall a, b | 0 <= a < b < |ws2|
      ensures ws2[a].key != ws2[b].key
    {
      assert ws1[a].key != ws1[b].key;
    }
  }

  /** One write of a scalar to writer `i` and one read of its reader: the reader gives back the value, and the decoder is in step again. */
  lemma WriteStep(e1: EncState, d1: DecState, fin: EncState, i: nat, v: Value)
    requires Related(e1, d1, fin) && i < |e1.writers|
    requires WriterValid(e1.writers[i].writer) && !IsNullish(v)
    requires WriterWrite(e1.writers[i].writer, v).Ok?
    requires Extends(Written(e1, i, v), fin)
    ensures var w := e1.writers[i].writer;
      var l := WriterWrite(w, v).value.0;
      var r := BlockReader.ReaderRead(ReaderFor(w, BlockOf(fin, i)), fin.buf, d1.pos);
      && r.Ok? && r.value.0 == Payload.Stripped(v)
      && Related(Written(e1, i, v), d1.(pos := r.value.2, readers := d1.readers[e1.writers[i].key := r.value.1]), fin)
      && (w.DeduplicatingWriter? ==> l.Some? && l.value != NullMarker)
      && (v.VString? || v.VBytes? ==> w.DeduplicatingWriter?)
  {
    var w := e1.writers[i].writer;
    var (l, w') := WriterWrite(w, v).value;
    WriteStepReads(e1, d1, fin, i, v);
    WriteStepRelated(e1, d1, fin, i, v);
  }

  /** The read half of `WriteStep`: the reader gives back the value and moves the cursor to the end of what was written. */
  lemma WriteStepReads(e1: EncState, d1: DecState, fin: EncState, i: nat, v: Value)
    requires Related(e1, d1, fin) && i < |e1.writers|
    requires WriterValid(e1.writers[i].writer) && !IsNullish(v)
    requires WriterWrite(e1.writers[i].writer, v).Ok?
    requires Extends(Written(e1, i, v), fin)
    ensures var w := e1.writers[i].writer;
      var written := WriterWrite(w, v).value;
      var r := BlockReader.ReaderRead(ReaderFor(w, BlockOf(fin, i)), fin.buf, d1.pos);
      && r.Ok? && r.value.0 == Payload.Stripped(v) && r.value.1 == ReaderFor(written.1, BlockOf(fin, i))
      && r.value.2 == |Written(e1, i, v).buf|
      && (w.DeduplicatingWriter? ==> written.0.Some? && written.0.value != NullMarker)
      && (v.VString? || v.VBytes? ==> w.DeduplicatingWriter?)
  {
    var w := e1.writers[i].writer;
    var (l, w') := WriterWrite(w, v).value;
    var e' := Written(e1, i, v);
    assert e'.writers[i] == Entry(e1.writers[i].key, w');
    ConcatMono(w'.valuesAsBytes, fin.writers[i].writer.valuesAsBytes);
    assert d1.pos == |e1.buf|;
    if l.Some? {
      assert e'.buf == e1.buf + Encode(l.value);
      PrefixHolds(e1.buf, Encode(l.value), fin.buf);
      WriterReadBack(w, v, l, w', BlockOf(fin, i), fin.buf, d1.pos);
      assert |e'.buf| == d1.pos + |Encode(l.value)|;
    } else {
      assert e'.buf == e1.buf;
      WriterReadBack(w, v, l, w', BlockOf(fin, i), fin.buf, d1.pos);
    }
  }

  /** The state half of `WriteStep`: with the written writer's reader filed under its key, the two sides are in step. */
  lemma WriteStepRelated(e1: EncState, d1: DecState, fin: EncState, i: nat, v: Value)
    requires Related(e1, d1, fin) && i < |e1.writers|
    requires WriterWrite(e1.writers[i].writer, v).Ok?
    requires Extends(Written(e1, i, v), fin)
    ensures var e' := Written(e1, i, v);
      Related(e', d1.(pos := |e'.buf|, readers := d1.readers[e1.writers[i].key := ReaderFor(e'.writers[i].writer, BlockOf(fin, i))]), fin)
  {
    var w' := WriterWrite(e1.writers[i].writer, v).value.1;
    var e' := Written(e1, i, v);
    assert e'.writers == e1.writers[i := Entry(e1.writers[i].key, w')];
    SameKeysDistinct(e1.writers, e'.writers);
    ReplaceRelated(e1, d1, fin, i, e', ReaderFor(w', BlockOf(fin, i)));
  }

  /**
   * `getWriter` and `getReader` under the same key: either both find the
   * entry the key already has, or the writer is added after the others and
   * the reader takes the next block, which is that writer's block.
   */
  lemma SelectStep(e: EncState, d: DecState, fin: EncState, k: DedupeKey, t: Type)
    requires Valid(e)
    requires Related(e, d, fin)
    requires SelectWriter(e, k, t).Ok?
    requires Extends(SelectWriter(e, k, t).value.1, fin)
    ensures var (i, e1) := SelectWriter(e, k, t).value;
      var r := SelectReader(Layout(fin), d, Some(k), t);
      && r.Ok?
      && r.value.0 == ReaderFor(e1.writers[i].writer, BlockOf(fin, i))
      && Related(e1, r.value.1, fin)
  {
    SelectWriterValid(e, k, t);
    if Find(e.writers, k).None? {
      SelectNewStep(e, d, fin, k, t);
    }
  }

  /** `getWriter` and `getReader` under a key neither side has seen: a new writer, and a reader over the block that writer's payloads go to. */
  lemma SelectNewStep(e: EncState, d: DecState, fin: EncState, k: DedupeKey, t: Type)
    requires Related(e, d, fin)
    requires Find(e.writers, k).None? && MakeWriter(t).Ok?
    requires KeysDistinct(e.writers + [Entry(k, MakeWriter(t).value)])
    requires Extends(e.(writers := e.writers + [Entry(k, MakeWriter(t).value)]), fin)
    ensures var w := MakeWriter(t).value;
      var r := SelectReader(Layout(fin), d, Some(k), t);
      && r.Ok?
      && r.value.0 == ReaderFor(w, BlockOf(fin, |e.writers|))
      && Related(e.(writers := e.writers + [Entry(k, w)]), r.value.1, fin)
  {
    assert k !in d.readers;
    var w := MakeWriter(t).value;
    NewReaderFor(fin, d, t, w);
    NewEntryRelated(e, d, fin, Entry(k, w));
  }

  /** `makeReader` for the type a new writer was made for gives the reader that has read nothing of that writer's block. */
  lemma NewReaderFor(fin: EncState, d: DecState, t: Type, w: Writer)
    requires MakeWriter(t) == Ok(w) && d.nextBlock < |fin.writers|
    ensures NewReader(Layout(fin), d, t) == Ok((ReaderFor(w, BlockOf(fin, d.nextBlock)), d.(nextBlock := d.nextBlock + 1)))
  {
    assert Layout(fin)[d.nextBlock] == BlockOf(fin, d.nextBlock);
  }

  /** A writer added after the others, and a reader for it over the next block, keep the decoder in step. */
  lemma NewEntryRelated(e: EncState, d: DecState, fin: EncState, entry: Entry)
    requires Related(e, d, fin)
    requires Find(e.writers, entry.key).None?
    requires KeysDistinct(e.writers + [entry]) && Extends(e.(writers := e.writers + [entry]), fin)
    ensures var e1 := e.(writers := e.writers + [entry]);
      Related(e1, d.(nextBlock := d.nextBlock + 1,
                     readers := d.readers[entry.key := ReaderFor(entry.writer, BlockOf(fin, |e.writers|))]), fin)
  {
    var reader := ReaderFor(entry.writer, BlockOf(fin, |e.writers|));
    forall key
      ensures key in d.readers[entry.key := reader] <==> Find(e.writers + [entry], key).Some?
    {
      FindAppend(e.writers, entry, key);
    }
    AppendReaders(e.writers, d.readers, fin, entry);
  }

  lemma AppendReaders(ws: seq<Entry>, readers: map<DedupeKey, BlockReader.Reader>, fin: EncState, entry: Entry)
    requires ReadersMatch(ws, readers, fin) && |ws| < |fin.writers|
    requires forall j :: 0 <= j < |ws| ==> ws[j].key != entry.key
    ensures ReadersMatch(ws + [entry], readers[entry.key := ReaderFor(entry.writer, BlockOf(fin, |ws|))], fin)
  {
    var ws' := ws + [entry];
    var readers' := readers[entry.key := ReaderFor(entry.writer, BlockOf(fin, |ws|))];
    forall j | 0 <= j < |ws'|
      ensures ws'[j].key in readers'
      ensures readers'[ws'[j].key] == ReaderFor(ws'[j].writer, BlockOf(fin, j))
    {
      if j < |ws| {
        assert ws'[j] == ws[j];
      }
    }
  }

  /** A scalar under a deduplication key: the decoder reads back the value the encoder wrote, less a leading byte order mark, and the two stay in step. */
  lemma ScalarStep(e: EncState, d: DecState, fin: EncState, k: DedupeKey, t: Type, v: Value)
    requires Valid(e)
    requires Related(e, d, fin)
    requires !IsNullish(v)
    requires WriteScalar(e, Some(k), t, v).Ok?
    requires Extends(WriteScalar(e, Some(k), t, v).value.1, fin)
    ensures var e' := WriteScalar(e, Some(k), t, v).value.1;
      var r := DecodeScalar(Layout(fin), fin.buf, d, t, Some(k));
      && r.Ok? && r.value.0 == Payload.Stripped(v) && Related(e', r.value.1, fin)
      && (v.VString? || v.VBytes? ==> |e'.buf| > |e.buf| && e'.buf[|e.buf|] != 1)
  {
    WriteScalarIs(e, k, t, v);
    var i := SelectWriter(e, k, t).value.0;
    var e1 := SelectWriter(e, k, t).value.1;
    var e' := Written(e1, i, v);
    ExtendsTrans(e1, e', fin);
    SelectStep(e, d, fin, k, t);
    var rd := SelectReader(Layout(fin), d, Some(k), t).value.0;
    var d1 := SelectReader(Layout(fin), d, Some(k), t).value.1;
    WriteStep(e1, d1, fin, i, v);
    DecodeScalarIs(Layout(fin), fin.buf, d, t, k, rd, d1);
    if v.VString? || v.VBytes? {
      var l := WriterWrite(e1.writers[i].writer, v).value.0;
      FirstByteNull(l.value);
      assert e'.buf == e1.buf + Encode(l.value);
    }
  }

  /** `write` under a key is `getWriter` followed by that writer's write, which keeps the writer valid and grows the state. */
  lemma WriteScalarIs(e: EncState, k: DedupeKey, t: Type, v: Value)
    requires Valid(e)
    requires WriteScalar(e, Some(k), t, v).Ok?
    ensures SelectWriter(e, k, t).Ok?
    ensures var i := SelectWriter(e, k, t).value.0;
      var e1 := SelectWriter(e, k, t).value.1;
      && i < |e1.writers| && e1.writers[i].key == k && WriterWrite(e1.writers[i].writer, v).Ok?
      && WriteScalar(e, Some(k), t, v).value.1 == Written(e1, i, v)
      && Valid(e1) && WriterValid(e1.writers[i].writer) && Extends(e1, Written(e1, i, v))
  {
    var i := SelectWriter(e, k, t).value.0;
    var e1 := SelectWriter(e, k, t).value.1;
    var w := e1.writers[i].writer;
    var w' := WriterWrite(w, v).value.1;
    SelectWriterValid(e, k, t);
    WriterWriteGrows(w, v);
    ReplaceWriterValid(e1, i, w');
  }

  /** `reader.read` under a key: the reader `getReader` returns reads, and is kept under the key where it stopped. */
  lemma DecodeScalarIs(blocks: seq<seq<byte>>, msg: seq<byte>, d: DecState, t: Type, k: DedupeKey,
                       rd: BlockReader.Reader, d1: DecState)
    requires SelectReader(blocks, d, Some(k), t) == Ok((rd, d1))
    requires BlockReader.ReaderRead(rd, msg, d1.pos).Ok?
    ensures var read := BlockReader.ReaderRead(rd, msg, d1.pos).value;
      DecodeScalar(blocks, msg, d, t, Some(k)) == Ok((read.0, d1.(pos := read.2, readers := d1.readers[k := read.1])))
  {
  }

  /**
   * The traversals in step: writing a value of the fragment and reading it
   * back over the finished message give the same value, and leave the two
   * sides in step. A labeled type writes at least one byte, and its first
   * byte is not the Null marker, which is what the decoder's NULLABLE case
   * tells a value from null by.
   */
  lemma {:induction false} RoundTripValue(e: EncState, d: DecState, fin: EncState, js: Value, wt: Type)
    requires Faithful(wt, js)
    requires Valid(e)
    requires Related(e, d, fin)
    requires EncodeValue(e, js, wt, None).Ok?
    requires Extends(EncodeValue(e, js, wt, None).value, fin)
    ensures var e' := EncodeValue(e, js, wt, None).value;
      var r := DecodeValue(Layout(fin), fin.buf, d, wt, None);
      && r.Ok? && r.value.0 == js && Related(e', r.value.1, fin)
      && (IsLabeled(wt) ==> |e'.buf| > |e.buf| && e'.buf[|e.buf|] != 1)
    decreases wt, 1
  {
    match wt
    case Nullable(of, dk) =>
      if IsLabeled(of) {
        LabeledNullableRoundTrip(e, d, fin, js, of, dk);
      } else {
        UnlabeledNullableRoundTrip(e, d, fin, js, of, dk);
      }
    case Dedupe(k, of) =>
      DedupeRoundTrip(e, d, fin, js, k, of);
    case Record(fields) =>
      RoundTripFields(e, d, fin, js, fields, 0, map[]);
    case Array(of) =>
      ArrayRoundTrip(e, d, fin, js, of);
    case Boolean =>
      EmitRelated(e, d, fin, Encode(FalseMarker));
      ReadEncode(fin.buf, d.pos, FalseMarker);
      FirstByteNull(FalseMarker);
  }

  /** NULLABLE over a labeled type: the value's own label comes first, and its first byte is not the Null marker. */
  lemma {:induction false} LabeledNullableRoundTrip(e: EncState, d: DecState, fin: EncState, js: Value, of: Type,
                                                    dk: Option<DedupeKey>)
    requires Faithful(Nullable(of, dk), js) && IsLabeled(of)
    requires Valid(e)
    requires Related(e, d, fin)
    requires EncodeValue(e, js, Nullable(of, dk), None).Ok?
    requires Extends(EncodeValue(e, js, Nullable(of, dk), None).value, fin)
    ensures var e' := EncodeValue(e, js, Nullable(of, dk), None).value;
      var r := DecodeValue(Layout(fin), fin.buf, d, Nullable(of, dk), None);
      && r.Ok? && r.value.0 == js && Related(e', r.value.1, fin)
      && |e'.buf| > |e.buf| && e'.buf[|e.buf|] != 1
    decreases Nullable(of, dk), 0
  {
    PassedKeyIgnored(e, js, of, dk);
    assert EncodeValue(e, js, Nullable(of, dk), None) == EncodeValue(e, js, of, None);
    var e' := EncodeValue(e, js, of, None).value;
    RoundTripValue(e, d, fin, js, of);
    assert fin.buf[d.pos] == e'.buf[d.pos];
    FirstByteNull(NonNullMarker);
    assert DecodeValue(Layout(fin), fin.buf, d, Nullable(of, dk), None) == DecodeValue(Layout(fin), fin.buf, d, of, None);
  }

  /** NULLABLE over an unlabeled type: the non-null marker, then the value. */
  lemma {:induction false} UnlabeledNullableRoundTrip(e: EncState, d: DecState, fin: EncState, js: Value, of: Type,
                                                      dk: Option<DedupeKey>)
    requires Faithful(Nullable(of, dk), js) && !IsLabeled(of)
    requires Valid(e)
    requires Related(e, d, fin)
    requires EncodeValue(e, js, Nullable(of, dk), None).Ok?
    requires Extends(EncodeValue(e, js, Nullable(of, dk), None).value, fin)
    ensures var e' := EncodeValue(e, js, Nullable(of, dk), None).value;
      var r := DecodeValue(Layout(fin), fin.buf, d, Nullable(of, dk), None);
      && r.Ok? && r.value.0 == js && Related(e', r.value.1, fin)
      && |e'.buf| > |e.buf| && e'.buf[|e.buf|] != 1
    decreases Nullable(of, dk), 0
  {
    FirstByteNull(NonNullMarker);
    FirstByteNonNull(NonNullMarker);
    var s2 := Emit(e, Encode(NonNullMarker));
    var d2 := d.(pos := d.pos + 1);
    PassedKeyIgnored(s2, js, of, dk);
    assert EncodeValue(e, js, Nullable(of, dk), None) == EncodeValue(s2, js, of, None);
    var e' := EncodeValue(s2, js, of, None).value;
    EncodeValueValid(s2, js, of, None);
    ExtendsTrans(s2, e', fin);
    EmitRelated(e, d, fin, Encode(NonNullMarker));
    RoundTripValue(s2, d2, fin, js, of);
    assert e'.buf[d.pos] == 0 by {
      assert s2.buf <= e'.buf;
    }
    assert fin.buf[d.pos] == 0;
    assert DecodeValue(Layout(fin), fin.buf, d, Nullable(of, dk), None) == DecodeValue(Layout(fin), fin.buf, d2, of, None);
  }

  /** DEDUPE over a scalar: the scalar is written and read under the key. */
  lemma DedupeRoundTrip(e: EncState, d: DecState, fin: EncState, js: Value, k: DedupeKey, of: Type)
    requires Faithful(Dedupe(k, of), js)
    requires Valid(e)
    requires Related(e, d, fin)
    requires EncodeValue(e, js, Dedupe(k, of), None).Ok?
    requires Extends(EncodeValue(e, js, Dedupe(k, of), None).value, fin)
    ensures var e' := EncodeValue(e, js, Dedupe(k, of), None).value;
      var r := DecodeValue(Layout(fin), fin.buf, d, Dedupe(k, of), None);
      && r.Ok? && r.value.0 == js && Related(e', r.value.1, fin)
      && (IsLabeled(of) ==> |e'.buf| > |e.buf| && e'.buf[|e.buf|] != 1)
  {
    assert EncodeValue(e, js, Dedupe(k, of), None) == EncodeValue(e, js, of, Some(k));
    assert DecodeValue(Layout(fin), fin.buf, d, Dedupe(k, of), None) == DecodeValue(Layout(fin), fin.buf, d, of, Some(k));
    assert EncodeValue(e, js, of, Some(k)) == Ok(WriteScalar(e, Some(k), of, js).value.1);
    assert DecodeValue(Layout(fin), fin.buf, d, of, Some(k)) == DecodeScalar(Layout(fin), fin.buf, d, of, Some(k));
    ScalarStep(e, d, fin, k, of, js);
  }

  /** ARRAY: the length label, then the elements in order. */
  lemma {:induction false} ArrayRoundTrip(e: EncState, d: DecState, fin: EncState, js: Value, of: Type)
    requires Faithful(Array(of), js)
    requires Valid(e)
    requires Related(e, d, fin)
    requires EncodeValue(e, js, Array(of), None).Ok?
    requires Extends(EncodeValue(e, js, Array(of), None).value, fin)
    ensures var e' := EncodeValue(e, js, Array(of), None).value;
      var r := DecodeValue(Layout(fin), fin.buf, d, Array(of), None);
      && r.Ok? && r.value.0 == js && Related(e', r.value.1, fin)
      && |e'.buf| > |e.buf| && e'.buf[|e.buf|] != 1
    decreases Array(of), 0, |js.elems| + 1
  {
    var n := |js.elems|;
    var s1 := Emit(e, Encode(n));
    var d1 := d.(pos := d.pos + |Encode(n)|);
    ArrayEncodeStart(e, js, of);
    var e' := EncodeElements(s1, js.elems, of, 0).value;
    EncodeElementsValid(s1, js.elems, of, 0);
    ExtendsTrans(s1, e', fin);
    EmitRelated(e, d, fin, Encode(n));
    ArrayDecodeStart(Layout(fin), fin.buf, d, of, n);
    assert js.elems[..0] == [];
    RoundTripElements(s1, d1, fin, js.elems, of, 0);
    ArrayFirstByte(e.buf, e'.buf, n);
  }

  /** The encoder's ARRAY case: the length, then the element loop. */
  lemma ArrayEncodeStart(e: EncState, js: Value, of: Type)
    requires js.VArray?
    ensures EncodeValue(e, js, Array(of), None) == EncodeElements(Emit(e, Encode(|js.elems|)), js.elems, of, 0)
  {
  }

  /** The decoder's ARRAY case over a length label: the element loop, past the label. */
  lemma ArrayDecodeStart(blocks: seq<seq<byte>>, msg: seq<byte>, d: DecState, of: Type, n: nat)
    requires HoldsAt(msg, d.pos, Encode(n))
    ensures DecodeValue(blocks, msg, d, Array(of), None)
         == DecodeElements(blocks, msg, d.(pos := d.pos + |Encode(n)|), of, n, [])
  {
    ReadEncode(msg, d.pos, n);
  }

  /** A message that has grown by a length label starts, where it grew, with a byte other than the Null marker. */
  lemma ArrayFirstByte(before: seq<byte>, after: seq<byte>, n: nat)
    requires before + Encode(n) <= after
    ensures |after| > |before| && after[|before|] != 1
  {
    FirstByteNull(n);
    assert after[|before|] == (before + Encode(n))[|before|];
  }

  lemma {:induction false} RoundTripFields(e: EncState, d: DecState, fin: EncState, js: Value, fields: seq<Field>,
                                           i: nat, obj: map<string, Value>)
    requires Faithful(Record(fields), js)
    requires i <= |fields|
    requires obj.Keys == (set j | 0 <= j < i :: fields[j].name)
    requires forall n :: n in obj ==> n in js.props && obj[n] == js.props[n]
    requires Valid(e)
    requires Related(e, d, fin)
    requires EncodeFields(e, js, fields, i).Ok?
    requires Extends(EncodeFields(e, js, fields, i).value, fin)
    ensures var r := DecodeFields(Layout(fin), fin.buf, d, fields, i, obj);
      && r.Ok? && r.value.0 == js && Related(EncodeFields(e, js, fields, i).value, r.value.1, fin)
    decreases Record(fields), 0, |fields| - i
  {
    if i == |fields| {
      FieldsDone(js, fields, obj);
    } else {
      var f := fields[i];
      var e1 := EncodeField(e, js, f).value;
      assert EncodeFields(e, js, fields, i) == EncodeFields(e1, js, fields, i + 1);
      EncodeFieldValid(e, js, f);
      EncodeFieldsValid(e1, js, fields, i + 1);
      ExtendsTrans(e1, EncodeFields(e1, js, fields, i + 1).value, fin);
      RoundTripField(e, d, fin, js, f);
      var d1 := DecodeField(Layout(fin), fin.buf, d, f).value.1;
      var obj' := obj[f.name := js.props[f.name]];
      assert DecodeFields(Layout(fin), fin.buf, d, fields, i, obj) == DecodeFields(Layout(fin), fin.buf, d1, fields, i + 1, obj');
      FieldsNext(js, fields, i, obj);
      RoundTripFields(e1, d1, fin, js, fields, i + 1, obj');
    }
  }

  /** Once every field has been read, the object read is the record's object. */
  lemma FieldsDone(js: Value, fields: seq<Field>, obj: map<string, Value>)
    requires js.VObject? && js.props.Keys == (set j | 0 <= j < |fields| :: fields[j].name)
    requires obj.Keys == (set j | 0 <= j < |fields| :: fields[j].name)
    requires forall n :: n in obj ==> n in js.props && obj[n] == js.props[n]
    ensures VObject(obj) == js
  {
    assert obj == js.props;
  }

  /** The object read so far, with field `i` added, holds the record's fields up to `i`. */
  lemma FieldsNext(js: Value, fields: seq<Field>, i: nat, obj: map<string, Value>)
    requires js.VObject? && i < |fields| && fields[i].name in js.props
    requires obj.Keys == (set j | 0 <= j < i :: fields[j].name)
    requires forall n :: n in obj ==> n in js.props && obj[n] == js.props[n]
    ensures var obj' := obj[fields[i].name := js.props[fields[i].name]];
      && obj'.Keys == (set j | 0 <= j < i + 1 :: fields[j].name)
      && forall n :: n in obj' ==> n in js.props && obj'[n] == js.props[n]
  {
    assert (set j | 0 <= j < i + 1 :: fields[j].name) == (set j | 0 <= j < i :: fields[j].name) + {fields[i].name};
  }

  lemma {:induction false} RoundTripField(e: EncState, d: DecState, fin: EncState, js: Value, f: Field)
    requires js.VObject? && f.name in js.props
    requires if f.omittable then js.props[f.name] == VUndefined else Faithful(f.ty, js.props[f.name])
    requires Valid(e)
    requires Related(e, d, fin)
    requires EncodeField(e, js, f).Ok?
    requires Extends(EncodeField(e, js, f).value, fin)
    ensures var r := DecodeField(Layout(fin), fin.buf, d, f);
      && r.Ok? && r.value.0 == js.props[f.name] && Related(EncodeField(e, js, f).value, r.value.1, fin)
    decreases f.ty, 2
  {
    if f.omittable {
      assert EncodeField(e, js, f).value == Emit(e, Encode(AbsentMarker));
      EmitRelated(e, d, fin, Encode(AbsentMarker));
      ReadEncode(fin.buf, d.pos, AbsentMarker);
    } else {
      RoundTripValue(e, d, fin, js.props[f.name], f.ty);
    }
  }

  lemma {:induction false} RoundTripElements(e: EncState, d: DecState, fin: EncState, elems: seq<Value>, of: Type, i: nat)
    requires i <= |elems|
    requires forall j :: 0 <= j < |elems| ==> Faithful(of, elems[j])
    requires Valid(e)
    requires Related(e, d, fin)
    requires EncodeElements(e, elems, of, i).Ok?
    requires Extends(EncodeElements(e, elems, of, i).value, fin)
    ensures var r := DecodeElements(Layout(fin), fin.buf, d, of, |elems|, elems[..i]);
      && r.Ok? && r.value.0 == VArray(elems) && Related(EncodeElements(e, elems, of, i).value, r.value.1, fin)
    decreases Array(of), 0, |elems| - i, 1
  {
    if i == |elems| {
      assert elems[..i] == elems;
    } else {
      var e1, d1 := ElementStep(e, d, fin, elems, of, i);
      RoundTripElements(e1, d1, fin, elems, of, i + 1);
    }
  }

  /** One element of the array loop: the encoder and the decoder both move past element `i`, still related. */
  lemma {:induction false} ElementStep(e: EncState, d: DecState, fin: EncState, elems: seq<Value>, of: Type, i: nat)
      returns (e1: EncState, d1: DecState)
    requires i < |elems| && Faithful(of, elems[i])
    requires Valid(e)
    requires Related(e, d, fin)
    requires EncodeElements(e, elems, of, i).Ok?
    requires Extends(EncodeElements(e, elems, of, i).value, fin)
    ensures Valid(e1) && Related(e1, d1, fin)
    ensures EncodeElements(e, elems, of, i) == EncodeElements(e1, elems, of, i + 1)
    ensures DecodeElements(Layout(fin), fin.buf, d, of, |elems|, elems[..i])
         == DecodeElements(Layout(fin), fin.buf, d1, of, |elems|, elems[..i + 1])
    decreases Array(of), 0, |elems| - i, 0
  {
    EncodeElementNext(e, elems, of, i);
    e1 := EncodeValue(e, elems[i], of, None).value;
    EncodeValueValid(e, elems[i], of, None);
    EncodeElementsValid(e1, elems, of, i + 1);
    ExtendsTrans(e1, EncodeElements(e1, elems, of, i + 1).value, fin);
    RoundTripValue(e, d, fin, elems[i], of);
    d1 := DecodeValue(Layout(fin), fin.buf, d, of, None).value.1;
    DecodeElementNext(Layout(fin), fin.buf, d, of, elems, i);
  }

  /** The encoder's array loop on element `i`: encode it, then go on with the next. */
  lemma EncodeElementNext(e: EncState, elems: seq<Value>, of: Type, i: nat)
    requires i < |elems| && EncodeElements(e, elems, of, i).Ok?
    ensures EncodeValue(e, elems[i], of, None).Ok?
    ensures EncodeElements(e, elems, of, i) == EncodeElements(EncodeValue(e, elems[i], of, None).value, elems, of, i + 1)
  {
  }

  /** The decoder's array loop, on reading element `i` back: it is appended, and the loop goes on. */
  lemma DecodeElementNext(blocks: seq<seq<byte>>, msg: seq<byte>, d: DecState, of: Type, elems: seq<Value>, i: nat)
    requires i < |elems|
    requires DecodeValue(blocks, msg, d, of, None).Ok? && DecodeValue(blocks, msg, d, of, None).value.0 == elems[i]
    ensures DecodeElements(blocks, msg, d, of, |elems|, elems[..i])
         == DecodeElements(blocks, msg, DecodeValue(blocks, msg, d, of, None).value.1, of, |elems|, elems[..i + 1])
  {
    assert elems[..i] + [elems[i]] == elems[..i + 1];
  }

  /** What a fresh encoder's `jsToCedarWithType(js, wt)` followed by `getResult()` returns. */
  function EncodeMessage(js: Value, wt: Type): Result<seq<byte>>
  {
    var s :- EncodeValue(Initial, js, wt, None);
    Ok(Message(s))
  }

  /**
   * The codec's round trip on the fragment: whenever the encoder succeeds on
   * a value of the fragment, the decoder reads the same value back from the
   * bytes the encoder returns.
   */
  lemma RoundTrip(js: Value, wt: Type)
    requires Faithful(wt, js)
    requires EncodeMessage(js, wt).Ok?
    ensures DecodeMessage(EncodeMessage(js, wt).value, wt) == Ok(js)
  {
    var fin := EncodeValue(Initial, js, wt, None).value;
    assert Related(Initial, DecState(0, map[], 0), fin);
    RoundTripValue(Initial, DecState(0, map[], 0), fin, js, wt);
    MessageUnframes(fin);
  }
}
