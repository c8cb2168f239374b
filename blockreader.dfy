/**
 * Block readers (blockReader.ts). Each reader owns a cursor on one block of
 * the message; a labeled reader takes the label from the parent buffer and
 * the payload the label describes from its own block. What one read does is
 * given once, as a step function on the two buffers' bytes and positions, and
 * the classes' methods are specified by those functions.
 *
 * The readers the decoder builds (`DeduplicatingLabelReader`,
 * `UnlabeledVarIntReader`, whose source is not part of this model) are given
 * the same behaviour as `DeduplicatingLabelBlockReader` and
 * `UnlabeledVarIntBlockReader`, and kept as values (`Reader`).
 */
module BlockReader {
  import opened Wrappers
  import opened Bytes
  import opened Label
  import opened Buf
  import Js
  import Payload
  import Dedup

  /** What `LabelBlockReader.read` gives back: a payload, `undefined` or `null`. */
  datatype LabelRead<Out> = Present(value: Out) | AbsentValue | NullValue

  /** The outcome of one read, and where the block's and the parent's cursors end up. */
  datatype Step<Out> = Step(out: Out, blockPos: nat, parentPos: nat)

  /** `LabelBlockReader.read`. */
  function LabelBlockStep<Out>(block: seq<byte>, bpos: nat, parent: seq<byte>, ppos: nat, fromBytes: seq<byte> -> Out)
    : Result<Step<LabelRead<Out>>>
  {
    var read :- Label.Read(parent, ppos);
    var l := read.0;
    match Kind(l)
    case Backreference => Err(BackreferenceNotAllowed)
    case Length =>
      var bytes := Take(block, bpos, l);
      Ok(Step(Present(fromBytes(bytes)), bpos + |bytes|, read.1))
    case Null => Err(NullLabel)
    case Absent => Ok(Step(AbsentValue, bpos, read.1))
    case Error => Ok(Step(NullValue, bpos, read.1))
  }

  /**
   * A length label in the parent and that many payload bytes in the block
   * read back as the decoded payload, past both; the Absent and Error markers
   * read back as `undefined` and `null` without touching the block; the Null
   * marker and backreferences throw.
   */
  lemma LabelBlockStepEncoded<Out>(block: seq<byte>, bpos: nat, parent: seq<byte>, ppos: nat,
                                   fromBytes: seq<byte> -> Out, l: int, payload: seq<byte>)
    requires HoldsAt(parent, ppos, Encode(l))
    requires l >= 0 ==> l == |payload| && HoldsAt(block, bpos, payload)
    ensures var s := LabelBlockStep(block, bpos, parent, ppos, fromBytes);
      var after := ppos + |Encode(l)|;
      && (l >= 0 ==> s == Ok(Step(Present(fromBytes(payload)), bpos + |payload|, after)))
      && (l == AbsentMarker ==> s == Ok(Step(AbsentValue, bpos, after)))
      && (l == ErrorMarker ==> s == Ok(Step(NullValue, bpos, after)))
      && (l == NullMarker ==> s == Err(NullLabel))
      && (l < LowestResevedValue ==> s == Err(BackreferenceNotAllowed))
  {
    ReadEncode(parent, ppos, l);
  }

  /** `DeduplicatingLabelBlockReader.read`: the value, and the table of values read so far afterwards. */
  function DedupBlockStep<Out>(values: seq<Out>, block: seq<byte>, bpos: nat, parent: seq<byte>, ppos: nat,
                               fromBytes: seq<byte> -> Out): Result<(Step<Out>, seq<Out>)>
  {
    var read :- Label.Read(parent, ppos);
    var l := read.0;
    match Kind(l)
    case Backreference =>
      var index := LabelToOffset(l);
      if index < |values| then Ok((Step(values[index], bpos, read.1), values)) else Err(InvalidBackreference)
    case Length =>
      var bytes := Take(block, bpos, l);
      var value := fromBytes(bytes);
      Ok((Step(value, bpos + |bytes|, read.1), values + [value]))
    case Null => Err(NullLabel)
    case Absent => Err(AbsentLabel)
    case Error => Err(ErrorLabel)
  }

  /**
   * The deduplicating block reader resolves the same labels to the same values
   * as the backreference reader tracker, a length label's payload being the
   * bytes at the block's cursor; on markers it throws where the tracker may not.
   */
  lemma DedupBlockStepTracks<Out>(values: seq<Out>, block: seq<byte>, bpos: nat, parent: seq<byte>, ppos: nat,
                                  fromBytes: seq<byte> -> Out)
    requires Label.Read(parent, ppos).Ok?
    ensures var l := Label.Read(parent, ppos).value.0;
      var s := DedupBlockStep(values, block, bpos, parent, ppos, fromBytes);
      var t := Dedup.ReaderValue(values, l, n => fromBytes(Take(block, bpos, n)));
      && (Kind(l) == Length || Kind(l) == Backreference ==>
            && s.Ok? == t.Ok?
            && (s.Ok? ==> t.value == (Some(s.value.0.out), s.value.1)))
      && (Kind(l) != Length && Kind(l) != Backreference ==> s.Err?)
  {
  }

  /**
   * Reading a label the writer side produced: a length label followed by its
   * payload in the block appends the decoded payload to the table; a
   * backreference id that the table covers gives the entry it names and leaves
   * the table and the block alone.
   */
  lemma DedupBlockStepEncoded<Out>(values: seq<Out>, block: seq<byte>, bpos: nat, parent: seq<byte>, ppos: nat,
                                   fromBytes: seq<byte> -> Out, l: int, payload: seq<byte>)
    requires HoldsAt(parent, ppos, Encode(l))
    requires l >= 0 ==> l == |payload| && HoldsAt(block, bpos, payload)
    ensures var s := DedupBlockStep(values, block, bpos, parent, ppos, fromBytes);
      var after := ppos + |Encode(l)|;
      && (l >= 0 ==>
            s == Ok((Step(fromBytes(payload), bpos + |payload|, after), values + [fromBytes(payload)])))
      && (l < LowestResevedValue && LabelToOffset(l) < |values| ==>
            s == Ok((Step(values[LabelToOffset(l)], bpos, after), values)))
      && (l < LowestResevedValue && LabelToOffset(l) >= |values| ==> s == Err(InvalidBackreference))
      && (LowestResevedValue <= l < 0 ==> s.Err?)
  {
    ReadEncode(parent, ppos, l);
  }

  /** `FixedSizeBlockReader.read`: `byteLength` bytes of the block, or as many as remain. */
  function FixedSizeStep<Out>(block: seq<byte>, bpos: nat, byteLength: nat, fromBytes: seq<byte> -> Out): (Out, nat)
  {
    var bytes := Take(block, bpos, byteLength);
    (fromBytes(bytes), bpos + |bytes|)
  }

  /** A fixed-size read of bytes that are there gives them decoded, and moves past them. */
  lemma FixedSizeStepEncoded<Out>(block: seq<byte>, bpos: nat, fromBytes: seq<byte> -> Out, payload: seq<byte>)
    requires HoldsAt(block, bpos, payload)
    ensures FixedSizeStep(block, bpos, |payload|, fromBytes) == (fromBytes(payload), bpos + |payload|)
  {
  }

  /** `LabelBlockReader`. */
  class LabelBlockReader<Out> {
    const buf: Cursor
    const fromBytes: seq<byte> -> Out

    constructor (buf: Cursor, fromBytes: seq<byte> -> Out)
      ensures this.buf == buf && this.fromBytes == fromBytes
    {
      this.buf := buf;
      this.fromBytes := fromBytes;
    }

    method Read(parent: Cursor) returns (r: Result<LabelRead<Out>>)
      requires parent != buf
      modifies buf, parent
      ensures var s := LabelBlockStep(buf.data, old(buf.pos), parent.data, old(parent.pos), fromBytes);
        match s
        case Ok(step) => r == Ok(step.out) && buf.pos == step.blockPos && parent.pos == step.parentPos
        case Err(e) => r == Err(e)
    {
      var l :- parent.ReadLabel();
      match Kind(l)
      case Backreference =>
        r := Err(BackreferenceNotAllowed);
      case Length =>
        var bytes := buf.Read(l);
        r := Ok(Present(fromBytes(bytes)));
      case Null =>
        r := Err(NullLabel);
      case Absent =>
        r := Ok(AbsentValue);
      case Error =>
        r := Ok(NullValue);
    }
  }

  /** `DeduplicatingLabelBlockReader`; a throw leaves its table as it was. */
  class DeduplicatingLabelBlockReader<Out> {
    var values: seq<Out>
    const buf: Cursor
    const fromBytes: seq<byte> -> Out

    constructor (buf: Cursor, fromBytes: seq<byte> -> Out)
      ensures this.buf == buf && this.fromBytes == fromBytes && values == []
    {
      values := [];
      this.buf := buf;
      this.fromBytes := fromBytes;
    }

    method Read(parent: Cursor) returns (r: Result<Out>)
      requires parent != buf
      modifies this, buf, parent
      ensures var s := DedupBlockStep(old(values), buf.data, old(buf.pos), parent.data, old(parent.pos), fromBytes);
        match s
        case Ok((step, table)) =>
          r == Ok(step.out) && values == table && buf.pos == step.blockPos && parent.pos == step.parentPos
        case Err(e) => r == Err(e) && values == old(values)
    {
      var l :- parent.ReadLabel();
      match Kind(l)
      case Backreference =>
        var index := LabelToOffset(l);
        if index >= |values| {
          return Err(InvalidBackreference);
        }
        r := Ok(values[index]);
      case Length =>
        var bytes := buf.Read(l);
        var value := fromBytes(bytes);
        values := values + [value];
        r := Ok(value);
      case Null =>
        r := Err(NullLabel);
      case Absent =>
        r := Err(AbsentLabel);
      case Error =>
        r := Err(ErrorLabel);
    }
  }

  /** `FixedSizeBlockReader`: ignores the parent buffer. */
  class FixedSizeBlockReader<Out> {
    const buf: Cursor
    const fromBytes: seq<byte> -> Out
    const byteLength: nat

    constructor (buf: Cursor, fromBytes: seq<byte> -> Out, byteLength: nat)
      ensures this.buf == buf && this.fromBytes == fromBytes && this.byteLength == byteLength
    {
      this.buf := buf;
      this.fromBytes := fromBytes;
      this.byteLength := byteLength;
    }

    method Read(parent: Cursor) returns (r: Out)
      modifies buf
      ensures (r, buf.pos) == FixedSizeStep(buf.data, old(buf.pos), byteLength, fromBytes)
    {
      var bytes := buf.Read(byteLength);
      r := fromBytes(bytes);
    }
  }

  /** `UnlabeledVarIntBlockReader`: reads a label from its own block, ignoring the parent buffer. */
  class UnlabeledVarIntBlockReader {
    const buf: Cursor

    constructor (buf: Cursor)
      ensures this.buf == buf
    {
      this.buf := buf;
    }

    method Read(parent: Cursor) returns (r: Result<int>)
      modifies buf
      ensures Label.Read(buf.data, old(buf.pos)).Ok? ==>
        r == Ok(Label.Read(buf.data, old(buf.pos)).value.0) && buf.pos == Label.Read(buf.data, old(buf.pos)).value.1
      ensures Label.Read(buf.data, old(buf.pos)).Err? ==> r == Err(Label.Read(buf.data, old(buf.pos)).error)
    {
      r := buf.ReadLabel();
    }
  }

  /** The decoder's readers, as values: the block each reads, its cursor in it, and a deduplicating reader's table. */
  datatype Reader =
    | DeduplicatingLabelReader(payload: Payload.Kind, block: seq<byte>, pos: nat, values: seq<Js.Value>)
    | UnlabeledVarIntReader(block: seq<byte>, pos: nat)

  /** `reader.read(parent)`: the value, the reader afterwards, and the parent's cursor afterwards. */
  function ReaderRead(r: Reader, parent: seq<byte>, ppos: nat): Result<(Js.Value, Reader, nat)>
  {
    match r
    case DeduplicatingLabelReader(k, block, pos, values) =>
      var s :- DedupBlockStep(values, block, pos, parent, ppos, b => Payload.FromBytes(k, b));
      Ok((s.0.out, DeduplicatingLabelReader(k, block, s.0.blockPos, s.1), s.0.parentPos))
    case UnlabeledVarIntReader(block, pos) =>
      var read :- Label.Read(block, pos);
      Ok((Js.VNumber(read.0), UnlabeledVarIntReader(block, read.1), ppos))
  }

  /**
   * A read keeps the reader's kind, payload and block, only moves its cursor
   * forward and only ever appends to its table; an unlabeled reader leaves
   * the parent's cursor where it was.
   */
  lemma ReaderReadMonotone(r: Reader, parent: seq<byte>, ppos: nat)
    requires ReaderRead(r, parent, ppos).Ok?
    ensures var (v, r', ppos') := ReaderRead(r, parent, ppos).value;
      && r'.DeduplicatingLabelReader? == r.DeduplicatingLabelReader?
      && r'.block == r.block
      && r.pos <= r'.pos
      && (r.DeduplicatingLabelReader? ==>
            && r'.payload == r.payload
            && |r.values| <= |r'.values| <= |r.values| + 1
            && r'.values[..|r.values|] == r.values
            && ppos < ppos')
      && (r.UnlabeledVarIntReader? ==> ppos' == ppos && r.pos < r'.pos)
  {
  }
}
