/**
 * The Label atom: a signed integer that serves, depending on its value, as a
 * length, as one of the reserved markers, or as a backreference id.
 *
 * `label.ts` and `varint.ts` are not part of this model. The marker values
 * are the ones the codec's own code relies on: the non-null marker is 0
 * (encoder.ts:105), the two boolean markers are 0 and 1 (decoder.ts:229-230
 * and 351-352), and the three negative markers Null, Absent and Error, the
 * lowest of which bounds the backreference ids from above. `Label.encode` and `Label.read`
 * are given as ZigZag followed by a base-128 varint (the "ZigZag" and "Base
 * 128 Varints" encodings of the Protocol Buffers encoding guide).
 */
module Label {
  import opened Wrappers
  import opened Bytes

  const NullMarker: int := -1
  const AbsentMarker: int := -2
  const ErrorMarker: int := -3
  const NonNullMarker: int := 0
  const FalseMarker: int := 0
  const TrueMarker: int := 1
  const LowestResevedValue: int := ErrorMarker

  /** The kinds that the codec's `switch (Label.kind(label))` statements distinguish. */
  datatype LabelKind = Backreference | Length | Null | Absent | Error

  function Kind(l: int): (k: LabelKind)
    ensures k == Length <==> l >= 0
    ensures k == Backreference <==> l < LowestResevedValue
  {
    if l >= 0 then Length
    else if l == NullMarker then Null
    else if l == AbsentMarker then Absent
    else if l == ErrorMarker then Error
    else Backreference
  }

  /** The table index a backreference label points to: the first id handed out resolves to 0. */
  function LabelToOffset(l: int): int
  {
    -l + LowestResevedValue - 1
  }

  /** The k-th backreference id, counting from 0, is a backreference that resolves to index k. */
  lemma BackreferenceId(k: nat)
    ensures Kind(LowestResevedValue - 1 - k) == Backreference
    ensures LabelToOffset(LowestResevedValue - 1 - k) == k
  {
  }

  // ZigZag: signed to unsigned, small magnitudes to small numbers.

  function ZigZag(n: int): (z: nat)
    ensures UnZigZag(z) == n
  {
    if n >= 0 then 2 * n else -2 * n - 1
  }

  function UnZigZag(z: nat): int
  {
    if z % 2 == 0 then z / 2 else -(z + 1) / 2
  }

  // Base-128 varint: the low seven bits first, the high bit set on every byte but the last.

  function Varint(n: nat): (r: seq<byte>)
    ensures 1 <= |r|
    decreases n
  {
    if n < 128 then [n] else [n % 128 + 128] + Varint(n / 128)
  }

  function ReadVarint(data: seq<byte>, pos: nat): (r: Result<(nat, nat)>)
    ensures r.Ok? ==> pos < r.value.1 <= |data|
    decreases |data| - pos
  {
    if pos >= |data| then Err(MalformedLabel)
    else if data[pos] < 128 then Ok((data[pos], pos + 1))
    else
      var high :- ReadVarint(data, pos + 1);
      Ok((data[pos] - 128 + 128 * high.0, high.1))
  }

  /** `Label.encode`: the bytes of a label. */
  function Encode(l: int): (r: seq<byte>)
    ensures 1 <= |r|
  {
    Varint(ZigZag(l))
  }

  /** `Label.read`: the label starting at `pos`, and the position after it. */
  function Read(data: seq<byte>, pos: nat): (r: Result<(int, nat)>)
    ensures r.Ok? ==> pos < r.value.1 <= |data|
  {
    var z :- ReadVarint(data, pos);
    Ok((UnZigZag(z.0), z.1))
  }

  /** Whether `data` holds the bytes `b` at `pos`. */
  predicate HoldsAt(data: seq<byte>, pos: nat, b: seq<byte>)
  {
    pos + |b| <= |data| && data[pos..pos + |b|] == b
  }

  /** Bytes held one after the other are each held at their own place. */
  lemma HoldsAtSplit(data: seq<byte>, pos: nat, x: seq<byte>, y: seq<byte>)
    requires HoldsAt(data, pos, x + y)
    ensures HoldsAt(data, pos, x) && HoldsAt(data, pos + |x|, y)
  {
    assert data[pos..pos + |x|] == (x + y)[..|x|];
    assert data[pos + |x|..pos + |x| + |y|] == (x + y)[|x|..];
  }

  lemma {:induction false} ReadVarintOfVarint(data: seq<byte>, pos: nat, n: nat)
    requires HoldsAt(data, pos, Varint(n))
    ensures ReadVarint(data, pos) == Ok((n, pos + |Varint(n)|))
    decreases n
  {
    var v := Varint(n);
    assert data[pos] == v[0];
    if n >= 128 {
      var rest := Varint(n / 128);
      assert v == [n % 128 + 128] + rest;
      assert data[pos + 1..pos + 1 + |rest|] == v[1..];
      ReadVarintOfVarint(data, pos + 1, n / 128);
    }
  }

  /** Reading a label back from its encoding, whatever follows it, gives the label and the position just past it. */
  lemma ReadEncode(data: seq<byte>, pos: nat, l: int)
    requires HoldsAt(data, pos, Encode(l))
    ensures Read(data, pos) == Ok((l, pos + |Encode(l)|))
  {
    ReadVarintOfVarint(data, pos, ZigZag(l));
  }

  /** The first byte of an encoded label equals the Null marker's single byte exactly for the Null marker. */
  lemma FirstByteNull(l: int)
    ensures Encode(NullMarker) == [1]
    ensures Encode(l)[0] == 1 <==> l == NullMarker
  {
  }

  /** The first byte of an encoded label equals the NonNull marker's single byte exactly for the NonNull marker. */
  lemma FirstByteNonNull(l: int)
    ensures Encode(NonNullMarker) == [0]
    ensures Encode(l)[0] == 0 <==> l == NonNullMarker
  {
  }
}
