/**
 * Deduplication (dedup.ts): the writer side hands each first-seen value the
 * next backreference id, counting down from just below the reserved labels;
 * the reader side appends each decoded payload to a table and resolves a
 * backreference id to a table index with `Label.LabelToOffset`.
 *
 * The state changes are given once, as functions on the trackers' state
 * (`WriterLabel`, `ReaderValue`), and the classes' methods are specified by
 * them. The same functions drive the encoder's writers (`Writer`), which the
 * encoder keeps as values in its map.
 */
module Dedup {
  import opened Wrappers
  import opened Bytes
  import opened Label
  import opened Js
  import Payload

  /** A writer tracker's state: the id given to each value seen, and the last id handed out. */
  datatype WriterTracker = WriterTracker(seen: map<Value, int>, lastId: int)

  const FreshTracker: WriterTracker := WriterTracker(map[], LowestResevedValue)

  /**
   * `labelForValue`: the Null marker for a null value, the saved id for a value
   * seen before (`if (saved)`, so an id of 0 would not count as saved), and
   * otherwise None, "new", with the value stored under the next id.
   */
  function WriterLabel(t: WriterTracker, v: Value): (Option<int>, WriterTracker)
  {
    if IsNullish(v) then (Some(NullMarker), t)
    else if v in t.seen && t.seen[v] != 0 then (Some(t.seen[v]), t)
    else (None, WriterTracker(t.seen[v := t.lastId - 1], t.lastId - 1))
  }

  /** `order` lists the values the tracker has seen, first sighting first: the k-th has id LowestResevedValue - 1 - k. */
  ghost predicate Numbered(t: WriterTracker, order: seq<Value>)
  {
    && t.lastId == LowestResevedValue - |order|
    && t.seen.Keys == (set v | v in order)
    && (forall k :: 0 <= k < |order| ==>
          !IsNullish(order[k]) && order[k] in t.seen && t.seen[order[k]] == LowestResevedValue - 1 - k)
  }

  lemma FreshTrackerNumbered()
    ensures Numbered(FreshTracker, [])
  {
  }

  /** The ids a tracker hands out lie strictly between lastId - 1 and the reserved labels, and no two values share one. */
  lemma NumberedIds(t: WriterTracker, order: seq<Value>)
    requires Numbered(t, order)
    ensures forall v :: v in t.seen ==> t.lastId <= t.seen[v] < LowestResevedValue
    ensures forall v, w :: v in t.seen && w in t.seen && v != w ==> t.seen[v] != t.seen[w]
    ensures forall j, k :: 0 <= j < k < |order| ==> order[j] != order[k]
  {
    forall v | v in t.seen
      ensures exists k :: 0 <= k < |order| && order[k] == v
    {
      assert v in set w | w in order;
    }
    forall j, k | 0 <= j < k < |order|
      ensures order[j] != order[k]
    {
      assert t.seen[order[j]] == LowestResevedValue - 1 - j;
      assert t.seen[order[k]] == LowestResevedValue - 1 - k;
    }
  }

  /**
   * One call of `labelForValue` against the numbering: null gives the Null
   * marker, the value first seen k-th gives id LowestResevedValue - 1 - k, and
   * a new value gives None, takes the next id and extends the numbering.
   */
  lemma WriterLabelNumbers(t: WriterTracker, order: seq<Value>, v: Value)
    requires Numbered(t, order)
    ensures var (r, t') := WriterLabel(t, v);
      && (IsNullish(v) ==> r == Some(NullMarker) && t' == t)
      && (forall k :: 0 <= k < |order| && order[k] == v ==> r == Some(LowestResevedValue - 1 - k) && t' == t)
      && (!IsNullish(v) && v !in order ==>
            && r == None
            && t'.lastId == t.lastId - 1
            && t'.seen[v] == LowestResevedValue - 1 - |order|
            && Numbered(t', order + [v]))
  {
    var (r, t') := WriterLabel(t, v);
    NumberedIds(t, order);
    forall k | 0 <= k < |order| && order[k] == v
      ensures r == Some(LowestResevedValue - 1 - k) && t' == t
    {
      assert t.seen[order[k]] == LowestResevedValue - 1 - k;
    }
    if !IsNullish(v) && v !in order {
      assert v !in t.seen;
      var o' := order + [v];
      assert t'.seen.Keys == set w | w in o' by {
        assert t'.seen.Keys == t.seen.Keys + {v};
        assert (set w | w in o') == (set w | w in order) + {v};
      }
      forall k | 0 <= k < |o'|
        ensures !IsNullish(o'[k]) && o'[k] in t'.seen && t'.seen[o'[k]] == LowestResevedValue - 1 - k
      {
        if k < |order| {
          assert o'[k] == order[k] != v;
        }
      }
    }
  }

  /**
   * `valueForLabel`: a Length label decodes a payload with `getValue` and appends
   * it to the table; a backreference reads the table at
   * `-label + LowestResevedValue - 1` and throws outside it; Absent and Null
   * give null; Error throws.
   */
  function ReaderValue<T>(seen: seq<T>, l: int, getValue: nat -> T): Result<(Option<T>, seq<T>)>
  {
    match Kind(l)
    case Absent => Ok((None, seen))
    case Null => Ok((None, seen))
    case Backreference =>
      var index := -l + (LowestResevedValue - 1);
      if index < |seen| then Ok((Some(seen[index]), seen)) else Err(InvalidBackreference)
    case Length =>
      var value := getValue(l);
      Ok((Some(value), seen + [value]))
    case Error => Err(ErrorLabel)
  }

  /** What `valueForLabel` does with each kind of label, and that it never changes the entries already in the table. */
  lemma ReaderValueCases<T>(seen: seq<T>, l: int, getValue: nat -> T)
    ensures var r := ReaderValue(seen, l, getValue);
      && (l >= 0 ==> r == Ok((Some(getValue(l)), seen + [getValue(l)])))
      && (l < LowestResevedValue ==>
            if LabelToOffset(l) < |seen| then r == Ok((Some(seen[LabelToOffset(l)]), seen))
            else r == Err(InvalidBackreference))
      && (l == AbsentMarker || l == NullMarker ==> r == Ok((None, seen)))
      && (l == ErrorMarker ==> r == Err(ErrorLabel))
      && (r.Ok? ==> r.value.1[..|seen|] == seen)
  {
  }

  /**
   * Writer and reader agree: when the reader's table holds the values in the
   * order the writer first saw them, the id the writer gives a value resolves
   * in the reader to that very value, without touching the table.
   */
  lemma WriterReaderAgreement(t: WriterTracker, order: seq<Value>, v: Value, getValue: nat -> Value)
    requires Numbered(t, order)
    requires v in t.seen
    ensures LabelToOffset(t.seen[v]) < |order| && order[LabelToOffset(t.seen[v])] == v
    ensures ReaderValue(order, t.seen[v], getValue) == Ok((Some(v), order))
  {
    assert v in set w | w in order;
    var k :| 0 <= k < |order| && order[k] == v;
    assert t.seen[v] == LowestResevedValue - 1 - k;
  }

  /** The two callbacks of `ValueDeduplicator`, as the call it makes. */
  datatype Callback = OnNew(v: Value, bytes: seq<byte>) | OnRepeat(backref: int, v: Value)

  /**
   * The writers the encoder keeps per deduplication key (`DeduplicatingWriter`
   * and `BytesWriter`, whose source is not part of this model), with
   * contracts mirroring `ValueDeduplicator`: a deduplicating writer returns the
   * payload length as the label of a new value and stores its payload, and the
   * tracker's label otherwise; a bytes writer stores the ZigZag varint of every
   * number and returns no label.
   */
  datatype Writer =
    | DeduplicatingWriter(payload: Payload.Kind, tracker: WriterTracker, valuesAsBytes: seq<seq<byte>>)
    | BytesWriter(valuesAsBytes: seq<seq<byte>>)

  /** `writer.write(v)`: the label for the main block (None for no label) and the writer afterwards. */
  function WriterWrite(w: Writer, v: Value): Result<(Option<int>, Writer)>
  {
    match w
    case DeduplicatingWriter(k, t, values) =>
      var (backref, t') := WriterLabel(t, v);
      if backref.Some? then Ok((backref, DeduplicatingWriter(k, t', values)))
      else
        var bytes :- Payload.ToBytes(k, v);
        Ok((Some(|bytes|), DeduplicatingWriter(k, t', values + [bytes])))
    case BytesWriter(values) =>
      if v.VNumber? then Ok((None, BytesWriter(values + [Encode(v.n)]))) else Err(TypeMismatch)
  }

  /** The values a deduplicating writer's payloads decode to, in order. */
  function Decoded(k: Payload.Kind, values: seq<seq<byte>>): (r: seq<Value>)
    ensures |r| == |values|
    ensures forall i :: 0 <= i < |values| ==> r[i] == Payload.FromBytes(k, values[i])
  {
    if values == [] then [] else Decoded(k, values[..|values| - 1]) + [Payload.FromBytes(k, values[|values| - 1])]
  }

  /** The values a deduplicating writer's payloads were made from, in order. */
  function Sources(k: Payload.Kind, values: seq<seq<byte>>): (r: seq<Value>)
    ensures |r| == |values|
    ensures forall i :: 0 <= i < |values| ==> r[i] == Payload.Source(k, values[i])
  {
    if values == [] then [] else Sources(k, values[..|values| - 1]) + [Payload.Source(k, values[|values| - 1])]
  }

  /** The values a deduplicating writer's payloads were made from are the values its tracker numbered, in order. */
  ghost predicate WriterValid(w: Writer)
  {
    w.DeduplicatingWriter? ==> Numbered(w.tracker, Sources(w.payload, w.valuesAsBytes))
  }

  /**
   * A write keeps the writer valid and only ever appends a payload. A
   * deduplicating writer labels a new value with the length of its payload and
   * a repeated one with a backreference to the payload made from it; a bytes
   * writer appends the label encoding of the number.
   */
  lemma WriterWriteValid(w: Writer, v: Value)
    requires WriterValid(w)
    requires WriterWrite(w, v).Ok?
    ensures var written := WriterWrite(w, v).value;
      var l := written.0;
      var w' := written.1;
      && WriterValid(w')
      && w'.DeduplicatingWriter? == w.DeduplicatingWriter?
      && (w.DeduplicatingWriter? ==> w'.payload == w.payload)
      && |w.valuesAsBytes| <= |w'.valuesAsBytes| <= |w.valuesAsBytes| + 1
      && w'.valuesAsBytes[..|w.valuesAsBytes|] == w.valuesAsBytes
      && (w.BytesWriter? ==> l == None && w'.valuesAsBytes == w.valuesAsBytes + [Encode(v.n)])
      && (w.DeduplicatingWriter? && IsNullish(v) ==> l == Some(NullMarker) && w' == w)
      && (w.DeduplicatingWriter? && !IsNullish(v) && |w'.valuesAsBytes| == |w.valuesAsBytes| ==>
            && l.Some? && Kind(l.value) == Backreference && w' == w
            && LabelToOffset(l.value) < |w.valuesAsBytes|
            && Payload.Source(w.payload, w.valuesAsBytes[LabelToOffset(l.value)]) == v)
      && (w.DeduplicatingWriter? && |w'.valuesAsBytes| == |w.valuesAsBytes| + 1 ==>
            && !IsNullish(v)
            && l == Some(|w'.valuesAsBytes[|w.valuesAsBytes|]|)
            && Payload.ToBytes(w.payload, v) == Ok(w'.valuesAsBytes[|w.valuesAsBytes|]))
  {
    if w.DeduplicatingWriter? {
      if IsNullish(v) {
        assert WriterWrite(w, v) == Ok((Some(NullMarker), w));
      } else if v in w.tracker.seen && w.tracker.seen[v] != 0 {
        DedupWriteRepeat(w, v);
      } else {
        DedupWriteNew(w, v);
        var bytes := Payload.ToBytes(w.payload, v).value;
        assert (w.valuesAsBytes + [bytes])[..|w.valuesAsBytes|] == w.valuesAsBytes;
      }
    }
  }

  /** A deduplicating writer meeting a value again labels it with a backreference to the payload it stored for it. */
  lemma DedupWriteRepeat(w: Writer, v: Value)
    requires w.DeduplicatingWriter? && WriterValid(w) && !IsNullish(v)
    requires v in w.tracker.seen && w.tracker.seen[v] != 0
    ensures WriterWrite(w, v) == Ok((Some(w.tracker.seen[v]), w))
    ensures Kind(w.tracker.seen[v]) == Backreference
    ensures LabelToOffset(w.tracker.seen[v]) < |w.valuesAsBytes|
    ensures Payload.Source(w.payload, w.valuesAsBytes[LabelToOffset(w.tracker.seen[v])]) == v
  {
    var order := Sources(w.payload, w.valuesAsBytes);
    NumberedIds(w.tracker, order);
    WriterReaderAgreement(w.tracker, order, v, _ => VUndefined);
  }

  /** A deduplicating writer meeting a value for the first time stores its payload, which was made from it. */
  lemma DedupWriteNew(w: Writer, v: Value)
    requires w.DeduplicatingWriter? && WriterValid(w) && WriterWrite(w, v).Ok? && !IsNullish(v)
    requires !(v in w.tracker.seen && w.tracker.seen[v] != 0)
    ensures var written := WriterWrite(w, v).value;
      && WriterValid(written.1)
      && written.1.DeduplicatingWriter? && written.1.payload == w.payload
      && written.1.valuesAsBytes == w.valuesAsBytes + [Payload.ToBytes(w.payload, v).value]
      && written.0 == Some(|Payload.ToBytes(w.payload, v).value|)
      && Payload.FromBytes(w.payload, Payload.ToBytes(w.payload, v).value) == Payload.Stripped(v)
  {
    var order := Sources(w.payload, w.valuesAsBytes);
    var w' := WriterWrite(w, v).value.1;
    WriterLabelNumbers(w.tracker, order, v);
    NumberedIds(w.tracker, order);
    assert v !in order;
    var bytes := Payload.ToBytes(w.payload, v).value;
    Payload.FromToBytes(w.payload, v);
    assert w'.valuesAsBytes == w.valuesAsBytes + [bytes];
    assert Sources(w.payload, w'.valuesAsBytes) == order + [v];
  }

  /** `BackreferenceWriterTracker`. */
  class BackreferenceWriterTracker {
    var seen: map<Value, int>
    var lastId: int
    ghost var order: seq<Value>

    ghost predicate Valid()
      reads this
    {
      Numbered(Tracker(), order)
    }

    function Tracker(): WriterTracker
      reads this
    {
      WriterTracker(seen, lastId)
    }

    constructor ()
      ensures Valid() && Tracker() == FreshTracker && order == []
    {
      seen := map[];
      lastId := LowestResevedValue;
      order := [];
    }

    /** `nextId`: `--this.lastId`. */
    method NextId() returns (id: int)
      modifies this`lastId
      ensures lastId == old(lastId) - 1 && id == lastId
    {
      lastId := lastId - 1;
      id := lastId;
    }

    /** `labelForValue`. */
    method LabelForValue(v: Value) returns (r: Option<int>)
      requires Valid()
      modifies this
      ensures Valid()
      ensures (r, Tracker()) == WriterLabel(old(Tracker()), v)
      ensures IsNullish(v) ==> r == Some(NullMarker) && Tracker() == old(Tracker()) && order == old(order)
      ensures !IsNullish(v) && v in old(seen) ==>
        r == Some(old(seen)[v]) && Tracker() == old(Tracker()) && order == old(order)
      ensures !IsNullish(v) && v !in old(seen) ==>
        && r == None
        && seen == old(seen)[v := LowestResevedValue - 1 - |old(order)|]
        && lastId == old(lastId) - 1
        && order == old(order) + [v]
    {
      NumberedIds(Tracker(), order);
      WriterLabelNumbers(Tracker(), order, v);
      if IsNullish(v) {
        return Some(NullMarker);
      }
      if v in seen && seen[v] != 0 {
        return Some(seen[v]);
      }
      var id := NextId();
      seen := seen[v := id];
      order := order + [v];
      r := None;
    }
  }

  /** `BackreferenceReaderTracker`. */
  class BackreferenceReaderTracker<T> {
    var seen: seq<T>

    constructor ()
      ensures seen == []
    {
      seen := [];
    }

    /** `valueForLabel`; on a throw the table is left as it was. */
    method ValueForLabel(l: int, getValue: nat -> T) returns (r: Result<Option<T>>)
      modifies this
      ensures ReaderValue(old(seen), l, getValue).Ok? ==>
        r == Ok(ReaderValue(old(seen), l, getValue).value.0) && seen == ReaderValue(old(seen), l, getValue).value.1
      ensures ReaderValue(old(seen), l, getValue).Err? ==>
        r == Err(ReaderValue(old(seen), l, getValue).error) && seen == old(seen)
    {
      match Kind(l)
      case Absent => r := Ok(None);
      case Null => r := Ok(None);
      case Backreference =>
        var index := -l + (LowestResevedValue - 1);
        if index >= |seen| {
          return Err(InvalidBackreference);
        }
        r := Ok(Some(seen[index]));
      case Length =>
        var value := getValue(l);
        seen := seen + [value];
        r := Ok(Some(value));
      case Error =>
        r := Err(ErrorLabel);
    }
  }

  /** `ValueDeduplicator`: the two callbacks become the `Callback` that `Dedup` returns. */
  class ValueDeduplicator {
    var valuesAsBytes: seq<seq<byte>>
    var seen: map<Value, int>
    var lastId: int
    ghost var order: seq<Value>
    const valueToBytes: Value -> seq<byte>

    ghost predicate Valid()
      reads this
    {
      Numbered(Tracker(), order)
    }

    function Tracker(): WriterTracker
      reads this
    {
      WriterTracker(seen, lastId)
    }

    constructor (valueToBytes: Value -> seq<byte>)
      ensures Valid() && Tracker() == FreshTracker && order == [] && valuesAsBytes == []
      ensures this.valueToBytes == valueToBytes
    {
      valuesAsBytes := [];
      seen := map[];
      lastId := LowestResevedValue;
      order := [];
      this.valueToBytes := valueToBytes;
    }

    method NextId() returns (id: int)
      modifies this`lastId
      ensures lastId == old(lastId) - 1 && id == lastId
    {
      lastId := lastId - 1;
      id := lastId;
    }

    /** `labelForValue`, the same as the writer tracker's. */
    method LabelForValue(v: Value) returns (r: Option<int>)
      requires Valid()
      modifies this`seen, this`lastId, this`order
      ensures Valid()
      ensures (r, Tracker()) == WriterLabel(old(Tracker()), v)
      ensures order == if r.None? then old(order) + [v] else old(order)
    {
      WriterLabelNumbers(Tracker(), order, v);
      NumberedIds(Tracker(), order);
      if IsNullish(v) {
        return Some(NullMarker);
      }
      if v in seen && seen[v] != 0 {
        return Some(seen[v]);
      }
      var id := NextId();
      seen := seen[v := id];
      order := order + [v];
      r := None;
    }

    /** `dedup`: `onNew(v, valueToBytes(v))` exactly when the value is new, `onRepeat(label, v)` otherwise. */
    method Dedup(v: Value) returns (call: Callback)
      requires Valid()
      modifies this`seen, this`lastId, this`order
      ensures Valid()
      ensures Tracker() == WriterLabel(old(Tracker()), v).1
      ensures call.OnNew? <==> WriterLabel(old(Tracker()), v).0.None?
      ensures call.OnNew? ==> call == OnNew(v, valueToBytes(v))
      ensures call.OnRepeat? ==> call == OnRepeat(WriterLabel(old(Tracker()), v).0.value, v)
    {
      var backref := LabelForValue(v);
      if backref.None? {
        var bytes := valueToBytes(v);
        call := OnNew(v, bytes);
      } else {
        call := OnRepeat(backref.value, v);
      }
    }
  }
}
