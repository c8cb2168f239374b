/** Bytes and byte strings, as the codec's `Uint8Array`s hold them. */
module Bytes {

  type byte = x: int | 0 <= x < 256

  /** The byte strings of `parts` laid end to end, in order. */
  function Concat(parts: seq<seq<byte>>): seq<byte>
  {
    if parts == [] then [] else Concat(parts[..|parts| - 1]) + parts[|parts| - 1]
  }

  lemma AppendAssoc<T>(a: seq<T>, b: seq<T>, c: seq<T>)
    ensures a + b + c == a + (b + c)
  {
  }

  lemma ConcatAppend(parts: seq<seq<byte>>, p: seq<byte>)
    ensures Concat(parts + [p]) == Concat(parts) + p
  {
    assert (parts + [p])[..|parts|] == parts;
  }

  /** Concatenating a prefix of the parts gives a prefix of the whole. */
  lemma {:induction false} ConcatPrefix(parts: seq<seq<byte>>, k: nat)
    requires k <= |parts|
    ensures |Concat(parts[..k])| <= |Concat(parts)|
    ensures Concat(parts)[..|Concat(parts[..k])|] == Concat(parts[..k])
    decreases |parts| - k
  {
    if k < |parts| {
      ConcatPrefix(parts, k + 1);
      assert parts[..k + 1] == parts[..k] + [parts[k]];
      ConcatAppend(parts[..k], parts[k]);
    } else {
      assert parts[..k] == parts;
    }
  }

  /** One more part: the concatenation of the first `k + 1` parts, still within the whole. */
  lemma ConcatNext(parts: seq<seq<byte>>, k: nat)
    requires k < |parts|
    ensures Concat(parts[..k + 1]) == Concat(parts[..k]) + parts[k]
    ensures |Concat(parts[..k + 1])| <= |Concat(parts)|
  {
    assert parts[..k + 1] == parts[..k] + [parts[k]];
    ConcatAppend(parts[..k], parts[k]);
    ConcatPrefix(parts, k + 1);
  }

  /** Part `k` sits in the concatenation right after the parts before it. */
  lemma ConcatAt(parts: seq<seq<byte>>, k: nat)
    requires k < |parts|
    ensures |Concat(parts[..k])| + |parts[k]| <= |Concat(parts)|
    ensures Concat(parts)[|Concat(parts[..k])|..|Concat(parts[..k])| + |parts[k]|] == parts[k]
  {
    assert parts[..k + 1] == parts[..k] + [parts[k]];
    ConcatAppend(parts[..k], parts[k]);
    ConcatPrefix(parts, k + 1);
    var whole := Concat(parts);
    var upto := Concat(parts[..k + 1]);
    assert whole[..|upto|] == upto;
    assert whole[|Concat(parts[..k])|..|upto|] == upto[|Concat(parts[..k])|..];
  }
}
