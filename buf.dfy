/**
 * Byte buffers with a cursor. `buf.ts` is not part of this model: a read
 * buffer is its bytes and a position, and the one buffer that is written in
 * place, the result `getResult` allocates, is an array of fixed capacity and
 * the count of bytes written so far.
 */
module Buf {
  import opened Wrappers
  import opened Bytes
  import Label

  /** `buf.read(n)`: up to `n` bytes from `pos`, fewer when the buffer ends first. */
  function Take(data: seq<byte>, pos: nat, n: nat): (r: seq<byte>)
    ensures |r| <= n
    ensures r != [] ==> pos + |r| <= |data| && r == data[pos..pos + |r|]
    ensures pos + n <= |data| ==> r == data[pos..pos + n]
  {
    if pos >= |data| then [] else data[pos..if pos + n <= |data| then pos + n else |data|]
  }

  /** A read buffer (`ReadonlyBuf`, or a `Buf` being read). */
  class Cursor {
    const data: seq<byte>
    var pos: nat

    constructor (data: seq<byte>)
      ensures this.data == data && pos == 0
    {
      this.data := data;
      pos := 0;
    }

    /** `get()`: the byte at the cursor, which it consumes. */
    method Get() returns (r: Result<byte>)
      modifies this
      ensures old(pos) < |data| ==> r == Ok(data[old(pos)]) && pos == old(pos) + 1
      ensures old(pos) >= |data| ==> r == Err(ReadPastEnd) && pos == old(pos)
    {
      if pos < |data| {
        r := Ok(data[pos]);
        pos := pos + 1;
      } else {
        r := Err(ReadPastEnd);
      }
    }

    /** `read(n)`: the next `n` bytes, or as many as remain. */
    method Read(n: nat) returns (bytes: seq<byte>)
      modifies this
      ensures bytes == Take(data, old(pos), n)
      ensures pos == old(pos) + |bytes|
    {
      bytes := Take(data, pos, n);
      pos := pos + |bytes|;
    }

    /** `Label.read(buf)`: the label at the cursor, which it consumes. */
    method ReadLabel() returns (r: Result<int>)
      modifies this
      ensures Label.Read(data, old(pos)).Err? ==> r == Err(Label.Read(data, old(pos)).error) && pos == old(pos)
      ensures Label.Read(data, old(pos)).Ok? ==>
        r == Ok(Label.Read(data, old(pos)).value.0) && pos == Label.Read(data, old(pos)).value.1
    {
      var read := Label.Read(data, pos);
      if read.Ok? {
        r := Ok(read.value.0);
        pos := read.value.1;
      } else {
        r := Err(read.error);
      }
    }

    /** `incrementPosition(d)`: moves the cursor, backwards for a negative `d`. */
    method IncrementPosition(d: int)
      requires pos + d >= 0
      modifies this
      ensures pos == old(pos) + d
    {
      pos := pos + d;
    }
  }

  /** The result buffer of `getResult`: `capacity` bytes allocated once, filled from the front. */
  class OutBuf {
    const data: array<byte>
    var length: nat

    ghost predicate Valid()
      reads this
    {
      length <= data.Length
    }

    /** The bytes written so far. */
    ghost function Contents(): seq<byte>
      reads this, data
      requires Valid()
    {
      data[..length]
    }

    constructor (capacity: nat)
      ensures Valid() && fresh(data) && data.Length == capacity && Contents() == []
    {
      data := new byte[capacity];
      length := 0;
    }

    /** `write(bytes)`: appends `bytes` after what has been written. */
    method Write(bytes: seq<byte>)
      requires Valid() && length + |bytes| <= data.Length
      modifies this, data
      ensures Valid() && Contents() == old(Contents()) + bytes
    {
      var i := 0;
      while i < |bytes|
        invariant 0 <= i <= |bytes|
        invariant length == old(length)
        invariant data[..length] == old(data[..length])
        invariant data[length..length + i] == bytes[..i]
      {
        data[length + i] := bytes[i];
        i := i + 1;
      }
      assert bytes[..i] == bytes;
      assert data[..length + |bytes|] == data[..length] + data[length..length + |bytes|];
      length := length + |bytes|;
    }
  }
}
