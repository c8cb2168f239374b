/**
 * Block framing: a message is a header byte followed by blocks, each written
 * as its length label and then its bytes (encoder.ts:32-70); the reader
 * splits the blocks back off in the same order, and the last block is the
 * main message (decoder.ts:27-37).
 */
module Framing {
  import opened Wrappers
  import opened Bytes
  import opened Label
  import opened Buf

  /** One block on the wire: its length label, then its bytes. */
  function FrameBlock(b: seq<byte>): (r: seq<byte>)
    ensures |r| == |Encode(|b|)| + |b|
  {
    Encode(|b|) + b
  }

  /** The blocks on the wire, in order. */
  function Frame(blocks: seq<seq<byte>>): seq<byte>
  {
    if blocks == [] then [] else Frame(blocks[..|blocks| - 1]) + FrameBlock(blocks[|blocks| - 1])
  }

  lemma FrameAppend(blocks: seq<seq<byte>>, b: seq<byte>)
    ensures Frame(blocks + [b]) == Frame(blocks) + FrameBlock(b)
  {
    assert (blocks + [b])[..|blocks|] == blocks;
  }

  /** The first block comes first on the wire. */
  lemma {:induction false} FrameCons(blocks: seq<seq<byte>>)
    requires blocks != []
    ensures Frame(blocks) == FrameBlock(blocks[0]) + Frame(blocks[1..])
    decreases |blocks|
  {
    if |blocks| > 1 {
      var init := blocks[..|blocks| - 1];
      FrameCons(init);
      assert init[1..] == blocks[1..][..|blocks| - 2];
      assert init[0] == blocks[0];
    } else {
      assert blocks[..0] == [];
      assert blocks[1..] == [];
    }
  }

  /** The frame of a prefix of the blocks is a prefix of the frame, and no longer than it. */
  lemma {:induction false} FramePrefix(blocks: seq<seq<byte>>, k: nat)
    requires k <= |blocks|
    ensures |Frame(blocks[..k])| <= |Frame(blocks)|
    ensures Frame(blocks)[..|Frame(blocks[..k])|] == Frame(blocks[..k])
    decreases |blocks| - k
  {
    if k < |blocks| {
      FramePrefix(blocks, k + 1);
      assert blocks[..k + 1] == blocks[..k] + [blocks[k]];
      FrameAppend(blocks[..k], blocks[k]);
    } else {
      assert blocks[..k] == blocks;
    }
  }

  /** One more block: the frame of the first `k + 1` blocks, still within the whole frame. */
  lemma FrameNext(blocks: seq<seq<byte>>, k: nat)
    requires k < |blocks|
    ensures Frame(blocks[..k + 1]) == Frame(blocks[..k]) + FrameBlock(blocks[k])
    ensures |Frame(blocks[..k + 1])| <= |Frame(blocks)|
  {
    assert blocks[..k + 1] == blocks[..k] + [blocks[k]];
    FrameAppend(blocks[..k], blocks[k]);
    FramePrefix(blocks, k + 1);
  }

  /**
   * One turn of the `BlockTracker` constructor's loop: read a length label at
   * `pos`, refuse a negative one, take that many bytes and refuse a short
   * block; the block and the position after it.
   */
  function ReadBlock(data: seq<byte>, pos: nat): (r: Result<(seq<byte>, nat)>)
    ensures r.Ok? ==> pos < r.value.1 <= |data|
  {
    var read :- Label.Read(data, pos);
    var blockLength := read.0;
    if blockLength < 0 then Err(InvalidBlockLength)
    else
      var block := Take(data, read.1, blockLength);
      if |block| != blockLength then Err(ShortBlock)
      else Ok((block, read.1 + |block|))
  }

  /**
   * The `BlockTracker` constructor's loop: read blocks from `pos` while bytes
   * remain; `acc` holds the blocks read so far. The loop runs at least once,
   * so there is always at least one block.
   */
  function Unframe(data: seq<byte>, pos: nat, acc: seq<seq<byte>>): (r: Result<seq<seq<byte>>>)
    ensures r.Ok? ==> |r.value| > |acc| && r.value[..|acc|] == acc
    decreases |data| - pos
  {
    var next :- ReadBlock(data, pos);
    if next.1 < |data| then Unframe(data, next.1, acc + [next.0])
    else Ok(acc + [next.0])
  }

  /** A framed block reads back whole, its label and bytes being the frame's. */
  lemma ReadFrameBlock(data: seq<byte>, pos: nat, b: seq<byte>)
    requires HoldsAt(data, pos, FrameBlock(b))
    ensures ReadBlock(data, pos) == Ok((b, pos + |FrameBlock(b)|))
  {
    HoldsAtSplit(data, pos, Encode(|b|), b);
    ReadEncode(data, pos, |b|);
    assert Take(data, pos + |Encode(|b|)|, |b|) == b;
  }

  /** One turn of the loop, once a block has been read: it goes on exactly when bytes remain. */
  lemma UnframeNext(data: seq<byte>, pos: nat, b: seq<byte>, next: nat, acc: seq<seq<byte>>)
    requires ReadBlock(data, pos) == Ok((b, next))
    ensures next < |data| ==> Unframe(data, pos, acc) == Unframe(data, next, acc + [b])
    ensures next >= |data| ==> Unframe(data, pos, acc) == Ok(acc + [b])
  {
  }

  lemma AppendHead<T>(acc: seq<T>, s: seq<T>)
    requires s != []
    ensures acc + [s[0]] + s[1..] == acc + s
  {
    assert s == [s[0]] + s[1..];
  }

  /** A frame held from `pos` to the end of `data` is its first block followed by the frame of the others, which ends the data too. */
  lemma FrameSplitAt(data: seq<byte>, pos: nat, blocks: seq<seq<byte>>)
    requires blocks != []
    requires HoldsAt(data, pos, Frame(blocks)) && pos + |Frame(blocks)| == |data|
    ensures var next := pos + |FrameBlock(blocks[0])|;
      && HoldsAt(data, pos, FrameBlock(blocks[0]))
      && HoldsAt(data, next, Frame(blocks[1..]))
      && next + |Frame(blocks[1..])| == |data|
      && (next < |data| <==> blocks[1..] != [])
  {
    FrameCons(blocks);
    HoldsAtSplit(data, pos, FrameBlock(blocks[0]), Frame(blocks[1..]));
    if blocks[1..] != [] {
      assert |Frame(blocks[1..])| > 0;
    }
  }

  /** `data` holds, from `pos` to its end, the blocks framed one after another. */
  ghost predicate FramedFrom(data: seq<byte>, pos: nat, blocks: seq<seq<byte>>)
    decreases |blocks|
  {
    && blocks != []
    && HoldsAt(data, pos, FrameBlock(blocks[0]))
    && if |blocks| == 1 then pos + |FrameBlock(blocks[0])| == |data|
       else FramedFrom(data, pos + |FrameBlock(blocks[0])|, blocks[1..])
  }

  lemma {:induction false} FrameFramedFrom(data: seq<byte>, pos: nat, blocks: seq<seq<byte>>)
    requires blocks != []
    requires HoldsAt(data, pos, Frame(blocks)) && pos + |Frame(blocks)| == |data|
    ensures FramedFrom(data, pos, blocks)
    decreases |blocks|
  {
    FrameSplitAt(data, pos, blocks);
    if |blocks| > 1 {
      FrameFramedFrom(data, pos + |FrameBlock(blocks[0])|, blocks[1..]);
    }
  }

  /** Blocks framed from `pos` to the end of `data` are read back by the loop as exactly those blocks. */
  lemma {:induction false} UnframeFramedFrom(data: seq<byte>, pos: nat, blocks: seq<seq<byte>>, acc: seq<seq<byte>>)
    requires FramedFrom(data, pos, blocks)
    ensures Unframe(data, pos, acc) == Ok(acc + blocks)
    decreases |blocks|
  {
    var b0 := blocks[0];
    var next := pos + |FrameBlock(b0)|;
    ReadFrameBlock(data, pos, b0);
    if |blocks| == 1 {
      UnframeNext(data, pos, b0, next, acc);
      assert blocks == [b0];
    } else {
      var rest := blocks[1..];
      assert next < |data| by {
        assert HoldsAt(data, next, FrameBlock(rest[0]));
      }
      UnframeNext(data, pos, b0, next, acc);
      UnframeFramedFrom(data, next, rest, acc + [b0]);
      AppendHead(acc, blocks);
    }
  }

  /**
   * Framing round-trip: whatever comes before it, a frame of one or more
   * blocks splits back into exactly those blocks.
   */
  lemma UnframeFrame(pre: seq<byte>, blocks: seq<seq<byte>>)
    requires blocks != []
    ensures Unframe(pre + Frame(blocks), |pre|, []) == Ok(blocks)
  {
    var data := pre + Frame(blocks);
    assert data[|pre|..] == Frame(blocks);
    FrameFramedFrom(data, |pre|, blocks);
    UnframeFramedFrom(data, |pre|, blocks, []);
  }
}
