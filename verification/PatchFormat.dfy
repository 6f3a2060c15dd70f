/** The patch stream: a list of blocks, its bytes, and what it means against an old file. */
module PatchFormat {
  import opened Sequences
  import opened Words
  import opened OffsetCodec

  /** Bytes to add to old bytes, bytes to insert, and how far to move in the old file after that. */
  datatype Block = Block(diff: seq<Byte>, extra: seq<Byte>, seek: int)

  ghost predicate Codable(b: Block) {
    |b.diff| < LIMIT && |b.extra| < LIMIT && -LIMIT < b.seek < LIMIT
  }

  ghost predicate AllCodable(blocks: seq<Block>) {
    forall b :: b in blocks ==> Codable(b)
  }

  ghost function BlockBytes(b: Block): (s: seq<Byte>)
    requires Codable(b)
  {
    Coded(|b.diff|) + Coded(|b.extra|) + Coded(b.seek) + b.diff + b.extra
  }

  /** A block is three numbers of eight bytes, the lengths of its two parts and the move, and then the parts. */
  lemma BlockLayout(b: Block)
    requires Codable(b)
    ensures var s, n := BlockBytes(b), 24 + |b.diff|;
            && |s| == n + |b.extra| && s[24..n] == b.diff && s[n..] == b.extra
            && OffTIn(s[0..8]) == |b.diff| && OffTIn(s[8..16]) == |b.extra| && OffTIn(s[16..24]) == b.seek
  {
    CodeRoundTrip(|b.diff|);
    CodeRoundTrip(|b.extra|);
    CodeRoundTrip(b.seek);
    hide OffTIn, Coded;
    var s := BlockBytes(b);
    assert s[0..8] == Coded(|b.diff|) && s[8..16] == Coded(|b.extra|) && s[16..24] == Coded(b.seek);
  }

  ghost function Bytes(blocks: seq<Block>): (s: seq<Byte>)
    requires AllCodable(blocks)
  {
    if blocks == [] then [] else BlockBytes(blocks[0]) + Bytes(blocks[1..])
  }

  /** diff added bytewise, modulo 256, to the old file from `pos` on, where the old file has bytes. */
  ghost function Added(prior: seq<Byte>, pos: int, diff: seq<Byte>): (s: seq<Byte>)
    ensures |s| == |diff|
    ensures forall i :: 0 <= i < |diff| ==>
      s[i] == if 0 <= pos + i < |prior| then ((diff[i] as int) + prior[pos + i]) % 256 else diff[i]
  {
    seq(|diff|, i requires 0 <= i < |diff| =>
      if 0 <= pos + i < |prior| then ((diff[i] as int) + prior[pos + i]) % 256 else diff[i])
  }

  /** What a list of blocks rebuilds when reading of the old file starts at `pos`. */
  ghost function Rebuilt(prior: seq<Byte>, pos: int, blocks: seq<Block>): (s: seq<Byte>)
    decreases |blocks|
  {
    if blocks == [] then []
    else
      var b := blocks[0];
      Added(prior, pos, b.diff) + b.extra + Rebuilt(prior, pos + |b.diff| + b.seek, blocks[1..])
  }

  /** How far a list of blocks moves in the old file. */
  ghost function Drift(blocks: seq<Block>): int {
    if blocks == [] then 0 else |blocks[0].diff| + blocks[0].seek + Drift(blocks[1..])
  }

  ghost function Length(blocks: seq<Block>): (n: nat) {
    if blocks == [] then 0 else |blocks[0].diff| + |blocks[0].extra| + Length(blocks[1..])
  }

  lemma BytesCons(b: Block, more: seq<Block>)
    requires Codable(b) && AllCodable(more)
    ensures AllCodable([b] + more) && Bytes([b] + more) == BlockBytes(b) + Bytes(more)
  {
    assert ([b] + more)[1..] == more;
    hide BlockBytes, Codable;
  }

  lemma {:induction false} BytesAppend(blocks: seq<Block>, b: Block)
    requires AllCodable(blocks) && Codable(b)
    ensures AllCodable(blocks + [b]) && Bytes(blocks + [b]) == Bytes(blocks) + BlockBytes(b)
    decreases |blocks|
  {
    if blocks == [] {
      BytesCons(b, []);
      assert blocks + [b] == [b] == [b] + [] && Bytes([]) == [];
    } else {
      var first, more := blocks[0], blocks[1..];
      assert first in blocks;
      assert blocks == [first] + more && blocks + [b] == [first] + (more + [b]);
      hide BlockBytes, Codable, Bytes;
      BytesAppend(more, b);
      BytesCons(first, more);
      BytesCons(first, more + [b]);
      Associate(BlockBytes(first), Bytes(more), BlockBytes(b));
    }
  }

  lemma RebuiltCons(prior: seq<Byte>, pos: int, b: Block, more: seq<Block>)
    ensures Rebuilt(prior, pos, [b] + more) ==
            Added(prior, pos, b.diff) + b.extra + Rebuilt(prior, pos + |b.diff| + b.seek, more)
    ensures Drift([b] + more) == |b.diff| + b.seek + Drift(more)
  {
    assert ([b] + more)[1..] == more;
    hide Added;
  }

  lemma {:induction false} RebuiltAppend(prior: seq<Byte>, pos: int, blocks: seq<Block>, b: Block)
    ensures Rebuilt(prior, pos, blocks + [b]) ==
            Rebuilt(prior, pos, blocks) + Added(prior, pos + Drift(blocks), b.diff) + b.extra
    ensures Drift(blocks + [b]) == Drift(blocks) + |b.diff| + b.seek
    decreases |blocks|
  {
    if blocks == [] {
      RebuiltCons(prior, pos, b, []);
      assert blocks + [b] == [b] == [b] + [] && Rebuilt(prior, pos, []) == [] && Drift([]) == 0;
      hide Rebuilt, Added, Drift;
    } else {
      hide Rebuilt, Added, Drift;
      var first, more := blocks[0], blocks[1..];
      var p := pos + |first.diff| + first.seek;
      assert blocks == [first] + more && blocks + [b] == [first] + (more + [b]);
      RebuiltAppend(prior, p, more, b);
      RebuiltCons(prior, pos, first, more);
      RebuiltCons(prior, pos, first, more + [b]);
      var head := Added(prior, pos, first.diff) + first.extra;
      Associate(head, Rebuilt(prior, p, more), Added(prior, p + Drift(more), b.diff));
      Associate(head, Rebuilt(prior, p, more) + Added(prior, p + Drift(more), b.diff), b.extra);
    }
  }

  lemma {:induction false} RebuiltLength(prior: seq<Byte>, pos: int, blocks: seq<Block>)
    ensures |Rebuilt(prior, pos, blocks)| == Length(blocks)
    decreases |blocks|
  {
    if blocks != [] {
      RebuiltLength(prior, pos + |blocks[0].diff| + blocks[0].seek, blocks[1..]);
    }
  }

  /** The blocks rebuild `target` without gap or overlap, and only the last of them reaches its end. */
  ghost predicate Tiles(prior: seq<Byte>, target: seq<Byte>, blocks: seq<Block>) {
    && AllCodable(blocks)
    && Rebuilt(prior, 0, blocks) == target
    && (forall k :: 0 <= k < |blocks| ==> Length(blocks[..k]) < |target|)
  }

  /** Where bytes go; a write may fail at any time. */
  class PatchSink {
    var bytes: seq<Byte>
    /** No write ever fails. */
    const reliable: bool

    constructor (reliable: bool)
      ensures bytes == [] && this.reliable == reliable
    {
      bytes := [];
      this.reliable := reliable;
    }

    method Write(chunk: seq<Byte>) returns (r: int)
      modifies this
      ensures r == 0 || (r == -1 && !reliable)
      ensures r == 0 ==> bytes == old(bytes) + chunk
    {
      var ok: bool := *;
      if ok || reliable {
        bytes := bytes + chunk;
        r := 0;
      } else {
        r := -1;
      }
    }
  }

  /** Write buffer[..length] in chunks of at most INT_MAX bytes. */
  method WriteData(sink: PatchSink, buffer: array<Byte>, length: int) returns (result: int)
    requires 0 <= length <= buffer.Length
    modifies sink
    ensures result == 0 || (result == -1 && !sink.reliable)
    ensures result == 0 ==> sink.bytes == old(sink.bytes) + buffer[..length]
  {
    result := 0;
    var done := 0;
    while done < length
      invariant 0 <= done <= length && result == 0
      invariant sink.bytes == old(sink.bytes) + buffer[..done]
    {
      var smallsize := if length - done < INT_MAX then length - done else INT_MAX;
      var writeresult := sink.Write(buffer[done..done + smallsize]);
      if writeresult == -1 {
        return -1;
      }
      assert buffer[..done] + buffer[done..done + smallsize] == buffer[..done + smallsize];
      result := result + writeresult;
      done := done + smallsize;
    }
  }
}
