/** Differencing and patching together. */
module PatchRoundTrip {
  import opened Words
  import opened OffsetCodec
  import opened PatchFormat
  import BsDiff
  import DiffPlan
  import opened BsPatch

  lemma OneBlock(b: Block)
    ensures IntSized([b]) <==> Small(b)
  {
    assert b in [b];
  }

  /** Whatever the differ writes, patching rebuilds the target from it and leaves nothing unread, as long as no block is
      longer than an int can say, which a target of at most INT_MAX bytes guarantees.  Below 2^32 bytes that is exact;
      without a prior file the only block is the whole target, so a target above INT_MAX bytes is rejected. */
  method DiffThenPatch(prior: seq<Byte>, target: seq<Byte>)
    returns (r: PatchResult, out: seq<Byte>, unread: seq<Byte>, ghost blocks: seq<Block>)
    requires |prior| < LIMIT && |target| < LIMIT
    ensures |target| <= INT_MAX ==> r.Done? && out == target && unread == []
    ensures r.Done? && |target| < UINT_SPAN ==> out == target && unread == []
    ensures prior == [] && |target| < UINT_SPAN ==> (r.Done? <==> |target| <= INT_MAX)
    ensures Tiles(prior, target, blocks)
    ensures prior == target && target != [] ==> DiffPlan.NoChange(blocks)
    ensures IntSized(blocks) ==> r.Done? && out == target && unread == []
    ensures |target| < UINT_SPAN ==> (r.Done? <==> IntSized(blocks))
  {
    hide Tiles, IntSized, Bytes, Take, Rebuilt, DiffPlan.NoChange, DiffPlan.Scanned, BsDiff.Written, AllCodable;
    var sink := new PatchSink(true);
    var d;
    d, blocks := BsDiff.Diff(prior, target, sink);
    WrittenAlone(sink.bytes, blocks);
    Replays(prior, target, blocks);
    OneBlock(Block([], target, 0));
    var source := new PatchSource(sink.bytes);
    var newff := new Byte[|target|];
    r := Patch(prior, newff, |target|, source);
    out, unread := newff[..], source.rest;
  }

  lemma WrittenAlone(bytes: seq<Byte>, blocks: seq<Block>)
    requires BsDiff.Written([], bytes, blocks)
    ensures AllCodable(blocks) && bytes == Bytes(blocks)
  {
    hide Bytes, AllCodable;
    assert [] + Bytes(blocks) == Bytes(blocks);
  }

  /** How the bytes of a patch are taken. */
  lemma Replays(prior: seq<Byte>, target: seq<Byte>, blocks: seq<Block>)
    requires Tiles(prior, target, blocks)
    ensures AllCodable(blocks) && Rebuilt(prior, 0, blocks) == target
    ensures |target| <= INT_MAX ==> IntSized(blocks)
    ensures IntSized(blocks) ==> Take(Bytes(blocks), |target|) == Taking(Done, blocks, [], true)
    ensures !IntSized(blocks) && |target| < UINT_SPAN ==> Take(Bytes(blocks), |target|).r.Rejected?
  {
    assert AllCodable(blocks) && Rebuilt(prior, 0, blocks) == target;
    hide Tiles, IntSized, Bytes, Take, Rebuilt, AllCodable;
    assert Bytes(blocks) + [] == Bytes(blocks);
    if |target| <= INT_MAX {
      TilesIntSized(prior, target, blocks);
    }
    if IntSized(blocks) {
      TilesTaken(prior, target, blocks, []);
    } else if |target| < UINT_SPAN {
      TilesRejected(prior, target, blocks, []);
    }
  }
}
