/** Applying a patch: replay its blocks against the prior file. */
module BsPatch {
  import opened Sequences
  import opened Words
  import opened OffsetCodec
  import opened PatchFormat

  /** The number of values of a 32-bit int. */
  const UINT_SPAN: int := 0x1_0000_0000

  /** Conversion of a 64-bit length to the int parameter of a read. */
  function ToInt(x: int): (r: int)
    ensures -INT_MAX - 1 <= r <= INT_MAX
    ensures -INT_MAX - 1 <= x <= INT_MAX ==> r == x
    ensures 0 <= x ==> r <= x
    ensures INT_MAX < x < UINT_SPAN ==> r < 0
  {
    (x + INT_MAX + 1) % (2 * (INT_MAX + 1)) - (INT_MAX + 1)
  }

  /** Where bytes come from; a read fails when too few are left or the length is negative. */
  class PatchSource {
    var rest: seq<Byte>

    constructor (bytes: seq<Byte>)
      ensures rest == bytes
    {
      rest := bytes;
    }

    method Read(buffer: array<Byte>, at: int, length: int) returns (r: int)
      requires 0 <= length ==> 0 <= at && at + length <= buffer.Length
      modifies this, buffer
      ensures r == if 0 <= length <= |old(rest)| then 0 else -1
      ensures r == 0 ==> rest == old(rest)[length..] && buffer[at..at + length] == old(rest)[..length]
      ensures forall i :: 0 <= i < buffer.Length && !(at <= i < at + length) ==> buffer[i] == old(buffer[i])
      ensures |rest| <= |old(rest)|
    {
      if length < 0 {
        return -1;
      }
      var n := if length <= |rest| then length else |rest|;
      for i := 0 to n
        invariant rest == old(rest)
        invariant forall k :: 0 <= k < i ==> buffer[at + k] == rest[k]
        invariant forall k :: 0 <= k < buffer.Length && !(at <= k < at + i) ==> buffer[k] == old(buffer[k])
      {
        buffer[at + i] := rest[i];
      }
      rest := rest[n..];
      r := if n == length then 0 else -1;
    }
  }

  /** NegativeLength: the stream asks for a negative length that fits no int; the model stops there. */
  datatype PatchResult = Done | Rejected | NegativeLength

  /** Block lengths that survive the conversion to int. */
  ghost predicate Small(b: Block) {
    |b.diff| <= INT_MAX && |b.extra| <= INT_MAX
  }

  ghost predicate IntSized(blocks: seq<Block>) {
    forall b :: b in blocks ==> Small(b)
  }

  /** The next eight bytes as a control number. */
  method ReadNumber(source: PatchSource) returns (ok: bool, v: int)
    modifies source
    ensures ok <==> 8 <= |old(source.rest)|
    ensures ok ==> v == OffTIn(old(source.rest)[..8]) && source.rest == old(source.rest)[8..]
  {
    var buf := new Byte[8];
    var r := source.Read(buf, 0, 8);
    ok := r == 0;
    v := 0;
    if ok {
      assert buf[0..8] == buf[..];
      v := OffTIn(buf[..]);
    }
  }

  /** newff[at..at+n] += prior[oldpos..], where the prior file has bytes. */
  method AddPrior(prior: seq<Byte>, newff: array<Byte>, at: int, oldpos: int, n: int)
    requires 0 <= at <= at + n <= newff.Length
    modifies newff
    ensures newff[at..at + n] == Added(prior, oldpos, old(newff[at..at + n]))
    ensures newff[..at] == old(newff[..at])
  {
    ghost var sum := Added(prior, oldpos, newff[at..at + n]);
    for i := 0 to n
      invariant forall k :: at <= k < at + i ==> newff[k] == sum[k - at]
      invariant forall k :: 0 <= k < newff.Length && !(at <= k < at + i) ==> newff[k] == old(newff[k])
    {
      if oldpos + i >= 0 && oldpos + i < |prior| {
        newff[at + i] := ((newff[at + i] as int) + prior[oldpos + i]) % 256;
      }
    }
  }

  /** What reading `length` bytes comes to when `left` are left, after the length has become an int: a negative length
      that turns into a positive one would be read behind the sanity checks. */
  function ReadOutcome(length: int, left: nat): PatchResult {
    if length < 0 <= ToInt(length) then NegativeLength else if 0 <= ToInt(length) <= left then Done else Rejected
  }

  /** Read `length` bytes to newff[newpos..], after the length has become an int. */
  method ReadInto(source: PatchSource, newff: array<Byte>, newpos: int, newsize: int, length: int)
    returns (r: PatchResult)
    requires 0 <= newpos <= newsize <= newff.Length && newpos + length <= newsize
    modifies source, newff
    ensures r == ReadOutcome(length, |old(source.rest)|)
    ensures r.NegativeLength? <==> length < 0 <= ToInt(length)
    ensures newff[..newpos] == old(newff[..newpos])
    ensures r.Done? ==>
      var n := ToInt(length); source.rest == old(source.rest)[n..] && newff[newpos..newpos + n] == old(source.rest)[..n]
  {
    var n := ToInt(length);
    if length < 0 && n >= 0 {
      return NegativeLength;
    }
    var e := source.Read(newff, newpos, n);
    r := if e != 0 then Rejected else Done;
  }

  /** Read the difference bytes and add the prior file to them. */
  method ReplayDiff(prior: seq<Byte>, newff: array<Byte>, newpos: int, newsize: int, oldpos: int, length: int,
                    source: PatchSource) returns (r: PatchResult)
    requires 0 <= newpos <= newsize <= newff.Length && newpos + length <= newsize
    modifies source, newff
    ensures r == ReadOutcome(length, |old(source.rest)|)
    ensures r.Done? ==> source.rest == old(source.rest)[ToInt(length)..]
    ensures r.Done? && length <= INT_MAX ==>
      newff[..newpos + length] == old(newff[..newpos]) + Added(prior, oldpos, old(source.rest)[..length])
  {
    hide Added;
    r := ReadInto(source, newff, newpos, newsize, length);
    if r.Done? {
      AddPrior(prior, newff, newpos, oldpos, length);
      assert newff[..newpos + length] == newff[..newpos] + newff[newpos..newpos + length];
    }
  }

  /** The stream starts with these three control numbers. */
  ghost predicate ControlOf(stream: seq<Byte>, c0: int, c1: int, c2: int, rest: seq<Byte>) {
    && |stream| >= 24 && rest == stream[24..]
    && c0 == OffTIn(stream[..8]) && c1 == OffTIn(stream[8..16]) && c2 == OffTIn(stream[16..24])
  }

  /** The stream starts with this block, however its numbers are coded. */
  ghost predicate StartsWith(stream: seq<Byte>, b: Block, rest: seq<Byte>) {
    ControlOf(stream, |b.diff|, |b.extra|, b.seek, b.diff + (b.extra + rest))
  }

  /** The stream starts with these blocks. */
  ghost predicate Parsed(stream: seq<Byte>, blocks: seq<Block>, rest: seq<Byte>)
    decreases |blocks|
  {
    if blocks == [] then stream == rest
    else exists mid :: StartsWith(stream, blocks[0], mid) && Parsed(mid, blocks[1..], rest)
  }

  lemma ThreeNumbers(s: seq<Byte>, s1: seq<Byte>, s2: seq<Byte>, s3: seq<Byte>)
    requires |s| >= 24 && s1 == s[8..] && s2 == s1[8..] && s3 == s2[8..]
    ensures ControlOf(s, OffTIn(s[..8]), OffTIn(s1[..8]), OffTIn(s2[..8]), s3)
  {
    hide OffTIn;
    assert s1[..8] == s[8..16] && s2[..8] == s[16..24] && s3 == s[24..];
  }

  /** The three control numbers of a block. */
  method ReadControl(source: PatchSource) returns (ok: bool, c0: int, c1: int, c2: int)
    modifies source
    ensures ok <==> |old(source.rest)| >= 24
    ensures ok ==> ControlOf(old(source.rest), c0, c1, c2, source.rest) && |source.rest| < |old(source.rest)|
  {
    hide OffTIn, ControlOf;
    c1, c2 := 0, 0;
    ok, c0 := ReadNumber(source);
    if !ok {
      return;
    }
    ghost var s1 := source.rest;
    ok, c1 := ReadNumber(source);
    if !ok {
      return;
    }
    ghost var s2 := source.rest;
    ok, c2 := ReadNumber(source);
    if ok {
      ThreeNumbers(old(source.rest), s1, s2, source.rest);
    }
  }

  /** The code of a block is one way of starting with it. */
  lemma CodedStarts(b: Block, more: seq<Byte>)
    requires Codable(b)
    ensures StartsWith(BlockBytes(b) + more, b, more)
  {
    var s := BlockBytes(b) + more;
    CodeRoundTrip(|b.diff|);
    CodeRoundTrip(|b.extra|);
    CodeRoundTrip(b.seek);
    CodedParts(Coded(|b.diff|), Coded(|b.extra|), Coded(b.seek), b.diff, b.extra, more);
    hide OffTIn, Coded;
  }

  lemma CodedParts(a: seq<Byte>, b: seq<Byte>, c: seq<Byte>, d: seq<Byte>, e: seq<Byte>, more: seq<Byte>)
    requires |a| == |b| == |c| == 8
    ensures var s := a + b + c + d + e + more;
            s[..8] == a && s[8..16] == b && s[16..24] == c && s[24..] == d + (e + more)
  {
  }

  /** The next block of a stream, or why there is none. */
  datatype Reading = Stop(r: PatchResult) | Got(block: Block, rest: seq<Byte>, advance: int, plain: bool)

  /** The bytes of a block for which c0 and c1 ask, with `room` left in the buffer.  Plain: both lengths fit an int. */
  ghost function ReadBody(body: seq<Byte>, room: int, c0: int, c1: int, c2: int): Reading {
    if c0 > room then Stop(Rejected)
    else if !ReadOutcome(c0, |body|).Done? then Stop(ReadOutcome(c0, |body|))
    else
      var rest := body[ToInt(c0)..];
      if c0 + c1 > room then Stop(Rejected)
      else if !ReadOutcome(c1, |rest|).Done? then Stop(ReadOutcome(c1, |rest|))
      else Got(Block(body[..ToInt(c0)], rest[..ToInt(c1)], c2), rest[ToInt(c1)..], c0 + c1, c0 <= INT_MAX
           && c1 <= INT_MAX)
  }

  ghost function ReadBlock(stream: seq<Byte>, room: int): Reading {
    if |stream| < 24 then Stop(Rejected)
    else ReadBody(stream[24..], room, OffTIn(stream[..8]), OffTIn(stream[8..16]), OffTIn(stream[16..24]))
  }

  /** How a whole stream is taken, and into which blocks. */
  datatype Taking = Taking(r: PatchResult, blocks: seq<Block>, rest: seq<Byte>, plain: bool)

  lemma GotLess(stream: seq<Byte>, room: int)
    ensures match ReadBlock(stream, room) case Stop(r) => !r.Done? case Got(_, rest, _, _) => |rest| < |stream|
  {
    hide OffTIn, ToInt;
  }

  /** Read blocks until the room is filled. */
  ghost function Take(stream: seq<Byte>, room: int): Taking
    decreases |stream|
  {
    if room <= 0 then Taking(Done, [], stream, true)
    else
      GotLess(stream, room);
      match ReadBlock(stream, room)
      case Stop(r) => Taking(r, [], stream, true)
      case Got(b, rest, advance, plain) =>
        var later := Take(rest, room - advance);
        Taking(later.r, [b] + later.blocks, later.rest, plain && later.plain)
  }

  lemma TakeGot(stream: seq<Byte>, room: int, g: Reading)
    requires room > 0 && g == ReadBlock(stream, room)
    ensures g.Stop? ==> !g.r.Done? && Take(stream, room) == Taking(g.r, [], stream, true)
    ensures g.Got? ==>
      var later := Take(g.rest, room - g.advance);
      |g.rest| < |stream|
      && Take(stream, room) == Taking(later.r, [g.block] + later.blocks, later.rest, g.plain && later.plain)
  {
    GotLess(stream, room);
    hide ReadBlock;
  }

  lemma TakeNothing(stream: seq<Byte>, room: int)
    requires room <= 0
    ensures Take(stream, room) == Taking(Done, [], stream, true)
  {
  }

  /** The bytes of a block: both sanity checks, difference bytes and extra bytes. */
  method ReplayBody(prior: seq<Byte>, newff: array<Byte>, newsize: int, newpos: int, oldpos: int, c0: int, c1: int,
                    ghost c2: int, source: PatchSource) returns (r: PatchResult)
    requires 0 <= newpos <= newsize <= newff.Length
    modifies source, newff
    ensures match ReadBody(old(source.rest), newsize - newpos, c0, c1, c2)
            case Stop(r') => r == r' && !r.Done?
            case Got(b, rest, advance, plain) =>
              && r.Done? && source.rest == rest && 0 <= c0 && 0 <= c1 && advance == c0 + c1
                 && newpos + advance <= newsize
              && (plain ==>
                    newff[..newpos + advance] == old(newff[..newpos]) + (Added(prior, oldpos, b.diff) + b.extra))
  {
    hide Added, ToInt;
    if newpos + c0 > newsize {
      return Rejected;
    }
    r := ReplayDiff(prior, newff, newpos, newsize, oldpos, c0, source);
    if !r.Done? || newpos + c0 + c1 > newsize {
      return if r.Done? then Rejected else r;
    }
    ghost var done := newff[..newpos + c0];
    r := ReadInto(source, newff, newpos + c0, newsize, c1);
    if r.Done? && c0 <= INT_MAX && c1 <= INT_MAX {
      assert newff[..newpos + c0 + c1] == done + newff[newpos + c0..newpos + c0 + c1];
      Associate(old(newff[..newpos]), Added(prior, oldpos, old(source.rest)[..c0]),
        newff[newpos + c0..newpos + c0 + c1]);
    }
  }

  /** Replay the next block of the stream. */
  method ReplayBlock(prior: seq<Byte>, newff: array<Byte>, newsize: int, newpos: int, oldpos: int, source: PatchSource)
    returns (r: PatchResult, newpos': int, oldpos': int)
    requires 0 <= newpos < newsize <= newff.Length
    modifies source, newff
    ensures match ReadBlock(old(source.rest), newsize - newpos)
            case Stop(r') => r == r' && !r.Done?
            case Got(b, rest, advance, plain) =>
              && r.Done? && source.rest == rest && newpos <= newpos' == newpos + advance <= newsize
              && (plain ==>
                    && newff[..newpos'] == old(newff[..newpos]) + (Added(prior, oldpos, b.diff) + b.extra)
                    && oldpos' == oldpos + |b.diff| + b.seek)
  {
    newpos', oldpos' := newpos, oldpos;
    var ok, c0, c1, c2 := ReadControl(source);
    if !ok {
      return Rejected, newpos, oldpos;
    }
    assert ReadBlock(old(source.rest), newsize - newpos) == ReadBody(source.rest, newsize - newpos, c0, c1, c2);
    hide Added, OffTIn, ToInt;
    r := ReplayBody(prior, newff, newsize, newpos, oldpos, c0, c1, c2, source);
    if r.Done? {
      newpos' := newpos + c0 + c1;
      oldpos' := oldpos + c0 + c2;
    }
  }

  /** What is still to be taken completes what has been seen. */
  ghost predicate Ahead(all: Taking, seen: seq<Block>, plain: bool, later: Taking) {
    all == Taking(later.r, seen + later.blocks, later.rest, plain && later.plain)
  }

  lemma AheadNext(all: Taking, seen: seq<Block>, plain: bool, stream: seq<Byte>, room: int)
    requires room > 0 && Ahead(all, seen, plain, Take(stream, room))
    ensures match ReadBlock(stream, room)
            case Stop(r) => all.r == r
            case Got(b, rest, advance, p) => Ahead(all, seen + [b], plain && p, Take(rest, room - advance))
  {
    hide ReadBlock, Take;
    var g := ReadBlock(stream, room);
    TakeGot(stream, room, g);
    if g.Got? {
      var later := Take(g.rest, room - g.advance);
      Associate(seen, [g.block], later.blocks);
      assert all.blocks == (seen + [g.block]) + later.blocks;
    }
  }

  /** The buffer and the position in the prior file after these blocks. */
  ghost predicate Replayed(prior: seq<Byte>, blocks: seq<Block>, done: seq<Byte>, oldpos: int) {
    done == Rebuilt(prior, 0, blocks) && oldpos == Drift(blocks)
  }

  lemma ReplayedNext(prior: seq<Byte>, blocks: seq<Block>, done: seq<Byte>, oldpos: int, b: Block, done': seq<Byte>,
                     oldpos': int)
    requires Replayed(prior, blocks, done, oldpos)
    requires done' == done + (Added(prior, oldpos, b.diff) + b.extra) && oldpos' == oldpos + |b.diff| + b.seek
    ensures Replayed(prior, blocks + [b], done', oldpos')
  {
    RebuiltAppend(prior, 0, blocks, b);
    Associate(done, Added(prior, oldpos, b.diff), b.extra);
    hide Rebuilt, Drift, Added;
  }

  /** One round of the loop. */
  method ReplayNext(prior: seq<Byte>, newff: array<Byte>, newsize: int, newpos: int, oldpos: int, source: PatchSource,
                    ghost all: Taking, ghost seen: seq<Block>, ghost plain: bool)
    returns (r: PatchResult, newpos': int, oldpos': int, ghost seen': seq<Block>, ghost plain': bool)
    requires 0 <= newpos < newsize <= newff.Length
    requires Ahead(all, seen, plain, Take(source.rest, newsize - newpos))
    requires plain ==> Replayed(prior, seen, newff[..newpos], oldpos)
    modifies source, newff
    ensures !r.Done? ==> all.r == r
    ensures r.Done? ==> newpos <= newpos' <= newsize && |source.rest| < |old(source.rest)|
    ensures r.Done? ==> Ahead(all, seen', plain', Take(source.rest, newsize - newpos'))
    ensures r.Done? && plain' ==> Replayed(prior, seen', newff[..newpos'], oldpos')
  {
    hide Ahead, Replayed, Take, ReadBlock, Added;
    AheadNext(all, seen, plain, source.rest, newsize - newpos);
    GotLess(source.rest, newsize - newpos);
    ghost var step := ReadBlock(source.rest, newsize - newpos);
    r, newpos', oldpos' := ReplayBlock(prior, newff, newsize, newpos, oldpos, source);
    seen', plain' := seen, plain;
    if step.Got? {
      seen', plain' := seen + [step.block], plain && step.plain;
      if plain' {
        ReplayedNext(prior, seen, old(newff[..newpos]), oldpos, step.block, newff[..newpos'], oldpos');
      }
    }
  }

  /** Fill newff[..newsize] from the stream: exactly as the stream is taken, and when all lengths fit an int the buffer
      holds what the blocks rebuild. */
  method Patch(prior: seq<Byte>, newff: array<Byte>, newsize: int, source: PatchSource) returns (r: PatchResult)
    requires 0 <= newsize <= newff.Length
    modifies source, newff
    ensures var all := Take(old(source.rest), newsize);
            && r == all.r
            && (r.Done? ==> source.rest == all.rest)
            && (r.Done? && all.plain ==> newff[..newsize] == Rebuilt(prior, 0, all.blocks))
  {
    ghost var all := Take(source.rest, newsize);
    ghost var seen, plain := [], true;
    var oldpos, newpos := 0, 0;
    assert newff[..0] == [] && [] + all.blocks == all.blocks;
    assert Replayed(prior, seen, newff[..0], 0) && Ahead(all, seen, plain, Take(source.rest, newsize));
    hide Replayed, Ahead, Take;
    while newpos < newsize
      invariant 0 <= newpos <= newsize && Ahead(all, seen, plain, Take(source.rest, newsize - newpos))
      invariant plain ==> Replayed(prior, seen, newff[..newpos], oldpos)
      decreases |source.rest|
    {
      r, newpos, oldpos, seen, plain := ReplayNext(prior, newff, newsize, newpos, oldpos, source, all, seen, plain);
      if !r.Done? {
        return;
      }
    }
    r := Done;
    AllTaken(all, seen, plain, source.rest, newsize - newpos);
    if plain {
      ReplayedAll(prior, seen, newff[..newsize], oldpos);
    }
  }

  lemma AllTaken(all: Taking, seen: seq<Block>, plain: bool, stream: seq<Byte>, room: int)
    requires room <= 0 && Ahead(all, seen, plain, Take(stream, room))
    ensures all == Taking(Done, seen, stream, plain)
  {
    TakeNothing(stream, room);
    hide Take;
    assert seen + [] == seen;
  }

  lemma ReplayedAll(prior: seq<Byte>, blocks: seq<Block>, done: seq<Byte>, oldpos: int)
    requires Replayed(prior, blocks, done, oldpos)
    ensures done == Rebuilt(prior, 0, blocks)
  {
  }

  /** Below 2^32 bytes success means that every length fits an int. */
  lemma {:induction false} TakePlain(stream: seq<Byte>, room: int)
    requires room < UINT_SPAN
    ensures Take(stream, room).r.Done? ==> Take(stream, room).plain
    decreases |stream|
  {
    hide Take, ReadBlock;
    if room > 0 {
      var g := ReadBlock(stream, room);
      BlockPlain(stream, room);
      TakeGot(stream, room, g);
      if g.Got? {
        TakePlain(g.rest, room - g.advance);
      }
    } else {
      TakeNothing(stream, room);
    }
  }

  lemma BlockPlain(stream: seq<Byte>, room: int)
    requires room < UINT_SPAN
    ensures ReadBlock(stream, room).Got? ==> ReadBlock(stream, room).plain && 0 <= ReadBlock(stream, room).advance
  {
    hide OffTIn, ToInt;
  }

  /** No block starts where the room is already filled. */
  ghost predicate Leaves(blocks: seq<Block>, room: int) {
    Length(blocks) <= room && forall k :: 0 <= k < |blocks| ==> Length(blocks[..k]) < room
  }

  /** The blocks start the stream, fit an int each, and fill the room with their last one. */
  ghost predicate Fills(stream: seq<Byte>, blocks: seq<Block>, rest: seq<Byte>, room: int) {
    Parsed(stream, blocks, rest) && IntSized(blocks) && Length(blocks) == room && Leaves(blocks, room)
  }

  lemma PrefixLengths(blocks: seq<Block>, room: int)
    requires blocks != []
    ensures (forall k :: 0 <= k < |blocks| ==> Length(blocks[..k]) < room) <==>
            0 < room && forall k :: 0 <= k < |blocks[1..]| ==>
              Length(blocks[1..][..k]) < room - |blocks[0].diff| - |blocks[0].extra|
  {
    assert Length(blocks[..0]) == 0;
    forall k | 0 <= k < |blocks[1..]|
      ensures Length(blocks[..k + 1]) == |blocks[0].diff| + |blocks[0].extra| + Length(blocks[1..][..k])
    {
      assert blocks[..k + 1][1..] == blocks[1..][..k];
    }
    forall k | 0 < k < |blocks|
      ensures Length(blocks[..k]) == |blocks[0].diff| + |blocks[0].extra| + Length(blocks[1..][..k - 1])
    {
      assert blocks[..k][1..] == blocks[1..][..k - 1];
    }
  }

  /** A block at the start of the stream is read exactly when it fits the room and its lengths fit an int. */
  lemma StartsRead(stream: seq<Byte>, b: Block, rest: seq<Byte>, room: int)
    requires StartsWith(stream, b, rest) && |b.diff| + |b.extra| <= room
    ensures Small(b) ==> ReadBlock(stream, room) == Got(b, rest, |b.diff| + |b.extra|, true)
    ensures !Small(b) && room < UINT_SPAN ==> ReadBlock(stream, room) == Stop(Rejected)
  {
    var body := b.diff + (b.extra + rest);
    assert ReadBlock(stream, room) == ReadBody(body, room, |b.diff|, |b.extra|, b.seek);
    assert body[..|b.diff|] == b.diff && body[|b.diff|..] == b.extra + rest;
    assert (b.extra + rest)[..|b.extra|] == b.extra && (b.extra + rest)[|b.extra|..] == rest;
    hide ToInt, ReadBlock, OffTIn;
  }

  lemma ReadStarts(stream: seq<Byte>, room: int)
    requires ReadBlock(stream, room).Got? && ReadBlock(stream, room).plain
    ensures var g := ReadBlock(stream, room);
            StartsWith(stream, g.block, g.rest) && Small(g.block)
            && g.advance == |g.block.diff| + |g.block.extra| <= room
  {
    var c0, c1, c2 := OffTIn(stream[..8]), OffTIn(stream[8..16]), OffTIn(stream[16..24]);
    hide OffTIn, ToInt;
    var body := stream[24..];
    var rest := body[c0..];
    assert body == body[..c0] + rest && rest == rest[..c1] + rest[c1..];
  }

  ghost function Span(b: Block): nat {
    |b.diff| + |b.extra|
  }

  lemma FillsCons(stream: seq<Byte>, b: Block, mid: seq<Byte>, more: seq<Block>, rest: seq<Byte>, room: int)
    requires StartsWith(stream, b, mid) && Small(b) && 0 < room && Fills(mid, more, rest, room - Span(b))
    ensures Fills(stream, [b] + more, rest, room)
  {
    hide StartsWith, Small;
    var blocks := [b] + more;
    assert blocks[0] == b && blocks[1..] == more;
    PrefixLengths(blocks, room);
    assert Parsed(stream, blocks, rest) && Length(blocks) == room;
    hide Parsed, Length;
  }

  lemma IntSizedFirst(blocks: seq<Block>)
    requires blocks != []
    ensures IntSized(blocks) <==> Small(blocks[0]) && IntSized(blocks[1..])
  {
    hide Small;
    assert blocks == [blocks[0]] + blocks[1..];
  }

  lemma ParsedTail(stream: seq<Byte>, blocks: seq<Block>, rest: seq<Byte>, room: int) returns (mid: seq<Byte>)
    requires Parsed(stream, blocks, rest) && Leaves(blocks, room) && blocks != []
    ensures StartsWith(stream, blocks[0], mid) && 0 < room && Span(blocks[0]) <= room
    ensures Parsed(mid, blocks[1..], rest) && Leaves(blocks[1..], room - Span(blocks[0]))
    ensures Length(blocks) == Span(blocks[0]) + Length(blocks[1..])
  {
    hide StartsWith;
    PrefixLengths(blocks, room);
    mid :| StartsWith(stream, blocks[0], mid) && Parsed(mid, blocks[1..], rest);
    assert Length(blocks) == Span(blocks[0]) + Length(blocks[1..]);
    hide Parsed, Length;
  }

  lemma FillsTail(stream: seq<Byte>, blocks: seq<Block>, rest: seq<Byte>, room: int) returns (mid: seq<Byte>)
    requires Fills(stream, blocks, rest, room) && blocks != []
    ensures StartsWith(stream, blocks[0], mid) && Small(blocks[0]) && 0 < room && Span(blocks[0]) <= room
    ensures Fills(mid, blocks[1..], rest, room - Span(blocks[0]))
  {
    hide StartsWith, Small, Parsed, Length;
    mid := ParsedTail(stream, blocks, rest, room);
    IntSizedFirst(blocks);
  }

  /** Which streams are accepted, and as what: exactly those that start with blocks, however coded, that fit an int each
      and fill the buffer with their last one. */
  lemma {:induction false} TakeFills(stream: seq<Byte>, room: int)
    requires 0 <= room
    ensures var t := Take(stream, room); t.r.Done? && t.plain ==> Fills(stream, t.blocks, t.rest, room)
    decreases |stream|
  {
    hide Take, ReadBlock;
    if room > 0 {
      var g, t := ReadBlock(stream, room), Take(stream, room);
      TakeGot(stream, room, g);
      if g.Got? && t.r.Done? && t.plain {
        ReadStarts(stream, room);
        TakeFills(g.rest, room - g.advance);
        hide StartsWith, Small, Fills;
        FillsCons(stream, g.block, g.rest, Take(g.rest, room - g.advance).blocks, t.rest, room);
      }
    } else {
      TakeNothing(stream, room);
    }
  }

  lemma {:induction false} FillsTaken(stream: seq<Byte>, blocks: seq<Block>, rest: seq<Byte>, room: int)
    requires Fills(stream, blocks, rest, room)
    ensures Take(stream, room) == Taking(Done, blocks, rest, true)
    decreases |blocks|
  {
    hide Take, ReadBlock;
    if blocks == [] {
      TakeNothing(stream, room);
    } else {
      var b := blocks[0];
      var mid := FillsTail(stream, blocks, rest, room);
      hide StartsWith, Small, Fills;
      StartsRead(stream, b, mid, room);
      TakeGot(stream, room, Got(b, mid, Span(b), true));
      FillsTaken(mid, blocks[1..], rest, room - Span(b));
      assert [b] + blocks[1..] == blocks;
    }
  }

  /** Below 2^32 bytes a stream is accepted exactly when some blocks at its start fill the buffer. */
  lemma AcceptsIff(stream: seq<Byte>, room: int)
    requires 0 <= room < UINT_SPAN
    ensures Take(stream, room).r.Done? <==> exists blocks, rest :: Fills(stream, blocks, rest, room)
  {
    hide Take, Fills;
    TakePlain(stream, room);
    TakeFills(stream, room);
    if blocks, rest :| Fills(stream, blocks, rest, room) {
      FillsTaken(stream, blocks, rest, room);
    }
  }

  /** A negative length whose conversion to int is not negative. */
  predicate Turns(length: int) {
    length < 0 <= ToInt(length)
  }

  /** The next block asks for such a length, behind a sound difference part if it is the second one. */
  ghost predicate AsksNegative(stream: seq<Byte>, room: int) {
    && |stream| >= 24
    && var c0, c1 := OffTIn(stream[..8]), OffTIn(stream[8..16]);
       Turns(c0) || (Turns(c1) && 0 <= c0 <= room && c0 <= INT_MAX && c0 <= |stream| - 24)
  }

  lemma NegativeBlock(stream: seq<Byte>, room: int)
    requires 0 < room < UINT_SPAN
    ensures ReadBlock(stream, room) == Stop(NegativeLength) <==> AsksNegative(stream, room)
  {
    hide OffTIn, ToInt;
  }

  /** The stream starts with blocks that fit an int each and leave room, and then asks for a negative length. */
  ghost predicate GoesNegative(stream: seq<Byte>, room: int, blocks: seq<Block>, mid: seq<Byte>) {
    Parsed(stream, blocks, mid) && IntSized(blocks) && Length(blocks) < room && AsksNegative(mid, room - Length(blocks))
  }

  lemma NegativeCons(stream: seq<Byte>, room: int, b: Block, rest: seq<Byte>, blocks: seq<Block>, mid: seq<Byte>)
    requires StartsWith(stream, b, rest) && Small(b) && GoesNegative(rest, room - Span(b), blocks, mid)
    ensures GoesNegative(stream, room, [b] + blocks, mid)
  {
    hide StartsWith, Small, AsksNegative;
    assert ([b] + blocks)[1..] == blocks;
  }

  lemma NegativeTail(stream: seq<Byte>, room: int, blocks: seq<Block>, mid: seq<Byte>) returns (rest: seq<Byte>)
    requires GoesNegative(stream, room, blocks, mid) && blocks != []
    ensures StartsWith(stream, blocks[0], rest) && Small(blocks[0]) && Span(blocks[0]) <= room
    ensures GoesNegative(rest, room - Span(blocks[0]), blocks[1..], mid)
  {
    hide StartsWith, Small, AsksNegative;
    assert blocks[0] in blocks;
    rest :| StartsWith(stream, blocks[0], rest) && Parsed(rest, blocks[1..], mid);
    assert Length(blocks) == Span(blocks[0]) + Length(blocks[1..]);
  }

  /** Below 2^32 bytes patching meets a negative length exactly when the stream asks for one behind sound blocks that
      leave room; every stream that neither fills the buffer nor does so is rejected. */
  lemma {:induction false} NegativeIff(stream: seq<Byte>, room: int)
    requires 0 <= room < UINT_SPAN
    ensures Take(stream, room).r.NegativeLength? <==> exists blocks, mid :: GoesNegative(stream, room, blocks, mid)
    decreases |stream|
  {
    if Take(stream, room).r.NegativeLength? {
      var blocks, mid := TakeNegative(stream, room);
    }
    hide Take;
    if blocks, mid :| GoesNegative(stream, room, blocks, mid) {
      NegativeTaken(stream, room, blocks, mid);
    }
  }

  lemma {:induction false} TakeNegative(stream: seq<Byte>, room: int) returns (blocks: seq<Block>, mid: seq<Byte>)
    requires 0 <= room < UINT_SPAN && Take(stream, room).r.NegativeLength?
    ensures GoesNegative(stream, room, blocks, mid)
    decreases |stream|
  {
    hide Take, ReadBlock, AsksNegative;
    if room == 0 {
      TakeNothing(stream, room);
      assert false;
    }
    var g := ReadBlock(stream, room);
    TakeGot(stream, room, g);
    if g.Stop? {
      NegativeBlock(stream, room);
      return [], stream;
    }
    BlockPlain(stream, room);
    ReadStarts(stream, room);
    blocks, mid := TakeNegative(g.rest, room - g.advance);
    hide GoesNegative, StartsWith, Small;
    NegativeCons(stream, room, g.block, g.rest, blocks, mid);
    blocks := [g.block] + blocks;
  }

  lemma {:induction false} NegativeTaken(stream: seq<Byte>, room: int, blocks: seq<Block>, mid: seq<Byte>)
    requires 0 <= room < UINT_SPAN && GoesNegative(stream, room, blocks, mid)
    ensures Take(stream, room).r.NegativeLength?
    decreases |blocks|
  {
    hide Take, ReadBlock, AsksNegative;
    if blocks == [] {
      NegativeBlock(stream, room);
      TakeGot(stream, room, Stop(NegativeLength));
    } else {
      var b := blocks[0];
      assert 0 < room;
      var rest := NegativeTail(stream, room, blocks, mid);
      hide GoesNegative, StartsWith, Small;
      StartsRead(stream, b, rest, room);
      TakeGot(stream, room, Got(b, rest, Span(b), true));
      NegativeTaken(rest, room - Span(b), blocks[1..], mid);
    }
  }

  /** Such a length exists: one more than minus 2^32 asks for a single byte. */
  lemma NegativeAsked(room: int, tail: seq<Byte>)
    requires 0 < room < UINT_SPAN
    ensures var stream := Coded(1 - UINT_SPAN) + Coded(0) + Coded(0) + tail;
            ToInt(1 - UINT_SPAN) == 1 && Take(stream, room).r.NegativeLength?
  {
    assert ToInt(1 - UINT_SPAN) == 1;
    hide OffTIn, Coded, Take, ToInt;
    CodeRoundTrip(1 - UINT_SPAN);
    var stream := Coded(1 - UINT_SPAN) + Coded(0) + Coded(0) + tail;
    FirstEight(Coded(1 - UINT_SPAN), Coded(0), Coded(0), tail);
    assert AsksNegative(stream, room) && Parsed(stream, [], stream) && Length([]) == 0;
    hide AsksNegative;
    NegativeTaken(stream, room, [], stream);
  }

  lemma FirstEight(a: seq<Byte>, b: seq<Byte>, c: seq<Byte>, tail: seq<Byte>)
    requires |a| == |b| == |c| == 8
    ensures var s := a + b + c + tail; |s| >= 24 && s[..8] == a
  {
  }

  /** A patch for a target is taken as its blocks if their lengths fit an int. */
  lemma {:induction false} CodedParsed(blocks: seq<Block>, tail: seq<Byte>)
    requires AllCodable(blocks)
    ensures Parsed(Bytes(blocks) + tail, blocks, tail)
    decreases |blocks|
  {
    if blocks == [] {
      assert [] + tail == tail;
    } else {
      BytesFirst(blocks, tail);
      var b, mid := blocks[0], Bytes(blocks[1..]) + tail;
      CodedStarts(b, mid);
      CodedParsed(blocks[1..], tail);
      hide StartsWith, BlockBytes, Bytes, Codable;
    }
  }

  lemma BytesFirst(blocks: seq<Block>, tail: seq<Byte>)
    requires blocks != [] && AllCodable(blocks)
    ensures AllCodable(blocks[1..]) && Codable(blocks[0])
    ensures Bytes(blocks) + tail == BlockBytes(blocks[0]) + (Bytes(blocks[1..]) + tail)
  {
    assert blocks[0] in blocks;
    hide BlockBytes, Codable;
  }

  lemma TilesTaken(prior: seq<Byte>, target: seq<Byte>, blocks: seq<Block>, tail: seq<Byte>)
    requires Tiles(prior, target, blocks) && IntSized(blocks)
    ensures Take(Bytes(blocks) + tail, |target|) == Taking(Done, blocks, tail, true)
  {
    CodedParsed(blocks, tail);
    RebuiltLength(prior, 0, blocks);
    hide Parsed, Take, Rebuilt, Bytes;
    FillsTaken(Bytes(blocks) + tail, blocks, tail, |target|);
  }

  /** Below 2^32 bytes a patch with a longer block is rejected. */
  lemma TilesRejected(prior: seq<Byte>, target: seq<Byte>, blocks: seq<Block>, tail: seq<Byte>)
    requires Tiles(prior, target, blocks) && !IntSized(blocks) && |target| < UINT_SPAN
    ensures Take(Bytes(blocks) + tail, |target|).r.Rejected?
  {
    CodedParsed(blocks, tail);
    RebuiltLength(prior, 0, blocks);
    hide Parsed, Take, Rebuilt, Bytes;
    LongRejected(Bytes(blocks) + tail, blocks, tail, |target|);
  }

  lemma {:induction false} LongRejected(stream: seq<Byte>, blocks: seq<Block>, rest: seq<Byte>, room: int)
    requires Parsed(stream, blocks, rest) && !IntSized(blocks) && Leaves(blocks, room) && room < UINT_SPAN
    ensures Take(stream, room).r.Rejected?
    decreases |blocks|
  {
    hide Take, ReadBlock, StartsWith, Small, Parsed, Leaves;
    var b := blocks[0];
    var mid := ParsedTail(stream, blocks, rest, room);
    IntSizedFirst(blocks);
    hide IntSized;
    StartsRead(stream, b, mid, room);
    if Small(b) {
      TakeGot(stream, room, Got(b, mid, Span(b), true));
      LongRejected(mid, blocks[1..], rest, room - Span(b));
    } else {
      TakeGot(stream, room, Stop(Rejected));
    }
  }

  lemma {:induction false} BlockShort(blocks: seq<Block>, b: Block)
    requires b in blocks
    ensures |b.diff| + |b.extra| <= Length(blocks)
    decreases |blocks|
  {
    if b != blocks[0] {
      BlockShort(blocks[1..], b);
    }
  }

  /** Targets of at most INT_MAX bytes only need blocks that fit an int. */
  lemma TilesIntSized(prior: seq<Byte>, target: seq<Byte>, blocks: seq<Block>)
    requires Tiles(prior, target, blocks) && |target| <= INT_MAX
    ensures IntSized(blocks)
  {
    RebuiltLength(prior, 0, blocks);
    forall b | b in blocks ensures Small(b) {
      BlockShort(blocks, b);
    }
  }
}
