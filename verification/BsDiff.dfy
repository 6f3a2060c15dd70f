/** Binary differencing: scan the target for matches in the prior file and write a patch of the planned blocks. */
module BsDiff {
  import opened Words
  import opened SuffixOrder
  import opened SuffixArray
  import opened MatchSearch
  import opened OffsetCodec
  import opened PatchFormat
  import opened DiffPlan

  /** The last match extended forward. */
  method ExtendForward(prior: seq<Byte>, target: seq<Byte>, lastpos: int, lastscan: int, scan: int) returns (lenf: int)
    requires 0 <= lastpos <= |prior| && 0 <= lastscan <= scan <= |target|
    ensures BestForward(prior, target, lastpos, lastscan, scan, lenf)
  {
    var s, Sf, i := 0, 0, 0;
    lenf := 0;
    while lastscan + i < scan && lastpos + i < |prior|
      invariant 0 <= lenf <= i <= scan - lastscan && lastpos + i <= |prior|
      invariant s == Hits(prior, target, lastpos, lastscan, i) && Sf == Hits(prior, target, lastpos, lastscan, lenf)
      invariant forall k :: 0 <= k <= i ==> 2 * Hits(prior, target, lastpos, lastscan, k) - k <= 2 * Sf - lenf
      invariant forall k :: 0 <= k < lenf ==> 2 * Hits(prior, target, lastpos, lastscan, k) - k < 2 * Sf - lenf
    {
      if prior[lastpos + i] == target[lastscan + i] {
        s := s + 1;
      }
      i := i + 1;
      if s * 2 - i > Sf * 2 - lenf {
        Sf := s;
        lenf := i;
      }
    }
  }

  /** The new match extended backward. */
  method ExtendBackward(prior: seq<Byte>, target: seq<Byte>, pos: int, lastscan: int, scan: int) returns (lenb: int)
    requires 0 <= pos <= |prior| && 0 <= lastscan <= scan <= |target|
    ensures BestBackward(prior, target, pos, lastscan, scan, lenb)
  {
    var s, Sb, i := 0, 0, 1;
    lenb := 0;
    while scan >= lastscan + i && pos >= i
      invariant 0 <= lenb < i <= scan - lastscan + 1 && i <= pos + 1
      invariant s == HitsBack(prior, target, pos, scan, i - 1) && Sb == HitsBack(prior, target, pos, scan, lenb)
      invariant forall k :: 0 <= k < i ==> 2 * HitsBack(prior, target, pos, scan, k) - k <= 2 * Sb - lenb
      invariant forall k :: 0 <= k < lenb ==> 2 * HitsBack(prior, target, pos, scan, k) - k < 2 * Sb - lenb
    {
      if prior[pos - i] == target[scan - i] {
        s := s + 1;
      }
      if s * 2 - i > Sb * 2 - lenb {
        Sb := s;
        lenb := i;
      }
      i := i + 1;
    }
  }

  /** Where two overlapping extensions meet. */
  method CutOverlap(prior: seq<Byte>, target: seq<Byte>, a: int, c: int, b: int, overlap: int) returns (lens: int)
    requires 0 <= overlap && 0 <= a && a + overlap <= |prior| && 0 <= c && c + overlap <= |prior| && 0 <= b
    requires b + overlap <= |target|
    ensures BestCut(prior, target, a, c, b, overlap, lens)
  {
    var s, Ss := 0, 0;
    lens := 0;
    for i := 0 to overlap
      invariant 0 <= lens <= i
      invariant s == Hits(prior, target, a, b, i) - Hits(prior, target, c, b, i)
      invariant Ss == Hits(prior, target, a, b, lens) - Hits(prior, target, c, b, lens)
      invariant forall k :: 0 <= k <= i ==> Hits(prior, target, a, b, k) - Hits(prior, target, c, b, k) <= Ss
      invariant forall k :: 0 <= k < lens ==> Hits(prior, target, a, b, k) - Hits(prior, target, c, b, k) < Ss
    {
      if target[b + i] == prior[a + i] {
        s := s + 1;
      }
      if target[b + i] == prior[c + i] {
        s := s - 1;
      }
      if s > Ss {
        Ss := s;
        lens := i + 1;
      }
    }
  }

  /** oldscore counts the aligned bytes of scan..scsc; scsc may lag one byte behind after a byte unknown to the prior
      file. */
  ghost predicate Scored(prior: seq<Byte>, target: seq<Byte>, offset: int, scan: int, scsc: int, oldscore: int) {
    && 0 <= scan <= |target| && 0 <= scsc <= |target| && 0 <= offset + scan && 0 <= offset + scsc
    && (if scan <= scsc then oldscore == AlignedCount(prior, target, offset, scan, scsc)
        else scsc == scan - 1 && oldscore == 0 && !Aligned(prior, target, offset, scsc))
  }

  /** Count the aligned bytes up to the end of the match. */
  method CountAligned(prior: seq<Byte>, target: seq<Byte>, offset: int, scan: int, len: int, scsc0: int, oldscore0: int)
    returns (scsc: int, oldscore: int)
    requires Scored(prior, target, offset, scan, scsc0, oldscore0) && 0 <= len && scan + len <= |target|
    ensures Scored(prior, target, offset, scan, scsc, oldscore)
    ensures scsc == if scsc0 < scan + len then scan + len else scsc0
  {
    scsc, oldscore := scsc0, oldscore0;
    while scsc < scan + len
      invariant Scored(prior, target, offset, scan, scsc, oldscore)
      invariant scsc0 <= scsc && (scsc == scsc0 || scsc <= scan + len)
    {
      if Aligned(prior, target, offset, scsc) {
        oldscore := oldscore + 1;
      }
      scsc := scsc + 1;
    }
  }

  /** Moving on by one byte keeps the count; a byte that matches nothing is not aligned either. */
  lemma ScoredNext(prior: seq<Byte>, target: seq<Byte>, offset: int, scan: int, scsc: int, oldscore: int)
    requires Scored(prior, target, offset, scan, scsc, oldscore) && scan <= scsc && scan < |target|
    requires scsc == scan ==> target[scan] !in prior
    ensures 0 <= scan + offset
    ensures var rest := if Aligned(prior, target, offset, scan) then oldscore - 1 else oldscore;
            0 <= rest && Scored(prior, target, offset, scan + 1, scsc, rest)
  {
    if scan < scsc {
      AlignedSplit(prior, target, offset, scan, scsc);
    }
  }

  /** Search at one position and count how much of the furthest match so far the old alignment gets right. */
  method Weigh(I: array<int>, prior: seq<Byte>, target: seq<Byte>, start: int, offset: int, scan: int, scsc0: int,
               oldscore0: int) returns (len: int, pos: int, scsc: int, oldscore: int)
    requires IsSuffixArray(prior, I[..]) && 0 <= start <= scan < |target| && 0 <= start + offset
    requires Scored(prior, target, offset, scan, scsc0, oldscore0)
    requires scsc0 == Reach(I[..], prior, target, start, scan)
    ensures (len, pos) == Found(I[..], prior, target, scan) && scsc == Reach(I[..], prior, target, start, scan + 1)
    ensures oldscore == OldScore(I[..], prior, target, start, offset, scan)
    ensures Scored(prior, target, offset, scan, scsc, oldscore) && scan <= scsc
    ensures scsc == scan ==> target[scan] !in prior
  {
    len, pos := SearchArray(I, prior, target[scan..], 0, |prior|);
    assert (len, pos) == Found(I[..], prior, target, scan);
    SearchEmpty(I[..], prior, target[scan..]);
    hide IsSuffixArray, Lcp, Found, AlignedCount;
    scsc, oldscore := CountAligned(prior, target, offset, scan, len, scsc0, oldscore0);
  }

  /** Nothing before `scan` was worth using, and this is what the scan knows there. */
  ghost predicate Scanning(sa: seq<int>, prior: seq<Byte>, target: seq<Byte>, start: int, offset: int,
                           last: (int, int), scan: int, len: int, pos: int)
    requires IsSuffixArray(prior, sa)
  {
    && 0 <= start <= scan <= |target| && 0 <= start + offset && 0 <= pos <= |prior| && 0 <= len
    && (forall t :: start <= t < scan ==> !Worth(sa, prior, target, start, offset, t))
    && (len, pos) == if start < scan then Found(sa, prior, target, scan - 1) else last
  }

  lemma ScanningNext(sa: seq<int>, prior: seq<Byte>, target: seq<Byte>, start: int, offset: int, last: (int, int),
                     scan: int, len0: int, pos0: int, len: int, pos: int)
    requires IsSuffixArray(prior, sa) && Scanning(sa, prior, target, start, offset, last, scan, len0, pos0)
    requires scan < |target| && (len, pos) == Found(sa, prior, target, scan)
    ensures if Worth(sa, prior, target, start, offset, scan)
            then Stops(sa, prior, target, start, offset, last, scan, len, pos)
            else Scanning(sa, prior, target, start, offset, last, scan + 1, len, pos)
  {
    hide IsSuffixArray, Worth, Found;
  }

  lemma ScanningEnd(sa: seq<int>, prior: seq<Byte>, target: seq<Byte>, start: int, offset: int, last: (int, int),
                    len: int, pos: int)
    requires IsSuffixArray(prior, sa) && Scanning(sa, prior, target, start, offset, last, |target|, len, pos)
    ensures Stops(sa, prior, target, start, offset, last, |target|, len, pos)
  {
    hide IsSuffixArray, Worth, Found;
  }

  /** Advance to the first position where the match is worth using: as good as the old alignment, or better by more
      than 8. */
  method ScanAhead(I: array<int>, prior: seq<Byte>, target: seq<Byte>, start: int, offset: int, len0: int, pos0: int)
    returns (scan: int, len: int, pos: int, oldscore: int)
    requires IsSuffixArray(prior, I[..]) && 0 <= start <= |target| && 0 <= start + offset && 0 <= len0
    requires 0 <= pos0 <= |prior|
    ensures Stops(I[..], prior, target, start, offset, (len0, pos0), scan, len, pos)
    ensures scan < |target| ==> oldscore == OldScore(I[..], prior, target, start, offset, scan)
    ensures start <= scan <= |target| && 0 <= pos <= |prior| && 0 <= oldscore && 0 <= len
    ensures scan < |target| ==> 1 <= len && scan + len <= |target|
  {
    scan, len, pos, oldscore := start, len0, pos0, 0;
    var scsc := start;
    ghost var sa := I[..];
    assert Scored(prior, target, offset, start, start, 0) && start == Reach(sa, prior, target, start, start);
    assert Scanning(sa, prior, target, start, offset, (len0, pos0), start, len, pos);
    hide IsSuffixArray, Lcp, Found, AlignedCount, Scored, Reach, Scanning, Stops;
    while scan < |target|
      invariant start <= scan <= |target| && 0 <= oldscore && 0 <= len && 0 <= pos <= |prior|
      invariant Scored(prior, target, offset, scan, scsc, oldscore) && scsc == Reach(sa, prior, target, start, scan)
      invariant Scanning(sa, prior, target, start, offset, (len0, pos0), scan, len, pos)
    {
      ghost var was := (len, pos);
      len, pos, scsc, oldscore := Weigh(I, prior, target, start, offset, scan, scsc, oldscore);
      ScanningNext(sa, prior, target, start, offset, (len0, pos0), scan, was.0, was.1, len, pos);
      if (len == oldscore && len != 0) || len > oldscore + 8 {
        return;
      }
      ScoredNext(prior, target, offset, scan, scsc, oldscore);
      if Aligned(prior, target, offset, scan) {
        oldscore := oldscore - 1;
      }
      scan := scan + 1;
    }
    ScanningEnd(sa, prior, target, start, offset, (len0, pos0), len, pos);
  }

  /** Plan the next block; its two parts never overlap and stay inside both files. */
  method PlanBlock(prior: seq<Byte>, target: seq<Byte>, lastscan: int, lastpos: int, scan: int, pos: int)
    returns (lenf: int, lenb: int, ghost f: int, ghost b: int, ghost cut: int)
    requires 0 <= lastpos <= |prior| && 0 <= pos <= |prior| && 0 <= lastscan <= scan <= |target|
    ensures Planned(prior, target, lastscan, lastpos, scan, pos, f, b, cut, lenf, lenb)
    ensures 0 <= lenf && 0 <= lenb && lastscan + lenf <= scan - lenb && lastpos + lenf <= |prior| && lenb <= pos
    ensures scan == |target| ==> lenb == 0
  {
    lenf := ExtendForward(prior, target, lastpos, lastscan, scan);
    lenb := 0;
    if scan < |target| {
      lenb := ExtendBackward(prior, target, pos, lastscan, scan);
    }
    f, b, cut := lenf, lenb, 0;
    if lastscan + lenf > scan - lenb {
      var overlap := (lastscan + lenf) - (scan - lenb);
      var lens := CutOverlap(prior, target, lastpos + lenf - overlap, pos - lenb, scan - lenb, overlap);
      cut := lens;
      assert lastscan + lenf - overlap == scan - lenb;
      lenf := lenf + lens - overlap;
      lenb := lenb - lens;
    }
  }

  lemma DifferenceAdded(prior: seq<Byte>, target: seq<Byte>, a: int, b: int, k: int)
    requires 0 <= a <= a + k <= |prior| && 0 <= b <= b + k <= |target|
    ensures Added(prior, a, Difference(prior, target, a, b, k)) == target[b..b + k]
  {
  }

  method WriteControl(x: int, y: int, z: int, sink: PatchSink) returns (r: int)
    requires -LIMIT < x < LIMIT && -LIMIT < y < LIMIT && -LIMIT < z < LIMIT
    modifies sink
    ensures r == 0 || (r == -1 && !sink.reliable)
    ensures r == 0 ==> sink.bytes == old(sink.bytes) + (Coded(x) + Coded(y) + Coded(z))
  {
    hide Coded;
    var buf := new Byte[24];
    OffTOut(x, buf, 0);
    OffTOut(y, buf, 8);
    OffTOut(z, buf, 16);
    assert buf[..24] == buf[0..8] + buf[8..16] + buf[16..24];
    r := WriteData(sink, buf, 24);
  }

  method WriteDifference(prior: seq<Byte>, target: seq<Byte>, a: int, b: int, k: int, buffer: array<Byte>,
                         sink: PatchSink) returns (r: int)
    requires 0 <= a <= a + k <= |prior| && 0 <= b <= b + k <= |target| && k <= buffer.Length
    modifies buffer, sink
    ensures r == 0 || (r == -1 && !sink.reliable)
    ensures r == 0 ==> sink.bytes == old(sink.bytes) + Difference(prior, target, a, b, k)
  {
    for i := 0 to k
      invariant sink.bytes == old(sink.bytes)
      invariant forall j :: 0 <= j < i ==> buffer[j] == ((target[b + j] as int) - prior[a + j]) % 256
    {
      buffer[i] := ((target[b + i] as int) - prior[a + i]) % 256;
    }
    assert buffer[..k] == Difference(prior, target, a, b, k);
    r := WriteData(sink, buffer, k);
  }

  method WriteExtra(target: seq<Byte>, b: int, k: int, buffer: array<Byte>, sink: PatchSink) returns (r: int)
    requires 0 <= b <= b + k <= |target| && k <= buffer.Length
    modifies buffer, sink
    ensures r == 0 || (r == -1 && !sink.reliable)
    ensures r == 0 ==> sink.bytes == old(sink.bytes) + target[b..b + k]
  {
    for i := 0 to k
      invariant sink.bytes == old(sink.bytes)
      invariant forall j :: 0 <= j < i ==> buffer[j] == target[b + j]
    {
      buffer[i] := target[b + i];
    }
    assert buffer[..k] == target[b..b + k];
    r := WriteData(sink, buffer, k);
  }

  /** Write one block: control numbers, difference bytes, extra bytes. */
  method WriteBlock(prior: seq<Byte>, target: seq<Byte>, lastscan: int, lastpos: int, scan: int, pos: int, lenf: int,
                    lenb: int,
                    buffer: array<Byte>, sink: PatchSink) returns (r: int)
    requires |prior| < LIMIT && |target| < LIMIT && buffer.Length == |target| + 1
    requires 0 <= lastpos && 0 <= lenf && 0 <= lastscan && 0 <= lenb && lastscan + lenf <= scan - lenb <= |target|
    requires lastpos + lenf <= |prior| && lenb <= pos <= |prior|
    modifies buffer, sink
    ensures r == 0 || (r == -1 && !sink.reliable)
    ensures var b := BlockFor(prior, target, lastscan, lastpos, scan, pos, lenf, lenb);
            Codable(b) && (r == 0 ==> sink.bytes == old(sink.bytes) + BlockBytes(b))
  {
    hide Coded, Difference;
    var extra := (scan - lenb) - (lastscan + lenf);
    r := WriteControl(lenf, extra, (pos - lenb) - (lastpos + lenf), sink);
    if r != 0 {
      return -1;
    }
    r := WriteDifference(prior, target, lastpos, lastscan, lenf, buffer, sink);
    if r != 0 {
      return -1;
    }
    r := WriteExtra(target, lastscan + lenf, extra, buffer, sink);
    if r != 0 {
      return -1;
    }
  }

  /** The blocks written so far rebuild target[..lastscan] and leave the prior file at lastpos. */
  ghost predicate Covered(prior: seq<Byte>, target: seq<Byte>, blocks: seq<Block>, lastscan: int, lastpos: int) {
    && 0 <= lastscan <= |target| && 0 <= lastpos <= |prior| && AllCodable(blocks)
    && Rebuilt(prior, 0, blocks) == target[..lastscan] && Drift(blocks) == lastpos
    && (forall k :: 0 <= k < |blocks| ==> Length(blocks[..k]) < |target|)
  }

  lemma CoveredNext(prior: seq<Byte>, target: seq<Byte>, blocks: seq<Block>, lastscan: int, lastpos: int, scan: int,
                    pos: int, lenf: int, lenb: int)
    requires Covered(prior, target, blocks, lastscan, lastpos) && lastscan < |target|
    requires 0 <= lenf && 0 <= lenb && lastscan + lenf <= scan - lenb <= |target| && lastpos + lenf <= |prior|
    requires lenb <= pos <= |prior|
    requires Codable(BlockFor(prior, target, lastscan, lastpos, scan, pos, lenf, lenb))
    ensures var b := BlockFor(prior, target, lastscan, lastpos, scan, pos, lenf, lenb);
            Covered(prior, target, blocks + [b], scan - lenb, pos - lenb)
  {
    hide Rebuilt, Added, Length, Drift, Difference, Codable;
    var b := BlockFor(prior, target, lastscan, lastpos, scan, pos, lenf, lenb);
    assert AllCodable(blocks + [b]);
    RebuiltLength(prior, 0, blocks);
    PrefixesShort(blocks, b, |target|);
    RebuiltAppend(prior, 0, blocks, b);
    DifferenceAdded(prior, target, lastpos, lastscan, lenf);
    ThreeSlices(target, lastscan, lastscan + lenf, scan - lenb);
  }

  lemma ThreeSlices(s: seq<Byte>, a: int, b: int, c: int)
    requires 0 <= a <= b <= c <= |s|
    ensures s[..a] + s[a..b] + s[b..c] == s[..c]
  {
  }

  lemma PrefixesShort(blocks: seq<Block>, b: Block, n: int)
    requires Length(blocks) < n && forall k :: 0 <= k < |blocks| ==> Length(blocks[..k]) < n
    ensures forall k :: 0 <= k < |blocks + [b]| ==> Length((blocks + [b])[..k]) < n
  {
    forall k | 0 <= k < |blocks + [b]| ensures Length((blocks + [b])[..k]) < n {
      assert (blocks + [b])[..k] == if k < |blocks| then blocks[..k] else blocks;
    }
  }

  /** The sink held `start` and has received the given blocks. */
  ghost predicate Written(start: seq<Byte>, bytes: seq<Byte>, blocks: seq<Block>) {
    AllCodable(blocks) && bytes == start + Bytes(blocks)
  }

  lemma WrittenNext(start: seq<Byte>, bytes: seq<Byte>, blocks: seq<Block>, b: Block)
    requires Written(start, bytes, blocks) && Codable(b)
    ensures Written(start, bytes + BlockBytes(b), blocks + [b])
  {
    hide Bytes, BlockBytes, Codable;
    BytesAppend(blocks, b);
    assert start + Bytes(blocks) + BlockBytes(b) == start + (Bytes(blocks) + BlockBytes(b));
  }

  /** Plan and write the block that covers the target up to the new match. */
  method EmitBlock(prior: seq<Byte>, target: seq<Byte>, lastscan: int, lastpos: int, scan: int, pos: int,
                   buffer: array<Byte>, sink: PatchSink, ghost start: seq<Byte>, ghost blocks: seq<Block>)
    returns (r: int, lenb: int, ghost lenf: int, ghost blocks': seq<Block>)
    requires |prior| < LIMIT && |target| < LIMIT && buffer.Length == |target| + 1
    requires 0 <= lastscan <= scan <= |target| && lastscan < |target| && 0 <= pos <= |prior|
    requires Covered(prior, target, blocks, lastscan, lastpos) && Written(start, sink.bytes, blocks)
    modifies buffer, sink
    ensures r == 0 || (r == -1 && !sink.reliable)
    ensures 0 <= lenb <= pos && lastscan <= scan - lenb && (scan == |target| ==> lenb == 0)
    ensures PlannedBlock(prior, target, lastscan, lastpos, scan, pos, lenf, lenb)
    ensures blocks' == blocks + [BlockFor(prior, target, lastscan, lastpos, scan, pos, lenf, lenb)]
    ensures r == 0 ==> Covered(prior, target, blocks', scan - lenb, pos - lenb) && Written(start, sink.bytes, blocks')
  {
    assert 0 <= lastpos <= |prior|;
    hide Covered, Planned, BlockBytes, BlockFor, Written;
    var forward;
    ghost var f, b, cut;
    forward, lenb, f, b, cut := PlanBlock(prior, target, lastscan, lastpos, scan, pos);
    r := WriteBlock(prior, target, lastscan, lastpos, scan, pos, forward, lenb, buffer, sink);
    lenf := forward;
    CoveredNext(prior, target, blocks, lastscan, lastpos, scan, pos, lenf, lenb);
    ghost var block := BlockFor(prior, target, lastscan, lastpos, scan, pos, lenf, lenb);
    blocks' := blocks + [block];
    WrittenNext(start, old(sink.bytes), blocks, block);
  }

  lemma CoveredStart(prior: seq<Byte>, target: seq<Byte>)
    ensures Covered(prior, target, [], 0, 0)
  {
  }

  lemma CoveredAll(prior: seq<Byte>, target: seq<Byte>, blocks: seq<Block>, lastpos: int)
    requires Covered(prior, target, blocks, |target|, lastpos)
    ensures Tiles(prior, target, blocks)
  {
    assert target[..|target|] == target;
  }

  /** The blocks written so far cover the target up to the last cut, and the last match lies behind it. */
  ghost predicate Underway(prior: seq<Byte>, target: seq<Byte>, start: seq<Byte>, bytes: seq<Byte>, s: Spot) {
    && 0 <= s.lastscan <= s.scan <= |target| && 0 <= s.pos <= |prior| && 0 <= s.len && 0 <= s.scan + s.offset
    && (if s.scan < |target| then s.scan + s.len <= |target| else s.lastscan == |target|)
    && Covered(prior, target, s.blocks, s.lastscan, s.lastpos) && Written(start, bytes, s.blocks)
  }

  /** One turn of the scan loop: go on to the next match, and write a block unless it continues the old alignment. */
  method Turn(I: array<int>, prior: seq<Byte>, target: seq<Byte>, buffer: array<Byte>, sink: PatchSink,
              ghost start: seq<Byte>, ghost s: Spot, scan0: int, len0: int, pos0: int, lastscan0: int, lastpos0: int,
              lastoffset0: int)
    returns (w: int, scan: int, len: int, pos: int, lastscan: int, lastpos: int, lastoffset: int, ghost s': Spot)
    requires |prior| < LIMIT && |target| < LIMIT && IsSuffixArray(prior, I[..]) && buffer.Length == |target| + 1
    requires s == Spot(scan0, len0, pos0, lastscan0, lastpos0, lastoffset0, s.blocks) && scan0 < |target|
    requires Underway(prior, target, start, sink.bytes, s)
    modifies buffer, sink
    ensures w == 0 || (w == -1 && !sink.reliable)
    ensures w == 0 ==>
      && s' == Spot(scan, len, pos, lastscan, lastpos, lastoffset, s'.blocks)
      && Underway(prior, target, start, sink.bytes, s') && Advances(I[..], prior, target, s, s')
      && (scan < |target| ==> scan0 + len0 < scan + len)
  {
    hide Covered, Written, IsSuffixArray, Lcp, Advances, PlannedBlock, BlockFor, Stops, OldScore;
    lastscan, lastpos, lastoffset, w, s' := lastscan0, lastpos0, lastoffset0, 0, s;
    var oldscore;
    scan, len, pos, oldscore := ScanAhead(I, prior, target, scan0 + len0, lastoffset, len0, pos0);
    if len != oldscore || scan == |target| {
      var lenb;
      ghost var lenf, blocks;
      w, lenb, lenf, blocks := EmitBlock(prior, target, lastscan, lastpos, scan, pos, buffer, sink, start, s.blocks);
      if w != 0 {
        return;
      }
      lastscan := scan - lenb;
      lastpos := pos - lenb;
      lastoffset := pos - scan;
      s' := Spot(scan, len, pos, lastscan, lastpos, lastoffset, blocks);
      EmitAdvances(I[..], prior, target, s, s', oldscore, lenf, lenb);
    } else {
      s' := s.(scan := scan, len := len, pos := pos);
      SkipAdvances(I[..], prior, target, s, s');
    }
  }

  /** The scan loop over the sorted suffixes I of the prior file. */
  method ScanAndWrite(I: array<int>, prior: seq<Byte>, target: seq<Byte>, buffer: array<Byte>, sink: PatchSink)
    returns (r: int, ghost blocks: seq<Block>)
    requires |prior| < LIMIT && |target| < LIMIT && IsSuffixArray(prior, I[..]) && buffer.Length == |target| + 1
    modifies buffer, sink
    ensures r == 0 || (r == -1 && !sink.reliable)
    ensures r == 0 ==> Tiles(prior, target, blocks) && Written(old(sink.bytes), sink.bytes, blocks)
    ensures r == 0 ==> Scanned(prior, target, blocks)
  {
    ghost var sa := I[..];
    ghost var s := Spot(0, 0, 0, 0, 0, 0, []);
    ghost var spots := [s];
    CoveredStart(prior, target);
    assert Written(sink.bytes, sink.bytes, []) && Trace(sa, prior, target, spots);
    hide Covered, Tiles, Written, IsSuffixArray, Trace, Advances;
    var scan, len, pos, lastscan, lastpos, lastoffset := 0, 0, 0, 0, 0, 0;
    while scan < |target|
      invariant s == Spot(scan, len, pos, lastscan, lastpos, lastoffset, s.blocks)
      invariant Underway(prior, target, old(sink.bytes), sink.bytes, s)
      invariant I[..] == sa && spots != [] && Trace(sa, prior, target, spots) && spots[|spots| - 1] == s
      decreases if scan < |target| then |target| - scan - len + 1 else 0
    {
      var w;
      w, scan, len, pos, lastscan, lastpos, lastoffset, s := Turn(I, prior, target, buffer, sink, old(sink.bytes), s,
        scan, len, pos, lastscan, lastpos, lastoffset);
      if w != 0 {
        return -1, s.blocks;
      }
      TraceNext(sa, prior, target, spots, s);
      spots := spots + [s];
    }
    r, blocks := 0, s.blocks;
    CoveredAll(prior, target, blocks, lastpos);
    assert Complete(sa, prior, target, spots, blocks);
  }

  /** Write to the sink a patch that turns prior into target, made of the blocks that the scan plans.  Identical files
      give one block without extra bytes, and without a prior file the whole target is stored. */
  method Diff(prior: seq<Byte>, target: seq<Byte>, sink: PatchSink) returns (r: int, ghost blocks: seq<Block>)
    requires |prior| < LIMIT && |target| < LIMIT
    modifies sink
    ensures r == 0 || (r == -1 && !sink.reliable)
    ensures r == 0 ==> Tiles(prior, target, blocks) && Written(old(sink.bytes), sink.bytes, blocks)
    ensures r == 0 ==> Scanned(prior, target, blocks)
    ensures r == 0 && target != [] && prior == target ==> NoChange(blocks)
    ensures r == 0 && target != [] && prior == [] ==> blocks == [Block([], target, 0)]
  {
    hide IsSuffixArray, Tiles, Written, Scanned, NoChange;
    var I := new int[|prior| + 1];
    var buffer := new Byte[|target| + 1];
    var V := new int[|prior| + 1];
    QSufSort(I, V, prior);
    r, blocks := ScanAndWrite(I, prior, target, buffer, sink);
    if r == 0 && target != [] {
      OneBlockEnds(prior, target, blocks);
    }
  }
}
