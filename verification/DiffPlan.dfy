/** What the differ decides: where its scan stops, which blocks it plans there, and what comes of it for files that
    start alike. */
module DiffPlan {
  import opened Words
  import opened SuffixOrder
  import opened SuffixArray
  import opened MatchSearch
  import opened PatchFormat

  /** Equal bytes among prior[a..a+k] and target[b..b+k]. */
  ghost function Hits(prior: seq<Byte>, target: seq<Byte>, a: int, b: int, k: int): (n: nat)
    requires 0 <= a <= a + k <= |prior| && 0 <= b <= b + k <= |target|
    ensures n <= k
    decreases k
  {
    if k == 0 then 0 else Hits(prior, target, a, b, k - 1) + if prior[a + k - 1] == target[b + k - 1] then 1 else 0
  }

  /** Equal bytes among the last k bytes of prior[..a] and target[..b]. */
  ghost function HitsBack(prior: seq<Byte>, target: seq<Byte>, a: int, b: int, k: int): (n: nat)
    requires 0 <= k <= a <= |prior| && k <= b <= |target|
    ensures n <= k
    decreases k
  {
    if k == 0 then 0 else HitsBack(prior, target, a, b, k - 1) + if prior[a - k] == target[b - k] then 1 else 0
  }

  /** f is the first length that maximises twice the hits minus the length, going forward. */
  ghost predicate BestForward(prior: seq<Byte>, target: seq<Byte>, lastpos: int, lastscan: int, scan: int, f: int) {
    && 0 <= lastpos <= |prior| && 0 <= lastscan <= scan <= |target| && 0 <= f <= scan - lastscan
       && lastpos + f <= |prior|
    && (forall k :: 0 <= k <= scan - lastscan && lastpos + k <= |prior| ==>
          2 * Hits(prior, target, lastpos, lastscan, k) - k <= 2 * Hits(prior, target, lastpos, lastscan, f) - f)
    && (forall k :: 0 <= k < f ==>
          2 * Hits(prior, target, lastpos, lastscan, k) - k < 2 * Hits(prior, target, lastpos, lastscan, f) - f)
  }

  /** The same going backward from the new match; nothing is extended at the end of the target. */
  ghost predicate BestBackward(prior: seq<Byte>, target: seq<Byte>, pos: int, lastscan: int, scan: int, b: int) {
    && 0 <= pos <= |prior| && 0 <= lastscan <= scan <= |target| && 0 <= b <= scan - lastscan && b <= pos
    && (forall k :: 0 <= k <= scan - lastscan && k <= pos ==>
          2 * HitsBack(prior, target, pos, scan, k) - k <= 2 * HitsBack(prior, target, pos, scan, b) - b)
    && (forall k :: 0 <= k < b ==>
          2 * HitsBack(prior, target, pos, scan, k) - k < 2 * HitsBack(prior, target, pos, scan, b) - b)
  }

  /** Of target[b..b+overlap], the first `cut` bytes hit best at prior[a..] and the rest at prior[c..]. */
  ghost predicate BestCut(prior: seq<Byte>, target: seq<Byte>, a: int, c: int, b: int, overlap: int, cut: int) {
    && 0 <= a <= a + overlap <= |prior| && 0 <= c <= c + overlap <= |prior| && 0 <= b <= b + overlap <= |target|
       && 0 <= cut <= overlap
    && (forall k :: 0 <= k <= overlap ==>
          Hits(prior, target, a, b, k) - Hits(prior, target, c, b, k) <= Hits(prior, target, a, b, cut) - Hits(prior,
            target, c, b, cut))
    && (forall k :: 0 <= k < cut ==>
          Hits(prior, target, a, b, k) - Hits(prior, target, c, b, k) < Hits(prior, target, a, b, cut) - Hits(prior,
            target, c, b, cut))
  }

  /** Byte i of the target equals the byte of the prior file at the old alignment. */
  predicate Aligned(prior: seq<Byte>, target: seq<Byte>, offset: int, i: int)
    requires 0 <= i < |target| && 0 <= i + offset
  {
    i + offset < |prior| && prior[i + offset] == target[i]
  }

  ghost function AlignedCount(prior: seq<Byte>, target: seq<Byte>, offset: int, a: int, b: int): (n: nat)
    requires 0 <= a <= b <= |target| && 0 <= a + offset
    ensures n <= b - a
    decreases b - a
  {
    if a == b then 0
    else AlignedCount(prior, target, offset, a, b - 1) + if Aligned(prior, target, offset, b - 1) then 1 else 0
  }

  lemma {:induction false} AlignedSplit(prior: seq<Byte>, target: seq<Byte>, offset: int, a: int, b: int)
    requires 0 <= a < b <= |target| && 0 <= a + offset
    ensures AlignedCount(prior, target, offset, a, b) ==
      (if Aligned(prior, target, offset, a) then 1 else 0) + AlignedCount(prior, target, offset, a + 1, b)
    decreases b - a
  {
    if a + 1 < b {
      AlignedSplit(prior, target, offset, a, b - 1);
    }
  }

  /** The block lengths the differ settles on: the best extensions f and b, cut back where they overlap. */
  ghost predicate Planned(prior: seq<Byte>, target: seq<Byte>, lastscan: int, lastpos: int, scan: int, pos: int,
                          f: int, b: int, cut: int, lenf: int, lenb: int) {
    && BestForward(prior, target, lastpos, lastscan, scan, f)
    && 0 <= b <= pos <= |prior| && b <= scan - lastscan
    && (if scan < |target| then BestBackward(prior, target, pos, lastscan, scan, b) else b == 0)
    && var overlap := (lastscan + f) - (scan - b);
       if overlap <= 0 then lenf == f && lenb == b
       else BestCut(prior, target, lastpos + f - overlap, pos - b, scan - b, overlap, cut)
            && lenf == f + cut - overlap && lenb == b - cut
  }

  /** Some best extensions and cut lead to these lengths, which stay inside both files. */
  ghost predicate PlannedBlock(prior: seq<Byte>, target: seq<Byte>, lastscan: int, lastpos: int, scan: int, pos: int,
                               lenf: int, lenb: int) {
    && 0 <= lastscan && 0 <= lenf && 0 <= lenb <= pos <= |prior| && lastscan + lenf <= scan - lenb && scan <= |target|
    && 0 <= lastpos && lastpos + lenf <= |prior|
    && exists f, b, cut :: Planned(prior, target, lastscan, lastpos, scan, pos, f, b, cut, lenf, lenb)
  }

  /** The bytes to add to prior[a..a+k] to get target[b..b+k]. */
  ghost function Difference(prior: seq<Byte>, target: seq<Byte>, a: int, b: int, k: int): (s: seq<Byte>)
    requires 0 <= a <= a + k <= |prior| && 0 <= b <= b + k <= |target|
    ensures |s| == k && forall i :: 0 <= i < k ==> s[i] == ((target[b + i] as int) - prior[a + i]) % 256
  {
    seq(k, i requires 0 <= i < k => ((target[b + i] as int) - prior[a + i]) % 256)
  }

  /** The block that covers target[lastscan..scan-lenb]. */
  ghost function BlockFor(prior: seq<Byte>, target: seq<Byte>, lastscan: int, lastpos: int, scan: int, pos: int,
                          lenf: int, lenb: int): (b: Block)
    requires 0 <= lastpos && 0 <= lenf && 0 <= lastscan && 0 <= lenb && lastscan + lenf <= scan - lenb <= |target|
    requires lastpos + lenf <= |prior|
  {
    Block(Difference(prior, target, lastpos, lastscan, lenf), target[lastscan + lenf..scan - lenb],
      (pos - lenb) - (lastpos + lenf))
  }

  /** The match the search finds for the target from t on. */
  ghost function Found(sa: seq<int>, prior: seq<Byte>, target: seq<Byte>, t: int): (r: (int, int))
    requires IsSuffixArray(prior, sa) && 0 <= t <= |target|
    ensures 0 <= r.1 <= |prior| && r.0 == Lcp(prior[r.1..], target[t..]) && t + r.0 <= |target|
  {
    Search(sa, prior, target[t..], 0, |prior|)
  }

  /** How far the matches at start..t reach, t excluded. */
  ghost function Reach(sa: seq<int>, prior: seq<Byte>, target: seq<Byte>, start: int, t: int): (r: int)
    requires IsSuffixArray(prior, sa) && 0 <= start <= t <= |target|
    ensures start <= r <= |target| && t - 1 <= r
    ensures t > start ==> t - 1 + Found(sa, prior, target, t - 1).0 <= r
    decreases t - start
  {
    if t == start then start
    else
      var r, e := Reach(sa, prior, target, start, t - 1), t - 1 + Found(sa, prior, target, t - 1).0;
      if r < e then e else r
  }

  /** How many bytes, from t to the furthest match seen, the old alignment gets right. */
  ghost function OldScore(sa: seq<int>, prior: seq<Byte>, target: seq<Byte>, start: int, offset: int, t: int): (n: nat)
    requires IsSuffixArray(prior, sa) && 0 <= start <= t < |target| && 0 <= start + offset
  {
    AlignedCount(prior, target, offset, t, Reach(sa, prior, target, start, t + 1))
  }

  /** The match at t is as good as the old alignment, or better by more than eight bytes. */
  ghost predicate Worth(sa: seq<int>, prior: seq<Byte>, target: seq<Byte>, start: int, offset: int, t: int)
    requires IsSuffixArray(prior, sa) && 0 <= start <= t < |target| && 0 <= start + offset
  {
    var len, kept := Found(sa, prior, target, t).0, OldScore(sa, prior, target, start, offset, t);
    (len == kept && len != 0) || len > kept + 8
  }

  /** The scan from `start` stops at the first match worth using, or else at the end. */
  ghost predicate Stops(sa: seq<int>, prior: seq<Byte>, target: seq<Byte>, start: int, offset: int, last: (int, int),
                        scan: int, len: int, pos: int)
    requires IsSuffixArray(prior, sa)
  {
    && 0 <= start <= scan <= |target| && 0 <= start + offset
    && (forall t :: start <= t < scan ==> !Worth(sa, prior, target, start, offset, t))
    && if scan < |target| then
         Worth(sa, prior, target, start, offset, scan) && (len, pos) == Found(sa, prior, target, scan)
       else (len, pos) == if start < scan then Found(sa, prior, target, scan - 1) else last
  }

  /** Where the differ is: its last match, where the last block ended in both files, and the blocks written. */
  datatype Spot = Spot(scan: int, len: int, pos: int, lastscan: int, lastpos: int, offset: int, blocks: seq<Block>)

  /** The match at s' ends a planned block that starts where the last one ended. */
  ghost predicate Cuts(prior: seq<Byte>, target: seq<Byte>, s: Spot, s': Spot, lenf: int, lenb: int) {
    && PlannedBlock(prior, target, s.lastscan, s.lastpos, s'.scan, s'.pos, lenf, lenb)
    && s'.lastscan == s'.scan - lenb && s'.lastpos == s'.pos - lenb && s'.offset == s'.pos - s'.scan
    && s'.blocks ==
         s.blocks + [BlockFor(prior, target, s.lastscan, s.lastpos, s'.scan, s'.pos, lenf, lenb)]
  }

  /** One turn of the differ: the scan goes on behind the last match, and a block is written unless the new match only
      continues the old alignment. */
  ghost predicate Advances(sa: seq<int>, prior: seq<Byte>, target: seq<Byte>, s: Spot, s': Spot)
    requires IsSuffixArray(prior, sa)
  {
    var start := s.scan + s.len;
    && s.scan < |target|
    && Stops(sa, prior, target, start, s.offset, (s.len, s.pos), s'.scan, s'.len, s'.pos)
    && if s'.scan < |target| && s'.len == OldScore(sa, prior, target, start, s.offset, s'.scan) then
         s' == s.(scan := s'.scan, len := s'.len, pos := s'.pos)
       else exists lenf, lenb :: Cuts(prior, target, s, s', lenf, lenb)
  }

  /** The turns of the differ from the start of both files. */
  ghost predicate Trace(sa: seq<int>, prior: seq<Byte>, target: seq<Byte>, spots: seq<Spot>)
    requires IsSuffixArray(prior, sa)
    decreases |spots|
  {
    var n := |spots| - 1;
    && spots != []
    && if n == 0 then spots[0] == Spot(0, 0, 0, 0, 0, 0, [])
       else Trace(sa, prior, target, spots[..n]) && Advances(sa, prior, target, spots[n - 1], spots[n])
  }

  ghost predicate Complete(sa: seq<int>, prior: seq<Byte>, target: seq<Byte>, spots: seq<Spot>, blocks: seq<Block>) {
    && IsSuffixArray(prior, sa) && Trace(sa, prior, target, spots) && spots != []
    && spots[|spots| - 1].scan == |target| && spots[|spots| - 1].blocks == blocks
  }

  /** The blocks are those of a scan of the whole target over the sorted suffixes of the prior file. */
  ghost predicate Scanned(prior: seq<Byte>, target: seq<Byte>, blocks: seq<Block>) {
    exists sa, spots :: Complete(sa, prior, target, spots, blocks)
  }

  lemma EmitAdvances(sa: seq<int>, prior: seq<Byte>, target: seq<Byte>, s: Spot, s': Spot, kept: int, lenf: int,
                     lenb: int)
    requires IsSuffixArray(prior, sa) && s.scan < |target| && Cuts(prior, target, s, s', lenf, lenb)
    requires Stops(sa, prior, target, s.scan + s.len, s.offset, (s.len, s.pos), s'.scan, s'.len, s'.pos)
    requires s'.scan < |target| ==>
      kept == OldScore(sa, prior, target, s.scan + s.len, s.offset, s'.scan) && s'.len != kept
    ensures Advances(sa, prior, target, s, s')
  {
    hide Stops, Cuts, OldScore, IsSuffixArray;
  }

  lemma SkipAdvances(sa: seq<int>, prior: seq<Byte>, target: seq<Byte>, s: Spot, s': Spot)
    requires IsSuffixArray(prior, sa) && s.scan < |target| && s' == s.(scan := s'.scan, len := s'.len, pos := s'.pos)
    requires Stops(sa, prior, target, s.scan + s.len, s.offset, (s.len, s.pos), s'.scan, s'.len, s'.pos)
    requires s'.scan < |target| && s'.len == OldScore(sa, prior, target, s.scan + s.len, s.offset, s'.scan)
    ensures Advances(sa, prior, target, s, s')
  {
    hide Stops, OldScore, IsSuffixArray;
  }

  lemma TraceNext(sa: seq<int>, prior: seq<Byte>, target: seq<Byte>, spots: seq<Spot>, s: Spot)
    requires IsSuffixArray(prior, sa) && Trace(sa, prior, target, spots)
    requires Advances(sa, prior, target, spots[|spots| - 1], s)
    ensures Trace(sa, prior, target, spots + [s])
  {
    hide Advances;
    assert (spots + [s])[..|spots|] == spots;
  }

  lemma TraceLast(sa: seq<int>, prior: seq<Byte>, target: seq<Byte>, spots: seq<Spot>)
    requires IsSuffixArray(prior, sa) && Trace(sa, prior, target, spots)
    ensures spots != []
    ensures var n := |spots| - 1;
            if n == 0 then spots[0] == Spot(0, 0, 0, 0, 0, 0, [])
            else
              && Trace(sa, prior, target, spots[..n]) && Advances(sa, prior, target, spots[n - 1], spots[n])
              && spots[n - 1].scan < |target|
  {
    hide Stops, Cuts, OldScore, IsSuffixArray;
  }

  /** From a on, every byte of the target is new to the prior file or stands where this alignment puts it. */
  ghost predicate Follows(prior: seq<Byte>, target: seq<Byte>, offset: int, a: int) {
    forall i :: 0 <= i < |target| && a <= i ==>
      target[i] !in prior || (0 <= i + offset < |prior| && prior[i + offset] == target[i])
  }

  lemma {:induction false} AllAligned(prior: seq<Byte>, target: seq<Byte>, offset: int, a: int, b: int)
    requires 0 <= a <= b <= |target| && 0 <= a + offset
    requires forall i :: a <= i < b ==> Aligned(prior, target, offset, i)
    ensures AlignedCount(prior, target, offset, a, b) == b - a
    decreases b - a
  {
    if a < b {
      AllAligned(prior, target, offset, a, b - 1);
    }
  }

  lemma {:induction false} NoneAligned(prior: seq<Byte>, target: seq<Byte>, offset: int, a: int, b: int)
    requires 0 <= a <= b <= |target| && 0 <= a + offset
    requires forall i :: a <= i < b ==> !Aligned(prior, target, offset, i)
    ensures AlignedCount(prior, target, offset, a, b) == 0
    decreases b - a
  {
    if a < b {
      NoneAligned(prior, target, offset, a, b - 1);
    }
  }

  /** A match is empty exactly when its first byte is new, and holds only known bytes. */
  lemma KnownMatch(sa: seq<int>, prior: seq<Byte>, target: seq<Byte>, t: int)
    requires IsSuffixArray(prior, sa) && 0 <= t < |target|
    ensures Found(sa, prior, target, t).0 == 0 <==> target[t] !in prior
    ensures forall i :: t <= i < t + Found(sa, prior, target, t).0 ==> target[i] in prior
  {
    SearchEmpty(sa, prior, target[t..]);
    hide IsSuffixArray, Lcp;
    var (len, pos) := Found(sa, prior, target, t);
    forall i | t <= i < t + len ensures target[i] in prior {
      assert target[t..][..len][i - t] == prior[pos..][..len][i - t] == prior[pos + i - t];
    }
  }

  /** Matches over new bytes reach nowhere. */
  lemma {:induction false} NewReach(sa: seq<int>, prior: seq<Byte>, target: seq<Byte>, start: int, t: int)
    requires IsSuffixArray(prior, sa) && 0 <= start <= t <= |target|
    requires forall i :: start <= i < t ==> target[i] !in prior
    ensures Reach(sa, prior, target, start, t) == if start < t then t - 1 else t
    decreases t - start
  {
    if start < t {
      KnownMatch(sa, prior, target, t - 1);
      hide IsSuffixArray, Found;
      NewReach(sa, prior, target, start, t - 1);
    }
  }

  lemma KnownReach(sa: seq<int>, prior: seq<Byte>, target: seq<Byte>, start: int, t: int)
    requires IsSuffixArray(prior, sa) && 0 <= start <= t < |target|
    requires forall i :: start <= i < t ==> target[i] !in prior
    ensures Reach(sa, prior, target, start, t + 1) == t + Found(sa, prior, target, t).0
  {
    NewReach(sa, prior, target, start, t);
    hide IsSuffixArray, Found;
  }

  /** Behind new bytes, a new byte is not worth stopping at. */
  lemma NewNotWorth(sa: seq<int>, prior: seq<Byte>, target: seq<Byte>, start: int, offset: int, t: int)
    requires IsSuffixArray(prior, sa) && 0 <= start <= t < |target| && 0 <= start + offset
    requires forall i :: start <= i <= t ==> target[i] !in prior
    ensures !Worth(sa, prior, target, start, offset, t)
  {
    KnownMatch(sa, prior, target, t);
    KnownReach(sa, prior, target, start, t);
    hide IsSuffixArray, Found, Reach;
  }

  /** Behind new bytes, a byte that follows the alignment is worth stopping at, and only continues it. */
  lemma KnownWorth(sa: seq<int>, prior: seq<Byte>, target: seq<Byte>, start: int, offset: int, t: int)
    requires IsSuffixArray(prior, sa) && 0 <= start <= t < |target| && 0 <= start + offset
    requires Follows(prior, target, offset, start) && target[t] in prior
    requires forall i :: start <= i < t ==> target[i] !in prior
    ensures Worth(sa, prior, target, start, offset, t)
    ensures Found(sa, prior, target, t).0 == OldScore(sa, prior, target, start, offset, t)
  {
    KnownMatch(sa, prior, target, t);
    KnownReach(sa, prior, target, start, t);
    hide IsSuffixArray, Found, Reach, AlignedCount;
    var end := t + Found(sa, prior, target, t).0;
    forall i | t <= i < end ensures Aligned(prior, target, offset, i) {
      assert target[i] in prior;
    }
    AllAligned(prior, target, offset, t, end);
  }

  /** Where the scan has not stopped there were only new bytes. */
  lemma {:induction false} OnlyNew(sa: seq<int>, prior: seq<Byte>, target: seq<Byte>, start: int, offset: int, t: int)
    requires IsSuffixArray(prior, sa) && 0 <= start <= t <= |target| && 0 <= start + offset
    requires Follows(prior, target, offset, start)
    requires forall i :: start <= i < t ==> !Worth(sa, prior, target, start, offset, i)
    ensures forall i :: start <= i < t ==> target[i] !in prior
    decreases t - start
  {
    if start < t {
      hide IsSuffixArray, Worth, Follows;
      OnlyNew(sa, prior, target, start, offset, t - 1);
      if target[t - 1] in prior {
        KnownWorth(sa, prior, target, start, offset, t - 1);
      }
    }
  }

  /** A scan over such bytes stops only to continue the alignment. */
  lemma FollowStops(sa: seq<int>, prior: seq<Byte>, target: seq<Byte>, start: int, offset: int, last: (int, int),
                    scan: int, len: int, pos: int)
    requires IsSuffixArray(prior, sa) && Stops(sa, prior, target, start, offset, last, scan, len, pos)
    requires Follows(prior, target, offset, start)
    ensures scan < |target| ==> len == OldScore(sa, prior, target, start, offset, scan) && 0 <= len
    ensures start <= scan <= |target|
  {
    hide IsSuffixArray, Worth, Follows, OldScore;
    OnlyNew(sa, prior, target, start, offset, scan);
    if scan < |target| {
      if target[scan] in prior {
        KnownWorth(sa, prior, target, start, offset, scan);
      } else {
        NewNotWorth(sa, prior, target, start, offset, scan);
      }
    }
  }

  /** The block from the last cut to the end of the target. */
  ghost predicate LastBlock(prior: seq<Byte>, target: seq<Byte>, s: Spot, s': Spot) {
    exists f :: LastBlockOf(prior, target, s, s', f)
  }

  ghost predicate LastBlockOf(prior: seq<Byte>, target: seq<Byte>, s: Spot, s': Spot, f: int) {
    && 0 <= s'.pos <= |prior| && BestForward(prior, target, s.lastpos, s.lastscan, |target|, f)
    && s'.blocks == s.blocks + [BlockFor(prior, target, s.lastscan, s.lastpos, |target|, s'.pos, f, 0)]
  }

  lemma PlannedLast(prior: seq<Byte>, target: seq<Byte>, s: Spot, s': Spot, lenf: int, lenb: int)
    requires Cuts(prior, target, s, s', lenf, lenb) && s'.scan == |target|
    ensures LastBlock(prior, target, s, s')
  {
    hide BestForward, BestBackward, BestCut, BlockFor;
    var f, b, cut :| Planned(prior, target, s.lastscan, s.lastpos, |target|, s'.pos, f, b, cut, lenf, lenb);
    BestForwardFits(prior, target, s.lastpos, s.lastscan, |target|, f);
    assert LastBlockOf(prior, target, s, s', f);
  }

  lemma BestForwardFits(prior: seq<Byte>, target: seq<Byte>, lastpos: int, lastscan: int, scan: int, f: int)
    requires BestForward(prior, target, lastpos, lastscan, scan, f)
    ensures 0 <= lastpos <= lastpos + f <= |prior| && 0 <= lastscan <= lastscan + f <= scan <= |target|
  {
  }

  lemma FollowAdvances(sa: seq<int>, prior: seq<Byte>, target: seq<Byte>, s: Spot, s': Spot)
    requires IsSuffixArray(prior, sa) && Follows(prior, target, s.offset, s.scan + s.len)
    requires Advances(sa, prior, target, s, s')
    ensures if s'.scan < |target| then
              && s' == s.(scan := s'.scan, len := s'.len, pos := s'.pos) && s.scan + s.len <= s'.scan + s'.len
            else LastBlock(prior, target, s, s')
  {
    hide IsSuffixArray, Stops, OldScore, Cuts, Follows, LastBlock;
    FollowStops(sa, prior, target, s.scan + s.len, s.offset, (s.len, s.pos), s'.scan, s'.len, s'.pos);
    if s'.scan == |target| {
      var lenf, lenb :| Cuts(prior, target, s, s', lenf, lenb);
      PlannedLast(prior, target, s, s', lenf, lenb);
    }
  }

  lemma FollowsFurther(prior: seq<Byte>, target: seq<Byte>, offset: int, a: int, b: int)
    requires Follows(prior, target, offset, a) && a <= b
    ensures Follows(prior, target, offset, b)
  {
  }

  /** Once the rest of the target follows the alignment, nothing is written before the end, and then one block. */
  lemma {:induction false} Coasts(sa: seq<int>, prior: seq<Byte>, target: seq<Byte>, spots: seq<Spot>, j: int)
    requires IsSuffixArray(prior, sa) && Trace(sa, prior, target, spots) && 0 <= j < |spots|
    requires spots[j].scan < |target| && Follows(prior, target, spots[j].offset, spots[j].scan + spots[j].len)
    ensures var s, s' := spots[j], spots[|spots| - 1];
            if s'.scan < |target| then
              && s' == s.(scan := s'.scan, len := s'.len, pos := s'.pos) && s.scan + s.len <= s'.scan + s'.len
            else LastBlock(prior, target, s, s')
    decreases |spots|
  {
    var n := |spots| - 1;
    hide IsSuffixArray, Trace, Advances, Follows, LastBlock;
    if j < n {
      TraceLast(sa, prior, target, spots);
      Coasts(sa, prior, target, spots[..n], j);
      var s, mid := spots[j], spots[n - 1];
      FollowsFurther(prior, target, s.offset, s.scan + s.len, mid.scan + mid.len);
      FollowAdvances(sa, prior, target, mid, spots[n]);
      SameLast(prior, target, s, mid, spots[n]);
    }
  }

  lemma SameLast(prior: seq<Byte>, target: seq<Byte>, s: Spot, mid: Spot, s': Spot)
    requires mid.lastscan == s.lastscan && mid.lastpos == s.lastpos && mid.blocks == s.blocks
    ensures LastBlock(prior, target, mid, s') <==> LastBlock(prior, target, s, s')
  {
    hide BestForward, BlockFor;
    if f :| LastBlockOf(prior, target, mid, s', f) {
      assert LastBlockOf(prior, target, s, s', f);
    }
    if f :| LastBlockOf(prior, target, s, s', f) {
      assert LastBlockOf(prior, target, mid, s', f);
    }
  }

  lemma {:induction false} TraceFirst(sa: seq<int>, prior: seq<Byte>, target: seq<Byte>, spots: seq<Spot>)
    requires IsSuffixArray(prior, sa) && Trace(sa, prior, target, spots)
    ensures spots != [] && spots[0] == Spot(0, 0, 0, 0, 0, 0, [])
    ensures |spots| > 1 ==> Advances(sa, prior, target, spots[0], spots[1])
    decreases |spots|
  {
    hide IsSuffixArray, Trace, Advances;
    TraceLast(sa, prior, target, spots);
    if |spots| > 1 {
      TraceFirst(sa, prior, target, spots[..|spots| - 1]);
    }
  }

  /** The target is the prior file with some bytes overwritten by new ones, cut off or continued by new ones: one block
      results, whose difference part is the best forward extension and is zero wherever the files agree. */
  lemma OneBlockEdited(prior: seq<Byte>, target: seq<Byte>, blocks: seq<Block>) returns (f: int, pos: int)
    requires Scanned(prior, target, blocks) && Follows(prior, target, 0, 0) && target != []
    ensures BestForward(prior, target, 0, 0, |target|, f) && 0 <= pos <= |prior|
    ensures blocks == [BlockFor(prior, target, 0, 0, |target|, pos, f, 0)]
  {
    hide IsSuffixArray, Trace, BlockFor, BestForward, Follows, Advances;
    var sa: seq<int>, spots: seq<Spot> :| Complete(sa, prior, target, spots, blocks);
    TraceFirst(sa, prior, target, spots);
    Coasts(sa, prior, target, spots, 0);
    var s' := spots[|spots| - 1];
    pos := s'.pos;
    f :| LastBlockOf(prior, target, spots[0], s', f);
    BestForwardFits(prior, target, 0, 0, |target|, f);
  }

  /** New bytes in front of a prior file that starts with a byte it has only once and does not repeat itself at that
      distance, later overwritten here and there by new bytes. */
  ghost predicate Inserted(prior: seq<Byte>, target: seq<Byte>, d: int) {
    && 0 < d && d + 9 <= |target| && 9 <= |prior|
    && (forall i :: 0 <= i < d ==> target[i] !in prior)
    && (forall i :: 0 <= i < 9 ==> target[d + i] == prior[i])
    && (forall i :: 0 < i < |prior| ==> prior[i] != prior[0])
    && (forall i :: 0 <= i < |prior| - d ==> prior[i] != prior[i + d])
    && Follows(prior, target, -d, d)
  }

  /** A prior file too short for a match worth a block of its own, with no byte in its old place. */
  ghost predicate TooShort(prior: seq<Byte>, target: seq<Byte>) {
    |prior| <= 8 && forall i :: 0 <= i < |target| ==> !Aligned(prior, target, 0, i)
  }

  lemma ShortNotWorth(sa: seq<int>, prior: seq<Byte>, target: seq<Byte>, t: int)
    requires IsSuffixArray(prior, sa) && TooShort(prior, target) && 0 <= t < |target|
    ensures !Worth(sa, prior, target, 0, 0, t)
  {
    NoneAligned(prior, target, 0, t, Reach(sa, prior, target, 0, t + 1));
    hide IsSuffixArray, Reach;
  }

  lemma {:induction false} ShortHits(prior: seq<Byte>, target: seq<Byte>, k: int)
    requires TooShort(prior, target) && 0 <= k <= |prior| && k <= |target|
    ensures Hits(prior, target, 0, 0, k) == 0
    decreases k
  {
    if k > 0 {
      ShortHits(prior, target, k - 1);
      assert !Aligned(prior, target, 0, k - 1);
    }
  }

  lemma ShortFirst(sa: seq<int>, prior: seq<Byte>, target: seq<Byte>, s': Spot)
    requires IsSuffixArray(prior, sa) && TooShort(prior, target)
    requires Advances(sa, prior, target, Spot(0, 0, 0, 0, 0, 0, []), s')
    ensures s'.scan == |target| && LastBlock(prior, target, Spot(0, 0, 0, 0, 0, 0, []), s')
  {
    hide IsSuffixArray, OldScore, Cuts, TooShort, LastBlock, Worth, Found;
    if 0 <= s'.scan < |target| {
      ShortNotWorth(sa, prior, target, s'.scan);
    }
    var lenf, lenb :| Cuts(prior, target, Spot(0, 0, 0, 0, 0, 0, []), s', lenf, lenb);
    PlannedLast(prior, target, Spot(0, 0, 0, 0, 0, 0, []), s', lenf, lenb);
  }

  /** Matches of at most eight bytes are not worth leaving the alignment for: the whole target is stored. */
  lemma ShortIgnored(prior: seq<Byte>, target: seq<Byte>, blocks: seq<Block>)
    requires Scanned(prior, target, blocks) && TooShort(prior, target) && target != []
    ensures |blocks| == 1 && blocks[0].diff == [] && blocks[0].extra == target
  {
    hide IsSuffixArray, Trace, BestForward, Advances, TooShort, Hits;
    var sa: seq<int>, spots: seq<Spot> :| Complete(sa, prior, target, spots, blocks);
    TraceFirst(sa, prior, target, spots);
    ShortFirst(sa, prior, target, spots[1]);
    NoTurnAfter(sa, prior, target, spots);
    var f :| LastBlockOf(prior, target, spots[0], spots[1], f);
    ShortBest(prior, target, f);
    assert target[0..|target|] == target;
  }

  lemma ShortBest(prior: seq<Byte>, target: seq<Byte>, f: int)
    requires TooShort(prior, target) && BestForward(prior, target, 0, 0, |target|, f)
    ensures f == 0
  {
    ShortHits(prior, target, f);
    ShortHits(prior, target, 0);
    hide Hits, TooShort;
  }

  /** Nothing follows the end of the target. */
  lemma {:induction false} NoTurnAfter(sa: seq<int>, prior: seq<Byte>, target: seq<Byte>, spots: seq<Spot>)
    requires IsSuffixArray(prior, sa) && Trace(sa, prior, target, spots)
    requires |spots| > 1 && spots[1].scan == |target|
    ensures |spots| == 2
    decreases |spots|
  {
    hide IsSuffixArray, Trace, Advances;
    if |spots| > 2 {
      TraceLast(sa, prior, target, spots);
      NoTurnAfter(sa, prior, target, spots[..|spots| - 1]);
    }
  }

  lemma LcpAtLeast(x: seq<Byte>, y: seq<Byte>, k: int)
    requires 0 <= k <= |x| && k <= |y| && forall i :: 0 <= i < k ==> x[i] == y[i]
    ensures Lcp(x, y) >= k
  {
    hide Lcp;
  }

  lemma InsertedFollows(prior: seq<Byte>, target: seq<Byte>, d: int, a: int)
    requires Inserted(prior, target, d) && d <= a
    ensures 0 < d < |target| && Follows(prior, target, -d, a)
  {
  }

  /** The match behind the inserted bytes is the start of the prior file. */
  lemma InsertedMatch(sa: seq<int>, prior: seq<Byte>, target: seq<Byte>, d: int)
    requires IsSuffixArray(prior, sa) && Inserted(prior, target, d)
    ensures Found(sa, prior, target, d).1 == 0 && Found(sa, prior, target, d).0 >= 9
    ensures forall i :: d <= i < d + Found(sa, prior, target, d).0 ==> i - d < |prior| && target[i] == prior[i - d]
  {
    assert target[d + 0] == prior[0] && prior[0] in prior;
    KnownMatch(sa, prior, target, d);
    hide IsSuffixArray, Lcp;
    var (len, pos) := Found(sa, prior, target, d);
    assert prior[pos] == prior[pos..][..len][0] == target[d..][..len][0] == target[d];
    assert pos == 0;
    LcpAtLeast(prior[0..], target[d..], 9);
    forall i | d <= i < d + len ensures i - d < |prior| && target[i] == prior[i - d] {
      assert prior[0..][..len][i - d] == target[d..][..len][i - d];
    }
  }

  lemma InsertedScore(sa: seq<int>, prior: seq<Byte>, target: seq<Byte>, d: int)
    requires IsSuffixArray(prior, sa) && Inserted(prior, target, d)
    ensures OldScore(sa, prior, target, 0, 0, d) == 0 && Worth(sa, prior, target, 0, 0, d)
  {
    hide IsSuffixArray, Found, Reach, Inserted, AlignedCount;
    InsertedNew(prior, target, d);
    InsertedMatch(sa, prior, target, d);
    KnownReach(sa, prior, target, 0, d);
    var len := Found(sa, prior, target, d).0;
    forall i | d <= i < d + len ensures !Aligned(prior, target, 0, i) {
      InsertedShift(prior, target, d, i);
    }
    NoneAligned(prior, target, 0, d, d + len);
  }

  lemma InsertedNew(prior: seq<Byte>, target: seq<Byte>, d: int)
    requires Inserted(prior, target, d)
    ensures 0 < d < |target| && forall i :: 0 <= i < d ==> target[i] !in prior
  {
    hide Follows;
  }

  lemma InsertedShift(prior: seq<Byte>, target: seq<Byte>, d: int, i: int)
    requires Inserted(prior, target, d) && d <= i < |target| && i - d < |prior| && target[i] == prior[i - d]
    ensures !Aligned(prior, target, 0, i)
  {
    hide Follows;
    if i < |prior| {
      assert prior[i - d] != prior[i - d + d];
    }
  }

  lemma InsertedStops(sa: seq<int>, prior: seq<Byte>, target: seq<Byte>, d: int, last: (int, int), scan: int, len: int,
                      pos: int)
    requires IsSuffixArray(prior, sa) && Inserted(prior, target, d)
    requires Stops(sa, prior, target, 0, 0, last, scan, len, pos)
    ensures scan == d && (len, pos) == Found(sa, prior, target, d)
  {
    InsertedScore(sa, prior, target, d);
    if scan < d {
      NewNotWorth(sa, prior, target, 0, 0, scan);
    }
    hide IsSuffixArray, Found, Worth;
  }

  lemma {:induction false} NewHits(prior: seq<Byte>, target: seq<Byte>, k: int)
    requires 0 <= k <= |prior| && k <= |target| && forall i :: 0 <= i < k ==> target[i] !in prior
    ensures Hits(prior, target, 0, 0, k) == 0
    decreases k
  {
    if k > 0 {
      NewHits(prior, target, k - 1);
      assert prior[k - 1] in prior;
    }
  }

  lemma InsertedCut(prior: seq<Byte>, target: seq<Byte>, d: int, lenf: int, lenb: int)
    requires Inserted(prior, target, d) && PlannedBlock(prior, target, 0, 0, d, 0, lenf, lenb)
    ensures lenf == 0 && lenb == 0
    ensures BlockFor(prior, target, 0, 0, d, 0, 0, 0) == Block([], target[..d], 0)
  {
    var f, b, cut :| Planned(prior, target, 0, 0, d, 0, f, b, cut, lenf, lenb);
    NewHits(prior, target, f);
    NewHits(prior, target, 0);
    hide Hits;
    assert f == 0;
    assert target[0..d] == target[..d] && Difference(prior, target, 0, 0, 0) == [];
  }

  lemma InsertedFirst(sa: seq<int>, prior: seq<Byte>, target: seq<Byte>, d: int, s': Spot)
    requires IsSuffixArray(prior, sa) && Inserted(prior, target, d)
    requires Advances(sa, prior, target, Spot(0, 0, 0, 0, 0, 0, []), s')
    ensures s' == Spot(d, s'.len, 0, d, 0, -d, [Block([], target[..d], 0)]) && s'.len >= 9 && d < |target|
  {
    hide IsSuffixArray, Stops, OldScore, Inserted, Found, PlannedBlock, BlockFor;
    InsertedFollows(prior, target, d, d);
    InsertedStops(sa, prior, target, d, (0, 0), s'.scan, s'.len, s'.pos);
    InsertedMatch(sa, prior, target, d);
    InsertedScore(sa, prior, target, d);
    var lenf, lenb :| Cuts(prior, target, Spot(0, 0, 0, 0, 0, 0, []), s', lenf, lenb);
    InsertedCut(prior, target, d, lenf, lenb);
  }

  /** Bytes inserted in front cost one block of exactly these extra bytes: the rest, shifted by them and overwritten
      here and there, becomes one more block against the whole prior file, because the differ keeps to the new
      alignment. */
  lemma TwoBlocksInserted(prior: seq<Byte>, target: seq<Byte>, d: int, blocks: seq<Block>) returns (f: int, pos: int)
    requires Scanned(prior, target, blocks) && Inserted(prior, target, d)
    ensures BestForward(prior, target, 0, d, |target|, f) && 0 <= pos <= |prior|
    ensures blocks == [Block([], target[..d], 0), BlockFor(prior, target, d, 0, |target|, pos, f, 0)]
  {
    hide IsSuffixArray, Trace, BlockFor, BestForward, Follows, Advances, Inserted;
    var sa: seq<int>, spots: seq<Spot> :| Complete(sa, prior, target, spots, blocks);
    InsertedFollows(prior, target, d, d);
    TraceFirst(sa, prior, target, spots);
    InsertedFirst(sa, prior, target, d, spots[1]);
    InsertedFollows(prior, target, d, d + spots[1].len);
    Coasts(sa, prior, target, spots, 1);
    var s' := spots[|spots| - 1];
    pos := s'.pos;
    f :| LastBlockOf(prior, target, spots[1], s', f);
    BestForwardFits(prior, target, 0, d, |target|, f);
  }

  /** The target starts like the prior file for c bytes, and none of its later bytes occurs there. */
  ghost predicate StartsAlike(prior: seq<Byte>, target: seq<Byte>, c: int) {
    && 0 <= c <= |prior| && c <= |target| && prior[..c] == target[..c]
    && forall i :: c <= i < |target| ==> target[i] !in prior
  }

  lemma AlikeAt(prior: seq<Byte>, target: seq<Byte>, c: int, i: int)
    requires StartsAlike(prior, target, c) && 0 <= i < |target|
    ensures i < c ==> prior[i] == target[i]
    ensures c <= i < |prior| ==> prior[i] != target[i]
  {
    if i < c {
      assert prior[..c][i] == target[..c][i];
    } else if i < |prior| {
      assert prior[i] in prior;
    }
  }

  lemma {:induction false} AlikeHits(prior: seq<Byte>, target: seq<Byte>, c: int, k: int)
    requires StartsAlike(prior, target, c) && 0 <= k <= |prior| && k <= |target|
    ensures Hits(prior, target, 0, 0, k) == if k <= c then k else c
    decreases k
  {
    if k > 0 {
      AlikeAt(prior, target, c, k - 1);
      hide StartsAlike;
      AlikeHits(prior, target, c, k - 1);
    }
  }

  lemma AlikeBest(prior: seq<Byte>, target: seq<Byte>, c: int, f: int)
    requires StartsAlike(prior, target, c) && BestForward(prior, target, 0, 0, |target|, f)
    ensures f == c
  {
    AlikeHits(prior, target, c, c);
    AlikeHits(prior, target, c, f);
    hide StartsAlike, Hits;
  }

  lemma AlikeFollows(prior: seq<Byte>, target: seq<Byte>, c: int)
    requires StartsAlike(prior, target, c)
    ensures Follows(prior, target, 0, 0)
  {
    forall i | 0 <= i < |target| ensures target[i] !in prior || (0 <= i < |prior| && prior[i] == target[i]) {
      AlikeAt(prior, target, c, i);
    }
  }

  /** One block that adds zero to every byte. */
  ghost predicate NoChange(blocks: seq<Block>) {
    |blocks| == 1 && blocks[0].extra == [] && forall i :: 0 <= i < |blocks[0].diff| ==> blocks[0].diff[i] == 0
  }

  /** Identical files give one block without extra bytes, and without a prior file the whole target is stored. */
  lemma OneBlockEnds(prior: seq<Byte>, target: seq<Byte>, blocks: seq<Block>)
    requires Scanned(prior, target, blocks) && target != []
    ensures prior == target ==> NoChange(blocks)
    ensures prior == [] ==> blocks == [Block([], target, 0)]
  {
    hide Scanned;
    if prior == target {
      OneBlockAlike(prior, target, |target|, blocks);
    }
    if prior == [] {
      OneBlockAlike(prior, target, 0, blocks);
    }
  }

  lemma AlikeBlock(prior: seq<Byte>, target: seq<Byte>, c: int, pos: int)
    requires StartsAlike(prior, target, c)
    ensures var b := BlockFor(prior, target, 0, 0, |target|, pos, c, 0);
            && b.extra == target[c..] && b.seek == pos - c && |b.diff| == c
            && forall i :: 0 <= i < c ==> b.diff[i] == 0
  {
    var b := BlockFor(prior, target, 0, 0, |target|, pos, c, 0);
    forall i | 0 <= i < c ensures b.diff[i] == 0 {
      AlikeAt(prior, target, c, i);
    }
  }

  /** When the target starts like the prior file and shares no later byte with it, all of the common start becomes zero
      difference bytes and the rest extra bytes, in one block. */
  lemma OneBlockAlike(prior: seq<Byte>, target: seq<Byte>, c: int, blocks: seq<Block>)
    requires Scanned(prior, target, blocks) && StartsAlike(prior, target, c) && target != []
    ensures |blocks| == 1 && blocks[0].extra == target[c..] && -c <= blocks[0].seek <= |prior| - c
    ensures |blocks[0].diff| == c && forall i :: 0 <= i < c ==> blocks[0].diff[i] == 0
  {
    hide Scanned, BlockFor, StartsAlike, Follows, BestForward;
    AlikeFollows(prior, target, c);
    var f, pos := OneBlockEdited(prior, target, blocks);
    AlikeBest(prior, target, c, f);
    AlikeBlock(prior, target, c, pos);
  }
}
