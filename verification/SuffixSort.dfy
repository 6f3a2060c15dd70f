/** Larsson-Sadakane suffix sorting in place, on the arrays I and V. */
module SuffixSort {
  import opened Words
  import opened SuffixOrder
  import opened SuffixGroups
  import opened SuffixPartition
  import opened SuffixMarks

  /** The arrays hold exactly w: V its numbers, I its order on lo..hi. */
  ghost predicate Holds(I: array<int>, V: array<int>, w: Groups, lo: int, hi: int)
    reads I, V
  {
    && I != V && I.Length == V.Length == |w.at| && V[..] == w.num && 0 <= lo <= hi <= I.Length
    && (forall k :: lo <= k < hi ==> I[k] == w.at[k])
  }

  /** Positions lo..mid come before mid..hi. */
  ghost predicate Precede(s: seq<Byte>, w: Groups, lo: int, mid: int, hi: int) {
    && 0 <= lo <= mid <= hi <= |w.at|
    && (forall k :: lo <= k < hi ==> 0 <= w.at[k] <= |s|)
    && (forall i, j :: lo <= i < mid <= j < hi ==> Less(s, w.at[i], w.at[j]))
  }

  /** Positions lo..hi agree on e bytes. */
  ghost predicate Agree(s: seq<Byte>, w: Groups, e: int, lo: int, hi: int) {
    && 0 <= lo <= hi <= |w.at|
    && (forall i, j :: lo <= i < hi && lo <= j < hi ==> Share(s, e, w.at[i], w.at[j]))
  }

  /** Give positions lo..mid the number mid-1 and mark a singleton. */
  method AssignGroup(I: array<int>, V: array<int>, lo: int, mid: int, ghost s: seq<Byte>, ghost w: Groups,
                     ghost h: int, ghost hi: int, ghost g: int) returns (ghost w': Groups)
    requires Pending(s, w, h, lo, hi, g) && lo < mid <= hi && Holds(I, V, w, lo, hi)
    requires Precede(s, w, lo, mid, hi) && Agree(s, w, 2 * h, lo, mid)
    modifies I, V
    ensures w'.num == V[..] && Refined(s, w, w', old(I[..]), I[..], h, lo, mid)
  {
    hide Precede, Agree, Ordered;
    for i := lo to mid
      invariant I[..] == old(I[..])
      invariant forall a :: 0 <= a < V.Length ==> V[a] == if lo <= w.pos[a] < i then mid - 1 else w.num[a]
    {
      V[I[i]] := mid - 1;
    }
    if mid == lo + 1 {
      I[lo] := -1;
    }
    w' := w.(num := V[..]);
    AssignedRefined(s, w, w', old(I[..]), I[..], h, lo, mid, hi, g);
  }

  lemma AssignedRefined(s: seq<Byte>, w: Groups, w': Groups, m: seq<int>, m': seq<int>, h: int, lo: int, mid: int,
                        hi: int, g: int)
    requires Pending(s, w, h, lo, hi, g) && lo < mid <= hi && Renumbered(w, w', lo, mid)
    requires |m| == |m'| == |w.at| && forall k :: lo <= k < mid ==> m[k] == w.at[k]
    requires m' == if mid == lo + 1 then m[lo := -1] else m
    requires Precede(s, w, lo, mid, hi) && Agree(s, w, 2 * h, lo, mid)
    ensures Refined(s, w, w', m, m', h, lo, mid)
  {
    RenumberedGrouped(s, w, w', h, lo, mid, hi, g);
    RenumberedOrdered(s, w, w', h, lo, mid, hi, g);
    assert Untouched(w, w', m, m', lo, mid);
    AssignedResolved(s, w, w', m, m', 2 * h, lo, mid);
  }

  lemma AssignedResolved(s: seq<Byte>, w: Groups, w': Groups, m: seq<int>, m': seq<int>, e: int, lo: int, mid: int)
    requires 0 <= lo < mid <= |w.at| && Renumbered(w, w', lo, mid) && Ends(w, lo - 1)
    requires |m| == |m'| == |w.at| && forall k :: lo <= k < mid ==> m[k] == w.at[k]
    requires m' == if mid == lo + 1 then m[lo := -1] else m
    requires Agree(s, w, e, lo, mid)
    ensures Resolved(s, w', m', e, lo, mid)
  {
    assert Ends(w', lo - 1) by {
      if lo > 0 { assert w.pos[w.at[lo - 1]] == lo - 1; }
    }
    forall k | lo <= k < mid
      ensures w'.num[w'.at[k]] == mid - 1
    {
      assert w.pos[w.at[k]] == k;
    }
    forall k | lo <= k < mid
      ensures Single(w', k) <==> mid == lo + 1
    {
    }
  }

  ghost function Swapped(w: Groups, i: int, j: int): Groups
    requires Inverse(w) && 0 <= i < |w.at| && 0 <= j < |w.at|
  {
    Groups(w.at[i := w.at[j]][j := w.at[i]], w.pos[w.at[i] := j][w.at[j] := i], w.num)
  }

  lemma SwappedPermuted(w0: Groups, w: Groups, i: int, j: int, lo: int, hi: int)
    requires Permuted(w0, w, lo, hi) && 0 <= lo <= i < hi <= |w.at| && lo <= j < hi
    ensures Permuted(w0, Swapped(w, i, j), lo, hi)
  {
  }

  /** Swaps inside lo..hi permute the suffixes there. */
  lemma {:induction false} SwapsPermute(order: seq<int>, swaps: seq<(int, int)>, w: Groups, lo: int, hi: int)
    returns (w': Groups)
    requires Inverse(w) && |order| == |w.at| && 0 <= lo <= hi <= |order| && SwapsWithin(swaps, lo, hi)
    requires forall k :: lo <= k < hi ==> order[k] == w.at[k]
    ensures Permuted(w, w', lo, hi)
    ensures forall k :: lo <= k < hi ==> RunSwaps(order, swaps)[k] == w'.at[k]
    ensures forall k :: 0 <= k < |order| && !(lo <= k < hi) ==> RunSwaps(order, swaps)[k] == order[k]
    decreases |swaps|
  {
    if swaps == [] {
      w' := w;
    } else {
      var last := swaps[|swaps| - 1];
      assert last in swaps;
      var w1 := SwapsPermute(order, swaps[..|swaps| - 1], w, lo, hi);
      SwappedPermuted(w, w1, last.0, last.1, lo, hi);
      w' := Swapped(w1, last.0, last.1);
    }
  }

  lemma PendingReadable(s: seq<Byte>, w: Groups, I: array<int>, V: array<int>, h: int, lo: int, hi: int, g: int)
    requires Pending(s, w, h, lo, hi, g) && Holds(I, V, w, lo, hi)
    ensures Readable(I[..], V[..], h, lo, hi)
  {
  }

  /** Positions a..b, whose keys have class v, come before b..c, whose keys have larger classes. */
  lemma KeysPrecede(s: seq<Byte>, w: Groups, m: seq<int>, h: int, lo: int, hi: int, g: int, x: int, a: int, b: int,
                    c: int, v: int)
    requires Pending(s, w, h, lo, hi, g) && |m| == |w.at| && forall k :: lo <= k < hi ==> m[k] == w.at[k]
    requires lo <= a <= b <= c <= hi && Readable(m, w.num, h, lo, hi)
    requires AllClass(m, w.num, h, x, a, b, v)
    requires forall k :: b <= k < c ==> Class(w.num[m[k] + h], x) > v
    ensures Precede(s, w, a, b, c)
  {
    hide Less, Share, Grouped;
    forall i, j | a <= i < b <= j < c
      ensures Less(s, w.at[i], w.at[j])
    {
      KeyLess(s, w.num, h, w.at[i], w.at[j]);
    }
  }

  lemma KeysAgree(s: seq<Byte>, w: Groups, m: seq<int>, h: int, lo: int, hi: int, g: int, x: int, a: int, b: int)
    requires Pending(s, w, h, lo, hi, g) && |m| == |w.at| && forall k :: lo <= k < hi ==> m[k] == w.at[k]
    requires lo <= a <= b <= hi && Readable(m, w.num, h, lo, hi)
    requires AllClass(m, w.num, h, x, a, b, 1)
    ensures Agree(s, w, 2 * h, a, b)
  {
    hide Less, Share, Grouped;
    forall i, j | a <= i < b && a <= j < b
      ensures Share(s, 2 * h, w.at[i], w.at[j])
    {
      KeyEqual(s, w.num, h, w.at[i], w.at[j]);
    }
  }

  /** Reordering by swaps inside lo..hi keeps a pending segment pending. */
  lemma ShuffledPending(s: seq<Byte>, w: Groups, m: seq<int>, m': seq<int>, swaps: seq<(int, int)>, h: int, lo: int,
                        hi: int, g: int)
    returns (w': Groups)
    requires Pending(s, w, h, lo, hi, g) && |m| == |w.at| && Shuffled(m, m', swaps, lo, hi)
    requires forall k :: lo <= k < hi ==> m[k] == w.at[k]
    ensures w'.num == w.num && Pending(s, w', h, lo, hi, g) && Untouched(w, w', m, m', lo, hi)
    ensures forall k :: lo <= k < hi ==> m'[k] == w'.at[k]
  {
    w' := SwapsPermute(m, swaps, w, lo, hi);
    PendingPermuted(s, w, w', h, lo, hi, g);
  }

  method SplitOffLeast(I: array<int>, V: array<int>, ghost start: int, k: int, end: int, h: int, ghost s: seq<Byte>,
                       ghost w0: Groups, ghost m0: seq<int>, ghost w: Groups, ghost g: int)
    returns (j: int, ghost w': Groups)
    requires 0 <= start <= k < end && Pending(s, w, h, k, end, g) && Holds(I, V, w, k, end)
    requires Untouched(w0, w, m0, I[..], start, end) && Resolved(s, w, I[..], 2 * h, start, k)
    modifies I, V
    ensures 1 <= j <= end - k
    ensures Pending(s, w', h, k + j, end, g) && Holds(I, V, w', k + j, end)
    ensures Untouched(w0, w', m0, I[..], start, end) && Resolved(s, w', I[..], 2 * h, start, k + j)
  {
    hide Pending, Inverse, Resolved, Untouched, Shuffled, Precede, Agree;
    ghost var m := I[..];
    PendingReadable(s, w, I, V, h, k, end, g);
    ghost var x, swaps;
    j, x, swaps := SelectLeast(I, V, k, end, h);
    ghost var m1 := I[..];
    ghost var w1 := ShuffledPending(s, w, m, m1, swaps, h, k, end, g);
    KeysPrecede(s, w1, m1, h, k, end, g, x, k, k + j, end, 1);
    KeysAgree(s, w1, m1, h, k, end, g, x, k, k + j);
    w' := AssignGroup(I, V, k, k + j, s, w1, h, end, g);
    RefinedLeaves(s, w1, w', m1, I[..], h, k, k + j, end, g);
    UntouchedCompose(w, w1, w', m, m1, I[..], k, end, k, k + j, k, end);
    UntouchedCompose(w0, w, w', m0, m, I[..], start, end, k, end, start, end);
    ResolvedStays(s, w, w', m, I[..], 2 * h, start, k, end);
    ResolvedJoin(s, w', I[..], 2 * h, start, k, k + j);
  }

  /** Segments of fewer than 16 suffixes: repeated selection of the least keys. */
  method SplitShort(I: array<int>, V: array<int>, start: int, end: int, h: int, ghost s: seq<Byte>, ghost w: Groups,
                    ghost g: int)
    returns (ghost w': Groups)
    requires Pending(s, w, h, start, end, g) && Holds(I, V, w, start, end)
    modifies I, V
    ensures w'.num == V[..] && Refined(s, w, w', old(I[..]), I[..], h, start, end)
  {
    hide Less, Share, Inverse, Ordered;
    var k := start;
    w' := w;
    while k < end
      invariant start <= k <= end
      invariant Pending(s, w', h, k, end, g) && Holds(I, V, w', k, end)
      invariant Untouched(w, w', old(I[..]), I[..], start, end)
      invariant Resolved(s, w', I[..], 2 * h, start, k)
    {
      var j;
      j, w' := SplitOffLeast(I, V, start, k, end, h, s, w, old(I[..]), w', g);
      k := k + j;
    }
  }

  /** The part of a pending segment that comes before the rest of it is pending on its own. */
  lemma PendingFront(s: seq<Byte>, w: Groups, h: int, lo: int, mid: int, hi: int, g: int)
    requires Pending(s, w, h, lo, hi, g) && Precede(s, w, lo, mid, hi)
    ensures Pending(s, w, h, lo, mid, g)
  {
  }

  /** Refining lo..mid does not disturb what is known about later positions. */
  lemma RefinedKeepsLater(s: seq<Byte>, w: Groups, w': Groups, m: seq<int>, m': seq<int>, h: int, lo: int, mid: int,
                          kk: int, hi: int)
    requires Refined(s, w, w', m, m', h, lo, mid) && mid <= kk <= hi
    requires Precede(s, w, mid, kk, hi) && Agree(s, w, 2 * h, mid, kk)
    ensures Precede(s, w', mid, kk, hi) && Agree(s, w', 2 * h, mid, kk)
  {
    hide Less, Share, Grouped, Ordered, Resolved;
  }

  /** Sort a pending segment by the keys h further on: the three-way recursion. */
  method Split(I: array<int>, V: array<int>, start: int, len: int, h: int, ghost s: seq<Byte>, ghost w: Groups,
               ghost g: int)
    returns (ghost w': Groups)
    requires 0 <= len && Pending(s, w, h, start, start + len, g) && Holds(I, V, w, start, start + len)
    modifies I, V
    ensures w'.num == V[..] && Refined(s, w, w', old(I[..]), I[..], h, start, start + len)
    decreases len, 1
  {
    hide Pending, Refined, Untouched, Resolved, Shuffled, Precede, Agree;
    if len < 16 {
      w' := SplitShort(I, V, start, start + len, h, s, w, g);
      return;
    }
    PendingReadable(s, w, I, V, h, start, start + len, g);
    var x := PickPivot(I, V, start, len, h);
    var jj, kk;
    ghost var w1;
    jj, kk, w1 := PartitionPending(I, V, start, start + len, h, x, s, w, g);
    ghost var m1 := I[..];
    ghost var w2, m2 := w1, m1;
    if jj > start {
      w2 := Split(I, V, start, jj - start, h, s, w1, g);
      m2 := I[..];
    } else {
      RefinedNothing(s, w1, m1, h, start, start + len, g, start);
    }
    RefinedLeaves(s, w1, w2, m1, m2, h, start, jj, start + len, g);
    RefinedKeepsLater(s, w1, w2, m1, m2, h, start, jj, kk, start + len);
    w' := SplitRest(I, V, jj, kk, start + len, h, s, w2, g);
    RefinedCompose(s, w1, w2, w', m1, m2, I[..], h, start, jj, start + len);
    RefinedAfterShuffle(s, w, w1, w', old(I[..]), m1, I[..], h, start, start + len);
  }

  /** Behind the keys below the pivot: those at the pivot form a group, those above it are split further. */
  method SplitRest(I: array<int>, V: array<int>, jj: int, kk: int, end: int, h: int, ghost s: seq<Byte>,
                   ghost w: Groups, ghost g: int)
    returns (ghost w': Groups)
    requires jj < kk <= end && Pending(s, w, h, jj, end, g) && Holds(I, V, w, jj, end)
    requires Precede(s, w, jj, kk, end) && Agree(s, w, 2 * h, jj, kk)
    modifies I, V
    ensures w'.num == V[..] && Refined(s, w, w', old(I[..]), I[..], h, jj, end)
    decreases end - jj, 0
  {
    hide Pending, Refined, Precede, Agree;
    ghost var w1 := AssignGroup(I, V, jj, kk, s, w, h, end, g);
    ghost var m1 := I[..];
    RefinedLeaves(s, w, w1, old(I[..]), m1, h, jj, kk, end, g);
    w' := w1;
    if end > kk {
      w' := Split(I, V, kk, end - kk, h, s, w1, g);
      RefinedCompose(s, w, w1, w', old(I[..]), m1, I[..], h, jj, kk, end);
    }
  }

  lemma RefinedAfterShuffle(s: seq<Byte>, w: Groups, w1: Groups, w2: Groups, m: seq<int>, m1: seq<int>, m2: seq<int>,
                            h: int, lo: int, hi: int)
    requires Untouched(w, w1, m, m1, lo, hi) && Refined(s, w1, w2, m1, m2, h, lo, hi)
    ensures Refined(s, w, w2, m, m2, h, lo, hi)
  {
    hide Less, Share, Inverse;
    UntouchedCompose(w, w1, w2, m, m1, m2, lo, hi, lo, hi, lo, hi);
  }

  method PartitionPending(I: array<int>, V: array<int>, start: int, end: int, h: int, x: int, ghost s: seq<Byte>,
                          ghost w: Groups, ghost g: int)
    returns (jj: int, kk: int, ghost w': Groups)
    requires Pending(s, w, h, start, end, g) && Holds(I, V, w, start, end) && Readable(I[..], V[..], h, start, end)
    requires exists k :: start <= k < end && V[I[k] + h] == x
    modifies I
    ensures start <= jj < kk <= end && Pending(s, w', h, start, end, g) && Holds(I, V, w', start, end)
    ensures Untouched(w, w', old(I[..]), I[..], start, end)
    ensures Pending(s, w', h, start, jj, g)
    ensures Precede(s, w', jj, kk, end) && Agree(s, w', 2 * h, jj, kk)
  {
    hide Pending, Inverse, Untouched, Shuffled, Precede, Agree;
    ghost var m := I[..];
    ghost var swaps;
    jj, kk, swaps := Partition(I, V, start, end, h, x);
    w' := ShuffledPending(s, w, m, I[..], swaps, h, start, end, g);
    KeysPrecede(s, w', I[..], h, start, end, g, x, start, jj, end, 0);
    KeysPrecede(s, w', I[..], h, start, end, g, x, jj, kk, end, 1);
    KeysAgree(s, w', I[..], h, start, end, g, x, jj, kk);
    PendingFront(s, w', h, start, jj, end, g);
  }

  /** One step of a pass: record the run before i, then split the group that starts at i. */
  method PassOverGroup(I: array<int>, V: array<int>, i: int, run: int, h: int, ghost s: seq<Byte>, ghost w: Groups)
    returns (len: int, ghost w': Groups)
    requires I != V && I.Length == V.Length == |s| + 1 && V[..] == w.num
    requires 0 <= run <= i <= |s| && I[i] >= 0 && Passing(s, w, I[..], h, i, run)
    modifies I, V
    ensures 0 < len && i + len <= |s| + 1 && h <= |s|
    ensures V[..] == w'.num && Passing(s, w', I[..], h, i + len, 0)
  {
    hide Pending, Passing, Refined, Inverse;
    if run != 0 {
      PassMark(s, w, I[..], h, i, run);
      I[i - run] := -run;
    }
    ghost var m := I[..];
    PassGroup(s, w, m, h, i, run);
    len := V[I[i]] + 1 - i;
    w' := Split(I, V, i, len, h, s, w, i + len - 1);
    PassSplit(s, w, w', m, I[..], h, i, run, i + len);
  }

  /** One doubling pass: every group is split by the keys h further on, sorted runs are skipped and merged. */
  method Pass(I: array<int>, V: array<int>, n: int, h: int, ghost s: seq<Byte>, ghost w: Groups)
    returns (ghost w': Groups)
    requires I != V && n == |s| && I.Length == V.Length == n + 1
    requires V[..] == w.num && Ready(s, w, I[..], h)
    modifies I, V
    ensures V[..] == w'.num && Ready(s, w', I[..], 2 * h)
    ensures h > n ==> I[0] == -(n + 1)
  {
    hide Pending, Passing, Refined;
    PassStart(s, w, I[..], h);
    hide Ready;
    var i, len := 0, 0;
    w' := w;
    while i < n + 1
      invariant 0 <= len <= i <= n + 1
      invariant V[..] == w'.num && Passing(s, w', I[..], h, i, len)
      invariant h > n ==> len == i
    {
      ghost var m := I[..];
      if I[i] < 0 {
        PassSkip(s, w', m, h, i, len);
        len := len - I[i];
        i := i - I[i];
      } else {
        len, w' := PassOverGroup(I, V, i, len, h, s, w');
        i := i + len;
        len := 0;
      }
    }
    if len != 0 {
      PassMark(s, w', I[..], h, i, len);
      I[i - len] := -len;
    }
    PassEnd(s, w', I[..], h, len);
  }
}
