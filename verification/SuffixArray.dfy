/** The whole suffix sort: counting sort by first byte, then doubling passes until all is sorted. */
module SuffixArray {
  import opened Words
  import opened SuffixOrder
  import opened SuffixGroups
  import opened SuffixMarks
  import opened SuffixBuckets
  import opened SuffixSort

  /** Bucket starts: buckets[c] is the number of bytes smaller than c. */
  method CountBuckets(s: seq<Byte>) returns (buckets: array<int>)
    ensures fresh(buckets) && buckets.Length == 256
    ensures forall c :: 0 <= c < 256 ==> buckets[c] == First(s, c)
  {
    buckets := new int[256];
    for i := 0 to 256
      invariant forall c :: 0 <= c < i ==> buckets[c] == 0
    {
      buckets[i] := 0;
    }
    for i := 0 to |s|
      invariant forall c :: 0 <= c < 256 ==> buckets[c] == Occ(s, c, i)
    {
      buckets[s[i]] := buckets[s[i]] + 1;
    }
    BelowNext(s, 0, |s|);
    BelowMonotone(s, 0, 0, |s|);
    for i := 1 to 256
      invariant forall c :: 0 <= c < i ==> buckets[c] == Below(s, c + 1, |s|)
      invariant forall c :: i <= c < 256 ==> buckets[c] == Occ(s, c, |s|)
    {
      BelowNext(s, i, |s|);
      buckets[i] := buckets[i] + buckets[i - 1];
    }
    for i := 256 downto 1
      invariant forall c :: 0 <= c < i ==> buckets[c] == Below(s, c + 1, |s|)
      invariant forall c :: i <= c < 256 ==> buckets[c] == Below(s, c, |s|)
    {
      buckets[i] := buckets[i - 1];
    }
    buckets[0] := 0;
  }

  /** The first i suffixes stand at their places, bucket by bucket. */
  ghost predicate Placed(s: seq<Byte>, I: seq<int>, i: int) {
    && |I| == |s| + 1 && 0 <= i <= |s|
    && (forall a :: 0 <= a < i ==> 0 < Place(s, a) <= |s| && I[Place(s, a)] == a)
    && (forall c, k :: 0 <= c < 256 && 0 < k <= |s| && First(s, c) < k <= First(s, c) + Occ(s, c, i) ==>
          0 <= I[k] < i && Place(s, I[k]) == k)
  }

  lemma PlacedNext(s: seq<Byte>, I: seq<int>, i: int)
    requires Placed(s, I, i) && i < |s|
    ensures 0 < Place(s, i) <= |s| && Placed(s, I[Place(s, i) := i], i + 1)
  {
    PlaceInBucket(s, i);
    var at := Place(s, i);
    var I' := I[at := i];
    forall a | 0 <= a < i + 1 ensures 0 < Place(s, a) <= |s| && I'[Place(s, a)] == a {
      hide Place;
      if a < i {
        PlaceOrder(s, a, i);
        PlaceOrder(s, i, a);
      }
    }
    forall c, k | 0 <= c < 256 && 0 < k <= |s| && First(s, c) < k <= First(s, c) + Occ(s, c, i + 1)
      ensures 0 <= I'[k] < i + 1 && Place(s, I'[k]) == k
    {
      if c != s[i] || k < at {
        assert 0 <= I[k] < i;
      }
    }
  }

  /** Put suffix i into the next free place of its bucket. */
  method PlaceSuffixes(I: array<int>, s: seq<Byte>, buckets: array<int>)
    requires I != buckets && I.Length == |s| + 1 && buckets.Length == 256
    requires forall c :: 0 <= c < 256 ==> buckets[c] == First(s, c)
    modifies I, buckets
    ensures Placed(s, I[..], |s|)
    ensures forall c :: 0 <= c < 256 ==> buckets[c] == Last(s, c)
  {
    for i := 0 to |s|
      invariant Placed(s, I[..], i)
      invariant forall c :: 0 <= c < 256 ==> buckets[c] == First(s, c) + Occ(s, c, i)
    {
      PlacedNext(s, I[..], i);
      hide Placed, First;
      buckets[s[i]] := buckets[s[i]] + 1;
      I[buckets[s[i]]] := i;
    }
    forall c | 0 <= c < 256 ensures buckets[c] == Last(s, c) {
      BelowNext(s, c, |s|);
    }
  }

  /** Group numbers are the last positions of the buckets. */
  method NumberSuffixes(V: array<int>, s: seq<Byte>, buckets: array<int>)
    requires V != buckets && V.Length == |s| + 1 && buckets.Length == 256
    requires forall c :: 0 <= c < 256 ==> buckets[c] == Last(s, c)
    modifies V
    ensures V[|s|] == 0 && forall a :: 0 <= a < |s| ==> V[a] == Last(s, s[a])
  {
    for i := 0 to |s|
      invariant forall a :: 0 <= a < i ==> V[a] == Last(s, s[a])
    {
      V[i] := buckets[s[i]];
    }
    V[|s|] := 0;
  }

  lemma PlacedBucketed(s: seq<Byte>, I: seq<int>, V: seq<int>) returns (w: Groups)
    requires Placed(s, I, |s|) && I[0] == |s| && |V| == |s| + 1
    requires V[|s|] == 0 && forall a :: 0 <= a < |s| ==> V[a] == Last(s, s[a])
    ensures w.at == I && w.num == V && Bucketed(s, w)
  {
    w := Groups(I, seq(|s|, a requires 0 <= a < |s| => Place(s, a)) + [0], V);
    forall k | 1 <= k <= |s| ensures 0 <= I[k] < |s| && Place(s, I[k]) == k {
      BucketOrder(s, 0, 255);
      var c := BucketOf(s, k, 255);
      BelowNext(s, c, |s|);
    }
  }

  /** Only singleton groups are marked. */
  ghost predicate OnlySinglesMarked(s: seq<Byte>, w: Groups, m: seq<int>) {
    && Inverse(w) && |m| == |w.at| == |s| + 1
    && (forall k :: 0 < k <= |s| && m[k] != w.at[k] ==> m[k] == -1 && Single(w, k))
  }

  /** Mark the singleton buckets; the bucket of byte 0 is left to the first pass. */
  method MarkSingles(I: array<int>, buckets: array<int>, ghost s: seq<Byte>, ghost w: Groups)
    requires I != buckets && Bucketed(s, w) && I[..] == w.at && buckets.Length == 256
    requires forall c :: 0 <= c < 256 ==> buckets[c] == Last(s, c)
    modifies I
    ensures Ready(s, w, I[..], 1) && I[0] == -1
  {
    hide Ready, First, Last;
    for i := 1 to 256
      invariant OnlySinglesMarked(s, w, I[..])
    {
      BucketOrder(s, i - 1, i);
      if buckets[i] == buckets[i - 1] + 1 {
        BucketedSingle(s, w, i);
        I[buckets[i]] := -1;
      }
    }
    BucketsReady(s, w, I[..]);
    I[0] := -1;
  }

  lemma BucketsReady(s: seq<Byte>, w: Groups, m: seq<int>)
    requires Bucketed(s, w) && OnlySinglesMarked(s, w, m)
    ensures Ready(s, w, m[0 := -1], 1)
  {
    BucketedGrouped(s, w);
    BucketedOrdered(s, w);
    var m' := m[0 := -1];
    assert w.pos[w.at[0]] == 0;
    assert Single(w, 0);
    forall k | 1 <= k <= |s| ensures 0 <= w.at[k] < |s| {
      assert w.pos[w.at[k]] == k;
    }
    hide Grouped, Ordered, Bucketed, Loose, Single;
    forall k | 0 <= k < |m| ensures Loose(|s|, m', w, 1, k) {
      UnmarkedOrSingle(|s|, w, m', k);
    }
  }

  lemma UnmarkedOrSingle(n: int, w: Groups, m: seq<int>, k: int)
    requires Inverse(w) && |m| == |w.at| && 0 <= k < |m|
    requires (m[k] == -1 && Single(w, k)) || (m[k] == w.at[k] && w.at[k] < n)
    ensures Loose(n, m, w, 1, k)
  {
    hide Inverse, Single;
    if m[k] == -1 && Single(w, k) {
      assert MarksRun(m, w, k);
    }
  }

  /** Strictly increasing order of all suffixes of s, the empty one included. */
  ghost predicate IsSuffixArray(s: seq<Byte>, I: seq<int>) {
    && |I| == |s| + 1
    && (forall k :: 0 <= k < |I| ==> 0 <= I[k] <= |s|)
    && (forall a :: 0 <= a <= |s| ==> a in I)
    && (forall i, j :: 0 <= i < j < |I| ==> Less(s, I[i], I[j]))
  }

  /** When the first mark covers the whole array, the group numbers are the sorted positions. */
  lemma AllSingle(s: seq<Byte>, w: Groups, m: seq<int>, h: int)
    requires Ready(s, w, m, h) && m[0] == -(|s| + 1)
    ensures Inverse(w) && |w.at| == |s| + 1 && w.num == w.pos
    ensures IsSuffixArray(s, w.at)
  {
    assert Loose(|s|, m, w, h, 0);
    assert MarksRun(m, w, 0);
    forall a | 0 <= a <= |s| ensures w.num[a] == w.pos[a] && a in w.at {
      assert Single(w, w.pos[a]) && w.at[w.pos[a]] == a;
    }
    forall i, j | 0 <= i < j < |w.at| ensures Less(s, w.at[i], w.at[j]) {
      assert w.num[w.at[i]] == i && w.num[w.at[j]] == j;
    }
  }

  /** Counting sort by first byte: the state before the first pass. */
  method BucketSort(I: array<int>, V: array<int>, s: seq<Byte>) returns (ghost w: Groups)
    requires I != V && I.Length == V.Length == |s| + 1
    modifies I, V
    ensures V[..] == w.num && Ready(s, w, I[..], 1) && I[0] == -1
  {
    hide Ready, Bucketed, First, Last;
    var buckets := CountBuckets(s);
    PlaceSuffixes(I, s, buckets);
    I[0] := |s|;
    NumberSuffixes(V, s, buckets);
    w := PlacedBucketed(s, I[..], V[..]);
    MarkSingles(I, buckets, s, w);
  }

  /** Invert the sorted numbers into I. */
  method WriteOrder(I: array<int>, V: array<int>, ghost w: Groups)
    requires I != V && I.Length == V.Length == |w.at| && Inverse(w) && V[..] == w.pos
    modifies I
    ensures I[..] == w.at
  {
    for i := 0 to V.Length
      invariant forall a :: 0 <= a < i ==> I[w.pos[a]] == a
    {
      I[V[i]] := i;
    }
    forall k | 0 <= k < I.Length ensures I[k] == w.at[k] {
      assert w.pos[w.at[k]] == k;
    }
  }

  /** Sort the suffixes of s into I; V is working storage. */
  method QSufSort(I: array<int>, V: array<int>, s: seq<Byte>)
    requires I != V && I.Length == V.Length == |s| + 1
    modifies I, V
    ensures IsSuffixArray(s, I[..])
  {
    hide Ready, IsSuffixArray, Inverse;
    var n := |s|;
    ghost var w := BucketSort(I, V, s);
    var h := 1;
    while I[0] != -(n + 1)
      invariant V[..] == w.num && Ready(s, w, I[..], h)
      invariant h > 2 * n ==> I[0] == -(n + 1)
      decreases 2 * n + 2 - h
    {
      w := Pass(I, V, n, h, s, w);
      h := h + h;
    }
    AllSingle(s, w, I[..], h);
    WriteOrder(I, V, w);
  }
}
