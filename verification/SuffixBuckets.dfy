/** Bucket counts: where a counting sort by first byte puts every suffix. */
module SuffixBuckets {
  import opened Words
  import opened SuffixOrder
  import opened SuffixGroups

  /** Occurrences of byte c among the first i bytes. */
  ghost function Occ(s: seq<Byte>, c: int, i: int): (r: nat)
    requires 0 <= i <= |s|
    ensures r <= i
    decreases i
  {
    if i == 0 then 0 else Occ(s, c, i - 1) + if s[i - 1] == c then 1 else 0
  }

  /** Bytes smaller than c among the first i bytes. */
  ghost function Below(s: seq<Byte>, c: int, i: int): (r: nat)
    requires 0 <= i <= |s|
    ensures r <= i
    decreases i
  {
    if i == 0 then 0 else Below(s, c, i - 1) + if s[i - 1] < c then 1 else 0
  }

  lemma {:induction false} BelowNext(s: seq<Byte>, c: int, i: int)
    requires 0 <= i <= |s|
    ensures Below(s, c + 1, i) == Below(s, c, i) + Occ(s, c, i)
    decreases i
  {
    if i > 0 { BelowNext(s, c, i - 1); }
  }

  lemma {:induction false} BelowMonotone(s: seq<Byte>, c: int, d: int, i: int)
    requires 0 <= i <= |s| && c <= d
    ensures Below(s, c, i) <= Below(s, d, i)
    ensures c <= 0 ==> Below(s, c, i) == 0
    ensures d >= 256 ==> Below(s, d, i) == i
    decreases i
  {
    if i > 0 { BelowMonotone(s, c, d, i - 1); }
  }

  lemma {:induction false} OccGrows(s: seq<Byte>, c: int, i: int, j: int)
    requires 0 <= i <= j <= |s|
    ensures Occ(s, c, i) <= Occ(s, c, j)
    ensures i < j && s[i] == c ==> Occ(s, c, i) < Occ(s, c, j)
    decreases j
  {
    if i < j { OccGrows(s, c, i, j - 1); }
  }

  /** The position of suffix a after the counting sort; position 0 is kept for the empty suffix. */
  ghost function Place(s: seq<Byte>, a: int): (k: int)
    requires 0 <= a < |s|
  {
    Below(s, s[a], |s|) + Occ(s, s[a], a) + 1
  }

  /** The bucket of byte c is the positions First(c)+1 .. Last(c). */
  ghost function First(s: seq<Byte>, c: int): (k: int) {
    Below(s, c, |s|)
  }

  ghost function Last(s: seq<Byte>, c: int): (k: int) {
    Below(s, c + 1, |s|)
  }

  lemma PlaceInBucket(s: seq<Byte>, a: int)
    requires 0 <= a < |s|
    ensures 0 <= First(s, s[a]) < Place(s, a) <= Last(s, s[a]) <= |s|
  {
    BelowNext(s, s[a], |s|);
    OccGrows(s, s[a], a, |s|);
  }

  lemma BucketOrder(s: seq<Byte>, c: int, d: int)
    requires c < d
    ensures 0 <= First(s, c) <= Last(s, c) <= First(s, d) <= Last(s, d) <= |s|
    ensures d == c + 1 ==> Last(s, c) == First(s, d)
    ensures c <= 0 ==> First(s, c) == 0
    ensures d >= 255 ==> Last(s, d) == |s|
  {
    BelowMonotone(s, c, c + 1, |s|);
    BelowMonotone(s, c + 1, d, |s|);
    BelowMonotone(s, d, d + 1, |s|);
  }

  /** Places are ordered first by byte. */
  lemma PlaceOrder(s: seq<Byte>, a: int, b: int)
    requires 0 <= a < |s| && 0 <= b < |s|
    ensures s[a] < s[b] ==> 0 < Place(s, a) <= Last(s, s[a]) < Place(s, b) <= Last(s, s[b]) <= |s|
    ensures s[a] == s[b] && a < b ==> Place(s, a) < Place(s, b)
  {
    PlaceInBucket(s, a);
    PlaceInBucket(s, b);
    if s[a] < s[b] {
      BucketOrder(s, s[a], s[b]);
    } else if s[a] == s[b] && a < b {
      OccGrows(s, s[a], a, b);
    }
  }

  /** Every position from 1 on lies in the bucket of some byte. */
  lemma {:induction false} BucketOf(s: seq<Byte>, k: int, top: int) returns (c: int)
    requires 1 <= k <= Last(s, top) && 0 <= top <= 255
    ensures 0 <= c <= top && First(s, c) < k <= Last(s, c)
    decreases top
  {
    BucketOrder(s, top - 1, top);
    BucketOrder(s, 0, 255);
    if k <= First(s, top) {
      c := BucketOf(s, k, top - 1);
    } else {
      c := top;
    }
  }

  /** The state after the counting sort. */
  ghost predicate Bucketed(s: seq<Byte>, w: Groups) {
    && Inverse(w) && |w.at| == |s| + 1
    && w.at[0] == |s| && w.num[|s|] == 0
    && (forall a :: 0 <= a < |s| ==> w.pos[a] == Place(s, a) && w.num[a] == Last(s, s[a]))
  }

  /** The suffix at a position of the bucket of c begins with c. */
  lemma BucketedByte(s: seq<Byte>, w: Groups, k: int, c: int)
    requires Bucketed(s, w) && 0 <= k <= |s| && First(s, c) < k <= Last(s, c)
    ensures 0 <= w.at[k] < |s| && s[w.at[k]] == c
  {
    hide Place, First, Last;
    var a := w.at[k];
    assert w.pos[a] == k && w.pos[|s|] == 0;
    BucketOrder(s, c, c + 1);
    PlaceInBucket(s, a);
    if s[a] < c {
      BucketOrder(s, s[a], c);
    } else if c < s[a] {
      BucketOrder(s, c, s[a]);
    }
  }

  lemma BucketedNumber(s: seq<Byte>, w: Groups, a: int)
    requires Bucketed(s, w) && 0 <= a <= |s|
    ensures 0 <= w.pos[a] <= w.num[a] <= |s| && w.num[w.at[w.num[a]]] == w.num[a]
    ensures a < |s| ==> 0 < w.num[a]
    ensures a == |s| ==> w.pos[a] == 0
  {
    hide Place, First, Last;
    assert w.pos[w.at[0]] == 0;
    if a < |s| {
      PlaceInBucket(s, a);
      BucketedByte(s, w, w.num[a], s[a]);
    }
  }

  lemma BucketedGrouped(s: seq<Byte>, w: Groups)
    requires Bucketed(s, w)
    ensures Grouped(w)
  {
    hide Place, First, Last;
    forall a | 0 <= a <= |s|
      ensures w.pos[a] <= w.num[a] <= |s| && w.num[w.at[w.num[a]]] == w.num[a]
    {
      BucketedNumber(s, w, a);
    }
    forall a, b | 0 <= a <= |s| && 0 <= b <= |s| && w.pos[a] <= w.pos[b]
      ensures w.num[a] <= w.num[b]
    {
      BucketedNumber(s, w, b);
      BucketedNumber(s, w, a);
      if a < |s| && b < |s| {
        PlaceOrder(s, b, a);
        PlaceOrder(s, a, b);
      }
    }
  }

  lemma BucketedPair(s: seq<Byte>, w: Groups, a: int, b: int)
    requires Bucketed(s, w) && 0 <= a <= |s| && 0 <= b <= |s|
    ensures w.num[a] < w.num[b] ==> Less(s, a, b)
    ensures w.num[a] == w.num[b] ==> Share(s, 1, a, b)
  {
    hide Place, First, Last;
    BucketedNumber(s, w, a);
    BucketedNumber(s, w, b);
    if a < |s| && b < |s| {
      PlaceOrder(s, a, b);
      PlaceOrder(s, b, a);
    }
  }

  lemma BucketedOrdered(s: seq<Byte>, w: Groups)
    requires Bucketed(s, w)
    ensures Ordered(s, w.num, 1)
  {
    assert |w.num| == |s| + 1;
    hide Inverse, Bucketed, Less, Share;
    forall a, b | 0 <= a <= |s| && 0 <= b <= |s|
      ensures w.num[a] < w.num[b] ==> Less(s, a, b)
      ensures w.num[a] == w.num[b] ==> Share(s, 1, a, b)
    {
      BucketedPair(s, w, a, b);
    }
  }

  /** Buckets end where the next ones begin. */
  lemma {:induction false} BucketedEnds(s: seq<Byte>, w: Groups, c: int)
    requires Bucketed(s, w) && 0 <= c <= 256
    ensures 0 <= First(s, c) <= |s| && Ends(w, First(s, c))
    decreases c
  {
    hide Place, First, Last;
    BucketOrder(s, 0, 256);
    if c > 0 {
      BucketOrder(s, c - 1, c);
      BucketOrder(s, c, 257);
      if First(s, c) == First(s, c - 1) {
        BucketedEnds(s, w, c - 1);
      } else {
        BucketedByte(s, w, First(s, c), c - 1);
      }
    }
  }

  /** The bucket of a byte that occurs once is a singleton group. */
  lemma BucketedSingle(s: seq<Byte>, w: Groups, c: int)
    requires Bucketed(s, w) && 0 <= c <= 255 && Last(s, c) == First(s, c) + 1
    ensures 0 < Last(s, c) <= |s| && Single(w, Last(s, c))
  {
    hide Place, First, Last;
    BucketOrder(s, c, c + 1);
    BucketedEnds(s, w, c);
    BucketedEnds(s, w, c + 1);
  }
}
