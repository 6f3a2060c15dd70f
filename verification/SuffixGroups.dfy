/** The state of a suffix sort by prefix doubling, as values: the current order of
    the suffixes, its inverse, and the group number of every suffix. */
module SuffixGroups {
  import opened Words
  import opened SuffixOrder

  /** at[k] is the suffix at position k, pos[a] the position of suffix a, num[a] its group number. */
  datatype Groups = Groups(at: seq<int>, pos: seq<int>, num: seq<int>)

  ghost predicate Inverse(w: Groups) {
    && |w.at| == |w.pos| == |w.num|
    && (forall k :: 0 <= k < |w.at| ==> 0 <= w.at[k] < |w.pos| && w.pos[w.at[k]] == k)
    && (forall a :: 0 <= a < |w.pos| ==> 0 <= w.pos[a] < |w.at| && w.at[w.pos[a]] == a)
  }

  /** Groups are runs of positions, numbered by the last position of the run. */
  ghost predicate Grouped(w: Groups) {
    && Inverse(w)
    && (forall a :: 0 <= a < |w.num| ==> w.pos[a] <= w.num[a] < |w.num|)
    && (forall a :: 0 <= a < |w.num| ==> w.num[w.at[w.num[a]]] == w.num[a])
    && (forall a, b :: 0 <= a < |w.num| && 0 <= b < |w.num| && w.pos[a] <= w.pos[b] ==> w.num[a] <= w.num[b])
  }

  /** Different numbers order the suffixes; equal numbers mean the first h bytes agree. */
  ghost predicate Ordered(s: seq<Byte>, num: seq<int>, h: int) {
    && |num| == |s| + 1
    && (forall a, b :: 0 <= a <= |s| && 0 <= b <= |s| && num[a] < num[b] ==> Less(s, a, b))
    && (forall a, b :: 0 <= a <= |s| && 0 <= b <= |s| && num[a] == num[b] ==> Share(s, h, a, b))
  }

  /** Some group ends at position k; -1 stands for the start of the array. */
  ghost predicate Ends(w: Groups, k: int)
    requires Inverse(w) && -1 <= k < |w.at|
  {
    k == -1 || w.num[w.at[k]] == k
  }

  ghost predicate Single(w: Groups, k: int)
    requires Inverse(w) && 0 <= k < |w.at|
  {
    Ends(w, k - 1) && Ends(w, k)
  }

  /** Positions lo..hi still have to be sorted by the group number h further on.  All
      positions lo..g carry number g, and those from hi on are known to come later. */
  ghost predicate Pending(s: seq<Byte>, w: Groups, h: int, lo: int, hi: int, g: int) {
    && 0 <= lo <= hi <= g + 1 <= |w.num| && 0 < h
    && Grouped(w) && Ordered(s, w.num, h)
    && Ends(w, lo - 1)
    && (forall k :: lo <= k <= g ==> w.num[w.at[k]] == g)
    && (forall k :: lo <= k < hi ==> w.at[k] + h <= |s|)
    && (forall i, j :: lo <= i < hi <= j <= g ==> Less(s, w.at[i], w.at[j]))
  }

  /** Same group numbers, and the same suffixes inside and outside lo..hi. */
  ghost predicate Permuted(w: Groups, w': Groups, lo: int, hi: int) {
    && Inverse(w) && Inverse(w') && w'.num == w.num
    && (forall k :: 0 <= k < |w.at| && !(lo <= k < hi) ==> w'.at[k] == w.at[k])
  }

  lemma PermutedStays(w: Groups, w': Groups, lo: int, hi: int)
    requires Permuted(w, w', lo, hi)
    ensures forall a :: 0 <= a < |w.pos| && !(lo <= w.pos[a] < hi) ==> w'.pos[a] == w.pos[a]
    ensures forall a :: 0 <= a < |w.pos| ==> (lo <= w.pos[a] < hi <==> lo <= w'.pos[a] < hi)
  {
    forall a | 0 <= a < |w.pos| && !(lo <= w.pos[a] < hi)
      ensures w'.pos[a] == w.pos[a]
    {
      assert w'.at[w.pos[a]] == a;
    }
    forall a | 0 <= a < |w.pos| && !(lo <= w'.pos[a] < hi)
      ensures w'.pos[a] == w.pos[a]
    {
      assert w.at[w'.pos[a]] == a;
    }
  }

  lemma PendingPermuted(s: seq<Byte>, w: Groups, w': Groups, h: int, lo: int, hi: int, g: int)
    requires Pending(s, w, h, lo, hi, g) && Permuted(w, w', lo, hi)
    ensures Pending(s, w', h, lo, hi, g)
  {
    hide Less, Share, Ordered;
    PermutedStays(w, w', lo, hi);
    forall k | lo <= k < hi
      ensures lo <= w.pos[w'.at[k]] < hi && w.at[w.pos[w'.at[k]]] == w'.at[k]
    {
      assert w'.pos[w'.at[k]] == k;
    }
    PermutedGrouped(w, w', lo, hi, g);
  }

  lemma PermutedGrouped(w: Groups, w': Groups, lo: int, hi: int, g: int)
    requires Grouped(w) && Permuted(w, w', lo, hi) && 0 <= lo <= hi <= g + 1 <= |w.num|
    requires forall k :: lo <= k <= g ==> w.num[w.at[k]] == g
    requires forall k :: lo <= k < hi ==> lo <= w.pos[w'.at[k]] < hi
    requires forall a :: 0 <= a < |w.pos| && !(lo <= w.pos[a] < hi) ==> w'.pos[a] == w.pos[a]
    requires forall a :: 0 <= a < |w.pos| ==> (lo <= w.pos[a] < hi <==> lo <= w'.pos[a] < hi)
    ensures Grouped(w')
  {
    forall a | 0 <= a < |w.num|
      ensures lo <= w.pos[a] < hi ==> w.num[a] == g
    {
      assert w.at[w.pos[a]] == a;
    }
    forall a | 0 <= a < |w.num|
      ensures w'.num[w'.at[w'.num[a]]] == w'.num[a]
    {
      if lo <= w.num[a] < hi {
        assert w.num[w.at[w.num[a]]] == g;
      }
    }
  }

  /** Sorting key of a suffix: the group number h positions further on. */
  lemma KeyLess(s: seq<Byte>, num: seq<int>, h: nat, a: int, b: int)
    requires Ordered(s, num, h)
    requires 0 <= a <= a + h <= |s| && 0 <= b <= b + h <= |s| && num[a] == num[b]
    requires num[a + h] < num[b + h]
    ensures Less(s, a, b)
  {
    LessAfterShared(s, h, a, b);
  }

  lemma KeyEqual(s: seq<Byte>, num: seq<int>, h: nat, a: int, b: int)
    requires Ordered(s, num, h)
    requires 0 <= a <= a + h <= |s| && 0 <= b <= b + h <= |s| && num[a] == num[b]
    requires num[a + h] == num[b + h]
    ensures Share(s, 2 * h, a, b)
  {
    ShareDouble(s, h, a, b);
  }

  /** Giving the first part lo..mid of a pending segment its own number. */
  ghost predicate Renumbered(w: Groups, w': Groups, lo: int, mid: int) {
    && Inverse(w) && w'.at == w.at && w'.pos == w.pos && |w'.num| == |w.num|
    && (forall a :: 0 <= a < |w.num| ==>
          w'.num[a] == if lo <= w.pos[a] < mid then mid - 1 else w.num[a])
  }

  lemma RenumberedGrouped(s: seq<Byte>, w: Groups, w': Groups, h: int, lo: int, mid: int, hi: int, g: int)
    requires Pending(s, w, h, lo, hi, g) && lo < mid <= hi && Renumbered(w, w', lo, mid)
    ensures Grouped(w') && Ends(w', mid - 1)
    ensures forall k :: mid <= k <= g ==> w'.num[w'.at[k]] == g
  {
    NumberOutside(s, w, h, lo, hi, g);
    hide Ordered, Less, Share;
    forall a | 0 <= a < |w.num|
      ensures w'.num[w'.at[w'.num[a]]] == w'.num[a]
    {
      assert w.pos[w.at[w'.num[a]]] == w'.num[a];
    }
  }

  /** A suffix placed outside lo..g has a number outside lo..g on the same side. */
  lemma NumberOutside(s: seq<Byte>, w: Groups, h: int, lo: int, hi: int, g: int)
    requires Pending(s, w, h, lo, hi, g)
    ensures forall a :: 0 <= a < |w.num| && w.pos[a] < lo ==> w.num[a] < lo
    ensures forall a :: 0 <= a < |w.num| && w.pos[a] > g ==> w.num[a] > g
    ensures forall a :: 0 <= a < |w.num| && lo <= w.pos[a] <= g ==> w.num[a] == g
  {
    forall a | 0 <= a < |w.num| && w.pos[a] < lo
      ensures w.num[a] < lo
    {
      assert w.pos[w.at[lo - 1]] == lo - 1;
    }
    forall a | 0 <= a < |w.num| && lo <= w.pos[a] <= g
      ensures w.num[a] == g
    {
      assert w.at[w.pos[a]] == a;
    }
  }

  lemma RenumberedOrdered(s: seq<Byte>, w: Groups, w': Groups, h: int, lo: int, mid: int, hi: int, g: int)
    requires Pending(s, w, h, lo, hi, g) && lo < mid <= hi && Renumbered(w, w', lo, mid)
    requires forall i, j :: lo <= i < mid <= j < hi ==> Less(s, w.at[i], w.at[j])
    ensures Ordered(s, w'.num, h)
  {
    NumberOutside(s, w, h, lo, hi, g);
    forall a, b | 0 <= a <= |s| && 0 <= b <= |s| && w'.num[a] < w'.num[b]
      ensures Less(s, a, b)
    {
      assert w.at[w.pos[a]] == a && w.at[w.pos[b]] == b;
    }
    forall a, b | 0 <= a <= |s| && 0 <= b <= |s| && w'.num[a] == w'.num[b]
      ensures Share(s, h, a, b)
    {
      assert w.num[a] == w.num[b];
    }
  }

  /** Nothing outside positions lo..hi has changed. */
  ghost predicate Untouched(w: Groups, w': Groups, marks: seq<int>, marks': seq<int>, lo: int, hi: int) {
    && Inverse(w) && Inverse(w')
    && |w.at| == |w'.at| == |marks| == |marks'| && 0 <= lo <= hi <= |w.at|
    && (forall k :: 0 <= k < |w.at| && !(lo <= k < hi) ==> w'.at[k] == w.at[k] && marks'[k] == marks[k])
    && (forall a :: 0 <= a < |w.num| && !(lo <= w.pos[a] < hi) ==> w'.num[a] == w.num[a])
  }

  /** Numbers of positions lo..hi lie in lo..hi, equal ones share e bytes, and marks
      tells singletons (-1) from members of larger groups (their suffix). */
  ghost predicate Resolved(s: seq<Byte>, w: Groups, marks: seq<int>, e: int, lo: int, hi: int) {
    && Inverse(w) && 0 <= lo <= hi <= |w.at| == |marks|
    && (forall k :: lo <= k < hi ==> lo <= w.num[w.at[k]] < hi)
    && (forall k :: lo <= k < hi ==> marks[k] == if Single(w, k) then -1 else w.at[k])
    && (forall i, j :: lo <= i < hi && lo <= j < hi && w.num[w.at[i]] == w.num[w.at[j]] ==>
          Share(s, e, w.at[i], w.at[j]))
  }

  /** What sorting positions lo..hi achieves. */
  ghost predicate Refined(s: seq<Byte>, w: Groups, w': Groups, marks: seq<int>, marks': seq<int>, h: int, lo: int,
                          hi: int) {
    && Grouped(w') && Ordered(s, w'.num, h)
    && Untouched(w, w', marks, marks', lo, hi)
    && Resolved(s, w', marks', 2 * h, lo, hi)
  }

  lemma UntouchedCompose(w0: Groups, w1: Groups, w2: Groups, m0: seq<int>, m1: seq<int>, m2: seq<int>,
                         a: int, b: int, c: int, d: int, lo: int, hi: int)
    requires Untouched(w0, w1, m0, m1, a, b) && Untouched(w1, w2, m1, m2, c, d)
    requires 0 <= lo <= a && b <= hi && lo <= c && d <= hi <= |m2|
    ensures Untouched(w0, w2, m0, m2, lo, hi)
  {
    forall x | 0 <= x < |w0.num| && !(lo <= w0.pos[x] < hi)
      ensures w2.num[x] == w0.num[x]
    {
      assert w0.at[w0.pos[x]] == x == w1.at[w0.pos[x]];
    }
  }

  lemma ResolvedStays(s: seq<Byte>, w1: Groups, w2: Groups, m1: seq<int>, m2: seq<int>, e: int, lo: int, mid: int,
                      hi: int)
    requires Resolved(s, w1, m1, e, lo, mid) && Untouched(w1, w2, m1, m2, mid, hi)
    ensures Resolved(s, w2, m2, e, lo, mid)
  {
    forall k | 0 <= k < mid
      ensures w2.at[k] == w1.at[k] && w2.num[w2.at[k]] == w1.num[w1.at[k]]
    {
      assert w1.pos[w1.at[k]] == k;
    }
    forall k | lo <= k < mid
      ensures Single(w2, k) == Single(w1, k)
    {
    }
  }

  lemma ResolvedJoin(s: seq<Byte>, w: Groups, m: seq<int>, e: int, lo: int, mid: int, hi: int)
    requires Resolved(s, w, m, e, lo, mid) && Resolved(s, w, m, e, mid, hi)
    ensures Resolved(s, w, m, e, lo, hi)
  {
  }

  lemma RefinedCompose(s: seq<Byte>, w0: Groups, w1: Groups, w2: Groups, m0: seq<int>, m1: seq<int>, m2: seq<int>,
                       h: int, lo: int, mid: int, hi: int)
    requires Refined(s, w0, w1, m0, m1, h, lo, mid) && Refined(s, w1, w2, m1, m2, h, mid, hi)
    ensures Refined(s, w0, w2, m0, m2, h, lo, hi)
  {
    UntouchedCompose(w0, w1, w2, m0, m1, m2, lo, mid, mid, hi, lo, hi);
    ResolvedStays(s, w1, w2, m1, m2, 2 * h, lo, mid, hi);
    ResolvedJoin(s, w2, m2, 2 * h, lo, mid, hi);
  }

  /** Refining positions lo..mid leaves the later part of the same group pending. */
  lemma RefinedLeaves(s: seq<Byte>, w: Groups, w': Groups, m: seq<int>, m': seq<int>, h: int, lo: int, mid: int,
                      hi: int, g: int)
    requires Pending(s, w, h, lo, hi, g) && lo <= mid <= hi
    requires Refined(s, w, w', m, m', h, lo, mid)
    requires |m| == |w.at| && forall k :: lo <= k < hi ==> m[k] == w.at[k]
    ensures Pending(s, w', h, mid, hi, g)
    ensures |m'| == |w'.at| && forall k :: mid <= k < hi ==> m'[k] == w'.at[k]
  {
    forall k | mid <= k <= g
      ensures w'.num[w'.at[k]] == g
    {
      assert w.pos[w.at[k]] == k;
    }
    if lo < mid {
      var e := w'.at[mid - 1];
      assert w'.pos[e] == mid - 1;
    } else if lo > 0 {
      assert w.pos[w.at[lo - 1]] == lo - 1;
    }
  }

  lemma RefinedNothing(s: seq<Byte>, w: Groups, m: seq<int>, h: int, lo: int, hi: int, g: int, k: int)
    requires Pending(s, w, h, lo, hi, g) && |m| == |w.at| && 0 <= k <= |m|
    ensures Refined(s, w, w, m, m, h, k, k)
  {
  }
}
