/** The marks that let a doubling pass skip what is already sorted. */
module SuffixMarks {
  import opened Words
  import opened SuffixOrder
  import opened SuffixGroups

  /** m[k] = -r says that the r positions from k on are sorted singletons. */
  ghost predicate MarksRun(m: seq<int>, w: Groups, k: int)
    requires Inverse(w) && |m| == |w.at| && 0 <= k < |m|
  {
    m[k] < 0 && k - m[k] <= |m| && forall q :: k <= q < k - m[k] ==> Single(w, q) && m[q] < 0
  }

  /** Singletons carry marks and members of larger groups stand in m themselves. */
  ghost predicate Marked(m: seq<int>, w: Groups, k: int)
    requires Inverse(w) && |m| == |w.at| && 0 <= k < |m|
  {
    if Single(w, k) then MarksRun(m, w, k) else m[k] == w.at[k]
  }

  /** Before the first pass a singleton may still be unmarked; its key is readable then. */
  ghost predicate Loose(n: int, m: seq<int>, w: Groups, h: int, k: int)
    requires Inverse(w) && |m| == |w.at| && 0 <= k < |m|
  {
    Marked(m, w, k) || (m[k] == w.at[k] && w.at[k] + h <= n)
  }

  /** What holds between passes. */
  ghost predicate Ready(s: seq<Byte>, w: Groups, m: seq<int>, h: int) {
    && 0 < h && Grouped(w) && Ordered(s, w.num, h) && |m| == |w.at|
    && (forall k :: 0 <= k < |m| ==> Loose(|s|, m, w, h, k))
  }

  /** What holds inside a pass: positions below i are sorted by 2h bytes and marked, the last len of them singletons. */
  ghost predicate Passing(s: seq<Byte>, w: Groups, m: seq<int>, h: int, i: int, len: int) {
    && 0 < h && Grouped(w) && Ordered(s, w.num, h) && |m| == |w.at| && 0 <= len <= i <= |m|
    && Ends(w, i - 1)
    && (forall k :: 0 <= k < i ==> Marked(m, w, k))
    && (forall k :: i <= k < |m| ==> Loose(|s|, m, w, h, k))
    && (forall k :: i - len <= k < i ==> Single(w, k))
    && (forall p, q :: 0 <= p < i && 0 <= q < i && w.num[w.at[p]] == w.num[w.at[q]] ==>
         Share(s, 2 * h, w.at[p], w.at[q]))
  }

  lemma PassStart(s: seq<Byte>, w: Groups, m: seq<int>, h: int)
    requires Ready(s, w, m, h)
    ensures Passing(s, w, m, h, 0, 0)
  {
  }

  lemma PassEnd(s: seq<Byte>, w: Groups, m: seq<int>, h: int, len: int)
    requires Passing(s, w, m, h, |m|, len)
    ensures Ready(s, w, m, 2 * h)
  {
    forall a, b | 0 <= a <= |s| && 0 <= b <= |s| && w.num[a] == w.num[b]
      ensures Share(s, 2 * h, a, b)
    {
      assert w.at[w.pos[a]] == a && w.at[w.pos[b]] == b;
    }
  }

  /** Skipping a marked run. */
  lemma PassSkip(s: seq<Byte>, w: Groups, m: seq<int>, h: int, i: int, len: int)
    requires Passing(s, w, m, h, i, len) && i < |m| && m[i] < 0
    ensures i - m[i] <= |m| && Passing(s, w, m, h, i - m[i], len - m[i])
  {
    hide Less, Share, Ordered;
    var e := i - m[i];
    assert Loose(|s|, m, w, h, i);
    assert MarksRun(m, w, i);
    forall k | i <= k < e ensures Marked(m, w, k) {
      assert Loose(|s|, m, w, h, k);
    }
    assert Single(w, e - 1);
    forall p, q | 0 <= p < e && 0 <= q < e && w.num[w.at[p]] == w.num[w.at[q]]
      ensures Share(s, 2 * h, w.at[p], w.at[q])
    {
      SkipShares(s, w, 2 * h, i, e, p, q);
    }
  }

  lemma SkipShares(s: seq<Byte>, w: Groups, f: int, i: int, e: int, p: int, q: int)
    requires Grouped(w) && 0 <= i <= e <= |w.at| && Ends(w, i - 1)
    requires forall k :: i <= k < e ==> Single(w, k)
    requires forall p, q :: 0 <= p < i && 0 <= q < i && w.num[w.at[p]] == w.num[w.at[q]] ==>
             Share(s, f, w.at[p], w.at[q])
    requires 0 <= p < e && 0 <= q < e && w.num[w.at[p]] == w.num[w.at[q]]
    ensures Share(s, f, w.at[p], w.at[q])
  {
    SameGroup(w, i, p, q);
    hide Grouped;
    assert p >= i ==> Single(w, p);
  }

  /** Positions with the same number lie on the same side of a group boundary, and a singleton's number is its own. */
  lemma SameGroup(w: Groups, i: int, p: int, q: int)
    requires Grouped(w) && 0 <= i <= |w.at| && Ends(w, i - 1)
    requires 0 <= p < |w.at| && 0 <= q < |w.at| && w.num[w.at[p]] == w.num[w.at[q]]
    ensures p < i <==> q < i
    ensures Single(w, p) ==> p == q
  {
    assert w.pos[w.at[p]] == p && w.pos[w.at[q]] == q;
    if i > 0 {
      assert w.pos[w.at[i - 1]] == i - 1;
    }
    if p > 0 {
      assert w.pos[w.at[p - 1]] == p - 1;
    }
  }

  /** Writing the length of the run just passed at its start. */
  lemma PassMark(s: seq<Byte>, w: Groups, m: seq<int>, h: int, i: int, len: int)
    requires Passing(s, w, m, h, i, len) && 0 < len
    ensures Passing(s, w, m[i - len := -len], h, i, len)
  {
    var m' := m[i - len := -len];
    forall k | 0 <= k < |m| && (k < i || Loose(|s|, m, w, h, k))
      ensures k < i ==> Marked(m', w, k)
      ensures i <= k ==> Loose(|s|, m', w, h, k)
    {
      assert k < i ==> Marked(m, w, k);
      forall q | i - len <= q < i ensures m'[q] < 0 {
        assert Marked(m, w, q);
      }
    }
  }

  /** A position that is not marked starts a group whose keys can all be read. */
  lemma PassGroup(s: seq<Byte>, w: Groups, m: seq<int>, h: int, i: int, len: int)
    requires Passing(s, w, m, h, i, len) && i < |m| && m[i] >= 0
    ensures m[i] == w.at[i]
    ensures i <= w.num[m[i]] < |m| && h <= |s|
    ensures Pending(s, w, h, i, w.num[m[i]] + 1, w.num[m[i]])
    ensures |w.at| == |m| && Ends(w, w.num[m[i]])
    ensures forall k :: i <= k <= w.num[m[i]] ==> 0 <= m[k] == w.at[k]
  {
    assert Loose(|s|, m, w, h, i);
    var g := w.num[w.at[i]];
    assert w.pos[w.at[i]] == i;
    forall k | i <= k <= g ensures w.num[w.at[k]] == g {
      assert w.pos[w.at[k]] == k && w.pos[w.at[g]] == g;
    }
    forall k | i <= k <= g ensures m[k] == w.at[k] && w.at[k] + h <= |s| {
      assert Loose(|s|, m, w, h, k);
      if g > i {
        var other := if k == i then i + 1 else i;
        assert w.pos[w.at[k]] == k && w.pos[w.at[other]] == other;
        assert Share(s, h, w.at[k], w.at[other]);
      }
    }
  }

  /** Outside a refined segment that ends with its group, boundaries and singletons stay. */
  lemma RefinedBoundaries(s: seq<Byte>, w: Groups, w': Groups, m: seq<int>, m': seq<int>, h: int, i: int, e: int)
    requires Refined(s, w, w', m, m', h, i, e) && i < e && Ends(w, e - 1)
    ensures forall k :: -1 <= k < i ==> Ends(w', k) == Ends(w, k)
    ensures forall k :: e - 1 <= k < |m| ==> Ends(w', k) == Ends(w, k)
    ensures forall k :: 0 <= k < |m| && !(i <= k < e) ==> Single(w', k) == Single(w, k)
  {
    hide Less, Share, Ordered;
    forall k | 0 <= k < |m| && !(i <= k < e) ensures Ends(w', k) == Ends(w, k) {
      assert w.pos[w.at[k]] == k;
    }
    assert w'.pos[w'.at[e - 1]] == e - 1;
  }

  lemma RefinedMarks(s: seq<Byte>, w: Groups, w': Groups, m: seq<int>, m': seq<int>, h: int, i: int, e: int, k: int)
    requires Refined(s, w, w', m, m', h, i, e) && i < e && Ends(w, e - 1)
    requires forall q :: i <= q < e ==> m[q] >= 0
    requires 0 <= k < |m|
    ensures !(i <= k < e) && Marked(m, w, k) ==> Marked(m', w', k)
    ensures !(i <= k < e) && Loose(|s|, m, w, h, k) ==> Loose(|s|, m', w', h, k)
    ensures i <= k < e ==> Marked(m', w', k)
  {
    hide Less, Share, Ordered, Grouped;
    RefinedBoundaries(s, w, w', m, m', h, i, e);
    if i <= k < e {
      assert m'[k] == if Single(w', k) then -1 else w'.at[k];
      InsideMarked(w', m', k);
    } else {
      hide Single, Refined;
      OutsideMarked(|s|, w, w', m, m', h, i, e, k);
    }
  }

  lemma InsideMarked(w: Groups, m: seq<int>, k: int)
    requires Inverse(w) && |m| == |w.at| && 0 <= k < |m|
    requires m[k] == if Single(w, k) then -1 else w.at[k]
    ensures Marked(m, w, k)
  {
    hide Single, Inverse;
  }

  lemma OutsideMarked(n: int, w: Groups, w': Groups, m: seq<int>, m': seq<int>, h: int, i: int, e: int, k: int)
    requires Untouched(w, w', m, m', i, e) && i < e
    requires forall q :: 0 <= q < |m| && !(i <= q < e) ==> Single(w', q) == Single(w, q)
    requires forall q :: i <= q < e ==> m[q] >= 0
    requires 0 <= k < |m| && !(i <= k < e)
    ensures Marked(m, w, k) ==> Marked(m', w', k)
    ensures Loose(n, m, w, h, k) ==> Loose(n, m', w', h, k)
  {
    hide Single, Inverse;
    if Single(w, k) && MarksRun(m, w, k) {
      assert m[i] >= 0;
      assert MarksRun(m', w', k);
    }
  }

  /** After its group has been split, the pass moves on behind it. */
  lemma PassSplit(s: seq<Byte>, w: Groups, w': Groups, m: seq<int>, m': seq<int>, h: int, i: int, len: int, e: int)
    requires Passing(s, w, m, h, i, len) && Refined(s, w, w', m, m', h, i, e)
    requires i < e && Ends(w, e - 1) && forall q :: i <= q < e ==> m[q] >= 0
    ensures Passing(s, w', m', h, e, 0)
  {
    hide Less, Share, Ordered, Marked, Loose;
    RefinedBoundaries(s, w, w', m, m', h, i, e);
    forall k | 0 <= k < |m|
      ensures k < e ==> Marked(m', w', k)
      ensures e <= k ==> Loose(|s|, m', w', h, k)
    {
      RefinedMarks(s, w, w', m, m', h, i, e, k);
    }
    forall p, q | 0 <= p < e && 0 <= q < e && w'.num[w'.at[p]] == w'.num[w'.at[q]]
      ensures Share(s, 2 * h, w'.at[p], w'.at[q])
    {
      SplitShares(s, w, w', m, m', h, i, e, p, q);
    }
  }

  lemma SplitShares(s: seq<Byte>, w: Groups, w': Groups, m: seq<int>, m': seq<int>, h: int, i: int, e: int, p: int,
                    q: int)
    requires Refined(s, w, w', m, m', h, i, e) && Ends(w', i - 1)
    requires forall p, q :: 0 <= p < i && 0 <= q < i && w.num[w.at[p]] == w.num[w.at[q]] ==>
             Share(s, 2 * h, w.at[p], w.at[q])
    requires 0 <= p < e && 0 <= q < e && w'.num[w'.at[p]] == w'.num[w'.at[q]]
    ensures Share(s, 2 * h, w'.at[p], w'.at[q])
  {
    SameGroup(w', i, p, q);
    hide Grouped, Ordered, Share;
    assert w.pos[w.at[p]] == p && w.pos[w.at[q]] == q;
  }
}
