/** Binary search of a suffix array for a match with the start of a string. */
module MatchSearch {
  import opened Words
  import opened SuffixOrder
  import opened SuffixArray

  lemma LcpIs(x: seq<Byte>, y: seq<Byte>, k: int)
    requires 0 <= k <= |x| && k <= |y| && x[..k] == y[..k]
    requires k == |x| || k == |y| || x[k] != y[k]
    ensures Lcp(x, y) == k
  {
    var r := Lcp(x, y);
    forall i | 0 <= i < r ensures x[i] == y[i] {
      assert x[..r][i] == y[..r][i];
    }
    forall i | 0 <= i < k ensures x[i] == y[i] {
      assert x[..k][i] == y[..k][i];
    }
  }

  /** Length of the common prefix, byte by byte. */
  method MatchLen(x: seq<Byte>, y: seq<Byte>) returns (i: int)
    ensures i == Lcp(x, y)
  {
    i := 0;
    while i < |x| && i < |y|
      invariant 0 <= i <= |x| && i <= |y| && x[..i] == y[..i]
    {
      if x[i] != y[i] {
        break;
      }
      i := i + 1;
    }
    LcpIs(x, y, i);
  }

  /** memcmp over the shorter length is negative: a proper prefix does not count as smaller. */
  predicate MemLess(x: seq<Byte>, y: seq<Byte>) {
    var k := Lcp(x, y);
    k < |x| && k < |y| && x[k] < y[k]
  }

  /** Length and position of the match that the search settles on. */
  function Search(sa: seq<int>, s: seq<Byte>, nw: seq<Byte>, st: int, en: int): (r: (int, int))
    requires |sa| == |s| + 1 && 0 <= st <= en <= |s| && forall k :: 0 <= k <= |s| ==> 0 <= sa[k] <= |s|
    ensures 0 <= r.1 <= |s| && r.0 == Lcp(s[r.1..], nw)
    decreases en - st
  {
    if en - st < 2 then
      var x := Lcp(s[sa[st]..], nw);
      var y := Lcp(s[sa[en]..], nw);
      if x > y then (x, sa[st]) else (y, sa[en])
    else
      var x := st + (en - st) / 2;
      if MemLess(s[sa[x]..], nw) then Search(sa, s, nw, x, en) else Search(sa, s, nw, st, x)
  }

  /** The search as it runs on the array. */
  method SearchArray(I: array<int>, s: seq<Byte>, nw: seq<Byte>, st: int, en: int) returns (len: int, pos: int)
    requires I.Length == |s| + 1 && 0 <= st <= en <= |s| && forall k :: 0 <= k <= |s| ==> 0 <= I[k] <= |s|
    ensures (len, pos) == Search(I[..], s, nw, st, en)
    decreases en - st
  {
    hide Lcp, MemLess;
    if en - st < 2 {
      var x := MatchLen(s[I[st]..], nw);
      var y := MatchLen(s[I[en]..], nw);
      if x > y {
        return x, I[st];
      } else {
        return y, I[en];
      }
    }
    var x := st + (en - st) / 2;
    if MemLess(s[I[x]..], nw) {
      len, pos := SearchArray(I, s, nw, x, en);
    } else {
      len, pos := SearchArray(I, s, nw, st, x);
    }
  }

  /** In a suffix array only position 0 holds the empty suffix, and first bytes do not decrease. */
  lemma FirstBytes(s: seq<Byte>, sa: seq<int>, i: int, j: int)
    requires IsSuffixArray(s, sa) && 0 <= i < j <= |s|
    ensures sa[j] < |s|
    ensures sa[i] < |s| ==> s[sa[i]] <= s[sa[j]]
  {
    assert Less(s, sa[i], sa[j]);
  }

  lemma FirstByteDecides(x: seq<Byte>, y: seq<Byte>)
    requires x != [] && y != []
    ensures MemLess(x, y) ==> x[0] <= y[0]
    ensures !MemLess(x, y) ==> x[0] >= y[0]
    ensures Lcp(x, y) >= 1 <==> x[0] == y[0]
  {
    var k := Lcp(x, y);
    if k > 0 {
      assert x[0] == x[..k][0] == y[..k][0] == y[0];
    }
  }

  /** A probe between a hit p and the bound it moves is itself a hit. */
  lemma ProbeFinds(sa: seq<int>, s: seq<Byte>, nw: seq<Byte>, x: int, p: int)
    requires IsSuffixArray(s, sa) && 0 < x <= |s| && 0 <= p <= |s|
    requires nw != [] && sa[p] < |s| && s[sa[p]] == nw[0]
    ensures sa[x] < |s|
    ensures MemLess(s[sa[x]..], nw) && p < x ==> s[sa[x]] == nw[0]
    ensures !MemLess(s[sa[x]..], nw) && x < p ==> s[sa[x]] == nw[0]
  {
    FirstBytes(s, sa, 0, x);
    FirstByteDecides(s[sa[x]..], nw);
    if p < x {
      FirstBytes(s, sa, p, x);
    } else if x < p {
      FirstBytes(s, sa, x, p);
    }
  }

  /** The search never misses the first byte: if it occurs in the range, the match is not empty. */
  lemma {:induction false} SearchFinds(sa: seq<int>, s: seq<Byte>, nw: seq<Byte>, st: int, en: int, p: int)
    requires IsSuffixArray(s, sa) && 0 <= st <= p <= en <= |s|
    requires nw != [] && sa[p] < |s| && s[sa[p]] == nw[0]
    ensures Search(sa, s, nw, st, en).0 >= 1
    decreases en - st
  {
    hide MemLess, Lcp, Less;
    if en - st >= 2 {
      var x := st + (en - st) / 2;
      ProbeFinds(sa, s, nw, x, p);
      if MemLess(s[sa[x]..], nw) {
        SearchFinds(sa, s, nw, x, en, if p < x then x else p);
      } else {
        SearchFinds(sa, s, nw, st, x, if p > x then x else p);
      }
    } else {
      FirstByteDecides(s[sa[p]..], nw);
    }
  }

  /** An empty match means that the first byte is nowhere in s. */
  lemma SearchEmpty(sa: seq<int>, s: seq<Byte>, nw: seq<Byte>)
    requires IsSuffixArray(s, sa) && nw != []
    ensures Search(sa, s, nw, 0, |s|).0 == 0 <==> nw[0] !in s
  {
    if nw[0] in s {
      var a :| 0 <= a < |s| && s[a] == nw[0];
      assert a in sa;
      var p :| 0 <= p <= |s| && sa[p] == a;
      SearchFinds(sa, s, nw, 0, |s|, p);
    }
  }

  /** Some suffix of s, not empty, ends inside nw while still matching it. */
  ghost predicate EndsInside(s: seq<Byte>, nw: seq<Byte>) {
    exists a :: 0 <= a < |s| && s[a..] < nw
  }

  lemma NeighbourBelow(a: seq<Byte>, b: seq<Byte>, c: seq<Byte>)
    requires Before(a, b) && MemLess(b, c)
    ensures Lcp(a, c) <= Lcp(b, c)
  {
    var k, m := Lcp(b, c), Lcp(a, c);
    if k < m {
      assert a[k] == a[..m][k] == c[..m][k] == c[k];
      assert a[..k] == a[..m][..k] == c[..m][..k] == b[..k];
      LcpIs(a, b, k);
    }
  }

  lemma NeighbourAbove(d: seq<Byte>, b: seq<Byte>, c: seq<Byte>)
    requires Before(b, d) && !MemLess(b, c) && !(b < c)
    ensures Lcp(d, c) <= Lcp(b, c)
  {
    var k, m := Lcp(b, c), Lcp(d, c);
    if k < m {
      assert b[..k] == c[..k];
      assert k == |b| ==> b[..k] == b;
      assert d[k] == d[..m][k] == c[..m][k] == c[k];
      assert d[..k] == d[..m][..k] == c[..m][..k] == b[..k];
      LcpIs(b, d, k);
    }
  }

  lemma NotBeforePrefix(a: seq<Byte>, b: seq<Byte>, c: seq<Byte>)
    requires b < c && Lcp(a, c) >= |b|
    ensures !Before(a, b)
  {
    var m := Lcp(a, c);
    forall i | 0 <= i < |b| ensures a[i] == b[i] {
      assert a[i] == a[..m][i] == c[..m][i] == c[i] == b[i];
    }
    hide Lcp;
    assert a[..|b|] == b[..|b|];
    LcpIs(a, b, |b|);
  }

  /** What comes before a string that ends inside c matches c less than that string. */
  lemma NeighbourShorter(a: seq<Byte>, b: seq<Byte>, c: seq<Byte>)
    requires Before(a, b) && b < c
    ensures Lcp(a, c) < |b| == Lcp(b, c)
  {
    LcpIs(b, c, |b|);
    hide Lcp, Before;
    if Lcp(a, c) >= |b| {
      NotBeforePrefix(a, b, c);
    }
  }

  /** Length of the match at position p of the suffix array. */
  function MatchAt(sa: seq<int>, s: seq<Byte>, nw: seq<Byte>, p: int): nat
    requires 0 <= p < |sa| && 0 <= sa[p] <= |s|
  {
    Lcp(s[sa[p]..], nw)
  }

  /** No position of the range matches longer than n. */
  ghost predicate NoLonger(sa: seq<int>, s: seq<Byte>, nw: seq<Byte>, st: int, en: int, n: int)
    requires |sa| == |s| + 1 && 0 <= st <= en <= |s| && forall k :: 0 <= k <= |s| ==> 0 <= sa[k] <= |s|
  {
    forall p :: st <= p <= en ==> MatchAt(sa, s, nw, p) <= n
  }

  /** Position x ends inside the input and a longer match lies behind it. */
  ghost predicate Covers(sa: seq<int>, s: seq<Byte>, nw: seq<Byte>, x: int, en: int)
    requires |sa| == |s| + 1 && 0 <= x <= en <= |s| && forall k :: 0 <= k <= |s| ==> 0 <= sa[k] <= |s|
  {
    s[sa[x]..] < nw && exists p :: x < p <= en && MatchAt(sa, s, nw, p) > |s| - sa[x]
  }

  /** The search turns left at a suffix that ends inside the input although a longer match lies behind it. */
  ghost predicate Loses(sa: seq<int>, s: seq<Byte>, nw: seq<Byte>, st: int, en: int)
    requires |sa| == |s| + 1 && 0 <= st <= en <= |s| && forall k :: 0 <= k <= |s| ==> 0 <= sa[k] <= |s|
    decreases en - st
  {
    en - st >= 2 &&
    var x := st + (en - st) / 2;
    if MemLess(s[sa[x]..], nw) then Loses(sa, s, nw, x, en)
    else Covers(sa, s, nw, x, en) || Loses(sa, s, nw, st, x)
  }

  /** What a probe says about the positions on its two sides. */
  lemma ProbeBounds(sa: seq<int>, s: seq<Byte>, nw: seq<Byte>, x: int, p: int)
    requires IsSuffixArray(s, sa) && 0 <= x <= |s| && 0 <= p <= |s|
    ensures MemLess(s[sa[x]..], nw) && p < x ==> MatchAt(sa, s, nw, p) <= MatchAt(sa, s, nw, x)
    ensures !MemLess(s[sa[x]..], nw) && !(s[sa[x]..] < nw) && x < p ==> MatchAt(sa, s, nw, p) <= MatchAt(sa, s, nw, x)
    ensures s[sa[x]..] < nw && p <= x ==> MatchAt(sa, s, nw, p) <= MatchAt(sa, s, nw, x) == |s| - sa[x]
  {
    var a, b := s[sa[p]..], s[sa[x]..];
    if p < x {
      LessIsBefore(s, sa[p], sa[x]);
    } else if x < p {
      LessIsBefore(s, sa[x], sa[p]);
    }
    hide Less, IsSuffixArray, Lcp, Before, MemLess;
    if p < x && MemLess(b, nw) {
      NeighbourBelow(a, b, nw);
    }
    if x < p && !MemLess(b, nw) && !(b < nw) {
      NeighbourAbove(a, b, nw);
    }
    if p < x && b < nw {
      NeighbourShorter(a, b, nw);
    }
    if p == x && b < nw {
      LcpIs(b, nw, |b|);
    }
  }

  /** The result is one of the matches of the range. */
  lemma {:induction false} SearchInRange(sa: seq<int>, s: seq<Byte>, nw: seq<Byte>, st: int, en: int) returns (p: int)
    requires |sa| == |s| + 1 && 0 <= st <= en <= |s| && forall k :: 0 <= k <= |s| ==> 0 <= sa[k] <= |s|
    ensures st <= p <= en && Search(sa, s, nw, st, en) == (MatchAt(sa, s, nw, p), sa[p])
    decreases en - st
  {
    hide MemLess, Lcp;
    if en - st < 2 {
      p := if MatchAt(sa, s, nw, st) > MatchAt(sa, s, nw, en) then st else en;
    } else {
      var x := st + (en - st) / 2;
      if MemLess(s[sa[x]..], nw) {
        p := SearchInRange(sa, s, nw, x, en);
      } else {
        p := SearchInRange(sa, s, nw, st, x);
      }
    }
  }

  /** Turning right at a smaller probe gives up nothing. */
  lemma RightStep(sa: seq<int>, s: seq<Byte>, nw: seq<Byte>, st: int, x: int, en: int, n: int)
    requires IsSuffixArray(s, sa) && 0 <= st <= x <= en <= |s| && MemLess(s[sa[x]..], nw)
    ensures NoLonger(sa, s, nw, st, en, n) <==> NoLonger(sa, s, nw, x, en, n)
  {
    forall p | st <= p < x ensures MatchAt(sa, s, nw, p) <= MatchAt(sa, s, nw, x) {
      ProbeBounds(sa, s, nw, x, p);
    }
    hide MatchAt, MemLess, IsSuffixArray;
  }

  /** Turning left at a probe that differs from the input, or covers it, gives up nothing. */
  lemma LeftStep(sa: seq<int>, s: seq<Byte>, nw: seq<Byte>, st: int, x: int, en: int, n: int)
    requires IsSuffixArray(s, sa) && 0 <= st <= x <= en <= |s| && !MemLess(s[sa[x]..], nw) && !(s[sa[x]..] < nw)
    ensures NoLonger(sa, s, nw, st, en, n) <==> NoLonger(sa, s, nw, st, x, n)
  {
    forall p | x < p <= en ensures MatchAt(sa, s, nw, p) <= MatchAt(sa, s, nw, x) {
      ProbeBounds(sa, s, nw, x, p);
    }
    hide MatchAt, MemLess, IsSuffixArray;
  }

  /** Turning left at a probe that ends inside the input gives up exactly the longer matches behind it. */
  lemma PrefixStep(sa: seq<int>, s: seq<Byte>, nw: seq<Byte>, st: int, x: int, en: int)
    requires IsSuffixArray(s, sa) && 0 <= st <= x <= en <= |s| && s[sa[x]..] < nw
    ensures var n := Search(sa, s, nw, st, x).0;
            NoLonger(sa, s, nw, st, en, n) <==>
            NoLonger(sa, s, nw, st, x, n) && !Covers(sa, s, nw, x, en)
  {
    var q := SearchInRange(sa, s, nw, st, x);
    forall p | st <= p <= x ensures MatchAt(sa, s, nw, p) <= MatchAt(sa, s, nw, x) == |s| - sa[x] {
      ProbeBounds(sa, s, nw, x, p);
    }
    hide MatchAt, MemLess, IsSuffixArray, Search;
  }

  /** One round of the search and of the test for losses. */
  lemma OneProbe(sa: seq<int>, s: seq<Byte>, nw: seq<Byte>, st: int, x: int, en: int)
    requires |sa| == |s| + 1 && 0 <= st <= en <= |s| && forall k :: 0 <= k <= |s| ==> 0 <= sa[k] <= |s|
    requires en - st >= 2 && x == st + (en - st) / 2
    ensures MemLess(s[sa[x]..], nw) ==>
              Search(sa, s, nw, st, en) == Search(sa, s, nw, x, en)
              && Loses(sa, s, nw, st, en) == Loses(sa, s, nw, x, en)
    ensures !MemLess(s[sa[x]..], nw) ==>
              && Search(sa, s, nw, st, en) == Search(sa, s, nw, st, x)
              && (Loses(sa, s, nw, st, en) <==> Covers(sa, s, nw, x, en) || Loses(sa, s, nw, st, x))
  {
    hide MemLess, Lcp, Covers;
  }

  lemma NoProbe(sa: seq<int>, s: seq<Byte>, nw: seq<Byte>, st: int, en: int)
    requires |sa| == |s| + 1 && 0 <= st <= en <= |s| && forall k :: 0 <= k <= |s| ==> 0 <= sa[k] <= |s|
    requires en - st < 2
    ensures NoLonger(sa, s, nw, st, en, Search(sa, s, nw, st, en).0) && !Loses(sa, s, nw, st, en)
  {
    hide Lcp;
  }

  /** The match found is the longest one in the range exactly when no probe loses a longer one. */
  lemma {:induction false} SearchLongestIff(sa: seq<int>, s: seq<Byte>, nw: seq<Byte>, st: int, en: int)
    requires IsSuffixArray(s, sa) && 0 <= st <= en <= |s|
    ensures NoLonger(sa, s, nw, st, en, Search(sa, s, nw, st, en).0) <==> !Loses(sa, s, nw, st, en)
    decreases en - st
  {
    assert forall k :: 0 <= k <= |s| ==> 0 <= sa[k] <= |s|;
    hide MemLess, Lcp, Less, IsSuffixArray, Search, Loses, MatchAt, NoLonger;
    if en - st < 2 {
      NoProbe(sa, s, nw, st, en);
    } else {
      var x := st + (en - st) / 2;
      OneProbe(sa, s, nw, st, x, en);
      if MemLess(s[sa[x]..], nw) {
        RightStep(sa, s, nw, st, x, en, Search(sa, s, nw, x, en).0);
        SearchLongestIff(sa, s, nw, x, en);
      } else {
        SearchLongestIff(sa, s, nw, st, x);
        if s[sa[x]..] < nw {
          PrefixStep(sa, s, nw, st, x, en);
        } else {
          LeftStep(sa, s, nw, st, x, en, Search(sa, s, nw, st, x).0);
          assert !Covers(sa, s, nw, x, en);
        }
      }
    }
  }

  /** In particular nothing is lost unless a suffix of s ends inside the input. */
  lemma {:induction false} SearchLongest(sa: seq<int>, s: seq<Byte>, nw: seq<Byte>, st: int, en: int)
    requires IsSuffixArray(s, sa) && 0 <= st <= en <= |s| && !EndsInside(s, nw)
    ensures !Loses(sa, s, nw, st, en) && NoLonger(sa, s, nw, st, en, Search(sa, s, nw, st, en).0)
    decreases en - st
  {
    SearchLongestIff(sa, s, nw, st, en);
    if en - st >= 2 {
      var x := st + (en - st) / 2;
      FirstBytes(s, sa, 0, x);
      assert !(s[sa[x]..] < nw);
      hide MemLess, Lcp, Less, EndsInside, IsSuffixArray, NoLonger;
      if MemLess(s[sa[x]..], nw) {
        SearchLongest(sa, s, nw, x, en);
      } else {
        SearchLongest(sa, s, nw, st, x);
      }
    }
  }

  lemma ThreeSuffixes(s: seq<Byte>, nw: seq<Byte>)
    requires s == [97, 98, 97] && nw == [97, 98]
    ensures s[2..] < nw && EndsInside(s, nw) && !MemLess(s[2..], nw)
    ensures Lcp(s[3..], nw) == 0 && Lcp(s[2..], nw) == 1 && Lcp(s[0..], nw) == 2
    ensures IsSuffixArray(s, [3, 2, 0, 1])
  {
    assert s[2..] == [97] && s[2..] < nw;
    LcpIs(s[2..], nw, 1);
    LcpIs(s[3..], nw, 0);
    LcpIs(s[0..], nw, 2);
    hide Lcp;
    assert Less(s, 3, 1);
    assert Less(s, 2, 0) && Less(s, 2, 1) && Less(s, 0, 1);
  }

  /** The longest match can be missed: in "aba" the search for "ab" settles on the last "a". */
  lemma SearchCanMiss(s: seq<Byte>, nw: seq<Byte>, sa: seq<int>)
    requires s == [97, 98, 97] && nw == [97, 98] && sa == [3, 2, 0, 1]
    ensures IsSuffixArray(s, sa) && EndsInside(s, nw) && Loses(sa, s, nw, 0, 3)
    ensures Search(sa, s, nw, 0, 3) == (1, 2) && Lcp(s[0..], nw) == 2
  {
    ThreeSuffixes(s, nw);
    hide Lcp, MemLess, EndsInside, IsSuffixArray;
    assert MatchAt(sa, s, nw, 2) == 2;
    assert Search(sa, s, nw, 0, 3) == Search(sa, s, nw, 0, 1);
  }
}
