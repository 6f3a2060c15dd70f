/** Reordering one segment of the suffix array I by its keys.  The key of the suffix
    at position k is V[I[k]+h]; V is only read here. */
module SuffixPartition {

  /** Every key of lo..hi, the group number that lies h behind the suffix, can be read. */
  ghost predicate Readable(order: seq<int>, num: seq<int>, h: int, lo: int, hi: int) {
    0 <= lo <= hi <= |order| && 0 < h && forall k :: lo <= k < hi ==> 0 <= order[k] < order[k] + h < |num|
  }

  ghost function SwapAt(a: seq<int>, i: int, j: int): (r: seq<int>)
    ensures |r| == |a|
  {
    if 0 <= i < |a| && 0 <= j < |a| then a[i := a[j]][j := a[i]] else a
  }

  /** The effect of a list of swaps, the first swap first. */
  ghost function RunSwaps(a: seq<int>, swaps: seq<(int, int)>): (r: seq<int>)
    ensures |r| == |a|
  {
    if swaps == [] then a
    else
      var last := swaps[|swaps| - 1];
      SwapAt(RunSwaps(a, swaps[..|swaps| - 1]), last.0, last.1)
  }

  ghost predicate SwapsWithin(swaps: seq<(int, int)>, lo: int, hi: int) {
    forall t :: t in swaps ==> lo <= t.0 < hi && lo <= t.1 < hi
  }

  lemma RunSwapsAppend(a: seq<int>, swaps: seq<(int, int)>, i: int, j: int)
    ensures RunSwaps(a, swaps + [(i, j)]) == SwapAt(RunSwaps(a, swaps), i, j)
  {
    assert (swaps + [(i, j)])[..|swaps|] == swaps;
  }

  /** The current order came from `order` by swaps inside lo..hi. */
  ghost predicate Shuffled(order: seq<int>, order': seq<int>, swaps: seq<(int, int)>, lo: int, hi: int) {
    order' == RunSwaps(order, swaps) && SwapsWithin(swaps, lo, hi)
  }

  method SwapEntries(I: array<int>, i: int, j: int, ghost order: seq<int>, ghost swaps: seq<(int, int)>,
                     ghost lo: int, ghost hi: int)
    returns (ghost swaps': seq<(int, int)>)
    requires 0 <= lo <= i < hi <= I.Length && lo <= j < hi && Shuffled(order, I[..], swaps, lo, hi)
    modifies I
    ensures Shuffled(order, I[..], swaps', lo, hi)
    ensures I[i] == old(I[j]) && I[j] == old(I[i])
    ensures forall k :: 0 <= k < I.Length && k != i && k != j ==> I[k] == old(I[k])
    ensures I[..] == SwapAt(old(I[..]), i, j)
  {
    I[i], I[j] := I[j], I[i];
    RunSwapsAppend(order, swaps, i, j);
    swaps' := swaps + [(i, j)];
  }

  /** One round of the short-segment sort: bring the suffixes with the smallest key to the front. */
  method SelectLeast(I: array<int>, V: array<int>, lo: int, hi: int, h: int)
    returns (j: int, ghost x: int, ghost swaps: seq<(int, int)>)
    requires I != V && lo < hi && Readable(I[..], V[..], h, lo, hi)
    modifies I
    ensures Shuffled(old(I[..]), I[..], swaps, lo, hi) && Readable(I[..], V[..], h, lo, hi)
    ensures 1 <= j <= hi - lo
    ensures AllClass(I[..], V[..], h, x, lo, lo + j, 1) && AllClass(I[..], V[..], h, x, lo + j, hi, 2)
  {
    j := 1;
    var least := V[I[lo] + h];
    swaps := [];
    assert Shuffled(I[..], I[..], swaps, lo, hi);
    hide Shuffled, SwapAt;
    var i := 1;
    while lo + i < hi
      invariant 1 <= j <= i <= hi - lo
      invariant Shuffled(old(I[..]), I[..], swaps, lo, hi)
      invariant forall k :: lo <= k < hi ==> 0 <= I[k] < I[k] + h < V.Length
      invariant forall k :: lo <= k < lo + j ==> V[I[k] + h] == least
      invariant forall k :: lo + j <= k < lo + i ==> V[I[k] + h] > least
    {
      if V[I[lo + i] + h] < least {
        least := V[I[lo + i] + h];
        j := 0;
      }
      if V[I[lo + i] + h] == least {
        swaps := SwapEntries(I, lo + j, lo + i, old(I[..]), swaps, lo, hi);
        j := j + 1;
      }
      i := i + 1;
    }
    x := least;
  }

  /** The middle one of three numbers. */
  function Median3(a: int, b: int, c: int): (r: int)
    ensures r == a || r == b || r == c
    ensures (a <= r && b <= r) || (a <= r && c <= r) || (b <= r && c <= r)
    ensures (a >= r && b >= r) || (a >= r && c >= r) || (b >= r && c >= r)
  {
    if a < b then (if b < c then b else if a < c then c else a)
    else if b > c then b else if a > c then c else a
  }

  /** Pseudomedian of three keys, or of nine in a big segment: always a key of the segment. */
  method PickPivot(I: array<int>, V: array<int>, start: int, len: int, h: int) returns (x: int)
    requires len >= 16 && Readable(I[..], V[..], h, start, start + len)
    ensures exists k :: start <= k < start + len && V[I[k] + h] == x
  {
    var j := start + len / 2;
    var k := start + len - 1;
    x := V[I[j] + h];
    var y := V[I[start] + h];
    var z := V[I[k] + h];
    if len > 40 {
      var tmp := len / 8;
      x := Median3(x, V[I[j - tmp] + h], V[I[j + tmp] + h]);
      y := Median3(y, V[I[start + tmp] + h], V[I[start + tmp + tmp] + h]);
      z := Median3(z, V[I[k - tmp] + h], V[I[k - tmp - tmp] + h]);
    }
    x := Median3(x, y, z);
  }

  /** 0, 1 or 2 as the key is below, at or above the pivot. */
  ghost function Class(key: int, x: int): (c: int) {
    if key < x then 0 else if key == x then 1 else 2
  }

  ghost function Classes(order: seq<int>, num: seq<int>, h: int, x: int, lo: int, hi: int): (c: seq<int>)
    requires Readable(order, num, h, lo, hi)
    ensures |c| == hi - lo
    ensures forall k :: lo <= k < hi ==> c[k - lo] == Class(num[order[k] + h], x)
    decreases hi - lo
  {
    if lo == hi then [] else Classes(order, num, h, x, lo, hi - 1) + [Class(num[order[hi - 1] + h], x)]
  }

  ghost function Count(order: seq<int>, num: seq<int>, h: int, x: int, lo: int, hi: int, c: int): nat
    requires Readable(order, num, h, lo, hi)
  {
    multiset(Classes(order, num, h, x, lo, hi))[c]
  }

  method CountKeys(I: array<int>, V: array<int>, start: int, end: int, h: int, x: int) returns (jj: int, kk: int)
    requires Readable(I[..], V[..], h, start, end)
    ensures jj == start + Count(I[..], V[..], h, x, start, end, 0)
    ensures kk == jj + Count(I[..], V[..], h, x, start, end, 1)
  {
    jj, kk := 0, 0;
    var i := start;
    while i < end
      invariant start <= i <= end
      invariant jj == Count(I[..], V[..], h, x, start, i, 0)
      invariant kk == Count(I[..], V[..], h, x, start, i, 1)
    {
      if V[I[i] + h] < x {
        jj := jj + 1;
      }
      if V[I[i] + h] == x {
        kk := kk + 1;
      }
      i := i + 1;
    }
    jj := jj + start;
    kk := kk + jj;
  }

  lemma {:induction false} AllAlike(c: seq<int>, v: int)
    requires forall k :: 0 <= k < |c| ==> c[k] == v
    ensures multiset(c)[v] == |c|
    decreases |c|
  {
    if c != [] {
      AllAlike(c[1..], v);
      assert c == [c[0]] + c[1..];
    }
  }

  lemma {:induction false} ThreeCounts(c: seq<int>)
    requires forall k :: 0 <= k < |c| ==> 0 <= c[k] <= 2
    ensures multiset(c)[0] + multiset(c)[1] + multiset(c)[2] == |c|
    decreases |c|
  {
    if c != [] {
      ThreeCounts(c[1..]);
      assert c == [c[0]] + c[1..];
    }
  }

  /** A run a..b of class v and one more such element outside it are counted together. */
  lemma MoreThanRun(c: seq<int>, a: int, b: int, i: int, v: int)
    requires 0 <= a <= b <= |c| && (0 <= i < a || b <= i < |c|) && c[i] == v
    requires forall k :: a <= k < b ==> c[k] == v
    ensures multiset(c)[v] > b - a
  {
    AllAlike(c[a..b], v);
    assert c == c[..a] + c[a..b] + c[b..];
    if i < a {
      assert v == c[..a][i];
    } else {
      assert v == c[b..][i - b];
    }
  }

  /** The pivot classes of lo..hi have jj-lo, kk-jj and hi-kk members. */
  ghost predicate Balanced(order: seq<int>, num: seq<int>, h: int, x: int, lo: int, jj: int, kk: int, hi: int) {
    && Readable(order, num, h, lo, hi) && lo <= jj <= kk <= hi
    && Count(order, num, h, x, lo, hi, 0) == jj - lo
    && Count(order, num, h, x, lo, hi, 1) == kk - jj
    && Count(order, num, h, x, lo, hi, 2) == hi - kk
  }

  lemma CountedBalanced(order: seq<int>, num: seq<int>, h: int, x: int, lo: int, hi: int)
    requires Readable(order, num, h, lo, hi)
    ensures var jj := lo + Count(order, num, h, x, lo, hi, 0);
            var kk := jj + Count(order, num, h, x, lo, hi, 1);
            Balanced(order, num, h, x, lo, jj, kk, hi)
  {
    var c := Classes(order, num, h, x, lo, hi);
    forall k | 0 <= k < |c| ensures 0 <= c[k] <= 2 {
      assert c[(lo + k) - lo] == Class(num[order[lo + k] + h], x);
    }
    ThreeCounts(c);
  }

  lemma SwapSameBag(c: seq<int>, c': seq<int>, i: int, j: int)
    requires |c| == |c'| && 0 <= i < |c| && 0 <= j < |c|
    requires forall k :: 0 <= k < |c| ==> c'[k] == SwapAt(c, i, j)[k]
    ensures multiset(c') == multiset(c)
  {
    assert c' == c[i := c[j]][j := c[i]];
  }

  lemma SwapBalanced(order: seq<int>, order': seq<int>, num: seq<int>, h: int, x: int, lo: int, jj: int, kk: int,
                     hi: int, i: int, j: int)
    requires Balanced(order, num, h, x, lo, jj, kk, hi) && lo <= i < hi && lo <= j < hi
    requires order' == SwapAt(order, i, j)
    ensures Balanced(order', num, h, x, lo, jj, kk, hi)
  {
    var c := Classes(order, num, h, x, lo, hi);
    var c' := Classes(order', num, h, x, lo, hi);
    forall k | 0 <= k < hi - lo ensures c'[k] == SwapAt(c, i - lo, j - lo)[k] {
      assert c'[(lo + k) - lo] == Class(num[order'[lo + k] + h], x);
      assert c[(lo + k) - lo] == Class(num[order[lo + k] + h], x);
      hide Class, Classes;
    }
    SwapSameBag(c, c', i - lo, j - lo);
  }

  /** While a class still has a member outside its finished run a..b, the run is not complete. */
  lemma RunNotComplete(order: seq<int>, num: seq<int>, h: int, x: int, lo: int, hi: int, a: int, b: int, i: int, v: int)
    requires Readable(order, num, h, lo, hi) && lo <= a <= b <= hi && (lo <= i < a || b <= i < hi)
    requires Class(num[order[i] + h], x) == v
    requires forall k :: a <= k < b ==> Class(num[order[k] + h], x) == v
    ensures Count(order, num, h, x, lo, hi, v) > b - a
  {
    var c := Classes(order, num, h, x, lo, hi);
    assert c[i - lo] == v;
    forall k | a - lo <= k < b - lo ensures c[k] == v {
      assert c[(lo + k) - lo] == Class(num[order[lo + k] + h], x);
    }
    MoreThanRun(c, a - lo, b - lo, i - lo, v);
  }

  /** All keys of positions a..b have class v. */
  ghost predicate AllClass(order: seq<int>, num: seq<int>, h: int, x: int, a: int, b: int, v: int)
    requires Readable(order, num, h, a, b)
  {
    forall k :: a <= k < b ==> Class(num[order[k] + h], x) == v
  }

  /** Progress of the partition: start..i is below the pivot, jj..jj+j at it, kk..kk+k above it. */
  ghost predicate Parting(order: seq<int>, num: seq<int>, h: int, x: int,
                          start: int, i: int, jj: int, j: int, kk: int, k: int, end: int) {
    && Balanced(order, num, h, x, start, jj, kk, end)
    && start <= i <= jj && 0 <= j <= kk - jj && 0 <= k <= end - kk
    && AllClass(order, num, h, x, start, i, 0)
    && AllClass(order, num, h, x, jj, jj + j, 1)
    && AllClass(order, num, h, x, kk, kk + k, 2)
  }

  lemma PartingStart(order: seq<int>, num: seq<int>, h: int, x: int, start: int, end: int)
    requires Readable(order, num, h, start, end)
    requires exists k :: start <= k < end && num[order[k] + h] == x
    ensures var jj := start + Count(order, num, h, x, start, end, 0);
            var kk := jj + Count(order, num, h, x, start, end, 1);
            jj < kk <= end && Parting(order, num, h, x, start, start, jj, 0, kk, 0, end)
  {
    CountedBalanced(order, num, h, x, start, end);
    var t :| start <= t < end && num[order[t] + h] == x;
    RunNotComplete(order, num, h, x, start, end, start, start, t, 1);
  }

  /** A key of class 1 or 2 found at t leaves room in the run of its class. */
  lemma PartingRoom(order: seq<int>, num: seq<int>, h: int, x: int, start: int, i: int, jj: int, j: int, kk: int,
                    k: int, end: int, t: int)
    requires Parting(order, num, h, x, start, i, jj, j, kk, k, end)
    requires i <= t < jj || (i == jj && jj + j <= t < kk)
    ensures Class(num[order[t] + h], x) == 1 ==> jj + j < kk
    ensures Class(num[order[t] + h], x) == 2 ==> kk + k < end
    ensures Class(num[order[t] + h], x) == 0 ==> t < jj
  {
    var v := Class(num[order[t] + h], x);
    if v == 0 && t >= jj {
      RunNotComplete(order, num, h, x, start, end, start, jj, t, v);
    } else if v == 1 && jj + j == kk {
      RunNotComplete(order, num, h, x, start, end, jj, kk, t, v);
    } else if v == 2 {
      RunNotComplete(order, num, h, x, start, end, kk, kk + k, t, v);
    }
  }

  lemma SwapKeepsClass(order: seq<int>, order': seq<int>, num: seq<int>, h: int, x: int, start: int, end: int,
                       a: int, b: int, v: int, t: int, u: int)
    requires Readable(order, num, h, start, end) && start <= t < end && start <= u < end
    requires order' == SwapAt(order, t, u)
    requires start <= a <= b <= end && !(a <= t < b) && !(a <= u < b) && AllClass(order, num, h, x, a, b, v)
    ensures Readable(order', num, h, start, end) && AllClass(order', num, h, x, a, b, v) && order'[u] == order[t]
  {
  }

  /** Swapping a key equal to the pivot to the end of its run makes progress. */
  lemma PartingSwapAt(order: seq<int>, order': seq<int>, num: seq<int>, h: int, x: int,
                      start: int, i: int, jj: int, j: int, kk: int, k: int, end: int, t: int)
    requires Readable(order, num, h, start, end) && start <= jj <= kk <= end
    requires Parting(order, num, h, x, start, i, jj, j, kk, k, end)
    requires i <= t < jj && Class(num[order[t] + h], x) == 1
    requires order' == SwapAt(order, t, jj + j)
    ensures Parting(order', num, h, x, start, i, jj, j + 1, kk, k, end)
  {
    hide Balanced, SwapAt, Class;
    PartingRoom(order, num, h, x, start, i, jj, j, kk, k, end, t);
    SwapBalanced(order, order', num, h, x, start, jj, kk, end, t, jj + j);
    SwapKeepsClass(order, order', num, h, x, start, end, start, i, 0, t, jj + j);
    SwapKeepsClass(order, order', num, h, x, start, end, jj, jj + j, 1, t, jj + j);
    SwapKeepsClass(order, order', num, h, x, start, end, kk, kk + k, 2, t, jj + j);
  }

  /** Likewise for a key above the pivot. */
  lemma PartingSwapAbove(order: seq<int>, order': seq<int>, num: seq<int>, h: int, x: int,
                         start: int, i: int, jj: int, j: int, kk: int, k: int, end: int, t: int)
    requires Readable(order, num, h, start, end) && start <= jj <= kk <= end
    requires Parting(order, num, h, x, start, i, jj, j, kk, k, end)
    requires i <= t < jj || (i == jj && t == jj + j < kk)
    requires Class(num[order[t] + h], x) == 2
    requires order' == SwapAt(order, t, kk + k)
    ensures Parting(order', num, h, x, start, i, jj, j, kk, k + 1, end)
  {
    hide Balanced, SwapAt, Class;
    PartingRoom(order, num, h, x, start, i, jj, j, kk, k, end, t);
    SwapBalanced(order, order', num, h, x, start, jj, kk, end, t, kk + k);
    SwapKeepsClass(order, order', num, h, x, start, end, start, i, 0, t, kk + k);
    SwapKeepsClass(order, order', num, h, x, start, end, jj, jj + j, 1, t, kk + k);
    SwapKeepsClass(order, order', num, h, x, start, end, kk, kk + k, 2, t, kk + k);
  }

  lemma PartingBelow(order: seq<int>, num: seq<int>, h: int, x: int, start: int, i: int, jj: int, j: int, kk: int,
                     k: int, end: int)
    requires Parting(order, num, h, x, start, i, jj, j, kk, k, end)
    requires i < jj && Class(num[order[i] + h], x) == 0
    ensures Parting(order, num, h, x, start, i + 1, jj, j, kk, k, end)
  {
  }

  lemma PartingAt(order: seq<int>, num: seq<int>, h: int, x: int, start: int, i: int, jj: int, j: int, kk: int,
                  k: int, end: int)
    requires Parting(order, num, h, x, start, i, jj, j, kk, k, end)
    requires jj + j < kk && Class(num[order[jj + j] + h], x) == 1
    ensures Parting(order, num, h, x, start, i, jj, j + 1, kk, k, end)
  {
  }

  /** With the first two runs complete, everything else is above the pivot. */
  lemma PartingDone(order: seq<int>, num: seq<int>, h: int, x: int, start: int, jj: int, kk: int, k: int, end: int)
    requires Parting(order, num, h, x, start, jj, jj, kk - jj, kk, k, end)
    ensures AllClass(order, num, h, x, start, jj, 0)
    ensures AllClass(order, num, h, x, jj, kk, 1)
    ensures AllClass(order, num, h, x, kk, end, 2)
  {
    forall t | kk <= t < end ensures Class(num[order[t] + h], x) == 2 {
      var v := Class(num[order[t] + h], x);
      if v == 0 {
        RunNotComplete(order, num, h, x, start, end, start, jj, t, v);
      } else if v == 1 {
        RunNotComplete(order, num, h, x, start, end, jj, kk, t, v);
      }
    }
  }

  /** First pass of the partition: fill start..jj with the keys below the pivot. */
  method PartitionBelow(I: array<int>, V: array<int>, start: int, jj: int, kk: int, end: int, h: int, x: int,
                        ghost order: seq<int>)
    returns (j: int, k: int, ghost swaps: seq<(int, int)>)
    requires I != V && Readable(I[..], V[..], h, start, end) && Shuffled(order, I[..], [], start, end)
    requires start <= jj <= kk <= end && Parting(I[..], V[..], h, x, start, start, jj, 0, kk, 0, end)
    modifies I
    ensures Shuffled(order, I[..], swaps, start, end) && Readable(I[..], V[..], h, start, end)
    ensures 0 <= j <= kk - jj && 0 <= k <= end - kk
    ensures Parting(I[..], V[..], h, x, start, jj, jj, j, kk, k, end)
  {
    hide Parting, Shuffled, SwapAt;
    var i := start;
    j, k := 0, 0;
    swaps := [];
    while i < jj
      invariant start <= i <= jj && 0 <= j <= kk - jj && 0 <= k <= end - kk
      invariant Shuffled(order, I[..], swaps, start, end) && Readable(I[..], V[..], h, start, end)
      invariant Parting(I[..], V[..], h, x, start, i, jj, j, kk, k, end)
      decreases jj - i + (kk - jj - j) + (end - kk - k)
    {
      ghost var m := I[..];
      PartingRoom(m, V[..], h, x, start, i, jj, j, kk, k, end, i);
      if V[I[i] + h] < x {
        PartingBelow(m, V[..], h, x, start, i, jj, j, kk, k, end);
        i := i + 1;
      } else if V[I[i] + h] == x {
        swaps := SwapEntries(I, i, jj + j, order, swaps, start, end);
        PartingSwapAt(m, I[..], V[..], h, x, start, i, jj, j, kk, k, end, i);
        j := j + 1;
      } else {
        swaps := SwapEntries(I, i, kk + k, order, swaps, start, end);
        PartingSwapAbove(m, I[..], V[..], h, x, start, i, jj, j, kk, k, end, i);
        k := k + 1;
      }
    }
  }

  /** Second pass of the partition: fill jj..kk with the keys equal to the pivot. */
  method PartitionAt(I: array<int>, V: array<int>, start: int, jj: int, kk: int, end: int, h: int, x: int, j0: int,
                     k0: int,
                     ghost order: seq<int>, ghost swaps0: seq<(int, int)>)
    returns (ghost k: int, ghost swaps: seq<(int, int)>)
    requires I != V && Readable(I[..], V[..], h, start, end) && Shuffled(order, I[..], swaps0, start, end)
    requires start <= jj <= kk <= end && 0 <= j0 <= kk - jj && 0 <= k0 <= end - kk
    requires Parting(I[..], V[..], h, x, start, jj, jj, j0, kk, k0, end)
    modifies I
    ensures Shuffled(order, I[..], swaps, start, end) && Readable(I[..], V[..], h, start, end)
    ensures Parting(I[..], V[..], h, x, start, jj, jj, kk - jj, kk, k, end)
  {
    hide Parting, Shuffled, SwapAt;
    var j, above := j0, k0;
    swaps := swaps0;
    while jj + j < kk
      invariant 0 <= j <= kk - jj && 0 <= above <= end - kk
      invariant Shuffled(order, I[..], swaps, start, end) && Readable(I[..], V[..], h, start, end)
      invariant Parting(I[..], V[..], h, x, start, jj, jj, j, kk, above, end)
      decreases kk - jj - j + (end - kk - above)
    {
      ghost var m := I[..];
      PartingRoom(m, V[..], h, x, start, jj, jj, j, kk, above, end, jj + j);
      if V[I[jj + j] + h] == x {
        PartingAt(m, V[..], h, x, start, jj, jj, j, kk, above, end);
        j := j + 1;
      } else {
        swaps := SwapEntries(I, jj + j, kk + above, order, swaps, start, end);
        PartingSwapAbove(m, I[..], V[..], h, x, start, jj, jj, j, kk, above, end, jj + j);
        above := above + 1;
      }
    }
    k := above;
  }

  /** Three-way partition of start..end around the pivot. */
  method Partition(I: array<int>, V: array<int>, start: int, end: int, h: int, x: int)
    returns (jj: int, kk: int, ghost swaps: seq<(int, int)>)
    requires I != V && Readable(I[..], V[..], h, start, end)
    requires exists k :: start <= k < end && V[I[k] + h] == x
    modifies I
    ensures Shuffled(old(I[..]), I[..], swaps, start, end) && Readable(I[..], V[..], h, start, end)
    ensures start <= jj < kk <= end
    ensures AllClass(I[..], V[..], h, x, start, jj, 0)
    ensures AllClass(I[..], V[..], h, x, jj, kk, 1)
    ensures AllClass(I[..], V[..], h, x, kk, end, 2)
  {
    jj, kk := CountKeys(I, V, start, end, h, x);
    PartingStart(I[..], V[..], h, x, start, end);
    assert Shuffled(I[..], I[..], [], start, end);
    hide Parting, Shuffled, Readable, AllClass;
    var j, k;
    ghost var k';
    j, k, swaps := PartitionBelow(I, V, start, jj, kk, end, h, x, old(I[..]));
    k', swaps := PartitionAt(I, V, start, jj, kk, end, h, x, j, k, old(I[..]), swaps);
    PartingDone(I[..], V[..], h, x, start, jj, kk, k', end);
  }
}
