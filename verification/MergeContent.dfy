/** Merging the files of a bin: defragmentation check, sort by fragment index, and binary concatenation. */
module MergeContent {
  import opened Words
  import opened Options
  import opened FlowFiles
  import opened Numerals

  const FRAGMENT_ID := "fragment.identifier"
  const FRAGMENT_COUNT := "fragment.count"
  const FRAGMENT_INDEX := "fragment.index"

  /** The fragment index of a file, if it has one that is a number. */
  function Index(f: FlowFile): Option<Int> {
    var value := Attribute(f, FRAGMENT_INDEX);
    if value.Some? then StoI(value.value) else None
  }

  /** The file is a piece of the same whole as the first one, and its index is in range. */
  predicate Belongs(f: FlowFile, id: string, count: string, n: int) {
    && Attribute(f, FRAGMENT_ID) == Some(id)
    && Attribute(f, FRAGMENT_COUNT) == Some(count)
    && Index(f).Some? && 0 <= Index(f).value < n
  }

  /** All files are pieces of one whole that was cut into `count` pieces. */
  ghost predicate Fragments(flows: seq<FlowFile>, id: string, count: string) {
    && flows != [] && StoI(count).Some?
    && forall k :: 0 <= k < |flows| ==> Belongs(flows[k], id, count, StoI(count).value)
  }

  /** True exactly when the files are pieces of one whole. */
  method CheckDefragment(flows: seq<FlowFile>) returns (r: bool)
    ensures r <==> exists id, count :: Fragments(flows, id, count)
    ensures r ==> Attribute(flows[0], FRAGMENT_ID).Some? && Attribute(flows[0], FRAGMENT_COUNT).Some? &&
                  Fragments(flows, Attribute(flows[0], FRAGMENT_ID).value, Attribute(flows[0], FRAGMENT_COUNT).value)
  {
    if flows == [] {
      return false;
    }
    var front := flows[0];
    var fragId := Attribute(front, FRAGMENT_ID);
    if fragId.None? {
      return false;
    }
    var fragCount := Attribute(front, FRAGMENT_COUNT);
    if fragCount.None? {
      return false;
    }
    var n := StoI(fragCount.value);
    if n.None? {
      return false;
    }
    for i := 0 to |flows|
      invariant forall k :: 0 <= k < i ==> Belongs(flows[k], fragId.value, fragCount.value, n.value)
    {
      var flow := flows[i];
      var value := Attribute(flow, FRAGMENT_ID);
      if value.None? || value.value != fragId.value {
        return false;
      }
      value := Attribute(flow, FRAGMENT_COUNT);
      if value.None? || value.value != fragCount.value {
        return false;
      }
      value := Attribute(flow, FRAGMENT_INDEX);
      if value.None? {
        return false;
      }
      var index := StoI(value.value);
      if index.None? || index.value < 0 || index.value >= n.value {
        return false;
      }
    }
    assert Fragments(flows, fragId.value, fragCount.value);
    return true;
  }

  /** Fragment i of n, with both numbers in decimal. */
  predicate WrittenFragment(f: FlowFile, id: string, n: nat, i: nat) {
    && Attribute(f, FRAGMENT_ID) == Some(id)
    && Attribute(f, FRAGMENT_COUNT) == Some(Decimal(n))
    && Attribute(f, FRAGMENT_INDEX) == Some(Decimal(i))
  }

  lemma WrittenIndex(f: FlowFile, id: string, n: nat, i: nat)
    requires WrittenFragment(f, id, n, i) && i < n <= INT_MAX
    ensures StoI(Decimal(n)) == Some(n) && Index(f) == Some(i) && Belongs(f, id, Decimal(n), n)
  {
    ReadsWritten(n, "", "");
    ReadsWritten(i, "", "");
    hide StoI, Decimal;
  }

  /** What a fragment says of itself, numbers in decimal. */
  datatype Label = Label(id: string, n: Int, i: Int)

  predicate Labelled(f: FlowFile, x: Label) {
    && Attribute(f, FRAGMENT_ID) == Some(x.id)
    && Attribute(f, FRAGMENT_COUNT) == Some(Written(x.n))
    && Attribute(f, FRAGMENT_INDEX) == Some(Written(x.i))
  }

  lemma LabelRead(f: FlowFile, x: Label)
    requires Labelled(f, x)
    ensures StoI(Written(x.n)) == Some(x.n) && Index(f) == Some(x.i)
  {
    ReadsWritten(x.n, "", "");
    ReadsWritten(x.i, "", "");
    hide StoI, Written;
  }

  /** Files with decimal numbers pass the check exactly when they agree on the identifier and the count and every index
      lies below the count. */
  lemma LabelsPass(flows: seq<FlowFile>, labels: seq<Label>)
    requires flows != [] && |labels| == |flows| && forall k :: 0 <= k < |flows| ==> Labelled(flows[k], labels[k])
    ensures (exists id, count :: Fragments(flows, id, count)) <==>
      forall k :: 0 <= k < |labels| ==>
        labels[k].id == labels[0].id && labels[k].n == labels[0].n && 0 <= labels[k].i < labels[0].n
  {
    var x := labels[0];
    forall k | 0 <= k < |flows|
      ensures StoI(Written(labels[k].n)) == Some(labels[k].n) && Index(flows[k]) == Some(labels[k].i)
    {
      LabelRead(flows[k], labels[k]);
    }
    hide StoI, Written, Index;
    assert Labelled(flows[0], x);
    if forall k :: 0 <= k < |labels| ==> labels[k].id == x.id && labels[k].n == x.n && 0 <= labels[k].i < x.n {
      assert Fragments(flows, x.id, Written(x.n));
    }
    if id, count :| Fragments(flows, id, count) {
      forall k | 0 <= k < |labels| ensures labels[k].id == x.id && labels[k].n == x.n && 0 <= labels[k].i < x.n {
        assert Belongs(flows[k], id, count, StoI(count).value) && Belongs(flows[0], id, count, StoI(count).value);
        assert Labelled(flows[k], labels[k]);
      }
    }
  }

  /** A file without one of the three attributes fails the check. */
  lemma MissingFails(flows: seq<FlowFile>, k: int, name: string)
    requires 0 <= k < |flows| && name in {FRAGMENT_ID, FRAGMENT_COUNT, FRAGMENT_INDEX}
    requires Attribute(flows[k], name).None?
    ensures !exists id, count :: Fragments(flows, id, count)
  {
    hide StoI;
  }

  ghost predicate Indexed(flows: seq<FlowFile>) {
    forall k :: 0 <= k < |flows| ==> Index(flows[k]).Some?
  }

  ghost predicate SortedByIndex(flows: seq<FlowFile>)
    requires Indexed(flows)
  {
    forall i, j :: 0 <= i < j < |flows| ==> Index(flows[i]).value <= Index(flows[j]).value
  }

  method InsertByIndex(sorted: seq<FlowFile>, f: FlowFile) returns (r: seq<FlowFile>)
    requires Indexed(sorted) && SortedByIndex(sorted) && Index(f).Some?
    ensures multiset(r) == multiset(sorted) + multiset{f} && Indexed(r) && SortedByIndex(r)
  {
    hide Index;
    var k := |sorted|;
    while k > 0 && Index(sorted[k - 1]).value > Index(f).value
      invariant 0 <= k <= |sorted|
      invariant forall j :: k <= j < |sorted| ==> Index(sorted[j]).value > Index(f).value
    {
      k := k - 1;
    }
    r := sorted[..k] + [f] + sorted[k..];
    InsertedInOrder(sorted, f, k);
    InsertedBag(sorted, f, k);
  }

  lemma InsertedBag(sorted: seq<FlowFile>, f: FlowFile, k: int)
    requires 0 <= k <= |sorted|
    ensures multiset(sorted[..k] + [f] + sorted[k..]) == multiset(sorted) + multiset{f}
  {
    assert sorted == sorted[..k] + sorted[k..];
  }

  lemma InsertedInOrder(sorted: seq<FlowFile>, f: FlowFile, k: int)
    requires Indexed(sorted) && SortedByIndex(sorted) && Index(f).Some? && 0 <= k <= |sorted|
    requires k > 0 ==> Index(sorted[k - 1]).value <= Index(f).value
    requires forall j :: k <= j < |sorted| ==> Index(sorted[j]).value > Index(f).value
    ensures var r := sorted[..k] + [f] + sorted[k..]; Indexed(r) && SortedByIndex(r)
  {
    hide Index;
    var r := sorted[..k] + [f] + sorted[k..];
    assert forall j :: 0 <= j < |r| ==> r[j] == if j < k then sorted[j] else if j == k then f else sorted[j - 1];
    forall i | 0 <= i < k ensures Index(sorted[i]).value <= Index(f).value {
      assert i < k - 1 ==> Index(sorted[i]).value <= Index(sorted[k - 1]).value;
    }
  }

  /** Stands for the library sort with its comparison of fragment indices. */
  method SortByIndex(flows: seq<FlowFile>) returns (sorted: seq<FlowFile>)
    requires Indexed(flows)
    ensures multiset(sorted) == multiset(flows) && Indexed(sorted) && SortedByIndex(sorted)
  {
    sorted := [];
    for i := 0 to |flows|
      invariant multiset(sorted) == multiset(flows[..i]) && Indexed(sorted) && SortedByIndex(sorted)
    {
      hide Index, SortedByIndex;
      assert flows[..i + 1] == flows[..i] + [flows[i]];
      sorted := InsertByIndex(sorted, flows[i]);
    }
    assert flows[..|flows|] == flows;
  }

  ghost predicate DistinctIndices(flows: seq<FlowFile>)
    requires Indexed(flows)
  {
    forall i, j :: 0 <= i < j < |flows| ==> Index(flows[i]).value != Index(flows[j]).value
  }

  /** Position and index agree. */
  ghost predicate InPlace(flows: seq<FlowFile>)
    requires Indexed(flows)
  {
    forall i :: 0 <= i < |flows| ==> Index(flows[i]).value == i
  }

  lemma {:induction false} IndexAtLeast(flows: seq<FlowFile>, i: int)
    requires Indexed(flows) && SortedByIndex(flows) && DistinctIndices(flows) && 0 <= i < |flows|
    requires forall k :: 0 <= k < |flows| ==> 0 <= Index(flows[k]).value
    ensures Index(flows[i]).value >= i
    decreases i
  {
    if i > 0 {
      IndexAtLeast(flows, i - 1);
      assert Index(flows[i - 1]).value <= Index(flows[i]).value;
    }
  }

  lemma {:induction false} IndexAtMost(flows: seq<FlowFile>, i: int)
    requires Indexed(flows) && SortedByIndex(flows) && DistinctIndices(flows) && 0 <= i < |flows|
    requires forall k :: 0 <= k < |flows| ==> Index(flows[k]).value < |flows|
    ensures Index(flows[i]).value <= i
    decreases |flows| - i
  {
    if i < |flows| - 1 {
      IndexAtMost(flows, i + 1);
      assert Index(flows[i]).value <= Index(flows[i + 1]).value;
    }
  }

  /** A complete set of fragments is put in place by sorting exactly when no index occurs twice. */
  lemma SortedInPlace(sorted: seq<FlowFile>)
    requires Indexed(sorted) && SortedByIndex(sorted)
    requires forall k :: 0 <= k < |sorted| ==> 0 <= Index(sorted[k]).value < |sorted|
    ensures InPlace(sorted) <==> DistinctIndices(sorted)
  {
    if DistinctIndices(sorted) {
      forall i | 0 <= i < |sorted| ensures Index(sorted[i]).value == i {
        IndexAtLeast(sorted, i);
        IndexAtMost(sorted, i);
      }
    }
  }

  /** How much of n bytes is copied when whole pages are read from position pos until `size` bytes are there. */
  function CopyLength(n: nat, size: nat, page: nat, pos: nat): (r: nat)
    requires page > 0 && pos <= n
    ensures pos <= r <= n && (r == n || size <= r)
    decreases n - pos
  {
    if pos >= size || pos == n then pos else CopyLength(n, size, page, if n - pos < page then n else pos + page)
  }

  /** Copy a file page by page until at least `size` bytes are read or the content ends. */
  method CopyContent(content: seq<Byte>, size: Size, page: nat, out0: seq<Byte>) returns (out: seq<Byte>, ret: int)
    requires page > 0
    ensures ret == CopyLength(|content|, size, page, 0) && out == out0 + content[..ret]
  {
    out, ret := out0, 0;
    var read_size := 0;
    while read_size < size
      invariant 0 <= read_size == ret <= |content| && out == out0 + content[..ret]
      invariant CopyLength(|content|, size, page, 0) == CopyLength(|content|, size, page, ret)
      decreases |content| - ret
    {
      var readRet := if |content| - ret < page then |content| - ret else page;
      if readRet > 0 {
        assert content[..ret] + content[ret..ret + readRet] == content[..ret + readRet];
        out := out + content[ret..ret + readRet];
        ret := ret + readRet;
        read_size := read_size + readRet;
      } else {
        break;
      }
    }
  }

  /** Multiples of the page length, and what lies strictly between two of them. */
  lemma PageBoundary(k: nat, page: nat, size: int)
    requires page > 0
    ensures (k + 1) * page == k * page + page
    ensures size == k * page ==> size % page == 0
    ensures k * page < size < k * page + page ==> size % page != 0
  {
    if k * page <= size < k * page + page {
      var r := size - k * page;
      assert size == k * page + r;
      ModOfSum(k, page, r);
    }
  }

  lemma ModOfSum(k: nat, page: nat, r: nat)
    requires r < page
    ensures (k * page + r) % page == r
  {
    var y := k * page + r;
    var q, u := y / page, y % page;
    assert y == q * page + u;
    MulStep(k, q, page);
    MulStep(q, k, page);
  }

  lemma {:induction false} MulStep(a: int, b: int, c: nat)
    ensures a < b ==> a * c + c <= b * c
    decreases b - a
  {
    if a + 1 < b {
      MulStep(a, b - 1, c);
      assert b * c == (b - 1) * c + c;
    } else if a + 1 == b {
      assert b * c == a * c + c;
    }
  }

  /** The copy is cut at the end of the page in which the recorded size ends, or at the end of the content. */
  lemma {:induction false} CopyRounds(n: nat, size: nat, page: nat, k: nat, pos: nat)
    requires page > 0 && pos == k * page <= n && (pos < size || pos == 0)
    ensures var r, q := CopyLength(n, size, page, pos), (size + page - 1) / page;
            r == if n < q * page then n else q * page
    decreases n - pos
  {
    var q := (size + page - 1) / page;
    PagesNeeded(size, page);
    MulStep(k, q, page);
    MulStep(q, k, page);
    PageBoundary(k, page, size);
    if pos < size && pos < n && pos + page <= n {
      MulStep(k + 1, q, page);
      MulStep(q, k + 1, page);
      if pos + page < size {
        CopyRounds(n, size, page, k + 1, pos + page);
      }
    }
  }

  /** So many pages hold the size, and one less does not. */
  lemma PagesNeeded(size: nat, page: nat)
    requires page > 0
    ensures var q := (size + page - 1) / page; q >= 0 && size <= q * page < size + page
  {
    var q, r := (size + page - 1) / page, (size + page - 1) % page;
    assert size + page - 1 == q * page + r;
  }

  /** Exactly the recorded size is copied if and only if nothing follows it or it is a whole number of pages. */
  lemma {:induction false} CopyExact(n: nat, size: nat, page: nat, k: nat, pos: nat)
    requires page > 0 && pos == k * page <= n && (pos < size || pos == 0)
    ensures var r := CopyLength(n, size, page, pos);
            && (n <= size ==> r == n)
            && (r == (if n <= size then n else size) <==> n <= size || size % page == 0)
    decreases n - pos
  {
    PageBoundary(k, page, size);
    PageBoundary(k + 1, page, size);
    if pos < size && pos < n && pos + page <= n && pos + page < size {
      CopyExact(n, size, page, k + 1, pos + page);
    }
  }

  /** What the copy takes of every file. */
  ghost function Taken(flows: seq<FlowFile>, page: nat): (r: seq<seq<Byte>>)
    requires page > 0
    ensures |r| == |flows| && forall k :: 0 <= k < |r| ==>
            r[k] == flows[k].content[..CopyLength(|flows[k].content|, flows[k].size, page, 0)]
  {
    seq(|flows|, k requires 0 <= k < |flows| => flows[k].content[..CopyLength(|flows[k].content|, flows[k].size, page,
      0)])
  }

  ghost function Contents(flows: seq<FlowFile>): (r: seq<seq<Byte>>)
    ensures |r| == |flows| && forall k :: 0 <= k < |r| ==> r[k] == flows[k].content
  {
    seq(|flows|, k requires 0 <= k < |flows| => flows[k].content)
  }

  ghost function Join(pieces: seq<seq<Byte>>, demarcator: seq<Byte>): seq<Byte> {
    var n := |pieces|;
    if n == 0 then [] else if n == 1 then pieces[0] else Join(pieces[..n - 1], demarcator) + demarcator + pieces[n - 1]
  }

  /** The recorded size of every file is the length of its content. */
  ghost predicate Sized(flows: seq<FlowFile>) {
    forall k :: 0 <= k < |flows| ==> flows[k].size == |flows[k].content|
  }

  lemma SizedTaken(flows: seq<FlowFile>, page: nat)
    requires page > 0 && Sized(flows)
    ensures Taken(flows, page) == Contents(flows)
  {
    forall k | 0 <= k < |flows| ensures Taken(flows, page)[k] == Contents(flows)[k] {
      CopyExact(|flows[k].content|, flows[k].size, page, 0, 0);
    }
  }

  lemma JoinNone(pieces: seq<seq<Byte>>, header: seq<Byte>, demarcator: seq<Byte>)
    ensures header == header + Join(pieces[..0], demarcator)
  {
  }

  lemma JoinNext(pieces: seq<seq<Byte>>, i: nat, header: seq<Byte>, demarcator: seq<Byte>)
    requires i < |pieces|
    ensures header + Join(pieces[..i + 1], demarcator) ==
            (header + Join(pieces[..i], demarcator)) + (if i == 0 then pieces[i] else demarcator + pieces[i])
  {
    assert pieces[..i + 1][..i] == pieces[..i];
    if i == 0 {
      assert header + Join(pieces[..0], demarcator) == header;
    } else {
      Regroup(header, Join(pieces[..i], demarcator), demarcator, pieces[i]);
    }
  }

  lemma Regroup(a: seq<Byte>, b: seq<Byte>, c: seq<Byte>, d: seq<Byte>)
    ensures a + (b + c + d) == (a + b) + (c + d)
  {
  }

  /** Between any two neighbours stands one demarcator, and nowhere else. */
  lemma {:induction false} JoinSplits(a: seq<seq<Byte>>, b: seq<seq<Byte>>, demarcator: seq<Byte>)
    requires a != [] && b != []
    ensures Join(a + b, demarcator) == Join(a, demarcator) + demarcator + Join(b, demarcator)
    ensures Join([a[0]], demarcator) == a[0]
    decreases |b|
  {
    var n := |b| - 1;
    assert (a + b)[..|a| + n] == a + b[..n] && (a + b)[|a| + n] == b[n];
    if n == 0 {
      assert a + b[..0] == a;
    } else {
      JoinSplits(a, b[..n], demarcator);
      var x, y := Join(a, demarcator), Join(b[..n], demarcator);
      assert x + demarcator + y + demarcator + b[n] == x + demarcator + (y + demarcator + b[n]);
    }
  }

  /** Append the demarcator, unless this is the first file, and the file. */
  method AppendFile(out0: seq<Byte>, flow: FlowFile, demarcator: seq<Byte>, isFirst: bool, page: nat)
    returns (out: seq<Byte>, added: int)
    requires page > 0
    ensures var piece := flow.content[..CopyLength(|flow.content|, flow.size, page, 0)];
            out == out0 + if isFirst then piece else demarcator + piece
    ensures |flow.content| == flow.size ==> added == |out| - |out0|
  {
    added := 0;
    out := out0;
    if !isFirst && demarcator != [] {
      out := out + demarcator;
      added := added + |demarcator|;
    }
    var copied;
    out, copied := CopyContent(flow.content, flow.size, page, out);
    added := added + flow.size;
  }

  /** Header, the files separated by the demarcator, footer. */
  method WriteMerged(header: seq<Byte>, footer: seq<Byte>, demarcator: seq<Byte>, flows: seq<FlowFile>, page: nat)
    returns (out: seq<Byte>, ret: int)
    requires page > 0
    ensures out == header + Join(Taken(flows, page), demarcator) + footer
    ensures Sized(flows) ==> out == header + Join(Contents(flows), demarcator) + footer && ret == |out|
  {
    ghost var pieces, sized := Taken(flows, page), Sized(flows);
    if sized {
      SizedTaken(flows, page);
    }
    hide Sized, Taken, Join, Contents;
    out, ret := header, |header|;
    var isFirst := true;
    JoinNone(pieces, header, demarcator);
    for i := 0 to |flows|
      invariant out == header + Join(pieces[..i], demarcator) && isFirst == (i == 0)
      invariant sized ==> ret == |out|
    {
      JoinNext(pieces, i, header, demarcator);
      var added;
      out, added := AppendFile(out, flows[i], demarcator, isFirst, page);
      ret := ret + added;
      isFirst := false;
    }
    assert pieces[..|flows|] == pieces;
    out, ret := out + footer, ret + |footer|;
  }

  ghost function Flatten(pieces: seq<seq<Byte>>): seq<Byte> {
    if pieces == [] then [] else Flatten(pieces[..|pieces| - 1]) + pieces[|pieces| - 1]
  }

  lemma {:induction false} JoinFlattens(pieces: seq<seq<Byte>>)
    ensures Join(pieces, []) == Flatten(pieces)
    decreases |pieces|
  {
    if |pieces| == 1 {
      assert pieces[..0] == [];
    } else if |pieces| > 1 {
      JoinFlattens(pieces[..|pieces| - 1]);
    }
  }

  /** Every file carries the piece that its index names. */
  ghost predicate CarryPieces(flows: seq<FlowFile>, pieces: seq<seq<Byte>>)
    requires Indexed(flows)
  {
    forall f :: f in flows ==> 0 <= Index(f).value < |pieces| && f.content == pieces[Index(f).value]
  }

  lemma {:induction false} DistinctAsBag(flows: seq<FlowFile>, sorted: seq<FlowFile>)
    requires Indexed(flows) && Indexed(sorted) && multiset(sorted) == multiset(flows) && DistinctIndices(flows)
    ensures DistinctIndices(sorted)
  {
    forall i, j | 0 <= i < j < |sorted| ensures Index(sorted[i]).value != Index(sorted[j]).value {
      if Index(sorted[i]).value == Index(sorted[j]).value {
        SameIndexOnce(flows, sorted[i], sorted[j]);
        TwoCopies(sorted, i, j);
        OneCopy(flows, sorted[i]);
      }
    }
  }

  lemma SameIndexOnce(flows: seq<FlowFile>, f: FlowFile, g: FlowFile)
    requires Indexed(flows) && DistinctIndices(flows) && f in multiset(flows) && g in multiset(flows)
    requires Index(f).Some? && Index(g).Some? && Index(f).value == Index(g).value
    ensures f == g
  {
    assert f in flows && g in flows;
  }

  lemma TwoCopies(s: seq<FlowFile>, i: int, j: int)
    requires 0 <= i < j < |s| && s[i] == s[j]
    ensures multiset(s)[s[i]] >= 2
  {
    assert s == s[..i + 1] + s[i + 1..];
    assert s[i] in multiset(s[..i + 1]) by { assert s[..i + 1][i] == s[i]; }
    assert s[j] in multiset(s[i + 1..]) by { assert s[i + 1..][j - i - 1] == s[j]; }
  }

  lemma {:induction false} OneCopy(s: seq<FlowFile>, f: FlowFile)
    requires Indexed(s) && DistinctIndices(s)
    ensures multiset(s)[f] <= 1
    decreases |s|
  {
    if s != [] {
      OneCopy(s[1..], f);
      assert s == [s[0]] + s[1..];
      if s[0] == f {
        assert f !in s[1..];
      }
    }
  }

  /** Fragments that arrived in any order: sorted by index and concatenated they are the original bytes again. */
  lemma Reassembles(flows: seq<FlowFile>, sorted: seq<FlowFile>, pieces: seq<seq<Byte>>)
    requires Indexed(flows) && DistinctIndices(flows) && CarryPieces(flows, pieces) && |flows| == |pieces|
    requires Indexed(sorted) && SortedByIndex(sorted) && multiset(sorted) == multiset(flows)
    ensures Join(Contents(sorted), []) == Flatten(pieces)
  {
    DistinctAsBag(flows, sorted);
    assert |sorted| == |flows| by { assert |multiset(sorted)| == |sorted| && |multiset(flows)| == |flows|; }
    forall k | 0 <= k < |sorted| ensures sorted[k] in flows {
      assert sorted[k] in multiset(sorted);
    }
    SortedInPlace(sorted);
    assert Contents(sorted) == pieces;
    JoinFlattens(pieces);
  }
}
