/** The processor on top of the manager: one trigger, and where every file of a delivered bin goes. */
module MergeProcessor {
  import opened Words
  import opened Options
  import opened FlowFiles
  import M = BinModel
  import opened BinRuns
  import BinOrder
  import BinThreads
  import opened BinObjects
  import opened MergeContent

  const DEFRAGMENT := "Defragment"
  const BIN_PACK := "Bin-Packing Algorithm"
  const CONCAT := "Binary Concatenation"
  const TAR := "TAR"
  const ZIP := "ZIP"

  datatype Config = Config(strategy: string, format: string, correlation: string,
                           header: seq<Byte>, footer: seq<Byte>, demarcator: seq<Byte>, page: nat, maxBinCount: int)

  datatype Relationship = Original | Failure | Merged

  /** What leaves the processor: a file of a bin, or merged content. */
  datatype Transfer = FileTo(file: FlowFile, to: Relationship) | MergedContent(content: seq<Byte>, count: int)

  class Session {
    var transfers: seq<Transfer>

    constructor ()
      ensures transfers == []
    {
      transfers := [];
    }

    method Add(t: Transfer)
      modifies this
      ensures transfers == old(transfers) + [t]
    {
      transfers := transfers + [t];
    }
  }

  function Each(files: seq<FlowFile>, to: Relationship): (r: seq<Transfer>)
    ensures |r| == |files| && forall k :: 0 <= k < |r| ==> r[k] == FileTo(files[k], to)
  {
    seq(|files|, k requires 0 <= k < |files| => FileTo(files[k], to))
  }

  /** Old segment attributes stand in for missing fragment attributes. */
  function Preprocess(f: FlowFile): FlowFile {
    var f := Copied(f, "segment.count", FRAGMENT_COUNT);
    var f := Copied(f, "segment.index", FRAGMENT_INDEX);
    Copied(f, "segment.identifier", FRAGMENT_ID)
  }

  function Copied(f: FlowFile, from: string, to: string): FlowFile {
    if to !in f.attributes && from in f.attributes then f.(attributes := f.attributes[to := f.attributes[from]]) else f
  }

  /** The correlation attribute, or in defragmentation the fragment identifier when that gives nothing. */
  function GroupId(c: Config, f: FlowFile): string {
    var g := if c.correlation != "" && Attribute(f, c.correlation).Some? then Attribute(f, c.correlation).value else "";
    if g == "" && c.strategy == DEFRAGMENT && Attribute(f, FRAGMENT_ID).Some? then Attribute(f, FRAGMENT_ID).value
    else g
  }

  /** The correlation value of a file, if it is not empty. */
  function Correlation(c: Config, f: FlowFile): Option<string> {
    if c.correlation != "" && Attribute(f, c.correlation) != Some("") then Attribute(f, c.correlation) else None
  }

  /** Which files share a group: those whose correlation values, if both have one, agree; without any, in
      defragmentation those with the same fragment identifier, and otherwise all. */
  lemma SameGroup(c: Config, f: FlowFile, g: FlowFile)
    ensures var a, b := Correlation(c, f), Correlation(c, g);
            && (a.Some? && b.Some? ==> (GroupId(c, f) == GroupId(c, g) <==> a == b))
            && (a.None? && b.None? && c.strategy != DEFRAGMENT ==> GroupId(c, f) == GroupId(c, g) == "")
            && (a.None? && b.None? && c.strategy == DEFRAGMENT ==>
                  var i, j := Attribute(f, FRAGMENT_ID), Attribute(g, FRAGMENT_ID);
                  i.Some? && j.Some? ==> (GroupId(c, f) == GroupId(c, g) <==> i == j))
            && (a.Some? && b.None? && c.strategy != DEFRAGMENT ==> GroupId(c, f) != GroupId(c, g))
  {
  }

  /** Send all files of the bin to one relationship. */
  method TransferAll(session: Session, files: seq<FlowFile>, to: Relationship)
    modifies session
    ensures session.transfers == old(session.transfers) + Each(files, to)
  {
    for i := 0 to |files|
      invariant session.transfers == old(session.transfers) + Each(files[..i], to)
    {
      session.Add(FileTo(files[i], to));
      assert Each(files[..i + 1], to) == Each(files[..i], to) + [FileTo(files[i], to)];
    }
    assert files[..|files|] == files;
  }

  /** The outcome of the archive library on a list of files: the archive, or nothing if it throws. */
  type Archiver = seq<FlowFile> -> Option<seq<Byte>>

  /** Exactly the bins whose strategy and format are known, whose fragments pass the check, and whose archive
      succeeds. */
  ghost predicate Mergeable(c: Config, files: seq<FlowFile>, archived: Option<seq<Byte>>) {
    && (c.strategy == BIN_PACK || (c.strategy == DEFRAGMENT && exists id, count :: Fragments(files, id, count)))
    && (c.format == CONCAT || ((c.format == TAR || c.format == ZIP) && archived.Some?))
  }

  ghost function MergedBytes(c: Config, files: seq<FlowFile>, archived: Option<seq<Byte>>): seq<Byte>
    requires c.page > 0 && Mergeable(c, files, archived)
  {
    if c.format == CONCAT then c.header + Join(Taken(files, c.page), c.demarcator) + c.footer else archived.value
  }

  /** Merge one bin: on success the merged content and then all its files go out, otherwise nothing does.
      Defragmentation leaves the bin sorted by fragment index. */
  method ProcessBin(c: Config, bin: Bin, session: Session, archive: Archiver) returns (ok: bool)
    requires c.page > 0
    modifies bin`queue, session
    ensures multiset(bin.queue) == multiset(old(bin.queue))
    ensures ok <==> Mergeable(c, old(bin.queue), archive(bin.queue))
    ensures c.strategy == BIN_PACK ==> bin.queue == old(bin.queue)
    ensures ok && c.strategy == DEFRAGMENT ==> Indexed(bin.queue) && SortedByIndex(bin.queue)
    ensures !ok ==> session.transfers == old(session.transfers)
    ensures ok ==> Mergeable(c, bin.queue, archive(bin.queue))
    ensures ok ==> session.transfers == old(session.transfers)
                                        + [MergedContent(MergedBytes(c, bin.queue, archive(bin.queue)), |bin.queue|)]
                                        + Each(bin.queue, Original)
  {
    if c.strategy != DEFRAGMENT && c.strategy != BIN_PACK {
      return false;
    }
    if c.strategy == DEFRAGMENT {
      var fine := CheckDefragment(bin.queue);
      if !fine {
        return false;
      }
      bin.queue := SortByIndex(bin.queue);
      SameFragments(old(bin.queue), bin.queue);
    }
    if c.format != CONCAT && c.format != TAR && c.format != ZIP {
      return false;
    }
    var content, ret;
    if c.format == CONCAT {
      content, ret := WriteMerged(c.header, c.footer, c.demarcator, bin.queue, c.page);
    } else {
      var archived := archive(bin.queue);
      if archived.None? {
        return false;
      }
      content := archived.value;
    }
    session.Add(MergedContent(content, |bin.queue|));
    TransferAll(session, bin.queue, Original);
    return true;
  }

  /** The fragment check does not depend on the order of the files. */
  lemma SameFragments(files: seq<FlowFile>, order: seq<FlowFile>)
    requires multiset(order) == multiset(files) && exists id, count :: Fragments(files, id, count)
    ensures exists id, count :: Fragments(order, id, count)
  {
    var id, count :| Fragments(files, id, count);
    forall k | 0 <= k < |order| ensures order[k] in files {
      assert order[k] in multiset(order);
    }
    assert |order| == |multiset(order)| == |files|;
    assert Fragments(order, id, count);
  }

  /** One bin has been dealt with: its files, in some order, all went to Original behind the merged content, or all to
      Failure. */
  ghost predicate RoutedAs(c: Config, files: seq<FlowFile>, order: seq<FlowFile>, archive: Archiver,
                           sent: seq<Transfer>)
    requires c.page > 0
  {
    && multiset(order) == multiset(files)
    && (c.strategy == BIN_PACK ==> order == files)
    && if Mergeable(c, files, archive(order))
       then
         && Mergeable(c, order, archive(order))
         && (c.strategy == DEFRAGMENT ==> Indexed(order) && SortedByIndex(order))
         && sent == [MergedContent(MergedBytes(c, order, archive(order)), |order|)] + Each(order, Original)
       else sent == Each(order, Failure)
  }

  ghost predicate Routed(c: Config, files: seq<FlowFile>, archive: Archiver, sent: seq<Transfer>)
    requires c.page > 0
  {
    exists order :: RoutedAs(c, files, order, archive, sent)
  }

  /** The bins have been dealt with one after the other. */
  ghost predicate RoutedAll(c: Config, bins: seq<M.Bin>, archive: Archiver, sent: seq<Transfer>)
    requires c.page > 0
  {
    var n := |bins| - 1;
    if bins == [] then sent == []
    else exists k | 0 <= k <= |sent| :: RoutedAll(c, bins[..n], archive, sent[..k])
           && Routed(c, bins[n].files, archive, sent[k..])
  }

  /** Send all files of a bin that could not be merged to Failure, and empty the bin. */
  method TransferFlowsToFail(session: Session, bin: Bin)
    modifies bin`queue, session
    ensures session.transfers == old(session.transfers) + Each(old(bin.queue), Failure) && bin.queue == []
  {
    TransferAll(session, bin.queue, Failure);
    bin.queue := [];
  }

  /** Deal with one ready bin. */
  method HandleBin(c: Config, bin: Bin, session: Session, archive: Archiver) returns (ghost sent: seq<Transfer>)
    requires c.page > 0
    modifies bin`queue, session
    ensures session.transfers == old(session.transfers) + sent && Routed(c, old(bin.queue), archive, sent)
  {
    var ok := ProcessBin(c, bin, session, archive);
    ghost var order := bin.queue;
    if !ok {
      TransferFlowsToFail(session, bin);
      sent := Each(order, Failure);
    } else {
      sent := [MergedContent(MergedBytes(c, order, archive(order)), |order|)] + Each(order, Original);
    }
    assert RoutedAs(c, old(bin.queue), order, archive, sent);
  }

  /** Deal with all ready bins in turn. */
  method HandleBins(c: Config, bins: seq<Bin>, session: Session, archive: Archiver, ghost values: seq<M.Bin>)
    returns (ghost sent: seq<Transfer>)
    requires c.page > 0 && Shows(bins, values) && forall i, j :: 0 <= i < j < |bins| ==> bins[i] != bins[j]
    modifies bins, session
    ensures session.transfers == old(session.transfers) + sent && RoutedAll(c, values, archive, sent)
  {
    sent := [];
    var i := 0;
    hide Routed, RoutedAll, RoutedAs;
    RoutedNone(c, archive);
    while i < |bins|
      invariant 0 <= i <= |bins| && session.transfers == old(session.transfers) + sent
      invariant RoutedAll(c, values[..i], archive, sent)
      invariant forall k :: i <= k < |bins| ==> bins[k].View() == values[k]
    {
      assert bins[i].View().files == bins[i].queue;
      ghost var more := HandleBin(c, bins[i], session, archive);
      RoutedNext(c, values, i, archive, sent, more);
      sent := sent + more;
      i := i + 1;
    }
    assert values[..|bins|] == values;
  }

  lemma RoutedNone(c: Config, archive: Archiver)
    requires c.page > 0
    ensures RoutedAll(c, [], archive, [])
  {
  }

  lemma RoutedNext(c: Config, bins: seq<M.Bin>, i: int, archive: Archiver, sent: seq<Transfer>, more: seq<Transfer>)
    requires c.page > 0 && 0 <= i < |bins| && RoutedAll(c, bins[..i], archive, sent)
    requires Routed(c, bins[i].files, archive, more)
    ensures RoutedAll(c, bins[..i + 1], archive, sent + more)
  {
    var k, both := |sent|, sent + more;
    assert both[..k] == sent && both[k..] == more && bins[..i + 1][..i] == bins[..i];
    hide Routed;
  }

  /** The manager after the arriving file, if any, has been offered; a call without a file does not fail. */
  function Arrived(c: Config, m: M.Manager, flow: Option<FlowFile>, now: Size): (M.Manager, bool) {
    if flow.None? then (m, true)
    else M.Offer(m, GroupId(c, Preprocess(flow.value)), Preprocess(flow.value), now)
  }

  /** One eviction if there are too many bins. */
  function Trimmed(m: M.Manager, maxBinCount: int): M.Manager {
    if m.count > maxBinCount then M.RemoveOldest(m) else m
  }

  /** One call of the processor: the file it gets, if any, and the two times it reads. */
  datatype Trigger = Trigger(flow: Option<FlowFile>, now: Size, later: Size)

  /** What one call makes of the manager and what it sends: all ready bins after gathering and at most one eviction are
      taken and routed; a refused file goes to Failure and nothing else happens. */
  ghost predicate Handled(c: Config, m: M.Manager, t: Trigger, archive: Archiver, m': M.Manager, sent: seq<Transfer>)
    requires c.page > 0
  {
    var (offered, accepted) := Arrived(c, m, t.flow, t.now);
    var full := Trimmed(M.Gather(offered, t.later), c.maxBinCount);
    if accepted then m' == M.TakeReady(full) && RoutedAll(c, full.ready, archive, sent)
    else m' == offered && t.flow.Some? && sent == [FileTo(Preprocess(t.flow.value), Failure)]
  }

  /** A file no bin would take goes to Failure. */
  method Refuse(manager: BinManager, session: Session, file: FlowFile)
    requires manager.Valid()
    modifies session
    ensures manager.Valid() && session.transfers == old(session.transfers) + [FileTo(file, Failure)]
  {
    hide Consistent, Owned;
    session.Add(FileTo(file, Failure));
  }

  /** One trigger of the processor: offer, gather, evict, then merge or fail every ready bin. */
  method OnTrigger(c: Config, manager: BinManager, session: Session, flow: Option<FlowFile>, archive: Archiver,
                   now: Size, later: Size)
    returns (ghost sent: seq<Transfer>)
    requires c.page > 0 && manager.Valid()
    modifies manager, manager.repr, session
    ensures manager.Valid() && fresh(manager.repr - old(manager.repr))
    ensures session.transfers == old(session.transfers) + sent
    ensures Handled(c, old(manager.state), Trigger(flow, now, later), archive, manager.state, sent)
  {
    hide RoutedAll, BinManager.Valid, M.Offer, M.Gather, M.RemoveOldest, GroupId, Preprocess;
    if flow.Some? {
      var file := Preprocess(flow.value);
      var ok := manager.Offer(GroupId(c, file), file, now);
      if !ok {
        Refuse(manager, session, file);
        sent := [FileTo(file, Failure)];
        return;
      }
    }
    manager.GatherReadyBins(later);
    if manager.count > c.maxBinCount {
      manager.RemoveOldestBin();
    }
    ghost var full := manager.state;
    var bins := manager.GetReadyBin();
    assert forall b :: b in bins ==> b in manager.repr;
    assert forall b :: b in manager.repr ==> b in old(manager.repr) || fresh(b);
    assert forall b :: b in BinsOf(manager.groups) ==> b !in bins;
    sent := HandleBins(c, bins, session, archive, full.ready);
  }

  /** The files sent to one relationship, with their multiplicities. */
  ghost function SentTo(sent: seq<Transfer>, to: Relationship): multiset<FlowFile> {
    var n := |sent| - 1;
    if sent == [] then multiset{}
    else SentTo(sent[..n], to) + if sent[n].FileTo? && sent[n].to == to then multiset{sent[n].file} else multiset{}
  }

  lemma {:induction false} SentToConcat(a: seq<Transfer>, b: seq<Transfer>, to: Relationship)
    ensures SentTo(a + b, to) == SentTo(a, to) + SentTo(b, to)
    decreases |b|
  {
    if b == [] {
      assert a + b == a;
    } else {
      assert (a + b)[..|a + b| - 1] == a + b[..|b| - 1];
      SentToConcat(a, b[..|b| - 1], to);
    }
  }

  lemma {:induction false} SentToEach(files: seq<FlowFile>, to: Relationship, other: Relationship)
    ensures SentTo(Each(files, to), other) == if to == other then multiset(files) else multiset{}
    decreases |files|
  {
    if files != [] {
      var n := |files| - 1;
      SentToEach(files[..n], to, other);
      assert Each(files, to) == Each(files[..n], to) + [FileTo(files[n], to)];
      SentToSnoc(Each(files[..n], to), FileTo(files[n], to), other);
      BagSnoc(files);
      hide SentTo, Each;
    }
  }

  lemma SentToSnoc(a: seq<Transfer>, t: Transfer, to: Relationship)
    ensures SentTo(a + [t], to) == SentTo(a, to) + if t.FileTo? && t.to == to then multiset{t.file} else multiset{}
  {
    assert (a + [t])[..|a|] == a;
  }

  lemma BagSnoc(files: seq<FlowFile>)
    requires files != []
    ensures multiset(files) == multiset(files[..|files| - 1]) + multiset{files[|files| - 1]}
  {
    assert files == files[..|files| - 1] + [files[|files| - 1]];
  }

  /** Every file of the bin goes to exactly one of Original and Failure, once, and all of them to the same. */
  lemma RoutedOnce(c: Config, files: seq<FlowFile>, archive: Archiver, sent: seq<Transfer>)
    requires c.page > 0 && Routed(c, files, archive, sent)
    ensures (SentTo(sent, Original), SentTo(sent, Failure)) in {(multiset(files), multiset{}),
            (multiset{}, multiset(files))}
    ensures SentTo(sent, Original) + SentTo(sent, Failure) == multiset(files)
  {
    var order :| RoutedAs(c, files, order, archive, sent);
    if Mergeable(c, files, archive(order)) {
      MergedOnce(MergedContent(MergedBytes(c, order, archive(order)), |order|), order, sent);
    } else {
      SentToEach(order, Failure, Original);
      SentToEach(order, Failure, Failure);
    }
  }

  lemma MergedOnce(merged: Transfer, order: seq<FlowFile>, sent: seq<Transfer>)
    requires merged.MergedContent? && sent == [merged] + Each(order, Original)
    ensures SentTo(sent, Original) == multiset(order) && SentTo(sent, Failure) == multiset{}
  {
    SentToEach(order, Original, Original);
    SentToEach(order, Original, Failure);
    SentToConcat([merged], Each(order, Original), Original);
    SentToConcat([merged], Each(order, Original), Failure);
    SentToSnoc([], merged, Original);
    SentToSnoc([], merged, Failure);
    assert [] + [merged] == [merged];
    hide Each;
  }

  /** Over all delivered bins nothing is lost, duplicated or sent to two places. */
  lemma {:induction false} RoutedExactly(c: Config, bins: seq<M.Bin>, archive: Archiver, sent: seq<Transfer>)
    requires c.page > 0 && RoutedAll(c, bins, archive, sent)
    ensures SentTo(sent, Original) + SentTo(sent, Failure) == multiset(BinOrder.Files(bins))
    decreases |bins|
  {
    if bins != [] {
      var k := LastRouted(c, bins, archive, sent);
      hide RoutedAll, Routed, SentTo, BinOrder.Files;
      RoutedExactly(c, bins[..|bins| - 1], archive, sent[..k]);
      RoutedOnce(c, bins[|bins| - 1].files, archive, sent[k..]);
      FilesSnoc(bins);
      SentAdds(sent[..k], sent[k..]);
    }
  }

  lemma LastRouted(c: Config, bins: seq<M.Bin>, archive: Archiver, sent: seq<Transfer>) returns (k: int)
    requires c.page > 0 && RoutedAll(c, bins, archive, sent) && bins != []
    ensures 0 <= k <= |sent| && sent[..k] + sent[k..] == sent
    ensures RoutedAll(c, bins[..|bins| - 1], archive, sent[..k])
    ensures Routed(c, bins[|bins| - 1].files, archive, sent[k..])
  {
    hide Routed;
    var n := |bins| - 1;
    k :| 0 <= k <= |sent| && RoutedAll(c, bins[..n], archive, sent[..k])
      && Routed(c, bins[n].files, archive, sent[k..]);
  }

  lemma SentAdds(a: seq<Transfer>, b: seq<Transfer>)
    ensures SentTo(a + b, Original) + SentTo(a + b, Failure) ==
            (SentTo(a, Original) + SentTo(a, Failure)) + (SentTo(b, Original) + SentTo(b, Failure))
  {
    SentToConcat(a, b, Original);
    SentToConcat(a, b, Failure);
    hide SentTo;
    Mingle(SentTo(a, Original), SentTo(b, Original), SentTo(a, Failure), SentTo(b, Failure));
  }

  lemma Mingle(a: multiset<FlowFile>, b: multiset<FlowFile>, c: multiset<FlowFile>, d: multiset<FlowFile>)
    ensures (a + b) + (c + d) == (a + c) + (b + d)
  {
  }

  lemma FilesSnoc(bins: seq<M.Bin>)
    requires bins != []
    ensures multiset(BinOrder.Files(bins)) ==
            multiset(BinOrder.Files(bins[..|bins| - 1])) + multiset(bins[|bins| - 1].files)
  {
    var n := |bins| - 1;
    BinOrder.FilesConcat(bins[..n], [bins[n]]);
    assert bins == bins[..n] + [bins[n]];
    assert BinOrder.Files([bins[n]]) == bins[n].files;
  }

  /** A trigger that starts with no more bins than the maximum ends so, whether or not the file was taken. */
  lemma TriggerBounded(c: Config, m: M.Manager, flow: Option<FlowFile>, now: Size, later: Size)
    requires Consistent(m) && BinThreads.Early(m) && 0 <= m.count <= c.maxBinCount && now < UINT64_MAX
    ensures var (m', accepted) := Arrived(c, m, flow, now);
            var after := if accepted then M.TakeReady(Trimmed(M.Gather(m', later), c.maxBinCount)) else m';
            Consistent(after) && BinThreads.Early(after) && after.count <= c.maxBinCount
  {
    var (m', accepted) := Arrived(c, m, flow, now);
    if flow.Some? {
      var file := Preprocess(flow.value);
      OfferConsistent(m, GroupId(c, file), file, now);
      BinThreads.OfferEarly(m, GroupId(c, file), file, now);
    }
    GatherConsistent(m', later);
    BinThreads.GatherEarly(m', later);
    var gathered := M.Gather(m', later);
    RemoveOldestConsistent(gathered);
    BinThreads.EvictProgress(gathered);
    hide M.Offer, M.Gather, M.RemoveOldest;
  }

  /** Defragmentation undoes fragmentation: when a bin holds one fragment for each piece of some content, in any
      order of arrival, what goes out first is exactly that content. */
  lemma DefragmentRestores(c: Config, files: seq<FlowFile>, archive: Archiver, sent: seq<Transfer>,
                           pieces: seq<seq<Byte>>, id: string, count: string)
    requires c.page > 0 && c.strategy == DEFRAGMENT && c.format == CONCAT && c.header == [] && c.footer == []
    requires c.demarcator == []
    requires Fragments(files, id, count) && Indexed(files) && DistinctIndices(files)
    requires |pieces| == |files| && CarryPieces(files, pieces) && Sized(files)
    requires Routed(c, files, archive, sent)
    ensures |sent| == |files| + 1 && sent[0] == MergedContent(Flatten(pieces), |files|)
  {
    var order :| RoutedAs(c, files, order, archive, sent);
    RestoresInOrder(c, files, order, archive, sent, pieces, id, count);
  }

  lemma RestoresInOrder(c: Config, files: seq<FlowFile>, order: seq<FlowFile>, archive: Archiver, sent: seq<Transfer>,
                        pieces: seq<seq<Byte>>, id: string, count: string)
    requires c.page > 0 && c.strategy == DEFRAGMENT && c.format == CONCAT && c.header == [] && c.footer == []
    requires c.demarcator == []
    requires Fragments(files, id, count) && Indexed(files) && DistinctIndices(files)
    requires |pieces| == |files| && CarryPieces(files, pieces) && Sized(files)
    requires RoutedAs(c, files, order, archive, sent)
    ensures |sent| == |files| + 1 && sent[0] == MergedContent(Flatten(pieces), |files|)
  {
    FragmentsMerged(c, files, order, archive, sent, id, count);
    hide RoutedAs, Fragments;
    SameSizes(files, order);
    Reassembles(files, order, pieces);
    SizedTaken(order, c.page);
    hide Indexed, DistinctIndices, CarryPieces, SortedByIndex, Taken, Contents, Join, Flatten, Sized;
    Bare(Join(Taken(order, c.page), []));
    FirstSent(MergedContent(Flatten(pieces), |order|), order, sent);
  }

  lemma Bare(s: seq<Byte>)
    ensures [] + s + [] == s
  {
  }

  lemma FirstSent(merged: Transfer, order: seq<FlowFile>, sent: seq<Transfer>)
    requires sent == [merged] + Each(order, Original)
    ensures |sent| == |order| + 1 && sent[0] == merged
  {
  }

  lemma FragmentsMerged(c: Config, files: seq<FlowFile>, order: seq<FlowFile>, archive: Archiver, sent: seq<Transfer>,
                        id: string, count: string)
    requires c.page > 0 && c.strategy == DEFRAGMENT && c.format == CONCAT
    requires Fragments(files, id, count) && RoutedAs(c, files, order, archive, sent)
    ensures multiset(order) == multiset(files) && Indexed(order) && SortedByIndex(order)
    ensures sent == [MergedContent(c.header + Join(Taken(order, c.page), c.demarcator) + c.footer, |order|)]
            + Each(order, Original)
  {
    assert Mergeable(c, files, archive(order));
  }

  lemma SameSizes(files: seq<FlowFile>, order: seq<FlowFile>)
    requires multiset(order) == multiset(files) && Sized(files)
    ensures Sized(order) && |order| == |files|
  {
    assert |order| == |multiset(order)| == |multiset(files)| == |files|;
    forall k | 0 <= k < |order| ensures order[k] in files {
      assert order[k] in multiset(order);
    }
  }

  /** Bin packing by concatenation never fails: the files go to Original in their order of arrival, behind the header,
      their contents with the demarcator between them, and the footer. */
  lemma PackedConcatenates(c: Config, files: seq<FlowFile>, archive: Archiver, sent: seq<Transfer>)
    requires c.page > 0 && c.strategy == BIN_PACK && c.format == CONCAT && Sized(files)
    requires Routed(c, files, archive, sent)
    ensures sent == [MergedContent(c.header + Join(Contents(files), c.demarcator) + c.footer, |files|)]
            + Each(files, Original)
  {
    var order :| RoutedAs(c, files, order, archive, sent);
    SizedTaken(files, c.page);
  }

  /** A bin whose strategy or format is not known, or whose fragments do not pass, goes to Failure as it is. */
  lemma FailedBin(c: Config, files: seq<FlowFile>, archive: Archiver, sent: seq<Transfer>)
    requires c.page > 0 && Routed(c, files, archive, sent)
    requires || c.strategy !in {BIN_PACK, DEFRAGMENT} || c.format !in {CONCAT, TAR, ZIP}
             || (c.strategy == DEFRAGMENT && !exists id, count :: Fragments(files, id, count))
    ensures SentTo(sent, Failure) == multiset(files) && SentTo(sent, Original) == multiset{}
  {
    var order :| RoutedAs(c, files, order, archive, sent);
    SentToEach(order, Failure, Failure);
    SentToEach(order, Failure, Original);
  }

  /** The manager operations of one trigger: the offer, if a file arrived, and the rest unless it was refused. */
  function TriggerSteps(c: Config, m: M.Manager, flow: Option<FlowFile>, now: Size, later: Size): seq<Step> {
    var (m', accepted) := Arrived(c, m, flow, now);
    FirstSteps(c, flow, now) + if accepted then LaterSteps(c, m', later) else []
  }

  function FirstSteps(c: Config, flow: Option<FlowFile>, now: Size): seq<Step> {
    if flow.Some? then [OfferStep(GroupId(c, Preprocess(flow.value)), Preprocess(flow.value), now)] else []
  }

  function LaterSteps(c: Config, m: M.Manager, later: Size): seq<Step> {
    if M.Gather(m, later).count > c.maxBinCount then [GatherStep(later), EvictStep, DeliverStep]
    else [GatherStep(later), DeliverStep]
  }

  /** What an accepted file adds to the log of accepted offers. */
  function Logged(c: Config, flow: Option<FlowFile>): seq<(string, FlowFile)> {
    if flow.Some? then [(GroupId(c, Preprocess(flow.value)), Preprocess(flow.value))] else []
  }

  lemma RunFirst(c: Config, w: World, flow: Option<FlowFile>, now: Size)
    ensures var (m, accepted) := Arrived(c, w.m, flow, now);
            Run(w, FirstSteps(c, flow, now)) ==
              World(m, w.delivered, w.accepted + if accepted then Logged(c, flow) else [])
  {
    hide M.Offer, GroupId, Preprocess;
    assert w.accepted + [] == w.accepted;
    if flow.Some? {
      var s := FirstSteps(c, flow, now)[0];
      RunSnoc(w, [], s);
      assert [] + [s] == FirstSteps(c, flow, now);
    }
  }

  lemma RunLater(c: Config, w: World, steps: seq<Step>, later: Size)
    ensures var one := Run(w, steps);
            var full := Trimmed(M.Gather(one.m, later), c.maxBinCount);
            Run(w, steps + LaterSteps(c, one.m, later)) ==
              World(M.TakeReady(full), one.delivered + full.ready, one.accepted)
  {
    hide M.Gather, M.RemoveOldest, Run;
    var two := steps + [GatherStep(later)];
    RunSnoc(w, steps, GatherStep(later));
    if M.Gather(Run(w, steps).m, later).count > c.maxBinCount {
      RunSnoc(w, two, EvictStep);
      RunSnoc(w, two + [EvictStep], DeliverStep);
      assert two + [EvictStep] + [DeliverStep] == steps + [GatherStep(later), EvictStep, DeliverStep];
    } else {
      RunSnoc(w, two, DeliverStep);
      assert two + [DeliverStep] == steps + [GatherStep(later), DeliverStep];
    }
  }

  /** A trigger is a run without purge, so order, dates, limits and counters are kept by triggers as well; what it
      delivers is what its last step takes. */
  lemma TriggerIsRun(c: Config, w: World, flow: Option<FlowFile>, now: Size, later: Size)
    ensures BinOrder.NoPurge(TriggerSteps(c, w.m, flow, now, later))
    ensures var (m, accepted) := Arrived(c, w.m, flow, now);
            var full := Trimmed(M.Gather(m, later), c.maxBinCount);
            Run(w, TriggerSteps(c, w.m, flow, now, later)) ==
            if accepted then World(M.TakeReady(full), w.delivered + full.ready, w.accepted + Logged(c, flow))
            else World(m, w.delivered, w.accepted)
  {
    assert BinOrder.NoPurge(TriggerSteps(c, w.m, flow, now, later));
    hide Arrived, Trimmed, M.Gather, Run, FirstSteps, LaterSteps, Logged, BinOrder.NoPurge;
    var first := FirstSteps(c, flow, now);
    RunFirst(c, w, flow, now);
    RunLater(c, w, first, later);
    assert first + [] == first && w.accepted + [] == w.accepted;
  }

  /** Fragment attributes are never overwritten, missing ones are filled from the segment attributes, and no other
      attribute changes. */
  lemma PreprocessFills(f: FlowFile, name: string)
    ensures var stand := if name == FRAGMENT_COUNT then "segment.count"
                        else if name == FRAGMENT_INDEX then "segment.index"
                        else if name == FRAGMENT_ID then "segment.identifier" else name;
            Attribute(Preprocess(f), name) ==
              if Attribute(f, name).Some? then Attribute(f, name) else Attribute(f, stand)
    ensures Preprocess(f) == f.(attributes := Preprocess(f).attributes)
  {
    assert FRAGMENT_COUNT[0] == FRAGMENT_INDEX[0] == FRAGMENT_ID[0] == 'f';
  }
}
