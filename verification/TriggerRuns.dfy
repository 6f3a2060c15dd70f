/** Any number of triggers, one after the other: no file is lost, duplicated or sent to two places. */
module TriggerRuns {
  import opened Words
  import opened FlowFiles
  import opened BinModel
  import opened BinRuns
  import opened BinOrder
  import BinThreads
  import opened MergeProcessor

  ghost predicate HandledAll(c: Config, m: Manager, ts: seq<Trigger>, archive: Archiver, m': Manager,
                             sent: seq<Transfer>)
    requires c.page > 0
  {
    var n := |ts| - 1;
    if ts == [] then m' == m && sent == []
    else exists mid, k | 0 <= k <= |sent| ::
      HandledAll(c, m, ts[..n], archive, mid, sent[..k]) && Handled(c, mid, ts[n], archive, m', sent[k..])
  }

  /** The files that arrived, as they were offered. */
  ghost function Arrivals(ts: seq<Trigger>): multiset<FlowFile> {
    var n := |ts| - 1;
    if ts == [] then multiset{}
    else Arrivals(ts[..n]) + Arrival(ts[n])
  }

  ghost function Bag(bins: seq<Bin>): multiset<FlowFile> {
    multiset(Files(bins))
  }

  ghost function GroupsBag(groups: seq<Group<Bin>>): multiset<FlowFile> {
    if groups == [] then multiset{} else Bag(groups[0].bins) + GroupsBag(groups[1..])
  }

  /** All files the manager holds, queued or ready. */
  ghost function Held(m: Manager): multiset<FlowFile> {
    GroupsBag(m.groups) + Bag(m.ready)
  }

  /** Two balances one after the other. */
  lemma Chain(a: multiset<FlowFile>, b: multiset<FlowFile>, h0: multiset<FlowFile>, h1: multiset<FlowFile>,
              h2: multiset<FlowFile>,
              p: multiset<FlowFile>, q: multiset<FlowFile>)
    requires a + h1 == h0 + p && b + h2 == h1 + q
    ensures (a + b) + h2 == h0 + (p + q)
  {
    forall f ensures ((a + b) + h2)[f] == (h0 + (p + q))[f] {
      assert (a + h1)[f] == (h0 + p)[f] && (b + h2)[f] == (h1 + q)[f];
    }
  }

  lemma BagConcat(a: seq<Bin>, b: seq<Bin>)
    ensures Bag(a + b) == Bag(a) + Bag(b)
  {
    FilesConcat(a, b);
    hide Files;
  }

  lemma BagOne(b: Bin)
    ensures Bag([b]) == multiset(b.files)
  {
    assert Files([b]) == b.files + [] == b.files;
  }

  lemma {:induction false} GroupsBagConcat(a: seq<Group<Bin>>, b: seq<Group<Bin>>)
    ensures GroupsBag(a + b) == GroupsBag(a) + GroupsBag(b)
    decreases |a|
  {
    if a == [] {
      assert a + b == b;
    } else {
      assert (a + b)[1..] == a[1..] + b;
      GroupsBagConcat(a[1..], b);
      hide Bag;
    }
  }

  lemma GroupsBagAt(groups: seq<Group<Bin>>, i: int)
    requires 0 <= i < |groups|
    ensures GroupsBag(groups) == GroupsBag(groups[..i]) + Bag(groups[i].bins) + GroupsBag(groups[i + 1..])
  {
    assert groups == groups[..i] + groups[i..] && groups[i..][1..] == groups[i + 1..];
    GroupsBagConcat(groups[..i], groups[i..]);
    hide Bag;
  }

  /** Replacing one queue by one with d more files adds d. */
  lemma GroupsBagReplace(groups: seq<Group<Bin>>, i: int, g: Group<Bin>, d: multiset<FlowFile>)
    requires 0 <= i < |groups| && Bag(g.bins) == Bag(groups[i].bins) + d
    ensures GroupsBag(groups[i := g]) == GroupsBag(groups) + d
  {
    GroupsBagAt(groups, i);
    GroupsBagAt(groups[i := g], i);
    assert groups[i := g][..i] == groups[..i] && groups[i := g][i + 1..] == groups[i + 1..];
    hide Bag, GroupsBag;
  }

  /** Taking the front bin from a queue. */
  lemma GroupsBagPop(groups: seq<Group<Bin>>, i: int)
    requires 0 <= i < |groups| && groups[i].bins != []
    ensures GroupsBag(groups[i := Group(groups[i].key, groups[i].bins[1..])]) + Bag([groups[i].bins[0]]) ==
            GroupsBag(groups)
  {
    var q := groups[i].bins;
    var popped := groups[i := Group(groups[i].key, q[1..])];
    BagConcat([q[0]], q[1..]);
    assert q == [q[0]] + q[1..] && popped[i := groups[i]] == groups;
    GroupsBagReplace(popped, i, groups[i], Bag([q[0]]));
  }

  lemma GroupsBagRemove(groups: seq<Group<Bin>>, i: int)
    requires 0 <= i < |groups|
    ensures GroupsBag(groups[..i] + groups[i + 1..]) + Bag(groups[i].bins) == GroupsBag(groups)
  {
    GroupsBagAt(groups, i);
    GroupsBagConcat(groups[..i], groups[i + 1..]);
    hide Bag, GroupsBag;
  }

  lemma InsertedAt(groups: seq<Group<Bin>>, g: Group<Bin>) returns (i: int)
    ensures 0 <= i <= |groups|
    ensures var after := Insert(groups, g);
            |after| == |groups| + 1 && after[..i] == groups[..i] && after[i] == g && after[i + 1..] == groups[i..]
  {
    i := Slot(groups, g.key);
  }

  lemma GroupsBagInsert(groups: seq<Group<Bin>>, g: Group<Bin>)
    ensures GroupsBag(Insert(groups, g)) == GroupsBag(groups) + Bag(g.bins)
  {
    hide Bag, GroupsBag;
    var i := InsertedAt(groups, g);
    hide Insert;
    GroupsBagAt(Insert(groups, g), i);
    GroupsBagConcat(groups[..i], groups[i..]);
    assert groups == groups[..i] + groups[i..];
  }

  lemma OfferedBag(b: Bin, f: FlowFile)
    ensures var (c, ok) := OfferBin(b, f);
            multiset(c.files) == multiset(b.files) + if ok then multiset{f} else multiset{}
  {
  }

  /** The last bin of a queue has d more files, and more bins may follow it. */
  lemma TailBag(q: seq<Bin>, tail: Bin, more: seq<Bin>, d: multiset<FlowFile>)
    requires q != [] && multiset(tail.files) == multiset(q[|q| - 1].files) + d
    ensures Bag(q[..|q| - 1] + [tail] + more) == Bag(q) + (d + Bag(more))
  {
    var n := |q| - 1;
    BagConcat(q[..n] + [tail], more);
    BagConcat(q[..n], [tail]);
    BagConcat(q[..n], [q[n]]);
    assert q == q[..n] + [q[n]];
    BagOne(tail);
    BagOne(q[n]);
    hide Bag;
  }

  lemma OfferHeld(m: Manager, key: string, f: FlowFile, now: Size)
    requires Consistent(m)
    ensures var (m', ok) := Offer(m, key, f, now); Held(m') == Held(m) + if ok then multiset{f} else multiset{}
  {
    if f.size > m.maxSize {
      LargeHeld(m, key, f, now);
    } else {
      SmallHeld(m, key, f, now);
    }
    hide Offer, GroupsBag, Bag, Consistent;
  }

  lemma LargeHeld(m: Manager, key: string, f: FlowFile, now: Size)
    requires f.size > m.maxSize
    ensures var (m', ok) := Offer(m, key, f, now);
            m'.groups == m.groups && Bag(m'.ready) == Bag(m.ready) + if ok then multiset{f} else multiset{}
  {
    var solo := SoloBin(key, now);
    assert solo.files == [];
    hide OfferBin, SoloBin, Bag;
    OfferedBag(solo, f);
    var b := OfferBin(solo, f).0;
    BagConcat(m.ready, [b]);
    BagOne(b);
  }

  /** What an offer adds: the file if it is taken. */
  ghost function Gain(f: FlowFile, ok: bool): multiset<FlowFile> {
    if ok then multiset{f} else multiset{}
  }

  lemma SmallHeld(m: Manager, key: string, f: FlowFile, now: Size)
    requires Consistent(m) && f.size <= m.maxSize
    ensures var (m', ok) := Offer(m, key, f, now);
            m'.ready == m.ready && GroupsBag(m'.groups) == GroupsBag(m.groups) + Gain(f, ok)
  {
    hide OfferBin, FreshBin, Bag, GroupsBag, Insert, GroupOk;
    FreshHeld(m, key, f, now);
    var i, b := Find(m.groups, key), OfferBin(FreshBin(m, key, now), f).0;
    if i < 0 {
      GroupsBagInsert(m.groups, Group(key, [b]));
    } else {
      QueueHasBins(m, i);
      GroupHeld(m, i, key, f, now);
    }
  }

  lemma QueueHasBins(m: Manager, i: int)
    requires Consistent(m) && 0 <= i < |m.groups|
    ensures m.groups[i].bins != []
  {
    assert GroupOk(m.groups[i]);
  }

  lemma FreshHeld(m: Manager, key: string, f: FlowFile, now: Size)
    ensures var (b, ok) := OfferBin(FreshBin(m, key, now), f); ok ==> Bag([b]) == multiset{f}
  {
    var empty := FreshBin(m, key, now);
    assert empty.files == [];
    OfferedBag(empty, f);
    BagOne(OfferBin(empty, f).0);
    hide OfferBin, FreshBin, Bag;
  }

  lemma GroupHeld(m: Manager, i: int, key: string, f: FlowFile, now: Size)
    requires f.size <= m.maxSize && 0 <= i == Find(m.groups, key) && m.groups[i].bins != []
    requires var (b, ok) := OfferBin(FreshBin(m, key, now), f); ok ==> Bag([b]) == multiset{f}
    ensures var (m', ok) := Offer(m, key, f, now);
            m'.ready == m.ready && GroupsBag(m'.groups) == GroupsBag(m.groups) + Gain(f, ok)
  {
    hide OfferBin, FreshBin, Bag, GroupsBag;
    var (b, ok) := OfferBin(FreshBin(m, key, now), f);
    var q := m.groups[i].bins;
    QueueHeld(q, f, b, ok);
    var (tail, taken) := OfferBin(q[|q| - 1], f);
    var q' := q[..|q| - 1] + [tail];
    GroupsBagReplace(m.groups, i, Group(key, q'), Gain(f, taken));
    if !taken && ok {
      GroupsBagReplace(m.groups, i, Group(key, q' + [b]), Gain(f, true));
    }
  }

  /** The last bin of a queue is offered f; if it refuses, a new bin with f may follow. */
  lemma QueueHeld(q: seq<Bin>, f: FlowFile, b: Bin, ok: bool)
    requires q != [] && (ok ==> Bag([b]) == multiset{f})
    ensures var (tail, taken) := OfferBin(q[|q| - 1], f);
            var q' := q[..|q| - 1] + [tail];
            Bag(q') == Bag(q) + Gain(f, taken) && (!taken && ok ==> Bag(q' + [b]) == Bag(q) + Gain(f, true))
  {
    OfferedBag(q[|q| - 1], f);
    var (tail, taken) := OfferBin(q[|q| - 1], f);
    var q' := q[..|q| - 1] + [tail];
    assert q' + [] == q' && Bag([]) == multiset{};
    TailBag(q, tail, [], Gain(f, taken));
    TailBag(q, tail, [b], Gain(f, taken));
    hide OfferBin, Bag;
  }

  lemma DueBagStep(key: string, q: seq<Bin>, k: int, due: seq<Bin>, left: seq<Group<Bin>>, rest: multiset<FlowFile>)
    requires 0 <= k <= |q| && GroupsBag(left) + Bag(due) == rest
    ensures var own := if q[k..] == [] then [] else [Group(key, q[k..])];
            GroupsBag(own + left) + Bag(q[..k] + due) == Bag(q) + rest
  {
    BagConcat(q[..k], q[k..]);
    assert q == q[..k] + q[k..];
    BagConcat(q[..k], due);
    var own := if q[k..] == [] then [] else [Group(key, q[k..])];
    GroupsBagConcat(own, left);
    assert Bag([]) == multiset{} && GroupsBag(own) == Bag(q[k..]);
    hide Bag, GroupsBag;
  }

  lemma {:induction false} DueBag(groups: seq<Group<Bin>>, age: Size, now: Size)
    ensures GroupsBag(NotDue(groups, age, now)) + Bag(AllDue(groups, age, now)) == GroupsBag(groups)
    decreases |groups|
  {
    assert Bag([]) == multiset{};
    hide Bag, DuePrefix;
    if groups != [] {
      var q, rest := groups[0].bins, groups[1..];
      DueBag(rest, age, now);
      DueBagStep(groups[0].key, q, DuePrefix(q, age, now), AllDue(rest, age, now), NotDue(rest, age, now),
        GroupsBag(rest));
    }
  }

  lemma GatherHeld(m: Manager, now: Size)
    ensures Held(Gather(m, now)) == Held(m)
  {
    DueBag(m.groups, m.binAge, now);
    BagConcat(m.ready, AllDue(m.groups, m.binAge, now));
    hide Bag, GroupsBag, AllDue, NotDue;
  }

  lemma EvictHeld(m: Manager)
    ensures Held(RemoveOldest(m)) == Held(m)
  {
    var i := Oldest(m.groups);
    if i >= 0 {
      var q := m.groups[i].bins;
      BagConcat(m.ready, [q[0]]);
      GroupsBagRemove(m.groups, i);
      GroupsBagPop(m.groups, i);
      assert |q| == 1 ==> q == [q[0]];
      hide Bag, GroupsBag, Oldest;
    }
  }

  /** The file that arrives with a call. */
  ghost function Arrival(t: Trigger): multiset<FlowFile> {
    if t.flow.Some? then multiset{Preprocess(t.flow.value)} else multiset{}
  }

  lemma ArrivedHeld(c: Config, m: Manager, t: Trigger)
    requires Consistent(m)
    ensures var (offered, accepted) := Arrived(c, m, t.flow, t.now);
            Consistent(offered) && Held(offered) == Held(m) + if accepted then Arrival(t) else multiset{}
  {
    if t.flow.Some? {
      var f := Preprocess(t.flow.value);
      OfferConsistent(m, GroupId(c, f), f, t.now);
      OfferHeld(m, GroupId(c, f), f, t.now);
    }
    hide Offer, Held, Consistent, Preprocess, GroupId;
  }

  lemma FullHeld(c: Config, m: Manager, later: Size)
    requires Consistent(m)
    ensures var full := Trimmed(Gather(m, later), c.maxBinCount);
            Consistent(TakeReady(full)) && Held(m) == Held(TakeReady(full)) + multiset(Files(full.ready))
  {
    var gathered := Gather(m, later);
    GatherConsistent(m, later);
    GatherHeld(m, later);
    RemoveOldestConsistent(gathered);
    EvictHeld(gathered);
    hide Gather, RemoveOldest, Held, Consistent;
    var full := Trimmed(gathered, c.maxBinCount);
    NextConsistent(World(full, [], []), DeliverStep);
    TakeHeld(full);
  }

  /** One call: what it sends and what it leaves is what there was and what arrived. */
  lemma HandledConserves(c: Config, m: Manager, t: Trigger, archive: Archiver, m': Manager, sent: seq<Transfer>)
    requires c.page > 0 && Consistent(m) && Handled(c, m, t, archive, m', sent)
    ensures Consistent(m')
    ensures SentTo(sent, Original) + SentTo(sent, Failure) + Held(m') == Held(m) + Arrival(t)
  {
    var (offered, accepted) := Arrived(c, m, t.flow, t.now);
    hide Arrived, Held, Consistent, Preprocess, Gather, SentTo, RoutedAll, Trimmed, TakeReady;
    ArrivedHeld(c, m, t);
    if accepted {
      FullHeld(c, offered, t.later);
      RoutedExactly(c, Trimmed(Gather(offered, t.later), c.maxBinCount).ready, archive, sent);
    } else {
      RefusedSent(Preprocess(t.flow.value), sent);
    }
  }

  lemma TakeHeld(m: Manager)
    ensures Held(m) == Held(TakeReady(m)) + multiset(Files(m.ready))
  {
    hide GroupsBag;
  }

  lemma RefusedSent(f: FlowFile, sent: seq<Transfer>)
    requires sent == [FileTo(f, Failure)]
    ensures SentTo(sent, Original) == multiset{} && SentTo(sent, Failure) == multiset{f}
  {
    SentToSnoc([], FileTo(f, Failure), Original);
    SentToSnoc([], FileTo(f, Failure), Failure);
    assert [] + [FileTo(f, Failure)] == sent;
  }

  /** The last of several calls. */
  lemma LastHandled(c: Config, m: Manager, ts: seq<Trigger>, archive: Archiver, m': Manager, sent: seq<Transfer>)
    returns (mid: Manager, k: int)
    requires c.page > 0 && HandledAll(c, m, ts, archive, m', sent) && ts != []
    ensures 0 <= k <= |sent| && sent[..k] + sent[k..] == sent
    ensures HandledAll(c, m, ts[..|ts| - 1], archive, mid, sent[..k])
    ensures Handled(c, mid, ts[|ts| - 1], archive, m', sent[k..])
  {
    hide Handled;
    var n := |ts| - 1;
    mid, k :| 0 <= k <= |sent| && HandledAll(c, m, ts[..n], archive, mid, sent[..k])
      && Handled(c, mid, ts[n], archive, m', sent[k..]);
  }

  /** Over any number of triggers, files sent to original and failure together with those still held are exactly those
      held at the start and those that arrived. */
  lemma {:induction false} TriggersConserve(c: Config, m: Manager, ts: seq<Trigger>, archive: Archiver, m': Manager,
                                            sent: seq<Transfer>)
    requires c.page > 0 && Consistent(m) && HandledAll(c, m, ts, archive, m', sent)
    ensures Consistent(m')
    ensures SentTo(sent, Original) + SentTo(sent, Failure) + Held(m') == Held(m) + Arrivals(ts)
    decreases |ts|
  {
    hide Handled, Held, Consistent, Arrival;
    if ts != [] {
      hide HandledAll, SentTo;
      var n := |ts| - 1;
      var mid, k := LastHandled(c, m, ts, archive, m', sent);
      var a, b := sent[..k], sent[k..];
      TriggersConserve(c, m, ts[..n], archive, mid, a);
      HandledConserves(c, mid, ts[n], archive, m', b);
      SentAdds(a, b);
      Chain(SentTo(a, Original) + SentTo(a, Failure), SentTo(b, Original) + SentTo(b, Failure), Held(m), Held(mid),
        Held(m'),
            Arrivals(ts[..n]), Arrival(ts[n]));
    }
  }

  /** Over any number of triggers that read times below the maximum, the number of bins stays within its maximum. */
  lemma {:induction false} TriggersBounded(c: Config, m: Manager, ts: seq<Trigger>, archive: Archiver, m': Manager,
                                           sent: seq<Transfer>)
    requires c.page > 0 && HandledAll(c, m, ts, archive, m', sent) && forall k :: 0 <= k < |ts| ==>
             ts[k].now < UINT64_MAX
    requires Consistent(m) && BinThreads.Early(m) && 0 <= m.count <= c.maxBinCount
    ensures Consistent(m') && BinThreads.Early(m') && 0 <= m'.count <= c.maxBinCount
    decreases |ts|
  {
    if ts != [] {
      var n := |ts| - 1;
      var mid, k := LastHandled(c, m, ts, archive, m', sent);
      TriggersBounded(c, m, ts[..n], archive, mid, sent[..k]);
      TriggerBounded(c, mid, ts[n].flow, ts[n].now, ts[n].later);
      assert m'.count == Total(m'.groups);
      hide HandledAll, Consistent, BinThreads.Early, Gather, RoutedAll;
    }
  }
}
