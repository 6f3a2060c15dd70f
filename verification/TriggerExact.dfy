/** Exactly which bins one call of the processor delivers, and that a call is five events of its thread. */
module TriggerExact {
  import opened Words
  import opened Options
  import opened FlowFiles
  import opened BinModel
  import opened BinRuns
  import opened BinLimits
  import opened BinThreads
  import opened MergeProcessor

  /** b is the front of one of the queues, no front is older, and after is what is left of the groups without it. */
  ghost predicate OldestGone(groups: seq<Group<Bin>>, b: Bin, after: seq<Group<Bin>>) {
    exists i :: 0 <= i < |groups| && FrontGone(groups, i, b, after)
  }

  ghost predicate FrontGone(groups: seq<Group<Bin>>, i: int, b: Bin, after: seq<Group<Bin>>)
    requires 0 <= i < |groups|
  {
    var q := groups[i].bins;
    && q != [] && b == q[0]
    && (forall j :: 0 <= j < |groups| && groups[j].bins != [] ==> b.created <= groups[j].bins[0].created)
    && after == groups[..i] + (if |q| == 1 then [] else [Group(groups[i].key, q[1..])]) + groups[i + 1..]
  }

  /** An eviction takes the front of queue i, no front being older, or nothing if i is negative; it takes one whenever
      one is queued with a date below the largest. */
  lemma EvictExact(m: Manager, i: int)
    requires Consistent(m) && i == Oldest(m.groups)
    ensures i < 0 ==> RemoveOldest(m) == m && (m.groups == [] || !Early(m))
    ensures i >= 0 ==> FrontGone(m.groups, i, m.groups[i].bins[0], RemoveOldest(m).groups)
    ensures i >= 0 ==> RemoveOldest(m).ready == m.ready + [m.groups[i].bins[0]]
  {
    hide Oldest, Total;
    if m.groups != [] {
      assert GroupOk(m.groups[0]);
      assert Early(m) ==> EarlyQueue(m.groups[0].bins) && FrontDate(m.groups[0]) < UINT64_MAX;
    }
    if i >= 0 {
      FrontIsOldest(m.groups, i);
    }
  }

  lemma FrontIsOldest(groups: seq<Group<Bin>>, i: int)
    requires 0 <= i < |groups| && groups[i].bins != []
    requires forall j :: 0 <= j < |groups| ==> FrontDate(groups[i]) <= FrontDate(groups[j])
    ensures FrontGone(groups, i, groups[i].bins[0], DropFront(groups, i))
  {
    forall j | 0 <= j < |groups| && groups[j].bins != []
      ensures groups[i].bins[0].created <= groups[j].bins[0].created
    {
      assert FrontDate(groups[i]) <= FrontDate(groups[j]);
    }
    assert groups[..i] + [] + groups[i + 1..] == groups[..i] + groups[i + 1..];
  }

  lemma OfferKeepsAge(m: Manager, key: string, f: FlowFile, now: Size)
    ensures Offer(m, key, f, now).0.binAge == m.binAge
  {
    hide OfferBin, Insert;
  }

  lemma ArrivedKeeps(c: Config, m: Manager, flow: Option<FlowFile>, now: Size)
    requires Consistent(m)
    ensures var m' := Arrived(c, m, flow, now).0;
            Consistent(m') && m'.binAge == m.binAge && (Early(m) && now < UINT64_MAX ==> Early(m'))
  {
    if flow.Some? {
      var file := Preprocess(flow.value);
      OfferConsistent(m, GroupId(c, file), file, now);
      OfferKeepsAge(m, GroupId(c, file), file, now);
      if Early(m) && now < UINT64_MAX {
        OfferEarly(m, GroupId(c, file), file, now);
      }
    }
    hide Offer, Consistent, Early, Preprocess, GroupId;
  }

  /** What gathering and at most one eviction make ready and leave queued. */
  ghost predicate Takes(groups: seq<Group<Bin>>, cut: seq<nat>, age: Size, later: Size, max: int, evicted: seq<Bin>,
                        after: seq<Group<Bin>>) {
    && CutAtRipe(groups, cut, age, later)
    && var rest := Rests(groups, cut);
       && (Total(rest) <= max ==> evicted == [])
       && (evicted == [] ==> after == rest)
       && (evicted != [] ==> |evicted| == 1 && OldestGone(rest, evicted[0], after))
  }

  /** The bins a call delivers are exactly the ready ones, the due ones in front of each queue, and one more, an oldest
      front, only if more bins than the maximum would be left; then one goes whenever any is queued.  Within the
      maximum every bin that is not due, or stands behind one, stays queued. */
  lemma TriggerDelivers(c: Config, m: Manager, t: Trigger, archive: Archiver, m': Manager, sent: seq<Transfer>)
    returns (cut: seq<nat>, evicted: seq<Bin>)
    requires c.page > 0 && Consistent(m) && Handled(c, m, t, archive, m', sent)
    requires Arrived(c, m, t.flow, t.now).1
    ensures var offered := Arrived(c, m, t.flow, t.now).0;
            && Takes(offered.groups, cut, m.binAge, t.later, c.maxBinCount, evicted, m'.groups)
            && RoutedAll(c, offered.ready + Fronts(offered.groups, cut) + evicted, archive, sent) && m'.ready == []
            && var rest := Rests(offered.groups, cut);
               Early(m) && t.now < UINT64_MAX && rest != [] && Total(rest) > c.maxBinCount ==> evicted != []
  {
    var offered := Arrived(c, m, t.flow, t.now).0;
    ArrivedKeeps(c, m, t.flow, t.now);
    hide Arrived, RoutedAll, Consistent, Early;
    cut := GatherExact(offered.groups, offered.binAge, t.later);
    var gathered := Gather(offered, t.later);
    GatherConsistent(offered, t.later);
    GatheredTotal(gathered);
    if Early(offered) {
      GatherEarly(offered, t.later);
    }
    hide CutAtRipe, Fronts, Rests, NotDue, AllDue, Total, Trimmed;
    hide OldestGone, RemoveOldest, Oldest;
    evicted := Trims(gathered, c.maxBinCount);
  }

  lemma Trims(m: Manager, max: int) returns (evicted: seq<Bin>)
    requires Consistent(m)
    ensures Trimmed(m, max).ready == m.ready + evicted
    ensures m.count <= max ==> evicted == []
    ensures evicted == [] ==> Trimmed(m, max).groups == m.groups
    ensures evicted != [] ==> |evicted| == 1 && OldestGone(m.groups, evicted[0], Trimmed(m, max).groups)
    ensures m.count > max && m.groups != [] && Early(m) ==> evicted != []
  {
    hide RemoveOldest, Oldest, Consistent, Early, FrontGone;
    evicted := [];
    assert m.ready + [] == m.ready;
    if m.count > max {
      var i := Oldest(m.groups);
      EvictExact(m, i);
      if i >= 0 {
        QueueHasBins(m, i);
        evicted := [m.groups[i].bins[0]];
      }
    }
  }

  lemma QueueHasBins(m: Manager, i: int)
    requires Consistent(m) && 0 <= i < |m.groups|
    ensures m.groups[i].bins != []
  {
    assert GroupOk(m.groups[i]);
  }

  lemma GatheredTotal(m: Manager)
    requires Consistent(m)
    ensures m.count == Total(m.groups)
  {
  }

  /** The events of one call; those that are not asked for do nothing. */
  function CallEvents(c: Config, thread: nat, t: Trigger): seq<Event> {
    var flow := if t.flow.None? then None else Some((GroupId(c, Preprocess(t.flow.value)), Preprocess(t.flow.value)));
    [Begin(thread, flow, t.now), GatherBy(thread, t.later), CheckBy(thread), EvictBy(thread), DeliverBy(thread)]
  }

  lemma FiveEvents(y: System, a: Event, b: Event, c: Event, d: Event, e: Event)
    ensures RunEvents(y, [a, b, c, d, e]) == Apply(Apply(Apply(Apply(Apply(y, a), b), c), d), e)
  {
    hide Apply;
    EventsSnoc(y, [], a);
    EventsSnoc(y, [a], b);
    EventsSnoc(y, [a, b], c);
    EventsSnoc(y, [a, b, c], d);
    EventsSnoc(y, [a, b, c, d], e);
    assert [] + [a] == [a] && [a] + [b] == [a, b] && [a, b] + [c] == [a, b, c] && [a, b, c] + [d] == [a, b, c, d];
    assert [a, b, c, d] + [e] == [a, b, c, d, e];
  }

  lemma EventsSnoc(y: System, events: seq<Event>, e: Event)
    ensures RunEvents(y, events + [e]) == Apply(RunEvents(y, events), e)
  {
    assert (events + [e])[..|events|] == events;
  }

  /** The call of one thread, from idle to idle, is the same five events whatever happens in it: offer, gathering,
      check, eviction if the check asks for it, delivery; a refused file ends it at once. */
  lemma TriggerIsEvents(c: Config, y: System, thread: nat, t: Trigger)
    requires thread < |y.threads| && y.threads[thread].Idle? && t.now < UINT64_MAX && y.maxBinCount == c.maxBinCount
    ensures RunEvents(y, CallEvents(c, thread, t)) ==
            System(Run(y.w, TriggerSteps(c, y.w.m, t.flow, t.now, t.later)), y.maxBinCount, y.threads)
  {
    var es := CallEvents(c, thread, t);
    TriggerIsRun(c, y.w, t.flow, t.now, t.later);
    FiveEvents(y, es[0], es[1], es[2], es[3], es[4]);
    assert es == [es[0], es[1], es[2], es[3], es[4]];
    hide Run, RunEvents, TriggerSteps, Offer, Gather, RemoveOldest, GroupId, Preprocess;
    hide Apply, Arrived, Trimmed, Logged;
    var p := BeginCall(c, y, thread, t);
    var y1 := Apply(y, es[0]);
    if Arrived(c, y.w.m, t.flow, t.now).1 {
      RestOfCall(c, y1, thread, t.later);
      assert y.threads[thread := p][thread := Idle] == y.threads;
    } else {
      NothingLeft(y1, thread, t.later);
      assert y.threads[thread := Idle] == y.threads;
    }
  }

  lemma BeginCall(c: Config, y: System, thread: nat, t: Trigger) returns (p: Phase)
    requires thread < |y.threads| && y.threads[thread].Idle? && t.now < UINT64_MAX
    ensures var (m, accepted) := Arrived(c, y.w.m, t.flow, t.now);
            && Apply(y, CallEvents(c, thread, t)[0]) ==
                 System(if accepted then World(m, y.w.delivered, y.w.accepted + Logged(c, t.flow))
                        else World(m, y.w.delivered, y.w.accepted), y.maxBinCount, y.threads[thread := p])
            && if accepted then p.Offered? else p.Idle?
  {
    hide Offer, GroupId, Preprocess;
    p := PhaseAfter(y, CallEvents(c, thread, t)[0]);
    assert y.w.accepted + [] == y.w.accepted;
  }

  lemma RestOfCall(c: Config, y: System, thread: nat, later: Size)
    requires thread < |y.threads| && y.threads[thread].Offered? && y.maxBinCount == c.maxBinCount
    ensures var full := Trimmed(Gather(y.w.m, later), c.maxBinCount);
            Apply(Apply(Apply(Apply(y, GatherBy(thread, later)), CheckBy(thread)), EvictBy(thread)), DeliverBy(thread))
            == System(World(TakeReady(full), y.w.delivered + full.ready, y.w.accepted), y.maxBinCount,
                      y.threads[thread := Idle])
  {
    hide Gather, RemoveOldest;
  }

  /** A thread that is idle does nothing but begin. */
  lemma NothingLeft(y: System, thread: nat, later: Size)
    requires thread < |y.threads| && y.threads[thread].Idle?
    ensures Apply(Apply(Apply(Apply(y, GatherBy(thread, later)), CheckBy(thread)), EvictBy(thread)), DeliverBy(thread))
            == y
  {
  }
}
