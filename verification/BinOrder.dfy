/** Conservation and order: nothing is lost or duplicated, and each group is first in, first out. */
module BinOrder {
  import opened Sequences
  import opened Words
  import opened FlowFiles
  import opened BinModel
  import opened BinRuns

  function Files(bins: seq<Bin>): seq<FlowFile> {
    if bins == [] then [] else bins[0].files + Files(bins[1..])
  }

  function OfGroup(bins: seq<Bin>, key: string): seq<Bin> {
    if bins == [] then [] else (if bins[0].group == key then [bins[0]] else []) + OfGroup(bins[1..], key)
  }

  /** The queued bins of one key. */
  function Queue(groups: seq<Group<Bin>>, key: string): seq<Bin> {
    if groups == [] then [] else (if groups[0].key == key then groups[0].bins else []) + Queue(groups[1..], key)
  }

  function OffersOf(accepted: seq<(string, FlowFile)>, key: string): seq<FlowFile> {
    if accepted == [] then [] else (if accepted[0].0 == key then [accepted[0].1] else []) + OffersOf(accepted[1..], key)
  }

  /** The files above the size limit, or those within it, in order. */
  function Pick(files: seq<FlowFile>, max: Size, big: bool): seq<FlowFile> {
    if files == [] then [] else (if (files[0].size > max) == big then [files[0]] else []) + Pick(files[1..], max, big)
  }

  lemma {:induction false} FilesConcat(a: seq<Bin>, b: seq<Bin>)
    ensures Files(a + b) == Files(a) + Files(b)
    decreases |a|
  {
    if a == [] {
      assert a + b == b;
    } else {
      FilesConcat(a[1..], b);
      assert (a + b)[1..] == a[1..] + b;
      Associate(a[0].files, Files(a[1..]), Files(b));
    }
  }

  lemma {:induction false} OfGroupConcat(a: seq<Bin>, b: seq<Bin>, key: string)
    ensures OfGroup(a + b, key) == OfGroup(a, key) + OfGroup(b, key)
    decreases |a|
  {
    if a == [] {
      assert a + b == b;
    } else {
      OfGroupConcat(a[1..], b, key);
      assert (a + b)[1..] == a[1..] + b;
      Associate(if a[0].group == key then [a[0]] else [], OfGroup(a[1..], key), OfGroup(b, key));
    }
  }

  lemma {:induction false} OffersConcat(a: seq<(string, FlowFile)>, b: seq<(string, FlowFile)>, key: string)
    ensures OffersOf(a + b, key) == OffersOf(a, key) + OffersOf(b, key)
    decreases |a|
  {
    if a == [] {
      assert a + b == b;
    } else {
      OffersConcat(a[1..], b, key);
      assert (a + b)[1..] == a[1..] + b;
      Associate(if a[0].0 == key then [a[0].1] else [], OffersOf(a[1..], key), OffersOf(b, key));
    }
  }

  lemma {:induction false} PickConcat(a: seq<FlowFile>, b: seq<FlowFile>, max: Size, big: bool)
    ensures Pick(a + b, max, big) == Pick(a, max, big) + Pick(b, max, big)
    decreases |a|
  {
    if a == [] {
      assert a + b == b;
    } else {
      PickConcat(a[1..], b, max, big);
      assert (a + b)[1..] == a[1..] + b;
      Associate(if (a[0].size > max) == big then [a[0]] else [], Pick(a[1..], max, big), Pick(b, max, big));
    }
  }

  lemma {:induction false} QueueConcat(a: seq<Group<Bin>>, b: seq<Group<Bin>>, key: string)
    ensures Queue(a + b, key) == Queue(a, key) + Queue(b, key)
    decreases |a|
  {
    if a == [] {
      assert a + b == b;
    } else {
      QueueConcat(a[1..], b, key);
      assert (a + b)[1..] == a[1..] + b;
      Associate(if a[0].key == key then a[0].bins else [], Queue(a[1..], key), Queue(b, key));
    }
  }

  ghost predicate AllSmall(files: seq<FlowFile>, max: Size) {
    forall k :: 0 <= k < |files| ==> files[k].size <= max
  }

  lemma {:induction false} PickSmall(files: seq<FlowFile>, max: Size)
    requires AllSmall(files, max)
    ensures Pick(files, max, false) == files && Pick(files, max, true) == []
    decreases |files|
  {
    if files != [] {
      PickSmall(files[1..], max);
    }
  }

  lemma {:induction false} OfGroupAll(bins: seq<Bin>, key: string, other: string)
    requires forall k :: 0 <= k < |bins| ==> bins[k].group == key
    ensures OfGroup(bins, other) == if other == key then bins else []
    decreases |bins|
  {
    if bins != [] {
      OfGroupAll(bins[1..], key, other);
    }
  }

  lemma {:induction false} QueueAbsent(groups: seq<Group<Bin>>, key: string)
    requires forall i :: 0 <= i < |groups| ==> groups[i].key != key
    ensures Queue(groups, key) == []
    decreases |groups|
  {
    if groups != [] {
      QueueAbsent(groups[1..], key);
    }
  }

  lemma QueueSplit(groups: seq<Group<Bin>>, i: int, key: string)
    requires 0 <= i < |groups|
    ensures Queue(groups, key) ==
      Queue(groups[..i], key) + (if groups[i].key == key then groups[i].bins else []) + Queue(groups[i + 1..], key)
  {
    assert groups == groups[..i] + groups[i..];
    QueueConcat(groups[..i], groups[i..], key);
    assert groups[i..][1..] == groups[i + 1..];
  }

  /** The queue of a key is the queue of its group. */
  lemma QueueOwn(groups: seq<Group<Bin>>, i: int)
    requires DistinctKeys(groups) && 0 <= i < |groups|
    ensures Queue(groups, groups[i].key) == groups[i].bins
  {
    hide Queue;
    QueueSplit(groups, i, groups[i].key);
    QueueAbsent(groups[..i], groups[i].key);
    QueueAbsent(groups[i + 1..], groups[i].key);
  }

  lemma QueueOther(groups: seq<Group<Bin>>, i: int, key: string)
    requires 0 <= i < |groups| && key != groups[i].key
    ensures Queue(groups, key) == Queue(groups[..i], key) + Queue(groups[i + 1..], key)
  {
    hide Queue;
    QueueSplit(groups, i, key);
  }

  lemma QueueReplace(groups: seq<Group<Bin>>, i: int, q: seq<Bin>, key: string)
    requires DistinctKeys(groups) && 0 <= i < |groups|
    ensures Queue(groups[i := Group(groups[i].key, q)], key) == if key == groups[i].key then q else Queue(groups, key)
  {
    hide Queue;
    var after := groups[i := Group(groups[i].key, q)];
    if key == groups[i].key {
      QueueOwn(after, i);
    } else {
      QueueOther(groups, i, key);
      QueueOther(after, i, key);
      assert after[..i] == groups[..i] && after[i + 1..] == groups[i + 1..];
    }
  }

  lemma InsertParts(groups: seq<Group<Bin>>, g: Group<Bin>) returns (i: int)
    ensures 0 <= i <= |groups| && |Insert(groups, g)| == |groups| + 1 && Insert(groups, g)[i] == g
    ensures Insert(groups, g)[..i] == groups[..i] && Insert(groups, g)[i + 1..] == groups[i..]
  {
    i := Slot(groups, g.key);
  }

  lemma QueueInsert(groups: seq<Group<Bin>>, g: Group<Bin>, key: string)
    requires forall i :: 0 <= i < |groups| ==> groups[i].key != g.key
    ensures Queue(Insert(groups, g), key) == if key == g.key then g.bins else Queue(groups, key)
  {
    hide Queue, Insert;
    var i := InsertParts(groups, g);
    if key == g.key {
      QueueSplit(Insert(groups, g), i, key);
      QueueAbsent(groups[..i], key);
      QueueAbsent(groups[i..], key);
    } else {
      QueueOther(Insert(groups, g), i, key);
      QueueConcat(groups[..i], groups[i..], key);
      assert groups == groups[..i] + groups[i..];
    }
  }

  lemma {:induction false} DueThenLeft(groups: seq<Group<Bin>>, age: Size, now: Size, key: string)
    requires DistinctKeys(groups) && forall i :: 0 <= i < |groups| ==> GroupOk(groups[i])
    ensures OfGroup(AllDue(groups, age, now), key) + Queue(NotDue(groups, age, now), key) == Queue(groups, key)
    decreases |groups|
  {
    if groups != [] {
      var g, rest := groups[0], groups[1..];
      DueThenLeft(rest, age, now, key);
      assert GroupOk(g);
      var k := DuePrefix(g.bins, age, now);
      var head := if g.bins[k..] == [] then [] else [Group(g.key, g.bins[k..])];
      assert NotDue(groups, age, now) == head + NotDue(rest, age, now);
      assert Queue(head, key) == if key == g.key then g.bins[k..] else [];
      OfGroupAll(g.bins[..k], g.key, key);
      if key == g.key {
        QueueAbsent(rest, key);
      }
      hide OfGroup, Queue, DuePrefix, NotDue, GroupOk;
      OfGroupConcat(g.bins[..k], AllDue(rest, age, now), key);
      QueueConcat(head, NotDue(rest, age, now), key);
      QueueConcat([g], rest, key);
      QueueOne(g, key);
      assert groups == [g] + rest;
      if key == g.key {
        OwnParts(g.bins, k, OfGroup(AllDue(rest, age, now), key), Queue(NotDue(rest, age, now), key));
      } else {
        OtherParts(OfGroup(AllDue(rest, age, now), key), Queue(NotDue(rest, age, now), key));
      }
    }
  }

  lemma QueueOne(g: Group<Bin>, key: string)
    ensures Queue([g], key) == if key == g.key then g.bins else []
  {
  }

  lemma OwnParts(bins: seq<Bin>, k: int, a: seq<Bin>, b: seq<Bin>)
    requires 0 <= k <= |bins| && a + b == []
    ensures bins[..k] + a + (bins[k..] + b) == bins + []
  {
    assert |a + b| == |a| + |b|;
    assert a == [] && b == [];
  }

  lemma OtherParts(a: seq<Bin>, b: seq<Bin>)
    ensures [] + a + ([] + b) == [] + (a + b)
  {
  }

  lemma FrontThenLeft(groups: seq<Group<Bin>>, i: int, key: string)
    requires DistinctKeys(groups) && 0 <= i < |groups| && GroupOk(groups[i])
    ensures OfGroup([groups[i].bins[0]], key) + Queue(DropFront(groups, i), key) == Queue(groups, key)
  {
    var g := groups[i];
    assert OfGroup([g.bins[0]], key) == if key == g.key then [g.bins[0]] else [];
    QueueDrop(groups, i, key);
    if key == g.key {
      QueueOwn(groups, i);
    }
    hide Queue, OfGroup, DropFront;
  }

  lemma QueueDrop(groups: seq<Group<Bin>>, i: int, key: string)
    requires DistinctKeys(groups) && 0 <= i < |groups| && groups[i].bins != []
    ensures Queue(DropFront(groups, i), key) == if key == groups[i].key then groups[i].bins[1..] else Queue(groups, key)
  {
    hide Queue;
    if |groups[i].bins| > 1 {
      QueueReplace(groups, i, groups[i].bins[1..], key);
    } else {
      QueueConcat(groups[..i], groups[i + 1..], key);
      if key == groups[i].key {
        QueueAbsent(groups[..i], key);
        QueueAbsent(groups[i + 1..], key);
      } else {
        QueueOther(groups, i, key);
      }
    }
  }

  /** Files within the size limit have left, or wait, in the order they were offered; larger ones have all left, in
      the order they were offered. */
  ghost predicate Fifo(out: seq<FlowFile>, waiting: seq<FlowFile>, offers: seq<FlowFile>, max: Size) {
    && AllSmall(waiting, max)
    && Pick(out, max, false) + waiting == Pick(offers, max, false)
    && Pick(out, max, true) == Pick(offers, max, true)
  }

  lemma PickAppend(files: seq<FlowFile>, f: FlowFile, max: Size, big: bool)
    ensures Pick(files + [f], max, big) == Pick(files, max, big) + if (f.size > max) == big then [f] else []
  {
    PickConcat(files, [f], max, big);
  }

  lemma SmallParts(a: seq<FlowFile>, b: seq<FlowFile>, max: Size)
    requires AllSmall(a + b, max)
    ensures AllSmall(a, max) && AllSmall(b, max)
  {
    forall k | 0 <= k < |a| ensures a[k].size <= max {
      assert a[k] == (a + b)[k];
    }
    forall k | 0 <= k < |b| ensures b[k].size <= max {
      assert b[k] == (a + b)[|a| + k];
    }
  }

  lemma FifoMove(out: seq<FlowFile>, moved: seq<FlowFile>, rest: seq<FlowFile>, offers: seq<FlowFile>, max: Size)
    requires Fifo(out, moved + rest, offers, max)
    ensures Fifo(out + moved, rest, offers, max)
  {
    SmallParts(moved, rest, max);
    PickConcat(out, moved, max, false);
    PickConcat(out, moved, max, true);
    PickSmall(moved, max);
    hide Pick;
  }

  lemma FifoEnqueue(out: seq<FlowFile>, waiting: seq<FlowFile>, offers: seq<FlowFile>, max: Size, f: FlowFile)
    requires Fifo(out, waiting, offers, max) && f.size <= max
    ensures Fifo(out, waiting + [f], offers + [f], max)
  {
    hide Pick;
    PickAppend(offers, f, max, false);
    PickAppend(offers, f, max, true);
  }

  lemma FifoBypass(out: seq<FlowFile>, waiting: seq<FlowFile>, offers: seq<FlowFile>, max: Size, f: FlowFile)
    requires Fifo(out, waiting, offers, max) && f.size > max
    ensures Fifo(out + [f], waiting, offers + [f], max)
  {
    hide Pick;
    PickAppend(out, f, max, false);
    PickAppend(out, f, max, true);
    PickAppend(offers, f, max, false);
    PickAppend(offers, f, max, true);
  }

  /** What has left the queues under a key, delivered first. */
  function Out(w: World, key: string): seq<FlowFile> {
    Files(OfGroup(w.delivered + w.m.ready, key))
  }

  function Waiting(m: Manager, key: string): seq<FlowFile> {
    Files(Queue(m.groups, key))
  }

  ghost predicate InOrder(w: World, key: string) {
    Fifo(Out(w, key), Waiting(w.m, key), OffersOf(w.accepted, key), w.m.maxSize)
  }

  lemma OffersAppend(accepted: seq<(string, FlowFile)>, k: string, f: FlowFile, key: string)
    ensures OffersOf(accepted + [(k, f)], key) == OffersOf(accepted, key) + if k == key then [f] else []
  {
    OffersConcat(accepted, [(k, f)], key);
  }

  lemma OutAppend(w: World, m': Manager, due: seq<Bin>, key: string)
    requires m'.ready == w.m.ready + due
    ensures Out(w.(m := m'), key) == Out(w, key) + Files(OfGroup(due, key))
  {
    hide Files, OfGroup;
    assert w.delivered + m'.ready == w.delivered + w.m.ready + due;
    OfGroupConcat(w.delivered + w.m.ready, due, key);
    FilesConcat(OfGroup(w.delivered + w.m.ready, key), OfGroup(due, key));
  }

  /** Moving bins from the front of the queues to the ready bins keeps the order. */
  lemma MoveKeepsOrder(w: World, m': Manager, due: seq<Bin>, key: string)
    requires InOrder(w, key) && m'.maxSize == w.m.maxSize && m'.ready == w.m.ready + due
    requires OfGroup(due, key) + Queue(m'.groups, key) == Queue(w.m.groups, key)
    ensures InOrder(w.(m := m'), key)
  {
    hide Fifo, Files, OfGroup, Queue, Out;
    OutAppend(w, m', due, key);
    FilesConcat(OfGroup(due, key), Queue(m'.groups, key));
    FifoMove(Out(w, key), Files(OfGroup(due, key)), Waiting(m', key), OffersOf(w.accepted, key), w.m.maxSize);
  }

  /** The files of a queue whose last bin has been offered f. */
  lemma TailFiles(q: seq<Bin>, f: FlowFile)
    requires q != []
    ensures var (tail, ok) := OfferBin(q[|q| - 1], f);
            Files(q[..|q| - 1] + [tail]) == Files(q) + if ok then [f] else []
  {
    hide Files, OfferBin;
    var n := |q| - 1;
    OfferBinEffect(q[n], f);
    FilesAppend(q[..n], OfferBin(q[n], f).0);
    FilesAppend(q[..n], q[n]);
    assert q == q[..n] + [q[n]];
    Associate(Files(q[..n]), q[n].files, [f]);
  }

  lemma FilesAppend(q: seq<Bin>, b: Bin)
    ensures Files(q + [b]) == Files(q) + b.files
  {
    FilesConcat(q, [b]);
  }

  /** A key without a group gets one with a single bin. */
  lemma WaitingInsert(groups: seq<Group<Bin>>, k: string, b: Bin, key: string)
    requires Find(groups, k) == -1
    ensures Files(Queue(Insert(groups, Group(k, [b])), key)) == Files(Queue(groups, key)) + if k == key then b.files
            else []
  {
    hide Files, Queue, Insert;
    QueueInsert(groups, Group(k, [b]), key);
    if k == key {
      QueueAbsent(groups, k);
      FilesAppend([], b);
      assert [] + [b] == [b];
    }
  }

  /** The last bin of a group is replaced after an offer, and a new bin may follow it. */
  lemma WaitingReplace(groups: seq<Group<Bin>>, i: int, b: Bin, f: FlowFile, key: string)
    requires DistinctKeys(groups) && 0 <= i < |groups| && groups[i].bins != []
    ensures var g := groups[i];
            var (tail, taken) := OfferBin(g.bins[|g.bins| - 1], f);
            var q := g.bins[..|g.bins| - 1] + [tail];
            && Files(Queue(groups[i := Group(g.key, q)], key)) ==
                 Files(Queue(groups, key)) + (if g.key == key && taken then [f] else [])
            && (!taken ==>
                  Files(Queue(groups[i := Group(g.key, q + [b])], key)) ==
                  Files(Queue(groups, key)) + (if g.key == key then b.files else []))
  {
    hide Files, Queue, OfferBin;
    var g := groups[i];
    var tail := OfferBin(g.bins[|g.bins| - 1], f).0;
    var q := g.bins[..|g.bins| - 1] + [tail];
    QueueReplace(groups, i, q, key);
    QueueReplace(groups, i, q + [b], key);
    if g.key == key {
      QueueOwn(groups, i);
      TailFiles(g.bins, f);
      FilesAppend(q, b);
    }
  }

  /** An offer within the size limit: the queue of its key grows by the file if it was taken, other queues stay. */
  lemma OfferWaiting(m: Manager, k: string, f: FlowFile, now: Size, key: string)
    requires Consistent(m) && f.size <= m.maxSize
    ensures var (m', ok) := Offer(m, k, f, now);
            && m'.ready == m.ready && m'.maxSize == m.maxSize
            && Waiting(m', key) == Waiting(m, key) + if ok && k == key then [f] else []
  {
    var empty := FreshBin(m, k, now);
    OfferBinEffect(empty, f);
    hide Files, Queue, OfferBin, Insert;
    var b := OfferBin(empty, f).0;
    var i := Find(m.groups, k);
    if i < 0 {
      WaitingInsert(m.groups, k, b, key);
    } else {
      assert GroupOk(m.groups[i]);
      WaitingReplace(m.groups, i, b, f, key);
    }
  }

  lemma SmallOfferKeepsOrder(w: World, k: string, f: FlowFile, now: Size, key: string)
    requires Consistent(w.m) && InOrder(w, key) && f.size <= w.m.maxSize
    ensures InOrder(Next(w, OfferStep(k, f, now)), key)
  {
    hide Fifo, Files, Queue, OffersOf, Consistent;
    var (m', ok) := Offer(w.m, k, f, now);
    var w' := Next(w, OfferStep(k, f, now));
    OfferWaiting(w.m, k, f, now, key);
    OffersAppend(w.accepted, k, f, key);
    var waiting, offers := Waiting(w.m, key), OffersOf(w.accepted, key);
    assert Out(w', key) == Out(w, key);
    if ok && k == key {
      FifoEnqueue(Out(w, key), waiting, offers, w.m.maxSize, f);
    } else {
      assert waiting + [] == waiting && offers + [] == offers;
      assert Waiting(w'.m, key) == waiting && OffersOf(w'.accepted, key) == offers;
    }
  }

  lemma LargeOfferKeepsOrder(w: World, k: string, f: FlowFile, now: Size, key: string)
    requires InOrder(w, key) && f.size > w.m.maxSize
    ensures InOrder(Next(w, OfferStep(k, f, now)), key)
  {
    var solo := SoloBin(k, now);
    OfferBinEffect(solo, f);
    var (b, ok) := OfferBin(solo, f);
    var w' := Next(w, OfferStep(k, f, now));
    assert ok && w' == World(w.m.(ready := w.m.ready + [b]), w.delivered, w.accepted + [(k, f)]);
    assert Files(OfGroup([b], key)) == if k == key then [f] else [];
    hide Fifo, Files, OfGroup, Queue, OffersOf, OfferBin, Offer;
    OutAppend(w, w'.m, [b], key);
    OffersAppend(w.accepted, k, f, key);
    var out, offers := Out(w, key), OffersOf(w.accepted, key);
    if k == key {
      FifoBypass(out, Waiting(w.m, key), offers, w.m.maxSize, f);
    } else {
      assert out + [] == out && offers + [] == offers;
    }
  }

  lemma GatherKeepsOrder(w: World, now: Size, key: string)
    requires Consistent(w.m) && InOrder(w, key)
    ensures InOrder(w.(m := Gather(w.m, now)), key)
  {
    hide InOrder, OfGroup, Queue, AllDue, NotDue;
    DueThenLeft(w.m.groups, w.m.binAge, now, key);
    MoveKeepsOrder(w, Gather(w.m, now), AllDue(w.m.groups, w.m.binAge, now), key);
  }

  lemma EvictKeepsOrder(w: World, key: string)
    requires Consistent(w.m) && InOrder(w, key)
    ensures InOrder(w.(m := RemoveOldest(w.m)), key)
  {
    hide InOrder, OfGroup, Queue, DropFront;
    var i := Oldest(w.m.groups);
    if i >= 0 {
      FrontThenLeft(w.m.groups, i, key);
      MoveKeepsOrder(w, RemoveOldest(w.m), [w.m.groups[i].bins[0]], key);
    }
  }

  lemma DeliverKeepsOrder(w: World, key: string)
    requires InOrder(w, key)
    ensures InOrder(Next(w, DeliverStep), key)
  {
    hide Fifo, Files, OfGroup, Queue;
    assert w.delivered + w.m.ready + [] == w.delivered + w.m.ready;
  }

  lemma NextKeepsOrder(w: World, s: Step, key: string)
    requires Consistent(w.m) && InOrder(w, key) && !s.PurgeStep?
    ensures InOrder(Next(w, s), key)
  {
    hide InOrder, Consistent, Offer, Gather, RemoveOldest;
    match s
    case OfferStep(k, f, now) =>
      if f.size > w.m.maxSize {
        LargeOfferKeepsOrder(w, k, f, now, key);
      } else {
        SmallOfferKeepsOrder(w, k, f, now, key);
      }
    case GatherStep(now) => GatherKeepsOrder(w, now, key);
    case EvictStep => EvictKeepsOrder(w, key);
    case DeliverStep => DeliverKeepsOrder(w, key);
  }

  ghost predicate NoPurge(steps: seq<Step>) {
    forall k :: 0 <= k < |steps| ==> !steps[k].PurgeStep?
  }

  /** Over every run without purge and for every key, what was delivered, then what is ready, then what is queued is
      exactly what was accepted: in order among the files within the size limit, and in order among the larger ones. */
  lemma {:induction false} RunKeepsOrder(w: World, steps: seq<Step>, key: string)
    requires Consistent(w.m) && InOrder(w, key) && NoPurge(steps)
    ensures InOrder(Run(w, steps), key)
    decreases |steps|
  {
    hide InOrder;
    if steps != [] {
      var before := steps[..|steps| - 1];
      RunKeepsOrder(w, before, key);
      RunConsistent(w, before);
      NextKeepsOrder(Run(w, before), steps[|steps| - 1], key);
    }
  }
}
