/** Bins are packed one after the other: no bin is opened while the last one of its group has room. */
module BinTight {
  import opened Words
  import opened FlowFiles
  import opened BinModel
  import opened BinRuns
  import opened BinLimits

  /** One more file fits both limits. */
  ghost predicate Room(l: Limits, b: Bin, f: FlowFile) {
    SizeOf(b.files) + f.size <= l.maxSize && |b.files| < AsSize(l.maxEntries)
  }

  /** A bin and its successor: the first file of the second had no room in the first. */
  ghost predicate Neighbours(l: Limits, b: Bin, next: Bin) {
    next.files != [] && !Room(l, b, next.files[0])
  }

  ghost predicate Tight(l: Limits, q: seq<Bin>) {
    forall k, n :: 0 <= k && n == k + 1 < |q| ==> Neighbours(l, q[k], q[n])
  }

  ghost predicate AllTight(l: Limits, groups: seq<Group<Bin>>) {
    forall i :: 0 <= i < |groups| ==> Tight(l, groups[i].bins)
  }

  lemma OneTight(l: Limits, b: Bin)
    ensures Tight(l, [b]) && Tight(l, [])
  {
  }

  /** The last bin of a queue takes the file, or a new bin with the file follows it. */
  lemma TailTight(l: Limits, q: seq<Bin>, tail: Bin)
    requires q != [] && Tight(l, q) && q[|q| - 1].files != [] && tail.files != []
    requires tail.files[0] == q[|q| - 1].files[0]
    ensures Tight(l, q[..|q| - 1] + [tail])
  {
    hide Room;
    var r, last := q[..|q| - 1] + [tail], |q| - 1;
    forall k, n | 0 <= k && n == k + 1 < |r| ensures Neighbours(l, r[k], r[n]) {
      assert Neighbours(l, q[k], q[n]) && r[k] == q[k] && (n < last ==> r[n] == q[n]);
    }
  }

  lemma MoreTight(l: Limits, q: seq<Bin>, b: Bin)
    requires q != [] && Tight(l, q) && Neighbours(l, q[|q| - 1], b)
    ensures Tight(l, q + [b])
  {
    hide Neighbours;
  }

  lemma ReplaceTight(l: Limits, groups: seq<Group<Bin>>, i: int, g: Group<Bin>)
    requires AllTight(l, groups) && 0 <= i < |groups| && Tight(l, g.bins)
    ensures AllTight(l, groups[i := g])
  {
    hide Tight;
  }

  lemma InsertTight(l: Limits, groups: seq<Group<Bin>>, g: Group<Bin>)
    requires AllTight(l, groups) && Tight(l, g.bins)
    ensures AllTight(l, Insert(groups, g))
  {
    hide Tight;
    forall j | 0 <= j < |Insert(groups, g)| ensures Tight(l, Insert(groups, g)[j].bins) {
      InsertMember(groups, g, j);
    }
  }

  /** What an offer makes of the queue of a group. */
  lemma QueueTight(l: Limits, m: Manager, q: seq<Bin>, key: string, f: FlowFile, now: Size)
    requires l == LimitsOf(m) && l.countAttribute == "" && f.size <= m.maxSize
    requires q != [] && AllWithin(l, q) && Tight(l, q) && q[|q| - 1].files != [] && !Overflows(q[|q| - 1], f)
    ensures var (tail, taken) := OfferBin(q[|q| - 1], f);
            var (b, ok) := OfferBin(FreshBin(m, key, now), f);
            && Tight(l, q[..|q| - 1] + [tail])
            && (!taken && ok ==> Tight(l, q[..|q| - 1] + [tail] + [b]))
            && (taken <==> Room(l, q[|q| - 1], f))
  {
    var last, empty := q[|q| - 1], FreshBin(m, key, now);
    OfferWithin(l, last, f);
    OfferBinEffect(last, f);
    OfferBinEffect(empty, f);
    assert empty.files == [] && [] + [f] == [f];
    var tail, b := OfferBin(last, f).0, OfferBin(empty, f).0;
    hide OfferBin, FreshBin, Tight, Within, Overflows, SizeOf;
    TailTight(l, q, tail);
    if !OfferBin(last, f).1 && OfferBin(empty, f).1 {
      MoreTight(l, q[..|q| - 1] + [tail], b);
    }
  }

  lemma OfferTight(l: Limits, m: Manager, key: string, f: FlowFile, now: Size)
    requires l == LimitsOf(m) && l.countAttribute == "" && Consistent(m)
    requires QueuesWithin(l, m.groups) && AllTight(l, m.groups) && !Wraps(m, key, f)
    ensures AllTight(l, Offer(m, key, f, now).0.groups)
  {
    if f.size <= m.maxSize {
      var (b, ok) := OfferBin(FreshBin(m, key, now), f);
      var i := Find(m.groups, key);
      hide OfferBin, FreshBin, Tight, Insert, Within, Overflows;
      OneTight(l, b);
      if i < 0 {
        InsertTight(l, m.groups, Group(key, [b]));
      } else {
        var q := m.groups[i].bins;
        assert GroupOk(m.groups[i]) && AllWithin(l, q);
        QueueTight(l, m, q, key, f, now);
        var q' := q[..|q| - 1] + [OfferBin(q[|q| - 1], f).0];
        ReplaceTight(l, m.groups, i, Group(key, q'));
        if !OfferBin(q[|q| - 1], f).1 && ok {
          ReplaceTight(l, m.groups, i, Group(key, q' + [b]));
        }
      }
    }
  }

  lemma SuffixTight(l: Limits, q: seq<Bin>, k: int)
    requires Tight(l, q) && 0 <= k <= |q|
    ensures Tight(l, q[k..])
  {
    hide Neighbours;
  }

  lemma GatherTight(l: Limits, m: Manager, now: Size)
    requires AllTight(l, m.groups)
    ensures AllTight(l, Gather(m, now).groups)
  {
    NotDueEffect(m.groups, m.binAge, now);
    hide NotDue, AllDue, DuePrefix, Tight;
    var after := NotDue(m.groups, m.binAge, now);
    forall i | 0 <= i < |after| ensures Tight(l, after[i].bins) {
      assert LeftOver(m.groups, after[i], m.binAge, now);
      var j :| 0 <= j < |m.groups| && after[i].key == m.groups[j].key
        && after[i].bins == m.groups[j].bins[DuePrefix(m.groups[j].bins, m.binAge, now)..];
      SuffixTight(l, m.groups[j].bins, DuePrefix(m.groups[j].bins, m.binAge, now));
    }
  }

  lemma EvictTight(l: Limits, m: Manager)
    requires AllTight(l, m.groups)
    ensures AllTight(l, RemoveOldest(m).groups)
  {
    var i := Oldest(m.groups);
    hide Oldest, Tight;
    if i >= 0 {
      SuffixTight(l, m.groups[i].bins, 1);
    }
  }

  lemma NextTight(l: Limits, w: World, s: Step)
    requires l.countAttribute == "" && Consistent(w.m) && Packed(l, w) && AllTight(l, w.m.groups) && !WrapsAt(w.m, s)
    ensures AllTight(l, Next(w, s).m.groups)
  {
    hide AllTight, Consistent, QueuesWithin, WithinOrSolo, Offer, Gather, RemoveOldest;
    match s
    case OfferStep(key, f, now) => OfferTight(l, w.m, key, f, now);
    case GatherStep(now) => GatherTight(l, w.m, now);
    case EvictStep => EvictTight(l, w.m);
    case DeliverStep =>
    case PurgeStep => NoneTight(l);
  }

  lemma NoneTight(l: Limits)
    ensures AllTight(l, [])
  {
  }

  /** Bin packing over every run in which no size wraps: of two neighbours in a queue, the first file of the later bin
      did not fit the earlier one, by size or by number of entries. */
  lemma {:induction false} RunTight(l: Limits, w: World, steps: seq<Step>)
    requires l.countAttribute == "" && Consistent(w.m) && Packed(l, w) && AllTight(l, w.m.groups) && NoWraps(w, steps)
    ensures AllTight(l, Run(w, steps).m.groups)
    decreases |steps|
  {
    hide Packed, WrapsAt, Consistent, AllTight;
    if steps != [] {
      var n := |steps| - 1;
      RunTight(l, w, steps[..n]);
      RunPacked(l, w, steps[..n]);
      RunConsistent(w, steps[..n]);
      hide Next;
      NextTight(l, Run(w, steps[..n]), steps[n]);
    }
  }
}
