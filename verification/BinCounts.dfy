/** Defragmentation mode: a count attribute of the files replaces the entry limits of their bins. */
module BinCounts {
  import opened Words
  import opened Options
  import opened FlowFiles
  import opened BinModel
  import opened BinRuns
  import opened BinLimits

  /** A bin holds no more files than it may exactly when the count of the file offered last allows what it held
      before. */
  lemma EntriesIff(b: Bin, f: FlowFile)
    ensures var c := OfferBin(b, f).0;
            |c.files| <= AsSize(c.maxEntries) <==> |b.files| <= AsSize(WithCount(b, f).maxEntries)
  {
  }

  /** The count attribute of the file is the number n. */
  predicate CountsTo(attribute: string, f: FlowFile, n: int) {
    attribute != [] && Attribute(f, attribute).Some? && StoI(Attribute(f, attribute).value) == Some(n)
  }

  lemma CountReplaces(b: Bin, f: FlowFile, n: Int)
    requires CountsTo(b.countAttribute, f, n)
    ensures WithCount(b, f) == b.(minEntries := n, maxEntries := n)
  {
  }

  lemma NoCount(b: Bin, f: FlowFile)
    requires Attribute(f, b.countAttribute).None?
    ensures WithCount(b, f) == b
  {
  }

  /** The entry limit can be broken from outside: two files without a count, then one that says one, leave a queued bin
      of two files that may hold one. */
  lemma CountBreaksLimit(m: Manager, key: string, g: FlowFile, f: FlowFile, now: Size)
    requires m.groups == [] && m.countAttribute != [] && Attribute(g, m.countAttribute).None?
    requires CountsTo(m.countAttribute, f, 1) && m.maxEntries >= 2 && f.size <= m.maxSize
    requires g.size + g.size <= m.maxSize
    ensures var steps := [OfferStep(key, g, now), OfferStep(key, g, now), OfferStep(key, f, now)];
            var groups := Run(World(m, [], []), steps).m.groups;
            && |groups| == 1 && groups[0].key == key && |groups[0].bins| == 2
            && var b := groups[0].bins[0];
               b.files == [g, g] && b.maxEntries == 1 && |b.files| > AsSize(b.maxEntries)
  {
    hide OfferBin, FreshBin, Run;
    var one, both := CountSteps(m, key, g, f, now);
    OfferFirst(m, key, g, now);
    var first := Offer(m, key, g, now).0;
    OfferAgain(first, key, one, g, now);
    var two := Offer(first, key, g, now).0;
    FreshAlike(m, two, key, now);
    OfferBehind(two, key, both, f, now);
    hide Offer;
    RunThree(World(m, [], []), OfferStep(key, g, now), OfferStep(key, g, now), OfferStep(key, f, now));
  }

  /** What the bin of the two files is after each of the three offers, and that a new bin takes the third file. */
  lemma CountSteps(m: Manager, key: string, g: FlowFile, f: FlowFile, now: Size) returns (one: Bin, both: Bin)
    requires m.countAttribute != [] && Attribute(g, m.countAttribute).None?
    requires CountsTo(m.countAttribute, f, 1) && m.maxEntries >= 2 && f.size <= m.maxSize
    requires g.size + g.size <= m.maxSize
    ensures OfferBin(FreshBin(m, key, now), g) == (one, true) && OfferBin(one, g) == (both, true)
    ensures both.files == [g, g]
    ensures OfferBin(both, f) == (both.(minEntries := 1, maxEntries := 1), false)
    ensures OfferBin(FreshBin(m, key, now), f).1
  {
    var empty := FreshBin(m, key, now);
    one := empty.(files := [g], size := g.size);
    both := one.(files := [g, g], size := g.size + g.size);
    NoCount(empty, g);
    NoCount(one, g);
    CountReplaces(both, f, 1);
    CountReplaces(empty, f, 1);
    hide WithCount;
    assert [] + [g] == [g] && [g] + [g] == [g, g];
  }

  lemma FreshAlike(m: Manager, m': Manager, key: string, now: Size)
    requires m' == m.(groups := m'.groups, count := m'.count)
    ensures FreshBin(m', key, now) == FreshBin(m, key, now)
  {
  }

  lemma RunThree(w: World, a: Step, b: Step, c: Step)
    ensures Run(w, [a, b, c]) == Next(Next(Next(w, a), b), c)
  {
    hide Next;
    RunTwo(w, a, b);
    RunSnoc(w, [a, b], c);
    assert [a, b] + [c] == [a, b, c];
  }

  lemma OfferBehind(m: Manager, key: string, b: Bin, f: FlowFile, now: Size)
    requires m.groups == [Group(key, [b])] && f.size <= m.maxSize && !OfferBin(b, f).1
    requires OfferBin(FreshBin(m, key, now), f).1
    ensures Offer(m, key, f, now).0.groups == [Group(key, [OfferBin(b, f).0, OfferBin(FreshBin(m, key, now), f).0])]
  {
    hide OfferBin, FreshBin;
    var c, d := OfferBin(b, f).0, OfferBin(FreshBin(m, key, now), f).0;
    assert Find(m.groups, key) == 0 && m.groups[0].bins == [b] && [b][..0] + [c] + [d] == [c, d];
    assert m.groups[0 := Group(key, [c, d])] == [Group(key, [c, d])];
  }

  /** All files offered under a key say the same count. */
  datatype Count = Count(key: string, attribute: string, maxSize: Size, n: Int)

  /** A bin of the key has both entry limits at the count and no more files, or is the bin of one file that is too
      large. */
  ghost predicate Counted(c: Count, b: Bin) {
    b.group == c.key ==>
      || (b.countAttribute == c.attribute && b.minEntries == b.maxEntries == c.n && |b.files| <= AsSize(c.n))
      || (b.countAttribute == [] && |b.files| == 1 && b.files[0].size > c.maxSize)
  }

  ghost predicate AllCounted(c: Count, q: seq<Bin>) {
    forall k :: 0 <= k < |q| ==> Counted(c, q[k])
  }

  /** Queued bins never are the bins of too large files. */
  ghost predicate QueueCounted(c: Count, q: seq<Bin>) {
    AllCounted(c, q) && forall k :: 0 <= k < |q| && q[k].group == c.key ==> q[k].countAttribute == c.attribute
  }

  ghost predicate QueuesCounted(c: Count, groups: seq<Group<Bin>>) {
    forall i :: 0 <= i < |groups| ==> QueueCounted(c, groups[i].bins)
  }

  ghost predicate WorldCounted(c: Count, w: World) {
    && c.attribute != [] && w.m.countAttribute == c.attribute && w.m.maxSize == c.maxSize
    && QueuesCounted(c, w.m.groups) && AllCounted(c, w.m.ready) && AllCounted(c, w.delivered)
  }

  /** An offer under the key that is counted: whatever the limits were, they are the count now. */
  lemma OfferCounted(c: Count, b: Bin, f: FlowFile)
    requires b.countAttribute == c.attribute && b.group == c.key && CountsTo(c.attribute, f, c.n)
    ensures Counted(c, b) || b.files == [] ==> Counted(c, OfferBin(b, f).0) || !OfferBin(b, f).1
    ensures Counted(c, b) ==> Counted(c, OfferBin(b, f).0)
    ensures OfferBin(b, f).0.countAttribute == c.attribute
  {
    CountReplaces(b, f, c.n);
  }

  lemma OfferOther(c: Count, b: Bin, f: FlowFile)
    requires b.group != c.key
    ensures Counted(c, OfferBin(b, f).0) && OfferBin(b, f).0.group != c.key
  {
  }

  lemma ReplaceCounted(c: Count, groups: seq<Group<Bin>>, i: int, g: Group<Bin>)
    requires QueuesCounted(c, groups) && 0 <= i < |groups| && QueueCounted(c, g.bins)
    ensures QueuesCounted(c, groups[i := g])
  {
    hide QueueCounted;
  }

  lemma InsertCounted(c: Count, groups: seq<Group<Bin>>, g: Group<Bin>)
    requires QueuesCounted(c, groups) && QueueCounted(c, g.bins)
    ensures QueuesCounted(c, Insert(groups, g))
  {
    hide QueueCounted;
    forall j | 0 <= j < |Insert(groups, g)| ensures QueueCounted(c, Insert(groups, g)[j].bins) {
      InsertMember(groups, g, j);
    }
  }

  /** A bin of some group after an offer: counted, provided it was or has just been made for the file it takes. */
  lemma BinCounted(c: Count, b: Bin, f: FlowFile)
    requires b.group == c.key ==> b.countAttribute == c.attribute && CountsTo(c.attribute, f, c.n)
    ensures Counted(c, b) ==> QueueCounted(c, [OfferBin(b, f).0])
    ensures b.files == [] && OfferBin(b, f).1 ==> QueueCounted(c, [OfferBin(b, f).0])
  {
    if b.group == c.key {
      OfferCounted(c, b, f);
    } else {
      OfferOther(c, b, f);
    }
    hide CountsTo, OfferBin;
  }

  lemma QueueConcat(c: Count, a: seq<Bin>, b: seq<Bin>)
    requires QueueCounted(c, a) && QueueCounted(c, b)
    ensures QueueCounted(c, a + b)
  {
    hide Counted;
  }

  lemma QueueFront(c: Count, q: seq<Bin>, k: int)
    requires QueueCounted(c, q) && 0 <= k <= |q|
    ensures QueueCounted(c, q[..k]) && QueueCounted(c, q[k..]) && AllCounted(c, q[..k])
  {
    hide Counted;
  }

  lemma SmallOfferCounted(c: Count, m: Manager, key: string, f: FlowFile, now: Size)
    requires Consistent(m) && QueuesCounted(c, m.groups) && m.countAttribute == c.attribute && f.size <= m.maxSize
    requires key == c.key ==> CountsTo(c.attribute, f, c.n)
    ensures QueuesCounted(c, Offer(m, key, f, now).0.groups)
  {
    var empty := FreshBin(m, key, now);
    assert empty.group == key && empty.countAttribute == m.countAttribute && empty.files == [];
    BinCounted(c, empty, f);
    var (b, ok) := OfferBin(empty, f);
    var i := Find(m.groups, key);
    if i < 0 {
      if ok {
        InsertCounted(c, m.groups, Group(key, [b]));
      }
    } else {
      assert GroupOk(m.groups[i]) && QueueCounted(c, m.groups[i].bins);
      var q := m.groups[i].bins;
      var n := |q| - 1;
      BinCounted(c, q[n], f);
      var tail := OfferBin(q[n], f).0;
      QueueFront(c, q, n);
      QueueConcat(c, q[..n], [tail]);
      ReplaceCounted(c, m.groups, i, Group(key, q[..n] + [tail]));
      if ok {
        QueueConcat(c, q[..n] + [tail], [b]);
        ReplaceCounted(c, m.groups, i, Group(key, q[..n] + [tail] + [b]));
      }
    }
    hide OfferBin, FreshBin, QueuesCounted, QueueCounted, Insert, Consistent, GroupOk;
  }

  lemma LargeOfferCounted(c: Count, m: Manager, key: string, f: FlowFile, now: Size)
    requires AllCounted(c, m.ready) && m.maxSize == c.maxSize && f.size > m.maxSize
    ensures Offer(m, key, f, now).0.groups == m.groups && AllCounted(c, Offer(m, key, f, now).0.ready)
  {
    var (b, ok) := OfferBin(SoloBin(key, now), f);
    assert ok ==> Counted(c, b);
    hide OfferBin, SoloBin, Counted;
  }

  lemma {:induction false} DueCounted(c: Count, groups: seq<Group<Bin>>, age: Size, now: Size)
    requires QueuesCounted(c, groups)
    ensures AllCounted(c, AllDue(groups, age, now)) && QueuesCounted(c, NotDue(groups, age, now))
    decreases |groups|
  {
    if groups != [] {
      var q := groups[0].bins;
      assert QueueCounted(c, q);
      QueueFront(c, q, DuePrefix(q, age, now));
      DueCounted(c, groups[1..], age, now);
      hide Counted, DuePrefix, QueueCounted;
    }
  }

  lemma EvictCounted(c: Count, m: Manager)
    requires QueuesCounted(c, m.groups) && AllCounted(c, m.ready)
    ensures QueuesCounted(c, RemoveOldest(m).groups) && AllCounted(c, RemoveOldest(m).ready)
  {
    var i := Oldest(m.groups);
    if i >= 0 {
      var q := m.groups[i].bins;
      assert QueueCounted(c, q);
      QueueFront(c, q, 1);
      ReplaceCounted(c, m.groups, i, Group(m.groups[i].key, q[1..]));
      hide Counted, Oldest, QueueCounted;
    }
  }

  /** The step offers files under the key only with the count. */
  predicate StepCounts(c: Count, s: Step) {
    s.OfferStep? && s.key == c.key ==> CountsTo(c.attribute, s.file, c.n)
  }

  lemma NextCounted(c: Count, w: World, s: Step)
    requires Consistent(w.m) && WorldCounted(c, w) && StepCounts(c, s)
    ensures WorldCounted(c, Next(w, s))
  {
    match s {
      case OfferStep(key, f, now) =>
        if f.size <= w.m.maxSize {
          SmallOfferCounted(c, w.m, key, f, now);
        } else {
          LargeOfferCounted(c, w.m, key, f, now);
        }
        hide Counted, OfferBin, QueuesCounted, AllCounted, Insert;
      case GatherStep(now) =>
        DueCounted(c, w.m.groups, w.m.binAge, now);
        hide Counted, AllDue, NotDue, QueuesCounted;
      case EvictStep =>
        EvictCounted(c, w.m);
        hide RemoveOldest, QueuesCounted, AllCounted;
        assert RemoveOldest(w.m).countAttribute == w.m.countAttribute;
      case DeliverStep => hide Counted;
      case PurgeStep =>
    }
  }

  /** Over every run in which all files offered under the key say the same count, each bin of the key has both entry
      limits at that count and holds no more files. */
  lemma {:induction false} RunCounted(c: Count, w: World, steps: seq<Step>)
    requires Consistent(w.m) && WorldCounted(c, w) && forall k :: 0 <= k < |steps| ==> StepCounts(c, steps[k])
    ensures WorldCounted(c, Run(w, steps))
    decreases |steps|
  {
    hide Consistent, WorldCounted, StepCounts;
    if steps != [] {
      var n := |steps| - 1;
      RunCounted(c, w, steps[..n]);
      RunConsistent(w, steps[..n]);
      NextCounted(c, Run(w, steps[..n]), steps[n]);
    }
  }
}
