/** Dates, size limits and readiness of bins over every run. */
module BinLimits {
  import opened Words
  import opened FlowFiles
  import opened BinModel
  import opened BinRuns

  /** Creation dates do not decrease along a queue and lie in the past. */
  ghost predicate Dated(q: seq<Bin>, clock: Size) {
    && (forall k :: 0 <= k < |q| ==> q[k].created <= clock)
    && (forall k, l :: 0 <= k < l < |q| ==> q[k].created <= q[l].created)
  }

  ghost predicate AllDated(m: Manager, clock: Size) {
    forall i :: 0 <= i < |m.groups| ==> Dated(m.groups[i].bins, clock)
  }

  /** The clock after a step. */
  function Clock(s: Step, clock: Size): Size {
    match s
    case OfferStep(_, _, now) => now
    case GatherStep(now) => now
    case _ => clock
  }

  lemma OfferDated(m: Manager, key: string, f: FlowFile, now: Size, clock: Size)
    requires AllDated(m, clock) && clock <= now
    ensures AllDated(Offer(m, key, f, now).0, now)
  {
    var i, q := OfferShape(m, key, f, now);
    hide Offer, Insert;
    var m' := Offer(m, key, f, now).0;
    forall j | 0 <= j < |m'.groups| ensures Dated(m'.groups[j].bins, now) {
      if m'.groups == Insert(m.groups, Group(key, q)) {
        InsertMember(m.groups, Group(key, q), j);
      } else if 0 <= i < |m.groups| {
        assert Dated(m.groups[i].bins, clock);
      }
    }
  }

  lemma GatherDated(m: Manager, now: Size, clock: Size)
    requires AllDated(m, clock) && clock <= now
    ensures AllDated(Gather(m, now), now)
  {
    NotDueEffect(m.groups, m.binAge, now);
    hide NotDue, AllDue, DuePrefix;
    var after := NotDue(m.groups, m.binAge, now);
    forall i | 0 <= i < |after| ensures Dated(after[i].bins, now) {
      assert LeftOver(m.groups, after[i], m.binAge, now);
    }
  }

  lemma RemoveOldestDated(m: Manager, clock: Size)
    requires AllDated(m, clock)
    ensures AllDated(RemoveOldest(m), clock)
  {
    var i := Oldest(m.groups);
    if i >= 0 {
      assert Dated(m.groups[i].bins, clock);
      hide Oldest;
    }
  }

  lemma NextDated(w: World, s: Step, clock: Size)
    requires AllDated(w.m, clock) && clock <= Clock(s, clock)
    ensures AllDated(Next(w, s).m, Clock(s, clock))
  {
    hide AllDated, Offer, Gather, RemoveOldest;
    match s
    case OfferStep(key, f, now) => OfferDated(w.m, key, f, now, clock);
    case GatherStep(now) => GatherDated(w.m, now, clock);
    case EvictStep => RemoveOldestDated(w.m, clock);
    case DeliverStep => SameGroupsDated(w.m, TakeReady(w.m), clock);
    case PurgeStep => SameGroupsDated(w.m, Purge(w.m), clock);
  }

  lemma SameGroupsDated(m: Manager, m': Manager, clock: Size)
    requires AllDated(m, clock) && (m'.groups == m.groups || m'.groups == [])
    ensures AllDated(m', clock)
  {
  }

  /** The clock after a run. */
  function ClockAfter(steps: seq<Step>, clock: Size): Size {
    if steps == [] then clock else Clock(steps[|steps| - 1], ClockAfter(steps[..|steps| - 1], clock))
  }

  /** The clock never goes back. */
  ghost predicate Forward(steps: seq<Step>, clock: Size) {
    steps == [] || (Forward(steps[..|steps| - 1], clock)
    && ClockAfter(steps[..|steps| - 1], clock) <= ClockAfter(steps, clock))
  }

  /** With a clock that never goes back, dates are sorted along every queue of every reachable state. */
  lemma {:induction false} RunDated(w: World, steps: seq<Step>, clock: Size)
    requires AllDated(w.m, clock) && Forward(steps, clock)
    ensures AllDated(Run(w, steps).m, ClockAfter(steps, clock))
    decreases |steps|
  {
    hide AllDated;
    if steps != [] {
      var before := steps[..|steps| - 1];
      RunDated(w, before, clock);
      NextDated(Run(w, before), steps[|steps| - 1], ClockAfter(before, clock));
    }
  }

  /** Looking only at the fronts is enough: the evicted bin is the oldest of all queued bins, and one is evicted
      whenever any is queued (with a date below the maximum). */
  lemma EvictsOldest(m: Manager, clock: Size)
    requires Consistent(m) && AllDated(m, clock) && clock < UINT64_MAX
    ensures m.groups == [] ==> RemoveOldest(m) == m
    ensures m.groups != [] ==>
      && |RemoveOldest(m).ready| == |m.ready| + 1 && RemoveOldest(m).count == m.count - 1
      && var evicted := RemoveOldest(m).ready[|m.ready|];
         (exists i :: 0 <= i < |m.groups| && evicted in m.groups[i].bins) &&
         forall i, k :: 0 <= i < |m.groups| && 0 <= k < |m.groups[i].bins| ==>
           evicted.created <= m.groups[i].bins[k].created
  {
    if m.groups != [] {
      assert GroupOk(m.groups[0]) && Dated(m.groups[0].bins, clock);
      assert FrontDate(m.groups[0]) < UINT64_MAX;
      var i := Oldest(m.groups);
      assert GroupOk(m.groups[i]) && m.groups[i].bins[0] in m.groups[i].bins;
      forall j, k | 0 <= j < |m.groups| && 0 <= k < |m.groups[j].bins|
        ensures m.groups[i].bins[0].created <= m.groups[j].bins[k].created
      {
        assert Dated(m.groups[j].bins, clock);
        assert FrontDate(m.groups[i]) <= FrontDate(m.groups[j]);
      }
    }
  }

  /** Full means that nothing more goes in: without a count attribute a bin is full exactly when it refuses a file of
      one byte. */
  lemma FullIff(b: Bin, f: FlowFile)
    requires b.countAttribute == "" && 0 <= b.maxEntries && b.size < UINT64_MAX && f.size == 1
    ensures IsFull(b) <==> !OfferBin(b, f).1
  {
  }

  /** An entry limit has been reached; a negative limit stands for a huge one. */
  predicate Reached(limit: Int, n: nat) {
    if limit >= 0 then n >= limit else n >= limit + UINT64_MAX + 1
  }

  /** A bin is due: at one maximum, at both minima, or older than the age limit if there is one.  The end of its age is
      a 64-bit date and wraps. */
  predicate Ripe(b: Bin, age: Size, now: Size) {
    || b.size >= b.maxSize || Reached(b.maxEntries, |b.files|)
    || (b.size >= b.minSize && Reached(b.minEntries, |b.files|))
    || (age != UINT64_MAX && now > if b.created + age <= UINT64_MAX then b.created + age
                                  else b.created + age - UINT64_MAX - 1)
  }

  lemma DueIsRipe(b: Bin, age: Size, now: Size)
    ensures Due(b, age, now) <==> Ripe(b, age, now)
  {
    WrappedSum(b.created, age);
  }

  /** The first cut[i] bins of every queue, in the order of the groups. */
  function Fronts(groups: seq<Group<Bin>>, cut: seq<nat>): seq<Bin>
    requires |cut| == |groups| && forall i :: 0 <= i < |groups| ==> cut[i] <= |groups[i].bins|
  {
    if groups == [] then [] else groups[0].bins[..cut[0]] + Fronts(groups[1..], cut[1..])
  }

  /** What is left of the groups, without emptied ones. */
  function Rests(groups: seq<Group<Bin>>, cut: seq<nat>): seq<Group<Bin>>
    requires |cut| == |groups| && forall i :: 0 <= i < |groups| ==> cut[i] <= |groups[i].bins|
  {
    if groups == [] then []
    else if cut[0] == |groups[0].bins| then Rests(groups[1..], cut[1..])
    else [Group(groups[0].key, groups[0].bins[cut[0]..])] + Rests(groups[1..], cut[1..])
  }

  /** Every queue is cut in front of its first bin that is not due. */
  ghost predicate CutAtRipe(groups: seq<Group<Bin>>, cut: seq<nat>, age: Size, now: Size) {
    && |cut| == |groups|
    && forall i :: 0 <= i < |groups| ==> CutQueue(groups[i].bins, cut[i], age, now)
  }

  ghost predicate CutQueue(q: seq<Bin>, k: nat, age: Size, now: Size) {
    && k <= |q| && (forall j :: 0 <= j < k ==> Ripe(q[j], age, now)) && (k < |q| ==> !Ripe(q[k], age, now))
  }

  lemma QueueCut(q: seq<Bin>, age: Size, now: Size)
    ensures CutQueue(q, DuePrefix(q, age, now), age, now)
  {
    forall j | 0 <= j < |q| ensures Due(q[j], age, now) <==> Ripe(q[j], age, now) {
      DueIsRipe(q[j], age, now);
    }
    hide Due, Ripe;
  }

  /** Gathering moves exactly the bins in front of the first one of each queue that is not due, by the fields of the
      bins alone; every queue that is left starts with a bin that is at no maximum, not at both minima and not over
      age. */
  lemma {:induction false} GatherExact(groups: seq<Group<Bin>>, age: Size, now: Size) returns (cut: seq<nat>)
    ensures CutAtRipe(groups, cut, age, now)
    ensures AllDue(groups, age, now) == Fronts(groups, cut) && NotDue(groups, age, now) == Rests(groups, cut)
    ensures forall b :: b in AllDue(groups, age, now) ==> Ripe(b, age, now)
    ensures forall g :: g in NotDue(groups, age, now) ==> g.bins != [] && !Ripe(g.bins[0], age, now)
    decreases |groups|
  {
    if groups == [] {
      cut := [];
    } else {
      var k := DuePrefix(groups[0].bins, age, now);
      QueueCut(groups[0].bins, age, now);
      hide Ripe, Due, DuePrefix;
      var more := GatherExact(groups[1..], age, now);
      cut := [k] + more;
      assert cut[1..] == more && forall i :: 0 < i < |groups| ==> groups[i] == groups[1..][i - 1];
    }
  }

  function SizeOf(files: seq<FlowFile>): nat {
    if files == [] then 0 else SizeOf(files[..|files| - 1]) + files[|files| - 1].size
  }

  lemma SizeOfAppend(files: seq<FlowFile>, f: FlowFile)
    ensures SizeOf(files + [f]) == SizeOf(files) + f.size
  {
    assert (files + [f])[..|files|] == files;
  }

  datatype Limits = Limits(minSize: Size, maxSize: Size, minEntries: Int, maxEntries: Int, countAttribute: string)

  function LimitsOf(m: Manager): Limits {
    Limits(m.minSize, m.maxSize, m.minEntries, m.maxEntries, m.countAttribute)
  }

  /** A bin made with these limits that knows its exact size and respects the size limit; and the entry limit as well,
      unless a count attribute may replace it. */
  ghost predicate Within(l: Limits, b: Bin) {
    && b.countAttribute == l.countAttribute && b.minSize == l.minSize && b.maxSize == l.maxSize
    && b.size == SizeOf(b.files) <= l.maxSize
    && (l.countAttribute == "" ==>
          b.minEntries == l.minEntries && b.maxEntries == l.maxEntries && |b.files| <= AsSize(l.maxEntries))
  }

  /** A bin for exactly one file that is too large for any other bin. */
  ghost predicate Solo(l: Limits, b: Bin) {
    |b.files| == 1 && b.files[0].size > l.maxSize && b.size == b.files[0].size
  }

  ghost predicate AllWithin(l: Limits, q: seq<Bin>) {
    forall k :: 0 <= k < |q| ==> Within(l, q[k])
  }

  ghost predicate WithinOrSolo(l: Limits, q: seq<Bin>) {
    forall k :: 0 <= k < |q| ==> Within(l, q[k]) || Solo(l, q[k])
  }

  ghost predicate QueuesWithin(l: Limits, groups: seq<Group<Bin>>) {
    forall i :: 0 <= i < |groups| ==> AllWithin(l, groups[i].bins)
  }

  /** Queued bins are within the limits, ready and delivered ones also may be solo bins. */
  ghost predicate Packed(l: Limits, w: World) {
    && LimitsOf(w.m) == l
    && QueuesWithin(l, w.m.groups) && WithinOrSolo(l, w.m.ready) && WithinOrSolo(l, w.delivered)
  }

  /** A bin that has room for one more file, whose size would make the sum wrap. */
  predicate Overflows(b: Bin, f: FlowFile) {
    |b.files| < AsSize(WithCount(b, f).maxEntries) && SizeOf(b.files) + f.size > UINT64_MAX
  }

  /** Offering a small file to a bin within the limits: it is taken exactly when both limits allow it, and the bin stays
      within them exactly when the sum does not wrap. */
  lemma OfferWithin(l: Limits, b: Bin, f: FlowFile)
    requires Within(l, b) && f.size <= l.maxSize
    ensures Within(l, OfferBin(b, f).0) <==> !Overflows(b, f)
    ensures Overflows(b, f) ==> OfferBin(b, f).1
    ensures !Overflows(b, f) ==>
      (OfferBin(b, f).1 <==>
       SizeOf(b.files) + f.size <= l.maxSize && |b.files| + 1 <= AsSize(WithCount(b, f).maxEntries))
    ensures l.countAttribute == "" ==> WithCount(b, f).maxEntries == l.maxEntries
  {
    SizeOfAppend(b.files, f);
    WrappedSum(b.size, f.size);
    var c := WithCount(b, f);
    assert c == b.(minEntries := c.minEntries, maxEntries := c.maxEntries) && (l.countAttribute == "" ==> c == b);
    hide WithCount, SizeOf, AsSize;
    var taken := c.(files := c.files + [f], size := (c.size + f.size) % (UINT64_MAX + 1));
    assert OfferBin(b, f) == if Fits(c, f) then (taken, true) else (c, false);
  }

  lemma WrappedSum(x: Size, y: Size)
    ensures (x + y) % (UINT64_MAX + 1) == if x + y <= UINT64_MAX then x + y else x + y - (UINT64_MAX + 1)
  {
  }

  lemma SoloOffer(l: Limits, key: string, f: FlowFile, now: Size)
    requires f.size > l.maxSize
    ensures var (b, ok) := OfferBin(SoloBin(key, now), f); ok && Solo(l, b)
  {
  }

  /** The last bin of the file's group would take it and wrap. */
  predicate Wraps(m: Manager, key: string, f: FlowFile) {
    var i := Find(m.groups, key);
    && f.size <= m.maxSize && i >= 0 && m.groups[i].bins != []
    && Overflows(m.groups[i].bins[|m.groups[i].bins| - 1], f)
  }

  lemma QueuesReplace(l: Limits, groups: seq<Group<Bin>>, i: int, g: Group<Bin>)
    requires QueuesWithin(l, groups) && 0 <= i < |groups|
    ensures QueuesWithin(l, groups[i := g]) <==> AllWithin(l, g.bins)
  {
    hide AllWithin;
    assert groups[i := g][i] == g;
  }

  lemma QueuesInsert(l: Limits, groups: seq<Group<Bin>>, g: Group<Bin>)
    requires QueuesWithin(l, groups) && AllWithin(l, g.bins)
    ensures QueuesWithin(l, Insert(groups, g))
  {
    forall j | 0 <= j < |Insert(groups, g)| ensures AllWithin(l, Insert(groups, g)[j].bins) {
      InsertMember(groups, g, j);
    }
  }

  lemma TailWithin(l: Limits, q: seq<Bin>, tail: Bin, more: seq<Bin>)
    requires q != [] && AllWithin(l, q) && AllWithin(l, more)
    ensures AllWithin(l, q[..|q| - 1] + [tail] + more) <==> Within(l, tail)
  {
    hide Within;
    var all, n := q[..|q| - 1] + [tail] + more, |q| - 1;
    assert all[n] == tail;
    forall k | 0 <= k < |all| && k != n ensures Within(l, all[k]) {
      assert k < n ==> all[k] == q[k];
      assert k > n ==> all[k] == more[k - n - 1];
    }
  }

  /** A new bin for a small file. */
  lemma FreshWithin(l: Limits, m: Manager, key: string, f: FlowFile, now: Size)
    requires LimitsOf(m) == l && f.size <= l.maxSize
    ensures AllWithin(l, [OfferBin(FreshBin(m, key, now), f).0]) && AllWithin(l, [])
    ensures l.countAttribute == "" ==> (!OfferBin(FreshBin(m, key, now), f).1 <==> l.maxEntries == 0)
  {
    var empty := FreshBin(m, key, now);
    assert Within(l, empty) && !Overflows(empty, f);
    OfferWithin(l, empty, f);
    hide OfferBin, Within;
  }

  /** The last bin of a queue is offered a small file, and a new bin may follow it. */
  lemma QueueWithin(l: Limits, q: seq<Bin>, f: FlowFile, b: Bin)
    requires q != [] && AllWithin(l, q) && AllWithin(l, [b]) && AllWithin(l, []) && f.size <= l.maxSize
    ensures var last := q[|q| - 1];
            var q' := q[..|q| - 1] + [OfferBin(last, f).0];
            && (AllWithin(l, q') <==> !Overflows(last, f)) && (AllWithin(l, q' + [b]) <==> !Overflows(last, f))
            && (Overflows(last, f) ==> OfferBin(last, f).1)
  {
    var tail := OfferBin(q[|q| - 1], f).0;
    OfferWithin(l, q[|q| - 1], f);
    hide OfferBin, Within, Overflows;
    TailWithin(l, q, tail, []);
    TailWithin(l, q, tail, [b]);
    assert q[..|q| - 1] + [tail] + [] == q[..|q| - 1] + [tail];
  }

  lemma SmallPacked(l: Limits, m: Manager, key: string, f: FlowFile, now: Size)
    requires LimitsOf(m) == l && QueuesWithin(l, m.groups) && f.size <= l.maxSize
    ensures QueuesWithin(l, Offer(m, key, f, now).0.groups) <==> !Wraps(m, key, f)
  {
    FreshWithin(l, m, key, f, now);
    hide OfferBin, FreshBin, Within, Overflows, AllWithin, Insert;
    var (b, ok) := OfferBin(FreshBin(m, key, now), f);
    var i := Find(m.groups, key);
    if i < 0 {
      QueuesInsert(l, m.groups, Group(key, [b]));
    } else {
      var q := m.groups[i].bins;
      assert AllWithin(l, q);
      hide QueuesWithin;
      if q == [] {
        QueuesReplace(l, m.groups, i, Group(key, [b]));
      } else {
        QueueWithin(l, q, f, b);
        var q' := q[..|q| - 1] + [OfferBin(q[|q| - 1], f).0];
        QueuesReplace(l, m.groups, i, Group(key, q'));
        QueuesReplace(l, m.groups, i, Group(key, q' + [b]));
      }
    }
  }

  lemma LargePacked(l: Limits, m: Manager, key: string, f: FlowFile, now: Size)
    requires LimitsOf(m) == l && WithinOrSolo(l, m.ready) && f.size > l.maxSize
    ensures Offer(m, key, f, now).1 && WithinOrSolo(l, Offer(m, key, f, now).0.ready)
    ensures Offer(m, key, f, now).0.groups == m.groups
  {
    SoloOffer(l, key, f, now);
    hide OfferBin, SoloBin, Within, Solo;
  }

  /** Offers keep the limits exactly when no sum wraps; without a count attribute they fail exactly when no entry is
      allowed at all. */
  lemma OfferPacked(l: Limits, w: World, key: string, f: FlowFile, now: Size)
    requires Packed(l, w)
    ensures Packed(l, Next(w, OfferStep(key, f, now))) <==> !Wraps(w.m, key, f)
    ensures l.countAttribute == "" ==> (!Offer(w.m, key, f, now).1 <==> f.size <= l.maxSize && l.maxEntries == 0)
  {
    if f.size > l.maxSize {
      LargePacked(l, w.m, key, f, now);
    } else {
      SmallPacked(l, w.m, key, f, now);
      if l.countAttribute == "" {
        SmallRefused(l, w.m, key, f, now);
      }
    }
    hide QueuesWithin, WithinOrSolo, OfferBin, Insert;
  }

  lemma SmallRefused(l: Limits, m: Manager, key: string, f: FlowFile, now: Size)
    requires LimitsOf(m) == l && QueuesWithin(l, m.groups) && f.size <= l.maxSize && l.countAttribute == ""
    ensures !Offer(m, key, f, now).1 <==> l.maxEntries == 0
  {
    FreshWithin(l, m, key, f, now);
    var i := Find(m.groups, key);
    if i >= 0 && m.groups[i].bins != [] {
      var q := m.groups[i].bins;
      assert AllWithin(l, q);
      OfferWithin(l, q[|q| - 1], f);
    }
    hide OfferBin, FreshBin, Within, AllWithin, QueuesWithin, Insert;
  }

  lemma {:induction false} DueWithin(l: Limits, groups: seq<Group<Bin>>, age: Size, now: Size)
    requires QueuesWithin(l, groups)
    ensures AllWithin(l, AllDue(groups, age, now)) && QueuesWithin(l, NotDue(groups, age, now))
    decreases |groups|
  {
    if groups != [] {
      assert AllWithin(l, groups[0].bins);
      DueWithin(l, groups[1..], age, now);
      hide Within, DuePrefix;
    }
  }

  predicate WrapsAt(m: Manager, s: Step) {
    s.OfferStep? && Wraps(m, s.key, s.file)
  }

  lemma NextPacked(l: Limits, w: World, s: Step)
    requires Packed(l, w) && !WrapsAt(w.m, s)
    ensures Packed(l, Next(w, s))
  {
    match s
    case OfferStep(key, f, now) => OfferPacked(l, w, key, f, now);
    case GatherStep(now) => hide Within, Solo, AllDue, NotDue; DueWithin(l, w.m.groups, w.m.binAge, now);
    case EvictStep =>
      hide Within, Solo;
      var i := Oldest(w.m.groups);
      assert i >= 0 ==> AllWithin(l, w.m.groups[i].bins);
    case DeliverStep => hide Within, Solo;
    case PurgeStep =>
  }

  /** No offer of the run makes a sum wrap. */
  predicate NoWraps(w: World, steps: seq<Step>) {
    var n := |steps| - 1;
    steps == [] || (NoWraps(w, steps[..n]) && !WrapsAt(Run(w, steps[..n]).m, steps[n]))
  }

  /** Over every run with fixed limits, as long as no sum wraps, bins hold no more than they may, or one single file
      that is too large. */
  lemma {:induction false} RunPacked(l: Limits, w: World, steps: seq<Step>)
    requires Packed(l, w) && NoWraps(w, steps)
    ensures Packed(l, Run(w, steps))
    decreases |steps|
  {
    hide Packed, WrapsAt;
    if steps != [] {
      var n := |steps| - 1;
      RunPacked(l, w, steps[..n]);
      NextPacked(l, Run(w, steps[..n]), steps[n]);
    }
  }

  /** With a maximum size below 2^63 no sum ever wraps. */
  lemma {:induction false} HalfNeverWraps(l: Limits, w: World, steps: seq<Step>)
    requires Packed(l, w) && 2 * l.maxSize <= UINT64_MAX
    ensures NoWraps(w, steps) && Packed(l, Run(w, steps))
    decreases |steps|
  {
    if steps != [] {
      var n := |steps| - 1;
      HalfNeverWraps(l, w, steps[..n]);
      var z := Run(w, steps[..n]);
      TailSmall(l, z, steps[n]);
      hide Packed, WrapsAt, Next;
      NextPacked(l, z, steps[n]);
    }
  }

  lemma TailSmall(l: Limits, w: World, s: Step)
    requires Packed(l, w) && 2 * l.maxSize <= UINT64_MAX
    ensures !WrapsAt(w.m, s)
  {
    if s.OfferStep? {
      var i := Find(w.m.groups, s.key);
      if i >= 0 && w.m.groups[i].bins != [] {
        assert AllWithin(l, w.m.groups[i].bins);
      }
    }
  }

  lemma OfferFirst(m: Manager, key: string, f: FlowFile, now: Size)
    requires m.groups == [] && f.size <= m.maxSize && OfferBin(FreshBin(m, key, now), f).1
    ensures var b := OfferBin(FreshBin(m, key, now), f).0;
            Offer(m, key, f, now) == (m.(groups := [Group(key, [b])], count := m.count + 1), true)
  {
    hide OfferBin, FreshBin;
    var b := OfferBin(FreshBin(m, key, now), f).0;
    assert Find(m.groups, key) == -1 && Insert(m.groups, Group(key, [b])) == [Group(key, [b])];
  }

  lemma OfferAgain(m: Manager, key: string, b: Bin, f: FlowFile, now: Size)
    requires m.groups == [Group(key, [b])] && f.size <= m.maxSize && OfferBin(b, f).1
    ensures Offer(m, key, f, now) == (m.(groups := [Group(key, [OfferBin(b, f).0])]), true)
  {
    hide OfferBin, FreshBin;
    var c := OfferBin(b, f).0;
    assert Find(m.groups, key) == 0 && m.groups[0].bins == [b] && [b][..0] + [c] == [c];
    assert m.groups[0 := Group(key, [c])] == [Group(key, [c])];
  }

  lemma PairWraps(b: Bin, f: FlowFile)
    requires b.countAttribute == "" && b.maxSize == UINT64_MAX && b.maxEntries == INT_MAX
    requires |b.files| <= 1 && b.size + f.size == |b.files| * (UINT64_MAX + 1) + if |b.files| == 0 then f.size else 0
    ensures OfferBin(b, f) == (b.(files := b.files + [f], size := if |b.files| == 0 then f.size else 0), true)
  {
  }

  /** Without a maximum size a sum can wrap: two files of 2^63 bytes make a bin of size zero. */
  lemma SizeWraps(m: Manager, key: string, f: FlowFile, now: Size)
    requires m.groups == [] && m.countAttribute == "" && m.maxSize == UINT64_MAX && m.maxEntries == INT_MAX
    requires f.size + f.size == UINT64_MAX + 1
    ensures var after := Run(World(m, [], []), [OfferStep(key, f, now), OfferStep(key, f, now)]).m;
            after.groups == [Group(key, [FreshBin(m, key, now).(files := [f, f], size := 0)])]
  {
    var empty := FreshBin(m, key, now);
    PairWraps(empty, f);
    var one := empty.(files := [f], size := f.size);
    assert [] + [f] == [f] && [f] + [f] == [f, f];
    PairWraps(one, f);
    hide OfferBin, Offer, FreshBin;
    OfferFirst(m, key, f, now);
    OfferAgain(Offer(m, key, f, now).0, key, one, f, now);
    RunTwo(World(m, [], []), OfferStep(key, f, now), OfferStep(key, f, now));
  }

  lemma RunTwo(w: World, a: Step, b: Step)
    ensures Run(w, [a, b]) == Next(Next(w, a), b)
  {
    hide Next;
    RunSnoc(w, [], a);
    RunSnoc(w, [a], b);
    assert [] + [a] == [a] && [a] + [b] == [a, b];
  }
}
