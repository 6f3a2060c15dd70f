/** What every run of the bin manager keeps. */
module BinRuns {
  import opened Words
  import opened FlowFiles
  import opened BinModel

  function Total(groups: seq<Group<Bin>>): nat {
    if groups == [] then 0 else |groups[0].bins| + Total(groups[1..])
  }

  ghost predicate GroupOk(g: Group<Bin>) {
    && g.bins != []
    && forall k :: 0 <= k < |g.bins| ==> g.bins[k].group == g.key && g.bins[k].files != []
  }

  ghost predicate DistinctKeys(groups: seq<Group<Bin>>) {
    forall i, j :: 0 <= i < j < |groups| ==> groups[i].key != groups[j].key
  }

  /** The counter is exact, no key maps to an empty queue, and every bin lies under its own group. */
  ghost predicate Consistent(m: Manager) {
    && m.count == Total(m.groups)
    && DistinctKeys(m.groups)
    && (forall i :: 0 <= i < |m.groups| ==> GroupOk(m.groups[i]))
  }

  lemma {:induction false} TotalConcat(a: seq<Group<Bin>>, b: seq<Group<Bin>>)
    ensures Total(a + b) == Total(a) + Total(b)
    decreases |a|
  {
    if a == [] {
      assert a + b == b;
    } else {
      TotalConcat(a[1..], b);
      assert (a + b)[1..] == a[1..] + b;
    }
  }

  lemma TotalSplit(groups: seq<Group<Bin>>, i: int)
    requires 0 <= i < |groups|
    ensures Total(groups) == Total(groups[..i]) + |groups[i].bins| + Total(groups[i + 1..])
  {
    assert groups == groups[..i] + groups[i..];
    TotalConcat(groups[..i], groups[i..]);
    assert groups[i..][1..] == groups[i + 1..];
  }

  lemma TotalUpdate(groups: seq<Group<Bin>>, i: int, g: Group<Bin>)
    requires 0 <= i < |groups|
    ensures Total(groups[i := g]) == Total(groups) - |groups[i].bins| + |g.bins|
  {
    TotalSplit(groups, i);
    TotalSplit(groups[i := g], i);
    assert groups[i := g][..i] == groups[..i] && groups[i := g][i + 1..] == groups[i + 1..];
  }

  lemma TotalInsert(groups: seq<Group<Bin>>, g: Group<Bin>)
    ensures Total(Insert(groups, g)) == Total(groups) + |g.bins|
  {
    var i := Slot(groups, g.key);
    var after := Insert(groups, g);
    TotalSplit(after, i);
    assert after[..i] == groups[..i] && after[i + 1..] == groups[i..];
    TotalConcat(groups[..i], groups[i..]);
    assert groups == groups[..i] + groups[i..];
  }

  /** An offer keeps the files and the group of a bin, and appends the file if it is taken. */
  lemma OfferBinEffect(b: Bin, f: FlowFile)
    ensures var (b', ok) := OfferBin(b, f);
            b'.group == b.group && b'.created == b.created && b'.files == if ok then b.files + [f] else b.files
  {
  }

  lemma ReplaceConsistent(m: Manager, i: int, q: seq<Bin>)
    requires Consistent(m) && 0 <= i < |m.groups| && GroupOk(Group(m.groups[i].key, q))
    ensures Consistent(m.(groups := m.groups[i := Group(m.groups[i].key, q)],
            count := m.count - |m.groups[i].bins| + |q|))
  {
    TotalUpdate(m.groups, i, Group(m.groups[i].key, q));
  }

  lemma InsertConsistent(m: Manager, g: Group<Bin>)
    requires Consistent(m) && Find(m.groups, g.key) == -1 && GroupOk(g)
    ensures Consistent(m.(groups := Insert(m.groups, g), count := m.count + |g.bins|))
  {
    TotalInsert(m.groups, g);
    hide Total, GroupOk, Slot;
  }

  /** Replacing the last bin, or adding one behind it, keeps the group in order. */
  lemma TailOk(key: string, q: seq<Bin>, tail: Bin, b: Bin)
    requires q != [] && GroupOk(Group(key, q))
    requires tail.group == key && tail.files != [] && b.group == key && b.files != []
    ensures GroupOk(Group(key, q[..|q| - 1] + [tail])) && GroupOk(Group(key, q[..|q| - 1] + [tail] + [b]))
  {
  }

  lemma OfferConsistent(m: Manager, key: string, f: FlowFile, now: Size)
    requires Consistent(m)
    ensures Consistent(Offer(m, key, f, now).0)
  {
    var empty := FreshBin(m, key, now);
    var (b, ok) := OfferBin(empty, f);
    OfferBinEffect(empty, f);
    assert b.group == key && (ok ==> b.files != []);
    var i := Find(m.groups, key);
    if f.size <= m.maxSize {
      if i < 0 {
        if ok {
          InsertConsistent(m, Group(key, [b]));
        }
      } else {
        TailConsistent(m, i, f, b, ok);
      }
    }
    hide OfferBin, Consistent, FreshBin, Insert;
  }

  /** The last bin of a group is offered f, and a new bin may follow it. */
  lemma TailConsistent(m: Manager, i: int, f: FlowFile, b: Bin, ok: bool)
    requires Consistent(m) && 0 <= i < |m.groups| && b.group == m.groups[i].key && (ok ==> b.files != [])
    ensures var q := m.groups[i].bins;
            && q != []
            && var q' := q[..|q| - 1] + [OfferBin(q[|q| - 1], f).0];
               && Consistent(m.(groups := m.groups[i := Group(m.groups[i].key, q')]))
               && (ok ==>
                     Consistent(m.(groups := m.groups[i := Group(m.groups[i].key, q' + [b])], count := m.count + 1)))
  {
    assert GroupOk(m.groups[i]);
    var q := m.groups[i].bins;
    OfferBinEffect(q[|q| - 1], f);
    hide OfferBin, Consistent;
    var tail := OfferBin(q[|q| - 1], f).0;
    var q' := q[..|q| - 1] + [tail];
    TailOk(m.groups[i].key, q, tail, if ok then b else tail);
    hide GroupOk;
    ReplaceConsistent(m, i, q');
    if ok {
      ReplaceConsistent(m, i, q' + [b]);
    }
  }

  /** g is what is left of one of the groups after its due bins are gone. */
  ghost predicate LeftOver(groups: seq<Group<Bin>>, g: Group<Bin>, age: Size, now: Size) {
    && g.bins != []
    && exists j :: 0 <= j < |groups| && g.key == groups[j].key
         && g.bins == groups[j].bins[DuePrefix(groups[j].bins, age, now)..]
  }

  /** An offer changes at most one group: it is new with one new bin, or its bins keep their dates and one bin may be
      added. */
  lemma OfferShape(m: Manager, key: string, f: FlowFile, now: Size) returns (i: int, q: seq<Bin>)
    ensures var m' := Offer(m, key, f, now).0;
            || (m'.groups == m.groups && m'.count == m.count)
            || (Offer(m, key, f, now).1 && m'.groups == Insert(m.groups, Group(key, q)) && m'.count == m.count + 1
               && |q| == 1 && q[0].created == now)
            || (&& 0 <= i < |m.groups| && m'.groups == m.groups[i := Group(m.groups[i].key, q)]
                && |m.groups[i].bins| <= |q| <= |m.groups[i].bins| + 1 && m'.count == m.count + |q| - |m.groups[i].bins|
                && (!Offer(m, key, f, now).1 ==> |q| == |m.groups[i].bins|)
                && forall k :: 0 <= k < |q| ==>
                     q[k].created == if k < |m.groups[i].bins| then m.groups[i].bins[k].created else now)
  {
    var empty := FreshBin(m, key, now);
    var b := OfferBin(empty, f).0;
    OfferBinEffect(empty, f);
    i, q := Find(m.groups, key), [b];
    if f.size <= m.maxSize && i >= 0 && m.groups[i].bins != [] {
      var bins := m.groups[i].bins;
      var (tail, taken) := OfferBin(bins[|bins| - 1], f);
      OfferBinEffect(bins[|bins| - 1], f);
      q := bins[..|bins| - 1] + [tail];
      if !taken && OfferBin(empty, f).1 {
        q := q + [b];
      }
    }
    hide OfferBin;
  }

  lemma InsertMember(groups: seq<Group<Bin>>, g: Group<Bin>, j: int)
    requires 0 <= j < |Insert(groups, g)|
    ensures Insert(groups, g)[j] == g || exists i :: 0 <= i < |groups| && groups[i] == Insert(groups, g)[j]
  {
    var i := Slot(groups, g.key);
    if j < i {
      assert groups[j] == Insert(groups, g)[j];
    } else if j > i {
      assert groups[j - 1] == Insert(groups, g)[j];
    }
  }

  lemma {:induction false} NotDueEffect(groups: seq<Group<Bin>>, age: Size, now: Size)
    ensures Total(NotDue(groups, age, now)) + |AllDue(groups, age, now)| == Total(groups)
    ensures forall g :: g in NotDue(groups, age, now) ==> LeftOver(groups, g, age, now)
    decreases |groups|
  {
    if groups != [] {
      NotDueEffect(groups[1..], age, now);
      var left := groups[0].bins[DuePrefix(groups[0].bins, age, now)..];
      var head := if left == [] then [] else [Group(groups[0].key, left)];
      var rest := NotDue(groups[1..], age, now);
      TotalConcat(head, rest);
      assert Total(head) == |left|;
      forall g | g in head + rest ensures LeftOver(groups, g, age, now) {
        if g in rest {
          var j :| 0 <= j < |groups[1..]| && g.key == groups[1..][j].key
            && g.bins == groups[1..][j].bins[DuePrefix(groups[1..][j].bins, age, now)..];
          assert groups[1..][j] == groups[j + 1];
        }
      }
    }
  }

  lemma {:induction false} NotDueDistinct(groups: seq<Group<Bin>>, age: Size, now: Size)
    requires DistinctKeys(groups)
    ensures DistinctKeys(NotDue(groups, age, now))
    decreases |groups|
  {
    if groups != [] {
      NotDueDistinct(groups[1..], age, now);
      NotDueEffect(groups[1..], age, now);
      var rest := NotDue(groups[1..], age, now);
      forall j | 0 <= j < |rest| ensures rest[j].key != groups[0].key {
        assert LeftOver(groups[1..], rest[j], age, now);
      }
      hide DuePrefix, LeftOver;
    }
  }

  lemma GatherConsistent(m: Manager, now: Size)
    requires Consistent(m)
    ensures Consistent(Gather(m, now))
  {
    NotDueEffect(m.groups, m.binAge, now);
    NotDueDistinct(m.groups, m.binAge, now);
    hide Total, NotDue, AllDue, DuePrefix;
    var after := NotDue(m.groups, m.binAge, now);
    forall i | 0 <= i < |after| ensures GroupOk(after[i]) {
      assert LeftOver(m.groups, after[i], m.binAge, now);
    }
  }

  lemma DropFrontConsistent(m: Manager, i: int)
    requires Consistent(m) && 0 <= i < |m.groups|
    ensures m.groups[i].bins != []
    ensures Consistent(m.(groups := DropFront(m.groups, i), count := m.count - 1))
  {
    assert GroupOk(m.groups[i]);
    if |m.groups[i].bins| == 1 {
      TotalSplit(m.groups, i);
      TotalConcat(m.groups[..i], m.groups[i + 1..]);
    } else {
      ReplaceConsistent(m, i, m.groups[i].bins[1..]);
    }
  }

  lemma RemoveOldestConsistent(m: Manager)
    requires Consistent(m)
    ensures Consistent(RemoveOldest(m))
  {
    var i := Oldest(m.groups);
    if i >= 0 {
      DropFrontConsistent(m, i);
    }
  }

  /** One locked operation of the manager, with the clock reading it makes. */
  datatype Step =
    | OfferStep(key: string, file: FlowFile, now: Size)
    | GatherStep(now: Size)
    | EvictStep
    | DeliverStep
    | PurgeStep

  /** The manager together with what has been accepted and handed out so far. */
  datatype World = World(m: Manager, delivered: seq<Bin>, accepted: seq<(string, FlowFile)>)

  function Next(w: World, s: Step): World {
    match s
    case OfferStep(key, f, now) =>
      var (m, ok) := Offer(w.m, key, f, now);
      World(m, w.delivered, if ok then w.accepted + [(key, f)] else w.accepted)
    case GatherStep(now) => w.(m := Gather(w.m, now))
    case EvictStep => w.(m := RemoveOldest(w.m))
    case DeliverStep => w.(m := TakeReady(w.m), delivered := w.delivered + w.m.ready)
    case PurgeStep => w.(m := Purge(w.m))
  }

  function Run(w: World, steps: seq<Step>): World {
    if steps == [] then w else Next(Run(w, steps[..|steps| - 1]), steps[|steps| - 1])
  }

  lemma RunSnoc(w: World, steps: seq<Step>, s: Step)
    ensures Run(w, steps + [s]) == Next(Run(w, steps), s)
  {
    assert (steps + [s])[..|steps|] == steps;
  }

  lemma NextConsistent(w: World, s: Step)
    requires Consistent(w.m)
    ensures Consistent(Next(w, s).m)
  {
    match s
    case OfferStep(key, f, now) => OfferConsistent(w.m, key, f, now);
    case GatherStep(now) => GatherConsistent(w.m, now);
    case EvictStep => RemoveOldestConsistent(w.m);
    case DeliverStep =>
    case PurgeStep =>
  }

  /** Any sequence of operations keeps the counter exact, the queues non-empty and the bins in their groups. */
  lemma {:induction false} RunConsistent(w: World, steps: seq<Step>)
    requires Consistent(w.m)
    ensures Consistent(Run(w, steps).m)
    decreases |steps|
  {
    if steps != [] {
      RunConsistent(w, steps[..|steps| - 1]);
      NextConsistent(Run(w, steps[..|steps| - 1]), steps[|steps| - 1]);
    }
  }
}
