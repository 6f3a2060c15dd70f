/** Several threads triggering the processor at once.  Each locked operation, and the unlocked read of the bin count, is
    one atomic event; events of different threads interleave in any order. */
module BinThreads {
  import opened Words
  import opened Options
  import opened FlowFiles
  import opened BinModel
  import opened BinRuns
  import opened BinOrder

  /** How far a thread is in its call; `added` says that its offer opened a new bin. */
  datatype Phase =
    | Idle
    | Offered(added: bool)
    | Gathered(added: bool)
    | MustEvict(added: bool)
    | Checked

  datatype Event =
    | Begin(thread: nat, flow: Option<(string, FlowFile)>, now: Size)
    | GatherBy(thread: nat, now: Size)
    | CheckBy(thread: nat)
    | EvictBy(thread: nat)
    | DeliverBy(thread: nat)

  datatype System = System(w: World, maxBinCount: int, threads: seq<Phase>)

  predicate Enabled(y: System, e: Event) {
    && e.thread < |y.threads|
    && match e
       case Begin(t, _, now) => y.threads[t].Idle? && now < UINT64_MAX
       case GatherBy(t, now) => y.threads[t].Offered?
       case CheckBy(t) => y.threads[t].Gathered?
       case EvictBy(t) => y.threads[t].MustEvict?
       case DeliverBy(t) => y.threads[t].Checked?
  }

  /** The manager operation of an event, if it has one. */
  function StepOf(e: Event): Option<Step> {
    match e
    case Begin(_, flow, now) => if flow.Some? then Some(OfferStep(flow.value.0, flow.value.1, now)) else None
    case GatherBy(_, now) => Some(GatherStep(now))
    case CheckBy(_) => None
    case EvictBy(_) => Some(EvictStep)
    case DeliverBy(_) => Some(DeliverStep)
  }

  function WorldAfter(w: World, e: Event): World {
    match StepOf(e)
    case Some(s) => Next(w, s)
    case None => w
  }

  /** Where the thread goes: a refused offer ends the call, a count above the maximum asks for an eviction. */
  function PhaseAfter(y: System, e: Event): Phase
    requires Enabled(y, e)
  {
    match e
    case Begin(_, flow, now) =>
      if flow.Some? && !Offer(y.w.m, flow.value.0, flow.value.1, now).1 then Idle
      else Offered(WorldAfter(y.w, e).m.count > y.w.m.count)
    case GatherBy(t, _) => Gathered(y.threads[t].added)
    case CheckBy(t) => if y.w.m.count > y.maxBinCount then MustEvict(y.threads[t].added) else Checked
    case EvictBy(_) => Checked
    case DeliverBy(_) => Idle
  }

  /** An event that is not enabled does not happen. */
  function Apply(y: System, e: Event): System {
    if Enabled(y, e) then System(WorldAfter(y.w, e), y.maxBinCount, y.threads[e.thread := PhaseAfter(y, e)]) else y
  }

  function RunEvents(y: System, events: seq<Event>): System {
    if events == [] then y else Apply(RunEvents(y, events[..|events| - 1]), events[|events| - 1])
  }

  /** The thread has opened a bin and not yet finished its check and eviction. */
  predicate Owes(p: Phase) {
    (p.Offered? || p.Gathered? || p.MustEvict?) && p.added
  }

  function Debts(threads: seq<Phase>): nat {
    if threads == [] then 0 else Debts(threads[..|threads| - 1]) + if Owes(threads[|threads| - 1]) then 1 else 0
  }

  lemma {:induction false} DebtsUpdate(threads: seq<Phase>, t: nat, p: Phase)
    requires t < |threads|
    ensures Debts(threads[t := p]) == Debts(threads) - (if Owes(threads[t]) then 1 else 0) + (if Owes(p) then 1 else 0)
    decreases |threads|
  {
    var n := |threads| - 1;
    if t < n {
      DebtsUpdate(threads[..n], t, p);
      assert threads[t := p][..n] == threads[..n][t := p];
    } else {
      assert threads[t := p][..n] == threads[..n];
    }
  }

  ghost predicate EarlyQueue(q: seq<Bin>) {
    forall k :: 0 <= k < |q| ==> q[k].created < UINT64_MAX
  }

  ghost predicate Early(m: Manager) {
    forall i :: 0 <= i < |m.groups| ==> EarlyQueue(m.groups[i].bins)
  }

  /** The safety bound: the bins above the maximum are all owed by threads that still have to check. */
  ghost predicate Bounded(y: System) {
    && Consistent(y.w.m) && Early(y.w.m) && 0 <= y.maxBinCount
    && y.w.m.count <= y.maxBinCount + Debts(y.threads)
  }

  lemma OfferEarly(m: Manager, key: string, f: FlowFile, now: Size)
    requires Early(m) && now < UINT64_MAX
    ensures Early(Offer(m, key, f, now).0)
    ensures m.count <= Offer(m, key, f, now).0.count <= m.count + 1
    ensures !Offer(m, key, f, now).1 ==> Offer(m, key, f, now).0.count == m.count
  {
    var i, q := OfferShape(m, key, f, now);
    hide Offer, Insert;
    var m' := Offer(m, key, f, now).0;
    forall j | 0 <= j < |m'.groups| ensures EarlyQueue(m'.groups[j].bins) {
      if m'.groups == Insert(m.groups, Group(key, q)) {
        InsertMember(m.groups, Group(key, q), j);
      } else if 0 <= i < |m.groups| {
        assert EarlyQueue(m.groups[i].bins);
      }
    }
  }

  lemma GatherEarly(m: Manager, now: Size)
    requires Early(m)
    ensures Early(Gather(m, now)) && Gather(m, now).count <= m.count
  {
    NotDueEffect(m.groups, m.binAge, now);
    hide NotDue, AllDue, DuePrefix;
    var after := NotDue(m.groups, m.binAge, now);
    forall i | 0 <= i < |after| ensures EarlyQueue(after[i].bins) {
      assert LeftOver(m.groups, after[i], m.binAge, now);
    }
  }

  /** Whenever a bin is queued, an eviction removes exactly one. */
  lemma EvictProgress(m: Manager)
    requires Consistent(m) && Early(m)
    ensures Early(RemoveOldest(m))
    ensures RemoveOldest(m).count == if m.count > 0 then m.count - 1 else m.count
  {
    if m.groups != [] {
      assert GroupOk(m.groups[0]) && EarlyQueue(m.groups[0].bins);
      assert FrontDate(m.groups[0]) < UINT64_MAX;
      assert Total(m.groups) > 0;
    }
    var i := Oldest(m.groups);
    assert i >= 0 ==> EarlyQueue(m.groups[i].bins);
    hide Oldest, Total;
  }

  lemma ApplyBounded(y: System, e: Event)
    requires Bounded(y)
    ensures Bounded(Apply(y, e))
  {
    if !Enabled(y, e) {
      return;
    }
    if StepOf(e).Some? {
      NextConsistent(y.w, StepOf(e).value);
    }
    match e {
      case Begin(_, flow, now) =>
        if flow.Some? { OfferEarly(y.w.m, flow.value.0, flow.value.1, now); }
      case GatherBy(_, now) => GatherEarly(y.w.m, now);
      case EvictBy(_) => EvictProgress(y.w.m);
      case CheckBy(_) =>
      case DeliverBy(_) =>
    }
    hide Consistent, Early, Offer, Gather, RemoveOldest, Debts;
    DebtsUpdate(y.threads, e.thread, PhaseAfter(y, e));
  }

  /** Under every interleaving the count exceeds the maximum by no more than the number of calls that opened a bin and
      have not finished their check; when no call is under way it does not exceed it at all. */
  lemma {:induction false} RunBounded(y: System, events: seq<Event>)
    requires Bounded(y)
    ensures var z := RunEvents(y, events);
            && Bounded(z) && z.maxBinCount == y.maxBinCount && z.w.m.count <= y.maxBinCount + Debts(z.threads)
            && ((forall t :: 0 <= t < |z.threads| ==> !Owes(z.threads[t])) ==> z.w.m.count <= y.maxBinCount)
    decreases |events|
  {
    hide Consistent, Early, WorldAfter, Debts;
    if events != [] {
      var before := events[..|events| - 1];
      RunBounded(y, before);
      ApplyBounded(RunEvents(y, before), events[|events| - 1]);
    }
    NoDebts(RunEvents(y, events).threads);
  }

  lemma {:induction false} NoDebts(threads: seq<Phase>)
    ensures (forall t :: 0 <= t < |threads| ==> !Owes(threads[t])) ==> Debts(threads) == 0
    decreases |threads|
  {
    if threads != [] {
      NoDebts(threads[..|threads| - 1]);
    }
  }

  /** Interleaved calls neither lose nor reorder the files of a group. */
  lemma {:induction false} RunEventsInOrder(y: System, events: seq<Event>, key: string)
    requires Consistent(y.w.m) && InOrder(y.w, key)
    ensures Consistent(RunEvents(y, events).w.m) && InOrder(RunEvents(y, events).w, key)
    decreases |events|
  {
    hide Consistent, InOrder, Next;
    if events != [] {
      RunEventsInOrder(y, events[..|events| - 1], key);
      var z, e := RunEvents(y, events[..|events| - 1]), events[|events| - 1];
      if StepOf(e).Some? {
        NextConsistent(z.w, StepOf(e).value);
        NextKeepsOrder(z.w, StepOf(e).value, key);
      }
    }
  }
}
