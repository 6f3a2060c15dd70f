/** Bins and their manager as objects updated in place, proved to compute the value model. */
module BinObjects {
  import opened Words
  import opened FlowFiles
  import M = BinModel
  import opened BinRuns
  import opened BinErase

  class Bin {
    const minSize: Size
    const maxSize: Size
    var minEntries: Int
    var maxEntries: Int
    var queuedSize: Size
    var queue: seq<FlowFile>
    const created: Size
    const fileCount: string
    const groupId: string

    ghost function View(): M.Bin
      reads this
    {
      M.Bin(minSize, maxSize, minEntries, maxEntries, queuedSize, queue, created, fileCount, groupId)
    }

    constructor (minSize: Size, maxSize: Size, minEntries: Int, maxEntries: Int, fileCount: string, groupId: string,
                 now: Size)
      ensures View() == M.NewBin(minSize, maxSize, minEntries, maxEntries, now, fileCount, groupId)
    {
      this.minSize, this.maxSize := minSize, maxSize;
      this.minEntries, this.maxEntries := minEntries, maxEntries;
      this.fileCount, this.groupId := fileCount, groupId;
      queuedSize, queue, created := 0, [], now;
    }

    method IsFull() returns (r: bool)
      ensures r == M.IsFull(View())
    {
      r := queuedSize >= maxSize || |queue| >= M.AsSize(maxEntries);
    }

    method IsReadyForMerge() returns (r: bool)
      ensures r == M.IsReadyForMerge(View())
    {
      var full := IsFull();
      r := full || (queuedSize >= minSize && |queue| >= M.AsSize(minEntries));
    }

    method IsOlderThan(duration: Size, now: Size) returns (r: bool)
      ensures r == M.IsOlderThan(View(), duration, now)
    {
      r := now > (created + duration) % (UINT64_MAX + 1);
    }

    /** Take the file if both limits allow it; in defragmentation its count attribute first replaces the entry
        limits. */
    method Offer(flow: FlowFile) returns (ok: bool)
      modifies this
      ensures (View(), ok) == M.OfferBin(old(View()), flow)
    {
      if fileCount != [] {
        var value := Attribute(flow, fileCount);
        if value.Some? {
          var count := StoI(value.value);
          if count.Some? {
            maxEntries := count.value;
            minEntries := count.value;
          }
        }
      }
      if (queuedSize + flow.size) % (UINT64_MAX + 1) > maxSize || |queue| + 1 > M.AsSize(maxEntries) {
        return false;
      }
      queue := queue + [flow];
      queuedSize := (queuedSize + flow.size) % (UINT64_MAX + 1);
      return true;
    }
  }

  /** The objects hold exactly these values. */
  ghost predicate Shows(bins: seq<Bin>, v: seq<M.Bin>)
    reads bins
  {
    |bins| == |v| && forall k :: 0 <= k < |bins| ==> bins[k].View() == v[k]
  }

  ghost function BinsOf(groups: seq<M.Group<Bin>>): set<Bin> {
    set i, k | 0 <= i < |groups| && 0 <= k < |groups[i].bins| :: groups[i].bins[k]
  }

  ghost predicate ShowsGroups(groups: seq<M.Group<Bin>>, v: seq<M.Group<M.Bin>>)
    reads BinsOf(groups)
  {
    |groups| == |v| && forall i :: 0 <= i < |groups| ==> groups[i].key == v[i].key && Shows(groups[i].bins, v[i].bins)
  }

  lemma ShowsAll(groups: seq<M.Group<Bin>>, v: seq<M.Group<M.Bin>>)
    requires |groups| == |v| && forall i :: 0 <= i < |groups| ==>
             groups[i].key == v[i].key && Shows(groups[i].bins, v[i].bins)
    ensures ShowsGroups(groups, v)
  {
  }

  lemma ShowsAt(groups: seq<M.Group<Bin>>, v: seq<M.Group<M.Bin>>, i: int)
    requires ShowsGroups(groups, v) && 0 <= i < |groups|
    ensures |groups| == |v| && groups[i].key == v[i].key && |groups[i].bins| == |v[i].bins|
    ensures forall k :: 0 <= k < |v[i].bins| ==> groups[i].bins[k].View() == v[i].bins[k]
  {
  }

  lemma {:induction false} FindSame(groups: seq<M.Group<Bin>>, v: seq<M.Group<M.Bin>>, key: string)
    requires ShowsGroups(groups, v)
    ensures M.Find(v, key) == M.Find(groups, key) && M.Slot(v, key) == M.Slot(groups, key)
    decreases |groups|
  {
    if groups != [] {
      FindSame(groups[1..], v[1..], key);
    }
  }

  /** No bin is queued twice. */
  ghost predicate QueuedOnce(groups: seq<M.Group<Bin>>) {
    forall i, k, j, l | 0 <= i < |groups| && 0 <= k < |groups[i].bins| && 0 <= j < |groups|
    && 0 <= l < |groups[j].bins| ::
      groups[i].bins[k] == groups[j].bins[l] ==> i == j && k == l
  }

  /** No bin is queued twice or ready twice, no queued bin is ready as well, and all of them are in repr. */
  ghost predicate Owned(groups: seq<M.Group<Bin>>, ready: seq<Bin>, repr: set<Bin>) {
    && QueuedOnce(groups)
    && (forall i, k :: 0 <= i < |groups| && 0 <= k < |groups[i].bins| ==> groups[i].bins[k] !in ready)
    && (forall i, j :: 0 <= i < j < |ready| ==> ready[i] != ready[j])
    && (forall i, k :: 0 <= i < |groups| && 0 <= k < |groups[i].bins| ==> groups[i].bins[k] in repr)
    && (forall i :: 0 <= i < |ready| ==> ready[i] in repr)
  }

  lemma OwnedExtend(groups: seq<M.Group<Bin>>, ready: seq<Bin>, repr: set<Bin>, i: int, bin: Bin)
    requires Owned(groups, ready, repr) && 0 <= i < |groups| && bin !in repr
    ensures Owned(groups[i := M.Group(groups[i].key, groups[i].bins + [bin])], ready, repr + {bin})
  {
    assert forall j, l :: 0 <= j < |groups| && 0 <= l < |groups[j].bins| ==> groups[j].bins[l] != bin;
  }

  lemma InsertedAt(groups: seq<M.Group<Bin>>, g: M.Group<Bin>, after: seq<M.Group<Bin>>) returns (s: int)
    requires after == M.Insert(groups, g)
    ensures |after| == |groups| + 1 && 0 <= s <= |groups| && after[s] == g
    ensures forall j :: 0 <= j < s ==> after[j] == groups[j]
    ensures forall j :: s < j < |after| ==> after[j] == groups[j - 1]
  {
    s := M.Slot(groups, g.key);
    hide M.Slot;
  }

  lemma QueuedOnceInsert(groups: seq<M.Group<Bin>>, key: string, bin: Bin)
    requires QueuedOnce(groups) && forall j, l :: 0 <= j < |groups| && 0 <= l < |groups[j].bins| ==>
             groups[j].bins[l] != bin
    ensures QueuedOnce(M.Insert(groups, M.Group(key, [bin])))
  {
    var after := M.Insert(groups, M.Group(key, [bin]));
    var s := InsertedAt(groups, M.Group(key, [bin]), after);
    hide M.Insert;
  }

  lemma OwnedInsert(groups: seq<M.Group<Bin>>, ready: seq<Bin>, repr: set<Bin>, key: string, bin: Bin)
    requires Owned(groups, ready, repr) && bin !in repr
    ensures Owned(M.Insert(groups, M.Group(key, [bin])), ready, repr + {bin})
  {
    assert forall j, l :: 0 <= j < |groups| && 0 <= l < |groups[j].bins| ==> groups[j].bins[l] != bin;
    QueuedOnceInsert(groups, key, bin);
    var _ := InsertedAt(groups, M.Group(key, [bin]), M.Insert(groups, M.Group(key, [bin])));
    hide M.Insert, QueuedOnce;
  }

  lemma OwnedReady(groups: seq<M.Group<Bin>>, ready: seq<Bin>, repr: set<Bin>, bin: Bin)
    requires Owned(groups, ready, repr) && bin !in repr
    ensures Owned(groups, ready + [bin], repr + {bin})
  {
    assert forall j, l :: 0 <= j < |groups| && 0 <= l < |groups[j].bins| ==> groups[j].bins[l] != bin;
  }

  /** What the caller owns once it has taken the ready bins. */
  lemma OwnedTaken(groups: seq<M.Group<Bin>>, ready: seq<Bin>, repr: set<Bin>)
    requires Owned(groups, ready, repr)
    ensures Owned(groups, [], repr)
    ensures forall i, j :: 0 <= i < j < |ready| ==> ready[i] != ready[j]
    ensures forall b :: b in ready ==> b in repr && b !in BinsOf(groups)
  {
    hide QueuedOnce;
    forall b | b in ready ensures b in repr && b !in BinsOf(groups) {
    }
  }

  lemma EraseOwned(groups: seq<M.Group<Bin>>, ready: seq<Bin>, repr: set<Bin>, key: string)
    requires Owned(groups, ready, repr)
    ensures Owned(M.Erase(groups, key), ready, repr)
  {
    var s, after := M.Find(groups, key), M.Erase(groups, key);
    assert s >= 0 ==> forall j :: 0 <= j < |after| ==> after[j] == if j < s then groups[j] else groups[j + 1];
  }

  lemma EraseShows(groups: seq<M.Group<Bin>>, v: seq<M.Group<M.Bin>>, key: string)
    requires ShowsGroups(groups, v)
    ensures ShowsGroups(M.Erase(groups, key), M.Erase(v, key))
  {
    FindSame(groups, v, key);
  }

  /** The front bin of group i becomes ready. */
  lemma PopOwned(groups: seq<M.Group<Bin>>, ready: seq<Bin>, repr: set<Bin>, i: int)
    requires Owned(groups, ready, repr) && 0 <= i < |groups| && groups[i].bins != []
    ensures Owned(groups[i := M.Group(groups[i].key, groups[i].bins[1..])], ready + [groups[i].bins[0]], repr)
  {
    var after := groups[i := M.Group(groups[i].key, groups[i].bins[1..])];
    assert forall k :: 0 <= k < |after[i].bins| ==> after[i].bins[k] == groups[i].bins[k + 1];
  }

  lemma PopShows(groups: seq<M.Group<Bin>>, v: seq<M.Group<M.Bin>>, i: int)
    requires ShowsGroups(groups, v) && 0 <= i < |groups| && groups[i].bins != []
    ensures ShowsGroups(groups[i := M.Group(groups[i].key, groups[i].bins[1..])],
            v[i := M.Group(v[i].key, v[i].bins[1..])])
  {
    assert Shows(groups[i].bins[1..], v[i].bins[1..]);
  }

  lemma ExtendShows(groups: seq<M.Group<Bin>>, v: seq<M.Group<M.Bin>>, i: int, bin: Bin)
    requires ShowsGroups(groups, v) && 0 <= i < |groups|
    ensures |v| == |groups| &&
            ShowsGroups(groups[i := M.Group(groups[i].key, groups[i].bins + [bin])],
              v[i := M.Group(groups[i].key, v[i].bins + [bin.View()])])
  {
    assert Shows(groups[i].bins + [bin], v[i].bins + [bin.View()]);
  }

  lemma InsertShows(groups: seq<M.Group<Bin>>, v: seq<M.Group<M.Bin>>, key: string, bin: Bin)
    requires ShowsGroups(groups, v)
    ensures ShowsGroups(M.Insert(groups, M.Group(key, [bin])), M.Insert(v, M.Group(key, [bin.View()])))
  {
    FindSame(groups, v, key);
    hide M.Slot;
    assert Shows([bin], [bin.View()]);
  }

  /** The last bin of group i after an offer. */
  ghost function TailOffered(m: M.Manager, i: int, flow: FlowFile): M.Manager
    requires 0 <= i < |m.groups| && m.groups[i].bins != []
  {
    var q := m.groups[i].bins;
    m.(groups := m.groups[i := M.Group(m.groups[i].key, q[..|q| - 1] + [M.OfferBin(q[|q| - 1], flow).0])])
  }

  ghost predicate TailTakes(m: M.Manager, i: int, flow: FlowFile)
    requires 0 <= i < |m.groups| && m.groups[i].bins != []
  {
    M.OfferBin(m.groups[i].bins[|m.groups[i].bins| - 1], flow).1
  }

  /** A new bin behind those of group i, if it takes the file. */
  ghost function BinPushed(m: M.Manager, i: int, group: string, flow: FlowFile, now: Size): (M.Manager, bool)
    requires 0 <= i < |m.groups|
  {
    var (b, ok) := M.OfferBin(M.FreshBin(m, group, now), flow);
    (if ok then m.(groups := m.groups[i := M.Group(group, m.groups[i].bins + [b])], count := m.count + 1) else m, ok)
  }

  lemma OfferedAtOnce(m: M.Manager, i: int, group: string, flow: FlowFile, now: Size)
    requires flow.size <= m.maxSize && 0 <= i == M.Find(m.groups, group) && m.groups[i].bins != []
    requires TailTakes(m, i, flow)
    ensures M.Offer(m, group, flow, now) == (TailOffered(m, i, flow), true)
  {
    hide M.OfferBin;
  }

  /** An offer in two steps: the last bin refuses, or there is none, and a new bin is tried. */
  lemma OfferedInTwo(m: M.Manager, mid: M.Manager, i: int, group: string, flow: FlowFile, now: Size)
    requires flow.size <= m.maxSize && 0 <= i == M.Find(m.groups, group)
    requires if m.groups[i].bins == [] then mid == m else mid == TailOffered(m, i, flow) && !TailTakes(m, i, flow)
    ensures M.Offer(m, group, flow, now) == BinPushed(mid, i, group, flow, now)
  {
    assert M.FreshBin(mid, group, now) == M.FreshBin(m, group, now);
    hide M.OfferBin, M.FreshBin;
    var b := M.OfferBin(M.FreshBin(m, group, now), flow).0;
    assert [] + [b] == [b];
    assert mid.groups[i := M.Group(group, mid.groups[i].bins + [b])] ==
           m.groups[i := M.Group(group, mid.groups[i].bins + [b])];
  }

  class BinManager {
    var minSize: Size
    var maxSize: Size
    var minEntries: Int
    var maxEntries: Int
    var fileCount: string
    var binAge: Size
    var groups: seq<M.Group<Bin>>
    var ready: seq<Bin>
    var count: int
    /** The value of the manager and all its bins. */
    ghost var state: M.Manager
    /** All bins the manager has made. */
    ghost var repr: set<Bin>

    /** The fields and the bins show `state`, and every queued bin is owned once. */
    ghost predicate Shown()
      reads this, BinsOf(groups), ready
    {
      && state == M.Manager(minSize, maxSize, minEntries, maxEntries, fileCount, binAge, state.groups, state.ready,
           count)
      && |groups| == |state.groups| && ShowsGroups(groups, state.groups) && Shows(ready, state.ready)
         && Owned(groups, ready, repr)
    }

    ghost predicate Valid()
      reads this, BinsOf(groups), ready
    {
      Shown() && Consistent(state)
    }

    constructor ()
      ensures Valid() && repr == {} && state == M.Manager(0, UINT64_MAX, 1, INT_MAX, "", UINT64_MAX, [], [], 0)
    {
      minSize, maxSize, minEntries, maxEntries := 0, UINT64_MAX, 1, INT_MAX;
      fileCount, binAge := "", UINT64_MAX;
      groups, ready, count, repr := [], [], 0, {};
      state := M.Manager(0, UINT64_MAX, 1, INT_MAX, "", UINT64_MAX, [], [], 0);
    }

    method GetReadyBin() returns (bins: seq<Bin>)
      requires Valid()
      modifies this`ready, this`state
      ensures Valid() && bins == old(ready) && ready == [] && state == M.TakeReady(old(state))
      ensures forall i, j :: 0 <= i < j < |bins| ==> bins[i] != bins[j]
      ensures forall b :: b in bins ==> b in repr && b !in BinsOf(groups)
      ensures Shows(bins, old(state).ready)
    {
      OwnedTaken(groups, ready, repr);
      NextConsistent(World(state, [], []), DeliverStep);
      assert Shows([], []);
      hide Owned, Consistent, ShowsGroups, Shows, BinsOf;
      state := M.TakeReady(state);
      bins := [];
      while ready != []
        invariant bins + ready == old(ready)
        invariant state == M.TakeReady(old(state)) && ShowsGroups(groups, state.groups)
        decreases |ready|
      {
        bins := bins + [ready[0]];
        ready := ready[1..];
      }
    }

    method Purge()
      requires Valid()
      modifies this`groups, this`count, this`state
      ensures Valid() && state == M.Purge(old(state))
    {
      groups := [];
      count := 0;
      state := M.Purge(state);
    }

    /** Offer the file to the last bin of group i. */
    method OfferToTail(i: int, flow: FlowFile) returns (taken: bool)
      requires Shown() && 0 <= i < |groups| && groups[i].bins != []
      modifies repr, this`state
      ensures Shown()
      ensures taken == TailTakes(old(state), i, flow) && state == TailOffered(old(state), i, flow)
    {
      var bins := groups[i].bins;
      var last := bins[|bins| - 1];
      ghost var v, q := state.groups, state.groups[i].bins;
      assert last in repr && last !in ready && forall l :: 0 <= l < |bins| - 1 ==> bins[l] != last;
      forall j | 0 <= j < |groups| && j != i ensures last !in groups[j].bins && Shows(groups[j].bins, v[j].bins) {
        assert last == groups[i].bins[|bins| - 1];
      }
      hide Owned, M.OfferBin, BinsOf, ShowsGroups;
      assert q[|q| - 1] == last.View();
      taken := last.Offer(flow);
      assert Shows(bins, q[..|q| - 1] + [last.View()]) && Shows(ready, state.ready);
      hide Shows;
      state := state.(groups := v[i := M.Group(v[i].key, q[..|q| - 1] + [last.View()])]);
      ShowsAll(groups, state.groups);
    }

    /** Make a bin for one group and offer it its first file. */
    method OpenBin(group: string, flow: FlowFile, now: Size) returns (bin: Bin, ok: bool)
      requires Shown()
      ensures Shown()
      ensures fresh(bin)
      ensures (bin.View(), ok) ==
              M.OfferBin(M.NewBin(minSize, maxSize, minEntries, maxEntries, now, fileCount, group), flow)
    {
      bin := new Bin(minSize, maxSize, minEntries, maxEntries, fileCount, group, now);
      ok := bin.Offer(flow);
    }

    /** Append a new bin to group i. */
    method PushBin(i: int, group: string, flow: FlowFile, now: Size) returns (ok: bool)
      requires Shown() && 0 <= i < |groups| && groups[i].key == group
      modifies this`groups, this`count, this`state, this`repr
      ensures fresh(repr - old(repr))
      ensures Shown()
      ensures (state, ok) == BinPushed(old(state), i, group, flow, now)
    {
      hide Owned, M.OfferBin;
      var bin;
      bin, ok := OpenBin(group, flow, now);
      if ok {
        OwnedExtend(groups, ready, repr, i, bin);
        ShowsAt(groups, state.groups, i);
        ExtendShows(groups, state.groups, i, bin);
        hide BinsOf, Shows, ShowsGroups;
        state := state.(groups := state.groups[i := M.Group(group, state.groups[i].bins + [bin.View()])],
          count := count + 1);
        repr := repr + {bin};
        groups := groups[i := M.Group(group, groups[i].bins + [bin])];
        count := count + 1;
      }
    }

    /** Add a group with a new bin. */
    method PushGroup(group: string, flow: FlowFile, now: Size) returns (ok: bool)
      requires Shown()
      modifies this`groups, this`count, this`state, this`repr
      ensures fresh(repr - old(repr))
      ensures Shown()
      ensures var (b, taken) := M.OfferBin(M.FreshBin(old(state), group, now), flow);
              ok == taken &&
              state == if ok then old(state).(groups := M.Insert(old(state).groups, M.Group(group, [b])),
                count := old(state).count + 1) else old(state)
    {
      hide Owned, M.OfferBin, M.Insert;
      var bin;
      bin, ok := OpenBin(group, flow, now);
      if ok {
        OwnedInsert(groups, ready, repr, group, bin);
        InsertShows(groups, state.groups, group, bin);
        hide BinsOf, Shows, ShowsGroups;
        state := state.(groups := M.Insert(state.groups, M.Group(group, [bin.View()])), count := count + 1);
        repr := repr + {bin};
        groups := M.Insert(groups, M.Group(group, [bin]));
        count := count + 1;
      }
    }

    /** Make an unlimited bin and offer it its only file. */
    static method OpenSoloBin(group: string, flow: FlowFile, now: Size) returns (bin: Bin, ok: bool)
      ensures fresh(bin) && (bin.View(), ok) == M.OfferBin(M.SoloBin(group, now), flow)
    {
      bin := new Bin(0, UINT64_MAX, 1, INT_MAX, "", group, now);
      ok := bin.Offer(flow);
    }

    /** Put a file that is too large into an unlimited bin of its own, which is ready at once. */
    method PushSolo(group: string, flow: FlowFile, now: Size) returns (ok: bool)
      requires Shown()
      modifies this`ready, this`state, this`repr
      ensures fresh(repr - old(repr))
      ensures Shown()
      ensures var (b, taken) := M.OfferBin(M.SoloBin(group, now), flow);
              ok == taken && state == if ok then old(state).(ready := old(state).ready + [b]) else old(state)
    {
      var bin;
      bin, ok := OpenSoloBin(group, flow, now);
      if ok {
        OwnedReady(groups, ready, repr, bin);
        repr := repr + {bin};
        hide Owned, BinsOf, M.OfferBin;
        ready := ready + [bin];
        state := state.(ready := state.ready + [bin.View()]);
      }
    }

    /** The last bin of the group takes the file, or a new bin behind it. */
    method OfferToGroup(i: int, group: string, flow: FlowFile, now: Size) returns (ok: bool)
      requires Shown() && flow.size <= maxSize && 0 <= i < |groups| && groups[i].key == group
      requires i == M.Find(state.groups, group)
      modifies this`groups, this`count, this`state, this`repr, repr
      ensures fresh(repr - old(repr))
      ensures Shown() && (state, ok) == M.Offer(old(state), group, flow, now)
    {
      assert |groups| == |state.groups| && |groups[i].bins| == |state.groups[i].bins|;
      hide Owned, BinsOf, ShowsGroups, Shows, M.OfferBin, M.Offer, TailOffered, TailTakes, BinPushed;
      if groups[i].bins != [] {
        var taken := OfferToTail(i, flow);
        if taken {
          OfferedAtOnce(old(state), i, group, flow, now);
          return true;
        }
      }
      ghost var mid := state;
      ok := PushBin(i, group, flow, now);
      OfferedInTwo(old(state), mid, i, group, flow, now);
    }

    /** A file too large for the limits gets a ready bin of its own; otherwise its group takes it. */
    method Offer(group: string, flow: FlowFile, now: Size) returns (ok: bool)
      requires Valid()
      modifies this`groups, this`ready, this`count, this`state, this`repr, repr
      ensures fresh(repr - old(repr))
      ensures Valid() && (state, ok) == M.Offer(old(state), group, flow, now)
    {
      OfferConsistent(state, group, flow, now);
      FindSame(groups, state.groups, group);
      hide Consistent, Owned, BinsOf, ShowsGroups, Shows, M.OfferBin, M.Insert;
      var i := M.Find(groups, group);
      if flow.size > maxSize {
        ok := PushSolo(group, flow, now);
      } else if i >= 0 {
        hide M.Offer;
        ok := OfferToGroup(i, group, flow, now);
      } else {
        ok := PushGroup(group, flow, now);
      }
    }

    /** Erase a key from the map. */
    method EraseKey(key: string)
      requires Shown()
      modifies this`groups, this`state
      ensures Shown() && state == old(state).(groups := M.Erase(old(state).groups, key))
    {
      EraseShows(groups, state.groups, key);
      EraseOwned(groups, ready, repr, key);
      hide ShowsGroups, Owned, BinsOf, M.Erase;
      state := state.(groups := M.Erase(state.groups, key));
      groups := M.Erase(groups, key);
    }

    /** Move the front bin of group i to the ready bins. */
    method MoveFront(i: int)
      requires Shown() && 0 <= i < |groups| && groups[i].bins != []
      modifies this`groups, this`ready, this`count, this`state
      ensures Shown() && |groups| == old(|groups|)
      ensures var g := old(state).groups[i];
              && |g.bins| > 0
              && state == old(state).(groups := old(state).groups[i := M.Group(g.key, g.bins[1..])],
                   ready := old(state).ready + [g.bins[0]], count := old(state).count - 1)
    {
      PopShows(groups, state.groups, i);
      PopOwned(groups, ready, repr, i);
      assert Shows(ready + [groups[i].bins[0]], state.ready + [state.groups[i].bins[0]]);
      assert |groups| == |state.groups| && |groups[i].bins| == |state.groups[i].bins|;
      hide ShowsGroups, Shows, Owned, BinsOf;
      ready := ready + [groups[i].bins[0]];
      groups := groups[i := M.Group(groups[i].key, groups[i].bins[1..])];
      count := count - 1;
      ghost var g := state.groups[i];
      state := state.(groups := state.groups[i := M.Group(g.key, g.bins[1..])], ready := state.ready + [g.bins[0]],
        count := count);
    }

    /** Is there a front bin in group i, and is it full, complete or over age? */
    method FrontIsDue(i: int, now: Size) returns (due: bool)
      requires Shown() && 0 <= i < |groups|
      ensures |groups| == |state.groups| && |groups[i].bins| == |state.groups[i].bins|
      ensures due <==> state.groups[i].bins != [] && M.Due(state.groups[i].bins[0], state.binAge, now)
    {
      hide Owned, BinsOf;
      ShowsAt(groups, state.groups, i);
      due := false;
      if groups[i].bins != [] {
        var bin := groups[i].bins[0];
        var full := bin.IsReadyForMerge();
        var older := bin.IsOlderThan(binAge, now);
        due := full || (binAge != UINT64_MAX && older);
      }
    }

    /** Move the due bins at the front of group i to the ready bins. */
    method MoveDue(i: int, now: Size)
      requires Shown() && 0 <= i < |groups| == |state.groups|
      modifies this`groups, this`ready, this`count, this`state
      ensures Shown() && |groups| == old(|groups|)
      ensures state == Moved(old(state), i, M.DuePrefix(old(state).groups[i].bins, old(state).binAge, now))
    {
      ghost var m, q, k := state, state.groups[i].bins, 0;
      MovedNone(m, i);
      hide Owned, ShowsGroups, Shows, BinsOf, M.Due;
      var due := FrontIsDue(i, now);
      while due
        invariant Shown() && |groups| == old(|groups|) && 0 <= k <= |q| && state == Moved(m, i, k)
        invariant forall j :: 0 <= j < k ==> M.Due(q[j], m.binAge, now)
        invariant |groups[i].bins| == |q| - k && (due <==> k < |q| && M.Due(q[k], m.binAge, now))
        decreases |q| - k
      {
        MovedNext(m, i, k);
        MoveFront(i);
        k := k + 1;
        due := FrontIsDue(i, now);
      }
      assert k == M.DuePrefix(q, m.binAge, now);
    }

    /** Strip every group of its due bins and remember the keys of the groups that became empty. */
    method SweepGroups(now: Size) returns (emptyQueue: seq<string>)
      requires Shown()
      modifies this`groups, this`ready, this`count, this`state
      ensures Shown() && state == Sweep(old(state), |old(state).groups|, now) && emptyQueue == EmptyKeys(state.groups)
    {
      ghost var m := state;
      SweepNone(m, now);
      assert |groups| == |m.groups|;
      hide Owned, ShowsGroups, Shows, BinsOf, Sweep, SweptKeys, Moved, M.DuePrefix;
      emptyQueue := [];
      var i := 0;
      while i < |groups|
        invariant Shown() && 0 <= i <= |groups| == |m.groups| && state == Sweep(m, i, now)
        invariant emptyQueue == SweptKeys(m, i, now)
      {
        SweepNext(m, i, now);
        EmptyKeysNext(m, i, now);
        ShowsAt(groups, state.groups, i);
        MoveDue(i, now);
        ShowsAt(groups, state.groups, i);
        if groups[i].bins == [] {
          emptyQueue := emptyQueue + [groups[i].key];
        }
        i := i + 1;
      }
      SweepEnd(m, now);
    }

    /** Erase these keys from the map. */
    method EraseKeys(keys: seq<string>)
      requires Shown()
      modifies this`groups, this`state
      ensures Shown() && state == old(state).(groups := EraseAll(old(state).groups, keys))
    {
      hide Owned, ShowsGroups, Shows, M.Erase;
      var i := 0;
      assert keys[0..] == keys;
      while i < |keys|
        invariant 0 <= i <= |keys| && Shown()
        invariant state == old(state).(groups := state.groups)
        invariant EraseAll(state.groups, keys[i..]) == EraseAll(old(state).groups, keys)
      {
        EraseKey(keys[i]);
        assert keys[i..][1..] == keys[i + 1..];
        i := i + 1;
      }
    }

    /** Move all due bins of all groups to the ready bins and erase the groups that became empty. */
    method GatherReadyBins(now: Size)
      requires Valid()
      modifies this`groups, this`ready, this`count, this`state
      ensures Valid() && state == M.Gather(old(state), now) && count == state.count
    {
      GatherConsistent(state, now);
      SweepAll(state, now);
      hide Consistent, Owned, ShowsGroups, Shows, M.Gather, Sweep, EraseAll;
      var emptyQueue := SweepGroups(now);
      EraseKeys(emptyQueue);
    }

    /** The group whose front bin has the smallest date. */
    method FindOldest() returns (oldqueue: int, olddate: Size)
      requires Shown()
      ensures |groups| == |state.groups| && oldqueue == M.Oldest(state.groups)
      ensures olddate == if oldqueue < 0 then UINT64_MAX else M.FrontDate(state.groups[oldqueue])
    {
      hide Owned, BinsOf, ShowsGroups, Shows;
      olddate := UINT64_MAX;
      oldqueue := -1;
      for i := 0 to |groups|
        invariant Shown() && -1 <= oldqueue < i && oldqueue == M.Oldest(state.groups[..i])
        invariant olddate == if oldqueue < 0 then UINT64_MAX else M.FrontDate(state.groups[oldqueue])
      {
        assert state.groups[..i + 1][..i] == state.groups[..i];
        ShowsAt(groups, state.groups, i);
        if groups[i].bins != [] {
          var bin := groups[i].bins[0];
          if bin.created < olddate {
            olddate := bin.created;
            oldqueue := i;
          }
        }
      }
      assert state.groups[..|groups|] == state.groups;
    }

    /** Move the front bin with the smallest date to the ready bins, and erase its group if that was its last bin. */
    method RemoveOldestBin()
      requires Valid()
      modifies this`groups, this`ready, this`count, this`state
      ensures Valid() && state == M.RemoveOldest(old(state))
    {
      RemoveOldestConsistent(state);
      var oldqueue, olddate := FindOldest();
      if olddate != UINT64_MAX {
        DropByKey(state, oldqueue);
        ShowsAt(groups, state.groups, oldqueue);
        hide Owned, ShowsGroups, Shows, Consistent, M.Oldest, M.DropFront, M.Erase;
        var group := groups[oldqueue].bins[0].groupId;
        MoveFront(oldqueue);
        ShowsAt(groups, state.groups, oldqueue);
        if groups[oldqueue].bins == [] {
          EraseKey(group);
        }
      }
    }
  }
}
