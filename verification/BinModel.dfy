/** Bins and the bin manager as values: what every operation computes. */
module BinModel {
  import opened Words
  import opened FlowFiles

  /** One bin: its limits, its files in arrival order, and their accumulated size. */
  datatype Bin = Bin(minSize: Size, maxSize: Size, minEntries: Int, maxEntries: Int, size: Size,
                     files: seq<FlowFile>, created: Size, countAttribute: string, group: string)

  /** An int compared with a container size is first converted to an unsigned 64-bit number. */
  function AsSize(x: Int): (r: Size)
    ensures x >= 0 ==> r == x
  {
    if x < 0 then x + UINT64_MAX + 1 else x
  }

  function NewBin(minSize: Size, maxSize: Size, minEntries: Int, maxEntries: Int, now: Size, countAttribute: string,
                  group: string): Bin {
    Bin(minSize, maxSize, minEntries, maxEntries, 0, [], now, countAttribute, group)
  }

  predicate IsFull(b: Bin) {
    b.size >= b.maxSize || |b.files| >= AsSize(b.maxEntries)
  }

  predicate IsReadyForMerge(b: Bin) {
    IsFull(b) || (b.size >= b.minSize && |b.files| >= AsSize(b.minEntries))
  }

  predicate IsOlderThan(b: Bin, duration: Size, now: Size) {
    now > (b.created + duration) % (UINT64_MAX + 1)
  }

  /** Defragmentation: the file's own count attribute, if it is a number, replaces both entry limits. */
  function WithCount(b: Bin, f: FlowFile): Bin {
    if b.countAttribute != [] && Attribute(f, b.countAttribute).Some?
    && StoI(Attribute(f, b.countAttribute).value).Some?
    then
      var count := StoI(Attribute(f, b.countAttribute).value).value;
      b.(minEntries := count, maxEntries := count)
    else b
  }

  predicate Fits(b: Bin, f: FlowFile) {
    (b.size + f.size) % (UINT64_MAX + 1) <= b.maxSize && |b.files| + 1 <= AsSize(b.maxEntries)
  }

  /** The bin after an offer, and whether it took the file; a refused offer may still have changed the entry limits. */
  function OfferBin(b: Bin, f: FlowFile): (Bin, bool) {
    var c := WithCount(b, f);
    if Fits(c, f) then (c.(files := c.files + [f], size := (c.size + f.size) % (UINT64_MAX + 1)), true) else (c, false)
  }

  /** The queue of one group; B is the kind of bin that is queued. */
  datatype Group<B> = Group(key: string, bins: seq<B>)

  datatype Manager = Manager(minSize: Size, maxSize: Size, minEntries: Int, maxEntries: Int, countAttribute: string,
    binAge: Size,
                             groups: seq<Group<Bin>>, ready: seq<Bin>, count: int)

  /** std::string order, by character. */
  predicate KeyLess(a: string, b: string) {
    b != [] && (a == [] || a[0] < b[0] || (a[0] == b[0] && KeyLess(a[1..], b[1..])))
  }

  /** Index of the group with this key, or -1. */
  function Find<B>(groups: seq<Group<B>>, key: string): (i: int)
    ensures -1 <= i < |groups|
    ensures i >= 0 ==> groups[i].key == key
    ensures i == -1 ==> forall j :: 0 <= j < |groups| ==> groups[j].key != key
  {
    if groups == [] then -1
    else if groups[0].key == key then 0
    else
      var i := Find(groups[1..], key);
      if i == -1 then -1 else i + 1
  }

  /** Where a new key goes: before the first larger one. */
  function Slot<B>(groups: seq<Group<B>>, key: string): (i: int)
    ensures 0 <= i <= |groups|
  {
    if groups == [] || KeyLess(key, groups[0].key) then 0 else 1 + Slot(groups[1..], key)
  }

  function Insert<B>(groups: seq<Group<B>>, g: Group<B>): seq<Group<B>> {
    var i := Slot(groups, g.key);
    groups[..i] + [g] + groups[i..]
  }

  /** The map without this key. */
  function Erase<B>(groups: seq<Group<B>>, key: string): seq<Group<B>> {
    var i := Find(groups, key);
    if i < 0 then groups else groups[..i] + groups[i + 1..]
  }

  function FreshBin(m: Manager, key: string, now: Size): Bin {
    NewBin(m.minSize, m.maxSize, m.minEntries, m.maxEntries, now, m.countAttribute, key)
  }

  function SoloBin(key: string, now: Size): Bin {
    NewBin(0, UINT64_MAX, 1, INT_MAX, now, "", key)
  }

  function Offer(m: Manager, key: string, f: FlowFile, now: Size): (Manager, bool) {
    if f.size > m.maxSize then
      var (b, ok) := OfferBin(SoloBin(key, now), f);
      if ok then (m.(ready := m.ready + [b]), true) else (m, false)
    else
      var i := Find(m.groups, key);
      var (b, ok) := OfferBin(FreshBin(m, key, now), f);
      if i < 0 then
        if ok then (m.(groups := Insert(m.groups, Group(key, [b])), count := m.count + 1), true) else (m, false)
      else
        var q := m.groups[i].bins;
        if q == [] then
          if ok then (m.(groups := m.groups[i := Group(key, [b])], count := m.count + 1), true) else (m, false)
        else
          var (tail, taken) := OfferBin(q[|q| - 1], f);
          var q' := q[..|q| - 1] + [tail];
          if taken then (m.(groups := m.groups[i := Group(key, q')]), true)
          else if ok then (m.(groups := m.groups[i := Group(key, q' + [b])], count := m.count + 1), true)
          else (m.(groups := m.groups[i := Group(key, q')]), false)
  }

  predicate Due(b: Bin, age: Size, now: Size) {
    IsReadyForMerge(b) || (age != UINT64_MAX && IsOlderThan(b, age, now))
  }

  /** How many bins at the front of a queue are due. */
  function DuePrefix(q: seq<Bin>, age: Size, now: Size): (k: nat)
    ensures k <= |q|
    ensures forall i :: 0 <= i < k ==> Due(q[i], age, now)
    ensures k < |q| ==> !Due(q[k], age, now)
  {
    if q == [] || !Due(q[0], age, now) then 0 else 1 + DuePrefix(q[1..], age, now)
  }

  /** The due bins of all groups in key order. */
  function AllDue(groups: seq<Group<Bin>>, age: Size, now: Size): seq<Bin> {
    if groups == [] then []
    else groups[0].bins[..DuePrefix(groups[0].bins, age, now)] + AllDue(groups[1..], age, now)
  }

  /** The groups without their due bins; emptied groups disappear. */
  function NotDue(groups: seq<Group<Bin>>, age: Size, now: Size): seq<Group<Bin>> {
    if groups == [] then []
    else
      var left := groups[0].bins[DuePrefix(groups[0].bins, age, now)..];
      (if left == [] then [] else [Group(groups[0].key, left)]) + NotDue(groups[1..], age, now)
  }

  function Gather(m: Manager, now: Size): Manager {
    var due := AllDue(m.groups, m.binAge, now);
    m.(groups := NotDue(m.groups, m.binAge, now), ready := m.ready + due, count := m.count - |due|)
  }

  /** The date at the front of a queue; an empty queue is never the oldest. */
  function FrontDate(g: Group<Bin>): Size {
    if g.bins == [] then UINT64_MAX else g.bins[0].created
  }

  /** The first group with the smallest front date, or -1 if no date is below the maximum. */
  function Oldest(groups: seq<Group<Bin>>): (i: int)
    ensures -1 <= i < |groups|
    ensures i >= 0 ==> FrontDate(groups[i]) < UINT64_MAX
    ensures forall j :: 0 <= j < |groups| ==>
            (if i >= 0 then FrontDate(groups[i]) <= FrontDate(groups[j]) else FrontDate(groups[j]) == UINT64_MAX)
    ensures forall j :: 0 <= j < i ==> FrontDate(groups[i]) < FrontDate(groups[j])
  {
    if groups == [] then -1
    else
      var n := |groups| - 1;
      var i := Oldest(groups[..n]);
      var best := if i < 0 then UINT64_MAX else FrontDate(groups[i]);
      if FrontDate(groups[n]) < best then n else i
  }

  /** A queue without its first bin; an emptied group is erased. */
  function DropFront(groups: seq<Group<Bin>>, i: int): seq<Group<Bin>>
    requires 0 <= i < |groups| && groups[i].bins != []
  {
    if |groups[i].bins| == 1 then groups[..i] + groups[i + 1..]
    else groups[i := Group(groups[i].key, groups[i].bins[1..])]
  }

  function RemoveOldest(m: Manager): Manager {
    var i := Oldest(m.groups);
    if i < 0 then m
    else m.(groups := DropFront(m.groups, i), ready := m.ready + [m.groups[i].bins[0]], count := m.count - 1)
  }

  function TakeReady(m: Manager): Manager {
    m.(ready := [])
  }

  function Purge(m: Manager): Manager {
    m.(groups := [], count := 0)
  }
}
