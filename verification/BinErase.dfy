/** Stripping the due bins first and erasing the emptied groups by key afterwards is the same as gathering. */
module BinErase {
  import opened Words
  import opened BinModel
  import opened BinRuns

  function Left(g: Group<Bin>, age: Size, now: Size): Group<Bin> {
    Group(g.key, g.bins[DuePrefix(g.bins, age, now)..])
  }

  /** Every group without its due bins, emptied ones included. */
  function Stripped(groups: seq<Group<Bin>>, age: Size, now: Size): (r: seq<Group<Bin>>)
    ensures |r| == |groups| && forall i :: 0 <= i < |r| ==> r[i] == Left(groups[i], age, now)
  {
    if groups == [] then [] else [Left(groups[0], age, now)] + Stripped(groups[1..], age, now)
  }

  function EmptyKeys(groups: seq<Group<Bin>>): seq<string> {
    if groups == [] then [] else (if groups[0].bins == [] then [groups[0].key] else []) + EmptyKeys(groups[1..])
  }

  function NonEmpty(groups: seq<Group<Bin>>): seq<Group<Bin>> {
    if groups == [] then [] else (if groups[0].bins == [] then [] else [groups[0]]) + NonEmpty(groups[1..])
  }

  function EraseAll(groups: seq<Group<Bin>>, keys: seq<string>): seq<Group<Bin>> {
    if keys == [] then groups else EraseAll(Erase(groups, keys[0]), keys[1..])
  }

  /** The state after the first k bins of group i have been moved to the ready bins. */
  function Moved(m: Manager, i: int, k: int): Manager
    requires 0 <= i < |m.groups| && 0 <= k <= |m.groups[i].bins|
  {
    m.(groups := m.groups[i := Group(m.groups[i].key, m.groups[i].bins[k..])],
      ready := m.ready + m.groups[i].bins[..k], count := m.count - k)
  }

  lemma MovedNext(m: Manager, i: int, k: int)
    requires 0 <= i < |m.groups| && 0 <= k < |m.groups[i].bins|
    ensures var m' := Moved(m, i, k);
            && m'.groups[i].bins != [] && m'.groups[i].bins[0] == m.groups[i].bins[k]
            && Moved(m, i, k + 1) ==
               m'.(groups := m'.groups[i := Group(m'.groups[i].key, m'.groups[i].bins[1..])],
                 ready := m'.ready + [m'.groups[i].bins[0]], count := m'.count - 1)
  {
    var bins, m' := m.groups[i].bins, Moved(m, i, k);
    assert bins[k..][1..] == bins[k + 1..];
    assert m.ready + bins[..k] + [bins[k]] == m.ready + bins[..k + 1];
    assert m'.groups[i := Group(m.groups[i].key, bins[k + 1..])] ==
           m.groups[i := Group(m.groups[i].key, bins[k + 1..])];
  }

  lemma MovedNone(m: Manager, i: int)
    requires 0 <= i < |m.groups|
    ensures Moved(m, i, 0) == m
  {
    assert m.groups[i].bins[0..] == m.groups[i].bins;
    assert m.groups[i := m.groups[i]] == m.groups;
    assert m.ready + m.groups[i].bins[..0] == m.ready;
  }

  /** The state after the first i groups have been stripped. */
  function Sweep(m: Manager, i: int, now: Size): Manager
    requires 0 <= i <= |m.groups|
  {
    var due := AllDue(m.groups[..i], m.binAge, now);
    m.(groups := Stripped(m.groups[..i], m.binAge, now) + m.groups[i..], ready := m.ready + due,
      count := m.count - |due|)
  }

  lemma SweepNext(m: Manager, i: int, now: Size)
    requires 0 <= i < |m.groups|
    ensures var s := Sweep(m, i, now);
            && s.groups[i] == m.groups[i]
            && Sweep(m, i + 1, now) == Moved(s, i, DuePrefix(s.groups[i].bins, m.binAge, now))
  {
    var g, age := m.groups[i], m.binAge;
    assert m.groups[..i + 1] == m.groups[..i] + [g];
    AllDueAppend(m.groups[..i], g, age, now);
    hide AllDue, DuePrefix;
    var s, k := Sweep(m, i, now), DuePrefix(g.bins, age, now);
    assert Stripped(m.groups[..i + 1], age, now) + m.groups[i + 1..] == s.groups[i := Group(g.key, g.bins[k..])];
    assert m.ready + AllDue(m.groups[..i], age, now) + g.bins[..k] ==
           m.ready + (AllDue(m.groups[..i], age, now) + g.bins[..k]);
  }

  /** The keys of the groups among the first i that the sweep has emptied. */
  function SweptKeys(m: Manager, i: int, now: Size): seq<string>
    requires 0 <= i <= |m.groups|
  {
    EmptyKeys(Stripped(m.groups[..i], m.binAge, now))
  }

  lemma EmptyKeysNext(m: Manager, i: int, now: Size)
    requires 0 <= i < |m.groups|
    ensures SweptKeys(m, i + 1, now) ==
            SweptKeys(m, i, now) + if Sweep(m, i + 1, now).groups[i].bins == [] then [m.groups[i].key] else []
    ensures Sweep(m, i + 1, now).groups[i].key == m.groups[i].key
  {
    var g, age := m.groups[i], m.binAge;
    EmptyKeysAppend(Stripped(m.groups[..i], age, now), Left(g, age, now));
    assert Stripped(m.groups[..i + 1], age, now) == Stripped(m.groups[..i], age, now) + [Left(g, age, now)];
  }

  lemma SweepNone(m: Manager, now: Size)
    ensures Sweep(m, 0, now) == m && SweptKeys(m, 0, now) == []
  {
    assert m.groups[..0] == [] && m.groups[0..] == m.groups && [] + m.groups == m.groups;
    assert m.ready + [] == m.ready;
  }

  lemma SweepEnd(m: Manager, now: Size)
    ensures EmptyKeys(Sweep(m, |m.groups|, now).groups) == SweptKeys(m, |m.groups|, now)
  {
    var all := Stripped(m.groups[..|m.groups|], m.binAge, now);
    assert all + m.groups[|m.groups|..] == all;
  }

  /** Sweeping all groups and erasing the emptied ones is gathering. */
  lemma SweepAll(m: Manager, now: Size)
    requires DistinctKeys(m.groups)
    ensures var s := Sweep(m, |m.groups|, now);
            s.(groups := EraseAll(s.groups, EmptyKeys(s.groups))) == Gather(m, now)
  {
    var s := Sweep(m, |m.groups|, now);
    assert m.groups[..|m.groups|] == m.groups && m.groups[|m.groups|..] == [];
    assert s.groups == Stripped(m.groups, m.binAge, now);
    EraseEmpty(s.groups);
    NotDueIsNonEmpty(m.groups, m.binAge, now);
  }

  lemma {:induction false} AllDueAppend(groups: seq<Group<Bin>>, g: Group<Bin>, age: Size, now: Size)
    ensures AllDue(groups + [g], age, now) == AllDue(groups, age, now) + g.bins[..DuePrefix(g.bins, age, now)]
    decreases |groups|
  {
    if groups == [] {
      assert groups + [g] == [g];
    } else {
      AllDueAppend(groups[1..], g, age, now);
      assert (groups + [g])[1..] == groups[1..] + [g];
      hide DuePrefix;
    }
  }

  lemma {:induction false} EmptyKeysAppend(groups: seq<Group<Bin>>, g: Group<Bin>)
    ensures EmptyKeys(groups + [g]) == EmptyKeys(groups) + if g.bins == [] then [g.key] else []
    decreases |groups|
  {
    if groups == [] {
      assert groups + [g] == [g];
    } else {
      EmptyKeysAppend(groups[1..], g);
      assert (groups + [g])[1..] == groups[1..] + [g];
    }
  }

  lemma {:induction false} NotDueIsNonEmpty(groups: seq<Group<Bin>>, age: Size, now: Size)
    ensures NotDue(groups, age, now) == NonEmpty(Stripped(groups, age, now))
    decreases |groups|
  {
    if groups != [] {
      NotDueIsNonEmpty(groups[1..], age, now);
      assert Stripped(groups, age, now)[1..] == Stripped(groups[1..], age, now);
    }
  }

  lemma EraseSkips(g: Group<Bin>, groups: seq<Group<Bin>>, key: string)
    requires g.key != key
    ensures Erase([g] + groups, key) == [g] + Erase(groups, key)
  {
    assert ([g] + groups)[1..] == groups;
    var i := Find(groups, key);
    assert Find([g] + groups, key) == if i == -1 then -1 else i + 1;
    hide Find;
    if i >= 0 {
      assert ([g] + groups)[..i + 1] == [g] + groups[..i] && ([g] + groups)[i + 2..] == groups[i + 1..];
    }
  }

  lemma {:induction false} EraseBehind(g: Group<Bin>, groups: seq<Group<Bin>>, keys: seq<string>)
    requires g.key !in keys
    ensures EraseAll([g] + groups, keys) == [g] + EraseAll(groups, keys)
    decreases |keys|
  {
    if keys != [] {
      EraseSkips(g, groups, keys[0]);
      hide Erase;
      EraseBehind(g, Erase(groups, keys[0]), keys[1..]);
    }
  }

  lemma {:induction false} EmptyKeysMember(groups: seq<Group<Bin>>, key: string)
    requires forall i :: 0 <= i < |groups| ==> groups[i].key != key
    ensures key !in EmptyKeys(groups)
    decreases |groups|
  {
    if groups != [] {
      EmptyKeysMember(groups[1..], key);
    }
  }

  /** Erasing the keys of the empty queues one by one leaves the other groups. */
  lemma {:induction false} EraseEmpty(groups: seq<Group<Bin>>)
    requires DistinctKeys(groups)
    ensures EraseAll(groups, EmptyKeys(groups)) == NonEmpty(groups)
    decreases |groups|
  {
    if groups != [] {
      var g, rest := groups[0], groups[1..];
      assert groups == [g] + rest;
      EraseEmpty(rest);
      if g.bins == [] {
        assert EmptyKeys(groups)[1..] == EmptyKeys(rest);
        assert Erase(groups, g.key) == rest;
      } else {
        assert EmptyKeys(groups) == EmptyKeys(rest);
        EmptyKeysMember(rest, g.key);
        EraseBehind(g, rest, EmptyKeys(rest));
      }
    }
  }

  /** Dropping the front bin: when the queue becomes empty the group is erased under the bin's own group id. */
  lemma DropByKey(m: Manager, i: int)
    requires Consistent(m) && 0 <= i < |m.groups|
    ensures m.groups[i].bins != []
    ensures var g := m.groups[i];
            var popped := m.groups[i := Group(g.key, g.bins[1..])];
            && popped[i].bins == g.bins[1..] && g.bins[0].group == g.key
            && DropFront(m.groups, i) == if popped[i].bins == [] then Erase(popped, g.bins[0].group) else popped
  {
    var g := m.groups[i];
    assert GroupOk(g);
    var popped := m.groups[i := Group(g.key, g.bins[1..])];
    var f := Find(popped, g.key);
    assert popped[i].key == g.key;
    assert popped[f].key == m.groups[f].key;
  }
}
