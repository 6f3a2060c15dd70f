/** The map of groups stays sorted by key. */
module BinKeys {
  import opened Words
  import opened FlowFiles
  import opened BinModel
  import opened BinRuns

  /** The order of texts: at the first difference a has ended or has the smaller character. */
  ghost predicate Before(a: string, b: string) {
    exists n :: 0 <= n <= |a| && DiffersAt(a, b, n)
  }

  ghost predicate DiffersAt(a: string, b: string, n: int)
    requires 0 <= n <= |a|
  {
    n < |b| && a[..n] == b[..n] && (n == |a| || a[n] < b[n])
  }

  lemma {:induction false} KeyLessIsBefore(a: string, b: string)
    ensures KeyLess(a, b) <==> Before(a, b)
    decreases |a|
  {
    if KeyLess(a, b) {
      if a == [] || a[0] < b[0] {
        assert DiffersAt(a, b, 0);
      } else {
        KeyLessIsBefore(a[1..], b[1..]);
        var n :| 0 <= n <= |a[1..]| && DiffersAt(a[1..], b[1..], n);
        assert a[..n + 1] == [a[0]] + a[1..][..n] && b[..n + 1] == [b[0]] + b[1..][..n];
        assert DiffersAt(a, b, n + 1);
      }
    }
    if n :| 0 <= n <= |a| && DiffersAt(a, b, n) {
      if n > 0 {
        assert a[0] == a[..n][0] == b[..n][0] == b[0];
        assert a[1..][..n - 1] == a[..n][1..] == b[..n][1..] == b[1..][..n - 1];
        assert DiffersAt(a[1..], b[1..], n - 1);
        KeyLessIsBefore(a[1..], b[1..]);
      }
    }
  }

  lemma {:induction false} KeyLessOrder(a: string, b: string, c: string)
    ensures a == b || KeyLess(a, b) || KeyLess(b, a)
    ensures !(KeyLess(a, b) && KeyLess(b, a)) && !KeyLess(a, a)
    ensures KeyLess(a, b) && KeyLess(b, c) ==> KeyLess(a, c)
    decreases |a|
  {
    if a != [] && b != [] {
      KeyLessOrder(a[1..], b[1..], if c == [] then [] else c[1..]);
      assert a[0] == b[0] && a[1..] == b[1..] ==> a == [a[0]] + a[1..] == [b[0]] + b[1..] == b;
    } else if a != [] {
      KeyLessOrder(a[1..], [], []);
    }
  }

  ghost predicate Sorted(groups: seq<Group<Bin>>) {
    forall i, j :: 0 <= i < j < |groups| ==> KeyLess(groups[i].key, groups[j].key)
  }

  /** A key that is not there goes between the smaller and the larger ones. */
  lemma {:induction false} SlotSplits(groups: seq<Group<Bin>>, key: string)
    requires Sorted(groups) && forall i :: 0 <= i < |groups| ==> groups[i].key != key
    ensures forall i :: 0 <= i < Slot(groups, key) ==> KeyLess(groups[i].key, key)
    ensures forall i :: Slot(groups, key) <= i < |groups| ==> KeyLess(key, groups[i].key)
    decreases |groups|
  {
    if groups != [] {
      if KeyLess(key, groups[0].key) {
        forall i | 0 <= i < |groups| ensures KeyLess(key, groups[i].key) {
          KeyLessOrder(key, groups[0].key, groups[i].key);
        }
      } else {
        KeyLessOrder(key, groups[0].key, "");
        hide KeyLess;
        SlotSplits(groups[1..], key);
        assert forall i :: 0 < i < |groups| ==> groups[i] == groups[1..][i - 1];
      }
    }
  }

  lemma InsertSorted(groups: seq<Group<Bin>>, g: Group<Bin>)
    requires Sorted(groups) && forall i :: 0 <= i < |groups| ==> groups[i].key != g.key
    ensures Sorted(Insert(groups, g))
  {
    SlotSplits(groups, g.key);
    hide KeyLess, Slot;
    var k := Slot(groups, g.key);
    var after := groups[..k] + [g] + groups[k..];
    assert forall i :: 0 <= i < |after| ==>
      after[i] == if i < k then groups[i] else if i == k then g else groups[i - 1];
  }

  lemma ReplaceSorted(groups: seq<Group<Bin>>, i: int, q: seq<Bin>)
    requires Sorted(groups) && 0 <= i < |groups|
    ensures Sorted(groups[i := Group(groups[i].key, q)])
  {
    hide KeyLess;
  }

  lemma OfferSorted(m: Manager, key: string, f: FlowFile, now: Size)
    requires Sorted(m.groups)
    ensures Sorted(Offer(m, key, f, now).0.groups)
  {
    hide KeyLess, Insert, OfferBin, FreshBin, Sorted;
    var i := Find(m.groups, key);
    if i < 0 {
      InsertSorted(m.groups, Group(key, [OfferBin(FreshBin(m, key, now), f).0]));
    } else if f.size <= m.maxSize {
      ReplaceSorted(m.groups, i, Offer(m, key, f, now).0.groups[i].bins);
    }
  }

  lemma {:induction false} NotDueSorted(groups: seq<Group<Bin>>, age: Size, now: Size)
    requires Sorted(groups)
    ensures Sorted(NotDue(groups, age, now))
    decreases |groups|
  {
    if groups != [] {
      hide KeyLess, DuePrefix;
      NotDueSorted(groups[1..], age, now);
      NotDueEffect(groups[1..], age, now);
      var rest := NotDue(groups[1..], age, now);
      forall j | 0 <= j < |rest| ensures KeyLess(groups[0].key, rest[j].key) {
        assert LeftOver(groups[1..], rest[j], age, now);
      }
      hide LeftOver;
    }
  }

  lemma NextSorted(w: World, s: Step)
    requires Sorted(w.m.groups)
    ensures Sorted(Next(w, s).m.groups)
  {
    hide KeyLess;
    match s
    case OfferStep(key, f, now) => OfferSorted(w.m, key, f, now);
    case GatherStep(now) => NotDueSorted(w.m.groups, w.m.binAge, now);
    case EvictStep =>
    case DeliverStep =>
    case PurgeStep =>
  }

  /** Over every run the groups stay strictly sorted, so ready bins are gathered, and ties between equally old bins
      decided, in the order of the group names. */
  lemma {:induction false} RunSorted(w: World, steps: seq<Step>)
    requires Sorted(w.m.groups)
    ensures Sorted(Run(w, steps).m.groups)
    ensures var groups := Run(w, steps).m.groups;
            forall i, j :: 0 <= i < j < |groups| ==> Before(groups[i].key, groups[j].key)
    decreases |steps|
  {
    hide KeyLess, Before, Next;
    if steps != [] {
      RunSorted(w, steps[..|steps| - 1]);
      NextSorted(Run(w, steps[..|steps| - 1]), steps[|steps| - 1]);
    }
    var groups := Run(w, steps).m.groups;
    forall i, j | 0 <= i < j < |groups| ensures Before(groups[i].key, groups[j].key) {
      KeyLessIsBefore(groups[i].key, groups[j].key);
    }
  }
}
