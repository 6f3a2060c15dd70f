/** Compiled chains mean what they say: value by value from left to right, then the fold. */
module ExpressionLaws {
  import opened Options
  import opened Expressions

  /** What each expression evaluates to on its own. */
  function Outcomes(lib: Library, es: seq<Expr>, p: Parameters): (r: seq<Option<Value>>)
    ensures |r| == |es| && forall k :: 0 <= k < |r| ==> r[k] == Eval(lib, es[k], p)
  {
    seq(|es|, k requires 0 <= k < |es| => Eval(lib, es[k], p))
  }

  lemma OutcomesTail(lib: Library, es: seq<Expr>, p: Parameters)
    requires es != []
    ensures Outcomes(lib, es, p)[0] == Eval(lib, es[0], p) && Outcomes(lib, es, p)[1..] == Outcomes(lib, es[1..], p)
  {
    hide Eval;
  }

  /** All the values, unless one is missing. */
  function Values(outs: seq<Option<Value>>): Option<seq<Value>> {
    if outs == [] then Some([])
    else if outs[0].None? then None
    else
      var vs := Values(outs[1..]);
      if vs.None? then None else Some([outs[0].value] + vs.value)
  }

  lemma {:induction false} EvalAllMeans(lib: Library, es: seq<Expr>, p: Parameters, n: nat)
    requires Below(es, n)
    ensures EvalAll(lib, es, p, n) == Values(Outcomes(lib, es, p))
    decreases |es|
  {
    if es != [] {
      assert forall k :: 0 <= k < |es[1..]| ==> es[1..][k] == es[k + 1];
      OutcomesTail(lib, es, p);
      EvalAllMeans(lib, es[1..], p, n);
      hide Eval, SizeOf, Outcomes;
    }
  }

  /** The values in the order of the outcomes. */
  lemma {:induction false} ValuesExact(outs: seq<Option<Value>>, vs: seq<Value>)
    ensures Values(outs) == Some(vs) <==> |vs| == |outs| && forall k :: 0 <= k < |outs| ==> outs[k] == Some(vs[k])
    decreases |outs|
  {
    if outs != [] && vs != [] {
      ValuesExact(outs[1..], vs[1..]);
      assert vs == [vs[0]] + vs[1..] && forall k :: 0 < k < |outs| ==> outs[k] == outs[1..][k - 1];
      assert forall k :: 0 < k < |vs| ==> vs[k] == vs[1..][k - 1];
    }
  }

  function AsBoolean(lib: Library, o: Option<Value>): Option<bool> {
    if o.None? then None else lib.asBoolean(o.value)
  }

  function AsText(lib: Library, o: Option<Value>): Option<string> {
    if o.None? then None else lib.asString(o.value)
  }

  /** Is every outcome true?  Nothing after the first false one matters. */
  function AllOf(lib: Library, outs: seq<Option<Value>>): Option<bool> {
    if outs == [] then Some(true)
    else
      var b := AsBoolean(lib, outs[0]);
      if b == Some(true) then AllOf(lib, outs[1..]) else b
  }

  /** Is some outcome true?  Nothing after the first true one matters. */
  function AnyOf(lib: Library, outs: seq<Option<Value>>): Option<bool> {
    if outs == [] then Some(false)
    else
      var b := AsBoolean(lib, outs[0]);
      if b == Some(false) then AnyOf(lib, outs[1..]) else b
  }

  function CountOf(lib: Library, outs: seq<Option<Value>>): Option<nat> {
    if outs == [] then Some(0)
    else
      var b := AsBoolean(lib, outs[0]);
      if b.None? then None
      else
        var n := CountOf(lib, outs[1..]);
        if n.None? then None else Some(n.value + if b.value then 1 else 0)
  }

  /** The texts with the delimiter between neighbours. */
  function JoinOf(lib: Library, outs: seq<Option<Value>>, delimiter: string): Option<string> {
    if outs == [] then Some([])
    else
      var t := AsText(lib, outs[0]);
      if t.None? || |outs| == 1 then t
      else
        var more := JoinOf(lib, outs[1..], delimiter);
        if more.None? then None else Some(t.value + delimiter + more.value)
  }

  /** The fold of outcomes. */
  function Aggregate(lib: Library, kind: Kind, outs: seq<Option<Value>>, p: Parameters): Option<Value> {
    match kind
    case All(some) =>
      var r := if some && outs == [] then Some(false) else AllOf(lib, outs);
      if r.None? then None else Some(Truth(r.value))
    case Any =>
      var r := AnyOf(lib, outs);
      if r.None? then None else Some(Truth(r.value))
    case Count =>
      var r := CountOf(lib, outs);
      if r.None? then None else Some(Number(r.value))
    case Join(delimiter) =>
      var d := EvalText(lib, delimiter, p);
      if d.None? then None
      else
        var r := JoinOf(lib, outs, d.value);
        if r.None? then None else Some(Text(r.value))
  }

  lemma {:induction false} AllMeans(lib: Library, subs: seq<Expr>, p: Parameters, acc: bool, n: nat)
    requires Below(subs, n)
    ensures AllTrue(lib, subs, p, acc, n) == if acc then AllOf(lib, Outcomes(lib, subs, p)) else Some(false)
    decreases |subs|
  {
    if subs != [] {
      assert forall k :: 0 <= k < |subs[1..]| ==> subs[1..][k] == subs[k + 1];
      OutcomesTail(lib, subs, p);
      AllMeans(lib, subs[1..], p, true, n);
      AllMeans(lib, subs[1..], p, false, n);
      hide Eval, SizeOf, Outcomes;
    }
  }

  lemma {:induction false} AnyMeans(lib: Library, subs: seq<Expr>, p: Parameters, acc: bool, n: nat)
    requires Below(subs, n)
    ensures AnyTrue(lib, subs, p, acc, n) == if acc then Some(true) else AnyOf(lib, Outcomes(lib, subs, p))
    decreases |subs|
  {
    if subs != [] {
      assert forall k :: 0 <= k < |subs[1..]| ==> subs[1..][k] == subs[k + 1];
      OutcomesTail(lib, subs, p);
      AnyMeans(lib, subs[1..], p, true, n);
      AnyMeans(lib, subs[1..], p, false, n);
      hide Eval, SizeOf, Outcomes;
    }
  }

  lemma {:induction false} CountMeans(lib: Library, subs: seq<Expr>, p: Parameters, acc: nat, n: nat)
    requires Below(subs, n)
    ensures var r := CountOf(lib, Outcomes(lib, subs, p));
            CountTrue(lib, subs, p, acc, n) == if r.None? then None else Some(acc + r.value)
    decreases |subs|
  {
    if subs != [] {
      assert forall k :: 0 <= k < |subs[1..]| ==> subs[1..][k] == subs[k + 1];
      OutcomesTail(lib, subs, p);
      CountMeans(lib, subs[1..], p, acc, n);
      CountMeans(lib, subs[1..], p, acc + 1, n);
      hide Eval, SizeOf, Outcomes;
    }
  }

  lemma {:induction false} JoinMeans(lib: Library, subs: seq<Expr>, p: Parameters, delimiter: string, first: bool,
                                     acc: string, n: nat)
    requires Below(subs, n)
    ensures var r := JoinOf(lib, Outcomes(lib, subs, p), delimiter);
            JoinText(lib, subs, p, delimiter, first, acc, n) ==
            if r.None? then None else Some(acc + (if first || subs == [] then [] else delimiter) + r.value)
    decreases |subs|
  {
    if subs == [] {
      assert acc + [] + [] == acc;
    } else {
      assert forall k :: 0 <= k < |subs[1..]| ==> subs[1..][k] == subs[k + 1];
      OutcomesTail(lib, subs, p);
      hide Eval, SizeOf, Outcomes;
      var t := EvalText(lib, subs[0], p);
      if t.Some? {
        var start := acc + (if first then [] else delimiter);
        JoinMeans(lib, subs[1..], p, delimiter, false, start + t.value, n);
        var more := JoinOf(lib, Outcomes(lib, subs[1..], p), delimiter);
        if more.Some? {
          Associate(start, t.value, delimiter, more.value);
        }
        assert start + t.value + [] + [] == start + t.value;
      }
    }
  }

  lemma Associate(a: string, b: string, c: string, d: string)
    ensures (a + b) + c + d == a + (b + c + d)
  {
  }

  /** A fold over sub-expressions is the fold of their outcomes. */
  lemma FoldedMeans(lib: Library, kind: Kind, subs: seq<Expr>, p: Parameters, n: nat)
    requires Below(subs, n)
    ensures Folded(lib, kind, subs, p, n) == Aggregate(lib, kind, Outcomes(lib, subs, p), p)
  {
    match kind {
      case All(some) => AllMeans(lib, subs, p, !some || subs != [], n);
      case Any => AnyMeans(lib, subs, p, false, n);
      case Count => CountMeans(lib, subs, p, 0, n);
      case Join(delimiter) =>
        var d := EvalText(lib, delimiter, p);
        if d.Some? {
          JoinMeans(lib, subs, p, d.value, true, [], n);
          var r := JoinOf(lib, Outcomes(lib, subs, p), d.value);
          assert r.Some? ==> [] + [] + r.value == r.value;
        }
    }
    hide AllTrue, AnyTrue, CountTrue, JoinText, AllOf, AnyOf, CountOf, JoinOf, EvalText, Outcomes;
  }

  predicate IsMulti(e: Expr) {
    e.Dynamic? && e.multi
  }

  /** One ordinary call on a singular expression. */
  lemma CallMeans(lib: Library, e: Expr, part: Part, p: Parameters)
    ensures Eval(lib, Dynamic(Apply(part.name, [e] + part.args), NoSubs, false), p) ==
            Step(lib, Eval(lib, e, p), part, p)
  {
    var args := [e] + part.args;
    SizeOfEach(args);
    SizeOfEach(part.args);
    assert args[1..] == part.args;
    EvalAllMeans(lib, args, p, SizeOfAll(args));
    EvalAllMeans(lib, part.args, p, SizeOfAll(part.args));
    OutcomesTail(lib, args, p);
    CalledApply(lib, part.name, args, p);
    hide Eval, Outcomes, EvalAll, Called;
  }

  lemma CalledApply(lib: Library, name: string, args: seq<Expr>, p: Parameters)
    requires Below(args, SizeOfAll(args))
    ensures var vs := EvalAll(lib, args, p, SizeOfAll(args));
            Eval(lib, Dynamic(Apply(name, args), NoSubs, false), p) ==
              if vs.None? then None else lib.apply(name, vs.value)
  {
    hide EvalAll, SizeOfAll;
    NoSubsRun(lib, Apply(name, args), p);
  }

  /** A call gets the values of its arguments in their order. */
  lemma CallArguments(lib: Library, name: string, args: seq<Expr>, vs: seq<Value>, p: Parameters)
    requires |vs| == |args| && forall k :: 0 <= k < |args| ==> Eval(lib, args[k], p) == Some(vs[k])
    ensures Eval(lib, Dynamic(Apply(name, args), NoSubs, false), p) == lib.apply(name, vs)
  {
    SizeOfEach(args);
    EvalAllMeans(lib, args, p, SizeOfAll(args));
    ValuesExact(Outcomes(lib, args, p), vs);
    CalledApply(lib, name, args, p);
    hide Eval, EvalAll, Values;
  }

  /** A closure without sub-expressions is run on none. */
  lemma NoSubsRun(lib: Library, fn: Fn, p: Parameters)
    ensures Below([], 1) && Eval(lib, Dynamic(fn, NoSubs, false), p) == RunFn(lib, fn, [], p, 1)
  {
    assert Generate(lib, NoSubs, p) == Some([]) && SizeOfGen(NoSubs) == 1;
    hide RunFn;
    assert Called(lib, fn, NoSubs, p) == RunFn(lib, fn, [], p, 1);
  }

  lemma CallableTail(lib: Library, chain: seq<Part>)
    requires chain != []
    ensures Callable(lib, chain) <==> Callable(lib, chain[..1]) && Callable(lib, chain[1..])
    ensures OnlyOrdinary(chain) ==> OnlyOrdinary(chain[1..])
  {
    assert forall k :: 0 < k < |chain| ==> chain[k] == chain[1..][k - 1];
    assert forall k :: 0 <= k < |chain[1..]| ==> chain[1..][k] == chain[k + 1];
  }

  /** A chain on a singular expression compiles exactly when every call has enough arguments, and is then evaluated
      from left to right. */
  lemma {:induction false} SingularChain(lib: Library, e: Expr, chain: seq<Part>, p: Parameters)
    requires OnlyOrdinary(chain) && !IsMulti(e)
    ensures Compose(lib, e, chain).Some? <==> Callable(lib, chain)
    ensures Callable(lib, chain) ==>
              var r := Compose(lib, e, chain).value;
              !IsMulti(r) && Eval(lib, r, p) == LeftToRight(lib, Eval(lib, e, p), chain, p)
    decreases |chain|
  {
    if chain != [] {
      CallableTail(lib, chain);
      var part := chain[0];
      assert ([e] + part.args)[0] == e;
      if Callable(lib, chain[..1]) {
        var next := Dynamic(Apply(part.name, [e] + part.args), NoSubs, false);
        assert chain[..1][0] == part;
        assert MakeFunction(lib, part.name, [e] + part.args) == Some(next);
        CallMeans(lib, e, part, p);
        hide Eval, Step, MakeFunction, Callable;
        SingularChain(lib, next, chain[1..], p);
      }
    }
  }

  /** The direct meaning of a chain on several outcomes. */
  function Each(lib: Library, outs: seq<Option<Value>>, chain: seq<Part>, p: Parameters): (r: seq<Option<Value>>)
    ensures |r| == |outs| && forall k :: 0 <= k < |r| ==> r[k] == LeftToRight(lib, outs[k], chain, p)
  {
    seq(|outs|, k requires 0 <= k < |outs| => LeftToRight(lib, outs[k], chain, p))
  }

  lemma WrappedMeans(lib: Library, subs: seq<Expr>, part: Part, p: Parameters)
    ensures Outcomes(lib, Wrapped(subs, part.name, part.args), p) == Each(lib, Outcomes(lib, subs, p), [part], p)
  {
    forall k | 0 <= k < |subs|
      ensures Outcomes(lib, Wrapped(subs, part.name, part.args), p)[k] ==
              Each(lib, Outcomes(lib, subs, p), [part], p)[k]
    {
      CallMeans(lib, subs[k], part, p);
      OnePart(lib, Eval(lib, subs[k], p), part, p);
    }
  }

  lemma OnePart(lib: Library, v: Option<Value>, part: Part, p: Parameters)
    ensures LeftToRight(lib, v, [part], p) == Step(lib, v, part, p)
  {
    assert [part][1..] == [];
    hide Step;
  }

  lemma EachTail(lib: Library, outs: seq<Option<Value>>, chain: seq<Part>, p: Parameters)
    requires chain != []
    ensures Each(lib, Each(lib, outs, [chain[0]], p), chain[1..], p) == Each(lib, outs, chain, p)
  {
    forall k | 0 <= k < |outs|
      ensures Each(lib, Each(lib, outs, [chain[0]], p), chain[1..], p)[k] == Each(lib, outs, chain, p)[k]
    {
      OnePart(lib, outs[k], chain[0], p);
    }
  }

  /** What a generator's sub-expressions evaluate to, if it generates any. */
  function GenOutcomes(lib: Library, g: Gen, p: Parameters): Option<seq<Option<Value>>> {
    var subs := Generate(lib, g, p);
    if subs.None? then None else Some(Outcomes(lib, subs.value, p))
  }

  lemma ComposedMeans(lib: Library, g: Gen, part: Part, p: Parameters)
    ensures var o := GenOutcomes(lib, g, p);
            GenOutcomes(lib, Composed(g, part.name, part.args), p) ==
              if o.None? then None else Some(Each(lib, o.value, [part], p))
  {
    var subs := Generate(lib, g, p);
    if subs.Some? {
      WrappedMeans(lib, subs.value, part, p);
    }
    hide Outcomes, Each, Eval;
  }

  /** A chain of ordinary functions on a multi-expression: it compiles exactly when every call has enough arguments,
      keeps the value function, and sends every sub-value through the whole chain from left to right. */
  lemma {:induction false} ChainSubs(lib: Library, e: Expr, chain: seq<Part>, p: Parameters)
    requires OnlyOrdinary(chain) && IsMulti(e)
    ensures Compose(lib, e, chain).Some? <==> Callable(lib, chain)
    ensures Callable(lib, chain) ==>
              var r, o := Compose(lib, e, chain).value, GenOutcomes(lib, e.gen, p);
              && IsMulti(r) && r.fn == e.fn
              && GenOutcomes(lib, r.gen, p) == if o.None? then None else Some(Each(lib, o.value, chain, p))
    decreases |chain|
  {
    if chain == [] {
      var o := GenOutcomes(lib, e.gen, p);
      assert o.Some? ==> Each(lib, o.value, [], p) == o.value;
    } else {
      CallableTail(lib, chain);
      var part := chain[0];
      assert ([e] + part.args)[0] == e && ([e] + part.args)[1..] == part.args;
      if Callable(lib, chain[..1]) {
        var next := Dynamic(e.fn, Composed(e.gen, part.name, part.args), true);
        assert chain[..1][0] == part;
        assert MakeFunction(lib, part.name, [e] + part.args) == Some(next);
        hide MakeFunction, Callable, GenOutcomes;
        ComposedMeans(lib, e.gen, part, p);
        ChainSubs(lib, next, chain[1..], p);
        var o := GenOutcomes(lib, e.gen, p);
        if o.Some? {
          EachTail(lib, o.value, chain, p);
        }
      }
    }
  }

  /** The fold of what a generator generates. */
  function FoldOutcomes(lib: Library, kind: Kind, o: Option<seq<Option<Value>>>, p: Parameters): Option<Value> {
    if o.None? then None else Aggregate(lib, kind, o.value, p)
  }

  lemma FoldMeans(lib: Library, kind: Kind, g: Gen, p: Parameters)
    ensures Eval(lib, Dynamic(Fold(kind), g, true), p) == FoldOutcomes(lib, kind, GenOutcomes(lib, g, p), p)
    ensures Eval(lib, Dynamic(FoldOver(kind, g), NoSubs, false), p) ==
            FoldOutcomes(lib, kind, GenOutcomes(lib, g, p), p)
  {
    var subs := Generate(lib, g, p);
    if subs.Some? {
      FoldedMeans(lib, kind, subs.value, p, SizeOfGen(g));
    }
    hide Folded, Aggregate, Outcomes, Generate;
    NoSubsRun(lib, FoldOver(kind, g), p);
    assert Eval(lib, Dynamic(Fold(kind), g, true), p) == Called(lib, Fold(kind), g, p);
    assert subs.Some? ==> Called(lib, Fold(kind), g, p) == RunFn(lib, Fold(kind), subs.value, p, SizeOfGen(g));
  }

  /** The value of a multi-expression after a chain: its own fold of the chain's results. */
  lemma MultiChain(lib: Library, e: Expr, chain: seq<Part>, p: Parameters)
    requires OnlyOrdinary(chain) && Callable(lib, chain) && IsMulti(e) && e.fn.Fold?
    ensures var r, o := Compose(lib, e, chain), GenOutcomes(lib, e.gen, p);
            r.Some? && Eval(lib, r.value, p) ==
              if o.None? then None else Aggregate(lib, e.fn.kind, Each(lib, o.value, chain, p), p)
  {
    ChainSubs(lib, e, chain, p);
    hide Compose, Callable, GenOutcomes, Aggregate, Each;
    var r := Compose(lib, e, chain).value;
    FoldMeans(lib, e.fn.kind, r.gen, p);
  }

  lemma {:induction false} ComposeConcat(lib: Library, e: Expr, a: seq<Part>, b: seq<Part>)
    ensures var r := Compose(lib, e, a); Compose(lib, e, a + b) == if r.None? then None else Compose(lib, r.value, b)
    decreases |a|
  {
    if a == [] {
      assert a + b == b;
    } else {
      assert (a + b)[1..] == a[1..] + b;
      var next := MakeFunction(lib, a[0].name, [e] + a[0].args);
      if next.Some? {
        ComposeConcat(lib, next.value, a[1..], b);
      }
    }
  }

  /** A final count or join replaces the fold of a multi-expression and gives a singular one; on a singular expression
      it does not compile. */
  lemma FinalFold(lib: Library, e: Expr, chain: seq<Part>, final: Part, p: Parameters)
    requires OnlyOrdinary(chain) && Callable(lib, chain)
    requires (final.name == "count" && final.args == []) || (final.name == "join" && |final.args| == 1)
    ensures var r := Compose(lib, e, chain + [final]);
            && (r.Some? <==> IsMulti(e))
            && (IsMulti(e) ==>
                  var kind, o := if final.name == "count" then Count
                  else Join(final.args[0]), GenOutcomes(lib, e.gen, p);
                  && !IsMulti(r.value)
                  && Eval(lib, r.value, p) ==
                       if o.None? then None else Aggregate(lib, kind, Each(lib, o.value, chain, p), p))
  {
    ComposeConcat(lib, e, chain, [final]);
    if IsMulti(e) {
      ChainSubs(lib, e, chain, p);
      LastPart(lib, Compose(lib, e, chain).value, final);
      FoldMeans(lib, if final.name == "count" then Count else Join(final.args[0]), Compose(lib, e, chain).value.gen, p);
    } else {
      SingularChain(lib, e, chain, p);
      LastPart(lib, Compose(lib, e, chain).value, final);
    }
    hide Compose, Callable, GenOutcomes, Aggregate, Each, Eval;
  }

  lemma LastPart(lib: Library, e: Expr, final: Part)
    requires (final.name == "count" && final.args == []) || (final.name == "join" && |final.args| == 1)
    ensures Compose(lib, e, [final]) ==
            if !IsMulti(e) then None
            else Some(Dynamic(FoldOver(if final.name == "count" then Count else Join(final.args[0]), e.gen), NoSubs,
                   false))
  {
    var args := [e] + final.args;
    assert args[0] == e && |args| == 1 + |final.args| && (final.args != [] ==> args[1] == final.args[0]);
    assert [final][1..] == [];
  }

  /** A side as the original captures it. */
  function SideOf(e: Expr): Side {
    if e.Static? then Fixed(e.val) else Run(e.fn, e.gen)
  }

  /** Concatenation of two expressions; two constants are joined at once. */
  function Plus(lib: Library, a: Expr, b: Expr): Option<Expr> {
    if a.Dynamic? || b.Dynamic? then Some(Dynamic(Concat(SideOf(a), SideOf(b)), NoSubs, false))
    else
      var s, t := lib.asString(a.val), lib.asString(b.val);
      if s.None? || t.None? then None else Some(Static(Text(s.value + t.value)))
  }

  /** In all four cases the value is the concatenation of the two texts; only two constants can fail when compiled,
      and then they would fail when evaluated. */
  lemma PlusConcatenates(lib: Library, a: Expr, b: Expr, p: Parameters)
    ensures var r, s, t := Plus(lib, a, b), EvalText(lib, a, p), EvalText(lib, b, p);
            && (r.None? <==> a.Static? && b.Static? && (s.None? || t.None?))
            && (r.Some? ==> Eval(lib, r.value, p) == if s.None? || t.None? then None else Some(Text(s.value + t.value)))
  {
    SideMeans(lib, a, p);
    SideMeans(lib, b, p);
    if a.Dynamic? || b.Dynamic? {
      CalledConcat(lib, SideOf(a), SideOf(b), p);
    }
    hide SideText, Called;
  }

  lemma SideMeans(lib: Library, e: Expr, p: Parameters)
    ensures SideText(lib, SideOf(e), p) == EvalText(lib, e, p)
  {
    hide Called;
  }

  lemma CalledConcat(lib: Library, l: Side, r: Side, p: Parameters)
    ensures var s, t := SideText(lib, l, p), SideText(lib, r, p);
            Eval(lib, Dynamic(Concat(l, r), NoSubs, false), p) ==
              if s.None? || t.None? then None else Some(Text(s.value + t.value))
  {
    hide SideText;
    NoSubsRun(lib, Concat(l, r), p);
  }

  lemma {:induction false} AllOfMeans(lib: Library, outs: seq<Option<Value>>)
    ensures AllOf(lib, outs) == Some(true) <==> forall k :: 0 <= k < |outs| ==> AsBoolean(lib, outs[k]) == Some(true)
    ensures AnyOf(lib, outs) == Some(false) <==> forall k :: 0 <= k < |outs| ==> AsBoolean(lib, outs[k]) == Some(false)
    decreases |outs|
  {
    if outs != [] {
      AllOfMeans(lib, outs[1..]);
      assert forall k :: 0 < k < |outs| ==> outs[k] == outs[1..][k - 1];
      assert forall k :: 0 <= k < |outs[1..]| ==> outs[1..][k] == outs[k + 1];
    }
  }
}
