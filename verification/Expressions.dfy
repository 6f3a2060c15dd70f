/** Compiled expressions: closures of the original as data, their evaluation, and the compilation of call chains. */
module Expressions {
  import opened Options

  datatype Value = Null | Text(s: string) | Truth(b: bool) | Number(n: nat)

  /** The ordinary functions and the value conversions; None stands for an exception. */
  datatype Library = Library(arity: map<string, nat>, apply: (string, seq<Value>) -> Option<Value>,
                             asString: Value -> Option<string>, asBoolean: Value -> Option<bool>)

  /** The attributes of the flow file, if there is one. */
  type Parameters = Option<map<string, string>>

  /** An expression is a constant, or a value function with a generator of sub-expressions. */
  datatype Expr = Static(val: Value) | Dynamic(fn: Fn, gen: Gen, multi: bool)

  datatype Fn =
    | Apply(name: string, args: seq<Expr>)
    | AttributeNamed(arg: Expr)
    | Fold(kind: Kind)
    | FoldOver(kind: Kind, over: Gen)
    | Concat(left: Side, right: Side)

  /** One side of a concatenation: captured closures or a captured constant. */
  datatype Side = Run(fn: Fn, gen: Gen) | Fixed(val: Value)

  /** What a fold makes of the sub-expressions; All may demand that there is at least one. */
  datatype Kind = All(some: bool) | Any | Count | Join(delimiter: Expr)

  datatype Gen =
    | NoSubs
    | AttributesOf(args: seq<Expr>)
    | PiecesOf(text: Expr, delimiter: Expr)
    | Composed(inner: Gen, name: string, args: seq<Expr>)

  function SizeOf(e: Expr): nat {
    match e
    case Static(_) => 1
    case Dynamic(fn, gen, _) => 1 + SizeOfFn(fn) + SizeOfGen(gen)
  }

  function SizeOfFn(f: Fn): nat {
    match f
    case Apply(_, args) => 1 + SizeOfAll(args)
    case AttributeNamed(arg) => 1 + SizeOf(arg)
    case Fold(kind) => 1 + SizeOfKind(kind)
    case FoldOver(kind, over) => 2 + SizeOfKind(kind) + SizeOfGen(over)
    case Concat(l, r) => 1 + SizeOfSide(l) + SizeOfSide(r)
  }

  function SizeOfSide(s: Side): nat {
    match s
    case Run(fn, gen) => 1 + SizeOfFn(fn) + SizeOfGen(gen)
    case Fixed(_) => 1
  }

  function SizeOfKind(k: Kind): nat {
    if k.Join? then 1 + SizeOf(k.delimiter) else 1
  }

  function SizeOfGen(g: Gen): nat {
    match g
    case NoSubs => 1
    case AttributesOf(args) => 3 + SizeOfAll(args)
    case PiecesOf(text, delimiter) => 1 + SizeOf(text) + SizeOf(delimiter)
    case Composed(inner, _, args) => 3 + SizeOfGen(inner) + SizeOfAll(args)
  }

  function SizeOfAll(es: seq<Expr>): nat {
    if es == [] then 0 else SizeOf(es[0]) + SizeOfAll(es[1..])
  }

  /** Every generated sub-expression is smaller than what generates it. */
  ghost predicate Below(es: seq<Expr>, n: nat) {
    forall k :: 0 <= k < |es| ==> SizeOf(es[k]) <= n
  }

  lemma {:induction false} SizeOfEach(es: seq<Expr>)
    ensures Below(es, SizeOfAll(es))
    decreases |es|
  {
    if es != [] {
      SizeOfEach(es[1..]);
      forall k | 0 <= k < |es| ensures SizeOf(es[k]) <= SizeOfAll(es) {
        assert k > 0 ==> es[k] == es[1..][k - 1];
      }
    }
  }

  /** The non-empty pieces between occurrences of c. */
  function Split(s: string, c: char): (r: seq<string>) {
    if s == [] then []
    else if s[0] == c then Split(s[1..], c)
    else
      var n := Until(s, c);
      [s[..n]] + Split(s[n..], c)
  }

  function Until(s: string, c: char): (n: nat)
    ensures n <= |s| && c !in s[..n] && (n < |s| ==> s[n] == c) && (s != [] && s[0] != c ==> n > 0)
  {
    if s == [] || s[0] == c then 0
    else
      var n := 1 + Until(s[1..], c);
      assert s[..n] == [s[0]] + s[1..][..n - 1];
      n
  }

  function Statics(pieces: seq<string>): (r: seq<Expr>)
    ensures |r| == |pieces| && forall k :: 0 <= k < |r| ==> r[k] == Static(Text(pieces[k]))
  {
    seq(|pieces|, k requires 0 <= k < |pieces| => Static(Text(pieces[k])))
  }

  /** One sub-expression for each name: the attribute with that name. */
  function Lookups(args: seq<Expr>): (r: seq<Expr>)
    ensures |r| == |args| && forall k :: 0 <= k < |r| ==> r[k] == Dynamic(AttributeNamed(args[k]), NoSubs, false)
  {
    seq(|args|, k requires 0 <= k < |args| => Dynamic(AttributeNamed(args[k]), NoSubs, false))
  }

  /** Each sub-expression wrapped in one more call. */
  function Wrapped(subs: seq<Expr>, name: string, args: seq<Expr>): (r: seq<Expr>)
    ensures |r| == |subs| && forall k :: 0 <= k < |r| ==> r[k] == Dynamic(Apply(name, [subs[k]] + args), NoSubs, false)
  {
    seq(|subs|, k requires 0 <= k < |subs| => Dynamic(Apply(name, [subs[k]] + args), NoSubs, false))
  }

  lemma LookupsBelow(args: seq<Expr>)
    ensures Below(Lookups(args), 3 + SizeOfAll(args))
  {
    SizeOfEach(args);
  }

  lemma WrappedBelow(subs: seq<Expr>, name: string, args: seq<Expr>, n: nat)
    requires Below(subs, n)
    ensures Below(Wrapped(subs, name, args), 3 + n + SizeOfAll(args))
  {
    forall k | 0 <= k < |subs| ensures SizeOf(Wrapped(subs, name, args)[k]) <= 3 + n + SizeOfAll(args) {
      var all := [subs[k]] + args;
      assert all[1..] == args && SizeOfAll(all) == SizeOf(subs[k]) + SizeOfAll(args);
      assert SizeOf(Dynamic(Apply(name, all), NoSubs, false)) == 3 + SizeOfAll(all);
    }
  }

  /** Evaluate an expression. */
  function Eval(lib: Library, e: Expr, p: Parameters): Option<Value>
    decreases SizeOf(e), 0
  {
    match e
    case Static(v) => Some(v)
    case Dynamic(fn, gen, _) => Called(lib, fn, gen, p)
  }

  /** A value function called with what its generator generates. */
  function Called(lib: Library, fn: Fn, gen: Gen, p: Parameters): Option<Value>
    decreases SizeOfFn(fn) + SizeOfGen(gen), 2
  {
    var subs := Generate(lib, gen, p);
    if subs.None? then None else RunFn(lib, fn, subs.value, p, SizeOfGen(gen))
  }

  /** Run a value function on sub-expressions of bounded size. */
  function RunFn(lib: Library, fn: Fn, subs: seq<Expr>, p: Parameters, ghost n: nat): Option<Value>
    requires Below(subs, n)
    decreases SizeOfFn(fn) + n, 1
  {
    match fn
    case Apply(name, args) =>
      SizeOfEach(args);
      var vs := EvalAll(lib, args, p, SizeOfAll(args));
      if vs.None? then None else lib.apply(name, vs.value)
    case AttributeNamed(arg) =>
      var v := Eval(lib, arg, p);
      if v.None? then None
      else
        var name := lib.asString(v.value);
        if name.None? then None
        else Some(if p.Some? && name.value in p.value then Text(p.value[name.value]) else Null)
    case Fold(kind) => Folded(lib, kind, subs, p, n)
    case FoldOver(kind, over) =>
      var inner := Generate(lib, over, p);
      if inner.None? then None else Folded(lib, kind, inner.value, p, SizeOfGen(over))
    case Concat(l, r) =>
      var a := SideText(lib, l, p);
      if a.None? then None
      else
        var b := SideText(lib, r, p);
        if b.None? then None else Some(Text(a.value + b.value))
  }

  function SideText(lib: Library, s: Side, p: Parameters): Option<string>
    decreases SizeOfSide(s), 0
  {
    var v := match s case Run(fn, gen) => Called(lib, fn, gen, p) case Fixed(val) => Some(val);
    if v.None? then None else lib.asString(v.value)
  }

  function EvalAll(lib: Library, es: seq<Expr>, p: Parameters, ghost n: nat): (r: Option<seq<Value>>)
    requires Below(es, n)
    ensures r.Some? ==> |r.value| == |es|
    decreases n, 1, |es|
  {
    if es == [] then Some([])
    else
      var v := Eval(lib, es[0], p);
      if v.None? then None
      else
        assert forall k :: 0 <= k < |es[1..]| ==> es[1..][k] == es[k + 1];
        var vs := EvalAll(lib, es[1..], p, n);
        if vs.None? then None else Some([v.value] + vs.value)
  }

  function Generate(lib: Library, g: Gen, p: Parameters): (r: Option<seq<Expr>>)
    ensures r.Some? ==> Below(r.value, SizeOfGen(g))
    decreases SizeOfGen(g), 0
  {
    match g
    case NoSubs => Some([])
    case AttributesOf(args) => LookupsBelow(args); Some(Lookups(args))
    case PiecesOf(text, delimiter) =>
      var t := EvalText(lib, text, p);
      if t.None? then None
      else
        var d := EvalText(lib, delimiter, p);
        if d.None? || (d.value == [] && t.value != []) then None
        else Some(Statics(if t.value == [] then [] else Split(t.value, d.value[0])))
    case Composed(inner, name, args) =>
      var subs := Generate(lib, inner, p);
      if subs.None? then None
      else
        WrappedBelow(subs.value, name, args, SizeOfGen(inner));
        Some(Wrapped(subs.value, name, args))
  }

  function EvalText(lib: Library, e: Expr, p: Parameters): Option<string>
    decreases SizeOf(e), 1
  {
    var v := Eval(lib, e, p);
    if v.None? then None else lib.asString(v.value)
  }

  /** Aggregate the sub-expressions, evaluating them one by one and no further than needed. */
  function Folded(lib: Library, kind: Kind, subs: seq<Expr>, p: Parameters, ghost n: nat): Option<Value>
    requires Below(subs, n)
    decreases SizeOfKind(kind) + n, 0
  {
    match kind
    case All(some) =>
      var r := AllTrue(lib, subs, p, !some || subs != [], n);
      if r.None? then None else Some(Truth(r.value))
    case Any =>
      var r := AnyTrue(lib, subs, p, false, n);
      if r.None? then None else Some(Truth(r.value))
    case Count =>
      var r := CountTrue(lib, subs, p, 0, n);
      if r.None? then None else Some(Number(r.value))
    case Join(delimiter) =>
      var d := EvalText(lib, delimiter, p);
      if d.None? then None
      else
        var r := JoinText(lib, subs, p, d.value, true, [], n);
        if r.None? then None else Some(Text(r.value))
  }

  function EvalBoolean(lib: Library, e: Expr, p: Parameters): Option<bool>
    decreases SizeOf(e), 1
  {
    var v := Eval(lib, e, p);
    if v.None? then None else lib.asBoolean(v.value)
  }

  function AllTrue(lib: Library, subs: seq<Expr>, p: Parameters, acc: bool, ghost n: nat): Option<bool>
    requires Below(subs, n)
    decreases n, 2, |subs|
  {
    if subs == [] then Some(acc)
    else
      assert forall k :: 0 <= k < |subs[1..]| ==> subs[1..][k] == subs[k + 1];
      if !acc then AllTrue(lib, subs[1..], p, acc, n)
      else
        var b := EvalBoolean(lib, subs[0], p);
        if b.None? then None else AllTrue(lib, subs[1..], p, b.value, n)
  }

  function AnyTrue(lib: Library, subs: seq<Expr>, p: Parameters, acc: bool, ghost n: nat): Option<bool>
    requires Below(subs, n)
    decreases n, 2, |subs|
  {
    if subs == [] then Some(acc)
    else
      assert forall k :: 0 <= k < |subs[1..]| ==> subs[1..][k] == subs[k + 1];
      if acc then AnyTrue(lib, subs[1..], p, acc, n)
      else
        var b := EvalBoolean(lib, subs[0], p);
        if b.None? then None else AnyTrue(lib, subs[1..], p, b.value, n)
  }

  function CountTrue(lib: Library, subs: seq<Expr>, p: Parameters, acc: nat, ghost n: nat): Option<nat>
    requires Below(subs, n)
    decreases n, 2, |subs|
  {
    if subs == [] then Some(acc)
    else
      assert forall k :: 0 <= k < |subs[1..]| ==> subs[1..][k] == subs[k + 1];
      var b := EvalBoolean(lib, subs[0], p);
      if b.None? then None else CountTrue(lib, subs[1..], p, if b.value then acc + 1 else acc, n)
  }

  function JoinText(lib: Library, subs: seq<Expr>, p: Parameters, delimiter: string, first: bool, acc: string,
                    ghost n: nat): Option<string>
    requires Below(subs, n)
    decreases n, 2, |subs|
  {
    if subs == [] then Some(acc)
    else
      assert forall k :: 0 <= k < |subs[1..]| ==> subs[1..][k] == subs[k + 1];
      var t := EvalText(lib, subs[0], p);
      if t.None? then None
      else JoinText(lib, subs[1..], p, delimiter, false, acc + (if first then [] else delimiter) + t.value, n)
  }

  datatype Part = Part(name: string, args: seq<Expr>)

  /** Functions that are not applied value by value. */
  predicate Special(name: string) {
    name in {"allAttributes", "anyAttribute", "allDelineatedValues", "anyDelineatedValue", "count", "join"}
  }

  /** A call of an ordinary function; a multi-expression as first argument keeps its fold and gets a longer
      generator. */
  function MakeOrdinary(lib: Library, name: string, args: seq<Expr>): Option<Expr> {
    if name !in lib.arity || |args| < lib.arity[name] then None
    else if args != [] && args[0].Dynamic? && args[0].multi then
      Some(Dynamic(args[0].fn, Composed(args[0].gen, name, args[1..]), true))
    else Some(Dynamic(Apply(name, args), NoSubs, false))
  }

  /** Compile one call; None if the original throws. */
  function MakeFunction(lib: Library, name: string, args: seq<Expr>): Option<Expr> {
    if name == "allAttributes" || name == "anyAttribute" then
      if args == [] then None
      else Some(Dynamic(Fold(if name == "allAttributes" then All(false) else Any), AttributesOf(args), true))
    else if name == "allDelineatedValues" || name == "anyDelineatedValue" then
      if |args| != 2 then None
      else Some(Dynamic(Fold(if name == "allDelineatedValues" then All(true) else Any), PiecesOf(args[0], args[1]),
             true))
    else if name == "count" then
      if |args| != 1 || !(args[0].Dynamic? && args[0].multi) then None
      else Some(Dynamic(FoldOver(Count, args[0].gen), NoSubs, false))
    else if name == "join" then
      if |args| != 2 || !(args[0].Dynamic? && args[0].multi) then None
      else Some(Dynamic(FoldOver(Join(args[1]), args[0].gen), NoSubs, false))
    else MakeOrdinary(lib, name, args)
  }

  /** Compile a chain of calls, each on the result of the one before. */
  function Compose(lib: Library, e: Expr, chain: seq<Part>): Option<Expr>
    decreases |chain|
  {
    if chain == [] then Some(e)
    else
      var next := MakeFunction(lib, chain[0].name, [e] + chain[0].args);
      if next.None? then None else Compose(lib, next.value, chain[1..])
  }

  /** The loop of the original. */
  method MakeFunctionComposition(lib: Library, arg: Expr, chain: seq<Part>) returns (r: Option<Expr>)
    ensures r == Compose(lib, arg, chain)
  {
    var expr := arg;
    assert chain[0..] == chain;
    for i := 0 to |chain|
      invariant Compose(lib, expr, chain[i..]) == Compose(lib, arg, chain)
    {
      var completeArgs := [expr] + chain[i].args;
      var next := MakeFunction(lib, chain[i].name, completeArgs);
      assert chain[i..][0] == chain[i] && chain[i..][1..] == chain[i + 1..];
      if next.None? {
        return None;
      }
      expr := next.value;
    }
    r := Some(expr);
  }

  /** The direct meaning of one call on an outcome: the value first, then the other arguments, then the function. */
  function Step(lib: Library, v: Option<Value>, part: Part, p: Parameters): Option<Value> {
    if v.None? then None
    else
      SizeOfEach(part.args);
      var vs := EvalAll(lib, part.args, p, SizeOfAll(part.args));
      if vs.None? then None else lib.apply(part.name, [v.value] + vs.value)
  }

  /** The direct meaning of a chain: from left to right. */
  function LeftToRight(lib: Library, v: Option<Value>, chain: seq<Part>, p: Parameters): Option<Value>
    decreases |chain|
  {
    if chain == [] then v else LeftToRight(lib, Step(lib, v, chain[0], p), chain[1..], p)
  }

  /** All calls are ordinary and have enough arguments. */
  predicate Callable(lib: Library, chain: seq<Part>) {
    forall k :: 0 <= k < |chain| ==>
      !Special(chain[k].name) && chain[k].name in lib.arity && lib.arity[chain[k].name] <= |chain[k].args| + 1
  }

  predicate OnlyOrdinary(chain: seq<Part>) {
    forall k :: 0 <= k < |chain| ==> !Special(chain[k].name)
  }
}
