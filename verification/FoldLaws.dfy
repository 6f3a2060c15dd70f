/** What the folds over attributes and over the pieces of a text mean, in terms of the attributes and the pieces. */
module FoldLaws {
  import opened Options
  import opened Expressions
  import opened ExpressionLaws

  /** The first outcome that is not b decides: it is the opposite of b. */
  ghost predicate FirstOther(bs: seq<Option<bool>>, b: bool) {
    exists k :: 0 <= k < |bs| && bs[k] == Some(!b) && forall j :: 0 <= j < k ==> bs[j] == Some(b)
  }

  ghost predicate AllSame(bs: seq<Option<bool>>, b: bool) {
    forall k :: 0 <= k < |bs| ==> bs[k] == Some(b)
  }

  function Booleans(lib: Library, outs: seq<Option<Value>>): (r: seq<Option<bool>>)
    ensures |r| == |outs| && forall k :: 0 <= k < |r| ==> r[k] == AsBoolean(lib, outs[k])
  {
    seq(|outs|, k requires 0 <= k < |outs| => AsBoolean(lib, outs[k]))
  }

  lemma FirstOtherTail(bs: seq<Option<bool>>, b: bool)
    requires bs != []
    ensures FirstOther(bs, b) <==> bs[0] == Some(!b) || (bs[0] == Some(b) && FirstOther(bs[1..], b))
    ensures AllSame(bs, b) <==> bs[0] == Some(b) && AllSame(bs[1..], b)
  {
    if bs[0] == Some(b) && FirstOther(bs[1..], b) {
      var k :| 0 <= k < |bs[1..]| && bs[1..][k] == Some(!b) && forall j :: 0 <= j < k ==> bs[1..][j] == Some(b);
      assert bs[k + 1] == Some(!b);
      forall j | 0 <= j < k + 1 ensures bs[j] == Some(b) {
        assert j > 0 ==> bs[j] == bs[1..][j - 1];
      }
    }
    if FirstOther(bs, b) && bs[0] != Some(!b) {
      var k :| 0 <= k < |bs| && bs[k] == Some(!b) && forall j :: 0 <= j < k ==> bs[j] == Some(b);
      assert bs[1..][k - 1] == Some(!b);
    }
    assert forall k :: 0 < k < |bs| ==> bs[k] == bs[1..][k - 1];
  }

  /** The conjunction is true if all outcomes are, false if the first that is not true is false, and fails otherwise;
      the disjunction is its dual. */
  lemma {:induction false} AllAnyExact(lib: Library, outs: seq<Option<Value>>)
    ensures var bs := Booleans(lib, outs);
            && (AllOf(lib, outs) == Some(true) <==> AllSame(bs, true))
            && (AllOf(lib, outs) == Some(false) <==> FirstOther(bs, true))
            && (AnyOf(lib, outs) == Some(false) <==> AllSame(bs, false))
            && (AnyOf(lib, outs) == Some(true) <==> FirstOther(bs, false))
    decreases |outs|
  {
    if outs != [] {
      var bs := Booleans(lib, outs);
      assert bs[1..] == Booleans(lib, outs[1..]);
      AllAnyExact(lib, outs[1..]);
      FirstOtherTail(bs, true);
      FirstOtherTail(bs, false);
      hide FirstOther, AllSame, Booleans;
    }
  }

  /** The value of an attribute: its text, or null if the flow file has no such attribute or there is no flow file. */
  function AttributeValue(p: Parameters, name: string): Value {
    if p.Some? && name in p.value then Text(p.value[name]) else Null
  }

  /** The attribute that an argument names, put through a chain of calls and read as a boolean. */
  function NamedOutcome(lib: Library, arg: Expr, chain: seq<Part>, p: Parameters): Option<bool> {
    var name := EvalText(lib, arg, p);
    AsBoolean(lib, LeftToRight(lib, if name.None? then None else Some(AttributeValue(p, name.value)), chain, p))
  }

  function NamedOutcomes(lib: Library, args: seq<Expr>, chain: seq<Part>, p: Parameters): (r: seq<Option<bool>>)
    ensures |r| == |args| && forall k :: 0 <= k < |r| ==> r[k] == NamedOutcome(lib, args[k], chain, p)
  {
    seq(|args|, k requires 0 <= k < |args| => NamedOutcome(lib, args[k], chain, p))
  }

  /** A piece of text, put through a chain of calls and read as a boolean. */
  function PieceOutcomes(lib: Library, pieces: seq<string>, chain: seq<Part>, p: Parameters): (r: seq<Option<bool>>)
    ensures |r| == |pieces|
    ensures forall k :: 0 <= k < |r| ==>
      r[k] == AsBoolean(lib, LeftToRight(lib, Some(Text(pieces[k])), chain, p))
  {
    seq(|pieces|, k requires 0 <= k < |pieces| =>
      AsBoolean(lib, LeftToRight(lib, Some(Text(pieces[k])), chain, p)))
  }

  /** The call by this name, with a chain behind it, compiles and evaluates to v. */
  ghost predicate Yields(lib: Library, name: string, args: seq<Expr>, chain: seq<Part>, p: Parameters,
                         v: Option<Value>) {
    && MakeFunction(lib, name, args).Some?
    && Compose(lib, MakeFunction(lib, name, args).value, chain).Some?
    && Eval(lib, Compose(lib, MakeFunction(lib, name, args).value, chain).value, p) == v
  }

  lemma LookupMeans(lib: Library, arg: Expr, p: Parameters)
    ensures var name := EvalText(lib, arg, p);
            Eval(lib, Dynamic(AttributeNamed(arg), NoSubs, false), p) ==
              if name.None? then None else Some(AttributeValue(p, name.value))
  {
    NoSubsRun(lib, AttributeNamed(arg), p);
  }

  lemma LookupsMean(lib: Library, args: seq<Expr>, chain: seq<Part>, p: Parameters)
    ensures var o := GenOutcomes(lib, AttributesOf(args), p);
            o.Some? && Booleans(lib, Each(lib, o.value, chain, p)) == NamedOutcomes(lib, args, chain, p)
  {
    var o := GenOutcomes(lib, AttributesOf(args), p);
    assert Generate(lib, AttributesOf(args), p) == Some(Lookups(args));
    forall k | 0 <= k < |args|
      ensures Booleans(lib, Each(lib, o.value, chain, p))[k] == NamedOutcomes(lib, args, chain, p)[k]
    {
      LookupMeans(lib, args[k], p);
    }
  }

  /** Gaps and pieces in turn, starting and ending with a gap. */
  ghost function Woven(gaps: seq<string>, pieces: seq<string>): string
    requires |gaps| == |pieces| + 1
  {
    if pieces == [] then gaps[0] else gaps[0] + (pieces[0] + Woven(gaps[1..], pieces[1..]))
  }

  ghost predicate Only(s: string, c: char) {
    forall k :: 0 <= k < |s| ==> s[k] == c
  }

  /** The pieces are the maximal runs without c: they are not empty, hold no c, and only c lies between them. */
  ghost predicate Runs(gaps: seq<string>, pieces: seq<string>, c: char) {
    && |gaps| == |pieces| + 1
    && (forall k :: 0 <= k < |gaps| ==> Only(gaps[k], c))
    && (forall k :: 0 < k < |pieces| ==> gaps[k] != [])
    && (forall k :: 0 <= k < |pieces| ==> pieces[k] != [] && c !in pieces[k])
  }

  lemma {:induction false} SplitGap(gap: string, s: string, c: char)
    requires Only(gap, c)
    ensures Split(gap + s, c) == Split(s, c)
    decreases |gap|
  {
    if gap == [] {
      assert gap + s == s;
    } else {
      assert (gap + s)[1..] == gap[1..] + s;
      SplitGap(gap[1..], s, c);
    }
  }

  lemma {:induction false} UntilEnd(piece: string, s: string, c: char)
    requires c !in piece && (s == [] || s[0] == c)
    ensures Until(piece + s, c) == |piece|
    decreases |piece|
  {
    if piece == [] {
      assert piece + s == s;
    } else {
      assert (piece + s)[1..] == piece[1..] + s;
      UntilEnd(piece[1..], s, c);
    }
  }

  lemma SplitPiece(piece: string, s: string, c: char)
    requires piece != [] && c !in piece && (s == [] || s[0] == c)
    ensures Split(piece + s, c) == [piece] + Split(s, c)
  {
    UntilEnd(piece, s, c);
    assert (piece + s)[..|piece|] == piece && (piece + s)[|piece|..] == s;
    assert piece[0] in piece;
  }

  lemma RunsTail(gaps: seq<string>, pieces: seq<string>, c: char)
    requires Runs(gaps, pieces, c) && pieces != []
    ensures Runs(gaps[1..], pieces[1..], c)
    ensures var rest := Woven(gaps[1..], pieces[1..]); rest == [] || rest[0] == c
  {
    if |pieces| > 1 {
      assert gaps[1..][0] == gaps[1] && Only(gaps[1], c);
    } else {
      assert gaps[1..][0] == gaps[1] && Only(gaps[1], c) && pieces[1..] == [];
    }
  }

  /** Whatever way a text is written as maximal runs, these are the pieces it is split into. */
  lemma {:induction false} SplitUnique(gaps: seq<string>, pieces: seq<string>, c: char)
    requires Runs(gaps, pieces, c)
    ensures Split(Woven(gaps, pieces), c) == pieces
    decreases |pieces|
  {
    assert Only(gaps[0], c);
    if pieces == [] {
      SplitGap(gaps[0], "", c);
      assert gaps[0] + "" == gaps[0];
    } else {
      var rest := Woven(gaps[1..], pieces[1..]);
      RunsTail(gaps, pieces, c);
      SplitUnique(gaps[1..], pieces[1..], c);
      SplitGap(gaps[0], pieces[0] + rest, c);
      SplitPiece(pieces[0], rest, c);
    }
  }

  /** Every text is made of such runs. */
  lemma {:induction false} SplitRuns(s: string, c: char) returns (gaps: seq<string>)
    ensures Runs(gaps, Split(s, c), c) && Woven(gaps, Split(s, c)) == s
    decreases |s|
  {
    if s == [] {
      gaps := [[]];
    } else if s[0] == c {
      var more := SplitRuns(s[1..], c);
      gaps := [[c] + more[0]] + more[1..];
      LongerGap(more, Split(s[1..], c), c);
      assert s == [c] + s[1..];
    } else {
      var n := Until(s, c);
      var more := SplitRuns(s[n..], c);
      gaps := [[]] + more;
      NewRun(s[..n], more, Split(s[n..], c), c);
      assert s == s[..n] + s[n..] && [s[..n]] + Split(s[n..], c) == Split(s, c);
    }
  }

  /** What has no gap in front starts with a piece. */
  lemma FirstRun(gaps: seq<string>, pieces: seq<string>, c: char)
    requires Runs(gaps, pieces, c)
    ensures pieces != [] && gaps[0] == [] ==> Woven(gaps, pieces) != [] && Woven(gaps, pieces)[0] != c
  {
    if pieces != [] {
      assert pieces[0][0] in pieces[0];
    }
  }

  /** A run in front of what starts with c, or of nothing. */
  lemma NewRun(piece: string, gaps: seq<string>, pieces: seq<string>, c: char)
    requires piece != [] && c !in piece && Runs(gaps, pieces, c)
    requires Woven(gaps, pieces) == [] || Woven(gaps, pieces)[0] == c
    ensures Runs([[]] + gaps, [piece] + pieces, c)
    ensures Woven([[]] + gaps, [piece] + pieces) == piece + Woven(gaps, pieces)
  {
    assert ([[]] + gaps)[1..] == gaps && ([piece] + pieces)[1..] == pieces;
    assert [] + (piece + Woven(gaps, pieces)) == piece + Woven(gaps, pieces);
    FirstRun(gaps, pieces, c);
    hide Woven, Only;
    assert forall k :: 0 < k < |gaps| + 1 ==> ([[]] + gaps)[k] == gaps[k - 1];
    assert forall k :: 0 < k < |pieces| + 1 ==> ([piece] + pieces)[k] == pieces[k - 1];
  }

  lemma LongerGap(gaps: seq<string>, pieces: seq<string>, c: char)
    requires Runs(gaps, pieces, c)
    ensures var more := [[c] + gaps[0]] + gaps[1..];
            Runs(more, pieces, c) && Woven(more, pieces) == [c] + Woven(gaps, pieces)
  {
    var more := [[c] + gaps[0]] + gaps[1..];
    assert more[1..] == gaps[1..] && Only(gaps[0], c);
    assert forall k :: 0 < k < |gaps| ==> more[k] == gaps[k];
    if pieces != [] {
      var rest := pieces[0] + Woven(gaps[1..], pieces[1..]);
      assert [c] + gaps[0] + rest == [c] + (gaps[0] + rest);
    }
  }

  /** The pieces of a text between delimiters, by the first character of the delimiter; a missing text or delimiter
      fails, and so does an empty delimiter unless there is nothing to split. */
  function Pieces(s: Option<string>, d: Option<string>): Option<seq<string>> {
    if s.None? || d.None? then None
    else if s.value == [] then Some([])
    else if d.value == [] then None
    else Some(Split(s.value, d.value[0]))
  }

  lemma PiecesMean(lib: Library, text: Expr, delimiter: Expr, chain: seq<Part>, p: Parameters)
    ensures var o, pieces := GenOutcomes(lib, PiecesOf(text, delimiter), p),
                Pieces(EvalText(lib, text, p), EvalText(lib, delimiter, p));
            && (o.None? <==> pieces.None?)
            && (o.Some? ==>
                  Booleans(lib, Each(lib, o.value, chain, p)) == PieceOutcomes(lib, pieces.value, chain, p))
  {
    hide EvalText;
    var o := GenOutcomes(lib, PiecesOf(text, delimiter), p);
    var pieces := Pieces(EvalText(lib, text, p), EvalText(lib, delimiter, p));
    if pieces.Some? {
      assert Generate(lib, PiecesOf(text, delimiter), p) == Some(Statics(pieces.value));
      forall k | 0 <= k < |pieces.value|
        ensures Booleans(lib, Each(lib, o.value, chain, p))[k] == PieceOutcomes(lib, pieces.value, chain, p)[k]
      {
        assert Eval(lib, Statics(pieces.value)[k], p) == Some(Text(pieces.value[k]));
      }
    }
  }

  /** b if all outcomes are b, the opposite if the first other outcome is, and failure otherwise. */
  ghost function Decided(bs: seq<Option<bool>>, b: bool): Option<Value> {
    if AllSame(bs, b) then Some(Truth(b)) else if FirstOther(bs, b) then Some(Truth(!b)) else None
  }

  lemma DecidedOnce(bs: seq<Option<bool>>, b: bool)
    ensures !(AllSame(bs, b) && FirstOther(bs, b))
  {
  }

  lemma AllDecided(lib: Library, outs: seq<Option<Value>>, p: Parameters)
    ensures Aggregate(lib, All(false), outs, p) == Decided(Booleans(lib, outs), true)
    ensures Aggregate(lib, All(true), outs, p) ==
            if outs == [] then Some(Truth(false)) else Decided(Booleans(lib, outs), true)
    ensures Aggregate(lib, Any, outs, p) == Decided(Booleans(lib, outs), false)
  {
    AllAnyExact(lib, outs);
    DecidedOnce(Booleans(lib, outs), true);
    DecidedOnce(Booleans(lib, outs), false);
    hide AllOf, AnyOf, AllSame, FirstOther, Booleans;
  }

  /** How many arguments the folds take, and that count and join need a multi-expression. */
  lemma FoldsCompile(lib: Library, args: seq<Expr>)
    ensures MakeFunction(lib, "allAttributes", args).Some? <==> args != []
    ensures MakeFunction(lib, "anyAttribute", args).Some? <==> args != []
    ensures MakeFunction(lib, "allDelineatedValues", args).Some? <==> |args| == 2
    ensures MakeFunction(lib, "anyDelineatedValue", args).Some? <==> |args| == 2
    ensures MakeFunction(lib, "count", args).Some? <==> |args| == 1 && IsMulti(args[0])
    ensures MakeFunction(lib, "join", args).Some? <==> |args| == 2 && IsMulti(args[0])
  {
  }

  /** allAttributes and a chain: true exactly when every named attribute, put through the chain, converts to true,
      false exactly when the first that does not converts to false; anyAttribute is its dual. */
  lemma AttributesMean(lib: Library, args: seq<Expr>, chain: seq<Part>, p: Parameters)
    requires args != [] && OnlyOrdinary(chain) && Callable(lib, chain)
    ensures var bs := NamedOutcomes(lib, args, chain, p);
            && Yields(lib, "allAttributes", args, chain, p, Decided(bs, true))
            && Yields(lib, "anyAttribute", args, chain, p, Decided(bs, false))
  {
    var all, any := MakeFunction(lib, "allAttributes", args).value, MakeFunction(lib, "anyAttribute", args).value;
    assert all.gen == any.gen == AttributesOf(args);
    MultiChain(lib, all, chain, p);
    MultiChain(lib, any, chain, p);
    LookupsMean(lib, args, chain, p);
    hide Compose, Eval, Callable, GenOutcomes, Each, Booleans, NamedOutcomes, Decided, Aggregate;
    AllDecided(lib, Each(lib, GenOutcomes(lib, AttributesOf(args), p).value, chain, p), p);
  }

  /** The same over the pieces of a text; with no piece at all both forms are false. */
  lemma DelineatedMean(lib: Library, args: seq<Expr>, chain: seq<Part>, p: Parameters)
    requires |args| == 2 && OnlyOrdinary(chain) && Callable(lib, chain)
    ensures var pieces := Pieces(EvalText(lib, args[0], p), EvalText(lib, args[1], p));
            if pieces.None? then
              && Yields(lib, "allDelineatedValues", args, chain, p, None)
              && Yields(lib, "anyDelineatedValue", args, chain, p, None)
            else
              var bs := PieceOutcomes(lib, pieces.value, chain, p);
              && Yields(lib, "allDelineatedValues", args, chain, p,
                   if pieces.value == [] then Some(Truth(false)) else Decided(bs, true))
              && Yields(lib, "anyDelineatedValue", args, chain, p, Decided(bs, false))
  {
    var all := MakeFunction(lib, "allDelineatedValues", args).value;
    var any := MakeFunction(lib, "anyDelineatedValue", args).value;
    assert all.gen == any.gen == PiecesOf(args[0], args[1]);
    MultiChain(lib, all, chain, p);
    MultiChain(lib, any, chain, p);
    PiecesMean(lib, args[0], args[1], chain, p);
    hide Compose, Eval, EvalText, Callable, GenOutcomes, Each, Booleans, PieceOutcomes, Decided, Aggregate, Pieces;
    var o := GenOutcomes(lib, all.gen, p);
    if o.Some? {
      AllDecided(lib, Each(lib, o.value, chain, p), p);
    }
  }

  /** How many outcomes are true, unless one fails. */
  ghost function Counted(bs: seq<Option<bool>>): Option<nat> {
    if None in bs then None else Some(multiset(bs)[Some(true)])
  }

  lemma CountedCons(b: Option<bool>, bs: seq<Option<bool>>)
    ensures Counted([b] + bs) ==
            if b.None? || Counted(bs).None? then None else Some(Counted(bs).value + if b.value then 1 else 0)
  {
    assert multiset([b] + bs) == multiset{b} + multiset(bs);
    assert None in [b] + bs <==> b == None || None in bs by {
      if None in bs {
        var k :| 0 <= k < |bs| && bs[k] == None;
        assert ([b] + bs)[k + 1] == None;
      }
      assert ([b] + bs)[0] == b;
    }
  }

  lemma {:induction false} CountExact(lib: Library, outs: seq<Option<Value>>)
    ensures CountOf(lib, outs) == Counted(Booleans(lib, outs))
    decreases |outs|
  {
    var bs := Booleans(lib, outs);
    if outs != [] {
      CountExact(lib, outs[1..]);
      assert bs == [AsBoolean(lib, outs[0])] + Booleans(lib, outs[1..]);
      CountedCons(bs[0], Booleans(lib, outs[1..]));
      hide Counted, Booleans;
    }
  }

  /** A count behind the chain gives the number of named attributes that convert to true. */
  lemma CountMeans(lib: Library, name: string, args: seq<Expr>, chain: seq<Part>, p: Parameters)
    requires name == "allAttributes" || name == "anyAttribute"
    requires args != [] && OnlyOrdinary(chain) && Callable(lib, chain)
    ensures var n := Counted(NamedOutcomes(lib, args, chain, p));
            Yields(lib, name, args, chain + [Part("count", [])], p, if n.None? then None else Some(Number(n.value)))
  {
    var e := MakeFunction(lib, name, args).value;
    FinalFold(lib, e, chain, Part("count", []), p);
    LookupsMean(lib, args, chain, p);
    hide Compose, Eval, Callable, GenOutcomes, Each, Booleans, NamedOutcomes, Counted, CountOf;
    CountExact(lib, Each(lib, GenOutcomes(lib, AttributesOf(args), p).value, chain, p));
  }

  /** A join fails exactly when an outcome has no text. */
  lemma {:induction false} JoinFails(lib: Library, outs: seq<Option<Value>>, d: string)
    ensures JoinOf(lib, outs, d).None? <==> exists k :: 0 <= k < |outs| && AsText(lib, outs[k]).None?
    decreases |outs|
  {
    if outs != [] {
      JoinFails(lib, outs[1..], d);
      assert forall k :: 0 < k < |outs| ==> outs[k] == outs[1..][k - 1];
      assert forall k :: 0 <= k < |outs[1..]| ==> outs[1..][k] == outs[k + 1];
    }
  }

  /** Between any two neighbours stands one delimiter, and nowhere else. */
  lemma {:induction false} JoinSplits(lib: Library, a: seq<Option<Value>>, b: seq<Option<Value>>, d: string)
    requires a != [] && b != [] && JoinOf(lib, a, d).Some? && JoinOf(lib, b, d).Some?
    ensures JoinOf(lib, a + b, d) == Some(JoinOf(lib, a, d).value + d + JoinOf(lib, b, d).value)
    ensures JoinOf(lib, [a[0]], d) == AsText(lib, a[0]) && JoinOf(lib, [], d) == Some("")
    decreases |a|
  {
    assert (a + b)[1..] == a[1..] + b && (a + b)[0] == a[0];
    if |a| > 1 {
      JoinSplits(lib, a[1..], b, d);
      var x, y, z := AsText(lib, a[0]).value, JoinOf(lib, a[1..], d).value, JoinOf(lib, b, d).value;
      assert x + d + (y + d + z) == (x + d + y) + d + z;
    } else {
      assert a[1..] + b == b;
    }
  }
}
