/** Lexicographic order on the suffixes of a byte string.  A suffix is named by
    its start; the empty suffix starts at |s| and is the smallest of all. */
module SuffixOrder {
  import opened Words

  /** Suffix a comes strictly before suffix b. */
  ghost predicate Less(s: seq<Byte>, a: int, b: int)
    requires 0 <= a <= |s| && 0 <= b <= |s|
    decreases |s| - a
  {
    b < |s| && (a == |s| || s[a] < s[b] || (s[a] == s[b] && Less(s, a + 1, b + 1)))
  }

  /** Suffixes a and b are the same or both have h bytes and agree on them. */
  ghost predicate Share(s: seq<Byte>, h: int, a: int, b: int) {
    a == b || (0 <= a <= a + h <= |s| && 0 <= b <= b + h <= |s| && s[a..a + h] == s[b..b + h])
  }

  /** The number of leading bytes on which two strings agree. */
  function Lcp(x: seq<Byte>, y: seq<Byte>): (k: nat)
    ensures k <= |x| && k <= |y| && x[..k] == y[..k]
    ensures k < |x| && k < |y| ==> x[k] != y[k]
  {
    if |x| == 0 || |y| == 0 || x[0] != y[0] then 0
    else
      var k := Lcp(x[1..], y[1..]);
      assert x[..k + 1] == [x[0]] + x[1..][..k];
      assert y[..k + 1] == [y[0]] + y[1..][..k];
      k + 1
  }

  /** The textbook order: at the first difference x has ended or has the smaller byte. */
  ghost predicate Before(x: seq<Byte>, y: seq<Byte>) {
    var k := Lcp(x, y);
    k < |y| && (k == |x| || x[k] < y[k])
  }

  lemma {:induction false} LessIsBefore(s: seq<Byte>, a: int, b: int)
    requires 0 <= a <= |s| && 0 <= b <= |s|
    ensures Less(s, a, b) <==> Before(s[a..], s[b..])
    decreases |s| - a
  {
    if a < |s| && b < |s| && s[a] == s[b] {
      assert s[a..][1..] == s[a + 1..] && s[b..][1..] == s[b + 1..];
      LessIsBefore(s, a + 1, b + 1);
    }
  }

  /** Behind a shared prefix of h bytes, the order is decided by what follows it. */
  lemma {:induction false} LessAfterShared(s: seq<Byte>, h: nat, a: int, b: int)
    requires 0 <= a && a + h <= |s| && 0 <= b && b + h <= |s| && Share(s, h, a, b)
    ensures Less(s, a, b) <==> Less(s, a + h, b + h)
    decreases h
  {
    if a == b {
      LessIrreflexive(s, a);
      LessIrreflexive(s, a + h);
    } else if h > 0 {
      assert s[a] == s[a..a + h][0] == s[b..b + h][0] == s[b];
      assert s[a + 1..a + h] == s[a..a + h][1..] == s[b..b + h][1..] == s[b + 1..b + h];
      LessAfterShared(s, h - 1, a + 1, b + 1);
    }
  }

  lemma {:induction false} LessIrreflexive(s: seq<Byte>, a: int)
    requires 0 <= a <= |s|
    ensures !Less(s, a, a)
    decreases |s| - a
  {
    if a < |s| {
      LessIrreflexive(s, a + 1);
    }
  }

  /** Prefix doubling: sharing h bytes, and h more after them, is sharing 2h. */
  lemma ShareDouble(s: seq<Byte>, h: nat, a: int, b: int)
    requires Share(s, h, a, b) && Share(s, h, a + h, b + h)
    ensures Share(s, 2 * h, a, b)
  {
    if a != b {
      assert s[a..a + 2 * h] == s[a..a + h] + s[a + h..a + 2 * h];
      assert s[b..b + 2 * h] == s[b..b + h] + s[b + h..b + 2 * h];
    }
  }
}
