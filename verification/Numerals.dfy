/** Which number a text stands for: the reader of integer attributes against decimal notation. */
module Numerals {
  import opened Words
  import opened Options
  import opened Sequences
  import opened FlowFiles

  function Digit(d: int): char
    requires 0 <= d < 10
  {
    "0123456789"[d]
  }

  /** The decimal text of n, without leading zeros. */
  function Decimal(n: nat): (s: string)
    ensures s != []
  {
    if n < 10 then [Digit(n)] else Decimal(n / 10) + [Digit(n % 10)]
  }

  /** The decimal text of an int. */
  function Written(n: Int): string {
    if n < 0 then "-" + Decimal(0 - n) else Decimal(n)
  }

  ghost predicate AllDigits(s: string) {
    forall k :: 0 <= k < |s| ==> IsDigit(s[k])
  }

  ghost predicate AllSpace(s: string) {
    forall k :: 0 <= k < |s| ==> IsSpace(s[k])
  }

  ghost predicate AllZero(s: string) {
    forall k :: 0 <= k < |s| ==> s[k] == '0'
  }

  /** No digit follows. */
  predicate Stops(tail: string) {
    tail == [] || !IsDigit(tail[0])
  }

  lemma DigitRead(d: int)
    requires 0 <= d < 10
    ensures IsDigit(Digit(d)) && Digit(d) as int - '0' as int == d
  {
  }

  lemma {:induction false} DecimalDigits(n: nat)
    ensures AllDigits(Decimal(n))
    decreases n
  {
    DigitRead(n % 10);
    if n >= 10 {
      DecimalDigits(n / 10);
    }
  }

  lemma {:induction false} LeadingConcat(a: string, b: string, seen: nat)
    requires AllDigits(a)
    ensures LeadingDigits(a + b, seen) == LeadingDigits(b, LeadingDigits(a, seen))
    decreases |a|
  {
    if a == [] {
      assert a + b == b;
    } else {
      assert (a + b)[1..] == a[1..] + b;
      LeadingConcat(a[1..], b, 10 * seen + (a[0] as int - '0' as int));
    }
  }

  lemma {:induction false} LeadingZeros(zeros: string, s: string)
    requires AllZero(zeros)
    ensures LeadingDigits(zeros + s, 0) == LeadingDigits(s, 0)
    decreases |zeros|
  {
    if zeros == [] {
      assert zeros + s == s;
    } else {
      assert (zeros + s)[1..] == zeros[1..] + s;
      LeadingZeros(zeros[1..], s);
    }
  }

  lemma OneDigit(d: int, tail: string, seen: nat)
    requires 0 <= d < 10 && Stops(tail)
    ensures LeadingDigits([Digit(d)] + tail, seen) == 10 * seen + d
  {
    DigitRead(d);
    assert ([Digit(d)] + tail)[1..] == tail;
  }

  /** Reading the decimal text of n gives n, whatever follows it. */
  lemma {:induction false} DecimalRead(n: nat, tail: string)
    requires Stops(tail)
    ensures LeadingDigits(Decimal(n) + tail, 0) == n
    decreases n
  {
    if n < 10 {
      OneDigit(n, tail, 0);
    } else {
      var last := [Digit(n % 10)];
      DecimalDigits(n / 10);
      DecimalRead(n / 10, []);
      assert Decimal(n / 10) + [] == Decimal(n / 10);
      assert Decimal(n) + tail == Decimal(n / 10) + (last + tail);
      LeadingConcat(Decimal(n / 10), last + tail, 0);
      OneDigit(n % 10, tail, n / 10);
    }
  }

  lemma {:induction false} SkipBlanks(blanks: string, s: string)
    requires AllSpace(blanks)
    ensures StoI(blanks + s) == StoI(s)
    decreases |blanks|
  {
    if blanks == [] {
      assert blanks + s == s;
    } else {
      assert (blanks + s)[1..] == blanks[1..] + s;
      SkipBlanks(blanks[1..], s);
    }
  }

  predicate IsSign(sign: string) {
    sign == "" || sign == "+" || sign == "-"
  }

  function Signed(sign: string, n: nat): int {
    if sign == "-" then 0 - n else n
  }

  /** The number as an int, unless it leaves the range. */
  function InRange(v: int): Option<Int> {
    if -INT_MAX - 1 <= v <= INT_MAX then Some(v) else None
  }

  /** Blanks, a sign, leading zeros, a number in decimal, and any text that does not start with a digit: the signed
      number, or nothing if it is no int. */
  lemma ReadsNumber(blanks: string, sign: string, zeros: string, n: nat, tail: string)
    requires AllSpace(blanks) && IsSign(sign) && AllZero(zeros) && Stops(tail)
    ensures StoI(blanks + (sign + (zeros + (Decimal(n) + tail)))) == InRange(Signed(sign, n))
  {
    var digits := zeros + (Decimal(n) + tail);
    DecimalRead(n, tail);
    LeadingZeros(zeros, Decimal(n) + tail);
    DecimalDigits(n);
    SkipBlanks(blanks, sign + digits);
    assert IsDigit(digits[0]) by {
      assert zeros == [] ==> digits[0] == Decimal(n)[0];
    }
    hide LeadingDigits, Decimal;
    assert sign == "" ==> sign + digits == digits;
    assert sign != "" ==> (sign + digits)[0] == sign[0] && (sign + digits)[1..] == digits;
  }

  /** Blanks and a sign that no digit follows: nothing. */
  lemma ReadsNothing(blanks: string, sign: string, tail: string)
    requires AllSpace(blanks) && IsSign(sign) && Stops(tail)
    requires sign == "" && tail != [] ==> !IsSpace(tail[0]) && tail[0] != '+' && tail[0] != '-'
    ensures StoI(blanks + (sign + tail)) == None
  {
    SkipBlanks(blanks, sign + tail);
    assert sign == "" ==> sign + tail == tail;
    assert sign != "" ==> (sign + tail)[0] == sign[0] && (sign + tail)[1..] == tail;
  }

  /** Every int is read back from its decimal text, behind blanks and in front of other text as well. */
  lemma ReadsWritten(n: Int, blanks: string, tail: string)
    requires AllSpace(blanks) && Stops(tail)
    ensures StoI(blanks + (Written(n) + tail)) == Some(n) && StoI(Written(n)) == Some(n)
  {
    var sign, m := if n < 0 then "-" else "", if n < 0 then 0 - n else n;
    ReadsNumber(blanks, sign, "", m, tail);
    ReadsNumber("", sign, "", m, "");
    assert sign + ("" + (Decimal(m) + tail)) == Written(n) + tail;
    assert "" + (sign + ("" + (Decimal(m) + ""))) == Written(n);
  }

  /** A text of digits is some zeros and a number in decimal. */
  lemma {:induction false} DigitsAreDecimal(s: string) returns (zeros: string, n: nat)
    requires s != [] && AllDigits(s)
    ensures AllZero(zeros) && s == zeros + Decimal(n)
    decreases |s|
  {
    var k := |s| - 1;
    var d := s[k] as int - '0' as int;
    CharDigit(s[k]);
    assert s == s[..k] + [s[k]];
    if k == 0 {
      zeros, n := "", d;
      OneDecimal(d);
    } else {
      hide Decimal;
      zeros, n := DigitsAreDecimal(s[..k]);
      if n == 0 {
        OneDecimal(0);
        OneDecimal(d);
        zeros, n := zeros + "0", d;
      } else {
        NextDecimal(n, d);
        n := 10 * n + d;
      }
    }
  }

  lemma CharDigit(c: char)
    requires IsDigit(c)
    ensures var d := c as int - '0' as int; 0 <= d < 10 && Digit(d) == c
  {
  }

  lemma OneDecimal(d: int)
    requires 0 <= d < 10
    ensures Decimal(d) == [Digit(d)]
  {
  }

  lemma NextDecimal(n: nat, d: int)
    requires n > 0 && 0 <= d < 10
    ensures Decimal(10 * n + d) == Decimal(n) + [Digit(d)]
  {
    assert (10 * n + d) / 10 == n && (10 * n + d) % 10 == d;
  }

  /** How many digits, or blanks, a text starts with. */
  lemma {:induction false} DigitRun(s: string) returns (k: nat)
    ensures k <= |s| && AllDigits(s[..k]) && Stops(s[k..])
    decreases |s|
  {
    if Stops(s) {
      k := 0;
    } else {
      k := DigitRun(s[1..]);
      k := k + 1;
      assert s[..k] == [s[0]] + s[1..][..k - 1] && s[k..] == s[1..][k - 1..];
    }
  }

  lemma {:induction false} SpaceRun(s: string) returns (k: nat)
    ensures k <= |s| && AllSpace(s[..k]) && (k < |s| ==> !IsSpace(s[k]))
    decreases |s|
  {
    if s == [] || !IsSpace(s[0]) {
      k := 0;
    } else {
      k := SpaceRun(s[1..]);
      k := k + 1;
      assert s[..k] == [s[0]] + s[1..][..k - 1];
    }
  }

  /** Every text has one of the two forms, so what it stands for is known: it is an int exactly when a digit follows
      the blanks and the sign and the signed number is in range. */
  lemma ReadsAny(s: string) returns (blanks: string, sign: string, zeros: string, n: nat, tail: string, number: bool)
    ensures AllSpace(blanks) && IsSign(sign) && AllZero(zeros) && Stops(tail)
    ensures s == blanks + (sign + if number then zeros + (Decimal(n) + tail) else tail)
    ensures !number && sign == "" && tail != [] ==> !IsSpace(tail[0]) && tail[0] != '+' && tail[0] != '-'
    ensures StoI(s) == if number then InRange(Signed(sign, n)) else None
  {
    hide StoI, Decimal;
    var i := SpaceRun(s);
    blanks := s[..i];
    var rest := s[i..];
    var digits;
    sign, digits := SplitSign(rest);
    var k := DigitRun(digits);
    tail, number, zeros, n := digits[k..], k > 0, "", 0;
    assert s == blanks + (sign + digits);
    if number {
      zeros, n := DigitsAreDecimal(digits[..k]);
      assert digits == digits[..k] + tail;
      Associate(zeros, Decimal(n), tail);
      ReadsNumber(blanks, sign, zeros, n, tail);
    } else {
      assert tail == digits;
      ReadsNothing(blanks, sign, tail);
    }
  }

  lemma SplitSign(s: string) returns (sign: string, digits: string)
    requires s == [] || !IsSpace(s[0])
    ensures IsSign(sign) && s == sign + digits
    ensures sign == "" && digits != [] ==> !IsSpace(digits[0]) && digits[0] != '+' && digits[0] != '-'
  {
    if s != [] && (s[0] == '+' || s[0] == '-') {
      sign, digits := [s[0]], s[1..];
    } else {
      sign, digits := "", s;
    }
  }
}
