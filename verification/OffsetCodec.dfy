/** The 8-byte sign-magnitude code of the control numbers: little endian, sign in the top bit. */
module OffsetCodec {
  import opened Words

  const LIMIT: int := 0x8000_0000_0000_0000

  /** The n low-order base-256 digits of y, lowest first. */
  ghost function Digits(y: nat, n: nat): (b: seq<Byte>)
    ensures |b| == n
  {
    if n == 0 then [] else [y % 256] + Digits(y / 256, n - 1)
  }

  ghost function Value(b: seq<Byte>): (y: nat) {
    if b == [] then 0 else b[0] + 256 * Value(b[1..])
  }

  ghost function Power256(n: nat): (p: nat)
    ensures p > 0
  {
    if n == 0 then 1 else 256 * Power256(n - 1)
  }

  lemma {:induction false} ValueOfDigits(y: nat, n: nat)
    requires y < Power256(n)
    ensures Value(Digits(y, n)) == y
    decreases n
  {
    if n > 0 {
      ValueOfDigits(y / 256, n - 1);
      assert Digits(y, n)[1..] == Digits(y / 256, n - 1);
    }
  }

  lemma {:induction false} DigitsOfValue(b: seq<Byte>)
    ensures Value(b) < Power256(|b|) && Digits(Value(b), |b|) == b
    decreases |b|
  {
    if b != [] {
      DigitsOfValue(b[1..]);
      assert Value(b) % 256 == b[0] && Value(b) / 256 == Value(b[1..]);
    }
  }

  lemma {:induction false} HighDigit(y: nat, n: nat)
    requires n > 0 && y < 128 * Power256(n - 1)
    ensures Digits(y, n)[n - 1] < 128 && y < Power256(n)
    decreases n
  {
    if n > 1 {
      HighDigit(y / 256, n - 1);
    }
  }

  lemma TopDigit(y: nat)
    requires y < LIMIT
    ensures Digits(y, 8)[7] < 128 && y < Power256(8)
  {
    assert Power256(3) == 0x100_0000;
    assert Power256(5) == 0x100_0000_0000;
    assert Power256(7) == 0x100_0000_0000_0000;
    HighDigit(y, 8);
  }

  /** The bytes written for x. */
  ghost function Coded(x: int): (b: seq<Byte>)
    requires -LIMIT < x < LIMIT
    ensures |b| == 8
  {
    var d := Digits(if x < 0 then -x else x, 8);
    if x < 0 then
      TopDigit(-x);
      d[7 := (d[7] as int) + 128]
    else d
  }

  /** Read a number back. */
  function OffTIn(b: seq<Byte>): (x: int)
    requires |b| == 8
    ensures -LIMIT < x < LIMIT
  {
    var y: int := b[7] % 128;
    var y: int := y * 256 + b[6];
    var y: int := y * 256 + b[5];
    var y: int := y * 256 + b[4];
    var y: int := y * 256 + b[3];
    var y: int := y * 256 + b[2];
    var y: int := y * 256 + b[1];
    var y: int := y * 256 + b[0];
    if b[7] >= 128 then -y else y
  }

  lemma OffTInValue(b: seq<Byte>)
    requires |b| == 8
    ensures var m: int := Value(b[7 := b[7] % 128]); OffTIn(b) == if b[7] >= 128 then -m else m
  {
    var c := b[7 := b[7] % 128];
    assert c[1..][1..] == c[2..] && c[2..][1..] == c[3..] && c[3..][1..] == c[4..] && c[4..][1..] == c[5..];
    assert c[5..][1..] == c[6..] && c[6..][1..] == c[7..] && c[7..][1..] == [];
    assert Value(c[7..]) == c[7];
    assert Value(c[6..]) == c[6] + 256 * Value(c[7..]);
    assert Value(c[5..]) == c[5] + 256 * Value(c[6..]);
    assert Value(c[4..]) == c[4] + 256 * Value(c[5..]);
    assert Value(c[3..]) == c[3] + 256 * Value(c[4..]);
    assert Value(c[2..]) == c[2] + 256 * Value(c[3..]);
    assert Value(c[1..]) == c[1] + 256 * Value(c[2..]);
    assert Value(c) == c[0] + 256 * Value(c[1..]);
  }

  /** Every number of the range survives the trip through its eight bytes. */
  lemma CodeRoundTrip(x: int)
    requires -LIMIT < x < LIMIT
    ensures OffTIn(Coded(x)) == x
  {
    var y := if x < 0 then -x else x;
    TopDigit(y);
    ValueOfDigits(y, 8);
    OffTInValue(Coded(x));
    assert Coded(x)[7 := Coded(x)[7] % 128] == Digits(y, 8);
  }

  /** The first byte is the lowest digit of the magnitude, and the top bit of the last one is the sign. */
  lemma CodedBytes(x: int)
    requires -LIMIT < x < LIMIT
    ensures Coded(x)[0] == (if x < 0 then -x else x) % 256
    ensures Coded(x)[7] >= 128 <==> x < 0
  {
    TopDigit(if x < 0 then -x else x);
  }

  lemma {:induction false} ZeroDigits(b: seq<Byte>)
    ensures Value(b) == 0 <==> forall i :: 0 <= i < |b| ==> b[i] == 0
    decreases |b|
  {
    if b != [] {
      ZeroDigits(b[1..]);
      assert b == [b[0]] + b[1..];
    }
  }

  /** The bytes of a magnitude and a sign come back, unless they say minus zero. */
  lemma SignedCanonical(c: seq<Byte>, b: seq<Byte>)
    requires |c| == |b| == 8 && c[7] < 128 && b == c[7 := (c[7] as int) + 128]
    requires Value(c) < LIMIT
    ensures Coded(0 - Value(c)) == b <==> Value(c) != 0
  {
    DigitsOfValue(c);
    if Value(c) == 0 {
      assert Coded(0) == c;
    }
  }

  /** Reading and writing again gives the same bytes, except for the unused negative zero. */
  lemma CodeCanonical(b: seq<Byte>)
    requires |b| == 8
    ensures Coded(OffTIn(b)) == b <==> b != [0, 0, 0, 0, 0, 0, 0, 128]
  {
    var c := b[7 := b[7] % 128];
    OffTInValue(b);
    hide OffTIn, Digits, Coded;
    if b[7] < 128 {
      assert c == b;
      MagnitudeCanonical(b);
    } else {
      assert b == c[7 := (c[7] as int) + 128];
      SignedCanonical(c, b);
      ZeroDigits(c);
      hide Value;
    }
  }

  lemma MagnitudeCanonical(b: seq<Byte>)
    requires |b| == 8 && Value(b) < LIMIT
    ensures Coded(Value(b)) == b
  {
    DigitsOfValue(b);
  }

  /** Store the lowest digit of y at k and drop it. */
  method PutDigit(buf: array<Byte>, ghost at: nat, k: nat, y: nat, ghost whole: seq<Byte>) returns (y': nat)
    requires at <= k < at + 8 <= buf.Length && buf[at..k] + Digits(y, at + 8 - k) == whole
    modifies buf
    ensures y' == y / 256 && buf[at..k + 1] + Digits(y', at + 7 - k) == whole
    ensures forall i :: 0 <= i < buf.Length && i != k ==> buf[i] == old(buf[i])
  {
    buf[k] := y % 256;
    y' := y - buf[k];
    y' := y' / 256;
    assert buf[at..k + 1] == old(buf[at..k]) + [y % 256];
    assert Digits(y, at + 8 - k) == [y % 256] + Digits(y', at + 7 - k);
    assert old(buf[at..k]) + ([y % 256] + Digits(y', at + 7 - k)) ==
           (old(buf[at..k]) + [y % 256]) + Digits(y', at + 7 - k);
  }

  /** Store the eight digits of y at buf[at..at+8]. */
  method PutDigits(buf: array<Byte>, at: nat, y0: nat)
    requires at + 8 <= buf.Length
    modifies buf
    ensures buf[at..at + 8] == Digits(y0, 8)
    ensures forall i :: 0 <= i < buf.Length && !(at <= i < at + 8) ==> buf[i] == old(buf[i])
  {
    hide Digits;
    ghost var whole := Digits(y0, 8);
    var y := PutDigit(buf, at, at, y0, whole);
    y := PutDigit(buf, at, at + 1, y, whole);
    y := PutDigit(buf, at, at + 2, y, whole);
    y := PutDigit(buf, at, at + 3, y, whole);
    y := PutDigit(buf, at, at + 4, y, whole);
    y := PutDigit(buf, at, at + 5, y, whole);
    y := PutDigit(buf, at, at + 6, y, whole);
    y := PutDigit(buf, at, at + 7, y, whole);
  }

  /** Write x to buf[at..at+8]. */
  method OffTOut(x: int, buf: array<Byte>, at: nat)
    requires -LIMIT < x < LIMIT && at + 8 <= buf.Length
    modifies buf
    ensures buf[at..at + 8] == Coded(x)
    ensures forall i :: 0 <= i < buf.Length && !(at <= i < at + 8) ==> buf[i] == old(buf[i])
  {
    hide Digits;
    var y := if x < 0 then -x else x;
    TopDigit(y);
    PutDigits(buf, at, y);
    if x < 0 {
      assert buf[at + 7] == buf[at..at + 8][7];
      buf[at + 7] := (buf[at + 7] as int) + 128;
    }
  }
}
