/** The base64 codec behind the base64Encode and base64Decode expression functions; section 4 of RFC 4648. */
module Base64 {
  import opened Sequences
  import opened Words
  import opened Options

  /** The character for a six-bit value: Table 1 of RFC 4648. */
  function Symbol(d: int): char
    requires 0 <= d < 64
  {
    if d < 26 then ('A' as int + d) as char
    else if d < 52 then ('a' as int + d - 26) as char
    else if d < 62 then ('0' as int + d - 52) as char
    else if d == 62 then '+' else '/'
  }

  /** strchr in the table: the index of c, where the terminator of the table counts as entry 64, or -1. */
  function Lookup(c: char): (d: int)
    ensures -1 <= d <= 64
    ensures 0 <= d < 64 ==> Symbol(d) == c
  {
    if 'A' <= c <= 'Z' then c as int - 'A' as int
    else if 'a' <= c <= 'z' then c as int - 'a' as int + 26
    else if '0' <= c <= '9' then c as int - '0' as int + 52
    else if c == '+' then 62
    else if c == '/' then 63
    else if c == '\0' then 64
    else -1
  }

  const UPPER := "ABCDEFGHIJKLMNOPQRSTUVWXYZ"
  const LOWER := "abcdefghijklmnopqrstuvwxyz"
  const FIGURES := "0123456789"
  const TABLE := UPPER + LOWER + FIGURES + "+/"

  lemma UpperAt(d: int)
    requires 0 <= d < 26
    ensures UPPER[d] as int == 'A' as int + d
  {
  }

  lemma LowerAt(d: int)
    requires 0 <= d < 26
    ensures LOWER[d] as int == 'a' as int + d
  {
  }

  lemma FigureAt(d: int)
    requires 0 <= d < 10
    ensures FIGURES[d] as int == '0' as int + d
  {
  }

  lemma TableAt(d: int)
    requires 0 <= d < 64
    ensures |TABLE| == 64 && TABLE[d] == Symbol(d)
  {
    assert |UPPER| == 26 && |LOWER| == 26 && |FIGURES| == 10;
    if d < 26 {
      UpperAt(d);
      assert TABLE[d] == UPPER[d];
    } else if d < 52 {
      LowerAt(d - 26);
      assert TABLE[d] == LOWER[d - 26];
    } else if d < 62 {
      FigureAt(d - 52);
      assert TABLE[d] == FIGURES[d - 52];
    }
  }

  /** The characters are those of the table, each at its own index, and the search finds that index and no other. */
  lemma TableExact(c: char)
    ensures |TABLE| == 64 && forall d :: 0 <= d < 64 ==> Symbol(d) == TABLE[d]
    ensures 0 <= Lookup(c) < 64 <==> c in TABLE
    ensures c in TABLE ==> TABLE[Lookup(c)] == c
    ensures Lookup(c) == 64 <==> c == '\0'
  {
    forall d | 0 <= d < 64 ensures |TABLE| == 64 && Symbol(d) == TABLE[d] && Lookup(TABLE[d]) == d {
      TableAt(d);
      LookupSymbol(d);
    }
    TableAt(0);
    hide Symbol;
  }

  lemma LookupSymbol(d: int)
    requires 0 <= d < 64
    ensures Lookup(Symbol(d)) == d && Symbol(d) != '=' && Symbol(d) != '\0'
  {
  }

  /** The four six-bit values of three bytes. */
  function Sixes(a: Byte, b: Byte, c: Byte): (r: seq<int>)
    ensures |r| == 4 && forall k :: 0 <= k < 4 ==> 0 <= r[k] < 64
  {
    [a / 4, a % 4 * 16 + b / 16, b % 16 * 4 + c / 64, c % 64]
  }

  /** The 24 bits of four six-bit values. */
  function Word(d: seq<int>): int
    requires |d| == 4
  {
    ((d[0] * 64 + d[1]) * 64 + d[2]) * 64 + d[3]
  }

  /** Together they are the same 24 bits. */
  lemma SixesAreTheBits(a: Byte, b: Byte, c: Byte)
    ensures Word(Sixes(a, b, c)) == (a * 256 + b) * 256 + c
  {
  }

  /** Four characters for one to three bytes; missing ones are padded with equals signs. */
  function Group(a: Byte, b: Byte, c: Byte, parts: int): (r: string)
    ensures |r| == 4
  {
    var d := Sixes(a, b, c);
    [Symbol(d[0]), Symbol(d[1]), if parts < 2 then '=' else Symbol(d[2]), if parts < 3 then '=' else Symbol(d[3])]
  }

  function FirstGroup(s: seq<Byte>): (r: string)
    requires s != []
    ensures |r| == 4
  {
    Group(s[0], if |s| > 1 then s[1] else 0, if |s| > 2 then s[2] else 0, |s|)
  }

  /** The encoding: four characters for every three bytes, the last group padded. */
  function Encoded(s: seq<Byte>): string {
    if s == [] then [] else FirstGroup(s) + if |s| <= 3 then [] else Encoded(s[3..])
  }

  lemma {:induction false} EncodedLength(s: seq<Byte>)
    ensures |Encoded(s)| == (|s| + 2) / 3 * 4
    decreases |s|
  {
    if |s| > 3 {
      EncodedLength(s[3..]);
      assert (|s| + 2) / 3 == (|s| - 1) / 3 + 1;
    }
  }

  /** Length of the string that starts at this memory. */
  function StrLen(mem: seq<Byte>): (n: nat)
    requires 0 in mem
    ensures n < |mem| && mem[n] == 0 && 0 !in mem[..n]
  {
    if mem[0] == 0 then 0 else
      assert mem == [mem[0]] + mem[1..];
      var n := 1 + StrLen(mem[1..]);
      assert mem[..n] == [mem[0]] + mem[1..][..n - 1];
      n
  }

  /** Write one group of four characters and a terminator, as snprintf with size 5 does. */
  method Print(output: array<char>, at: int, a: char, b: char, c: char, d: char)
    requires 0 <= at && at + 5 <= output.Length
    modifies output
    ensures output[..at] == old(output[..at]) && output[at..at + 4] == [a, b, c, d]
  {
    output[at] := a;
    output[at + 1] := b;
    output[at + 2] := c;
    output[at + 3] := d;
    output[at + 4] := '\0';
  }

  /** Take up to three bytes of input; missing bytes are zero. */
  method NextGroup(indata: seq<Byte>, pos: nat) returns (a: Byte, b: Byte, c: Byte, parts: int)
    requires pos < |indata|
    ensures 1 <= parts <= 3 && parts == (if |indata| - pos < 3 then |indata| - pos else 3)
    ensures a == indata[pos] && b == (if parts > 1 then indata[pos + 1] else 0)
    ensures c == (if parts > 2 then indata[pos + 2] else 0)
  {
    var ibuf: seq<Byte> := [];
    parts := 0;
    for i := 0 to 3
      invariant |ibuf| == i && parts == (if |indata| - pos < i then |indata| - pos else i)
      invariant forall k :: 0 <= k < i ==> ibuf[k] == if k < parts then indata[pos + k] else 0
    {
      if pos + parts < |indata| {
        ibuf := ibuf + [indata[pos + parts]];
        parts := parts + 1;
      } else {
        ibuf := ibuf + [0];
      }
    }
    a, b, c := ibuf[0], ibuf[1], ibuf[2];
  }

  /** Room for the text and its terminator: exactly enough when one byte is left over, one or two to spare otherwise. */
  lemma Fits(n: nat)
    ensures (n + 2) / 3 * 4 + 1 <= n * 4 / 3 + 4
    ensures (n + 2) / 3 * 4 + 1 == n * 4 / 3 + 4 <==> n % 3 == 1
  {
    var k, r := n / 3, n % 3;
    assert n == 3 * k + r && 0 <= r < 3;
    assert n * 4 / 3 == 4 * k + 4 * r / 3;
    assert (n + 2) / 3 == k + (r + 2) / 3;
  }

  /** Encode the next one to three bytes. */
  method EncodeGroup(indata: seq<Byte>, pos: nat, base64data: array<char>, output: nat) returns (parts: int)
    requires pos < |indata| && output + 5 <= base64data.Length
    modifies base64data
    ensures parts == (if |indata| - pos < 3 then |indata| - pos else 3)
    ensures base64data[..output + 4] + Encoded(indata[pos + parts..]) ==
            old(base64data[..output]) + Encoded(indata[pos..])
  {
    var a, b, c;
    a, b, c, parts := NextGroup(indata, pos);
    var d := Sixes(a, b, c);
    if parts == 1 {
      Print(base64data, output, Symbol(d[0]), Symbol(d[1]), '=', '=');
    } else if parts == 2 {
      Print(base64data, output, Symbol(d[0]), Symbol(d[1]), Symbol(d[2]), '=');
    } else {
      Print(base64data, output, Symbol(d[0]), Symbol(d[1]), Symbol(d[2]), Symbol(d[3]));
    }
    assert base64data[output..output + 4] == FirstGroup(indata[pos..]);
    assert |indata| - pos > 3 ==> indata[pos..][3..] == indata[pos + parts..];
    assert base64data[..output + 4] == base64data[..output] + base64data[output..output + 4];
    Associate(base64data[..output], FirstGroup(indata[pos..]), Encoded(indata[pos + parts..]));
  }

  /** Encode all bytes group by group. */
  method EncodeInto(indata: seq<Byte>, base64data: array<char>) returns (output: nat)
    requires 3 * base64data.Length >= 4 * |indata| + 10
    modifies base64data
    ensures output < base64data.Length && base64data[..output] == Encoded(indata)
  {
    var pos := 0;
    output := 0;
    assert indata[0..] == indata;
    ghost var k := 0;
    hide Encoded;
    while pos < |indata|
      invariant 0 <= pos <= |indata| && output == 4 * k && pos <= 3 * k <= pos + 2 && (pos < |indata| ==> pos == 3 * k)
      invariant output < base64data.Length
      invariant base64data[..output] + Encoded(indata[pos..]) == Encoded(indata)
    {
      assert output + 5 <= base64data.Length;
      var parts := EncodeGroup(indata, pos, base64data, output);
      output := output + 4;
      pos := pos + parts;
      k := k + 1;
    }
    NoneLeft(indata[pos..], base64data[..output]);
  }

  lemma NoneLeft(rest: seq<Byte>, done: string)
    requires rest == []
    ensures done + Encoded(rest) == done
  {
  }

  /** A size of zero stands for a terminated string.  All writes fit the buffer of size n*4/3+4. */
  method Encode(mem: seq<Byte>, size: nat) returns (base64data: array<char>, length: nat)
    requires size <= |mem| && (size == 0 ==> 0 in mem)
    ensures fresh(base64data)
    ensures var n := if size == 0 then StrLen(mem) else size;
            && length == (n + 2) / 3 * 4 < base64data.Length == n * 4 / 3 + 4
            && base64data[..length] == Encoded(mem[..n]) && base64data[length] == '\0' && '\0' !in base64data[..length]
  {
    var insize := if size == 0 then StrLen(mem) else size;
    EncodedText(mem[..insize]);
    EncodedLength(mem[..insize]);
    base64data := new char[insize * 4 / 3 + 4];
    hide Encoded, StrLen, Text, Pad;
    length := EncodeInto(mem[..insize], base64data);
    base64data[length] := '\0';
    assert base64data[..length] == Encoded(mem[..insize]);
  }

  /** How many equals signs end the encoding of n bytes. */
  function Pad(n: nat): (p: nat)
    ensures p <= 2
  {
    if n == 0 then 0 else if n < 3 then 3 - n else Pad(n - 3)
  }

  /** Table characters followed by this many equals signs. */
  ghost predicate Text(r: string, pad: nat) {
    && pad <= |r|
    && (forall k :: 0 <= k < |r| - pad ==> 0 <= Lookup(r[k]) < 64)
    && (forall k :: |r| - pad <= k < |r| ==> r[k] == '=')
  }

  lemma GroupText(a: Byte, b: Byte, c: Byte, parts: int)
    requires 1 <= parts
    ensures Text(Group(a, b, c, parts), if parts < 3 then 3 - parts else 0)
  {
    var d := Sixes(a, b, c);
    hide Sixes, Symbol, Lookup;
    LookupSymbol(d[0]);
    LookupSymbol(d[1]);
    LookupSymbol(d[2]);
    LookupSymbol(d[3]);
  }

  lemma {:induction false} EncodedText(s: seq<Byte>)
    ensures Text(Encoded(s), Pad(|s|))
    ensures forall k :: 0 <= k < |Encoded(s)| ==> Encoded(s)[k] != '\0'
    decreases |s|
  {
    if s != [] {
      GroupText(s[0], if |s| > 1 then s[1] else 0, if |s| > 2 then s[2] else 0, |s|);
      if |s| > 3 {
        EncodedText(s[3..]);
        TextConcat(FirstGroup(s), Encoded(s[3..]), Pad(|s| - 3));
      }
    }
    TextClean(Encoded(s), Pad(|s|));
  }

  lemma TextClean(r: string, pad: nat)
    requires Text(r, pad)
    ensures forall k :: 0 <= k < |r| ==> r[k] != '\0'
  {
  }

  lemma TextConcat(group: string, rest: string, pad: nat)
    requires Text(group, 0) && Text(rest, pad)
    ensures Text(group + rest, pad)
  {
    hide Lookup;
  }

  /** The bits gathered from characters: equals signs count as zero and unknown characters are skipped. */
  function Bits(q: string): nat {
    if q == [] then 0
    else
      var x, c := Bits(q[..|q| - 1]), q[|q| - 1];
      if Lookup(c) >= 0 then x * 64 + Lookup(c) else if c == '=' then x * 64 else x
  }

  function Bytes(x: nat): (r: seq<Byte>)
    ensures |r| == 3
  {
    [x / 256 / 256 % 256, x / 256 % 256, x % 256]
  }

  method DecodeQuantum(src: string, at: nat) returns (dest: seq<Byte>)
    requires at + 4 <= |src|
    ensures dest == Bytes(Bits(src[at..at + 4]))
  {
    var x: nat := 0;
    for i := 0 to 4
      invariant x == Bits(src[at..at + i])
    {
      assert src[at..at + i + 1][..i] == src[at..at + i];
      var found := Lookup(src[at + i]);
      if found >= 0 {
        x := x * 64 + found;
      } else if src[at + i] == '=' {
        x := x * 64;
      }
    }
    var low := x % 256;
    var mid := x / 256;
    dest := [mid / 256 % 256, mid % 256, low];
  }

  /** The bytes of the first n quanta. */
  function Quanta(src: string, n: nat): (r: seq<Byte>)
    requires 4 * n <= |src|
    ensures |r| == 3 * n
    decreases n
  {
    if n == 0 then [] else Bytes(Bits(src[..4])) + Quanta(src[4..], n - 1)
  }

  /** Number of characters before the first equals sign or the terminator. */
  function BodyLength(src: string): (n: nat)
    requires '\0' in src
    ensures n < |src| && (src[n] == '=' || src[n] == '\0') && forall k :: 0 <= k < n ==> src[k] != '=' && src[k] != '\0'
  {
    if src[0] == '=' || src[0] == '\0' then 0
    else
      assert src == [src[0]] + src[1..];
      1 + BodyLength(src[1..])
  }

  /** At most two equals signs are counted. */
  function EqualsTerm(src: string): (e: nat)
    requires '\0' in src
    ensures e <= 2 && BodyLength(src) + e < |src|
  {
    var n := BodyLength(src);
    if src[n] != '=' then 0
    else
      assert exists k :: n < k < |src| && src[k] == '\0';
      if src[n + 1] == '=' then 2 else 1
  }

  /** What a terminated text decodes to: its whole quanta, cut by the equals signs; nothing if there is none. */
  function Decoded(src: string): Option<seq<Byte>>
    requires '\0' in src
  {
    var e := EqualsTerm(src);
    var n := (BodyLength(src) + e) / 4;
    if n == 0 then None else Some(Quanta(src, n)[..3 * n - e])
  }

  /** Nothing is read behind the terminator, every write is inside the buffer, and a text without a whole quantum gives
      no buffer at all. */
  method Decode(src: string) returns (newstr: array?<Byte>, rawlen: nat)
    requires '\0' in src
    ensures newstr == null <==> Decoded(src) == None
    ensures newstr == null ==> rawlen == 0
    ensures newstr != null ==> fresh(newstr) && newstr.Length == rawlen + 4
    ensures newstr != null ==> newstr[rawlen] == 0 && Decoded(src) == Some(newstr[..rawlen])
  {
    hide BodyLength, EqualsTerm, Quanta, Decoded;
    var length, equalsTerm := FindEnd(src);
    var numQuantums := (length + equalsTerm) / 4;
    DecodedParts(src, numQuantums, equalsTerm);
    if numQuantums <= 0 {
      return null, 0;
    }
    rawlen := numQuantums * 3 - equalsTerm;
    newstr := new Byte[rawlen + 4];
    DecodeInto(src, numQuantums, equalsTerm, newstr);
  }

  lemma DecodedParts(src: string, n: nat, e: nat)
    requires '\0' in src && e == EqualsTerm(src) && n == (BodyLength(src) + e) / 4
    ensures 4 * n <= |src| && e <= 2
    ensures Decoded(src) == if n == 0 then None else Some(Quanta(src, n)[..3 * n - e])
  {
    hide Quanta;
  }

  method FindEnd(src: string) returns (length: nat, equalsTerm: nat)
    requires '\0' in src
    ensures length == BodyLength(src) && equalsTerm == EqualsTerm(src)
  {
    length := 0;
    while src[length] != '=' && src[length] != '\0'
      invariant 0 <= length <= BodyLength(src)
      decreases |src| - length
    {
      length := length + 1;
    }
    equalsTerm := 0;
    if src[length] == '=' {
      equalsTerm := equalsTerm + 1;
      if src[length + equalsTerm] == '=' {
        equalsTerm := equalsTerm + 1;
      }
    }
  }

  method DecodeInto(src: string, numQuantums: nat, equalsTerm: nat, newstr: array<Byte>)
    requires numQuantums > 0 && equalsTerm <= 2 && 4 * numQuantums <= |src|
    requires newstr.Length == 3 * numQuantums - equalsTerm + 4
    modifies newstr
    ensures var rawlen := 3 * numQuantums - equalsTerm;
            newstr[..rawlen] == Quanta(src, numQuantums)[..rawlen] && newstr[rawlen] == 0
  {
    var last := numQuantums - 1;
    hide Bits, Bytes, Quanta;
    assert Quanta(src, 0) == [];
    for i := 0 to last
      invariant newstr[..3 * i] == Quanta(src, i)
    {
      DecodeNext(src, i, 0, newstr);
    }
    DecodeNext(src, last, equalsTerm, newstr);
    newstr[3 * last + (3 - equalsTerm)] := 0;
  }

  /** Decode one quantum behind those already decoded, leaving out its last `cut` bytes. */
  method DecodeNext(src: string, i: nat, cut: nat, newstr: array<Byte>)
    requires 4 * i + 4 <= |src| && cut <= 2 && 3 * i + 3 - cut <= newstr.Length && newstr[..3 * i] == Quanta(src, i)
    modifies newstr
    ensures newstr[..3 * i + 3 - cut] == Quanta(src, i + 1)[..3 * i + 3 - cut]
  {
    QuantaNext(src, i);
    hide Bits, Bytes, Quanta;
    var dest := DecodeQuantum(src, 4 * i);
    PutBytes(newstr, 3 * i, dest[..3 - cut]);
    assert newstr[..3 * i + 3 - cut] == newstr[..3 * i] + newstr[3 * i..3 * i + 3 - cut];
  }

  method PutBytes(newstr: array<Byte>, at: nat, bytes: seq<Byte>)
    requires at + |bytes| <= newstr.Length
    modifies newstr
    ensures newstr[..at] == old(newstr[..at]) && newstr[at..at + |bytes|] == bytes
  {
    for i := 0 to |bytes|
      invariant newstr[..at] == old(newstr[..at]) && newstr[at..at + i] == bytes[..i]
    {
      newstr[at + i] := bytes[i];
    }
  }

  lemma {:induction false} QuantaNext(src: string, n: nat)
    requires 4 * n + 4 <= |src|
    ensures Quanta(src, n + 1) == Quanta(src, n) + Bytes(Bits(src[4 * n..4 * n + 4]))
    decreases n
  {
    if n > 0 {
      QuantaNext(src[4..], n - 1);
      assert src[4..][4 * (n - 1)..4 * (n - 1) + 4] == src[4 * n..4 * n + 4];
      Associate(Bytes(Bits(src[..4])), Quanta(src[4..], n - 1), Bytes(Bits(src[4 * n..4 * n + 4])));
    } else {
      assert Quanta(src[4..], 0) == [];
    }
  }

  /** Four characters, all known or equals signs, make 24 bits. */
  lemma BitsOfFour(q: string, d: seq<int>)
    requires |q| == |d| == 4 && forall k :: 0 <= k < 4 ==> (q[k] == '=' && d[k] == 0) || Lookup(q[k]) == d[k] >= 0
    ensures Bits(q) == Word(d)
  {
    assert q[..3][..2] == q[..2] && q[..2][..1] == q[..1] && q[..1][..0] == [];
    assert Bits(q[..1]) == d[0];
    assert Bits(q[..2]) == Bits(q[..1]) * 64 + d[1];
    assert Bits(q[..3]) == Bits(q[..2]) * 64 + d[2];
  }

  lemma LowByte(q: nat, r: Byte)
    ensures (q * 256 + r) / 256 == q && (q * 256 + r) % 256 == r
  {
  }

  lemma BytesOf(a: Byte, b: Byte, c: Byte)
    ensures Bytes((a * 256 + b) * 256 + c) == [a, b, c]
  {
    LowByte(a * 256 + b, c);
    LowByte(a, b);
    LowByte(0, a);
  }

  /** Decoding an encoded group gives its bytes, with zeros for the missing ones. */
  lemma GroupBack(a: Byte, b: Byte, c: Byte, parts: int)
    requires 1 <= parts && (parts < 2 ==> b == 0) && (parts < 3 ==> c == 0)
    ensures Bytes(Bits(Group(a, b, c, parts))) == [a, b, c]
  {
    var d := Sixes(a, b, c);
    SixesAreTheBits(a, b, c);
    assert (parts < 2 ==> d[2] == 0) && (parts < 3 ==> d[3] == 0);
    hide Sixes, Bits, Bytes, Word;
    GroupBits(a, b, c, parts);
    BytesOf(a, b, c);
  }

  lemma GroupBits(a: Byte, b: Byte, c: Byte, parts: int)
    requires var d := Sixes(a, b, c); 1 <= parts && (parts < 2 ==> d[2] == 0) && (parts < 3 ==> d[3] == 0)
    ensures Bits(Group(a, b, c, parts)) == Word(Sixes(a, b, c))
  {
    hide Sixes, Symbol, Lookup, Bits, Word;
    var d := Sixes(a, b, c);
    LookupSymbol(d[0]);
    LookupSymbol(d[1]);
    LookupSymbol(d[2]);
    LookupSymbol(d[3]);
    BitsOfFour(Group(a, b, c, parts), d);
  }

  function GroupCount(n: nat): nat {
    if n == 0 then 0 else if n <= 3 then 1 else 1 + GroupCount(n - 3)
  }

  lemma {:induction false} GroupCounts(s: seq<Byte>)
    ensures |Encoded(s)| == 4 * GroupCount(|s|) && 3 * GroupCount(|s|) == |s| + Pad(|s|)
    decreases |s|
  {
    if |s| > 3 {
      GroupCounts(s[3..]);
    }
  }

  lemma GroupCountNext(n: nat)
    ensures GroupCount(n) == if n == 0 then 0 else if n <= 3 then 1 else 1 + GroupCount(n - 3)
  {
  }

  /** Decoding the encoded text quantum by quantum gives the bytes back, then the padding. */
  lemma {:induction false} QuantaBack(s: seq<Byte>, tail: string)
    ensures 4 * GroupCount(|s|) <= |Encoded(s) + tail| && |s| <= 3 * GroupCount(|s|)
    ensures Quanta(Encoded(s) + tail, GroupCount(|s|))[..|s|] == s
    decreases |s|
  {
    hide Bytes, Bits, Encoded, Pad, GroupCount, Quanta, FirstGroup;
    GroupCounts(s);
    if s != [] {
      var g := GroupCount(|s|);
      GroupCountNext(|s|);
      FirstBack(s);
      var r, more := FirstOfEncoded(s, tail, g);
      if |s| > 3 {
        var t := s[3..];
        assert |t| == |s| - 3 && g == 1 + GroupCount(|t|);
        QuantaBack(t, tail);
        assert more[..|t|] == t;
        TakeSecond(r, more, s);
      } else {
        TakeFirst(r, more, s);
      }
      assert (r + more)[..|s|] == s;
    }
  }

  /** The first quantum of an encoded text, and the others. */
  lemma FirstOfEncoded(s: seq<Byte>, tail: string, g: nat) returns (r: seq<Byte>, more: seq<Byte>)
    requires s != [] && 0 < 4 * g <= |Encoded(s) + tail|
    ensures |r| == 3 && r == Bytes(Bits(FirstGroup(s))) && Quanta(Encoded(s) + tail, g) == r + more
    ensures |s| > 3 ==> 4 * (g - 1) <= |Encoded(s[3..]) + tail| && more == Quanta(Encoded(s[3..]) + tail, g - 1)
  {
    hide Bytes, Bits, Encoded, Quanta, FirstGroup;
    var rest := SplitFirst(s, tail);
    r, more := QuantaFirst(Encoded(s) + tail, g);
  }

  lemma SplitFirst(s: seq<Byte>, tail: string) returns (rest: string)
    requires s != []
    ensures var src := Encoded(s) + tail;
            |src| >= 4 && src[..4] == FirstGroup(s) && src[4..] == rest
            && rest == (if |s| > 3 then Encoded(s[3..]) else []) + tail
  {
    hide FirstGroup;
    rest := (if |s| > 3 then Encoded(s[3..]) else []) + tail;
    Associate(FirstGroup(s), if |s| > 3 then Encoded(s[3..]) else [], tail);
    hide Encoded;
    assert (FirstGroup(s) + rest)[..4] == FirstGroup(s) && (FirstGroup(s) + rest)[4..] == rest;
  }

  lemma FirstBack(s: seq<Byte>)
    requires s != []
    ensures var r := Bytes(Bits(FirstGroup(s))); if |s| > 3 then s[..3] == r else s == r[..|s|]
  {
    GroupBack(s[0], if |s| > 1 then s[1] else 0, if |s| > 2 then s[2] else 0, |s|);
    hide Bytes, Bits, Group;
  }

  lemma TakeFirst(three: seq<Byte>, rest: seq<Byte>, s: seq<Byte>)
    requires |s| <= |three| && three[..|s|] == s
    ensures (three + rest)[..|s|] == s
  {
    assert (three + rest)[..|s|] == three[..|s|];
  }

  lemma TakeSecond(three: seq<Byte>, rest: seq<Byte>, s: seq<Byte>)
    requires |s| > 3 && |three| == 3 && three == s[..3] && |s| - 3 <= |rest| && rest[..|s| - 3] == s[3..]
    ensures (three + rest)[..|s|] == s
  {
    assert (three + rest)[..|s|] == three + rest[..|s| - 3];
  }

  /** Where a well-formed text ends. */
  lemma TextEnd(r: string, pad: nat)
    requires Text(r, pad) && pad <= 2
    ensures var src := r + ['\0']; '\0' in src && BodyLength(src) == |r| - pad && EqualsTerm(src) == pad
  {
    TextClean(r, pad);
    var src := r + ['\0'];
    assert src[|r|] == '\0';
    assert forall k :: 0 <= k < |r| - pad ==> src[k] == r[k] && 0 <= Lookup(r[k]) < 64;
    assert src[|r| - pad] == '=' || src[|r| - pad] == '\0';
  }

  lemma DecodedAs(src: string, g: nat, e: nat)
    requires '\0' in src && e == EqualsTerm(src) && BodyLength(src) + e == 4 * g
    ensures Decoded(src) == if g == 0 then None else Some(Quanta(src, g)[..3 * g - e])
  {
    hide Quanta, BodyLength, EqualsTerm;
    assert 4 * g / 4 == g;
  }

  /** Decoding the encoded text gives every non-empty value back. */
  lemma RoundTrip(s: seq<Byte>)
    ensures var src := Encoded(s) + ['\0']; '\0' in src && Decoded(src) == if s == [] then None else Some(s)
  {
    EncodedText(s);
    GroupCounts(s);
    TextEnd(Encoded(s), Pad(|s|));
    var src := Encoded(s) + ['\0'];
    QuantaBack(s, ['\0']);
    hide Encoded, Pad, Text, Quanta, BodyLength, EqualsTerm, Decoded;
    DecodedAs(src, GroupCount(|s|), Pad(|s|));
  }

  /** base64Decode after base64Encode gives back every value except the empty one, which it refuses to decode. */
  method EncodeThenDecode(s: seq<Byte>) returns (r: Option<seq<Byte>>)
    ensures r == if s == [] then None else Some(s)
  {
    RoundTrip(s);
    assert (s + [0])[..|s|] == s && (s + [0])[|s|] == 0;
    assert s == [] ==> s + [0] == [0] && StrLen([0]) == 0;
    hide Encoded, Decoded, StrLen;
    var base64data, length := Encode(s + [0], |s|);
    var result := base64data[..length];
    var newstr, rawlen := Decode(result + ['\0']);
    if newstr == null {
      r := None;
    } else {
      r := Some(newstr[..rawlen]);
    }
  }

  /** The bytes that four six-bit values make. */
  function Packed(d: seq<int>): (r: seq<Byte>)
    requires |d| == 4 && forall k :: 0 <= k < 4 ==> 0 <= d[k] < 64
    ensures |r| == 3
  {
    [d[0] * 4 + d[1] / 16, d[1] % 16 * 16 + d[2] / 4, d[2] % 4 * 64 + d[3]]
  }

  lemma BytesOfSixes(d: seq<int>)
    requires |d| == 4 && forall k :: 0 <= k < 4 ==> 0 <= d[k] < 64
    ensures 0 <= Word(d) && Bytes(Word(d)) == Packed(d)
  {
    var r := Packed(d);
    BytesOf(r[0], r[1], r[2]);
    hide Bytes;
  }

  /** The six-bit value of a character, zero for an equals sign. */
  function Value(c: char): (d: int)
    ensures 0 <= d < 64
  {
    if 0 <= Lookup(c) < 64 then Lookup(c) else 0
  }

  /** The bits of the last character that belong to no byte. */
  function Spare(t: string, pad: nat): nat
    requires pad <= 2 && |t| >= 4
  {
    if pad == 0 then 0 else if pad == 1 then Value(t[|t| - 2]) % 4 else Value(t[|t| - 3]) % 16
  }

  /** Six-bit values taken apart again, whole or with one or two bytes missing. */
  lemma SixesAgain(d: seq<int>)
    requires |d| == 4 && forall k :: 0 <= k < 4 ==> 0 <= d[k] < 64
    ensures var r := Packed(d);
            && Sixes(r[0], r[1], r[2]) == d
            && Sixes(r[0], r[1], 0) == [d[0], d[1], d[2] - d[2] % 4, 0]
            && Sixes(r[0], 0, 0) == [d[0], d[1] - d[1] % 16, 0, 0]
  {
    var r := Packed(d);
    assert r[0] / 4 == d[0] && r[0] % 4 == d[1] / 16;
    assert r[1] / 16 == d[1] % 16 && r[1] % 16 == d[2] / 4;
    assert r[2] / 64 == d[2] % 4 && r[2] % 64 == d[3];
  }

  lemma SymbolIs(e: int, c: char)
    requires 0 <= e < 64 && 0 <= Lookup(c) < 64
    ensures Symbol(e) == c <==> e == Lookup(c)
  {
    LookupSymbol(e);
  }

  /** A group is this text exactly when its six-bit values are. */
  lemma GroupIs(a: Byte, b: Byte, c: Byte, q: string, pad: nat)
    requires |q| == 4 && Text(q, pad) && pad <= 2
    ensures var e := Sixes(a, b, c);
            Group(a, b, c, 3 - pad) == q <==>
            e[0] == Value(q[0]) && e[1] == Value(q[1]) && (pad < 2 ==> e[2] == Value(q[2]))
              && (pad < 1 ==> e[3] == Value(q[3]))
  {
    var e := Sixes(a, b, c);
    hide Sixes, Symbol, Lookup;
    SymbolIs(e[0], q[0]);
    SymbolIs(e[1], q[1]);
    if pad < 2 { SymbolIs(e[2], q[2]); }
    if pad < 1 { SymbolIs(e[3], q[3]); }
  }

  /** One quantum decoded and encoded again is the same exactly when its spare bits are zero. */
  lemma QuantumAgain(q: string, pad: nat)
    requires |q| == 4 && Text(q, pad) && pad <= 2
    ensures var r := Bytes(Bits(q));
            Group(r[0], if pad < 2 then r[1] else 0, if pad < 1 then r[2] else 0, 3 - pad) == q <==> Spare(q, pad) == 0
  {
    var d, r := QuantumBytes(q, pad);
    hide Bits, Bytes, Sixes, Lookup, Symbol, Text, Group, Value;
    if pad == 0 {
      GroupIs(r[0], r[1], r[2], q, pad);
    } else if pad == 1 {
      GroupIs(r[0], r[1], 0, q, pad);
    } else {
      GroupIs(r[0], 0, 0, q, pad);
    }
  }

  lemma QuantumBytes(q: string, pad: nat) returns (d: seq<int>, r: seq<Byte>)
    requires |q| == 4 && Text(q, pad) && pad <= 2
    ensures |r| == 3 && r == Bytes(Bits(q)) && d == [Value(q[0]), Value(q[1]), Value(q[2]), Value(q[3])]
    ensures Sixes(r[0], r[1], r[2]) == d
    ensures Sixes(r[0], r[1], 0) == [d[0], d[1], d[2] - d[2] % 4, 0]
    ensures Sixes(r[0], 0, 0) == [d[0], d[1] - d[1] % 16, 0, 0]
  {
    d := [Value(q[0]), Value(q[1]), Value(q[2]), Value(q[3])];
    hide Lookup, Text, Bits, Bytes, Sixes, Value, Word, Packed;
    TextBits(q, pad);
    r := Bytes(Bits(q));
    BytesOfSixes(d);
    SixesAgain(d);
  }

  lemma TextBits(q: string, pad: nat)
    requires |q| == 4 && Text(q, pad) && pad <= 2
    ensures Bits(q) == Word([Value(q[0]), Value(q[1]), Value(q[2]), Value(q[3])])
  {
    hide Bits, Word;
    BitsOfFour(q, [Value(q[0]), Value(q[1]), Value(q[2]), Value(q[3])]);
  }

  /** Re-encoding gives a well-formed text back exactly when its spare bits are zero (section 3.5 of RFC 4648). */
  lemma {:induction false} Canonical(t: string, g: nat, pad: nat)
    requires |t| == 4 * g > 0 && Text(t, pad) && pad <= 2
    ensures Encoded(Quanta(t, g)[..3 * g - pad]) == t <==> Spare(t, pad) == 0
    decreases g
  {
    if g == 1 {
      LastCanonical(t, pad);
    } else {
      var r, more := QuantaFirst(t, g);
      hide Bytes, Bits, Group, Spare, Text, Quanta, Encoded, Lookup;
      SplitText(t, pad);
      Canonical(t[4..], g - 1, pad);
      QuantumAgain(t[..4], 0);
      EncodedBehind(r, more, 3 * (g - 1) - pad, Quanta(t, g), t);
    }
  }

  lemma QuantaFirst(t: string, g: nat) returns (r: seq<Byte>, more: seq<Byte>)
    requires 0 < 4 * g <= |t|
    ensures |r| == 3 && r == Bytes(Bits(t[..4])) && more == Quanta(t[4..], g - 1) && Quanta(t, g) == r + more
  {
    r, more := Bytes(Bits(t[..4])), Quanta(t[4..], g - 1);
  }

  lemma LastCanonical(t: string, pad: nat)
    requires |t| == 4 && Text(t, pad) && pad <= 2
    ensures Encoded(Quanta(t, 1)[..3 - pad]) == t <==> Spare(t, pad) == 0
  {
    var r := Bytes(Bits(t));
    QuantumAgain(t, pad);
    assert t[..4] == t && Quanta(t[4..], 0) == [] && r + [] == r;
    hide Bytes, Bits, Group, Spare, Text;
    var bytes := r[..3 - pad];
    assert Encoded(bytes) == FirstGroup(bytes) + [];
  }

  lemma SplitText(t: string, pad: nat)
    requires |t| >= 8 && Text(t, pad) && pad <= 2
    ensures Text(t[..4], 0) && Text(t[4..], pad) && Spare(t[..4], 0) == 0 && Spare(t[4..], pad) == Spare(t, pad)
  {
    hide Lookup;
  }

  lemma EncodedBehind(r: seq<Byte>, more: seq<Byte>, n: nat, all: seq<Byte>, t: string)
    requires |r| == 3 && 0 < n <= |more| && |t| >= 4 && Group(r[0], r[1], r[2], 3) == t[..4] && all == r + more
    ensures Encoded(all[..3 + n]) == t <==> Encoded(more[..n]) == t[4..]
  {
    var s := all[..3 + n];
    assert s[3..] == more[..n] && FirstGroup(s) == t[..4];
    hide Group, FirstGroup;
    var e := Encoded(more[..n]);
    assert Encoded(s) == t[..4] + e;
    hide Encoded;
    assert t == t[..4] + t[4..];
    assert (t[..4] + e)[4..] == e;
  }
}
