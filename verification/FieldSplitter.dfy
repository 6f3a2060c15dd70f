/** The getDelimitedField expression function: one field of a delimited line with quoting and escaping. */
module FieldSplitter {
  import opened Sequences
  import opened Words

  /** The characters that steer the splitter, and whether quotes and escapes are dropped from the field. */
  datatype Marks = Marks(delimiter: char, quote: char, escape: char, strip: bool)

  /** Text in front of the first field. */
  function Prepend(x: string, fields: seq<string>): (r: seq<string>)
    requires fields != []
    ensures |r| == |fields|
  {
    [x + fields[0]] + fields[1..]
  }

  /** A mark as it shows in the field. */
  function Kept(m: Marks, c: char): string {
    if m.strip then [] else [c]
  }

  /** The fields of the rest of a line, given what is already known of the first one: an escape only protects the
      character behind it from being read as another escape. */
  function Fields(s: string, quoted: bool, m: Marks): (r: seq<string>)
    ensures r != [] && |r| <= |s| + 1
    decreases |s|
  {
    if s == [] then [[]]
    else if s[0] != m.escape then FieldsFrom(s, quoted, m, [])
    else if |s| == 1 then [Kept(m, m.escape)]
    else FieldsFrom(s[1..], quoted, m, Kept(m, m.escape))
  }

  /** The fields when the next character is taken for what it is. */
  function FieldsFrom(s: string, quoted: bool, m: Marks, before: string): (r: seq<string>)
    requires s != []
    ensures r != [] && |r| <= |s| + 1
    decreases |s|, 0
  {
    var c, rest := s[0], s[1..];
    if !quoted && c == m.delimiter then [before] + Fields(rest, false, m)
    else if c == m.quote then Prepend(before + Kept(m, c), Fields(rest, !quoted, m))
    else Prepend(before + [c], Fields(rest, quoted, m))
  }

  /** The field with this index, counted from zero; empty if there is none. */
  function FieldAt(fields: seq<string>, index: int): string {
    if 0 <= index < |fields| then fields[index] else []
  }

  /** Store one more character in the growing buffer. */
  method Put(buffer: seq<char>, size: nat, c: char) returns (buffer': seq<char>, size': nat)
    requires size < |buffer|
    ensures size' == size + 1 < |buffer'| && buffer'[..size'] == buffer[..size] + [c]
  {
    size' := size + 1;
    buffer' := buffer;
    if size' >= |buffer'| {
      buffer' := buffer' + seq(1024, _ => '\0');
    }
    buffer' := buffer'[size' - 1 := c];
  }

  lemma PrependFrom(s: string, quoted: bool, m: Marks, before: string)
    requires s != []
    ensures FieldsFrom(s, quoted, m, before) == Prepend(before, FieldsFrom(s, quoted, m, []))
  {
    hide Fields;
    assert [] + Kept(m, s[0]) == Kept(m, s[0]) && [] + [s[0]] == [s[0]];
    if quoted || s[0] != m.delimiter {
      var rest := Fields(s[1..], if s[0] == m.quote then !quoted else quoted, m);
      var x := if s[0] == m.quote then Kept(m, s[0]) else [s[0]];
      assert (before + x) + rest[0] == before + (x + rest[0]);
    } else {
      assert before + [] == before;
    }
  }

  /** What one escape adds to the wanted field, k fields ahead. */
  lemma AfterEscape(s: string, quoted: bool, m: Marks, k: int)
    requires s != [] && s[0] == m.escape
    ensures FieldAt(Fields(s, quoted, m), k) ==
            (if k == 0 then Kept(m, m.escape) else [])
            + (if |s| == 1 then [] else FieldAt(FieldsFrom(s[1..], quoted, m, []), k))
  {
    if |s| > 1 {
      PrependFrom(s[1..], quoted, m, Kept(m, m.escape));
    }
    hide FieldsFrom;
  }

  /** What one character adds to the wanted field, k fields ahead. */
  lemma AfterChar(s: string, quoted: bool, m: Marks, k: int)
    requires s != []
    ensures var c, rest := s[0], s[1..];
            FieldAt(FieldsFrom(s, quoted, m, []), k) ==
            if !quoted && c == m.delimiter then (if k == 0 then [] else FieldAt(Fields(rest, false, m), k - 1))
            else if c == m.quote then (if k == 0 then Kept(m, c) else []) + FieldAt(Fields(rest, !quoted, m), k)
            else (if k == 0 then [c] else []) + FieldAt(Fields(rest, quoted, m), k)
  {
    hide Fields;
  }

  /** Store a character if it is wanted. */
  method PutIf(buffer: seq<char>, size: nat, c: char, wanted: bool, ghost more: string) returns (buffer': seq<char>,
               size': nat)
    requires size < |buffer|
    ensures size' < |buffer'| && buffer'[..size'] + more == buffer[..size] + ((if wanted then [c] else []) + more)
  {
    buffer', size' := buffer, size;
    if wanted {
      buffer', size' := Put(buffer, size, c);
    }
    Associate(buffer[..size], if wanted then [c] else [], more);
    assert buffer[..size] + [] == buffer[..size];
  }

  /** Deal with an escape at the front of the rest of the line. */
  method TakeEscape(buffer: seq<char>, size: nat, ghost rest: string, quoted: bool, m: Marks, fieldIdx: int, index: int)
    returns (buffer': seq<char>, size': nat)
    requires size < |buffer| && rest != [] && rest[0] == m.escape
    ensures size' < |buffer'|
    ensures buffer'[..size']
            + (if |rest| == 1 then [] else FieldAt(FieldsFrom(rest[1..], quoted, m, []), index - fieldIdx)) ==
            buffer[..size] + FieldAt(Fields(rest, quoted, m), index - fieldIdx)
  {
    AfterEscape(rest, quoted, m, index - fieldIdx);
    hide Fields, FieldsFrom, FieldAt;
    ghost var more := if |rest| == 1 then [] else FieldAt(FieldsFrom(rest[1..], quoted, m, []), index - fieldIdx);
    buffer', size' := PutIf(buffer, size, m.escape, !m.strip && fieldIdx == index, more);
  }

  /** Deal with the next character in the state the scan is in. */
  method TakeChar(buffer: seq<char>, size: nat, c: char, ghost rest: string, quoted: bool, m: Marks, fieldIdx: int,
                  index: int)
    returns (buffer': seq<char>, size': nat, quoted': bool, fieldIdx': int)
    requires size < |buffer| && rest != [] && rest[0] == c
    ensures size' < |buffer'|
    ensures buffer'[..size'] + FieldAt(Fields(rest[1..], quoted', m), index - fieldIdx') ==
            buffer[..size] + FieldAt(FieldsFrom(rest, quoted, m, []), index - fieldIdx)
  {
    ghost var k, tail := index - fieldIdx, rest[1..];
    ghost var wanted := FieldAt(FieldsFrom(rest, quoted, m, []), k);
    AfterChar(rest, quoted, m, k);
    assert FieldAt(Fields(tail, false, m), -1) == [];
    hide Fields, FieldsFrom, FieldAt;
    buffer', size', quoted', fieldIdx' := buffer, size, quoted, fieldIdx;
    if !quoted && c == m.delimiter {
      assert wanted == FieldAt(Fields(tail, false, m), k - 1);
      fieldIdx' := fieldIdx + 1;
    } else if c == m.quote {
      ghost var more := FieldAt(Fields(tail, !quoted, m), k);
      assert wanted == (if !m.strip && k == 0 then [c] else []) + more;
      quoted' := !quoted;
      buffer', size' := PutIf(buffer, size, c, !m.strip && fieldIdx == index, more);
    } else {
      ghost var more := FieldAt(Fields(tail, quoted, m), k);
      assert wanted == (if k == 0 then [c] else []) + more;
      buffer', size' := PutIf(buffer, size, c, fieldIdx == index, more);
    }
  }

  /** The field with the given number, counted from one as a 64-bit number: zero wraps to a field that does not
      exist. */
  method GetDelimitedField(subject: string, number: Size, m: Marks) returns (result: string)
    requires |subject| < UINT64_MAX
    ensures result == FieldAt(Fields(subject, false, m), number - 1)
  {
    var index := if number == 0 then UINT64_MAX else number - 1;
    var quoted := false;
    var fieldIdx, fieldSize := 0, 0;
    var buffer := seq(1024, _ => '\0');
    var pos := 0;
    ghost var wanted := FieldAt(Fields(subject, false, m), index);
    assert wanted == FieldAt(Fields(subject, false, m), number - 1);
    assert subject[0..] == subject;
    assert buffer[..0] + wanted == wanted;
    while pos < |subject|
      invariant 0 <= pos <= |subject| && 0 <= fieldSize < |buffer|
      invariant buffer[..fieldSize] + FieldAt(Fields(subject[pos..], quoted, m), index - fieldIdx) == wanted
    {
      hide Fields, FieldsFrom, FieldAt;
      ghost var rest := subject[pos..];
      if subject[pos] == m.escape {
        buffer, fieldSize := TakeEscape(buffer, fieldSize, rest, quoted, m, fieldIdx, index);
        pos := pos + 1;
        if pos >= |subject| {
          break;
        }
        assert rest[1..] == subject[pos..];
        rest := subject[pos..];
      }
      buffer, fieldSize, quoted,
        fieldIdx := TakeChar(buffer, fieldSize, subject[pos], rest, quoted, m, fieldIdx, index);
      pos := pos + 1;
      assert rest[1..] == subject[pos..];
    }
    assert buffer[..fieldSize] + [] == buffer[..fieldSize];
    result := buffer[..fieldSize];
  }

  function Joined(fields: seq<string>, delimiter: char): string {
    if fields == [] then [] else if |fields| == 1 then fields[0]
    else fields[0] + [delimiter] + Joined(fields[1..], delimiter)
  }

  lemma JoinedPrepend(x: string, fields: seq<string>, delimiter: char)
    requires fields != []
    ensures Joined(Prepend(x, fields), delimiter) == x + Joined(fields, delimiter)
  {
    if |fields| > 1 {
      assert Prepend(x, fields)[1..] == fields[1..];
      var tail := [delimiter] + Joined(fields[1..], delimiter);
      Associate(x, fields[0], tail);
      Associate(fields[0], [delimiter], Joined(fields[1..], delimiter));
      Associate(x + fields[0], [delimiter], Joined(fields[1..], delimiter));
    }
  }

  /** Without stripping, the fields joined by the delimiter are the line again, whatever the three marks are. */
  lemma {:induction false} FieldsRejoin(s: string, quoted: bool, m: Marks)
    requires !m.strip
    ensures Joined(Fields(s, quoted, m), m.delimiter) == s
    decreases |s|
  {
    if s != [] {
      if s[0] != m.escape {
        FromRejoin(s, quoted, m, []);
        assert [] + s == s;
      } else if |s| > 1 {
        FromRejoin(s[1..], quoted, m, [m.escape]);
        assert [s[0]] + s[1..] == s;
      }
    }
  }

  lemma {:induction false} FromRejoin(s: string, quoted: bool, m: Marks, before: string)
    requires !m.strip && s != []
    ensures Joined(FieldsFrom(s, quoted, m, before), m.delimiter) == before + s
    decreases |s|, 0
  {
    var c, rest := s[0], s[1..];
    assert s == [c] + rest;
    Associate(before, [c], rest);
    if !quoted && c == m.delimiter {
      FieldsRejoin(rest, false, m);
      assert ([before] + Fields(rest, false, m))[1..] == Fields(rest, false, m);
    } else {
      var toggled := if c == m.quote then !quoted else quoted;
      FieldsRejoin(rest, toggled, m);
      JoinedPrepend(before + [c], Fields(rest, toggled, m), m.delimiter);
    }
  }

  /** The documented reading: the character behind an escape is never a mark. */
  function DocFields(s: string, quoted: bool, m: Marks): (r: seq<string>)
    ensures r != []
  {
    if s == [] then [[]]
    else if s[0] == m.escape then
      if |s| == 1 then [Kept(m, m.escape)] else Prepend(Kept(m, m.escape) + [s[1]], DocFields(s[2..], quoted, m))
    else if !quoted && s[0] == m.delimiter then [[]] + DocFields(s[1..], false, m)
    else if s[0] == m.quote then Prepend(Kept(m, s[0]), DocFields(s[1..], !quoted, m))
    else Prepend([s[0]], DocFields(s[1..], quoted, m))
  }

  /** Reading the line once with both notions of being inside quotes, every delimiter splits in both or in neither. */
  predicate SameSplits(s: string, quoted: bool, docQuoted: bool, m: Marks) {
    if s == [] then true
    else if s[0] == m.escape then
      |s| == 1 || ((quoted || s[1] != m.delimiter)
      && SameSplits(s[2..], if s[1] == m.quote then !quoted else quoted, docQuoted, m))
    else if s[0] == m.delimiter && (!quoted || !docQuoted) then !quoted && !docQuoted
         && SameSplits(s[1..], false, false, m)
    else if s[0] == m.quote then SameSplits(s[1..], !quoted, !docQuoted, m)
    else SameSplits(s[1..], quoted, docQuoted, m)
  }

  /** Every field number gets the same answer. */
  ghost predicate SameAnswers(a: seq<string>, b: seq<string>) {
    forall k :: FieldAt(a, k) == FieldAt(b, k)
  }

  lemma SamePrepend(x: string, a: seq<string>, b: seq<string>)
    requires a != [] && b != []
    ensures Prepend(x, a) == Prepend(x, b) <==> a == b
    ensures SameAnswers(Prepend(x, a), Prepend(x, b)) <==> SameAnswers(a, b)
  {
    var c, d := Prepend(x, a), Prepend(x, b);
    assert a[0] == (x + a[0])[|x|..] && b[0] == (x + b[0])[|x|..] && c[0] == x + a[0] && d[0] == x + b[0];
    assert a == [a[0]] + c[1..] && b == [b[0]] + d[1..];
    forall k ensures FieldAt(c, k) == FieldAt(d, k) <==> FieldAt(a, k) == FieldAt(b, k) {
      assert k != 0 ==> FieldAt(c, k) == FieldAt(a, k) && FieldAt(d, k) == FieldAt(b, k);
    }
  }

  lemma SameFirst(x: string, a: seq<string>, b: seq<string>)
    ensures [x] + a == [x] + b <==> a == b
    ensures SameAnswers([x] + a, [x] + b) <==> SameAnswers(a, b)
  {
    var c, d := [x] + a, [x] + b;
    assert c[1..] == a && d[1..] == b;
    forall k ensures FieldAt(c, k + 1) == FieldAt(d, k + 1) <==> FieldAt(a, k) == FieldAt(b, k) {
      assert k >= 0 ==> FieldAt(c, k + 1) == FieldAt(a, k) && FieldAt(d, k + 1) == FieldAt(b, k);
    }
    if SameAnswers(a, b) {
      forall k ensures FieldAt(c, k) == FieldAt(d, k) {
        assert FieldAt(a, k - 1) == FieldAt(b, k - 1);
      }
    }
  }

  /** A split on one side only cannot be made good later. */
  lemma SplitApart(x: string, y: string, a: seq<string>, b: seq<string>)
    requires b != [] && |x| < |y|
    ensures [x] + a != Prepend(y, b) && !SameAnswers([x] + a, Prepend(y, b)) && !SameAnswers(Prepend(y, b), [x] + a)
  {
    assert FieldAt([x] + a, 0) == x && FieldAt(Prepend(y, b), 0) == y + b[0];
  }

  /** Without stripping, the code returns the documented fields exactly when both readings split at the same places. */
  lemma {:induction false} DocumentedIff(s: string, quoted: bool, docQuoted: bool, m: Marks)
    requires !m.strip
    ensures Fields(s, quoted, m) == DocFields(s, docQuoted, m) <==> SameSplits(s, quoted, docQuoted, m)
    ensures SameAnswers(Fields(s, quoted, m), DocFields(s, docQuoted, m)) <==> SameSplits(s, quoted, docQuoted, m)
    decreases |s|
  {
    if s != [] && s[0] == m.escape {
      if |s| > 1 {
        EscapeIff(s, quoted, docQuoted, m);
      }
    } else if s != [] {
      PlainIff(s, quoted, docQuoted, m);
    }
  }

  lemma {:induction false} EscapeIff(s: string, quoted: bool, docQuoted: bool, m: Marks)
    requires !m.strip && |s| > 1 && s[0] == m.escape
    ensures Fields(s, quoted, m) == DocFields(s, docQuoted, m) <==> SameSplits(s, quoted, docQuoted, m)
    ensures SameAnswers(Fields(s, quoted, m), DocFields(s, docQuoted, m)) <==> SameSplits(s, quoted, docQuoted, m)
    decreases |s|, 0
  {
    var e, c, rest := m.escape, s[1], s[2..];
    var toggled := if c == m.quote then !quoted else quoted;
    var doc := DocFields(rest, docQuoted, m);
    assert s[1..][1..] == rest;
    if !quoted && c == m.delimiter {
      assert Fields(s, quoted, m) == [[e]] + Fields(rest, false, m);
      SplitApart([e], [e] + [c], Fields(rest, false, m), doc);
    } else {
      assert Fields(s, quoted, m) == Prepend([e] + [c], Fields(rest, toggled, m));
      SamePrepend([e] + [c], Fields(rest, toggled, m), doc);
      DocumentedIff(rest, toggled, docQuoted, m);
    }
  }

  lemma {:induction false} PlainIff(s: string, quoted: bool, docQuoted: bool, m: Marks)
    requires !m.strip && s != [] && s[0] != m.escape
    ensures Fields(s, quoted, m) == DocFields(s, docQuoted, m) <==> SameSplits(s, quoted, docQuoted, m)
    ensures SameAnswers(Fields(s, quoted, m), DocFields(s, docQuoted, m)) <==> SameSplits(s, quoted, docQuoted, m)
    decreases |s|, 0
  {
    var c, rest := s[0], s[1..];
    var q, d := if c == m.quote then !quoted else quoted, if c == m.quote then !docQuoted else docQuoted;
    assert [] + [c] == [c];
    if c == m.delimiter && !quoted && !docQuoted {
      SameFirst([], Fields(rest, false, m), DocFields(rest, false, m));
      DocumentedIff(rest, false, false, m);
    } else if c == m.delimiter && !quoted {
      SplitApart([], [c], Fields(rest, false, m), DocFields(rest, d, m));
    } else if c == m.delimiter && !docQuoted {
      SplitApart([], [c], DocFields(rest, false, m), Fields(rest, q, m));
    } else {
      SamePrepend([c], Fields(rest, q, m), DocFields(rest, d, m));
      DocumentedIff(rest, q, d, m);
    }
  }

  /** No quote is escaped, and an escaped delimiter stands only inside quotes. */
  predicate Protected(s: string, quoted: bool, m: Marks) {
    if s == [] then true
    else if s[0] == m.escape then |s| ==
           1 || ((quoted || s[1] != m.delimiter) && s[1] != m.quote && Protected(s[2..], quoted, m))
    else if !quoted && s[0] == m.delimiter then Protected(s[1..], false, m)
    else Protected(s[1..], if s[0] == m.quote then !quoted else quoted, m)
  }

  /** With stripping the code never keeps a quote. */
  lemma {:induction false} NoQuoteKept(s: string, quoted: bool, m: Marks, k: int)
    requires m.strip && m.quote != m.delimiter
    ensures m.quote !in FieldAt(Fields(s, quoted, m), k)
    decreases |s|
  {
    if s != [] && s[0] == m.escape {
      AfterEscape(s, quoted, m, k);
    }
    var t := if s != [] && s[0] == m.escape then s[1..] else s;
    if t != [] {
      AfterChar(t, quoted, m, k);
      var c, rest := t[0], t[1..];
      NoQuoteKept(rest, quoted, m, k);
      NoQuoteKept(rest, !quoted, m, k);
      NoQuoteKept(rest, false, m, k - 1);
      hide Fields, FieldAt;
    }
  }

  /** With stripping, the code returns the documented fields exactly when no quote is escaped and no delimiter is
      escaped outside quotes.  If quote and delimiter are the same character, a line read from its start is never
      inside quotes. */
  lemma {:induction false} StrippedIff(s: string, quoted: bool, m: Marks)
    requires m.strip && (m.quote != m.delimiter || !quoted)
    ensures Fields(s, quoted, m) == DocFields(s, quoted, m) <==> Protected(s, quoted, m)
    ensures SameAnswers(Fields(s, quoted, m), DocFields(s, quoted, m)) <==> Protected(s, quoted, m)
    decreases |s|
  {
    if s != [] && s[0] == m.escape {
      if |s| > 1 {
        StrippedEscapeIff(s, quoted, m);
      }
    } else if s != [] {
      StrippedPlainIff(s, quoted, m);
    }
  }

  lemma {:induction false} StrippedEscapeIff(s: string, quoted: bool, m: Marks)
    requires m.strip && (m.quote != m.delimiter || !quoted) && |s| > 1 && s[0] == m.escape
    ensures Fields(s, quoted, m) == DocFields(s, quoted, m) <==> Protected(s, quoted, m)
    ensures SameAnswers(Fields(s, quoted, m), DocFields(s, quoted, m)) <==> Protected(s, quoted, m)
    decreases |s|, 0
  {
    var c, rest := s[1], s[2..];
    var doc := DocFields(rest, quoted, m);
    assert s[1..][1..] == rest && [] + [c] == [c];
    assert DocFields(s, quoted, m) == Prepend([c], doc);
    if !quoted && c == m.delimiter {
      assert Fields(s, quoted, m) == [[]] + Fields(rest, false, m);
      SplitApart([], [c], Fields(rest, false, m), doc);
    } else if c == m.quote {
      NoQuoteKept(s, quoted, m, 0);
      assert FieldAt(DocFields(s, quoted, m), 0)[0] == m.quote;
    } else {
      assert Fields(s, quoted, m) == Prepend([c], Fields(rest, quoted, m));
      SamePrepend([c], Fields(rest, quoted, m), doc);
      StrippedIff(rest, quoted, m);
    }
  }

  lemma {:induction false} StrippedPlainIff(s: string, quoted: bool, m: Marks)
    requires m.strip && (m.quote != m.delimiter || !quoted) && s != [] && s[0] != m.escape
    ensures Fields(s, quoted, m) == DocFields(s, quoted, m) <==> Protected(s, quoted, m)
    ensures SameAnswers(Fields(s, quoted, m), DocFields(s, quoted, m)) <==> Protected(s, quoted, m)
    decreases |s|, 0
  {
    var c, rest := s[0], s[1..];
    assert [] + [c] == [c] && [] + Kept(m, c) == Kept(m, c);
    if !quoted && c == m.delimiter {
      SameFirst([], Fields(rest, false, m), DocFields(rest, false, m));
      StrippedIff(rest, false, m);
    } else {
      var q, x := if c == m.quote then !quoted else quoted, if c == m.quote then [] else [c];
      SamePrepend(x, Fields(rest, q, m), DocFields(rest, q, m));
      StrippedIff(rest, q, m);
    }
  }

  /** For every line and all marks: each call returns the documented field exactly under this condition. */
  lemma Documented(s: string, m: Marks)
    ensures SameAnswers(Fields(s, false, m), DocFields(s, false, m)) <==>
            if m.strip then Protected(s, false, m) else SameSplits(s, false, false, m)
  {
    if m.strip {
      StrippedIff(s, false, m);
    } else {
      DocumentedIff(s, false, false, m);
    }
  }

  /** No escape stands in front of a delimiter or a quote. */
  predicate NothingEscaped(s: string, m: Marks) {
    forall i :: 0 < i < |s| && s[i - 1] == m.escape ==> s[i] != m.delimiter && s[i] != m.quote
  }

  /** Then the code does what is documented, with and without stripping. */
  lemma {:induction false} DocumentedWhenPlain(s: string, quoted: bool, m: Marks)
    requires NothingEscaped(s, m)
    ensures Fields(s, quoted, m) == DocFields(s, quoted, m)
    decreases |s|
  {
    if s != [] {
      assert NothingEscaped(s[1..], m);
      if s[0] != m.escape {
        var c := s[0];
        DocumentedWhenPlain(s[1..], if c == m.delimiter && !quoted then false else if c == m.quote then !quoted
        else quoted, m);
        assert [] + [c] == [c] && [] + Kept(m, c) == Kept(m, c);
      } else if |s| > 1 {
        assert s[1..][1..] == s[2..] && s[1] != m.delimiter && s[1] != m.quote;
        assert NothingEscaped(s[2..], m);
        DocumentedWhenPlain(s[2..], quoted, m);
      }
    }
  }

  predicate Ordinary(c: char, m: Marks) {
    c != m.delimiter && c != m.quote && c != m.escape
  }

  lemma PrependOne(x: string, y: string)
    ensures Prepend(x, [y]) == [x + y]
  {
    assert [y][1..] == [];
  }

  lemma PrependTwo(x: string, y: string, z: string)
    ensures Prepend(x, [y, z]) == [x + y, z]
  {
    assert [y, z][1..] == [z];
  }

  lemma OneOrdinary(c: char, m: Marks)
    requires Ordinary(c, m)
    ensures Fields([c], false, m) == DocFields([c], false, m) == [[c]]
  {
    PrependOne([c], []);
    OneMore(c, [], m);
    assert [c] + [] == [c];
    assert Fields([], false, m) == [[]] == DocFields([], false, m);
  }

  /** An escaped delimiter splits all the same, where the documentation promises one field. */
  lemma EscapeDoesNotProtect(a: char, b: char, m: Marks)
    requires !m.strip && Ordinary(a, m) && Ordinary(b, m)
    ensures Fields([a, m.escape, m.delimiter, b], false, m) == [[a, m.escape], [b]]
    ensures DocFields([a, m.escape, m.delimiter, b], false, m) == [[a, m.escape, m.delimiter, b]]
  {
    var e, d := m.escape, m.delimiter;
    var s, t := [a, e, d, b], [e, d, b];
    OneOrdinary(b, m);
    hide Fields, DocFields;
    EscapedDelimiter(b, m);
    OneMore(a, t, m);
    assert s == [a] + t;
    PrependTwo([a], [e], [b]);
    PrependOne([a], t);
    assert [a] + [e] == [a, e];
  }

  lemma OneMore(a: char, t: string, m: Marks)
    requires Ordinary(a, m)
    ensures Fields([a] + t, false, m) == Prepend([a], Fields(t, false, m))
    ensures DocFields([a] + t, false, m) == Prepend([a], DocFields(t, false, m))
  {
    assert ([a] + t)[1..] == t && [] + [a] == [a];
  }

  lemma EscapedDelimiter(b: char, m: Marks)
    requires !m.strip && Ordinary(b, m)
    ensures Fields([m.escape, m.delimiter, b], false, m) == [[m.escape], [b]]
    ensures DocFields([m.escape, m.delimiter, b], false, m) == [[m.escape, m.delimiter, b]]
  {
    var e, d := m.escape, m.delimiter;
    OneOrdinary(b, m);
    assert [e, d, b][1..] == [d, b] && [d, b][1..] == [b] && [e, d, b][2..] == [b];
    PrependOne([e] + [d], [b]);
    assert [e] + [d] + [b] == [e, d, b];
  }

  /** An escaped quote is dropped with stripping, where the documentation promises the quote. */
  lemma EscapedQuoteDropped(m: Marks)
    requires m.strip && m.quote != m.delimiter
    ensures Fields([m.escape, m.quote], false, m) == [[]] && DocFields([m.escape, m.quote], false, m) == [[m.quote]]
  {
    var s := [m.escape, m.quote];
    assert s[1..] == [m.quote] && [m.quote][1..] == [] && s[2..] == [];
    PrependOne([], []);
    PrependOne([m.quote], []);
    assert [] + [m.quote] == [m.quote] && [m.quote] + [] == [m.quote];
    assert Fields([], true, m) == [[]] && DocFields([], false, m) == [[]];
    var none: string := [];
    assert none + none == none && Kept(m, m.escape) == none && Kept(m, m.quote) == none;
    assert FieldsFrom([m.quote], false, m, none) == Prepend(none + none, Fields([], true, m)) == [none + none];
  }
}
