/** Flow files as the bin packer sees them, and the integer attributes it reads. */
module FlowFiles {
  import opened Words
  import opened Options

  datatype FlowFile = FlowFile(id: nat, size: Size, attributes: map<string, string>, content: seq<Byte>)

  function Attribute(f: FlowFile, name: string): Option<string> {
    if name in f.attributes then Some(f.attributes[name]) else None
  }

  predicate IsSpace(c: char) {
    c == ' ' || '\t' <= c <= '\r'
  }

  predicate IsDigit(c: char) {
    '0' <= c <= '9'
  }

  /** Value of the leading decimal digits of s, after `seen`; trailing text is ignored. */
  function LeadingDigits(s: string, seen: nat): nat {
    if s == [] || !IsDigit(s[0]) then seen else LeadingDigits(s[1..], 10 * seen + (s[0] as int - '0' as int))
  }

  /** std::stoi: leading blanks, an optional sign, at least one digit, a value in int range; otherwise it throws. */
  function StoI(s: string): Option<Int> {
    if s != [] && IsSpace(s[0]) then StoI(s[1..])
    else
      var negative := s != [] && s[0] == '-';
      var t := if s != [] && (s[0] == '-' || s[0] == '+') then s[1..] else s;
      if t == [] || !IsDigit(t[0]) then None
      else
        var v: int := LeadingDigits(t, 0);
        var v := if negative then -v else v;
        if -INT_MAX - 1 <= v <= INT_MAX then Some(v) else None
  }
}
