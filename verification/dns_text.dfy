/** Text forms of record data used by dns/cpp/src/DnsPacket.cpp: decimal numbers (std::to_string),
    std::stoi for the MX priority, dotted-quad IPv4 addresses (inet_aton / inet_ntop), colon-separated
    IPv6 addresses (inet_pton / inet_ntop) and the unpadded hex dump of unknown record types. */
module DnsText {
  import opened Ints
  import opened Wrappers
  import DnsName

  // ---------------------------------------------------------------------------
  // Decimal digits

  predicate IsDigit(c: char) { '0' <= c <= '9' }

  predicate AllDigits(s: string) {
    forall i :: 0 <= i < |s| ==> IsDigit(s[i])
  }

  function DigitChar(d: nat): (c: char)
    requires d < 10
    ensures IsDigit(c) && c as int - '0' as int == d
  {
    ('0' as int + d) as char
  }

  /** Value of a digit string, most significant digit first. */
  function DigitsValue(s: string): nat
    requires AllDigits(s)
  {
    if |s| == 0 then 0
    else DigitsValue(s[..|s| - 1]) * 10 + (s[|s| - 1] as int - '0' as int)
  }

  /** std::to_string of a non-negative number. */
  function DecimalString(n: nat): (s: string)
    ensures 1 <= |s| && AllDigits(s)
    ensures |s| > 1 ==> s[0] != '0'
    ensures DigitsValue(s) == n
  {
    if n < 10 then [DigitChar(n)]
    else
      var s := DecimalString(n / 10) + [DigitChar(n % 10)];
      assert s[..|s| - 1] == DecimalString(n / 10);
      s
  }

  /** Canonical decimal: non-empty digits without a leading zero (except "0" itself). */
  predicate CanonicalDecimal(s: string) {
    |s| >= 1 && AllDigits(s) && (|s| > 1 ==> s[0] != '0')
  }

  function ParseDecimal(s: string): (r: Option<nat>)
    ensures r.Some? <==> CanonicalDecimal(s)
  {
    if CanonicalDecimal(s) then Some(DigitsValue(s)) else None
  }

  lemma {:induction false} LeadingDigitBound(s: string)
    requires CanonicalDecimal(s) && |s| > 1
    ensures DigitsValue(s[..|s| - 1]) >= 1
    decreases |s|
  {
    var init := s[..|s| - 1];
    if |init| > 1 {
      assert init[..|init| - 1] == s[..|s| - 2];
      LeadingDigitBound(init);
    } else {
      assert init == [s[0]];
      assert init[..0] == [];
    }
  }

  /** Rendering a parsed canonical decimal gives the text back. */
  lemma {:induction false} DecimalStringOfParse(s: string)
    requires CanonicalDecimal(s)
    ensures DecimalString(DigitsValue(s)) == s
    decreases |s|
  {
    if |s| > 1 {
      var init := s[..|s| - 1];
      LeadingDigitBound(s);
      assert CanonicalDecimal(init);
      DecimalStringOfParse(init);
      var n := DigitsValue(s);
      assert n / 10 == DigitsValue(init) && n % 10 == s[|s| - 1] as int - '0' as int;
      assert s == init + [s[|s| - 1]];
    } else {
      assert s[..0] == [];
    }
  }

  /** Decimal round trips in both directions. */
  lemma DecimalRoundTrip(n: nat, s: string)
    ensures ParseDecimal(DecimalString(n)) == Some(n)
    ensures ParseDecimal(s).Some? ==> DecimalString(ParseDecimal(s).value) == s
  {
    if ParseDecimal(s).Some? {
      DecimalStringOfParse(s);
    }
  }

  // ---------------------------------------------------------------------------
  // std::stoi (base 10): optional leading white space, an optional sign, at least one digit;
  // the first character that is not a digit ends the number; a value outside the range of
  // int throws std::out_of_range, no digits at all throws std::invalid_argument.

  predicate IsSpace(c: char) {
    c == ' ' || c == '\t' || c == '\n' || c as int == 11 || c as int == 12 || c == '\r'
  }

  /** Length of the longest prefix satisfying IsDigit. */
  function DigitRun(s: string): (n: nat)
    ensures n <= |s| && AllDigits(s[..n])
    ensures n < |s| ==> !IsDigit(s[n])
  {
    if |s| == 0 || !IsDigit(s[0]) then 0
    else
      var n := 1 + DigitRun(s[1..]);
      assert s[..n] == [s[0]] + s[1..][..n - 1];
      n
  }

  function SkipSpace(s: string): (t: string)
    ensures |t| <= |s| && t == s[|s| - |t|..]
    ensures |t| > 0 ==> !IsSpace(t[0])
  {
    if |s| > 0 && IsSpace(s[0]) then SkipSpace(s[1..]) else s
  }

  function Stoi(s: string): (r: Option<int>)
    ensures r.Some? ==> INT32_MIN <= r.value <= INT32_MAX
    ensures (forall i :: 0 <= i < |s| ==> !IsDigit(s[i])) ==> r.None?
  {
    var t := SkipSpace(s);
    var negative := |t| > 0 && t[0] == '-';
    var body := if |t| > 0 && (t[0] == '-' || t[0] == '+') then t[1..] else t;
    var n := DigitRun(body);
    if n == 0 then None
    else
      var magnitude: int := DigitsValue(body[..n]);
      var value := if negative then -magnitude else magnitude;
      if value < INT32_MIN || value > INT32_MAX then None else Some(value)
  }

  /** stoi reads back a rendered number, whatever follows it after a non-digit. */
  lemma {:induction false} StoiOfDecimal(n: nat, rest: string)
    requires n <= INT32_MAX
    requires |rest| > 0 ==> !IsDigit(rest[0])
    ensures Stoi(DecimalString(n) + rest) == Some(n)
  {
    var d := DecimalString(n);
    var s := d + rest;
    assert !IsSpace(s[0]) && s[0] != '-' && s[0] != '+';
    assert SkipSpace(s) == s;
    DigitRunOf(d, rest);
    assert s[..|d|] == d;
  }

  lemma {:induction false} DigitRunOf(d: string, rest: string)
    requires AllDigits(d)
    requires |rest| > 0 ==> !IsDigit(rest[0])
    ensures DigitRun(d + rest) == |d|
    decreases |d|
  {
    if |d| > 0 {
      assert (d + rest)[1..] == d[1..] + rest;
      DigitRunOf(d[1..], rest);
    } else {
      assert d + rest == rest;
    }
  }

  /** An int written in decimal, with a minus sign when negative. */
  function SignedDecimal(n: int): (s: string)
    ensures |s| >= 1 && forall i :: 0 <= i < |s| ==> s[i] == '-' || IsDigit(s[i])
  {
    if n < 0 then "-" + DecimalString(-n) else DecimalString(n)
  }

  /** stoi reads back any int written in decimal, whatever follows it after a non-digit. */
  lemma StoiOfSigned(n: int, rest: string)
    requires INT32_MIN <= n <= INT32_MAX
    requires |rest| > 0 ==> !IsDigit(rest[0])
    ensures Stoi(SignedDecimal(n) + rest) == Some(n)
  {
    hide Stoi, DigitsValue;
    if n >= 0 {
      StoiOfDecimal(n, rest);
    } else {
      var d := DecimalString(-n);
      assert SignedDecimal(n) + rest == "-" + d + rest;
      StoiOfNegative(d, rest);
    }
  }

  /** A minus sign and digits, with a non-digit or nothing after them. */
  lemma StoiOfNegative(d: string, rest: string)
    requires 1 <= |d| && AllDigits(d) && DigitsValue(d) <= -INT32_MIN
    requires |rest| > 0 ==> !IsDigit(rest[0])
    ensures Stoi("-" + d + rest) == Some(-(DigitsValue(d) as int))
  {
    hide DigitsValue, SkipSpace, DigitRun;
    var s := "-" + d + rest;
    assert s[0] == '-' && s[1..] == d + rest;
    NoLeadingSpace(s);
    DigitRunOf(d, rest);
    assert (d + rest)[..|d|] == d;
  }

  lemma NoLeadingSpace(s: string)
    requires |s| > 0 && !IsSpace(s[0])
    ensures SkipSpace(s) == s
  {
  }

  // ---------------------------------------------------------------------------
  // IPv4 text: inet_ntop prints four decimal octets joined by dots; the parser accepts exactly
  // that form.

  function FormatIpv4(b: seq<uint8>): (s: string)
    requires |b| == 4
  {
    DnsName.Join([DecimalString(b[0]), DecimalString(b[1]), DecimalString(b[2]), DecimalString(b[3])])
  }

  function ParseIpv4(s: string): (r: Option<seq<uint8>>)
    ensures r.Some? ==> |r.value| == 4
  {
    var parts := DnsName.SplitDots(s);
    if |parts| != 4 then None
    else
      var a :- ParseOctet(parts[0]);
      var b :- ParseOctet(parts[1]);
      var c :- ParseOctet(parts[2]);
      var d :- ParseOctet(parts[3]);
      Some([a, b, c, d])
  }

  function ParseOctet(s: string): (r: Option<uint8>)
    ensures r.Some? ==> CanonicalDecimal(s) && DecimalString(r.value) == s
  {
    match ParseDecimal(s)
    case None => None
    case Some(n) =>
      if n > 255 then None
      else
        DecimalStringOfParse(s);
        Some(n)
  }

  /** A decimal string holds no dot, so splitting the joined octets gives them back. */
  lemma {:induction false} SplitJoinNoDots(parts: seq<string>)
    requires |parts| >= 1
    requires forall i :: 0 <= i < |parts| ==> AllDigits(parts[i])
    ensures DnsName.SplitDots(DnsName.Join(parts)) == parts
    decreases |parts|
  {
    var p := parts[0];
    DnsName.FindCharAt(p, '.', 0, |p|);
    if |parts| == 1 {
    } else {
      var s := DnsName.Join(parts);
      var rest := DnsName.Join(parts[1..]);
      assert s == p + "." + rest;
      FindDotPrefix(p, rest);
      assert s[..|p|] == p && s[|p| + 1..] == rest;
      SplitJoinNoDots(parts[1..]);
    }
  }

  lemma {:induction false} FindDotPrefix(p: string, rest: string)
    requires AllDigits(p)
    ensures DnsName.FindChar(p + "." + rest, '.', 0) == |p|
  {
    var s := p + "." + rest;
    forall k | 0 <= k < |p| ensures s[k] != '.' {
      assert s[k] == p[k];
    }
    DnsName.FindCharAt(s, '.', 0, |p|);
  }

  /** Rendered addresses parse back to the same four bytes. */
  lemma Ipv4FormatParse(b: seq<uint8>)
    requires |b| == 4
    ensures ParseIpv4(FormatIpv4(b)) == Some(b)
  {
    var parts := [DecimalString(b[0]), DecimalString(b[1]), DecimalString(b[2]), DecimalString(b[3])];
    SplitJoinNoDots(parts);
    DecimalRoundTrip(b[0], "");
    DecimalRoundTrip(b[1], "");
    DecimalRoundTrip(b[2], "");
    DecimalRoundTrip(b[3], "");
    assert ParseOctet(parts[0]) == Some(b[0]);
    assert ParseOctet(parts[1]) == Some(b[1]);
    assert ParseOctet(parts[2]) == Some(b[2]);
    assert ParseOctet(parts[3]) == Some(b[3]);
    assert [b[0], b[1], b[2], b[3]] == b;
  }

  /** Whatever the parser accepts is exactly the rendering of what it returns. */
  lemma Ipv4ParseFormat(s: string)
    ensures ParseIpv4(s).Some? ==> FormatIpv4(ParseIpv4(s).value) == s
  {
    if ParseIpv4(s).Some? {
      var ps := DnsName.SplitDots(s);
      DnsName.JoinSplit(s);
      var v := ParseIpv4(s).value;
      assert [DecimalString(v[0]), DecimalString(v[1]), DecimalString(v[2]), DecimalString(v[3])] == ps;
    }
  }

  // ---------------------------------------------------------------------------
  // Hexadecimal digits

  predicate IsHexDigit(c: char) {
    '0' <= c <= '9' || 'a' <= c <= 'f' || 'A' <= c <= 'F'
  }

  function HexDigitValue(c: char): (v: nat)
    requires IsHexDigit(c)
    ensures v < 16
  {
    if '0' <= c <= '9' then c as int - '0' as int
    else if 'a' <= c <= 'f' then c as int - 'a' as int + 10
    else c as int - 'A' as int + 10
  }

  /** Lowercase hex digit (std::hex, printfHex uses an upper-case table of its own). */
  function HexChar(d: nat): (c: char)
    requires d < 16
    ensures IsHexDigit(c) && HexDigitValue(c) == d
    ensures !('A' <= c <= 'F')
  {
    if d < 10 then ('0' as int + d) as char else ('a' as int + d - 10) as char
  }

  /** `oss << std::hex << int(b)`: lowercase, no zero padding. */
  function HexByte(b: uint8): (s: string)
    ensures 1 <= |s| <= 2
    ensures |s| == 1 <==> b < 16
    ensures forall i :: 0 <= i < |s| ==> IsHexDigit(s[i])
    ensures |s| == 1 ==> HexDigitValue(s[0]) == b
    ensures |s| == 2 ==> HexDigitValue(s[0]) * 16 + HexDigitValue(s[1]) == b && s[0] != '0'
  {
    if b < 16 then [HexChar(b)] else [HexChar(b / 16), HexChar(b % 16)]
  }

  /** The unknown-type rendering: each byte's unpadded hex, concatenated. */
  function HexDump(bs: seq<uint8>): (s: string)
    ensures |bs| <= |s| <= 2 * |bs|
    ensures forall i :: 0 <= i < |s| ==> IsHexDigit(s[i])
  {
    if |bs| == 0 then "" else HexByte(bs[0]) + HexDump(bs[1..])
  }

  /** Without padding, different data can render alike: [0x01, 0x23] and [0x12, 0x03] both give "123". */
  lemma HexDumpNotInjective()
    ensures HexDump([0x01, 0x23]) == HexDump([0x12, 0x03]) == "123"
  {
    assert HexByte(0x01) == "1" && HexByte(0x23) == "23";
    assert HexByte(0x12) == "12" && HexByte(0x03) == "3";
  }

  // ---------------------------------------------------------------------------
  // IPv6 text, full form: eight groups of four lowercase hex digits joined by ':'.

  function Hex4(v: nat): (s: string)
    requires v < 0x10000
    ensures |s| == 4
  {
    [HexChar(v / 0x1000), HexChar(v / 0x100 % 16), HexChar(v / 16 % 16), HexChar(v % 16)]
  }

  function HexValue(s: string): nat
    requires forall i :: 0 <= i < |s| ==> IsHexDigit(s[i])
  {
    if |s| == 0 then 0 else HexValue(s[..|s| - 1]) * 16 + HexDigitValue(s[|s| - 1])
  }

  lemma Hex4Value(v: nat)
    requires v < 0x10000
    ensures forall i :: 0 <= i < 4 ==> IsHexDigit(Hex4(v)[i])
    ensures HexValue(Hex4(v)) == v
  {
    var s := Hex4(v);
    HexValueOfFour(s);
    Base16Digits(v);
  }

  /** Four hex digits, read most significant first. */
  lemma HexValueOfFour(s: string)
    requires |s| == 4 && forall i :: 0 <= i < 4 ==> IsHexDigit(s[i])
    ensures HexValue(s) == ((HexDigitValue(s[0]) * 16 + HexDigitValue(s[1])) * 16 + HexDigitValue(s[2])) * 16 + HexDigitValue(s[3])
  {
    assert HexValue(s[..1]) == HexDigitValue(s[0]) by {
      assert s[..1][..0] == [];
      assert s[..1][0] == s[0];
    }
    assert HexValue(s[..2]) == HexValue(s[..1]) * 16 + HexDigitValue(s[1]) by {
      assert s[..2][..1] == s[..1];
      assert s[..2][1] == s[1];
    }
    assert HexValue(s[..3]) == HexValue(s[..2]) * 16 + HexDigitValue(s[2]) by {
      assert s[..3][..2] == s[..2];
      assert s[..3][2] == s[2];
    }
  }

  lemma Base16Digits(v: nat)
    requires v < 0x10000
    ensures v == ((v / 0x1000 * 16 + v / 0x100 % 16) * 16 + v / 16 % 16) * 16 + v % 16
  {
    assert v / 16 == (v / 0x100) * 16 + v / 16 % 16;
    assert v / 0x100 == (v / 0x1000) * 16 + v / 0x100 % 16;
  }

  function Groups(b: seq<uint8>): (g: seq<string>)
    requires |b| % 2 == 0
    ensures |g| == |b| / 2
    ensures forall i :: 0 <= i < |g| ==> |g[i]| == 4
  {
    if |b| == 0 then [] else [Hex4(b[0] as int * 256 + b[1])] + Groups(b[2..])
  }

  function JoinColons(parts: seq<string>): string {
    if |parts| == 0 then ""
    else if |parts| == 1 then parts[0]
    else parts[0] + ":" + JoinColons(parts[1..])
  }

  /** The full form: 39 characters, a colon after every four hex digits. */
  function FormatIpv6(b: seq<uint8>): (s: string)
    requires |b| == 16
    ensures |s| == 39
    ensures forall k :: 0 <= k < |s| ==> if k % 5 == 4 then s[k] == ':' else IsHexDigit(s[k])
  {
    var groups := Groups(b);
    forall i | 0 <= i < |groups| ensures forall k :: 0 <= k < 4 ==> IsHexDigit(groups[i][k]) {
      GroupsAreHex(b, i);
    }
    JoinColonsShape(groups);
    JoinColons(groups)
  }

  /** Groups of four hex digits joined by colons: a colon at every fifth position, digits elsewhere. */
  lemma {:induction false} JoinColonsShape(parts: seq<string>)
    requires |parts| >= 1
    requires forall i :: 0 <= i < |parts| ==> |parts[i]| == 4
    requires forall i :: 0 <= i < |parts| ==> forall k :: 0 <= k < 4 ==> IsHexDigit(parts[i][k])
    ensures |JoinColons(parts)| == 5 * |parts| - 1
    ensures forall k :: 0 <= k < |JoinColons(parts)| ==>
      if k % 5 == 4 then JoinColons(parts)[k] == ':' else IsHexDigit(JoinColons(parts)[k])
    decreases |parts|
  {
    if |parts| > 1 {
      var rest := JoinColons(parts[1..]);
      JoinColonsShape(parts[1..]);
      var s := parts[0] + ":" + rest;
      assert JoinColons(parts) == s;
      forall k | 0 <= k < |s| ensures if k % 5 == 4 then s[k] == ':' else IsHexDigit(s[k]) {
        if k < 4 {
          assert s[k] == parts[0][k];
        } else if k > 4 {
          assert s[k] == rest[k - 5];
          assert (k - 5) % 5 == k % 5;
        }
      }
    }
  }

  /** One group of the colon-separated form: one to four hex digits, in either case. */
  predicate IsGroup(s: string) {
    1 <= |s| <= 4 && forall i :: 0 <= i < |s| ==> IsHexDigit(s[i])
  }

  function ParseGroup(s: string): (r: Option<seq<uint8>>)
    ensures r.Some? ==> |r.value| == 2
  {
    if IsGroup(s) then
      GroupValueBound(s);
      var v := HexValue(s);
      Some([v / 256, v % 256])
    else None
  }

  /** At most four hex digits make a 16-bit value. */
  lemma GroupValueBound(s: string)
    requires 1 <= |s| <= 4 && forall i :: 0 <= i < |s| ==> IsHexDigit(s[i])
    ensures HexValue(s) < TWO_16
  {
    HexValueBound(s);
    assert Pow16(1) == 16;
    assert Pow16(4) == TWO_16;
  }

  lemma {:induction false} HexValueBound(s: string)
    requires forall i :: 0 <= i < |s| ==> IsHexDigit(s[i])
    ensures HexValue(s) < Pow16(|s|)
    decreases |s|
  {
    if |s| > 0 {
      HexValueBound(s[..|s| - 1]);
    }
  }

  function Pow16(n: nat): (p: nat)
    ensures p >= 1
  {
    if n == 0 then 1 else 16 * Pow16(n - 1)
  }

  /** Exactly eight colon-separated groups. */
  function ParseIpv6(s: string): (r: Option<seq<uint8>>)
    ensures r.Some? ==> |r.value| == 16
    ensures r.Some? <==> |SplitColons(s)| == 8 && forall g :: 0 <= g < 8 ==> IsGroup(SplitColons(s)[g])
    ensures r.Some? ==> forall g :: 0 <= g < 8 ==>
      HexValue(SplitColons(s)[g]) == r.value[2 * g] as int * 256 + r.value[2 * g + 1]
  {
    var parts := SplitColons(s);
    ParseGroupsSpec(parts);
    if |parts| != 8 then None
    else ParseGroups(parts)
  }

  function ParseGroups(parts: seq<string>): (r: Option<seq<uint8>>)
    ensures r.Some? ==> |r.value| == 2 * |parts|
  {
    if |parts| == 0 then Some([])
    else
      var g :- ParseGroup(parts[0]);
      var rest :- ParseGroups(parts[1..]);
      Some(g + rest)
  }

  /** The groups parse exactly when each is one to four hex digits, and byte pair `g` of the
      result holds the value of group `g`, high byte first. */
  lemma {:induction false} ParseGroupsSpec(parts: seq<string>)
    ensures ParseGroups(parts).Some? <==> forall g :: 0 <= g < |parts| ==> IsGroup(parts[g])
    ensures ParseGroups(parts).Some? ==> var b := ParseGroups(parts).value;
      forall g :: 0 <= g < |parts| ==> IsGroup(parts[g]) && HexValue(parts[g]) == b[2 * g] as int * 256 + b[2 * g + 1]
    decreases |parts|
  {
    if |parts| > 0 {
      ParseGroupsSpec(parts[1..]);
      assert forall g :: 1 <= g < |parts| ==> parts[1..][g - 1] == parts[g];
      if ParseGroups(parts).Some? {
        var b := ParseGroups(parts).value;
        var rest := ParseGroups(parts[1..]).value;
        GroupValueBound(parts[0]);
        var v := HexValue(parts[0]);
        assert b == [v / 256, v % 256] + rest;
        forall g | 0 <= g < |parts|
          ensures IsGroup(parts[g]) && HexValue(parts[g]) == b[2 * g] as int * 256 + b[2 * g + 1]
        {
          if g > 0 {
            assert parts[g] == parts[1..][g - 1];
            assert b[2 * g] == rest[2 * (g - 1)] && b[2 * g + 1] == rest[2 * (g - 1) + 1];
          }
        }
      }
    }
  }

  function SplitColons(s: string): (parts: seq<string>)
    ensures |parts| >= 1
    decreases |s|
  {
    var i := DnsName.FindChar(s, ':', 0);
    if i == |s| then [s] else [s[..i]] + SplitColons(s[i + 1..])
  }

  lemma {:induction false} SplitJoinColons(parts: seq<string>)
    requires |parts| >= 1
    requires forall i :: 0 <= i < |parts| ==> forall k :: 0 <= k < |parts[i]| ==> IsHexDigit(parts[i][k])
    ensures SplitColons(JoinColons(parts)) == parts
    decreases |parts|
  {
    var p := parts[0];
    if |parts| == 1 {
      DnsName.FindCharAt(p, ':', 0, |p|);
    } else {
      var rest := JoinColons(parts[1..]);
      var s := p + ":" + rest;
      assert JoinColons(parts) == s;
      forall k | 0 <= k < |p| ensures s[k] != ':' {
        assert s[k] == p[k];
      }
      DnsName.FindCharAt(s, ':', 0, |p|);
      assert s[..|p|] == p && s[|p| + 1..] == rest;
      SplitJoinColons(parts[1..]);
    }
  }

  lemma {:induction false} ParseGroupsOfFormat(b: seq<uint8>)
    requires |b| % 2 == 0
    ensures ParseGroups(Groups(b)) == Some(b)
    decreases |b|
  {
    hide ParseGroup, Hex4;
    if |b| > 0 {
      ParseGroupOfHex4(b[0], b[1]);
      ParseGroupsOfFormat(b[2..]);
      assert Groups(b)[1..] == Groups(b[2..]);
      assert [b[0], b[1]] + b[2..] == b;
    }
  }

  /** One group of the full form parses back to its two bytes. */
  lemma ParseGroupOfHex4(hi: uint8, lo: uint8)
    ensures ParseGroup(Hex4(hi as int * 256 + lo)) == Some([hi, lo])
  {
    var v := hi as int * 256 + lo;
    Hex4Value(v);
    assert v / 256 == hi && v % 256 == lo;
  }

  /** The full-form rendering parses back to the same sixteen bytes. */
  lemma {:induction false} Ipv6RoundTrip(b: seq<uint8>)
    requires |b| == 16
    ensures ParseIpv6(FormatIpv6(b)) == Some(b)
  {
    var groups := Groups(b);
    forall i | 0 <= i < |groups| ensures forall k :: 0 <= k < |groups[i]| ==> IsHexDigit(groups[i][k]) {
      GroupsAreHex(b, i);
    }
    SplitJoinColons(groups);
    ParseGroupsOfFormat(b);
  }

  lemma {:induction false} GroupsAreHex(b: seq<uint8>, i: nat)
    requires |b| % 2 == 0 && i < |b| / 2
    ensures forall k :: 0 <= k < 4 ==> IsHexDigit(Groups(b)[i][k])
    decreases |b|
  {
    if i == 0 {
      Hex4Value(b[0] as int * 256 + b[1]);
    } else {
      GroupsAreHex(b[2..], i - 1);
    }
  }
}
