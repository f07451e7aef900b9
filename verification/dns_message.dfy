/** The message structures and flag accessors of dns/cpp/src/DnsPacket.hpp and the type-name
    conversions stringToType / typeToString of dns/cpp/src/DnsPacket.cpp. */
module DnsMessage {
  import opened Ints

  // Record type codes (section 3.2.2 of RFC 1035; AAAA from RFC 3596) and the IN class.
  const TYPE_A: uint16 := 1
  const TYPE_NS: uint16 := 2
  const TYPE_CNAME: uint16 := 5
  const TYPE_SOA: uint16 := 6
  const TYPE_PTR: uint16 := 12
  const TYPE_MX: uint16 := 15
  const TYPE_TXT: uint16 := 16
  const TYPE_AAAA: uint16 := 28
  const CLASS_IN: uint16 := 1

  /** The eight enumerators of DnsType. A decoded type field may hold any other 16-bit value. */
  predicate IsNamedType(t: uint16) {
    t in {TYPE_A, TYPE_NS, TYPE_CNAME, TYPE_SOA, TYPE_PTR, TYPE_MX, TYPE_TXT, TYPE_AAAA}
  }

  datatype Question = Question(name: string, qtype: uint16, qclass: uint16)

  /** A resource record with its data in text form (DnsAnswer). */
  datatype Answer = Answer(name: string, rtype: uint16, rclass: uint16, ttl: uint32, data: string)

  datatype Message = Message(
    id: uint16,
    flags: uint16,
    questions: seq<Question>,
    answers: seq<Answer>,
    authority: seq<Answer>,
    additional: seq<Answer>)

  // ---------------------------------------------------------------------------
  // Header flags (section 4.1.1 of RFC 1035): QR is bit 15, TC bit 9, RA bit 7, RCODE bits 0-3.
  // The word is an unsigned 16-bit number; the accessors work on its bit-vector view.

  const QR_BIT: bv16 := 0x8000
  const TC_BIT: bv16 := 0x0200
  const RA_BIT: bv16 := 0x0080
  const RCODE_MASK: bv16 := 0x000F

  /** The flags word as sixteen bits. */
  function Bits(flags: uint16): bv16 {
    flags as bv16
  }

  /** A bit pattern read back as a flags word. */
  function FromBits(b: bv16): (flags: uint16)
    ensures Bits(flags) == b
  {
    b as int
  }

  predicate IsResponse(flags: uint16) { Bits(flags) & QR_BIT != 0 }

  predicate IsTruncated(flags: uint16) { Bits(flags) & TC_BIT != 0 }

  /** getRCode: the low four bits. */
  function GetRCode(flags: uint16): (r: bv8)
    ensures r < 16
  {
    (Bits(flags) & RCODE_MASK) as bv8
  }

  /** setRCode: only the low four bits of the argument are kept; the other twelve bits stay. */
  function SetRCode(flags: uint16, rcode: bv8): (f: uint16)
    ensures GetRCode(f) == rcode & 0xF
    ensures Bits(f) & 0xFFF0 == Bits(flags) & 0xFFF0
  {
    FromBits((Bits(flags) & 0xFFF0) | ((rcode as bv16) & RCODE_MASK))
  }

  function SetResponse(flags: uint16): (f: uint16)
    ensures IsResponse(f)
    ensures Bits(f) & !QR_BIT == Bits(flags) & !QR_BIT
  {
    FromBits(Bits(flags) | QR_BIT)
  }

  function SetRecursionAvailable(flags: uint16): (f: uint16)
    ensures Bits(f) & RA_BIT != 0
    ensures Bits(f) & !RA_BIT == Bits(flags) & !RA_BIT
  {
    FromBits(Bits(flags) | RA_BIT)
  }

  function SetTruncated(flags: uint16): (f: uint16)
    ensures IsTruncated(f)
    ensures Bits(f) & !TC_BIT == Bits(flags) & !TC_BIT
  {
    FromBits(Bits(flags) | TC_BIT)
  }

  function ClearTruncated(flags: uint16): (f: uint16)
    ensures !IsTruncated(f)
    ensures Bits(f) & !TC_BIT == Bits(flags) & !TC_BIT
  {
    FromBits(Bits(flags) & !TC_BIT)
  }

  /** Setting the RCODE keeps the QR and TC bits. */
  lemma SetRCodeKeepsFlags(flags: uint16, rcode: bv8)
    ensures IsResponse(SetRCode(flags, rcode)) == IsResponse(flags)
    ensures IsTruncated(SetRCode(flags, rcode)) == IsTruncated(flags)
  {
  }

  // ---------------------------------------------------------------------------
  // Type names

  /** toupper in the C locale: only 'a'..'z' change. */
  function ToUpper(c: char): (u: char)
    ensures 'a' <= c <= 'z' ==> u as int == c as int - 32
    ensures !('a' <= c <= 'z') ==> u == c
  {
    if 'a' <= c <= 'z' then (c as int - 32) as char else c
  }

  function Upper(s: string): (u: string)
    ensures |u| == |s|
    ensures forall i :: 0 <= i < |s| ==> u[i] == ToUpper(s[i])
  {
    seq(|s|, i requires 0 <= i < |s| => ToUpper(s[i]))
  }

  /** The mnemonic of each named type. */
  function TypeName(t: uint16): string
    requires IsNamedType(t)
  {
    if t == TYPE_A then "A"
    else if t == TYPE_NS then "NS"
    else if t == TYPE_CNAME then "CNAME"
    else if t == TYPE_SOA then "SOA"
    else if t == TYPE_PTR then "PTR"
    else if t == TYPE_MX then "MX"
    else if t == TYPE_TXT then "TXT"
    else "AAAA"
  }

  /** stringToType: case-insensitive lookup of a mnemonic; anything unknown becomes A. */
  function StringToType(s: string): (t: uint16)
    ensures IsNamedType(t)
    ensures t != TYPE_A ==> TypeName(t) == Upper(s)
    ensures (exists n :: IsNamedType(n) && TypeName(n) == Upper(s)) ==> TypeName(t) == Upper(s)
  {
    var u := Upper(s);
    if u == "A" then TYPE_A
    else if u == "NS" then TYPE_NS
    else if u == "CNAME" then TYPE_CNAME
    else if u == "SOA" then TYPE_SOA
    else if u == "PTR" then TYPE_PTR
    else if u == "MX" then TYPE_MX
    else if u == "TXT" then TYPE_TXT
    else if u == "AAAA" then TYPE_AAAA
    else TYPE_A
  }

  /** typeToString: the mnemonic of a named type, "A" for any other code. */
  function TypeToString(t: uint16): (s: string)
    ensures IsNamedType(t) ==> s == TypeName(t)
    ensures !IsNamedType(t) ==> s == "A"
  {
    if t == TYPE_A then "A"
    else if t == TYPE_NS then "NS"
    else if t == TYPE_CNAME then "CNAME"
    else if t == TYPE_SOA then "SOA"
    else if t == TYPE_PTR then "PTR"
    else if t == TYPE_MX then "MX"
    else if t == TYPE_TXT then "TXT"
    else if t == TYPE_AAAA then "AAAA"
    else "A"
  }

  /** Naming a type and looking the name up again gives the type back. */
  lemma TypeNameRoundTrip(t: uint16)
    requires IsNamedType(t)
    ensures StringToType(TypeToString(t)) == t
  {
    var name := TypeToString(t);
    assert forall i :: 0 <= i < |name| ==> 'A' <= name[i] <= 'Z';
    assert Upper(name) == name;
  }

  /** The lookup ignores case. */
  lemma StringToTypeIgnoresCase(s: string)
    ensures StringToType(Upper(s)) == StringToType(s)
  {
    forall i | 0 <= i < |s| ensures Upper(Upper(s))[i] == Upper(s)[i] {
      assert ToUpper(ToUpper(s[i])) == ToUpper(s[i]);
    }
    assert Upper(Upper(s)) == Upper(s);
  }

  /** A known mnemonic, in any case, survives the trip to a code and back as its upper-case form. */
  lemma TypeStringRoundTrip(s: string)
    requires exists n :: IsNamedType(n) && TypeName(n) == Upper(s)
    ensures TypeToString(StringToType(s)) == Upper(s)
  {
  }
}
