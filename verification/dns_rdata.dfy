/** Record data conversion of dns/cpp/src/DnsPacket.cpp: encodeRecordData (text to wire bytes)
    and decodeRecordData (wire bytes to text), per record type. */
module DnsRdata {
  import opened Ints
  import opened Wrappers
  import opened DnsWire
  import opened DnsMessage
  import DnsName
  import DnsText

  /** The types encodeRecordData handles; SOA and every unlisted code are refused. */
  predicate IsEncodableType(t: uint16) {
    t in {TYPE_A, TYPE_AAAA, TYPE_CNAME, TYPE_NS, TYPE_PTR, TYPE_TXT, TYPE_MX}
  }

  predicate IsNameType(t: uint16) {
    t == TYPE_CNAME || t == TYPE_NS || t == TYPE_PTR
  }

  /** Position of the first ' ' in MX text (std::string::find), or its length when there is none. */
  function FindSpace(s: string): (i: nat)
    ensures i <= |s|
  {
    DnsName.FindChar(s, ' ', 0)
  }

  /** The MX text "priority name". The text before the first space goes through std::stoi and a
      uint16 cast and is written big-endian; the text after it is written as a name. */
  function EncodeMx(data: string): (r: Result<Bytes, DnsError>)
    ensures FindSpace(data) == |data| ==> r == Err(InvalidMx)
    ensures FindSpace(data) < |data| && DnsText.Stoi(data[..FindSpace(data)]).None? ==> r == Err(InvalidMxPriority)
    ensures r.Ok? <==> FindSpace(data) < |data| && DnsText.Stoi(data[..FindSpace(data)]).Some?
                       && DnsName.EncodeName(data[FindSpace(data) + 1..]).Ok?
    ensures r.Ok? ==> var space := FindSpace(data);
      && |r.value| >= 3
      && ReadUint16(r.value, 0) == Ok((ToUint16(DnsText.Stoi(data[..space]).value), 2))
      && DnsName.EncodeName(data[space + 1..]) == Ok(r.value[2..])
  {
    var space := FindSpace(data);
    if space == |data| then Err(InvalidMx)
    else
      match DnsText.Stoi(data[..space])
      case None => Err(InvalidMxPriority)
      case Some(priority) =>
        var name :- DnsName.EncodeName(data[space + 1..]);
        var w := WriteUint16(ToUint16(priority));
        assert (w + name)[2..] == name;
        Ok(w + name)
  }

  /** Any int priority is stored modulo 65536 ("70000 mx" gets 4464, "-1 mx" gets 65535), and
      stoi ignores what follows the digits up to the space ("10ms mx" gets 10). A leading space
      leaves no priority text at all, so " 10 mx" is refused. */
  lemma MxPriorityWraps(n: int, junk: string, name: string, t: string)
    requires INT32_MIN <= n <= INT32_MAX
    requires |junk| > 0 ==> !DnsText.IsDigit(junk[0])
    requires forall k :: 0 <= k < |junk| ==> junk[k] != ' '
    ensures var r := EncodeMx(DnsText.SignedDecimal(n) + junk + " " + name);
      && (r.Ok? <==> DnsName.EncodeName(name).Ok?)
      && (r.Ok? ==> r.value == WriteUint16(n % TWO_16) + DnsName.EncodeName(name).value)
    ensures EncodeMx(" " + t) == Err(InvalidMxPriority)
  {
    var p := DnsText.SignedDecimal(n) + junk;
    var data := p + " " + name;
    assert forall k :: 0 <= k < |p| ==> data[k] == p[k] && p[k] != ' ';
    DnsName.FindCharAt(data, ' ', 0, |p|);
    assert data[..|p|] == p && data[|p| + 1..] == name;
    DnsText.StoiOfSigned(n, junk);
    DnsName.FindCharAt(" " + t, ' ', 0, 0);
    assert (" " + t)[..0] == "";
  }

  /** encodeRecordData. */
  function EncodeRecordData(rtype: uint16, data: string): (r: Result<Bytes, DnsError>)
    ensures !IsEncodableType(rtype) ==> r == Err(UnsupportedType)
    ensures IsNameType(rtype) ==> r == DnsName.EncodeName(data)
    ensures rtype == TYPE_MX ==> r == EncodeMx(data)
    ensures rtype == TYPE_TXT ==> r.Ok? && |r.value| == |data| + 1
  {
    if rtype == TYPE_A then
      match DnsText.ParseIpv4(data)
      case None => Err(InvalidIpv4)
      case Some(b) => Ok(b)
    else if rtype == TYPE_AAAA then
      match DnsText.ParseIpv6(data)
      case None => Err(InvalidIpv6)
      case Some(b) => Ok(b)
    else if IsNameType(rtype) then DnsName.EncodeName(data)
    else if rtype == TYPE_TXT then
      // static_cast<uint8_t>: the length byte wraps for texts over 255 characters
      Ok([|data| % 256] + DnsName.ToBytes(data))
    else if rtype == TYPE_MX then EncodeMx(data)
    else Err(UnsupportedType)
  }

  /** The A case: exactly the dotted-quad texts encode, to the four bytes they spell. */
  lemma EncodeASpec(data: string)
    ensures var r := EncodeRecordData(TYPE_A, data);
      && (r.Ok? <==> DnsText.ParseIpv4(data).Some?)
      && (r.Ok? ==> |r.value| == 4 && DnsText.FormatIpv4(r.value) == data)
  {
    if DnsText.ParseIpv4(data).Some? {
      DnsText.Ipv4ParseFormat(data);
    }
  }

  /** The AAAA case: the text encodes exactly when it is eight colon-separated groups of one to
      four hex digits, and byte pair `g` then holds the value of group `g`, high byte first. */
  lemma EncodeAaaaSpec(data: string)
    ensures var r := EncodeRecordData(TYPE_AAAA, data); var parts := DnsText.SplitColons(data);
      && (r.Ok? <==> |parts| == 8 && forall g :: 0 <= g < 8 ==> DnsText.IsGroup(parts[g]))
      && (r.Ok? ==> |r.value| == 16 && forall g :: 0 <= g < 8 ==>
            DnsText.IsGroup(parts[g]) && DnsText.HexValue(parts[g]) == r.value[2 * g] as int * 256 + r.value[2 * g + 1])
  {
    DnsText.ParseGroupsSpec(DnsText.SplitColons(data));
  }

  /** The TXT encoding: the length byte, then the characters as bytes. */
  lemma EncodeTxtBytes(data: string)
    ensures EncodeRecordData(TYPE_TXT, data) == Ok([|data| % 256] + DnsName.ToBytes(data))
  {
  }

  /** The TXT case of decodeRecordData as written: the string is `buf[offset]` bytes from
      `offset + 1`, whatever `length` says. Reading past the buffer is undefined behaviour. */
  datatype TxtRead = TxtText(text: string) | TxtOverread

  function DecodeTxtAsWritten(buf: Bytes, offset: nat, length: nat): (r: TxtRead)
    requires offset + length <= |buf|
    ensures length > 0 && offset + 1 + buf[offset] > |buf| ==> r == TxtOverread
    ensures r.TxtText? && length > 0 ==> |r.text| == buf[offset]
  {
    if length == 0 then TxtText("")
    else if offset + 1 + buf[offset] > |buf| then TxtOverread
    else TxtText(DnsName.Chars(buf[offset + 1..offset + 1 + buf[offset]]))
  }

  /** The TXT case, corrected: the character-string must lie inside the record data. */
  function DecodeTxt(buf: Bytes, offset: nat, length: nat): (r: Result<string, DnsError>)
    requires offset + length <= |buf|
    ensures length == 0 ==> r == Ok("")
    ensures r.Err? <==> length > 0 && 1 + buf[offset] > length
    ensures r.Ok? && length > 0 ==> |r.value| == buf[offset] && DnsName.ToBytes(r.value) == buf[offset + 1..offset + 1 + buf[offset]]
    ensures r.Ok? ==> DnsName.IsByteString(r.value)
  {
    if length == 0 then Ok("")
    else if 1 + buf[offset] > length then Err(TxtPastRecordData)
    else
      var text := DnsName.Chars(buf[offset + 1..offset + 1 + buf[offset]]);
      assert DnsName.ToBytes(text) == buf[offset + 1..offset + 1 + buf[offset]];
      Ok(text)
  }

  /** Where the string fits inside the record data, the corrected TXT decoding agrees with the code. */
  lemma DecodeTxtAgrees(buf: Bytes, offset: nat, length: nat)
    requires offset + length <= |buf|
    requires DecodeTxt(buf, offset, length).Ok?
    ensures DecodeTxtAsWritten(buf, offset, length) == TxtText(DecodeTxt(buf, offset, length).value)
  {
  }

  /** The over-read as written: a one-byte TXT record whose length byte says 5 takes its text
      from the bytes after the record (here the next record's bytes "hello"), and with nothing
      after it reads past the buffer; the corrected decoding refuses both. */
  lemma TxtOverreadCounterexample()
    ensures DecodeTxtAsWritten([5, 104, 101, 108, 108, 111], 0, 1) == TxtText("hello")
    ensures DecodeTxtAsWritten([5], 0, 1) == TxtOverread
    ensures DecodeTxt([5, 104, 101, 108, 108, 111], 0, 1) == Err(TxtPastRecordData)
    ensures DecodeTxt([5], 0, 1) == Err(TxtPastRecordData)
  {
    var buf: Bytes := [5, 104, 101, 108, 108, 111];
    assert buf[1..6] == [104, 101, 108, 108, 111];
    assert DnsName.Chars(buf[1..6]) == "hello";
  }

  /** decodeRecordData (with the corrected TXT case). */
  function DecodeRecordData(rtype: uint16, buf: Bytes, offset: nat, length: nat): (r: Result<string, DnsError>)
    ensures offset + length > |buf| ==> r == Err(RecordDataPastEnd)
  {
    if offset + length > |buf| then Err(RecordDataPastEnd)
    else if rtype == TYPE_A then
      if length != 4 then Err(BadALength)
      else Ok(DnsText.FormatIpv4(buf[offset..offset + 4]))
    else if rtype == TYPE_AAAA then
      if length != 16 then Err(BadAaaaLength)
      else Ok(DnsText.FormatIpv6(buf[offset..offset + 16]))
    else if IsNameType(rtype) then
      // the name is decoded from the whole message, not only from the record data
      var (name, _) :- DnsName.DecodeName(buf, offset);
      Ok(name)
    else if rtype == TYPE_TXT then DecodeTxt(buf, offset, length)
    else if rtype == TYPE_MX then
      if length < 3 then Err(BadMxLength)
      else
        var priority := BigEndian16(buf[offset], buf[offset + 1]);
        var (name, _) :- DnsName.DecodeName(buf, offset + 2);
        Ok(DnsText.DecimalString(priority) + " " + name)
    else Ok(DnsText.HexDump(buf[offset..offset + length]))
  }

  /** What decodeRecordData produces for addresses, short MX data and the types it has no case
      for (SOA and every unnamed code): the address text parses back to the bytes it came from,
      and the other types become hex. */
  lemma DecodeRecordDataSpec(rtype: uint16, buf: Bytes, offset: nat, length: nat)
    requires offset + length <= |buf|
    ensures var r := DecodeRecordData(rtype, buf, offset, length);
      && (rtype == TYPE_A ==> (r.Ok? <==> length == 4))
      && (rtype == TYPE_AAAA ==> (r.Ok? <==> length == 16))
      && (rtype == TYPE_MX && length < 3 ==> r == Err(BadMxLength))
      && (r.Ok? && rtype == TYPE_A ==> DnsText.ParseIpv4(r.value) == Some(buf[offset..offset + 4]))
      && (r.Ok? && rtype == TYPE_AAAA ==> DnsText.ParseIpv6(r.value) == Some(buf[offset..offset + 16]))
      && (!IsEncodableType(rtype) ==> r == Ok(DnsText.HexDump(buf[offset..offset + length])))
  {
    if rtype == TYPE_A && length == 4 {
      DnsText.Ipv4FormatParse(buf[offset..offset + 4]);
    } else if rtype == TYPE_AAAA && length == 16 {
      DnsText.Ipv6RoundTrip(buf[offset..offset + 16]);
    }
  }

  // ---------------------------------------------------------------------------
  // Round trip

  /** MX text that survives encoding and decoding: a canonical decimal priority below 65536,
      one space, a canonical name. */
  predicate CanonicalMx(data: string) {
    var space := FindSpace(data);
    space < |data| &&
    DnsText.ParseDecimal(data[..space]).Some? && DnsText.ParseDecimal(data[..space]).value < TWO_16 &&
    DnsName.CanonicalName(data[space + 1..])
  }

  /** Record text that decodeRecordData gives back unchanged after encodeRecordData. */
  predicate CanonicalData(rtype: uint16, data: string) {
    if rtype == TYPE_A then DnsText.ParseIpv4(data).Some?
    else if rtype == TYPE_AAAA then
      DnsText.ParseIpv6(data).Some? && DnsText.FormatIpv6(DnsText.ParseIpv6(data).value) == data
    else if IsNameType(rtype) then DnsName.CanonicalName(data)
    else if rtype == TYPE_TXT then |data| < 256 && DnsName.IsByteString(data)
    else if rtype == TYPE_MX then CanonicalMx(data)
    else false
  }

  /** The priority text of canonical MX data goes through std::stoi unchanged. */
  lemma MxPriority(data: string)
    requires CanonicalMx(data)
    ensures var space := FindSpace(data);
      DnsText.Stoi(data[..space]) == Some(DnsText.ParseDecimal(data[..space]).value)
    ensures var space := FindSpace(data);
      DnsText.DecimalString(DnsText.ParseDecimal(data[..space]).value) + " " + data[space + 1..] == data
  {
    var space := FindSpace(data);
    var digits := data[..space];
    var p := DnsText.ParseDecimal(digits).value;
    DnsText.DecimalRoundTrip(p, digits);
    StoiOfCanonical(digits);
    SplitAround(data, space);
  }

  lemma SplitAround(s: string, i: nat)
    requires i < |s|
    ensures s == s[..i] + [s[i]] + s[i + 1..]
  {
  }

  lemma StoiOfCanonical(digits: string)
    requires DnsText.ParseDecimal(digits).Some? && DnsText.ParseDecimal(digits).value < TWO_16
    ensures DnsText.Stoi(digits) == DnsText.ParseDecimal(digits)
  {
    var p := DnsText.ParseDecimal(digits).value;
    DnsText.DecimalRoundTrip(p, digits);
    DnsText.StoiOfDecimal(p, "");
    assert digits + "" == digits;
  }

  lemma MxEncoding(data: string)
    requires CanonicalMx(data)
    ensures var space := FindSpace(data);
      var p := DnsText.ParseDecimal(data[..space]).value;
      DnsName.EncodeName(data[space + 1..]).Ok? &&
      EncodeMx(data) == Ok(WriteUint16(p) + DnsName.EncodeName(data[space + 1..]).value)
  {
    MxPriority(data);
    DnsName.CanonicalNameEncodes(data[FindSpace(data) + 1..]);
  }

  /** decodeRecordData inverts encodeRecordData on canonical text, wherever the record data sits. */
  lemma RecordDataRoundTrip(rtype: uint16, data: string, prefix: Bytes, suffix: Bytes)
    requires CanonicalData(rtype, data)
    ensures EncodeRecordData(rtype, data).Ok?
    ensures var rd := EncodeRecordData(rtype, data).value;
      DecodeRecordData(rtype, prefix + rd + suffix, |prefix|, |rd|) == Ok(data)
  {
    if rtype == TYPE_A {
      RoundTripA(data, prefix, suffix);
    } else if rtype == TYPE_AAAA {
      RoundTripAaaa(data, prefix, suffix);
    } else if IsNameType(rtype) {
      assert EncodeRecordData(rtype, data) == DnsName.EncodeName(data);
      DnsName.DecodeEncodeName(data, prefix, suffix);
    } else if rtype == TYPE_TXT {
      RoundTripTxt(data, prefix, suffix);
    } else {
      RoundTripMx(data, prefix, suffix);
    }
  }

  lemma RoundTripA(data: string, prefix: Bytes, suffix: Bytes)
    requires CanonicalData(TYPE_A, data)
    ensures EncodeRecordData(TYPE_A, data).Ok?
    ensures var rd := EncodeRecordData(TYPE_A, data).value;
      DecodeRecordData(TYPE_A, prefix + rd + suffix, |prefix|, |rd|) == Ok(data)
  {
    EncodeASpec(data);
    var rd := EncodeRecordData(TYPE_A, data).value;
    var buf := prefix + rd + suffix;
    assert buf[|prefix|..|prefix| + |rd|] == rd;
  }

  lemma RoundTripAaaa(data: string, prefix: Bytes, suffix: Bytes)
    requires CanonicalData(TYPE_AAAA, data)
    ensures EncodeRecordData(TYPE_AAAA, data).Ok?
    ensures var rd := EncodeRecordData(TYPE_AAAA, data).value;
      DecodeRecordData(TYPE_AAAA, prefix + rd + suffix, |prefix|, |rd|) == Ok(data)
  {
    EncodeAaaaSpec(data);
    var rd := EncodeRecordData(TYPE_AAAA, data).value;
    var buf := prefix + rd + suffix;
    assert buf[|prefix|..|prefix| + |rd|] == rd;
    DnsText.Ipv6RoundTrip(rd);
  }

  lemma RoundTripTxt(data: string, prefix: Bytes, suffix: Bytes)
    requires CanonicalData(TYPE_TXT, data)
    ensures EncodeRecordData(TYPE_TXT, data).Ok?
    ensures var rd := EncodeRecordData(TYPE_TXT, data).value;
      DecodeRecordData(TYPE_TXT, prefix + rd + suffix, |prefix|, |rd|) == Ok(data)
  {
    TxtRoundTrip(data, prefix, suffix);
    assert data[..|data| % 256] == data;
  }

  lemma RoundTripMx(data: string, prefix: Bytes, suffix: Bytes)
    requires CanonicalData(TYPE_MX, data)
    ensures EncodeRecordData(TYPE_MX, data).Ok?
    ensures var rd := EncodeRecordData(TYPE_MX, data).value;
      DecodeRecordData(TYPE_MX, prefix + rd + suffix, |prefix|, |rd|) == Ok(data)
  {
    MxEncoding(data);
    MxPriority(data);
    var space := FindSpace(data);
    var p := DnsText.ParseDecimal(data[..space]).value;
    MxLayout(prefix, p, data[space + 1..], suffix);
  }

  /** A priority followed by an encoded canonical name decodes as "priority name". */
  lemma MxLayout(prefix: Bytes, p: uint16, name: string, suffix: Bytes)
    requires DnsName.CanonicalName(name)
    ensures DnsName.EncodeName(name).Ok?
    ensures var rd := WriteUint16(p) + DnsName.EncodeName(name).value;
      DecodeRecordData(TYPE_MX, prefix + rd + suffix, |prefix|, |rd|) == Ok(DnsText.DecimalString(p) + " " + name)
  {
    var w := WriteUint16(p);
    DnsName.DecodeEncodeName(name, prefix + w, suffix);
    var enc := DnsName.EncodeName(name).value;
    var buf := prefix + (w + enc) + suffix;
    assert buf == (prefix + w) + enc + suffix;
    assert buf[|prefix|..|prefix| + 2] == w;
    DecodeMxAt(buf, |prefix|, |w + enc|, p, name, |prefix| + 2 + |enc|);
  }

  /** The MX case of decodeRecordData on a priority followed by a decodable name. */
  lemma DecodeMxAt(buf: Bytes, offset: nat, length: nat, p: uint16, name: string, next: nat)
    requires 3 <= length && offset + length <= |buf|
    requires buf[offset..offset + 2] == WriteUint16(p)
    requires DnsName.DecodeName(buf, offset + 2) == Ok((name, next))
    ensures DecodeRecordData(TYPE_MX, buf, offset, length) == Ok(DnsText.DecimalString(p) + " " + name)
  {
    assert buf[offset] == WriteUint16(p)[0] && buf[offset + 1] == WriteUint16(p)[1];
  }

  /** Every TXT text, wherever its record data sits, decodes to its first `|data| % 256`
      characters: the whole text below 256 characters, and a wrapped-length prefix above
      (300 characters come back as their first 44). */
  lemma TxtRoundTrip(data: string, prefix: Bytes, suffix: Bytes)
    requires DnsName.IsByteString(data)
    ensures var rd := EncodeRecordData(TYPE_TXT, data).value;
      DecodeRecordData(TYPE_TXT, prefix + rd + suffix, |prefix|, |rd|) == Ok(data[..|data| % 256])
  {
    EncodeTxtBytes(data);
    var k := |data| % 256;
    var rd := EncodeRecordData(TYPE_TXT, data).value;
    var buf := prefix + rd + suffix;
    var off := |prefix|;
    assert buf[off] == k;
    assert buf[off + 1..off + 1 + k] == DnsName.ToBytes(data[..k]);
    DnsName.CharsToBytes(data[..k]);
  }
}
