/** Error kinds of the DNS codec and the big-endian integer helpers of
    dns/cpp/src/DnsPacket.cpp. Each `runtime_error` the codec throws is one constructor. */
module DnsWire {
  import opened Ints
  import opened Wrappers

  type Bytes = seq<uint8>

  /** The codec's exceptions, one per throw site (decode-side then encode-side). */
  datatype DnsError =
    | PacketTooShort          // decode: fewer than 12 bytes
    | ReadPastEnd16           // readUint16 past the buffer end
    | ReadPastEnd32           // readUint32 past the buffer end
    | IncompletePointer       // compression pointer without its second byte
    | PointerOutOfBounds      // pointer target below 12 or at/after the buffer end
    | PointerNotBackward      // pointer target at or after (pointer position - 1)
    | LabelTooLong            // length byte 64..191
    | LabelPastEnd            // label runs past the buffer end
    | NameTooLong             // running encoded name length above 255
    | IncompleteRecord        // a record starts at the buffer end
    | RecordDataPastEnd       // rdlength runs past the buffer end
    | BadALength              // A rdata not 4 bytes
    | BadAaaaLength           // AAAA rdata not 16 bytes
    | BadMxLength             // MX rdata shorter than 3 bytes
    | TxtPastRecordData       // TXT length byte larger than the rdata holds
    | EncodeNameTooLong       // encodeName: more than 254 characters
    | EncodeLabelTooLong      // encodeName: a label over 63 bytes
    | EncodedNameTooLong      // encodeName: encoded length above 255
    | InvalidIpv4             // A data is not an IPv4 address
    | InvalidIpv6             // AAAA data is not an IPv6 address
    | InvalidMx               // MX data without a space
    | InvalidMxPriority       // MX priority that std::stoi rejects
    | UnsupportedType         // SOA and unlisted types cannot be encoded

  /** Value of two big-endian bytes. */
  function BigEndian16(hi: uint8, lo: uint8): uint16 {
    hi * 0x100 + lo
  }

  /** Value of four big-endian bytes. */
  function BigEndian32(b0: uint8, b1: uint8, b2: uint8, b3: uint8): uint32 {
    ((b0 * 0x100 + b1) * 0x100 + b2) * 0x100 + b3
  }

  /** readUint16: the big-endian value at `offset` and the offset just past it. */
  function ReadUint16(buf: Bytes, offset: nat): (r: Result<(uint16, nat), DnsError>)
    ensures r.Err? <==> offset + 2 > |buf|
    ensures r.Err? ==> r.error == ReadPastEnd16
    ensures r.Ok? ==> r.value.1 == offset + 2 && r.value.0 == BigEndian16(buf[offset], buf[offset + 1])
  {
    if offset + 2 > |buf| then Err(ReadPastEnd16)
    else Ok((BigEndian16(buf[offset], buf[offset + 1]), offset + 2))
  }

  /** readUint32: the big-endian value at `offset` and the offset just past it. */
  function ReadUint32(buf: Bytes, offset: nat): (r: Result<(uint32, nat), DnsError>)
    ensures r.Err? <==> offset + 4 > |buf|
    ensures r.Err? ==> r.error == ReadPastEnd32
    ensures r.Ok? ==> r.value.1 == offset + 4
    ensures r.Ok? ==> r.value.0 == BigEndian32(buf[offset], buf[offset + 1], buf[offset + 2], buf[offset + 3])
  {
    if offset + 4 > |buf| then Err(ReadPastEnd32)
    else Ok((BigEndian32(buf[offset], buf[offset + 1], buf[offset + 2], buf[offset + 3]), offset + 4))
  }

  /** writeUint16: the two bytes appended, most significant first. */
  function WriteUint16(value: uint16): (r: Bytes)
    ensures |r| == 2 && BigEndian16(r[0], r[1]) == value
  {
    [value / 0x100, value % 0x100]
  }

  /** writeUint32: the four bytes appended, most significant first. */
  function WriteUint32(value: uint32): (r: Bytes)
    ensures |r| == 4 && BigEndian32(r[0], r[1], r[2], r[3]) == value
  {
    [value / 0x100_0000, (value / 0x1_0000) % 0x100, (value / 0x100) % 0x100, value % 0x100]
  }

  /** Reading back what writeUint16 appended, wherever it sits in a buffer, yields the value. */
  lemma ReadWrite16(prefix: Bytes, value: uint16, suffix: Bytes)
    ensures ReadUint16(prefix + WriteUint16(value) + suffix, |prefix|) == Ok((value, |prefix| + 2))
  {
    var buf := prefix + WriteUint16(value) + suffix;
    assert buf[|prefix|] == WriteUint16(value)[0];
    assert buf[|prefix| + 1] == WriteUint16(value)[1];
  }

  /** Reading back what writeUint32 appended, wherever it sits in a buffer, yields the value. */
  lemma ReadWrite32(prefix: Bytes, value: uint32, suffix: Bytes)
    ensures ReadUint32(prefix + WriteUint32(value) + suffix, |prefix|) == Ok((value, |prefix| + 4))
  {
    var w := WriteUint32(value);
    var buf := prefix + w + suffix;
    assert buf[|prefix|] == w[0] && buf[|prefix| + 1] == w[1];
    assert buf[|prefix| + 2] == w[2] && buf[|prefix| + 3] == w[3];
  }

  /** Big-endian 16-bit values are determined by their bytes and vice versa. */
  lemma BigEndian16Injective(a: uint8, b: uint8, c: uint8, d: uint8)
    requires BigEndian16(a, b) == BigEndian16(c, d)
    ensures a == c && b == d
  {
  }
}
