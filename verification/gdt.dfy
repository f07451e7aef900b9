/** The x86 segment descriptors of src/gdt.cc (the eight-byte layout of section 3.4.5 of the
    Intel 64 and IA-32 Architectures Software Developer's Manual, Volume 3A). A descriptor is its
    eight bytes. Shifts and masks on 32-bit values are written as division and remainder by powers
    of two; an `|` of bit fields that do not overlap is written as `+`. */
module Gdt {
  import opened Ints

  type Descriptor = s: seq<uint8> | |s| == 8 witness [0, 0, 0, 0, 0, 0, 0, 0]

  const PAGE: nat := 0x1000

  /** Access byte of the native code segment (present, ring 0, executable, readable). */
  const CODE_ACCESS: uint8 := 0x9A
  /** Access byte of the native data segment (present, ring 0, writable). */
  const DATA_ACCESS: uint8 := 0x92
  /** Both native segments are asked for 64 MiB from address 0. */
  const SEGMENT_SIZE: uint32 := 64 * 1024 * 1024

  /** The largest limit stored byte-granular; anything larger is stored in 4 KiB pages. */
  const BYTE_GRANULAR_MAX: uint32 := 65536

  /** Byte 6's top bits: 32-bit segment, with (0xC0) or without (0x40) page granularity. */
  const FLAGS_BYTES: uint8 := 0x40
  const FLAGS_PAGES: uint8 := 0xC0

  /** The 20-bit value that ends up in the limit fields. A page-granular limit whose low twelve
      bits are not all ones is taken as a size and loses its last page. */
  function StoredLimit(limit: uint32): (r: nat)
    ensures r < 0x10_0000
  {
    if limit <= BYTE_GRANULAR_MAX then limit
    else if limit % PAGE != PAGE - 1 then limit / PAGE - 1
    else limit / PAGE
  }

  /** SegmentDescriptor(base, limit, flags): the access byte verbatim in byte 5 and the
      granularity in the top bits of byte 6; what the accessors recover is stated by the lemmas below. */
  function MakeDescriptor(base: uint32, limit: uint32, flags: uint8): (d: Descriptor)
    ensures d[5] == flags
    ensures d[6] / 64 == (if limit <= BYTE_GRANULAR_MAX then 1 else 3)
  {
    var stored := StoredLimit(limit);
    var granularity := if limit <= BYTE_GRANULAR_MAX then FLAGS_BYTES else FLAGS_PAGES;
    [ stored % 256,
      (stored / 256) % 256,
      base % 256,
      (base / 0x100) % 256,
      (base / 0x1_0000) % 256,
      flags,
      granularity + (stored / 0x1_0000) % 16,
      (base / 0x100_0000) % 256 ]
  }

  /** Base(): bytes 2, 3, 4 and 7, most significant last. */
  function Base(d: Descriptor): (r: uint32)
    ensures r % 256 == d[2] && (r / 0x100) % 256 == d[3]
    ensures (r / 0x1_0000) % 256 == d[4] && r / 0x100_0000 == d[7]
  {
    ((d[7] as int * 256 + d[4]) * 256 + d[3]) * 256 + d[2]
  }

  /** Limit(): the low nibble of byte 6 over bytes 1 and 0, scaled to whole pages (with the
      low twelve bits set) when both top bits of byte 6 are set. */
  function Limit(d: Descriptor): (r: uint32)
    ensures d[6] / 64 != 3 ==> LimitFields(r, d)
    ensures d[6] / 64 == 3 ==> r % PAGE == PAGE - 1 && LimitFields(r / PAGE, d)
  {
    var low: int := ((d[6] as int % 16) * 256 + d[1]) * 256 + d[0];
    FieldDigits(d[6] as int % 16, d[1] as int, d[0] as int);
    if d[6] / 64 == 3 then PageScaled(low); low * PAGE + (PAGE - 1) else low
  }

  /** The 20-bit limit field of a descriptor holds `l`: bytes 0 and 1 and the low nibble of byte 6. */
  predicate LimitFields(l: int, d: Descriptor) {
    0 <= l < 0x10_0000 && l % 256 == d[0] && (l / 0x100) % 256 == d[1] && l / 0x1_0000 == d[6] % 16
  }

  /** A nibble and two bytes, joined, split back into themselves. */
  lemma FieldDigits(a: int, b: int, c: int)
    requires 0 <= a < 16 && 0 <= b < 256 && 0 <= c < 256
    ensures var l := (a * 256 + b) * 256 + c;
      0 <= l < 0x10_0000 && l % 256 == c && (l / 0x100) % 256 == b && l / 0x1_0000 == a
  {
    var l := (a * 256 + b) * 256 + c;
    assert l / 256 == a * 256 + b;
    assert l / 0x1_0000 == (l / 256) / 256;
  }

  /** Scaling a 20-bit count to pages with the low twelve bits set stays in 32 bits and keeps the count. */
  lemma PageScaled(l: int)
    requires 0 <= l < 0x10_0000
    ensures var r := l * PAGE + (PAGE - 1);
      r < 0x1_0000_0000 && r % PAGE == PAGE - 1 && r / PAGE == l
  {
  }

  /** Four bytes of a word, reassembled most significant first, give the word back. */
  lemma WordBytes(w: uint32)
    ensures ((((w / 0x100_0000) % 256) * 256 + (w / 0x1_0000) % 256) * 256 + (w / 0x100) % 256) * 256 + w % 256 == w
  {
    assert (w / 0x100_0000) % 256 == w / 0x100_0000;
    assert (w / 0x100_0000) * 256 + (w / 0x1_0000) % 256 == w / 0x1_0000;
    assert (w / 0x1_0000) * 256 + (w / 0x100) % 256 == w / 0x100;
  }

  /** Twenty bits split into a nibble and two bytes, reassembled. */
  lemma LimitBits(l: nat)
    requires l < 0x10_0000
    ensures (((l / 0x1_0000) % 16) * 256 + (l / 256) % 256) * 256 + l % 256 == l
  {
    assert (l / 0x1_0000) % 16 == l / 0x1_0000;
    assert (l / 0x1_0000) * 256 + (l / 256) % 256 == l / 256;
  }

  /** Base() returns the constructor's base, for every 32-bit base. */
  lemma BaseRoundTrip(base: uint32, limit: uint32, flags: uint8)
    ensures Base(MakeDescriptor(base, limit, flags)) == base
  {
    WordBytes(base);
  }

  /** The stored limit fields read back: byte-granular limits and limits ending in a full page
      exactly; any other page-granular limit as the last byte before its page, less than a page
      below the one asked for. */
  lemma LimitRoundTrip(base: uint32, limit: uint32, flags: uint8)
    ensures limit <= BYTE_GRANULAR_MAX || limit % PAGE == PAGE - 1 ==> Limit(MakeDescriptor(base, limit, flags)) == limit
    ensures limit > BYTE_GRANULAR_MAX ==> (var back := Limit(MakeDescriptor(base, limit, flags));
      back <= limit && limit - back < PAGE && back % PAGE == PAGE - 1)
    ensures limit > BYTE_GRANULAR_MAX && limit % PAGE != PAGE - 1 ==>
      Limit(MakeDescriptor(base, limit, flags)) == limit - limit % PAGE - 1
  {
    var d := MakeDescriptor(base, limit, flags);
    var stored := StoredLimit(limit);
    assert d[6] % 16 == (stored / 0x1_0000) % 16;
    LimitBits(stored);
    if limit > BYTE_GRANULAR_MAX {
      assert Limit(d) == stored * PAGE + (PAGE - 1);
      assert limit == (limit / PAGE) * PAGE + limit % PAGE;
    }
  }

  /** The native table: null, unused, code and data descriptors, in declaration order. */
  function NativeTable(): (t: seq<Descriptor>)
    ensures |t| == 4
    ensures t[2][5] == CODE_ACCESS && t[3][5] == DATA_ACCESS
  {
    [ MakeDescriptor(0, 0, 0),
      MakeDescriptor(0, 0, 0),
      MakeDescriptor(0, SEGMENT_SIZE, CODE_ACCESS),
      MakeDescriptor(0, SEGMENT_SIZE, DATA_ACCESS) ]
  }

  /** The native code and data segments start at 0 and end at the last byte below 64 MiB:
      a page-aligned limit is taken as a size, so its last page is dropped from the stored count. */
  lemma NativeSegments()
    ensures forall i :: 0 <= i < 4 ==> Base(NativeTable()[i]) == 0
    ensures Limit(NativeTable()[2]) == SEGMENT_SIZE - 1 && Limit(NativeTable()[3]) == SEGMENT_SIZE - 1
  {
    BaseRoundTrip(0, 0, 0);
    BaseRoundTrip(0, SEGMENT_SIZE, CODE_ACCESS);
    BaseRoundTrip(0, SEGMENT_SIZE, DATA_ACCESS);
    LimitRoundTrip(0, SEGMENT_SIZE, CODE_ACCESS);
    LimitRoundTrip(0, SEGMENT_SIZE, DATA_ACCESS);
  }

  /** A selector is the byte offset of its descriptor in the table. */
  function Selector(index: nat): nat
  {
    8 * index
  }

  /** CodeSegmentSelector(): fixed at 0x08 in the web build, the code descriptor's offset natively. */
  function CodeSegmentSelector(web: bool): (r: nat)
    ensures web ==> r == 0x08
    ensures !web ==> r == Selector(2) && NativeTable()[r / 8][5] == CODE_ACCESS
  {
    if web then 0x08 else Selector(2)
  }

  /** DataSegmentSelector(): fixed at 0x10 in the web build, the data descriptor's offset natively. */
  function DataSegmentSelector(web: bool): (r: nat)
    ensures web ==> r == 0x10
    ensures !web ==> r == Selector(3) && NativeTable()[r / 8][5] == DATA_ACCESS
  {
    if web then 0x10 else Selector(3)
  }

  /** Descriptors built from different bases are different, so the encoding loses no base. */
  lemma DescriptorBaseInjective(b1: uint32, b2: uint32, limit: uint32, flags: uint8)
    ensures MakeDescriptor(b1, limit, flags) == MakeDescriptor(b2, limit, flags) ==> b1 == b2
  {
    if MakeDescriptor(b1, limit, flags) == MakeDescriptor(b2, limit, flags) {
      BaseRoundTrip(b1, limit, flags);
      BaseRoundTrip(b2, limit, flags);
    }
  }
}
