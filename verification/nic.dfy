/** The web stand-in for the AMD am79c973 network card (src/drivers/amd_am79c973_stub.cc): the
    stored IP address, the MAC address derived when JavaScript supplies none, and Send, which copies
    the packet into a kernel heap buffer for JavaScript and frees it again. The value JavaScript
    returns for the MAC and what it does with a packet are parameters and results. */
module Nic {
  import opened Ints
  import opened Wrappers
  import Memory

  /** The card's state the model needs: the logical address in its init block. */
  datatype Card = Card(ip: uint32)

  /** The prefix of a generated MAC: 02:00:00:00:00:00, a locally administered address. */
  const LOCAL_MAC: uint64 := 0x0200_0000_0000

  /** SetIPAddress: stores the address; storing the address already held changes nothing. */
  function SetIPAddress(c: Card, ip: uint32): (r: Card)
    ensures r.ip == ip
    ensures c.ip == ip ==> r == c
  {
    c.(ip := ip)
  }

  /** GetIPAddress: the stored address, the one that storing again would leave the card as it is. */
  function GetIPAddress(c: Card): (r: uint32)
    ensures SetIPAddress(c, r) == c
  {
    c.ip
  }

  /** The four numbers SetIPAddress hands to JavaScript, in the order given: most significant
      byte first. */
  function DottedOctets(ip: uint32): (r: seq<uint8>)
    ensures |r| == 4
  {
    [ip / 0x100_0000, (ip / 0x1_0000) % 256, (ip / 0x100) % 256, ip % 256]
  }

  /** The address read back is the last one set; the octets shown reassemble into it. */
  lemma SetThenGet(c: Card, ip: uint32, ip2: uint32)
    ensures GetIPAddress(SetIPAddress(c, ip)) == ip
    ensures SetIPAddress(SetIPAddress(c, ip2), ip) == SetIPAddress(c, ip)
    ensures var o := DottedOctets(ip); ((o[0] as int * 256 + o[1]) * 256 + o[2]) * 256 + o[3] == ip
  {
    assert (ip / 0x100_0000) * 256 + (ip / 0x1_0000) % 256 == ip / 0x1_0000;
    assert (ip / 0x1_0000) * 256 + (ip / 0x100) % 256 == ip / 0x100;
  }

  /** GetMACAddress. `jsMac` is what JavaScript's getNetworkMAC yields through EM_ASM_INT, a
      signed 32-bit int, widened to 64 bits with sign extension. A non-zero one is returned as it
      is; otherwise, for a non-zero IP, its bytes (least significant first) fill bits 32-39,
      24-31, 16-23 and 8-15 under the 0x02 prefix; with IP 0 the bare prefix is returned. */
  function GetMACAddress(c: Card, jsMac: int32): (r: uint64)
    ensures jsMac > 0 ==> r == jsMac
    ensures jsMac != 0 ==> r % TWO_32 == jsMac % TWO_32
    ensures jsMac == 0 && c.ip == 0 ==> r == LOCAL_MAC
  {
    if jsMac != 0 then jsMac % TWO_64
    else if c.ip == 0 then LOCAL_MAC
    else
      LOCAL_MAC
      + (c.ip % 256) * 0x1_0000_0000
      + ((c.ip / 0x100) % 256) * 0x100_0000
      + ((c.ip / 0x1_0000) % 256) * 0x1_0000
      + (c.ip / 0x100_0000) * 0x100
  }

  /** Byte `k` of a value, counting from the least significant. */
  function MacByte(mac: nat, k: nat): (r: uint8)
  {
    if k == 0 then mac % 256 else MacByte(mac / 256, k - 1)
  }

  /** A value written as bytes, most significant first. */
  function FromBytes(bs: seq<uint8>): (v: nat)
  {
    if bs == [] then 0 else FromBytes(bs[..|bs| - 1]) * 256 + bs[|bs| - 1]
  }

  /** Every byte of 0 is 0. */
  lemma {:induction false} ZeroBytes(k: nat)
    ensures MacByte(0, k) == 0
  {
    if k > 0 {
      ZeroBytes(k - 1);
    }
  }

  /** Byte `k` of a value written as bytes is the `k`-th from the end, and 0 beyond them. */
  lemma {:induction false} BytesOf(bs: seq<uint8>, k: nat)
    ensures k < |bs| ==> MacByte(FromBytes(bs), k) == bs[|bs| - 1 - k]
    ensures k >= |bs| ==> MacByte(FromBytes(bs), k) == 0
  {
    if bs == [] {
      ZeroBytes(k);
    } else {
      var init := bs[..|bs| - 1];
      var v := FromBytes(bs);
      assert v == FromBytes(init) * 256 + bs[|bs| - 1];
      assert v % 256 == bs[|bs| - 1] && v / 256 == FromBytes(init);
      if k > 0 {
        BytesOf(init, k - 1);
        assert k - 1 < |init| ==> init[|init| - 1 - (k - 1)] == bs[|bs| - 1 - k];
      }
    }
  }

  /** The generated MAC's value, byte by byte, most significant first. */
  lemma GeneratedMacValue(c: Card)
    requires c.ip != 0
    ensures GetMACAddress(c, 0)
      == ((((2 * 256 + c.ip % 256) * 256 + (c.ip / 0x100) % 256) * 256 + (c.ip / 0x1_0000) % 256) * 256 + c.ip / 0x100_0000) * 256
  {
  }

  /** The generated MAC is the six bytes 02, a, b, c, d, 00 written most significant first. */
  lemma GeneratedMacBytes(c: Card)
    requires c.ip != 0
    ensures GetMACAddress(c, 0)
      == FromBytes([2, c.ip % 256, (c.ip / 0x100) % 256, (c.ip / 0x1_0000) % 256, c.ip / 0x100_0000, 0])
  {
    var bs: seq<uint8> := [2, c.ip % 256, (c.ip / 0x100) % 256, (c.ip / 0x1_0000) % 256, c.ip / 0x100_0000, 0];
    var a, b, d, e := c.ip % 256, (c.ip / 0x100) % 256, (c.ip / 0x1_0000) % 256, c.ip / 0x100_0000;
    assert FromBytes(bs[..1]) == 2 by {
      assert bs[..1][..0] == [];
    }
    assert FromBytes(bs[..2]) == 2 * 256 + a by {
      assert bs[..2][..1] == bs[..1];
    }
    assert FromBytes(bs[..3]) == (2 * 256 + a) * 256 + b by {
      assert bs[..3][..2] == bs[..2];
    }
    assert FromBytes(bs[..4]) == ((2 * 256 + a) * 256 + b) * 256 + d by {
      assert bs[..4][..3] == bs[..3];
    }
    assert FromBytes(bs[..5]) == (((2 * 256 + a) * 256 + b) * 256 + d) * 256 + e by {
      assert bs[..5][..4] == bs[..4];
    }
    assert FromBytes(bs) == FromBytes(bs[..5]) * 256 by {
      assert bs[..6] == bs;
    }
    GeneratedMacValue(c);
  }

  /** Without a JavaScript MAC the generated address is 02:a:b:c:d:00 with a..d the IP's bytes
      from the least significant, and nothing above the six bytes: the IP can be read back from
      it, so different IPs get different MACs. */
  lemma GeneratedMac(c: Card)
    requires c.ip != 0
    ensures var mac := GetMACAddress(c, 0);
      MacByte(mac, 5) == 2 && MacByte(mac, 0) == 0 && MacByte(mac, 6) == 0 && MacByte(mac, 7) == 0
      && MacByte(mac, 4) == c.ip % 256 && MacByte(mac, 3) == (c.ip / 0x100) % 256
      && MacByte(mac, 2) == (c.ip / 0x1_0000) % 256 && MacByte(mac, 1) == c.ip / 0x100_0000
  {
    var bs: seq<uint8> := [2, c.ip % 256, (c.ip / 0x100) % 256, (c.ip / 0x1_0000) % 256, c.ip / 0x100_0000, 0];
    GeneratedMacBytes(c);
    hide GetMACAddress, FromBytes;
    BytesOf(bs, 0);
    BytesOf(bs, 1);
    BytesOf(bs, 2);
    BytesOf(bs, 3);
    BytesOf(bs, 4);
    BytesOf(bs, 5);
    BytesOf(bs, 6);
    BytesOf(bs, 7);
  }

  /** Different non-zero IPs give different generated MACs. */
  lemma GeneratedMacInjective(c1: Card, c2: Card)
    requires c1.ip != 0 && c2.ip != 0
    ensures GetMACAddress(c1, 0) == GetMACAddress(c2, 0) ==> c1 == c2
  {
    if GetMACAddress(c1, 0) == GetMACAddress(c2, 0) {
      GeneratedMac(c1);
      GeneratedMac(c2);
      assert DottedOctets(c1.ip) == DottedOctets(c2.ip);
      SetThenGet(c1, c1.ip, c1.ip);
      SetThenGet(c2, c2.ip, c2.ip);
    }
  }

  /** A negative JavaScript value is sign-extended: it comes back as itself plus 2^64, with all of
      the top 32 bits set, never as a 48-bit address; -1 comes back as all ones. */
  lemma NegativeJsMacSignExtends(c: Card, jsMac: int32)
    requires jsMac < 0
    ensures GetMACAddress(c, jsMac) == jsMac + TWO_64
    ensures GetMACAddress(c, jsMac) / TWO_32 == TWO_32 - 1
    ensures jsMac == -1 ==> GetMACAddress(c, jsMac) == 0xFFFF_FFFF_FFFF_FFFF
  {
  }

  // ---------------------------------------------------------------------------
  // Send

  /** Send on the active memory manager: a null buffer or a size of 0 or less is ignored. Otherwise
      `size` bytes are requested from the heap; if that fails nothing is sent (but the manager
      has counted the request); if it succeeds the first `size` bytes of the buffer are copied there,
      handed to JavaScript as the packet, and the heap buffer is freed. The caller's buffer holds
      at least `size` bytes. */
  function Send(m: Memory.MemoryManager, buffer: Option<seq<uint8>>, size: int32): (r: (Memory.MemoryManager, Option<seq<uint8>>))
    requires buffer.Some? && size > 0 ==> |buffer.value| >= size
    ensures buffer.None? || size <= 0 ==> r == (m, None)
    ensures buffer.Some? && size > 0 ==> r.0.requested == (m.requested + size) % TWO_32
    ensures r.1.Some? ==> buffer.Some? && size > 0 && r.1.value == buffer.value[..size]
  {
    if buffer.None? || size <= 0 then (m, None)
    else
      var (m1, ptr) := Memory.Malloc(m, size);
      if ptr == 0 then (m1, None)
      else
        Memory.MallocResult(m, size);
        (Memory.Free(m1, ptr), Some(buffer.value[..size]))
  }

  /** A send leaves the heap's chunks as it found them when no two free chunks were neighbours,
      and it sends exactly when there is a buffer, a positive size, and a free chunk larger than
      that size. */
  lemma SendRestoresHeap(m: Memory.MemoryManager, buffer: Option<seq<uint8>>, size: int32)
    requires buffer.Some? && size > 0 ==> |buffer.value| >= size
    requires Memory.NoAdjacentFree(m.chunks)
    ensures Send(m, buffer, size).0.chunks == m.chunks
    ensures Send(m, buffer, size).1.Some? <==> buffer.Some? && size > 0 && Memory.FirstFit(m.chunks, size).Some?
  {
    if buffer.Some? && size > 0 && Memory.Malloc(m, size).1 != 0 {
      Memory.MallocThenFree(m, size);
    }
  }
}
