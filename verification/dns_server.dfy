/** The query-handling core of dns/cpp/src/DnsServer.cpp: the override table and its edits,
    the first-match lookup, the decision order for one query, the locally built responses,
    the 512-byte UDP limit, the relay of upstream answers and the TCP length prefix.
    Sockets are not modelled: the upstream resolver is a function from the bytes sent to
    the bytes received (None for any socket error or timeout). */
module DnsServer {
  import opened Ints
  import opened Wrappers
  import opened DnsWire
  import opened DnsMessage
  import opened DnsPacket

  const MAX_UDP_SIZE: nat := 512
  const MAX_MESSAGE_SIZE: nat := 4096
  const UDP_BUFFER_SIZE: nat := 1024
  const ENABLE_DOMAIN: string := "enable.control.dns.local"
  const DISABLE_DOMAIN: string := "disable.control.dns.local"
  const ENABLED_ADDRESS: string := "127.0.0.1"
  const DISABLED_ADDRESS: string := "127.0.0.2"
  const FORMAT_ERROR: bv8 := 1
  const SERVER_FAILURE: bv8 := 2

  /** One record of an override, its type still a mnemonic (DnsRecord). */
  datatype Record = Record(rtype: string, name: string, data: string, ttl: uint32)

  datatype DomainOverride = DomainOverride(
    domain: string,
    records: seq<Record>,
    staticPort: uint16,
    staticHtmlPath: string)

  /** The mutable part of the server: the override table and the switch the control domains flip. */
  datatype ServerState = ServerState(overrides: seq<DomainOverride>, enabled: bool)

  /** A server starts with its loaded table and overrides switched on. */
  function InitialState(table: seq<DomainOverride>): (s: ServerState)
    ensures s.enabled && s.overrides == table
  {
    ServerState(table, true)
  }

  /** What the server sends back for one query. */
  datatype Action = Send(bytes: Bytes) | Silent

  // ---------------------------------------------------------------------------
  // Override lookup (findDomainOverride)

  predicate IsWildcard(pattern: string) {
    |pattern| >= 2 && pattern[..2] == "*."
  }

  predicate IsSuffix(suffix: string, s: string) {
    |suffix| <= |s| && s[|s| - |suffix|..] == suffix
  }

  /** An entry applies to a domain when it names it exactly, or when it is `*.` followed by
      a plain textual suffix of the domain (no label boundary is required). */
  predicate Matches(pattern: string, domain: string) {
    pattern == domain || (IsWildcard(pattern) && IsSuffix(pattern[2..], domain))
  }

  function FindFrom(table: seq<DomainOverride>, domain: string, i: nat): (r: Option<nat>)
    requires i <= |table|
    ensures r.Some? ==> i <= r.value < |table| && Matches(table[r.value].domain, domain)
    ensures r.Some? ==> forall j :: i <= j < r.value ==> !Matches(table[j].domain, domain)
    ensures r.None? ==> forall j :: i <= j < |table| ==> !Matches(table[j].domain, domain)
    decreases |table| - i
  {
    if i == |table| then None
    else if Matches(table[i].domain, domain) then Some(i)
    else FindFrom(table, domain, i + 1)
  }

  /** findDomainOverride: the position of the first entry, in table order, that applies. */
  function FindOverride(table: seq<DomainOverride>, domain: string): (r: Option<nat>)
    ensures r.Some? ==> r.value < |table| && Matches(table[r.value].domain, domain)
    ensures r.Some? ==> forall j :: 0 <= j < r.value ==> !Matches(table[j].domain, domain)
    ensures r.None? <==> forall j :: 0 <= j < |table| ==> !Matches(table[j].domain, domain)
  {
    FindFrom(table, domain, 0)
  }

  /** A wildcard entry also answers for the bare domain after `*.`. */
  lemma WildcardMatchesApex(domain: string)
    ensures Matches("*." + domain, domain)
  {
    assert ("*." + domain)[2..] == domain;
  }

  /** The suffix test ignores label boundaries: `*.example.com` applies to `badexample.com`. */
  lemma WildcardIgnoresLabels()
    ensures Matches("*.example.com", "badexample.com")
    ensures !Matches("*.example.com", "example.org")
  {
    assert ("*.example.com")[2..] == "example.com";
  }

  /** Appending an entry never changes which entry a domain already resolves to. */
  lemma FindOverrideAppend(table: seq<DomainOverride>, o: DomainOverride, domain: string)
    requires FindOverride(table, domain).Some?
    ensures FindOverride(table + [o], domain) == FindOverride(table, domain)
  {
    var i := FindOverride(table, domain).value;
    assert Matches((table + [o])[i].domain, domain);
    assert forall j :: 0 <= j < i ==> (table + [o])[j] == table[j];
  }

  // ---------------------------------------------------------------------------
  // Table edits (addDomainOverride, updateDomainOverride, deleteDomainOverride)

  predicate HasDomain(table: seq<DomainOverride>, domain: string) {
    exists i :: 0 <= i < |table| && table[i].domain == domain
  }

  /** The position of the first entry whose domain is exactly `domain`. */
  function DomainIndex(table: seq<DomainOverride>, domain: string): (r: Option<nat>)
    ensures r.Some? ==> r.value < |table| && table[r.value].domain == domain
    ensures r.Some? ==> forall j :: 0 <= j < r.value ==> table[j].domain != domain
    ensures r.None? <==> !HasDomain(table, domain)
  {
    if table == [] then None
    else if table[0].domain == domain then Some(0)
    else match DomainIndex(table[1..], domain)
      case None => None
      case Some(i) => Some(i + 1)
  }

  /** The entries whose domain differs from `domain`, in their original order. */
  function Without(table: seq<DomainOverride>, domain: string): (r: seq<DomainOverride>)
    ensures |r| <= |table|
    ensures !HasDomain(r, domain)
    ensures forall i :: 0 <= i < |table| && table[i].domain != domain ==> table[i] in r
    ensures forall e :: e in r ==> e in table
  {
    if table == [] then []
    else if table[0].domain == domain then Without(table[1..], domain)
    else
      var rest := Without(table[1..], domain);
      assert forall i :: 1 <= i < |table| ==> table[i] == table[1..][i - 1];
      [table[0]] + rest
  }

  /** addDomainOverride: refused when the domain is already present, appended otherwise. */
  function AddOverride(table: seq<DomainOverride>, o: DomainOverride): (r: (seq<DomainOverride>, bool))
    ensures r.1 <==> !HasDomain(table, o.domain)
    ensures r.1 ==> r.0 == table + [o]
    ensures !r.1 ==> r.0 == table
  {
    if DomainIndex(table, o.domain).Some? then (table, false) else (table + [o], true)
  }

  /** updateDomainOverride: the first entry for `domain` is replaced, the others stay in place. */
  function UpdateOverride(table: seq<DomainOverride>, domain: string, o: DomainOverride)
    : (r: (seq<DomainOverride>, bool))
    ensures r.1 <==> HasDomain(table, domain)
    ensures |r.0| == |table|
    ensures !r.1 ==> r.0 == table
    ensures r.1 ==> exists i :: (0 <= i < |table| && table[i].domain == domain && r.0 == table[i := o]
      && forall j :: 0 <= j < i ==> table[j].domain != domain)
  {
    match DomainIndex(table, domain)
    case None => (table, false)
    case Some(i) => (table[i := o], true)
  }

  /** deleteDomainOverride: every entry for `domain` goes; the rest keep their order. */
  function DeleteOverride(table: seq<DomainOverride>, domain: string): (r: (seq<DomainOverride>, bool))
    ensures r.1 <==> HasDomain(table, domain)
    ensures !HasDomain(r.0, domain)
    ensures r.1 ==> |r.0| < |table|
    ensures !r.1 ==> r.0 == table
    ensures r.0 == Without(table, domain)
  {
    if DomainIndex(table, domain).Some? then
      WithoutShrinks(table, domain);
      (Without(table, domain), true)
    else
      WithoutNothing(table, domain);
      (table, false)
  }

  lemma {:induction false} WithoutNothing(table: seq<DomainOverride>, domain: string)
    requires !HasDomain(table, domain)
    ensures Without(table, domain) == table
    decreases |table|
  {
    if table != [] {
      assert table[0].domain != domain;
      assert !HasDomain(table[1..], domain) by {
        forall i | 0 <= i < |table[1..]| ensures table[1..][i].domain != domain {
          assert table[1..][i] == table[i + 1];
        }
      }
      WithoutNothing(table[1..], domain);
      assert [table[0]] + table[1..] == table;
    }
  }

  lemma {:induction false} WithoutShrinks(table: seq<DomainOverride>, domain: string)
    requires HasDomain(table, domain)
    ensures |Without(table, domain)| < |table|
    decreases |table|
  {
    if table[0].domain != domain {
      assert HasDomain(table[1..], domain) by {
        var i :| 0 <= i < |table| && table[i].domain == domain;
        assert table[1..][i - 1] == table[i];
      }
      WithoutShrinks(table[1..], domain);
    }
  }

  /** Removal works entry by entry: it distributes over concatenation, and a single entry stays
      exactly when its domain differs. So the surviving entries keep their order and their
      repetitions, as the stable std::remove_if leaves them. */
  lemma {:induction false} WithoutConcat(a: seq<DomainOverride>, b: seq<DomainOverride>, domain: string)
    ensures Without(a + b, domain) == Without(a, domain) + Without(b, domain)
    ensures |a| == 1 ==> Without(a, domain) == (if a[0].domain == domain then [] else a)
    decreases |a|
  {
    hide Without;
    if a == [] {
      assert a + b == b;
      WithoutEmpty(domain);
    } else {
      var x, rest := a[0], a[1..];
      assert a == [x] + rest && a + b == [x] + (rest + b);
      WithoutCons(x, rest, domain);
      WithoutCons(x, rest + b, domain);
      WithoutConcat(rest, b, domain);
      if |a| == 1 {
        assert rest == [];
        WithoutEmpty(domain);
      }
    }
  }

  /** Without on a table with one more entry at the front. */
  lemma WithoutCons(x: DomainOverride, rest: seq<DomainOverride>, domain: string)
    ensures Without([x] + rest, domain) == if x.domain == domain then Without(rest, domain) else [x] + Without(rest, domain)
  {
    assert ([x] + rest)[1..] == rest;
  }

  lemma WithoutEmpty(domain: string)
    ensures Without([], domain) == []
  {
  }

  /** Deleting what was just added restores the table. */
  lemma AddThenDelete(table: seq<DomainOverride>, o: DomainOverride)
    requires AddOverride(table, o).1
    ensures DeleteOverride(AddOverride(table, o).0, o.domain) == (table, true)
  {
    var added := table + [o];
    assert added[|table|].domain == o.domain;
    assert HasDomain(added, o.domain);
    WithoutConcat(table, [o], o.domain);
    WithoutConcat([o], [], o.domain);
    WithoutNothing(table, o.domain);
    assert table + [] == table;
  }

  /** A lookup whose first match survives a delete still finds that entry afterwards: the
      entries before it matched nothing and still do. */
  lemma DeleteKeepsLookup(table: seq<DomainOverride>, domain: string, query: string)
    requires FindOverride(table, query).Some?
    requires table[FindOverride(table, query).value].domain != domain
    ensures var after := DeleteOverride(table, domain).0;
      FindOverride(after, query).Some? && after[FindOverride(after, query).value] == table[FindOverride(table, query).value]
  {
    hide FindFrom, Matches;
    var i := FindOverride(table, query).value;
    var e := table[i];
    var a, b := table[..i], table[i + 1..];
    assert table == a + [e] + b;
    WithoutConcat(a + [e], b, domain);
    WithoutConcat(a, [e], domain);
    WithoutConcat([e], [], domain);
    if !HasDomain(table, domain) {
      WithoutNothing(table, domain);
    }
    var after := DeleteOverride(table, domain).0;
    var wa := Without(a, domain);
    assert after == wa + [e] + Without(b, domain);
    assert after[|wa|] == e;
    forall j | 0 <= j < |wa| ensures !Matches(after[j].domain, query) {
      assert after[j] == wa[j];
      assert wa[j] in a;
    }
    var r := FindOverride(after, query);
    assert r.Some? by {
      assert Matches(after[|wa|].domain, query);
    }
    assert r.value >= |wa|;
    assert r.value <= |wa|;
  }

  /** Updating an entry to a value with the same domain keeps the set of domains, so adding
      that domain again is still refused. */
  lemma UpdateKeepsDomain(table: seq<DomainOverride>, o: DomainOverride)
    requires UpdateOverride(table, o.domain, o).1
    ensures !AddOverride(UpdateOverride(table, o.domain, o).0, o).1
  {
    var i := DomainIndex(table, o.domain).value;
    assert UpdateOverride(table, o.domain, o).0[i] == o;
  }

  // ---------------------------------------------------------------------------
  // Response messages

  /** The flags word a zero-initialised response gets from setResponse and setRecursionAvailable. */
  const RESPONSE_FLAGS: uint16 := SetRecursionAvailable(SetResponse(0))

  /** id and questions of the query, no records. */
  function ResponseTo(query: Message): (r: Message)
    ensures r.id == query.id && r.questions == query.questions
    ensures IsResponse(r.flags) && Bits(r.flags) & RA_BIT != 0 && GetRCode(r.flags) == 0
    ensures r.answers == [] && r.authority == [] && r.additional == []
  {
    Message(query.id, RESPONSE_FLAGS, query.questions, [], [], [])
  }

  /** sendErrorResponse's message: no records, the given RCODE (low four bits). */
  function ErrorResponse(query: Message, rcode: bv8): (r: Message)
    ensures r.id == query.id && r.questions == query.questions
    ensures IsResponse(r.flags) && GetRCode(r.flags) == rcode & 0xF
    ensures r.answers == [] && r.authority == [] && r.additional == []
  {
    var base := ResponseTo(query);
    SetRCodeKeepsFlags(base.flags, rcode);
    base.(flags := SetRCode(base.flags, rcode))
  }

  /** sendControlResponse's message: one uncached A record whose address tells the new switch position. */
  function ControlResponse(query: Message, domain: string, enabled: bool): (r: Message)
    ensures r.id == query.id && r.questions == query.questions && IsResponse(r.flags)
    ensures |r.answers| == 1 && r.answers[0].name == domain
    ensures r.answers[0].rtype == TYPE_A && r.answers[0].ttl == 0
    ensures r.answers[0].data == (if enabled then ENABLED_ADDRESS else DISABLED_ADDRESS)
  {
    var address := if enabled then ENABLED_ADDRESS else DISABLED_ADDRESS;
    ResponseTo(query).(answers := [Answer(domain, TYPE_A, CLASS_IN, 0, address)])
  }

  /** One answer per override record, its mnemonic looked up with stringToType. */
  function OverrideAnswers(records: seq<Record>): (r: seq<Answer>)
    ensures |r| == |records|
    ensures forall i :: 0 <= i < |records| ==> (r[i].name == records[i].name && r[i].data == records[i].data
      && r[i].ttl == records[i].ttl && r[i].rclass == CLASS_IN && IsNamedType(r[i].rtype)
      && (r[i].rtype != TYPE_A ==> TypeName(r[i].rtype) == Upper(records[i].rtype)))
  {
    if records == [] then []
    else
      var rec := records[0];
      [Answer(rec.name, StringToType(rec.rtype), CLASS_IN, rec.ttl, rec.data)] + OverrideAnswers(records[1..])
  }

  /** sendOverrideResponse's message. */
  function OverrideResponse(query: Message, o: DomainOverride): (r: Message)
    ensures r.id == query.id && r.questions == query.questions && IsResponse(r.flags)
    ensures |r.answers| == |o.records| && r.authority == [] && r.additional == []
  {
    ResponseTo(query).(answers := OverrideAnswers(o.records))
  }

  // ---------------------------------------------------------------------------
  // The UDP size limit (ensureUdpSize)

  /** `(flags & 0x8080) | 0x8000`: QR set, RA kept, every other bit (TC and RCODE included) cleared. */
  function UdpFlags(flags: uint16): (f: uint16)
    ensures IsResponse(f) && !IsTruncated(f) && GetRCode(f) == 0
    ensures Bits(f) & RA_BIT == Bits(flags) & RA_BIT
    ensures Bits(f) & !(QR_BIT | RA_BIT) == 0
  {
    FromBits((Bits(flags) & 0x8080) | 0x8000)
  }

  /** The answers are dropped from the end, re-encoding after each, until the message fits or none is left. */
  function TrimAnswers(m: Message, encoded: Bytes): (r: Result<(Message, Bytes), DnsError>)
    ensures r.Ok? ==> |r.value.0.answers| <= |m.answers|
    decreases |m.answers|
  {
    if |encoded| <= MAX_UDP_SIZE || m.answers == [] then Ok((m, encoded))
    else
      var shorter := m.(answers := m.answers[..|m.answers| - 1], flags := UdpFlags(m.flags));
      var e :- Encode(shorter);
      TrimAnswers(shorter, e)
  }

  /** ensureUdpSize: over TCP the plain encoding; over UDP the flags are cleaned, answers dropped
      from the end while the encoding exceeds 512 bytes, and as a last resort the authority and
      additional sections cleared. */
  function EnsureUdpSize(m: Message, tcp: bool): (r: Result<Bytes, DnsError>)
    ensures tcp ==> r == Encode(m)
  {
    if tcp then Encode(m)
    else
      var clean := m.(flags := UdpFlags(ClearTruncated(m.flags)));
      var encoded :- Encode(clean);
      if |encoded| <= MAX_UDP_SIZE then Ok(encoded)
      else
        var (trimmed, e) :- TrimAnswers(clean, encoded);
        if |e| > MAX_UDP_SIZE then
          Encode(trimmed.(authority := [], additional := [], flags := UdpFlags(trimmed.flags)))
        else Ok(e)
  }

  /** The message a UDP reply carries when `k` answers are kept (and, if `cleared`, no authority or additional records). */
  function UdpCandidate(m: Message, k: nat, cleared: bool): (c: Message)
    requires k <= |m.answers|
    ensures c.id == m.id && c.questions == m.questions && c.answers == m.answers[..k]
  {
    Message(m.id, UdpFlags(m.flags), m.questions, m.answers[..k],
      if cleared then [] else m.authority, if cleared then [] else m.additional)
  }

  lemma CandidateEncodes(m: Message, k: nat, cleared: bool)
    requires Encode(m).Ok?
    requires k <= |m.answers|
    ensures Encode(UdpCandidate(m, k, cleared)).Ok?
  {
    hide Encode, UdpFlags, Bits, FromBits, IsResponse, IsTruncated, GetRCode;
    var c := UdpCandidate(m, k, cleared);
    EncodeSucceeds(m);
    EncodeSucceeds(c);
    assert forall i :: 0 <= i < |c.answers| ==> c.answers[i] == m.answers[i];
  }

  lemma UdpFlagsStable(flags: uint16)
    ensures UdpFlags(UdpFlags(flags)) == UdpFlags(flags)
    ensures UdpFlags(ClearTruncated(flags)) == UdpFlags(flags)
  {
    assert Bits(UdpFlags(flags)) == (Bits(flags) & 0x8080) | 0x8000;
    assert Bits(ClearTruncated(flags)) & 0x8080 == Bits(flags) & 0x8080;
  }

  /** The loop of ensureUdpSize stops at the longest prefix of the answers that fits, or at none. */
  lemma {:induction false} TrimAnswersSpec(m: Message, j: nat, encoded: Bytes) returns (k: nat)
    requires Encode(m).Ok? && j <= |m.answers|
    requires Encode(UdpCandidate(m, j, false)) == Ok(encoded)
    ensures k <= j
    ensures Encode(UdpCandidate(m, k, false)).Ok?
    ensures TrimAnswers(UdpCandidate(m, j, false), encoded)
      == Ok((UdpCandidate(m, k, false), Encode(UdpCandidate(m, k, false)).value))
    ensures k == 0 || |Encode(UdpCandidate(m, k, false)).value| <= MAX_UDP_SIZE
    ensures forall i | k < i <= j :: (Encode(UdpCandidate(m, i, false)).Ok?
      && |Encode(UdpCandidate(m, i, false)).value| > MAX_UDP_SIZE)
    decreases j
  {
    hide Encode, UdpFlags, Bits, FromBits, IsResponse, IsTruncated, GetRCode;
    var c := UdpCandidate(m, j, false);
    if |encoded| <= MAX_UDP_SIZE || j == 0 {
      k := j;
    } else {
      UdpFlagsStable(m.flags);
      assert m.answers[..j][..j - 1] == m.answers[..j - 1];
      var shorter := c.(answers := c.answers[..|c.answers| - 1], flags := UdpFlags(c.flags));
      assert shorter == UdpCandidate(m, j - 1, false);
      CandidateEncodes(m, j - 1, false);
      k := TrimAnswersSpec(m, j - 1, Encode(shorter).value);
    }
  }

  /** Dropping answers and clearing sections never removes a reason for encode to throw, nor adds one. */
  lemma EnsureUdpSizeFails(m: Message, tcp: bool)
    ensures EnsureUdpSize(m, tcp).Ok? <==> Encode(m).Ok?
  {
    if !tcp {
      hide Encode, UdpFlags, Bits, FromBits, IsResponse, IsTruncated, GetRCode;
      var clean := m.(flags := UdpFlags(ClearTruncated(m.flags)));
      EncodeSucceeds(m);
      EncodeSucceeds(clean);
      if Encode(m).Ok? {
        var _, _ := UdpSizeSpec(m);
      }
    }
  }

  /** The UDP reply keeps the first `k` answers, the most that fit in 512 bytes; when not even the
      bare question section fits, the authority and additional sections are cleared as well. */
  lemma UdpSizeSpec(m: Message) returns (k: nat, cleared: bool)
    requires Encode(m).Ok?
    ensures k <= |m.answers|
    ensures Encode(UdpCandidate(m, k, cleared)).Ok?
    ensures EnsureUdpSize(m, false) == Encode(UdpCandidate(m, k, cleared))
    ensures forall i | k < i <= |m.answers| :: (Encode(UdpCandidate(m, i, false)).Ok?
      && |Encode(UdpCandidate(m, i, false)).value| > MAX_UDP_SIZE)
    ensures !cleared ==> |Encode(UdpCandidate(m, k, false)).value| <= MAX_UDP_SIZE
    ensures cleared ==> (k == 0 && Encode(UdpCandidate(m, 0, false)).Ok?
      && |Encode(UdpCandidate(m, 0, false)).value| > MAX_UDP_SIZE)
  {
    hide Encode, TrimAnswers, UdpFlags, Bits, FromBits, IsResponse, IsTruncated, GetRCode;
    var n := |m.answers|;
    var clean := m.(flags := UdpFlags(ClearTruncated(m.flags)));
    UdpFlagsStable(m.flags);
    assert m.answers[..n] == m.answers;
    assert clean == UdpCandidate(m, n, false);
    CandidateEncodes(m, n, false);
    var encoded := Encode(clean).value;
    k := TrimAnswersSpec(m, n, encoded);
    var trimmed := UdpCandidate(m, k, false);
    cleared := |Encode(trimmed).value| > MAX_UDP_SIZE;
    if |encoded| <= MAX_UDP_SIZE {
      assert k == n;
    }
    if cleared {
      UdpFlagsStable(m.flags);
      assert trimmed.(authority := [], additional := [], flags := UdpFlags(trimmed.flags)) == UdpCandidate(m, k, true);
      CandidateEncodes(m, k, true);
    }
  }

  /** Every reply that leaves through ensureUdpSize carries the message's id; over UDP its flags are
      exactly `(flags & 0x8080) | 0x8000`, so QR is set and the RCODE is always 0. */
  lemma UdpReplyHeader(m: Message)
    requires EnsureUdpSize(m, false).Ok?
    ensures var b := EnsureUdpSize(m, false).value;
      |b| >= 12 && BigEndian16(b[0], b[1]) == m.id && BigEndian16(b[2], b[3]) == UdpFlags(m.flags)
      && GetRCode(BigEndian16(b[2], b[3])) == 0
  {
    hide EnsureUdpSize, Encode, UdpFlags, Bits, FromBits, IsResponse, IsTruncated, GetRCode;
    EnsureUdpSizeFails(m, false);
    var k, cleared := UdpSizeSpec(m);
    var c := UdpCandidate(m, k, cleared);
    var b := Encode(c).value;
    assert b[..12] == EncodeHeader(c);
    assert b[0] == EncodeHeader(c)[0] && b[1] == EncodeHeader(c)[1];
    assert b[2] == EncodeHeader(c)[2] && b[3] == EncodeHeader(c)[3];
  }

  /** The RCODE of an error response reaches a TCP client, but over UDP the flag cleaning
      resets it to 0 (NOERROR), so a UDP client sees an empty successful answer. */
  lemma ErrorRCodeOnlyOverTcp(query: Message, rcode: bv8)
    requires EnsureUdpSize(ErrorResponse(query, rcode), false).Ok?
    ensures EnsureUdpSize(ErrorResponse(query, rcode), true).Ok?
    ensures var b := EnsureUdpSize(ErrorResponse(query, rcode), true).value;
      |b| >= 12 && GetRCode(BigEndian16(b[2], b[3])) == rcode & 0xF
    ensures var b := EnsureUdpSize(ErrorResponse(query, rcode), false).value;
      |b| >= 12 && GetRCode(BigEndian16(b[2], b[3])) == 0
  {
    hide EnsureUdpSize, Encode, UdpFlags, Bits, FromBits, IsResponse, IsTruncated, GetRCode;
    var e := ErrorResponse(query, rcode);
    EnsureUdpSizeFails(e, false);
    EnsureUdpSizeFails(e, true);
    UdpReplyHeader(e);
    var b := Encode(e).value;
    assert b[..12] == EncodeHeader(e);
    assert b[2] == EncodeHeader(e)[2] && b[3] == EncodeHeader(e)[3];
  }

  // ---------------------------------------------------------------------------
  // Relaying an upstream answer (proxyToGoogleDns, after the datagram is received)

  /** Over UDP an answer above 512 bytes is decoded, its TC bit cleared and sent through
      ensureUdpSize; when that throws, the raw answer is cut to its first 512 bytes. */
  function RelayReply(reply: Bytes, tcp: bool): (r: Bytes)
    ensures tcp || |reply| <= MAX_UDP_SIZE ==> r == reply
  {
    if !tcp && |reply| > MAX_UDP_SIZE then
      match Decode(reply)
      case Err(_) => reply[..MAX_UDP_SIZE]
      case Ok(m) =>
        match EnsureUdpSize(m.(flags := ClearTruncated(m.flags)), false)
        case Ok(b) => b
        case Err(_) => reply[..MAX_UDP_SIZE]
    else reply
  }

  /** A relayed UDP answer keeps the upstream id, and since decode reads no authority or additional
      records the re-encoded answer has none: an EDNS OPT record of the upstream is dropped. A
      reply that cannot be decoded or re-encoded is cut to exactly 512 bytes. */
  lemma RelayReplySpec(reply: Bytes)
    requires |reply| > MAX_UDP_SIZE
    ensures var r := RelayReply(reply, false);
      (Decode(reply).Err? || Encode(Decode(reply).value).Err? ==> r == reply[..MAX_UDP_SIZE])
      && (Decode(reply).Ok? && Encode(Decode(reply).value).Ok? ==>
            |r| >= 12 && r[..2] == reply[..2]
            && BigEndian16(r[8], r[9]) == 0 && BigEndian16(r[10], r[11]) == 0)
  {
    hide EnsureUdpSize, Encode, Decode, UdpFlags, Bits, FromBits, IsResponse, IsTruncated, GetRCode;
    if Decode(reply).Ok? {
      var m := Decode(reply).value;
      var m' := m.(flags := ClearTruncated(m.flags));
      EncodeSucceeds(m);
      EncodeSucceeds(m');
      EnsureUdpSizeFails(m', false);
      if Encode(m).Ok? {
        var k, cleared := UdpSizeSpec(m');
        var c := UdpCandidate(m', k, cleared);
        var b := Encode(c).value;
        assert b[..12] == EncodeHeader(c);
        assert b[0] == EncodeHeader(c)[0] && b[1] == EncodeHeader(c)[1];
        assert b[8] == EncodeHeader(c)[8] && b[9] == EncodeHeader(c)[9];
        assert b[10] == EncodeHeader(c)[10] && b[11] == EncodeHeader(c)[11];
        BigEndian16Injective(b[0], b[1], reply[0], reply[1]);
      }
    }
  }

  // ---------------------------------------------------------------------------
  // One query (handleDnsQuery)

  predicate IsControlDomain(domain: string) {
    domain == ENABLE_DOMAIN || domain == DISABLE_DOMAIN
  }

  /** sendErrorResponse: when even the error response cannot be encoded nothing is sent. */
  function ErrorReply(query: Message, rcode: bv8, tcp: bool): (a: Action)
    ensures a.Send? <==> EnsureUdpSize(ErrorResponse(query, rcode), tcp).Ok?
  {
    match EnsureUdpSize(ErrorResponse(query, rcode), tcp)
    case Ok(b) => Send(b)
    case Err(_) => Silent
  }

  /** A locally built response; when encoding it throws, handleDnsQuery's handler answers SERVFAIL. */
  function LocalReply(query: Message, m: Message, tcp: bool): (a: Action)
    ensures EnsureUdpSize(m, tcp).Ok? ==> a == Send(EnsureUdpSize(m, tcp).value)
    ensures EnsureUdpSize(m, tcp).Err? ==> a == ErrorReply(query, SERVER_FAILURE, tcp)
  {
    match EnsureUdpSize(m, tcp)
    case Ok(b) => Send(b)
    case Err(_) => ErrorReply(query, SERVER_FAILURE, tcp)
  }

  /** What recvfrom leaves in proxyToGoogleDns's 4096-byte buffer: a longer datagram is cut
      to the buffer, so the "too large" branch after it never fires. */
  function Received(datagram: Bytes): (r: Bytes)
    ensures r <= datagram
    ensures |r| <= MAX_MESSAGE_SIZE
    ensures |datagram| <= MAX_MESSAGE_SIZE <==> r == datagram
  {
    if |datagram| > MAX_MESSAGE_SIZE then datagram[..MAX_MESSAGE_SIZE] else datagram
  }

  /** proxyToGoogleDns: the re-encoded query goes upstream; a failure to encode, a socket error
      or a timeout turns into SERVFAIL, and whatever was received is relayed. */
  function Proxy(query: Message, tcp: bool, upstream: Bytes -> Option<Bytes>): (a: Action)
  {
    match Encode(query)
    case Err(_) => ErrorReply(query, SERVER_FAILURE, tcp)
    case Ok(sent) =>
      match upstream(sent)
      case None => ErrorReply(query, SERVER_FAILURE, tcp)
      case Some(reply) => Send(RelayReply(Received(reply), tcp))
  }

  /** handleDnsQuery: decode; no question is a format error; a control domain flips the switch;
      an enabled matching override is answered locally; everything else is proxied. */
  function HandleQuery(s: ServerState, raw: Bytes, tcp: bool, upstream: Bytes -> Option<Bytes>)
    : (r: (ServerState, Action))
    ensures r.0.overrides == s.overrides
    ensures Decode(raw).Err? ==> r == (s, Silent)
  {
    match Decode(raw)
    case Err(_) => (s, Silent)
    case Ok(query) =>
      if query.questions == [] then (s, ErrorReply(query, FORMAT_ERROR, tcp))
      else
        var domain := query.questions[0].name;
        if IsControlDomain(domain) then
          var on := domain == ENABLE_DOMAIN;
          (s.(enabled := on), LocalReply(query, ControlResponse(query, domain, on), tcp))
        else if s.enabled && FindOverride(s.overrides, domain).Some? then
          var o := s.overrides[FindOverride(s.overrides, domain).value];
          (s, LocalReply(query, OverrideResponse(query, o), tcp))
        else (s, Proxy(query, tcp, upstream))
  }

  /** The first question of a decodable query, if any. */
  function FirstName(raw: Bytes): Option<string> {
    match Decode(raw)
    case Err(_) => None
    case Ok(query) => if query.questions == [] then None else Some(query.questions[0].name)
  }

  /** Only a control domain moves the switch, to on for the enable domain and off for the disable domain. */
  lemma SwitchFollowsControl(s: ServerState, raw: Bytes, tcp: bool, up: Bytes -> Option<Bytes>)
    ensures HandleQuery(s, raw, tcp, up).0.enabled ==
      if FirstName(raw).Some? && IsControlDomain(FirstName(raw).value)
      then FirstName(raw).value == ENABLE_DOMAIN else s.enabled
  {
    hide Decode, EnsureUdpSize, Proxy, FindOverride, LocalReply, ErrorReply;
  }

  /** A control domain is honoured whatever the switch and the table hold, and leaves the switch
      set according to the domain. */
  lemma ControlComesFirst(s: ServerState, s': ServerState, raw: Bytes, tcp: bool,
                          up: Bytes -> Option<Bytes>, up': Bytes -> Option<Bytes>)
    requires FirstName(raw).Some? && IsControlDomain(FirstName(raw).value)
    ensures HandleQuery(s, raw, tcp, up).1 == HandleQuery(s', raw, tcp, up').1
    ensures HandleQuery(s, raw, tcp, up).0.enabled == (FirstName(raw).value == ENABLE_DOMAIN)
  {
    hide Decode, EnsureUdpSize, Proxy, FindOverride;
  }

  /** With overrides switched off the table is never consulted. */
  lemma DisabledIgnoresTable(s: ServerState, table: seq<DomainOverride>, raw: Bytes, tcp: bool,
                             up: Bytes -> Option<Bytes>)
    requires !s.enabled
    ensures HandleQuery(s, raw, tcp, up).1 == HandleQuery(s.(overrides := table), raw, tcp, up).1
  {
    hide Decode, EnsureUdpSize, Proxy, FindOverride;
  }

  /** A query an enabled override answers never reaches the upstream resolver. */
  lemma OverrideStaysLocal(s: ServerState, raw: Bytes, tcp: bool,
                           up: Bytes -> Option<Bytes>, up': Bytes -> Option<Bytes>)
    requires FirstName(raw).Some? && !IsControlDomain(FirstName(raw).value)
    requires s.enabled && FindOverride(s.overrides, FirstName(raw).value).Some?
    ensures HandleQuery(s, raw, tcp, up) == HandleQuery(s, raw, tcp, up')
  {
    hide Decode, EnsureUdpSize, Proxy, FindOverride;
  }

  /** A query without a question gets FORMERR (over TCP; over UDP the RCODE is cleared), whatever the state. */
  lemma NoQuestionIsFormatError(s: ServerState, raw: Bytes, tcp: bool, up: Bytes -> Option<Bytes>)
    requires Decode(raw).Ok? && Decode(raw).value.questions == []
    ensures HandleQuery(s, raw, tcp, up) == (s, ErrorReply(Decode(raw).value, FORMAT_ERROR, tcp))
  {
    hide Decode, EnsureUdpSize;
  }

  /** What goes upstream is the query re-encoded: same id and questions, and no authority or
      additional records, since decode does not read them. A usable answer is relayed. */
  lemma ForwardedQuery(s: ServerState, raw: Bytes, tcp: bool, up: Bytes -> Option<Bytes>)
    requires FirstName(raw).Some? && !IsControlDomain(FirstName(raw).value)
    requires !s.enabled || FindOverride(s.overrides, FirstName(raw).value).None?
    requires Encode(Decode(raw).value).Ok?
    ensures var sent := Encode(Decode(raw).value).value;
      |sent| >= 12 && sent[..2] == raw[..2]
      && BigEndian16(sent[8], sent[9]) == 0 && BigEndian16(sent[10], sent[11]) == 0
      && (up(sent).Some? ==> HandleQuery(s, raw, tcp, up) == (s, Send(RelayReply(Received(up(sent).value), tcp))))
  {
    hide Decode, Encode, EnsureUdpSize, RelayReply, FindOverride;
    var q := Decode(raw).value;
    var sent := Encode(q).value;
    assert sent[..12] == EncodeHeader(q);
    assert sent[0] == EncodeHeader(q)[0] && sent[1] == EncodeHeader(q)[1];
    assert sent[8] == EncodeHeader(q)[8] && sent[9] == EncodeHeader(q)[9];
    assert sent[10] == EncodeHeader(q)[10] && sent[11] == EncodeHeader(q)[11];
    BigEndian16Injective(sent[0], sent[1], raw[0], raw[1]);
  }

  /** An override whose record type cannot be encoded (SOA, say) makes the whole answer a
      SERVFAIL: no record of the override reaches the client. */
  lemma UnencodableOverrideFails(s: ServerState, raw: Bytes, tcp: bool, up: Bytes -> Option<Bytes>, i: nat)
    requires FirstName(raw).Some? && !IsControlDomain(FirstName(raw).value)
    requires s.enabled && FindOverride(s.overrides, FirstName(raw).value) == Some(i)
    requires exists j :: (0 <= j < |s.overrides[i].records| &&
      !RecordEncodes(OverrideAnswers(s.overrides[i].records)[j]))
    ensures HandleQuery(s, raw, tcp, up).1 == ErrorReply(Decode(raw).value, SERVER_FAILURE, tcp)
  {
    hide Decode, Encode, EnsureUdpSize, FindOverride;
    var query := Decode(raw).value;
    var m := OverrideResponse(query, s.overrides[i]);
    EncodeSucceeds(m);
    EnsureUdpSizeFails(m, tcp);
  }

  /** The UDP server loop reads datagrams into a 1024-byte buffer: longer datagrams are cut. */
  function HandleUdp(s: ServerState, datagram: Bytes, up: Bytes -> Option<Bytes>): (r: (ServerState, Action))
    ensures |datagram| <= UDP_BUFFER_SIZE ==> r == HandleQuery(s, datagram, false, up)
  {
    var received := if |datagram| <= UDP_BUFFER_SIZE then datagram else datagram[..UDP_BUFFER_SIZE];
    HandleQuery(s, received, false, up)
  }

  // ---------------------------------------------------------------------------
  // TCP framing (handleTcpConnection, sendTcpResponse)

  /** handleTcpConnection: a big-endian length of 1..4096 followed by that many bytes. */
  function ReadTcpRequest(stream: Bytes): (r: Option<Bytes>)
    ensures r.Some? ==> (|stream| >= 2 + |r.value| && 1 <= |r.value| <= MAX_MESSAGE_SIZE
      && BigEndian16(stream[0], stream[1]) == |r.value| && r.value == stream[2..2 + |r.value|])
    ensures (|stream| >= 2 && 1 <= BigEndian16(stream[0], stream[1]) <= MAX_MESSAGE_SIZE
      && |stream| >= 2 + BigEndian16(stream[0], stream[1])) ==> r.Some?
  {
    if |stream| < 2 then None
    else
      var len: int := stream[0] as int * 256 + stream[1] as int;
      if len == 0 || len > MAX_MESSAGE_SIZE || |stream| - 2 < len then None
      else Some(stream[2..2 + len])
  }

  /** htons on a little-endian host: the two bytes of the 16-bit value swapped. */
  function HostToNetwork16(x: uint16): (r: uint16)
    ensures r / 256 == x % 256 && r % 256 == x / 256
  {
    (x % 256) * 256 + x / 256
  }

  /** sendTcpResponse as written: the size is byte-swapped by htons and then split high byte first,
      which undoes the swap and puts the low byte first. */
  function TcpPrefixAsWritten(size: nat): (r: Bytes)
    ensures r == [ToUint16(size) % 256, ToUint16(size) / 256]
  {
    var length := HostToNetwork16(ToUint16(size));
    [(length / 256) % 256, length % 256]
  }

  /** The evidently intended prefix: the 16-bit size, high byte first. */
  function TcpPrefix(size: nat): (r: Bytes)
    ensures |r| == 2 && BigEndian16(r[0], r[1]) == ToUint16(size)
  {
    var n := ToUint16(size);
    [n / 256, n % 256]
  }

  /** A response of 300 bytes is announced as 0x2C 0x01, i.e. 11264 + 1 bytes: the server's own
      reader refuses the frame. */
  lemma TcpPrefixAsWrittenMisframes(response: Bytes)
    requires |response| == 300
    ensures TcpPrefixAsWritten(|response|) == [0x2C, 0x01]
    ensures BigEndian16(0x2C, 0x01) == 11265
    ensures ReadTcpRequest(TcpPrefixAsWritten(|response|) + response).None?
    ensures ReadTcpRequest(TcpPrefix(|response|) + response) == Some(response)
  {
    TcpFramingRoundTrip(response);
  }

  /** A frame written with the intended prefix is read back by the server's own framing. */
  lemma TcpFramingRoundTrip(message: Bytes)
    requires 1 <= |message| <= MAX_MESSAGE_SIZE
    ensures ReadTcpRequest(TcpPrefix(|message|) + message) == Some(message)
  {
    var stream := TcpPrefix(|message|) + message;
    assert stream[2..2 + |message|] == message;
  }

  /** sendTcpResponse with the intended prefix: the reply behind its 16-bit length. */
  function Frame(reply: Bytes): (r: Bytes)
    ensures |r| == |reply| + 2 && BigEndian16(r[0], r[1]) == ToUint16(|reply|) && r[2..] == reply
  {
    TcpPrefix(|reply|) + reply
  }

  /** What a TCP connection sends back for the handler's action: nothing, or the framed reply. */
  function TcpReply(action: Action): (r: Bytes)
    ensures r != [] ==> |r| >= 2 && BigEndian16(r[0], r[1]) == ToUint16(|r| - 2)
  {
    match action
    case Silent => []
    case Send(b) => Frame(b)
  }

  /** One TCP connection: the framed request is handled as a query and the reply framed back. */
  function HandleTcp(s: ServerState, stream: Bytes, up: Bytes -> Option<Bytes>): (r: (ServerState, Bytes))
    ensures ReadTcpRequest(stream).None? ==> r == (s, [])
  {
    match ReadTcpRequest(stream)
    case None => (s, [])
    case Some(message) =>
      var (s', action) := HandleQuery(s, message, true, up);
      (s', TcpReply(action))
  }

  /** Whatever a TCP connection sends back carries its own length in front, high byte first, and
      the table of overrides is never changed by a query. */
  lemma TcpRepliesFramed(s: ServerState, stream: Bytes, up: Bytes -> Option<Bytes>)
    ensures var r := HandleTcp(s, stream, up);
      r.0.overrides == s.overrides
      && (r.1 != [] ==> |r.1| >= 2 && BigEndian16(r.1[0], r.1[1]) == ToUint16(|r.1| - 2))
  {
    match ReadTcpRequest(stream)
    case None =>
    case Some(message) =>
      var (s', action) := HandleQuery(s, message, true, up);
      assert HandleTcp(s, stream, up) == (s', TcpReply(action));
  }
}
