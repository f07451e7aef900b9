# DNS wire codec and resolver, with the kernel pieces around them

This project models two parts of a repository that holds a small DNS override server and a
hobby x86 operating system ported to the browser.

The primary part is the C++ DNS server:

- **Wire codec** (`DnsPacket`). It covers big-endian integer reads and writes, and domain names
  with compression pointers on decode (pointers must point backward; at most five are followed).
  Names are written without compression. RDATA is converted for A, NS, CNAME, PTR, MX, TXT and
  AAAA, and whole messages are decoded and encoded. These follow sections 4.1.1-4.1.4 and 3.3/3.4
  of RFC 1035 and section 2.2 of RFC 3596.
- **Resolver** (`DnsServer`), with its sockets removed. It covers:
  - the ordered override table with add, update and delete, and the first-match lookup with
    `*.` wildcards;
  - the decision order for one query: no question, control domain, override, upstream;
  - the locally built override, error and control responses;
  - the 512-byte UDP limit;
  - the post-processing of an upstream answer;
  - the TCP length prefix.

  A state holds the table and the on/off switch. One query maps a state to a new state and
  either a reply or silence. The upstream resolver is a function parameter.

The secondary part is self-contained pieces of the web-ported kernel:

- the first-fit heap allocator, as a sequence of `(used, size)` chunks with a 16-byte header;
- x86 segment-descriptor packing, following section 3.4.5 of Volume 3A of the Intel 64 and IA-32
  Architectures Software Developer's Manual;
- the journal editor's key handler and the settings window's key and click handling;
- the mode 13h framebuffer, its palette and its line and rectangle primitives;
- text-mode cell packing and hexadecimal printing;
- the browser key-name to scan-code table;
- the interrupt handler registry and dispatch;
- the network card stub's IP store, MAC derivation and send path.

Modules: `Ints`, `Wrappers`, `DnsWire`, `DnsMessage`, `DnsText`, `DnsName`, `DnsRdata`,
`DnsPacket`, `DnsRoundTrip`, `DnsServer`, `Memory`, `Gdt`, `Journal`, `Settings`, `Vga`,
`TextMode`, `Keyboard`, `Interrupts`, `Nic`.

Two behaviours of the code are easy to miss:

- **Wildcard apex.** `*.example.com` also answers `example.com` itself, because the code tests a
  plain suffix (see `DnsServer.WildcardMatchesApex`).
- **Bad requests over UDP.** A query with no question gets FORMERR only over TCP. Over UDP,
  `ensureUdpSize` clears the RCODE, so a UDP client receives RCODE 0 (see
  `DnsServer.ErrorRCodeOnlyOverTcp`).

## Model

| member | source | states |
|---|---|---|
| DnsWire.ReadUint16 | dns/cpp/src/DnsPacket.cpp:37-44 | fails exactly when fewer than two bytes remain; otherwise yields the big-endian value and an offset advanced by exactly 2 |
| DnsWire.ReadUint32 | dns/cpp/src/DnsPacket.cpp:46-54 | fails exactly when fewer than four bytes remain; otherwise yields the big-endian value and an offset advanced by exactly 4 |
| DnsWire.WriteUint16 | dns/cpp/src/DnsPacket.cpp:56-59 | appends exactly two bytes that read as the value high byte first |
| DnsWire.WriteUint32 | dns/cpp/src/DnsPacket.cpp:61-66 | appends exactly four bytes that read as the value most significant first |
| DnsWire.ReadWrite16 | dns/cpp/src/DnsPacket.cpp:37-59 | reading a 16-bit value where it was written, inside any surrounding bytes, gives it back and moves past it |
| DnsWire.ReadWrite32 | dns/cpp/src/DnsPacket.cpp:46-66 | the same round trip for 32-bit values |
| DnsWire.BigEndian16Injective | dns/cpp/src/DnsPacket.cpp:37-44 | two byte pairs that read as the same 16-bit value are the same pair |
| DnsMessage.GetRCode | dns/cpp/src/DnsPacket.hpp:49 | the RCODE is the low four bits of the flags, below 16 |
| DnsMessage.SetRCode | dns/cpp/src/DnsPacket.hpp:50 | afterwards the RCODE reads as `rcode & 0xF` and the upper twelve bits are unchanged |
| DnsMessage.SetResponse | dns/cpp/src/DnsPacket.hpp:47-51 | sets QR (0x8000), so the message counts as a response, and changes no other bit |
| DnsMessage.SetRecursionAvailable | dns/cpp/src/DnsPacket.hpp:52 | sets RA (0x0080) and changes no other bit |
| DnsMessage.SetTruncated | dns/cpp/src/DnsPacket.hpp:53-54 | sets TC (0x0200), which the truncation test then reports, and changes no other bit |
| DnsMessage.ClearTruncated | dns/cpp/src/DnsPacket.hpp:53-55 | clears TC and changes no other bit |
| DnsMessage.SetRCodeKeepsFlags | dns/cpp/src/DnsPacket.hpp:47-53 | setting the RCODE changes neither the response bit nor the truncation bit |
| DnsMessage.StringToType | dns/cpp/src/DnsPacket.cpp:8-21 | always yields one of the eight named type codes; any mnemonic other than A maps to the code of that name, ignoring case, and an unknown mnemonic becomes A |
| DnsMessage.TypeToString | dns/cpp/src/DnsPacket.cpp:23-35 | a named code gives its mnemonic; any other code gives "A" |
| DnsMessage.TypeNameRoundTrip | dns/cpp/src/DnsPacket.cpp:8-35 | every named type code survives conversion to text and back |
| DnsMessage.StringToTypeIgnoresCase | dns/cpp/src/DnsPacket.cpp:8-21 | upper-casing a mnemonic does not change its code |
| DnsMessage.TypeStringRoundTrip | dns/cpp/src/DnsPacket.cpp:8-35 | a mnemonic of a named type comes back upper-cased from code and back |
| DnsName.NameStepSpec | dns/cpp/src/DnsPacket.cpp:83-124 | one byte of a name, classified exactly: zero ends the name; a pointer byte fails without a second byte, with a target outside [12, end), or with a target not below the pointer's position minus one; lengths 64-191 fail; a label running past the buffer fails; anything else is a label of that many bytes |
| DnsName.DecodeNameLoopLabels | dns/cpp/src/DnsPacket.cpp:117-137 | every label the loop gathers is 1-63 bytes and together they fit in 255 bytes |
| DnsName.DecodeName | dns/cpp/src/DnsPacket.cpp:68-145 | an offset at or past the end yields the empty name and the same offset |
| DnsName.DecodeNameSpec | dns/cpp/src/DnsPacket.cpp:68-145 | a decoded name is under 255 characters, all byte-range, and the caller's offset moves forward |
| DnsName.DecodeNameResumesAfterPointer | dns/cpp/src/DnsPacket.cpp:108-142 | a name that starts with a pointer resumes just past that two-byte pointer, and decodes exactly when its target does |
| DnsName.DecodeNameRejectsNonBackwardPointer | dns/cpp/src/DnsPacket.cpp:103-106 | a pointer whose target is not below its own position minus one is an error |
| DnsName.DecodeNameJumpLimit | dns/cpp/src/DnsPacket.cpp:72-77 | a chain of six pointers stops after five and returns what it has without error |
| DnsName.JumpsExhausted | dns/cpp/src/DnsPacket.cpp:77 | once five pointers were followed the loop returns the labels so far and the resume position |
| DnsName.DecodeNameUnterminated | dns/cpp/src/DnsPacket.cpp:77-144 | for any valid labels of at most 255 encoded bytes that end the buffer with no zero byte after them, after any prefix, decodeName returns their dotted join without error and the caller continues at the end of the buffer |
| DnsName.UnterminatedLabels | dns/cpp/src/DnsPacket.cpp:83-132 | the loop reads such labels one at a time and leaves through its end-of-buffer exit with all of them gathered |
| DnsName.EndOfBuffer | dns/cpp/src/DnsPacket.cpp:83-144 | at the end of the buffer the loop stops without an error, whatever it has gathered and however many pointers it has followed, and the caller continues at the resume position or the end |
| DnsName.EncodeSegmentsSpec | dns/cpp/src/DnsPacket.cpp:159-188 | the label loop succeeds exactly when every segment is at most 63 bytes and the running size stays within 255; empty segments are skipped |
| DnsName.EncodeName | dns/cpp/src/DnsPacket.cpp:147-157 | the empty name is the single zero byte, and a name over 254 characters is refused |
| DnsName.EncodeNameSpec | dns/cpp/src/DnsPacket.cpp:147-191 | a name encodes exactly when it is under 255 characters and no segment exceeds 63; the result is the non-empty labels with their length bytes, then one zero byte, never a pointer |
| DnsName.DecodeEncodeName | dns/cpp/src/DnsPacket.cpp:68-191 | a name of non-empty labels within the limits is read back unchanged from its encoding, wherever it sits in a buffer |
| DnsRdata.EncodeMx | dns/cpp/src/DnsPacket.cpp:231-241 | MX text without a space is refused, and so is a priority std::stoi rejects; otherwise it encodes exactly when the name after the first space encodes, to the stoi value cut to 16 bits, high byte first, followed by encodeName's bytes for the name |
| DnsRdata.MxPriorityWraps | dns/cpp/src/DnsPacket.cpp:231-241 | any int-range priority, with any non-digit text after it, is written modulo 2^16, so a negative priority wraps; an empty priority is refused |
| DnsRdata.MxEncoding | dns/cpp/src/DnsPacket.cpp:231-241 | canonical MX text encodes to its decimal priority as two bytes followed by the encoded name |
| DnsRdata.EncodeRecordData | dns/cpp/src/DnsPacket.cpp:193-247 | SOA and every unlisted type are refused; NS, CNAME and PTR data encode exactly as encodeName encodes the text; MX data as EncodeMx; TXT data always encodes, to one byte more than the text |
| DnsRdata.EncodeASpec | dns/cpp/src/DnsPacket.cpp:197-209 | A data encodes exactly when it is a dotted quad, to four bytes that print back as that text |
| DnsRdata.EncodeAaaaSpec | dns/cpp/src/DnsPacket.cpp:210-219 | AAAA data encodes exactly when it splits at colons into eight groups of one to four hex digits in either case; it then gives sixteen bytes, group g's value in byte pair g, high byte first |
| DnsRdata.TxtRoundTrip | dns/cpp/src/DnsPacket.cpp:226-230 | TXT record data reads back as the text cut to its length modulo 256: up to 255 characters survive whole, a longer text keeps only its first length-mod-256 characters |
| DnsRdata.DecodeRecordData | dns/cpp/src/DnsPacket.cpp:249-304 | data running past the buffer is an error |
| DnsRdata.DecodeRecordDataSpec | dns/cpp/src/DnsPacket.cpp:249-304 | A needs exactly 4 bytes and AAAA exactly 16, and each prints as text that parses back to those bytes; MX under 3 bytes fails; the types the switch has no case for, SOA included, print as unpadded hex |
| DnsRdata.DecodeTxt | dns/cpp/src/DnsPacket.cpp:282-285 | corrected TXT read: empty record data gives the empty string; fails exactly when the length byte points past the record data; otherwise returns exactly those bytes |
| DnsRdata.DecodeTxtAsWritten | dns/cpp/src/DnsPacket.cpp:282-285 | as written: a length byte that reaches past the buffer is an over-read; otherwise the text has exactly as many characters as the length byte says |
| DnsRdata.DecodeTxtAgrees | dns/cpp/src/DnsPacket.cpp:282-285 | whenever the corrected TXT read succeeds, the code as written reads the same text |
| DnsRdata.RecordDataRoundTrip | dns/cpp/src/DnsPacket.cpp:193-304 | canonical A, AAAA, NS, CNAME, PTR, TXT and MX data is decoded back to the same text from its encoding |
| DnsRdata.MxLayout | dns/cpp/src/DnsPacket.cpp:286-294 | an MX record of priority p and a name decodes as the decimal priority, a space and the name |
| DnsPacket.Decode | dns/cpp/src/DnsPacket.cpp:306-392 | fails under 12 bytes; a decoded message has the header's id and flags, as many questions and answers as the header counts, and empty authority and additional sections |
| DnsPacket.EncodeHeader | dns/cpp/src/DnsPacket.cpp:397-403 | twelve bytes holding id, flags and the four section lengths mod 65536, high byte first |
| DnsPacket.EncodeQuestion | dns/cpp/src/DnsPacket.cpp:406-410 | a question encodes exactly when its name does, to the name plus four bytes |
| DnsPacket.EncodeRecord | dns/cpp/src/DnsPacket.cpp:413-422 | a record encodes exactly when its name and data do, to the name, ten fixed bytes and the data |
| DnsPacket.Encode | dns/cpp/src/DnsPacket.cpp:394-449 | an encoded message starts with its header |
| DnsPacket.EncodeSucceeds | dns/cpp/src/DnsPacket.cpp:394-449 | a message encodes exactly when every name and every record in it does |
| DnsPacket.QuestionBounds | dns/cpp/src/DnsPacket.cpp:323-329 | a question read succeeds only inside the buffer and moves the offset forward |
| DnsPacket.RecordHeaderBounds | dns/cpp/src/DnsPacket.cpp:332-346 | a record's fixed part is read only when its data fits the buffer |
| DnsRoundTrip.ManyAt | dns/cpp/src/DnsPacket.cpp:323-351 | for any per-item codec that reads back its own output, a section of items is read back in order |
| DnsRoundTrip.ManyFraming | dns/cpp/src/DnsPacket.cpp:353-389 | skipping a section ends where decoding it would |
| DnsRoundTrip.QuestionsReadBack | dns/cpp/src/DnsPacket.cpp:323-329 | every canonical question is read back from its encoding, wherever it sits |
| DnsRoundTrip.RecordsReadBack | dns/cpp/src/DnsPacket.cpp:332-351 | every canonical record is read back, ttl included, from its encoding |
| DnsRoundTrip.MessageRoundTrip | dns/cpp/src/DnsPacket.cpp:306-449 | decoding an encoded canonical message, even with trailing bytes, gives back its id, flags, questions and answers, and no authority or additional records |
| DnsText.DecimalRoundTrip | dns/cpp/src/DnsPacket.cpp:290-293 | a number's decimal text parses back to it, and canonical decimal text prints back unchanged |
| DnsText.Stoi | dns/cpp/src/DnsPacket.cpp:237 | a result is within int range, and text with no digit at all is refused, as std::invalid_argument is |
| DnsText.StoiOfDecimal | dns/cpp/src/DnsPacket.cpp:237 | stoi reads an int-range number's decimal text back, whatever non-digit follows |
| DnsText.StoiOfSigned | dns/cpp/src/DnsPacket.cpp:237 | stoi reads back every int written in decimal with its sign, whatever non-digit follows |
| DnsText.Ipv4FormatParse | dns/cpp/src/DnsPacket.cpp:259-264 | four bytes printed as a dotted quad parse back to the same bytes |
| DnsText.Ipv4ParseFormat | dns/cpp/src/DnsPacket.cpp:197-209 | a dotted quad that parses prints back unchanged |
| DnsText.Ipv6RoundTrip | dns/cpp/src/DnsPacket.cpp:266-274 | sixteen bytes printed as an IPv6 address parse back to the same bytes |
| DnsText.FormatIpv6 | dns/cpp/src/DnsPacket.cpp:266-274 | sixteen bytes print as 39 characters: eight groups of four hex digits, a colon after each group but the last |
| DnsText.ParseIpv6 | dns/cpp/src/DnsPacket.cpp:210-219 | text parses exactly when it splits at colons into eight groups of one to four hex digits; group g's value is byte pair g of the result, high byte first |
| DnsText.ParseGroupsSpec | dns/cpp/src/DnsPacket.cpp:210-219 | a list of groups parses exactly when every group is one to four hex digits, each group's value landing in its own byte pair |
| DnsText.HexDumpNotInjective | dns/cpp/src/DnsPacket.cpp:295-301 | the unpadded hex of unknown record data is ambiguous: 01 23 and 12 03 both print as "123" |
| DnsServer.InitialState | dns/cpp/src/DnsServer.cpp:22-25 | a server starts with the loaded table and overrides switched on |
| DnsServer.FindOverride | dns/cpp/src/DnsServer.cpp:305-322 | finds the first entry in table order whose domain is the name or a `*.` suffix of it; nothing exactly when no entry matches |
| DnsServer.WildcardMatchesApex | dns/cpp/src/DnsServer.cpp:313-318 | `*.d` also answers for `d` itself |
| DnsServer.WildcardIgnoresLabels | dns/cpp/src/DnsServer.cpp:313-318 | the suffix test ignores label boundaries: `*.example.com` answers `badexample.com` |
| DnsServer.FindOverrideAppend | dns/cpp/src/DnsServer.cpp:305-322 | appending an entry never changes what an already-matched domain resolves to |
| DnsServer.AddOverride | dns/cpp/src/DnsServer.cpp:1222-1233 | refused, with the table unchanged, exactly when the domain is already present; otherwise the entry is appended |
| DnsServer.UpdateOverride | dns/cpp/src/DnsServer.cpp:1235-1244 | succeeds exactly when the domain is present; the first entry for it is replaced in place, and nothing else moves |
| DnsServer.DeleteOverride | dns/cpp/src/DnsServer.cpp:1246-1288 | succeeds exactly when the domain is present; afterwards the table is the old one without that domain's entries, the others kept in their order; a failed delete changes nothing |
| DnsServer.WithoutConcat | dns/cpp/src/DnsServer.cpp:1246-1288 | removing a domain's entries from two tables joined end to end is removing them from each and joining the results |
| DnsServer.DeleteKeepsLookup | dns/cpp/src/DnsServer.cpp:305-322 | deleting a domain other than that of the entry a lookup finds leaves the lookup's answer unchanged |
| DnsServer.AddThenDelete | dns/cpp/src/DnsServer.cpp:1222-1288 | deleting a domain just added restores the table |
| DnsServer.UpdateKeepsDomain | dns/cpp/src/DnsServer.cpp:1222-1244 | after updating an entry to one with the same domain, adding that entry is still refused |
| DnsServer.ResponseTo | dns/cpp/src/DnsServer.cpp:326-330 | a local response copies the id and questions, sets QR and RA, has RCODE 0 and no records |
| DnsServer.OverrideAnswers | dns/cpp/src/DnsServer.cpp:332-341 | one answer per override record, in order, with the record's name, ttl and data, class IN, and the type its mnemonic names (unknown mnemonics become A) |
| DnsServer.OverrideResponse | dns/cpp/src/DnsServer.cpp:324-345 | the override response answers the query's id and questions with exactly as many answers as the override has records |
| DnsServer.ErrorResponse | dns/cpp/src/DnsServer.cpp:428-444 | an error response copies the id and questions, is a response, carries the RCODE's low four bits and no records |
| DnsServer.ControlResponse | dns/cpp/src/DnsServer.cpp:1329-1349 | a control response carries one A answer for the domain with ttl 0 and address 127.0.0.1 when enabled, 127.0.0.2 when disabled |
| DnsServer.UdpFlags | dns/cpp/src/DnsServer.cpp:220-225 | over UDP only QR (set) and RA (kept) survive; TC and RCODE become 0 |
| DnsServer.UdpFlagsStable | dns/cpp/src/DnsServer.cpp:220-225 | cleaning the flags twice, or after clearing TC, changes nothing |
| DnsServer.EnsureUdpSize | dns/cpp/src/DnsServer.cpp:212-216 | over TCP the reply is the plain encoding |
| DnsServer.TrimAnswersSpec | dns/cpp/src/DnsServer.cpp:234-239 | the trimming loop stops at the longest prefix of the answers whose encoding fits 512 bytes, or at none |
| DnsServer.UdpSizeSpec | dns/cpp/src/DnsServer.cpp:212-250 | a UDP reply keeps the first k answers, the most that fit in 512 bytes; authority and additional are cleared only when no answer is left and it still does not fit |
| DnsServer.EnsureUdpSizeFails | dns/cpp/src/DnsServer.cpp:212-250 | sizing fails exactly when the message itself cannot be encoded |
| DnsServer.UdpReplyHeader | dns/cpp/src/DnsServer.cpp:212-250 | a UDP reply carries the message's id and the cleaned flags, so its RCODE is 0 |
| DnsServer.ErrorRCodeOnlyOverTcp | dns/cpp/src/DnsServer.cpp:212-225 | an error response's RCODE reaches a TCP client, but a UDP client sees RCODE 0 |
| DnsServer.RelayReply | dns/cpp/src/DnsServer.cpp:411-422 | an upstream answer is passed on unchanged over TCP or when it fits 512 bytes |
| DnsServer.RelayReplySpec | dns/cpp/src/DnsServer.cpp:411-422 | an oversized UDP answer that cannot be decoded or re-encoded is cut to exactly 512 bytes; otherwise it keeps the upstream id and loses its authority and additional sections |
| DnsServer.ErrorReply | dns/cpp/src/DnsServer.cpp:428-444 | an error is sent exactly when its response can be encoded |
| DnsServer.LocalReply | dns/cpp/src/DnsServer.cpp:294-302 | a local response that cannot be encoded turns into SERVFAIL |
| DnsServer.HandleQuery | dns/cpp/src/DnsServer.cpp:260-303 | a query never changes the table, and an undecodable one is dropped in silence |
| DnsServer.SwitchFollowsControl | dns/cpp/src/DnsServer.cpp:1308-1327 | only the control domains move the switch: on for enable, off for disable, whatever it was |
| DnsServer.ControlComesFirst | dns/cpp/src/DnsServer.cpp:275-278 | a control domain is answered the same whatever the switch, the table and the upstream |
| DnsServer.DisabledIgnoresTable | dns/cpp/src/DnsServer.cpp:280-288 | with overrides switched off the table is never consulted |
| DnsServer.OverrideStaysLocal | dns/cpp/src/DnsServer.cpp:280-288 | a query an enabled override answers never depends on the upstream |
| DnsServer.NoQuestionIsFormatError | dns/cpp/src/DnsServer.cpp:264-267 | a query without a question gets the FORMERR response and leaves the state alone |
| DnsServer.ForwardedQuery | dns/cpp/src/DnsServer.cpp:362-425 | what goes upstream is the query re-encoded with its id and no authority or additional records; whatever answer comes back, cut to the 4096-byte receive buffer, is relayed |
| DnsServer.Received | dns/cpp/src/DnsServer.cpp:385-406 | the received reply is a prefix of the upstream datagram of at most 4096 bytes, the whole datagram exactly when it fits |
| DnsServer.UnencodableOverrideFails | dns/cpp/src/DnsServer.cpp:280-302 | an override holding a record that cannot be encoded (SOA, say) is answered with SERVFAIL |
| DnsServer.HandleUdp | dns/cpp/src/DnsServer.cpp:1115-1140 | a datagram within the 1024-byte buffer is handled as a UDP query |
| DnsServer.ReadTcpRequest | dns/cpp/src/DnsServer.cpp:136-161 | a TCP request is accepted exactly when its big-endian length is 1-4096 and that many bytes follow, and it is those bytes |
| DnsServer.TcpPrefix | dns/cpp/src/DnsServer.cpp:181-186 | corrected prefix: the reply size as 16 bits, high byte first |
| DnsServer.TcpFramingRoundTrip | dns/cpp/src/DnsServer.cpp:136-195 | a frame written with the corrected prefix is read back by the server's own framing |
| DnsServer.Frame | dns/cpp/src/DnsServer.cpp:181-195 | a framed reply is the reply behind its 16-bit length, high byte first |
| DnsServer.TcpReply | dns/cpp/src/DnsServer.cpp:181-195 | what a TCP connection sends is nothing or a frame announcing its own length |
| DnsServer.HandleTcp | dns/cpp/src/DnsServer.cpp:136-179 | a stream without a valid request gets no reply and changes nothing |
| DnsServer.TcpRepliesFramed | dns/cpp/src/DnsServer.cpp:136-195 | every TCP reply carries its own length in front, and the table is never changed by a query |
| Memory.Create | src/memorymanagement.cc:13-28 | a heap smaller than the header has no chunks; otherwise it is one free chunk covering exactly the heap |
| Memory.FirstFit | src/memorymanagement.cc:48-55 | finds the first free chunk strictly larger than the request, so exact fits are skipped, and nothing exactly when there is none |
| Memory.Malloc | src/memorymanagement.cc:42-76 | the request counter grows by every request, failed ones included, mod 2^32; null exactly when no chunk fits, and then the chunks are unchanged |
| Memory.MallocResult | src/memorymanagement.cc:57-75 | the chosen chunk is allocated, split into exactly the request plus a free rest when it has room for another header, and the returned address is its payload |
| Memory.MallocInvariants | src/memorymanagement.cc:42-76 | allocation keeps the total of sizes plus headers, and never leaves two neighbouring free chunks |
| Memory.Free | src/memorymanagement.cc:80-108 | freeing never changes the start or the request counter |
| Memory.FreeInvariants | src/memorymanagement.cc:80-108 | freeing keeps the total of sizes plus headers, and never leaves two neighbouring free chunks |
| Memory.FreeCoversChunk | src/memorymanagement.cc:80-108 | after a free, the freed chunk's whole span lies inside one free chunk, merged with its free neighbours |
| Memory.MallocThenFree | src/memorymanagement.cc:42-108 | freeing what was just allocated restores the chunks |
| Memory.BufferShift | src/memorymanagement.cc:112-119 | as written: with index inside the buffer, only the cell at index+shift changes, to the value at index |
| Memory.NewObject | src/memorymanagement.cc:123-141 | without an active manager the result is null; otherwise it is malloc's |
| Gdt.StoredLimit | src/gdt.cc:86-100 | the stored limit fits the 20 bits of the descriptor |
| Gdt.MakeDescriptor | src/gdt.cc:60-113 | byte 5 holds the access flags verbatim; the flags nibble is 0x4 for limits up to 65536 and 0xC above |
| Gdt.BaseRoundTrip | src/gdt.cc:106-128 | the base read back from bytes 2, 3, 4 and 7 is the constructor's base, for every 32-bit value |
| Gdt.Base | src/gdt.cc:118-128 | the base's bytes, least significant first, are descriptor bytes 2, 3, 4 and 7 |
| Gdt.Limit | src/gdt.cc:132-146 | without both granularity bits the limit is the 20-bit field of bytes 0 and 1 and the low nibble of byte 6; with them that field counts pages and the low twelve bits of the limit are all ones |
| Gdt.LimitRoundTrip | src/gdt.cc:86-146 | limits up to 65536, or whose low 12 bits are all ones, read back exactly; other large limits read back at most the limit and less than 0x1000 below it |
| Gdt.DescriptorBaseInjective | src/gdt.cc:60-113 | different bases give different descriptors |
| Gdt.NativeSegments | src/gdt.cc:7-28 | the native table's descriptors all have base 0, and the code and data segments span 64 MiB |
| Gdt.CodeSegmentSelector | src/gdt.cc:49-56 | 0x08 in the browser build; natively the byte offset of the code descriptor |
| Gdt.DataSegmentSelector | src/gdt.cc:38-45 | 0x10 in the browser build; natively the byte offset of the data descriptor |
| Journal.OnKeyDown | src/app/file_edit.cc:175-293 | for any cursor, a full block ignores the key; every key keeps the block size, and a cursor inside the text stays inside it |
| Journal.OnKeyDownAsWritten | src/app/file_edit.cc:175-243 | as written, an access leaves the block exactly for an insertion before the end of a text one byte short of the block, or a typed key or an up arrow with the cursor at or past the end of the block |
| Journal.Insert | src/app/file_edit.cc:229-242 | corrected insertion: index and cursor each grow by one, the key lands at the cursor when that is inside the block, and with the cursor at or past the end of the text no other cell changes |
| Journal.InsertEditsText | src/app/file_edit.cc:229-242 | the text gains the character at the cursor, the rest shifted right |
| Journal.BackspaceEditsText | src/app/file_edit.cc:196-210 | with text before the cursor the byte before it is removed, the cursor steps back and the freed cell is zeroed; otherwise nothing changes |
| Journal.NavigationKeepsText | src/app/file_edit.cc:212-228 | the arrow keys move only the cursor |
| Journal.MoveCursor | src/app/file_edit.cc:212-228 | left moves back by one unless at 0; right moves forward by one only inside the text; up never moves forward and down never back, and a cursor inside the text stays inside it |
| Journal.UpDownFindNewlines | src/app/file_edit.cc:216-224 | up lands just before the previous newline or at the start; down just past the next newline or at the end of the text |
| Journal.KeyEditsAtCursor | src/app/file_edit.cc:196-243 | every key changes the text by at most one insertion or one deletion, at the cursor |
| Journal.AsWrittenAgrees | src/app/file_edit.cc:175-243 | the handler as written agrees with the corrected one whenever it stays in the block; with the cursor in the text it leaves the block only for an insertion before the end of a text one byte short of the block, and with the cursor past the block for every typed key and the up arrow |
| Journal.CursorPastText | src/app/file_edit.cc:165-241 | ReadInput reloads the text without moving the cursor; with the cursor past the text a typed key lands at the cursor, outside the text, and the text instead grows by the stale byte that follows it |
| Journal.InsertOverrunsBlock | src/app/file_edit.cc:229-242 | a two-byte block holding one character, cursor before it: the code as written writes past the block |
| Settings.Defaults | src/app/settings.cc:20-41 | a new window shows the desktop category, an empty proxy, display mode 1 and in-range colours |
| Settings.AdjustColour | src/app/settings.cc:276-288 | '+' or '=' raises the colour only below 0x3f; '-' or '_' lowers it only above 0; other keys leave it |
| Settings.EditProxy | src/app/settings.cc:294-305 | a printable character is appended only while the proxy is under 255 characters; codes 8 and 127 drop the last character if there is one |
| Settings.OnKeyDown | src/app/settings.cc:273-313 | a key changes only the setting of the shown category; Enter in the Iframes category saves and applies and changes nothing |
| Settings.KeysKeepRange | src/app/settings.cc:273-313 | no key takes a colour out of 0..0x3f or the proxy past 255 characters |
| Settings.SpaceToggles | src/app/settings.cc:292-293 | Space maps display mode 0 to 1 and any other value to 0 |
| Settings.TypeThenErase | src/app/settings.cc:294-305 | typing a character and erasing it restores the settings |
| Settings.RaiseThenLower | src/app/settings.cc:276-288 | raising and then lowering a colour below the maximum restores the settings |
| Settings.RecordSaveButton | src/app/settings.cc:189-200 | the save button sits at x 0 and y 15 + h + 10, with h 27 for categories 0 and 1 and 42 for category 2 |
| Settings.TabAt | src/app/settings.cc:248-262 | a point lies on tab i exactly when it is in [60i, 60i+58) x [0, 12) |
| Settings.OnMouseDown | src/app/settings.cc:207-271 | non-left buttons are ignored; a click changes at most the category, resetting the selected item, or saves and applies |
| Settings.ClickSelectsTab | src/app/settings.cc:245-262 | a left click on tab i selects category i and resets the selected item |
| Settings.SaveButtonClear | src/app/settings.cc:264-270 | a left click inside the recorded save button saves and applies |
| Vga.IndexesAgree | src/drivers/vga_web.cc:132-151 | the shifted index `(y << 8) + (y << 6) + x` is 320y + x, and distinct on-screen points get distinct cells |
| Vga.CellIsPixel | src/drivers/vga_web.cc:132-151 | every framebuffer cell is the pixel of exactly one on-screen point |
| Vga.ComponentShape | src/drivers/vga_web.cc:51-93 | a palette component built from two colour bits is one of the four EGA levels |
| Vga.PaletteShape | src/drivers/vga_web.cc:51-93 | every component is a multiple of 4 up to 252; colours 0-63 use the EGA levels, 128-191 are 0 or 252 per component, 192-255 are black |
| Vga.SupportsMode | src/drivers/vga_web.cc:104-106 | only 320 x 200 x 8 is supported |
| Vga.SetMode | src/drivers/vga_web.cc:108-118 | an unsupported mode fails and changes nothing; a supported one clears the framebuffer |
| Vga.PutPixel | src/drivers/vga_web.cc:132-136 | an on-screen point's pixel takes the colour and no other changes; an off-screen point changes nothing |
| Vga.PutThenRead | src/drivers/vga_web.cc:132-151 | reading a point back gives what was written there, 0 off screen, and the old pixel elsewhere |
| Vga.ReadPixel | src/drivers/vga_web.cc:148-151 | an on-screen pixel reads the cell at the shifted offset PutPixel writes; off screen it reads 0 |
| Vga.DarkenPixel | src/drivers/vga_web.cc:142-146 | one on-screen pixel is mapped through the darkening table and no other changes |
| Vga.FillRectangle | src/drivers/vga_web.cc:212-219 | exactly the on-screen pixels of [x, x+w) x [y, y+h) take the colour |
| Vga.DrawRectangle | src/drivers/vga_web.cc:221-232 | exactly the on-screen pixels of the four border lines take the colour |
| Vga.Walk | src/drivers/vga_web.cc:249-299 | the midpoint walk plots one point per step of the major axis and moves the minor coordinate by at most one step each time |
| Vga.DrawLineLow | src/drivers/vga_web.cc:249-273 | one point per column from x0 up to but excluding x1 |
| Vga.DrawLineHigh | src/drivers/vga_web.cc:275-299 | one point per row from y0 up to but excluding y1 |
| Vga.DrawLine | src/drivers/vga_web.cc:301-317 | the endpoints are ordered; a flat line gets one point per column and a steep one one point per row, the far end excluded |
| Vga.FlatLineSteps | src/drivers/vga_web.cc:249-273 | the k-th point of a flat line stays within k rows of the start, on the side of the end point |
| Vga.Plot | src/drivers/vga_web.cc:301-317 | plotting colours exactly the on-screen points of the line |
| Vga.PointLineIsEmpty | src/drivers/vga_web.cc:301-317 | a line from a point to itself draws nothing |
| TextMode.Blank | src/kernel_web.cc:15 | the text buffer starts all zero |
| TextMode.CellValue | src/kernel_web.cc:25-26 | the 16-bit cell is the character plus the attribute in the high byte; the background's high nibble is shifted out |
| TextMode.CellLayout | src/kernel_web.cc:25-26 | a cell has the character in its low byte and the background's and foreground's low nibbles in its high byte |
| TextMode.CellInjective | src/kernel_web.cc:25-26 | two cells are equal exactly when character and 4-bit colours are |
| TextMode.CellIndex | src/kernel_web.cc:23-26 | the cell of an on-screen position is row-major, and gives the position back |
| TextMode.PutChar | src/kernel_web.cc:23-26 | x >= 80 or y >= 25 is ignored; otherwise exactly that position's cell is replaced |
| TextMode.PutThenRead | src/kernel_web.cc:21-35 | the position then shows the character with 4-bit colours, and every other position what it showed |
| TextMode.Printf | src/kernel_web.cc:38-68 | a null string prints nothing; any other is handed over once, unchanged |
| TextMode.HexText | src/kernel_web.cc:122-133 | two uppercase hex digits and a space |
| TextMode.PrintHex | src/kernel_web.cc:122-133 | one string of three characters ending in a space |
| TextMode.PrintHexRoundTrip | src/kernel_web.cc:122-133 | the printed digits read back as the key, and different keys print differently |
| Keyboard.ScanCode | src/drivers/keyboard_web.cc:14-42 | a null key gets 0 |
| Keyboard.ZeroIffUnrecognised | src/drivers/keyboard_web.cc:14-42 | a key gets a non-zero code exactly when it is a named key, one letter, one digit 1-9, or starts with '0' |
| Keyboard.NamedKeys | src/drivers/keyboard_web.cc:16-25 | Enter 0x1c, Backspace 0x0e, Tab 0x0f, Escape 0x01, Space 0x39, the arrows 0x4b/0x48/0x50/0x4d, Meta 0x5b |
| Keyboard.LettersIgnoreCase | src/drivers/keyboard_web.cc:28-33 | a letter gets 0x10 plus its place in the alphabet in either case, and two letters share a code only if they are the same letter |
| Keyboard.DigitCodes | src/drivers/keyboard_web.cc:36-39 | '1'-'9' get 0x02 upward, and any key starting with '0' gets 0x0b |
| Keyboard.LetterClashesWithNamedKey | src/drivers/keyboard_web.cc:16-33 | a letter of either case shares a named key's code only for m and M, which get Enter's code |
| Keyboard.SetModifiers | src/drivers/keyboard_web.cc:218-225 | without a registered handler nothing happens; otherwise each flag becomes whether its argument is non-zero |
| Keyboard.SetModifiersForgets | src/drivers/keyboard_web.cc:218-225 | the flags afterwards do not depend on the flags before, so repeating the call changes nothing |
| Interrupts.NewManager | src/hardwarecommunication/interrupts_web.cc:88-121 | a new manager has all 256 slots empty, one interrupt counted and boot false |
| Interrupts.Register | src/hardwarecommunication/interrupts_web.cc:11-18 | a handler takes its slot, replacing any occupant, and no other slot or field changes |
| Interrupts.Unregister | src/hardwarecommunication/interrupts_web.cc:20-24 | a slot is cleared only if it still holds this handler; nothing else changes |
| Interrupts.RegisterThenUnregister | src/hardwarecommunication/interrupts_web.cc:11-24 | constructing and destroying a handler leaves its slot empty and every other slot as it was |
| Interrupts.ReplacedHandlerKeepsSlot | src/hardwarecommunication/interrupts_web.cc:11-24 | destroying a handler whose slot was taken over leaves the newcomer in place |
| Interrupts.Activate | src/hardwarecommunication/interrupts_web.cc:131-138 | afterwards this manager, and no other, is active |
| Interrupts.Deactivate | src/hardwarecommunication/interrupts_web.cc:140-144 | the active manager is cleared only if it is this one |
| Interrupts.ActivateThenDeactivate | src/hardwarecommunication/interrupts_web.cc:131-144 | activating then deactivating the same manager leaves none active; deactivating another changes nothing |
| Interrupts.HandleInterrupt | src/hardwarecommunication/interrupts_web.cc:146-151 | with no active manager the stack pointer comes back unchanged |
| Interrupts.DefaultHandler | src/hardwarecommunication/interrupts_web.cc:26-28 | the base handler returns the stack pointer it is given |
| Interrupts.DispatchThreadsEsp | src/hardwarecommunication/interrupts_web.cc:153-171 | the stack pointer goes through the slot's handler if any, then through the scheduler only when the number equals the hardware offset and a task manager exists |
| Interrupts.WideOffsetNeverSchedules | src/hardwarecommunication/interrupts_web.cc:153-171 | a hardware offset of 256 or more never matches an 8-bit interrupt number, so the scheduler is never called |
| Interrupts.FreshManagerIsIdentity | src/hardwarecommunication/interrupts_web.cc:88-171 | a new manager without a task manager hands every stack pointer back unchanged |
| Nic.DottedOctets | src/drivers/amd_am79c973_stub.cc:68-84 | the address is shown as four octets, most significant first |
| Nic.SetThenGet | src/drivers/amd_am79c973_stub.cc:68-88 | the address read back is the last one set, and the four octets reassemble into it |
| Nic.SetIPAddress | src/drivers/amd_am79c973_stub.cc:68-70 | stores the address, and storing the address already held changes nothing |
| Nic.GetIPAddress | src/drivers/amd_am79c973_stub.cc:86-88 | returns the address that storing again would leave the card unchanged |
| Nic.GetMACAddress | src/drivers/amd_am79c973_stub.cc:90-117 | a positive JavaScript MAC is returned unchanged and any non-zero one keeps its low 32 bits (a negative one is sign-extended); with none and IP 0 the result is 02:00:00:00:00:00 |
| Nic.GeneratedMac | src/drivers/amd_am79c973_stub.cc:108-114 | otherwise the MAC is 02:a:b:c:d:00 with a-d the IP's bytes from least significant, and nothing above six bytes |
| Nic.GeneratedMacInjective | src/drivers/amd_am79c973_stub.cc:108-114 | different non-zero IPs get different generated MACs |
| Nic.NegativeJsMacSignExtends | src/drivers/amd_am79c973_stub.cc:96-105 | every negative JavaScript value comes back sign-extended, as itself plus 2^64 with the top 32 bits all set, never as a 48-bit address; -1 is all ones |
| Nic.Send | src/drivers/amd_am79c973_stub.cc:123-154 | a null buffer or a size of 0 or less sends nothing and changes nothing; otherwise the request is counted, and whatever is sent is the buffer's first `size` bytes |
| Nic.SendRestoresHeap | src/drivers/amd_am79c973_stub.cc:123-154 | on a heap with no two neighbouring free chunks a send leaves the chunks as they were, and sends exactly when there is a buffer, a positive size and a chunk that fits |

## Left out

- Sockets, threads and the blocking server loops of DnsServer.cpp are not modelled. This covers setup, start and stop, the upstream socket and its five-second timeout, the atomic running flag, and the unsynchronised table access. The upstream resolver is a function parameter whose `None` stands for any socket error or timeout.
- The HTTP admin and static servers, the cookie check and the JSON load and save are not modelled: they are library glue. `loadDatabase` is modelled only as the initial table, and `saveDatabase` after each successful edit is an effect the model does not record. Removing the static HTML file on delete is file I/O and is left out.
- `inet_aton`, `inet_pton` and `inet_ntop` are C library routines. A records are parsed as strict dotted decimal without leading zeros, where the code's `inet_aton` (dns/cpp/src/DnsPacket.cpp:199) also accepts shorter forms (`10.1`, `1`) and hex or octal parts (`0x7f.1`, `010.0.0.1`); those are refused here. AAAA data is parsed as exactly eight colon-separated groups of one to four hex digits in either case; the `::` shorthand and an embedded dotted quad, which `inet_pton` accepts, are refused. `inet_ntop` formats both kinds of address.
- DnsText.FormatIpv6: prints the full form, eight groups of four lowercase hex digits, not `inet_ntop`'s compressed form (`::1`, leading zeros dropped), because the compression rules of section 4 of RFC 5952 are not modelled. So an AAAA answer decoded here reads as `0000:…:0001` where the server prints `::1`.
- `std::stoi` is modelled as leading whitespace, an optional sign, digits and ignored trailing text, within int range. An out-of-range value is an error, as the exception is.
- dns/cpp/src/main.cpp (command line and signals), the TypeScript server, dns/test-dns.js and proxyserver.cjs are not part of this model.
- DnsMessage.IsResponse: `isQuery` has no member of its own, since it is the negation of the response test.
- DnsServer.Proxy: it has no contract of its own; DnsServer.ForwardedQuery states what it sends and relays.
- Every EM_ASM and EM_JS block is left out: JavaScript rendering, IndexedDB settings persistence, DOM listeners, speaker, PIT timers, iframe management, the kernel loop and entry points, and `printfLine`. Values that JavaScript supplies (the MAC, key names, modifier flags) are parameters.
- The hardware stubs with no logic (PCI, ports, ATA, CMOS) are left out.
- Parts of vga_web.cc are left out:
  - `PutText`: needs a character set declared in a header this model does not cover.
  - `FSdither`: writes at the buffer edges and uses an unseen colour table.
  - `FillPolygon`, `MakeWave` and `MakeDark`.
  - `FillBufferFull`, `FillBuffer` and `DrawLineFlat`.
  - `PutPixelRaw`, `PaletteUpdate`, `WriteRegisters`, `GetFrameBufferSegment`, `ErrorScreen` and `DrawToScreen`: these only move data to JavaScript.
- The `light2dark` table of `DarkenPixel` is declared in a header this model does not cover; it is a 256-entry parameter.
- WIDTH_13H and HEIGHT_13H are declared in a header this model does not cover; they are taken as 320 and 200.
- The `lgdt` inline assembly is left out. The native descriptor table is assumed to be laid out in the constructor's initialiser order: null, unused, code, data.
- Journal: OFS_BLOCK_SIZE is declared in a header this model does not cover; the length of the block sequence stands for it. So are the types of `index` and `cursor`, which are unbounded naturals here. Rendering and file I/O of file_edit.cc are left out.
- Journal.OnKeyDown: where the code reads or writes outside the block, the corrected handler skips that access: the copy past a text one byte short of the block, a key typed with the cursor past the block, and the up arrow's first read there. Journal.OnKeyDownAsWritten reports each as an out-of-block access instead.
- Vga: coordinates are unbounded integers, so the int32 overflow of `x + w` and `y + h` in the rectangle loops, and of `x1 - x0`, `y1 - y0` and `::abs` in DrawLine's octant test (src/drivers/vga_web.cc:304), is not modelled; the int16 state of the line walkers is truncated.
- Settings: click positions are unbounded integers, so the int32 overflow of the widget-relative offsets `relX` and `relY` (src/app/settings.cc:245-246) is not modelled.
- The drawing code of settings.cc is left out. Only the save button's recorded position is kept.
- Memory: the header size `sizeof(MemoryChunk)` is taken as 16 bytes. Chunk addresses are unbounded naturals; pointer wrap-around at 2^32 is not modelled.
- Nic.Send: the JavaScript heap-bounds check and what JavaScript does with the packet are left out. The caller's buffer is required to hold `size` bytes, as the C code assumes.
- Nic.GetMACAddress: the JavaScript value arrives as the 32-bit int that EM_ASM_INT returns, so only MACs that fit a signed 32-bit value can come from JavaScript.
- The keyboard driver's `handleKeyDown` and `handleKeyUp`, and the keyboard and mouse interrupt handlers, are left out. So are the network card's `Receive` and `SetHandler`, and the interrupt entry stubs and the PIC programming.
- Interrupts.DoHandleInterrupt: the handler's `HandleInterrupt` and the task manager's `Schedule` are parameters; the interrupt counter and boot flag are not advanced.

## Findings

| source | as written | input that shows it | evidently intended | confidence | as-written member | corrected member |
|---|---|---|---|---|---|---|
| dns/cpp/src/DnsPacket.cpp:282-285 | a TXT record's text is as long as its first data byte says, and that byte is never checked against the record's data length | a TXT record of data length 1 holding only the byte 5, at the end of the buffer: five bytes are read past the end | fail when the length byte plus one exceeds the record's data length | high, not executed | DnsRdata.TxtOverreadCounterexample | DnsRdata.DecodeTxt |
| dns/cpp/src/DnsServer.cpp:183-186 | the TCP length prefix is byte-swapped by `htons` and then split high byte first, so a little-endian host sends the low byte first | a 300-byte response is announced as 0x2C 0x01, that is 11265 bytes, which the server's own reader refuses | the length high byte first, as section 4.2.2 of RFC 1035 requires | high, not executed | DnsServer.TcpPrefixAsWrittenMisframes | DnsServer.TcpFramingRoundTrip |
| src/app/file_edit.cc:229-242 | inserting before the end of the text also writes the cell after the text's end, one past the last cell of the block when the text is one byte short of filling it | a two-byte block holding one character, with the cursor before it, and any printable key | shift only within the block | medium, not executed | Journal.InsertOverrunsBlock | Journal.AsWrittenAgrees |
