/** The round trip of the message codec: decoding what encode wrote gives the message back,
    except that decode drops the authority and additional sections. */
module DnsRoundTrip {
  import opened Ints
  import opened Wrappers
  import opened DnsWire
  import opened DnsMessage
  import DnsName
  import DnsRdata
  import opened DnsPacket

  /** A record whose owner name and data come back unchanged. */
  predicate CanonicalRecord(a: Answer) {
    DnsName.CanonicalName(a.name) && DnsRdata.CanonicalData(a.rtype, a.data)
  }

  /** A question whose name comes back unchanged. */
  predicate CanonicalQuestion(q: Question) {
    DnsName.CanonicalName(q.name)
  }

  predicate CanonicalQuestions(qs: seq<Question>) {
    forall i :: 0 <= i < |qs| ==> CanonicalQuestion(qs[i])
  }

  predicate CanonicalRecords(records: seq<Answer>) {
    forall i :: 0 <= i < |records| ==> CanonicalRecord(records[i])
  }

  /** A message encode can write and decode reads back: canonical names and record data, and
      section counts that fit the header's 16-bit fields. */
  predicate CanonicalMessage(m: Message) {
    |m.questions| < TWO_16 && |m.answers| < TWO_16 &&
    |m.authority| < TWO_16 && |m.additional| < TWO_16 &&
    CanonicalQuestions(m.questions) && CanonicalRecords(m.answers) &&
    CanonicalRecords(m.authority) && CanonicalRecords(m.additional)
  }

  // ---------------------------------------------------------------------------
  // Reading back one encoded piece at a known place of a buffer

  /** `e` sits in `buf` at `offset`. */
  predicate At(buf: Bytes, offset: nat, e: Bytes) {
    offset + |e| <= |buf| && buf[offset..offset + |e|] == e
  }

  lemma Split(buf: Bytes, offset: nat, a: Bytes, b: Bytes)
    requires At(buf, offset, a + b)
    ensures At(buf, offset, a) && At(buf, offset + |a|, b)
  {
    DnsName.SliceParts(buf, offset, a, b);
  }

  lemma Read16At(buf: Bytes, offset: nat, v: uint16)
    requires At(buf, offset, WriteUint16(v))
    ensures ReadUint16(buf, offset) == Ok((v, offset + 2))
  {
    assert buf[offset] == buf[offset..offset + 2][0];
    assert buf[offset + 1] == buf[offset..offset + 2][1];
  }

  lemma Read32At(buf: Bytes, offset: nat, v: uint32)
    requires At(buf, offset, WriteUint32(v))
    ensures ReadUint32(buf, offset) == Ok((v, offset + 4))
  {
    var w := buf[offset..offset + 4];
    assert buf[offset] == w[0] && buf[offset + 1] == w[1];
    assert buf[offset + 2] == w[2] && buf[offset + 3] == w[3];
  }

  /** The halves of a buffer around a placed piece. */
  lemma Around(buf: Bytes, offset: nat, e: Bytes)
    requires At(buf, offset, e)
    ensures buf == buf[..offset] + e + buf[offset + |e|..]
  {
  }

  lemma NameAt(name: string, buf: Bytes, offset: nat)
    requires DnsName.CanonicalName(name)
    requires DnsName.EncodeName(name).Ok? && At(buf, offset, DnsName.EncodeName(name).value)
    ensures DnsName.DecodeName(buf, offset) == Ok((name, offset + |DnsName.EncodeName(name).value|))
  {
    var n := DnsName.EncodeName(name).value;
    Around(buf, offset, n);
    DnsName.DecodeEncodeName(name, buf[..offset], buf[offset + |n|..]);
  }

  lemma DataAt(rtype: uint16, data: string, rd: Bytes, buf: Bytes, offset: nat)
    requires DnsRdata.CanonicalData(rtype, data)
    requires DnsRdata.EncodeRecordData(rtype, data) == Ok(rd) && At(buf, offset, rd)
    ensures DnsRdata.DecodeRecordData(rtype, buf, offset, |rd|) == Ok(data)
  {
    Around(buf, offset, rd);
    DnsRdata.RecordDataRoundTrip(rtype, data, buf[..offset], buf[offset + |rd|..]);
  }


  // ---------------------------------------------------------------------------
  // Encodability

  /** Canonical record data is short enough for its 16-bit length field. */
  lemma RecordDataFits(rtype: uint16, data: string)
    requires DnsRdata.CanonicalData(rtype, data)
    ensures DnsRdata.EncodeRecordData(rtype, data).Ok?
    ensures |DnsRdata.EncodeRecordData(rtype, data).value| < TWO_16
  {
    DnsRdata.RecordDataRoundTrip(rtype, data, [], []);
    if DnsRdata.IsNameType(rtype) {
      DnsName.EncodeNameSpec(data);
    } else if rtype == TYPE_MX {
      DnsRdata.MxEncoding(data);
      DnsName.EncodeNameSpec(data[DnsRdata.FindSpace(data) + 1..]);
    }
  }

  lemma QuestionsEncode(qs: seq<Question>)
    requires CanonicalQuestions(qs)
    ensures EncodeQuestions(qs).Ok?
  {
    forall i | 0 <= i < |qs| ensures DnsName.EncodeName(qs[i].name).Ok? {
      DnsName.CanonicalNameEncodes(qs[i].name);
    }
    EncodeQuestionsSucceeds(qs);
  }

  lemma RecordsEncode(records: seq<Answer>)
    requires CanonicalRecords(records)
    ensures EncodeRecords(records).Ok?
  {
    forall i | 0 <= i < |records| ensures RecordEncodes(records[i]) {
      DnsName.CanonicalNameEncodes(records[i].name);
      RecordDataFits(records[i].rtype, records[i].data);
    }
    EncodeRecordsSucceeds(records);
  }

  // ---------------------------------------------------------------------------
  // Whole sections, for any item codec

  /** `dec` reads back, wherever it lies, whatever `enc` writes for an item satisfying `ok`. */
  ghost predicate ReadsBack<T(!new)>(enc: T -> Result<Bytes, DnsError>, dec: (Bytes, nat) -> Result<(T, nat), DnsError>,
                               ok: T -> bool) {
    forall x :: ok(x) ==>
      enc(x).Ok? &&
      forall buf: Bytes, offset: nat :: At(buf, offset, enc(x).value) ==> dec(buf, offset) == Ok((x, offset + |enc(x).value|))
  }

  /** The first item of a written section, and the rest. */
  lemma EncodeManyStep<T>(xs: seq<T>, enc: T -> Result<Bytes, DnsError>, e: Bytes) returns (head: Bytes, tail: Bytes)
    requires xs != [] && EncodeMany(xs, enc) == Ok(e)
    ensures enc(xs[0]) == Ok(head) && EncodeMany(xs[1..], enc) == Ok(tail) && e == head + tail
  {
    head := enc(xs[0]).value;
    tail := EncodeMany(xs[1..], enc).value;
  }

  /** An empty section writes nothing and reads nothing. */
  lemma ManyEmpty<T>(xs: seq<T>, enc: T -> Result<Bytes, DnsError>, dec: (Bytes, nat) -> Result<(T, nat), DnsError>,
                     buf: Bytes, offset: nat, e: Bytes)
    requires xs == [] && EncodeMany(xs, enc) == Ok(e)
    ensures DecodeMany(buf, offset, |xs|, dec) == Ok((xs, offset + |e|))
  {
  }

  /** One more item read in front of a section. */
  lemma DecodeManyStep<T>(buf: Bytes, offset: nat, xs: seq<T>, dec: (Bytes, nat) -> Result<(T, nat), DnsError>,
                          next: nat, end: nat)
    requires xs != [] && dec(buf, offset) == Ok((xs[0], next))
    requires DecodeMany(buf, next, |xs| - 1, dec) == Ok((xs[1..], end))
    ensures DecodeMany(buf, offset, |xs|, dec) == Ok((xs, end))
  {
    assert [xs[0]] + xs[1..] == xs;
  }

  lemma ReadBackOne<T(!new)>(enc: T -> Result<Bytes, DnsError>, dec: (Bytes, nat) -> Result<(T, nat), DnsError>,
                             ok: T -> bool, x: T, head: Bytes, buf: Bytes, offset: nat)
    requires ReadsBack(enc, dec, ok) && ok(x) && enc(x) == Ok(head) && At(buf, offset, head)
    ensures dec(buf, offset) == Ok((x, offset + |head|))
  {
  }

  lemma AllTail<T>(xs: seq<T>, ok: T -> bool)
    requires xs != [] && forall i :: 0 <= i < |xs| ==> ok(xs[i])
    ensures ok(xs[0]) && forall i :: 0 <= i < |xs[1..]| ==> ok(xs[1..][i])
  {
    forall i | 0 <= i < |xs[1..]| ensures ok(xs[1..][i]) {
      assert xs[1..][i] == xs[i + 1];
    }
  }

  /** When single items read back, so does a section of them. */
  lemma {:induction false} ManyAt<T(!new)>(xs: seq<T>, enc: T -> Result<Bytes, DnsError>,
                                           dec: (Bytes, nat) -> Result<(T, nat), DnsError>, ok: T -> bool,
                                           buf: Bytes, offset: nat, e: Bytes)
    requires ReadsBack(enc, dec, ok)
    requires forall i :: 0 <= i < |xs| ==> ok(xs[i])
    requires EncodeMany(xs, enc) == Ok(e) && At(buf, offset, e)
    ensures DecodeMany(buf, offset, |xs|, dec) == Ok((xs, offset + |e|))
    decreases |xs|
  {
    hide DecodeMany, EncodeMany, ReadsBack, At;
    if xs == [] {
      ManyEmpty(xs, enc, dec, buf, offset, e);
    } else {
      var head, tail := EncodeManyStep(xs, enc, e);
      Split(buf, offset, head, tail);
      AllTail(xs, ok);
      ReadBackOne(enc, dec, ok, xs[0], head, buf, offset);
      ManyAt(xs[1..], enc, dec, ok, buf, offset + |head|, tail);
      DecodeManyStep(buf, offset, xs, dec, offset + |head|, offset + |e|);
    }
  }

  /** Two item readers that succeed together and stop at the same place frame a section alike. */
  lemma {:induction false} ManyFraming<T, U>(buf: Bytes, offset: nat, count: nat,
                                              d1: (Bytes, nat) -> Result<(T, nat), DnsError>,
                                              d2: (Bytes, nat) -> Result<(U, nat), DnsError>)
    requires forall o: nat :: d1(buf, o).Ok? ==> d2(buf, o).Ok? && d2(buf, o).value.1 == d1(buf, o).value.1
    requires DecodeMany(buf, offset, count, d1).Ok?
    ensures DecodeMany(buf, offset, count, d2).Ok?
    ensures DecodeMany(buf, offset, count, d2).value.1 == DecodeMany(buf, offset, count, d1).value.1
    decreases count
  {
    if count > 0 {
      ManyFraming(buf, d1(buf, offset).value.1, count - 1, d1, d2);
    }
  }

  /** decodeRecordHeader on a buffer whose fields read as given. */
  lemma RecordHeaderOf(buf: Bytes, offset: nat, name: string, o1: nat, rtype: uint16, rclass: uint16, ttl: uint32, len: uint16)
    requires offset < |buf|
    requires DnsName.DecodeName(buf, offset) == Ok((name, o1))
    requires ReadUint16(buf, o1) == Ok((rtype, o1 + 2))
    requires ReadUint16(buf, o1 + 2) == Ok((rclass, o1 + 4))
    requires ReadUint32(buf, o1 + 4) == Ok((ttl, o1 + 8))
    requires ReadUint16(buf, o1 + 8) == Ok((len, o1 + 10))
    requires o1 + 10 + len <= |buf|
    ensures DecodeRecordHeader(buf, offset) == Ok(RecordHeader(name, rtype, rclass, ttl, o1 + 10, len))
  {
    hide DnsName.DecodeName, ReadUint16, ReadUint32;
  }

  /** The ten fixed bytes of a record read back as type, class, TTL and data length. */
  lemma FixedFieldsAt(buf: Bytes, offset: nat, rtype: uint16, rclass: uint16, ttl: uint32, len: uint16)
    requires At(buf, offset, FixedFields(rtype, rclass, ttl, len))
    ensures ReadUint16(buf, offset) == Ok((rtype, offset + 2))
    ensures ReadUint16(buf, offset + 2) == Ok((rclass, offset + 4))
    ensures ReadUint32(buf, offset + 4) == Ok((ttl, offset + 8))
    ensures ReadUint16(buf, offset + 8) == Ok((len, offset + 10))
  {
    var t := WriteUint16(rtype);
    var c := WriteUint16(rclass);
    var l := WriteUint32(ttl);
    Split(buf, offset, t + c + l, WriteUint16(len));
    Split(buf, offset, t + c, l);
    Split(buf, offset, t, c);
    Read16At(buf, offset, rtype);
    Read16At(buf, offset + 2, rclass);
    Read32At(buf, offset + 4, ttl);
    Read16At(buf, offset + 8, len);
  }

  /** decodeAnswer once the header and the data have been read. */
  lemma AnswerOf(a: Answer, buf: Bytes, offset: nat, n: Bytes, rd: Bytes, next: nat)
    requires DecodeRecordHeader(buf, offset) == Ok(RecordHeader(a.name, a.rtype, a.rclass, a.ttl, offset + |n| + 10, |rd|))
    requires DnsRdata.DecodeRecordData(a.rtype, buf, offset + |n| + 10, |rd|) == Ok(a.data)
    requires next == offset + |n| + 10 + |rd|
    ensures DecodeAnswer(buf, offset) == Ok((a, next))
  {
    hide DnsRdata.DecodeRecordData, DecodeRecordHeader, DnsName.DecodeName;
  }

  /** An encoded record is its owner name, the fixed fields and the data. */
  lemma EncodeRecordParts(a: Answer, n: Bytes, rd: Bytes)
    requires DnsName.EncodeName(a.name) == Ok(n)
    requires DnsRdata.EncodeRecordData(a.rtype, a.data) == Ok(rd)
    requires |rd| < TWO_16
    ensures EncodeRecord(a) == Ok(n + FixedFields(a.rtype, a.rclass, a.ttl, |rd|) + rd)
  {
  }

  // ---------------------------------------------------------------------------
  // Sections

  lemma QuestionAt(q: Question, buf: Bytes, offset: nat, e: Bytes, next: nat)
    requires DnsName.CanonicalName(q.name)
    requires EncodeQuestion(q) == Ok(e) && At(buf, offset, e)
    requires next == offset + |e|
    ensures DecodeQuestion(buf, offset) == Ok((q, next))
  {
    var n := DnsName.EncodeName(q.name).value;
    var t := WriteUint16(q.qtype);
    var c := WriteUint16(q.qclass);
    assert e == n + t + c;
    Split(buf, offset, n + t, c);
    Split(buf, offset, n, t);
    NameAt(q.name, buf, offset);
    Read16At(buf, offset + |n|, q.qtype);
    Read16At(buf, offset + |n| + 2, q.qclass);
  }


  /** A canonical question encodes, and reads back from wherever its encoding lies. */
  lemma QuestionReadsBack(q: Question)
    requires CanonicalQuestion(q)
    ensures EncodeQuestion(q).Ok?
    ensures forall buf: Bytes, offset: nat :: At(buf, offset, EncodeQuestion(q).value) ==>
      DecodeQuestion(buf, offset) == Ok((q, offset + |EncodeQuestion(q).value|))
  {
    hide EncodeQuestion, DecodeQuestion, EncodeRecord, DecodeAnswer, DecodeRecordHeader;
    hide DnsName.EncodeName, DnsName.DecodeName, DnsRdata.EncodeRecordData, DnsRdata.DecodeRecordData;
    DnsName.CanonicalNameEncodes(q.name);
    forall buf: Bytes, offset: nat | At(buf, offset, EncodeQuestion(q).value)
      ensures DecodeQuestion(buf, offset) == Ok((q, offset + |EncodeQuestion(q).value|))
    {
      QuestionAt(q, buf, offset, EncodeQuestion(q).value, offset + |EncodeQuestion(q).value|);
    }
  }

  lemma QuestionsReadBack()
    ensures ReadsBack(EncodeQuestion, DecodeQuestion, CanonicalQuestion)
  {
    hide EncodeQuestion, DecodeQuestion, EncodeRecord, DecodeAnswer, DecodeRecordHeader;
    hide DnsName.EncodeName, DnsName.DecodeName, DnsRdata.EncodeRecordData, DnsRdata.DecodeRecordData;
    forall q | CanonicalQuestion(q)
      ensures EncodeQuestion(q).Ok?
      ensures forall buf: Bytes, offset: nat {:trigger DecodeQuestion(buf, offset)} :: At(buf, offset, EncodeQuestion(q).value) ==>
        DecodeQuestion(buf, offset) == Ok((q, offset + |EncodeQuestion(q).value|))
    {
      QuestionReadsBack(q);
    }
  }

  /** The fixed part of an encoded record reads back with the data's place and length. */
  lemma RecordHeaderAt(name: string, n: Bytes, rtype: uint16, rclass: uint16, ttl: uint32, rd: Bytes, buf: Bytes, offset: nat)
    requires DnsName.CanonicalName(name) && DnsName.EncodeName(name) == Ok(n) && |rd| < TWO_16
    requires At(buf, offset, n + FixedFields(rtype, rclass, ttl, |rd|) + rd)
    ensures DecodeRecordHeader(buf, offset) == Ok(RecordHeader(name, rtype, rclass, ttl, offset + |n| + 10, |rd|))
    ensures At(buf, offset + |n| + 10, rd)
  {
    hide DecodeRecordHeader, DnsName.DecodeName, DnsName.EncodeName, FixedFields;
    var fixed := FixedFields(rtype, rclass, ttl, |rd|);
    Split(buf, offset, n + fixed, rd);
    Split(buf, offset, n, fixed);
    NameAt(name, buf, offset);
    FixedFieldsAt(buf, offset + |n|, rtype, rclass, ttl, |rd|);
    RecordHeaderOf(buf, offset, name, offset + |n|, rtype, rclass, ttl, |rd|);
  }


  lemma PartsLength(n: Bytes, fixed: Bytes, rd: Bytes)
    requires |fixed| == 10
    ensures |n + fixed + rd| == |n| + 10 + |rd|
  {
  }

  lemma AnswerAt(a: Answer, buf: Bytes, offset: nat, e: Bytes, next: nat)
    requires CanonicalRecord(a)
    requires EncodeRecord(a) == Ok(e) && At(buf, offset, e)
    requires next == offset + |e|
    ensures DecodeAnswer(buf, offset) == Ok((a, next))
  {
    hide EncodeRecord, DecodeAnswer, DecodeRecordHeader, FixedFields, DnsName.EncodeName, DnsName.DecodeName;
    hide DnsRdata.EncodeRecordData, DnsRdata.DecodeRecordData, DnsRdata.CanonicalData, DnsName.CanonicalName;
    RecordDataFits(a.rtype, a.data);
    var n := DnsName.EncodeName(a.name).value;
    var rd := DnsRdata.EncodeRecordData(a.rtype, a.data).value;
    EncodeRecordParts(a, n, rd);
    PartsLength(n, FixedFields(a.rtype, a.rclass, a.ttl, |rd|), rd);
    RecordHeaderAt(a.name, n, a.rtype, a.rclass, a.ttl, rd, buf, offset);
    DataAt(a.rtype, a.data, rd, buf, offset + |n| + 10);
    AnswerOf(a, buf, offset, n, rd, next);
  }

  lemma RecordEncodesOf(a: Answer)
    requires CanonicalRecord(a)
    ensures EncodeRecord(a).Ok?
  {
    DnsName.CanonicalNameEncodes(a.name);
    RecordDataFits(a.rtype, a.data);
  }

  /** A canonical record encodes, and reads back from wherever its encoding lies. */
  lemma RecordReadsBack(a: Answer)
    requires CanonicalRecord(a)
    ensures EncodeRecord(a).Ok?
    ensures forall buf: Bytes, offset: nat :: At(buf, offset, EncodeRecord(a).value) ==>
      DecodeAnswer(buf, offset) == Ok((a, offset + |EncodeRecord(a).value|))
  {
    hide EncodeQuestion, DecodeQuestion, EncodeRecord, DecodeAnswer, DecodeRecordHeader;
    hide DnsName.EncodeName, DnsName.DecodeName, DnsRdata.EncodeRecordData, DnsRdata.DecodeRecordData;
    RecordEncodesOf(a);
    forall buf: Bytes, offset: nat | At(buf, offset, EncodeRecord(a).value)
      ensures DecodeAnswer(buf, offset) == Ok((a, offset + |EncodeRecord(a).value|))
    {
      AnswerAt(a, buf, offset, EncodeRecord(a).value, offset + |EncodeRecord(a).value|);
    }
  }

  lemma RecordsReadBack()
    ensures ReadsBack(EncodeRecord, DecodeAnswer, CanonicalRecord)
  {
    hide EncodeQuestion, DecodeQuestion, EncodeRecord, DecodeAnswer, DecodeRecordHeader;
    hide DnsName.EncodeName, DnsName.DecodeName, DnsRdata.EncodeRecordData, DnsRdata.DecodeRecordData;
    forall a | CanonicalRecord(a)
      ensures EncodeRecord(a).Ok?
      ensures forall buf: Bytes, offset: nat :: At(buf, offset, EncodeRecord(a).value) ==>
        DecodeAnswer(buf, offset) == Ok((a, offset + |EncodeRecord(a).value|))
    {
      RecordReadsBack(a);
    }
  }

  /** Skipping records succeeds wherever decoding them does, and stops at the same place:
      the authority and additional sections are framed exactly like the answer section. */
  lemma SkipOfDecoded(buf: Bytes, offset: nat, count: nat)
    requires DecodeAnswers(buf, offset, count).Ok?
    ensures SkipRecords(buf, offset, count) == Ok(DecodeAnswers(buf, offset, count).value.1)
  {
    forall o: nat | DecodeAnswer(buf, o).Ok?
      ensures SkipRecord(buf, o).Ok? && SkipRecord(buf, o).value.1 == DecodeAnswer(buf, o).value.1
    {
    }
    ManyFraming(buf, offset, count, DecodeAnswer, SkipRecord);
  }

  /** An encoded message is its header followed by its four encoded sections. */
  lemma EncodeParts(m: Message, qs: Bytes, an: Bytes, ns: Bytes, ar: Bytes)
    requires EncodeQuestions(m.questions) == Ok(qs) && EncodeRecords(m.answers) == Ok(an)
    requires EncodeRecords(m.authority) == Ok(ns) && EncodeRecords(m.additional) == Ok(ar)
    ensures Encode(m) == Ok(EncodeHeader(m) + qs + an + ns + ar)
  {
  }

  /** Where each part of a concatenation of five lies. */
  lemma Layout(buf: Bytes, h: Bytes, qs: Bytes, an: Bytes, ns: Bytes, ar: Bytes)
    requires |h| == DnsName.HEADER_SIZE && At(buf, 0, h + qs + an + ns + ar)
    ensures At(buf, 0, h) && At(buf, 12, qs) && At(buf, 12 + |qs|, an)
    ensures At(buf, 12 + |qs| + |an|, ns) && At(buf, 12 + |qs| + |an| + |ns|, ar)
  {
    Split(buf, 0, h + qs + an + ns, ar);
    Split(buf, 0, h + qs + an, ns);
    Split(buf, 0, h + qs, an);
    Split(buf, 0, h, qs);
  }

  /** decode on a buffer whose header and sections read as given. */
  lemma DecodeOf(buf: Bytes, id: uint16, flags: uint16, questions: seq<Question>, answers: seq<Answer>,
                 nscount: nat, arcount: nat, o1: nat, o2: nat, o3: nat, o4: nat)
    requires DnsName.HEADER_SIZE <= |buf|
    requires BigEndian16(buf[0], buf[1]) == id && BigEndian16(buf[2], buf[3]) == flags
    requires BigEndian16(buf[4], buf[5]) == |questions| && BigEndian16(buf[6], buf[7]) == |answers|
    requires BigEndian16(buf[8], buf[9]) == nscount && BigEndian16(buf[10], buf[11]) == arcount
    requires DecodeQuestions(buf, 12, |questions|) == Ok((questions, o1))
    requires DecodeAnswers(buf, o1, |answers|) == Ok((answers, o2))
    requires SkipRecords(buf, o2, nscount) == Ok(o3)
    requires SkipRecords(buf, o3, arcount) == Ok(o4)
    ensures Decode(buf) == Ok(Message(id, flags, questions, answers, [], []))
  {
  }

  /** decode(encode(m)) gives m back, whatever follows the message in the buffer, apart from
      the authority and additional sections, which decode checks and drops. */
  lemma MessageRoundTrip(m: Message, junk: Bytes)
    requires CanonicalMessage(m)
    ensures Encode(m).Ok?
    ensures Decode(Encode(m).value + junk) == Ok(m.(authority := [], additional := []))
  {
    hide Encode, Decode, EncodeQuestion, DecodeQuestion, EncodeRecord, DecodeAnswer, DecodeRecordHeader, SkipRecord;
    hide DecodeMany, EncodeMany;
    hide DnsName.EncodeName, DnsName.DecodeName, DnsRdata.EncodeRecordData, DnsRdata.DecodeRecordData;
    QuestionsEncode(m.questions);
    RecordsEncode(m.answers);
    RecordsEncode(m.authority);
    RecordsEncode(m.additional);
    var h := EncodeHeader(m);
    var qs := EncodeQuestions(m.questions).value;
    var an := EncodeRecords(m.answers).value;
    var ns := EncodeRecords(m.authority).value;
    var ar := EncodeRecords(m.additional).value;
    EncodeParts(m, qs, an, ns, ar);
    var buf := Encode(m).value + junk;
    assert At(buf, 0, h + qs + an + ns + ar);
    Layout(buf, h, qs, an, ns, ar);
    HeaderAt(m, buf);
    var o1 := 12 + |qs|;
    var o2 := o1 + |an|;
    var o3 := o2 + |ns|;
    QuestionsReadBack();
    RecordsReadBack();
    ManyAt(m.questions, EncodeQuestion, DecodeQuestion, CanonicalQuestion, buf, 12, qs);
    ManyAt(m.answers, EncodeRecord, DecodeAnswer, CanonicalRecord, buf, o1, an);
    ManyAt(m.authority, EncodeRecord, DecodeAnswer, CanonicalRecord, buf, o2, ns);
    SkipOfDecoded(buf, o2, |m.authority|);
    ManyAt(m.additional, EncodeRecord, DecodeAnswer, CanonicalRecord, buf, o3, ar);
    SkipOfDecoded(buf, o3, |m.additional|);
    DecodeOf(buf, m.id, m.flags, m.questions, m.answers, |m.authority|, |m.additional|, o1, o2, o3, o3 + |ar|);
  }

  /** The header fields read back from an encoded header, when the counts fit. */
  lemma HeaderAt(m: Message, buf: Bytes)
    requires At(buf, 0, EncodeHeader(m))
    ensures BigEndian16(buf[0], buf[1]) == m.id && BigEndian16(buf[2], buf[3]) == m.flags
    ensures BigEndian16(buf[4], buf[5]) == ToUint16(|m.questions|)
    ensures BigEndian16(buf[6], buf[7]) == ToUint16(|m.answers|)
    ensures BigEndian16(buf[8], buf[9]) == ToUint16(|m.authority|)
    ensures BigEndian16(buf[10], buf[11]) == ToUint16(|m.additional|)
  {
    var h := EncodeHeader(m);
    forall i | 0 <= i < 12 ensures buf[i] == h[i] {
      assert buf[..12][i] == h[i];
    }
  }
}
