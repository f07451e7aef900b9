/** Whole-message decode and encode of dns/cpp/src/DnsPacket.cpp: the 12-byte header,
    the question section, the answer section, and the authority and additional sections,
    which decode only walks over. */
module DnsPacket {
  import opened Ints
  import opened Wrappers
  import opened DnsWire
  import opened DnsMessage
  import DnsName
  import DnsRdata

  /** The fixed part of a resource record and where its data lies. */
  datatype RecordHeader = RecordHeader(
    name: string, rtype: uint16, rclass: uint16, ttl: uint32, dataOffset: nat, dataLength: nat)

  // ---------------------------------------------------------------------------
  // Decoding

  /** One question: name, type, class. No check that the offset is inside the buffer. */
  function DecodeQuestion(buf: Bytes, offset: nat): (r: Result<(Question, nat), DnsError>)
    ensures offset >= |buf| ==> r.Err?
  {
    var (name, o1) :- DnsName.DecodeName(buf, offset);
    var (qtype, o2) :- ReadUint16(buf, o1);
    var (qclass, o3) :- ReadUint16(buf, o2);
    Ok((Question(name, qtype, qclass), o3))
  }

  /** The loop decode runs for every section: `count` items in a row, each read by `one` where
      the previous one ended. */
  function DecodeMany<T>(buf: Bytes, offset: nat, count: nat, one: (Bytes, nat) -> Result<(T, nat), DnsError>)
    : (r: Result<(seq<T>, nat), DnsError>)
    ensures r.Ok? ==> |r.value.0| == count
    decreases count
  {
    if count == 0 then Ok(([], offset))
    else
      var (x, next) :- one(buf, offset);
      var (rest, end) :- DecodeMany(buf, next, count - 1, one);
      Ok(([x] + rest, end))
  }

  /** `count` questions in a row. */
  function DecodeQuestions(buf: Bytes, offset: nat, count: nat): (r: Result<(seq<Question>, nat), DnsError>)
    ensures r.Ok? ==> |r.value.0| == count
  {
    DecodeMany(buf, offset, count, DecodeQuestion)
  }

  /** The part of a record the three record sections share: it must start inside the buffer,
      and its data must end inside it. */
  function DecodeRecordHeader(buf: Bytes, offset: nat): (r: Result<RecordHeader, DnsError>)
    ensures offset >= |buf| ==> r == Err(IncompleteRecord)
  {
    if offset >= |buf| then Err(IncompleteRecord)
    else
      var (name, o1) :- DnsName.DecodeName(buf, offset);
      var (rtype, o2) :- ReadUint16(buf, o1);
      var (rclass, o3) :- ReadUint16(buf, o2);
      var (ttl, o4) :- ReadUint32(buf, o3);
      var (rdlength, o5) :- ReadUint16(buf, o4);
      if o5 + rdlength > |buf| then Err(RecordDataPastEnd)
      else Ok(RecordHeader(name, rtype, rclass, ttl, o5, rdlength))
  }

  /** One answer record, its data turned into text. */
  function DecodeAnswer(buf: Bytes, offset: nat): (r: Result<(Answer, nat), DnsError>)
    ensures offset >= |buf| ==> r == Err(IncompleteRecord)
  {
    var h :- DecodeRecordHeader(buf, offset);
    var data :- DnsRdata.DecodeRecordData(h.rtype, buf, h.dataOffset, h.dataLength);
    Ok((Answer(h.name, h.rtype, h.rclass, h.ttl, data), h.dataOffset + h.dataLength))
  }

  /** `count` answer records in a row. */
  function DecodeAnswers(buf: Bytes, offset: nat, count: nat): (r: Result<(seq<Answer>, nat), DnsError>)
    ensures r.Ok? ==> |r.value.0| == count
  {
    DecodeMany(buf, offset, count, DecodeAnswer)
  }

  /** One authority or additional record, checked for framing and then stepped over: its data
      is never decoded. */
  function SkipRecord(buf: Bytes, offset: nat): (r: Result<(RecordHeader, nat), DnsError>)
    ensures offset >= |buf| ==> r == Err(IncompleteRecord)
  {
    var h :- DecodeRecordHeader(buf, offset);
    Ok((h, h.dataOffset + h.dataLength))
  }

  /** `count` authority or additional records walked over; only where they end is kept. */
  function SkipRecords(buf: Bytes, offset: nat, count: nat): (r: Result<nat, DnsError>)
    ensures count == 0 ==> r == Ok(offset)
  {
    var (_, end) :- DecodeMany(buf, offset, count, SkipRecord);
    Ok(end)
  }

  /** A decoded question ends with its type and class, inside the buffer. */
  lemma QuestionBounds(buf: Bytes, offset: nat)
    ensures var r := DecodeQuestion(buf, offset);
      r.Ok? ==> (offset + 4 <= r.value.1 <= |buf|
        && r.value.0.qtype == BigEndian16(buf[r.value.1 - 4], buf[r.value.1 - 3])
        && r.value.0.qclass == BigEndian16(buf[r.value.1 - 2], buf[r.value.1 - 1]))
  {
  }

  /** A record header lies inside the buffer: at least the ten fixed bytes follow the owner
      name, the data length is the 16-bit value just before the data, and the data ends
      inside the buffer. */
  lemma RecordHeaderBounds(buf: Bytes, offset: nat)
    ensures var r := DecodeRecordHeader(buf, offset);
      r.Ok? ==> (offset + 10 <= r.value.dataOffset
        && r.value.dataOffset + r.value.dataLength <= |buf|
        && r.value.dataLength == BigEndian16(buf[r.value.dataOffset - 2], buf[r.value.dataOffset - 1]))
  {
  }

  /** Each decoded answer moves forward and stays inside the buffer. */
  lemma AnswerBounds(buf: Bytes, offset: nat)
    ensures var r := DecodeAnswer(buf, offset);
      r.Ok? ==> offset < r.value.1 <= |buf|
  {
    RecordHeaderBounds(buf, offset);
  }

  /** decode: the header, then each section in order. The authority and additional sections are
      walked over but not kept, so the decoded message always has both empty. */
  function Decode(buf: Bytes): (r: Result<Message, DnsError>)
    ensures |buf| < DnsName.HEADER_SIZE ==> r == Err(PacketTooShort)
    ensures r.Ok? ==> DnsName.HEADER_SIZE <= |buf|
    ensures r.Ok? ==> r.value.id == BigEndian16(buf[0], buf[1])
    ensures r.Ok? ==> r.value.flags == BigEndian16(buf[2], buf[3])
    ensures r.Ok? ==> |r.value.questions| == BigEndian16(buf[4], buf[5])
    ensures r.Ok? ==> |r.value.answers| == BigEndian16(buf[6], buf[7])
    ensures r.Ok? ==> r.value.authority == [] && r.value.additional == []
  {
    if |buf| < DnsName.HEADER_SIZE then Err(PacketTooShort)
    else
      var id := BigEndian16(buf[0], buf[1]);
      var flags := BigEndian16(buf[2], buf[3]);
      var qdcount := BigEndian16(buf[4], buf[5]);
      var ancount := BigEndian16(buf[6], buf[7]);
      var nscount := BigEndian16(buf[8], buf[9]);
      var arcount := BigEndian16(buf[10], buf[11]);
      var (questions, o1) :- DecodeQuestions(buf, DnsName.HEADER_SIZE, qdcount);
      var (answers, o2) :- DecodeAnswers(buf, o1, ancount);
      var o3 :- SkipRecords(buf, o2, nscount);
      var _ :- SkipRecords(buf, o3, arcount);
      Ok(Message(id, flags, questions, answers, [], []))
  }

  // ---------------------------------------------------------------------------
  // Encoding

  function EncodeQuestion(q: Question): (r: Result<Bytes, DnsError>)
    ensures r.Ok? <==> DnsName.EncodeName(q.name).Ok?
    ensures r.Ok? ==> |r.value| == |DnsName.EncodeName(q.name).value| + 4
  {
    var name :- DnsName.EncodeName(q.name);
    Ok(name + WriteUint16(q.qtype) + WriteUint16(q.qclass))
  }

  /** Items written one after another, stopping at the first that cannot be. */
  function EncodeMany<T>(xs: seq<T>, one: T -> Result<Bytes, DnsError>): (r: Result<Bytes, DnsError>)
    ensures xs == [] ==> r == Ok([])
  {
    if xs == [] then Ok([])
    else
      var head :- one(xs[0]);
      var tail :- EncodeMany(xs[1..], one);
      Ok(head + tail)
  }

  function EncodeQuestions(qs: seq<Question>): (r: Result<Bytes, DnsError>)
    ensures qs == [] ==> r == Ok([])
  {
    EncodeMany(qs, EncodeQuestion)
  }

  /** A record can be written when its owner name and its data both encode. */
  predicate RecordEncodes(a: Answer) {
    DnsName.EncodeName(a.name).Ok? && DnsRdata.EncodeRecordData(a.rtype, a.data).Ok?
  }

  /** Type, class, TTL and data length: the ten bytes between a record's owner name and its data. */
  function FixedFields(rtype: uint16, rclass: uint16, ttl: uint32, len: uint16): (r: Bytes)
    ensures |r| == 10
  {
    WriteUint16(rtype) + WriteUint16(rclass) + WriteUint32(ttl) + WriteUint16(len)
  }

  /** One record: the data length is written as a 16-bit value, so it wraps for data of
      65536 bytes or more. */
  function EncodeRecord(a: Answer): (r: Result<Bytes, DnsError>)
    ensures r.Ok? <==> RecordEncodes(a)
    ensures r.Ok? ==> |r.value| == |DnsName.EncodeName(a.name).value| + 10 + |DnsRdata.EncodeRecordData(a.rtype, a.data).value|
  {
    var name :- DnsName.EncodeName(a.name);
    var rdata :- DnsRdata.EncodeRecordData(a.rtype, a.data);
    Ok(name + FixedFields(a.rtype, a.rclass, a.ttl, ToUint16(|rdata|)) + rdata)
  }

  function EncodeRecords(records: seq<Answer>): (r: Result<Bytes, DnsError>)
    ensures records == [] ==> r == Ok([])
  {
    EncodeMany(records, EncodeRecord)
  }

  /** The header: id, flags and the four section counts, each count cut to 16 bits. */
  function EncodeHeader(m: Message): (r: Bytes)
    ensures |r| == DnsName.HEADER_SIZE
    ensures BigEndian16(r[0], r[1]) == m.id && BigEndian16(r[2], r[3]) == m.flags
    ensures BigEndian16(r[4], r[5]) == ToUint16(|m.questions|)
    ensures BigEndian16(r[6], r[7]) == ToUint16(|m.answers|)
    ensures BigEndian16(r[8], r[9]) == ToUint16(|m.authority|)
    ensures BigEndian16(r[10], r[11]) == ToUint16(|m.additional|)
  {
    WriteUint16(m.id) + WriteUint16(m.flags)
    + WriteUint16(ToUint16(|m.questions|)) + WriteUint16(ToUint16(|m.answers|))
    + WriteUint16(ToUint16(|m.authority|)) + WriteUint16(ToUint16(|m.additional|))
  }

  /** A sequence of items can be written exactly when each item can. */
  lemma {:induction false} EncodeManySucceeds<T>(xs: seq<T>, one: T -> Result<Bytes, DnsError>)
    ensures EncodeMany(xs, one).Ok? <==> forall i :: 0 <= i < |xs| ==> one(xs[i]).Ok?
  {
    if xs != [] {
      EncodeManySucceeds(xs[1..], one);
      assert forall i :: 1 <= i < |xs| ==> xs[i] == xs[1..][i - 1];
    }
  }

  /** The question section can be written exactly when every question's name can. */
  lemma EncodeQuestionsSucceeds(qs: seq<Question>)
    ensures EncodeQuestions(qs).Ok? <==> forall i :: 0 <= i < |qs| ==> DnsName.EncodeName(qs[i].name).Ok?
  {
    EncodeManySucceeds(qs, EncodeQuestion);
  }

  /** A record section can be written exactly when every record can. */
  lemma EncodeRecordsSucceeds(records: seq<Answer>)
    ensures EncodeRecords(records).Ok? <==> forall i :: 0 <= i < |records| ==> RecordEncodes(records[i])
  {
    EncodeManySucceeds(records, EncodeRecord);
  }

  /** Every name and every record of a message can be written. */
  predicate MessageEncodes(m: Message) {
    (forall i :: 0 <= i < |m.questions| ==> DnsName.EncodeName(m.questions[i].name).Ok?) &&
    (forall i :: 0 <= i < |m.answers| ==> RecordEncodes(m.answers[i])) &&
    (forall i :: 0 <= i < |m.authority| ==> RecordEncodes(m.authority[i])) &&
    (forall i :: 0 <= i < |m.additional| ==> RecordEncodes(m.additional[i]))
  }

  /** encode: the header followed by the four sections in order. */
  function Encode(m: Message): (r: Result<Bytes, DnsError>)
    ensures r.Ok? ==> DnsName.HEADER_SIZE <= |r.value| && r.value[..DnsName.HEADER_SIZE] == EncodeHeader(m)
  {
    var questions :- EncodeQuestions(m.questions);
    var answers :- EncodeRecords(m.answers);
    var authority :- EncodeRecords(m.authority);
    var additional :- EncodeRecords(m.additional);
    Ok(EncodeHeader(m) + questions + answers + authority + additional)
  }

  /** encode fails exactly when some name or some record of the message cannot be written. */
  lemma EncodeSucceeds(m: Message)
    ensures Encode(m).Ok? <==> MessageEncodes(m)
  {
    EncodeQuestionsSucceeds(m.questions);
    EncodeRecordsSucceeds(m.answers);
    EncodeRecordsSucceeds(m.authority);
    EncodeRecordsSucceeds(m.additional);
  }
}
