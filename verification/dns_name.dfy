/** Domain-name coding of dns/cpp/src/DnsPacket.cpp: `decodeName` (length-prefixed labels
    with compression pointers, section 4.1.4 of RFC 1035) and `encodeName` (labels only,
    never a pointer), with the limits of section 2.3.4 of RFC 1035. */
module DnsName {
  import opened Ints
  import opened Wrappers
  import opened DnsWire

  /** Loop guard of decodeName: at most this many pointers are followed. */
  const MAX_JUMPS: nat := 5
  /** Maximum encoded name length, length bytes and terminator included. */
  const MAX_NAME_LENGTH: nat := 255
  /** Maximum label length. */
  const MAX_LABEL_LENGTH: nat := 63
  /** Size of the message header; pointers may not target it. */
  const HEADER_SIZE: nat := 12

  // ---------------------------------------------------------------------------
  // Text <-> bytes. A std::string holds bytes; decoding turns each byte into the
  // character with that code and encoding truncates a character to its low byte.

  predicate IsByteString(s: string) {
    forall i :: 0 <= i < |s| ==> s[i] as int < 256
  }

  function Chars(bs: Bytes): string
  {
    seq(|bs|, i requires 0 <= i < |bs| => bs[i] as char)
  }

  function ToBytes(s: string): Bytes
  {
    seq(|s|, i requires 0 <= i < |s| => (s[i] as int) % 256)
  }

  lemma CharsToBytes(s: string)
    requires IsByteString(s)
    ensures Chars(ToBytes(s)) == s
  {
  }

  // ---------------------------------------------------------------------------
  // Labels and names

  /** Labels joined with '.', as decodeName builds the name. */
  function Join(labels: seq<string>): string
  {
    if |labels| == 0 then ""
    else if |labels| == 1 then labels[0]
    else labels[0] + "." + Join(labels[1..])
  }

  /** Index of the first `c` at or after `from`, or |s| when there is none (std::string::find). */
  function FindChar(s: string, c: char, from: nat): (i: nat)
    requires from <= |s|
    ensures from <= i <= |s|
    ensures i < |s| ==> s[i] == c
    ensures forall k :: from <= k < i ==> s[k] != c
    decreases |s| - from
  {
    if from == |s| || s[from] == c then from else FindChar(s, c, from + 1)
  }

  /** The search stops at the first `c`: it finds `at` when `at` holds `c` (or is the end) and
      nothing between `from` and `at` does. */
  lemma {:induction false} FindCharAt(s: string, c: char, from: nat, at: nat)
    requires from <= at <= |s|
    requires at < |s| ==> s[at] == c
    requires forall k :: from <= k < at ==> s[k] != c
    ensures FindChar(s, c, from) == at
    decreases at - from
  {
    if from < at {
      FindCharAt(s, c, from + 1, at);
    }
  }

  /** The dot-separated pieces of a name, empty pieces included (the segments encodeName visits). */
  function SplitDots(s: string): (segs: seq<string>)
    ensures |segs| >= 1
    decreases |s|
  {
    var i := FindChar(s, '.', 0);
    if i == |s| then [s] else [s[..i]] + SplitDots(s[i + 1..])
  }

  /** Encoded size of a label list: one length byte plus the label per label. */
  function LabelsSize(labels: seq<string>): nat
  {
    if |labels| == 0 then 0 else |labels[0]| + 1 + LabelsSize(labels[1..])
  }

  lemma LabelsSizeAppend(a: seq<string>, b: seq<string>)
    ensures LabelsSize(a + b) == LabelsSize(a) + LabelsSize(b)
  {
    if |a| == 0 {
      assert a + b == b;
    } else {
      assert (a + b)[1..] == a[1..] + b;
      LabelsSizeAppend(a[1..], b);
    }
  }

  /** Every label is non-empty and at most 63 characters long. */
  predicate ShortLabels(labels: seq<string>) {
    forall i :: 0 <= i < |labels| ==> 1 <= |labels[i]| <= MAX_LABEL_LENGTH
  }

  /** A non-empty label of at most 63 byte-range characters. */
  predicate ValidLabel(l: string) {
    1 <= |l| <= MAX_LABEL_LENGTH && IsByteString(l)
  }

  /** Labels decodeName can produce. */
  predicate ValidLabels(labels: seq<string>) {
    forall i :: 0 <= i < |labels| ==> ValidLabel(labels[i])
  }

  lemma JoinLength(labels: seq<string>)
    requires |labels| > 0
    ensures |Join(labels)| + 1 == LabelsSize(labels)
  {
    if |labels| > 1 {
      JoinLength(labels[1..]);
    }
  }

  lemma {:induction false} JoinSplit(s: string)
    ensures Join(SplitDots(s)) == s
    decreases |s|
  {
    hide FindChar;
    var i := FindChar(s, '.', 0);
    if i < |s| {
      var rest := s[i + 1..];
      JoinSplit(rest);
      var tail := SplitDots(rest);
      assert SplitDots(s) == [s[..i]] + tail;
      assert ([s[..i]] + tail)[1..] == tail;
      assert s == s[..i] + "." + rest;
    }
  }

  // ---------------------------------------------------------------------------
  // decodeName

  /** Compression pointer target: low six bits of the first byte, then the second byte. */
  function PointerTarget(first: uint8, second: uint8): nat
    requires first >= 0xC0
  {
    (first - 0xC0) * 0x100 + second
  }

  /** Outcome of one pass of decodeName's loop body at a position inside the buffer. */
  datatype Step =
    | Stop(next: nat)                     // zero byte: end of name
    | Jump(target: nat)                   // valid compression pointer
    | Label(text: string, next: nat)      // a label and the position after it
    | Fail(error: DnsError)

  /** One pass of decodeName's loop body, before the running-length check. */
  function NameStep(buf: Bytes, offset: nat): (s: Step)
    requires offset < |buf|
    ensures s.Stop? ==> s.next == offset + 1
    ensures s.Label? ==> offset < s.next <= |buf|
  {
    var len := buf[offset];
    var next := offset + 1;
    if len == 0 then Stop(next)
    else if len >= 0xC0 then
      if next >= |buf| then Fail(IncompletePointer)
      else
        var target := PointerTarget(len, buf[next]);
        if target >= |buf| || target < HEADER_SIZE then Fail(PointerOutOfBounds)
        // size_t arithmetic: `offset - 2` wraps when the pointer sits at position 0
        else if next >= 2 && target >= next - 2 then Fail(PointerNotBackward)
        else Jump(target)
    else if len > MAX_LABEL_LENGTH then Fail(LabelTooLong)
    else if next + len > |buf| then Fail(LabelPastEnd)
    else Label(Chars(buf[next..next + len]), next + len)
  }

  /** Which step decodeName takes for each kind of length byte, and every error it can raise. */
  lemma NameStepSpec(buf: Bytes, offset: nat)
    requires offset < |buf|
    ensures NameStep(buf, offset).Stop? <==> buf[offset] == 0
    ensures NameStep(buf, offset).Stop? ==> NameStep(buf, offset).next == offset + 1
    ensures NameStep(buf, offset) == Fail(IncompletePointer) <==> buf[offset] >= 0xC0 && offset + 1 >= |buf|
    ensures NameStep(buf, offset) == Fail(PointerOutOfBounds) <==>
      buf[offset] >= 0xC0 && offset + 1 < |buf| &&
      (PointerTarget(buf[offset], buf[offset + 1]) >= |buf| || PointerTarget(buf[offset], buf[offset + 1]) < HEADER_SIZE)
    ensures NameStep(buf, offset) == Fail(PointerNotBackward) <==>
      buf[offset] >= 0xC0 && offset + 1 < |buf| &&
      HEADER_SIZE <= PointerTarget(buf[offset], buf[offset + 1]) < |buf| &&
      offset >= 1 && PointerTarget(buf[offset], buf[offset + 1]) >= offset - 1
    ensures NameStep(buf, offset).Jump? ==> buf[offset] >= 0xC0 && offset + 1 < |buf|
    ensures NameStep(buf, offset).Jump? ==> NameStep(buf, offset).target == PointerTarget(buf[offset], buf[offset + 1])
    ensures NameStep(buf, offset).Jump? ==> HEADER_SIZE <= NameStep(buf, offset).target < |buf| && (offset == 0 || NameStep(buf, offset).target < offset - 1)
    ensures NameStep(buf, offset) == Fail(LabelTooLong) <==> MAX_LABEL_LENGTH < buf[offset] < 0xC0
    ensures NameStep(buf, offset) == Fail(LabelPastEnd) <==> 1 <= buf[offset] <= MAX_LABEL_LENGTH && offset + 1 + buf[offset] > |buf|
    ensures NameStep(buf, offset).Label? <==> 1 <= buf[offset] <= MAX_LABEL_LENGTH && offset + 1 + buf[offset] <= |buf|
    ensures NameStep(buf, offset).Label? ==> NameStep(buf, offset).next == offset + 1 + buf[offset] && NameStep(buf, offset).text == Chars(buf[offset + 1..NameStep(buf, offset).next])
  {
  }

  /** Where decoding continues: past the first pointer if one was followed, else where the loop stopped. */
  function Resume(resume: Option<nat>, offset: nat): nat {
    if resume.Some? then resume.value else offset
  }

  /** decodeName's loop: labels gathered so far, their encoded size, pointers followed,
      and the resume position recorded at the first pointer. */
  function DecodeNameLoop(buf: Bytes, offset: nat, labels: seq<string>, total: nat, jumps: nat, resume: Option<nat>)
    : (r: Result<(seq<string>, nat), DnsError>)
    ensures r.Ok? && resume.Some? ==> r.value.1 == resume.value
    ensures r.Ok? && resume.None? && jumps == 0 && offset < |buf| ==> offset < r.value.1
    decreases MAX_JUMPS - jumps, |buf| - offset
  {
    if offset >= |buf| || jumps >= MAX_JUMPS then Ok((labels, Resume(resume, offset)))
    else
      var step := NameStep(buf, offset);
      if step.Stop? then Ok((labels, Resume(resume, step.next)))
      else if step.Fail? then Err(step.error)
      else if step.Jump? then
        DecodeNameLoop(buf, step.target, labels, total, jumps + 1, if resume.None? then Some(offset + 2) else resume)
      else if total + |step.text| + 1 > MAX_NAME_LENGTH then Err(NameTooLong)
      else
        DecodeNameLoop(buf, step.next, labels + [step.text], total + |step.text| + 1, jumps, resume)
  }

  /** Every label decodeName gathers is a valid label, and together they fit in 255 bytes. */
  lemma {:induction false} DecodeNameLoopLabels(buf: Bytes, offset: nat, labels: seq<string>, total: nat, jumps: nat, resume: Option<nat>)
    requires total == LabelsSize(labels) <= MAX_NAME_LENGTH
    requires ValidLabels(labels)
    ensures var r := DecodeNameLoop(buf, offset, labels, total, jumps, resume);
      r.Ok? ==> ValidLabels(r.value.0) && LabelsSize(r.value.0) <= MAX_NAME_LENGTH
    decreases MAX_JUMPS - jumps, |buf| - offset
  {
    if offset < |buf| && jumps < MAX_JUMPS {
      var step := NameStep(buf, offset);
      if step.Jump? {
        DecodeNameLoopLabels(buf, step.target, labels, total, jumps + 1, if resume.None? then Some(offset + 2) else resume);
      } else if step.Label? && total + |step.text| + 1 <= MAX_NAME_LENGTH {
        LabelsSizeAppend(labels, [step.text]);
        ValidLabelsSnoc(labels, step.text);
        DecodeNameLoopLabels(buf, step.next, labels + [step.text], total + |step.text| + 1, jumps, resume);
      }
    }
  }

  /** decodeName: the dotted name starting at `offset` and the offset at which the caller continues. */
  function DecodeName(buf: Bytes, offset: nat): (r: Result<(string, nat), DnsError>)
    ensures offset >= |buf| ==> r == Ok(("", offset))
  {
    var (labels, next) :- DecodeNameLoop(buf, offset, [], 0, 0, None);
    Ok((Join(labels), next))
  }

  /** A decoded name fits the 255-byte limit, holds only byte-range characters, and the caller
      continues past where it started. */
  lemma DecodeNameSpec(buf: Bytes, offset: nat)
    ensures var r := DecodeName(buf, offset);
      r.Ok? ==> (|r.value.0| < MAX_NAME_LENGTH && IsByteString(r.value.0)
        && (offset < |buf| ==> offset < r.value.1))
  {
    DecodeNameLoopLabels(buf, offset, [], 0, 0, None);
    var r := DecodeNameLoop(buf, offset, [], 0, 0, None);
    if r.Ok? {
      var labels := r.value.0;
      if |labels| > 0 {
        JoinLength(labels);
      }
      JoinByteString(labels);
    }
  }

  lemma JoinByteString(labels: seq<string>)
    requires ValidLabels(labels)
    ensures IsByteString(Join(labels))
  {
    if |labels| > 1 {
      JoinByteString(labels[1..]);
    }
  }

  // ---------------------------------------------------------------------------
  // encodeName

  /** Reference encoding of a label list: each label as a length byte and its bytes (no terminator). */
  function EncodeLabels(labels: seq<string>): (bs: Bytes)
    requires ShortLabels(labels)
    ensures |bs| == LabelsSize(labels)
  {
    if |labels| == 0 then []
    else [|labels[0]| as uint8] + ToBytes(labels[0]) + EncodeLabels(labels[1..])
  }

  /** The segments encodeName keeps: the non-empty ones. */
  function NonEmpty(segs: seq<string>): (r: seq<string>)
    ensures |r| <= |segs|
    ensures forall i :: 0 <= i < |r| ==> |r[i]| > 0
  {
    if |segs| == 0 then []
    else if |segs[0]| == 0 then NonEmpty(segs[1..])
    else [segs[0]] + NonEmpty(segs[1..])
  }

  /** No segment is longer than 63 characters (empty segments allowed). */
  predicate SegmentsFit(segs: seq<string>) {
    forall i :: 0 <= i < |segs| ==> |segs[i]| <= MAX_LABEL_LENGTH
  }

  lemma {:induction false} NonEmptyFit(segs: seq<string>)
    requires SegmentsFit(segs)
    ensures ShortLabels(NonEmpty(segs))
    ensures LabelsSize(NonEmpty(segs)) <= LabelsSize(segs)
  {
    if |segs| > 0 {
      NonEmptyFit(segs[1..]);
    }
  }

  /** encodeName's loop over the dot-separated segments, with the running encoded length. */
  function EncodeSegments(segs: seq<string>, encodedLength: nat): (r: Result<Bytes, DnsError>)
    ensures segs == [] ==> r == Ok([])
    decreases |segs|
  {
    if |segs| == 0 then Ok([])
    else
      var seg := segs[0];
      if |seg| > MAX_LABEL_LENGTH then Err(EncodeLabelTooLong)
      else if |seg| == 0 then EncodeSegments(segs[1..], encodedLength)
      else if encodedLength + |seg| + 1 > MAX_NAME_LENGTH then Err(EncodedNameTooLong)
      else
        var rest :- EncodeSegments(segs[1..], encodedLength + |seg| + 1);
        Ok([|seg| as uint8] + ToBytes(seg) + rest)
  }

  /** The loop fails exactly when a segment is over 63 characters or the labels outgrow the
      255-byte limit, and otherwise writes the non-empty segments as labels. */
  lemma {:induction false} EncodeSegmentsSpec(segs: seq<string>, encodedLength: nat)
    requires encodedLength <= MAX_NAME_LENGTH
    ensures var r := EncodeSegments(segs, encodedLength);
      && (r.Ok? <==> SegmentsFit(segs) && encodedLength + LabelsSize(NonEmpty(segs)) <= MAX_NAME_LENGTH)
      && (r.Ok? ==> ShortLabels(NonEmpty(segs)) && r.value == EncodeLabels(NonEmpty(segs)))
    decreases |segs|
  {
    if |segs| > 0 {
      var seg := segs[0];
      var rest := segs[1..];
      SegmentsFitCons(segs);
      if |seg| <= MAX_LABEL_LENGTH {
        if |seg| == 0 {
          EncodeSegmentsSpec(rest, encodedLength);
        } else if encodedLength + |seg| + 1 <= MAX_NAME_LENGTH {
          EncodeSegmentsSpec(rest, encodedLength + |seg| + 1);
          LabelsSizeCons(seg, NonEmpty(rest));
          if EncodeSegments(rest, encodedLength + |seg| + 1).Ok? {
            EncodeLabelsCons(seg, NonEmpty(rest));
          }
        } else {
          LabelsSizeCons(seg, NonEmpty(rest));
        }
      }
    }
  }

  lemma SegmentsFitCons(segs: seq<string>)
    requires |segs| > 0
    ensures SegmentsFit(segs) <==> |segs[0]| <= MAX_LABEL_LENGTH && SegmentsFit(segs[1..])
  {
    assert forall i :: 1 <= i < |segs| ==> segs[i] == segs[1..][i - 1];
  }

  lemma LabelsSizeCons(l: string, rest: seq<string>)
    ensures LabelsSize([l] + rest) == |l| + 1 + LabelsSize(rest)
  {
    assert ([l] + rest)[1..] == rest;
  }

  /** A label written in front of the others. */
  lemma EncodeLabelsCons(l: string, rest: seq<string>)
    requires 1 <= |l| <= MAX_LABEL_LENGTH && ShortLabels(rest)
    ensures ShortLabels([l] + rest)
    ensures EncodeLabels([l] + rest) == [|l| as uint8] + ToBytes(l) + EncodeLabels(rest)
  {
    assert ([l] + rest)[1..] == rest;
    assert forall i :: 1 <= i < |[l] + rest| ==> ([l] + rest)[i] == rest[i - 1];
  }

  lemma {:induction false} SplitDotsSize(s: string)
    ensures LabelsSize(SplitDots(s)) == |s| + 1
  {
    JoinSplit(s);
    JoinLength(SplitDots(s));
  }

  /** encodeName: a name to length-prefixed labels and a zero terminator. */
  function EncodeName(name: string): (r: Result<Bytes, DnsError>)
    ensures name == "" ==> r == Ok([0])
    ensures |name| > MAX_NAME_LENGTH - 1 ==> r == Err(EncodeNameTooLong)
  {
    if name == "" then Ok([0])
    else if |name| > MAX_NAME_LENGTH - 1 then Err(EncodeNameTooLong)
    else
      var body :- EncodeSegments(SplitDots(name), 0);
      Ok(body + [0])
  }

  /** encodeName succeeds exactly when the name is under 255 characters and no dot-separated
      segment is longer than 63; the result is the non-empty labels, each with its length byte,
      and the zero terminator, 256 bytes at most. */
  lemma EncodeNameSpec(name: string)
    ensures var r := EncodeName(name);
      && (r.Ok? <==> |name| < MAX_NAME_LENGTH && SegmentsFit(SplitDots(name)))
      && (r.Ok? ==> ShortLabels(NonEmpty(SplitDots(name))))
      && (r.Ok? ==> r.value == EncodeLabels(NonEmpty(SplitDots(name))) + [0])
      && (r.Ok? ==> |r.value| <= MAX_NAME_LENGTH + 1 && r.value[|r.value| - 1] == 0)
  {
    if name == "" {
      assert SplitDots(name) == [""];
    } else if |name| < MAX_NAME_LENGTH {
      SplitDotsSize(name);
      EncodeSegmentsSpec(SplitDots(name), 0);
      if SegmentsFit(SplitDots(name)) {
        NonEmptyFit(SplitDots(name));
      }
    }
  }

  // ---------------------------------------------------------------------------
  // Round trip

  /** Names that survive encodeName and decodeName unchanged: empty, or at most 254 characters
      whose dot-separated labels are all non-empty byte strings of at most 63 characters. */
  predicate CanonicalName(name: string) {
    name == "" || (|name| < MAX_NAME_LENGTH && ValidLabels(SplitDots(name)))
  }

  lemma {:induction false} NonEmptyOfShort(labels: seq<string>)
    requires ShortLabels(labels)
    ensures NonEmpty(labels) == labels
  {
    if |labels| > 0 {
      NonEmptyOfShort(labels[1..]);
    }
  }

  /** Splitting a slice of a buffer that equals a concatenation. */
  lemma SliceParts(buf: Bytes, offset: nat, a: Bytes, b: Bytes)
    requires offset + |a| + |b| <= |buf|
    requires buf[offset..offset + |a| + |b|] == a + b
    ensures buf[offset..offset + |a|] == a
    ensures buf[offset + |a|..offset + |a| + |b|] == b
  {
    forall i | 0 <= i < |a| ensures buf[offset + i] == a[i] {
      assert buf[offset..offset + |a| + |b|][i] == (a + b)[i];
    }
    forall i | 0 <= i < |b| ensures buf[offset + |a| + i] == b[i] {
      assert buf[offset..offset + |a| + |b|][|a| + i] == (a + b)[|a| + i];
    }
  }

  /** A length byte followed by the label's bytes is read back as that label. */
  lemma LabelAt(buf: Bytes, offset: nat, l: string)
    requires 1 <= |l| <= MAX_LABEL_LENGTH && IsByteString(l)
    requires offset + 1 + |l| <= |buf|
    requires buf[offset..offset + 1] == [|l| as uint8]
    requires buf[offset + 1..offset + 1 + |l|] == ToBytes(l)
    ensures NameStep(buf, offset) == Label(l, offset + 1 + |l|)
  {
    assert buf[offset] == buf[offset..offset + 1][0];
    CharsToBytes(l);
  }

  lemma ValidLabelsSnoc(acc: seq<string>, l: string)
    requires ValidLabels(acc) && ValidLabel(l)
    ensures ValidLabels(acc + [l])
  {
    assert forall i :: 0 <= i < |acc| ==> (acc + [l])[i] == acc[i];
  }

  /** One label read by decodeName's loop. */
  lemma LabelStep(buf: Bytes, offset: nat, acc: seq<string>, total: nat, l: string)
    requires total + |l| + 1 <= MAX_NAME_LENGTH
    requires offset < |buf| && NameStep(buf, offset) == Label(l, offset + 1 + |l|)
    ensures DecodeNameLoop(buf, offset, acc, total, 0, None)
         == DecodeNameLoop(buf, offset + 1 + |l|, acc + [l], total + |l| + 1, 0, None)
  {
  }

  lemma {:induction false} DecodeEncodedLabels(buf: Bytes, offset: nat, acc: seq<string>, total: nat, labels: seq<string>)
    requires ValidLabels(labels)
    requires total + LabelsSize(labels) <= MAX_NAME_LENGTH
    requires offset + LabelsSize(labels) < |buf|
    requires buf[offset..offset + LabelsSize(labels) + 1] == EncodeLabels(labels) + [0]
    ensures DecodeNameLoop(buf, offset, acc, total, 0, None)
         == Ok((acc + labels, offset + LabelsSize(labels) + 1))
    decreases |labels|
  {
    hide DecodeNameLoop, NameStep;
    if |labels| == 0 {
      assert EncodeLabels(labels) + [0] == [0];
      StopAt(buf, offset, acc, total);
      assert acc + labels == acc;
    } else {
      var l := labels[0];
      var next := offset + 1 + |l|;
      EncodedLabelAt(buf, offset, labels);
      LabelStep(buf, offset, acc, total, l);
      DecodeEncodedLabels(buf, next, acc + [l], total + |l| + 1, labels[1..]);
      Snoc(acc, labels);
    }
  }

  /** The terminating zero byte ends decodeName's loop. */
  lemma StopAt(buf: Bytes, offset: nat, acc: seq<string>, total: nat)
    requires offset < |buf| && buf[offset..offset + 1] == [0]
    ensures DecodeNameLoop(buf, offset, acc, total, 0, None) == Ok((acc, offset + 1))
  {
    assert buf[offset] == buf[offset..offset + 1][0];
  }

  lemma Snoc<T>(acc: seq<T>, xs: seq<T>)
    requires |xs| > 0
    ensures acc + [xs[0]] + xs[1..] == acc + xs
  {
  }

  /** The first label of an encoded label list, and the encoding of the rest after it. */
  lemma EncodedLabelAt(buf: Bytes, offset: nat, labels: seq<string>)
    requires |labels| > 0 && ValidLabels(labels)
    requires offset + LabelsSize(labels) < |buf|
    requires buf[offset..offset + LabelsSize(labels) + 1] == EncodeLabels(labels) + [0]
    ensures NameStep(buf, offset) == Label(labels[0], offset + 1 + |labels[0]|)
    ensures ValidLabels(labels[1..]) && LabelsSize(labels) == |labels[0]| + 1 + LabelsSize(labels[1..])
    ensures var next := offset + 1 + |labels[0]|;
      buf[next..next + LabelsSize(labels[1..]) + 1] == EncodeLabels(labels[1..]) + [0]
  {
    var l := labels[0];
    var rest := labels[1..];
    var tail := EncodeLabels(rest) + [0];
    assert EncodeLabels(labels) + [0] == ([|l| as uint8] + ToBytes(l)) + tail;
    SliceParts(buf, offset, [|l| as uint8] + ToBytes(l), tail);
    SliceParts(buf, offset, [|l| as uint8], ToBytes(l));
    assert ValidLabel(labels[0]);
    LabelAt(buf, offset, l);
  }

  /** decodeName inverts encodeName for canonical names, whatever surrounds the encoding. */
  lemma DecodeEncodeName(name: string, prefix: Bytes, suffix: Bytes)
    requires CanonicalName(name)
    ensures EncodeName(name).Ok?
    ensures DecodeName(prefix + EncodeName(name).value + suffix, |prefix|)
         == Ok((name, |prefix| + |EncodeName(name).value|))
  {
    if name == "" {
      DecodeEncodeRoot(prefix, suffix);
    } else {
      DecodeEncodeLabels(name, prefix, suffix);
    }
  }

  /** The root name is the single zero byte. */
  lemma DecodeEncodeRoot(prefix: Bytes, suffix: Bytes)
    ensures EncodeName("") == Ok([0])
    ensures DecodeName(prefix + [0] + suffix, |prefix|) == Ok(("", |prefix| + 1))
  {
    var buf := prefix + [0] + suffix;
    assert buf[|prefix|] == 0;
    NameStepSpec(buf, |prefix|);
    assert DecodeNameLoop(buf, |prefix|, [], 0, 0, None) == Ok(([], |prefix| + 1));
  }

  lemma DecodeEncodeLabels(name: string, prefix: Bytes, suffix: Bytes)
    requires CanonicalName(name) && name != ""
    ensures EncodeName(name).Ok?
    ensures DecodeName(prefix + EncodeName(name).value + suffix, |prefix|)
         == Ok((name, |prefix| + |EncodeName(name).value|))
  {
    var labels := SplitDots(name);
    EncodeCanonicalName(name);
    hide EncodeName, EncodeSegments, DecodeNameLoop, NameStep, Join;
    var enc := EncodeLabels(labels) + [0];
    var buf := prefix + enc + suffix;
    assert buf[|prefix|..|prefix| + |enc|] == enc;
    DecodeEncodedLabels(buf, |prefix|, [], 0, labels);
    assert [] + labels == labels;
    JoinSplit(name);
  }

  /** Canonical names always encode. */
  lemma CanonicalNameEncodes(name: string)
    requires CanonicalName(name)
    ensures EncodeName(name).Ok?
  {
    if name != "" {
      EncodeCanonicalName(name);
    }
  }

  /** A canonical non-empty name encodes as its labels followed by the zero byte. */
  lemma EncodeCanonicalName(name: string)
    requires CanonicalName(name) && name != ""
    ensures ShortLabels(SplitDots(name)) && ValidLabels(SplitDots(name))
    ensures LabelsSize(SplitDots(name)) == |name| + 1
    ensures EncodeName(name) == Ok(EncodeLabels(SplitDots(name)) + [0])
  {
    var labels := SplitDots(name);
    assert ShortLabels(labels) by {
      forall i | 0 <= i < |labels| ensures 1 <= |labels[i]| <= MAX_LABEL_LENGTH {
        assert ValidLabel(labels[i]);
      }
    }
    NonEmptyOfShort(labels);
    SplitDotsSize(name);
    EncodeSegmentsSpec(labels, 0);
  }

  // ---------------------------------------------------------------------------
  // decodeName's limits

  /** A pointer that does not point before itself is refused (a self-pointer loops forever otherwise). */
  lemma DecodeNameRejectsNonBackwardPointer(buf: Bytes, p: nat)
    requires p >= 1 && p + 1 < |buf| && buf[p] >= 0xC0
    requires HEADER_SIZE <= PointerTarget(buf[p], buf[p + 1]) < |buf|
    requires PointerTarget(buf[p], buf[p + 1]) >= p - 1
    ensures DecodeName(buf, p) == Err(PointerNotBackward)
  {
  }

  /** After a pointer, the caller continues just past the two pointer bytes, and the name
      is the one found at the target. */
  lemma {:induction false} DecodeNameResumesAfterPointer(buf: Bytes, p: nat)
    requires p < |buf| && NameStep(buf, p).Jump?
    ensures DecodeName(buf, p).Ok? ==> DecodeName(buf, p).value.1 == p + 2
    ensures DecodeNameLoop(buf, NameStep(buf, p).target, [], 0, 1, Some(p + 2)).Ok? <==> DecodeName(buf, p).Ok?
  {
  }

  /** Labels that run into the end of the buffer, with no zero byte after them, are read
      without an error, and the caller continues at the end of the buffer. */
  lemma {:induction false} UnterminatedLabels(buf: Bytes, offset: nat, acc: seq<string>, total: nat, labels: seq<string>)
    requires ValidLabels(labels)
    requires total + LabelsSize(labels) <= MAX_NAME_LENGTH
    requires offset + LabelsSize(labels) == |buf|
    requires buf[offset..] == EncodeLabels(labels)
    ensures DecodeNameLoop(buf, offset, acc, total, 0, None) == Ok((acc + labels, |buf|))
    decreases |labels|
  {
    hide DecodeNameLoop, NameStep;
    if |labels| == 0 {
      assert LabelsSize(labels) == 0;
      EndOfBuffer(buf, acc, total, 0, None);
      assert acc + labels == acc;
    } else {
      var l := labels[0];
      var next := offset + 1 + |l|;
      UnterminatedLabelAt(buf, offset, labels);
      LabelStep(buf, offset, acc, total, l);
      UnterminatedLabels(buf, next, acc + [l], total + |l| + 1, labels[1..]);
      Snoc(acc, labels);
    }
  }

  /** decodeName's loop stops without an error at the end of the buffer, whatever it has gathered
      and however many pointers it has followed. */
  lemma EndOfBuffer(buf: Bytes, acc: seq<string>, total: nat, jumps: nat, resume: Option<nat>)
    ensures DecodeNameLoop(buf, |buf|, acc, total, jumps, resume) == Ok((acc, Resume(resume, |buf|)))
  {
  }

  /** The first label of an encoded label list that fills the rest of the buffer, and the
      encoding of the other labels after it. */
  lemma UnterminatedLabelAt(buf: Bytes, offset: nat, labels: seq<string>)
    requires |labels| > 0 && ValidLabels(labels)
    requires offset + LabelsSize(labels) == |buf|
    requires buf[offset..] == EncodeLabels(labels)
    ensures NameStep(buf, offset) == Label(labels[0], offset + 1 + |labels[0]|)
    ensures ValidLabels(labels[1..]) && LabelsSize(labels) == |labels[0]| + 1 + LabelsSize(labels[1..])
    ensures buf[offset + 1 + |labels[0]|..] == EncodeLabels(labels[1..])
  {
    var l := labels[0];
    var rest := labels[1..];
    assert EncodeLabels(labels) == ([|l| as uint8] + ToBytes(l)) + EncodeLabels(rest);
    SliceParts(buf, offset, [|l| as uint8] + ToBytes(l), EncodeLabels(rest));
    SliceParts(buf, offset, [|l| as uint8], ToBytes(l));
    assert ValidLabel(labels[0]);
    LabelAt(buf, offset, l);
  }

  /** A name whose labels reach the end of the buffer without a terminating zero byte is
      returned without error, as the loop's end-of-buffer exit allows, for any labels and any
      bytes before them. */
  lemma DecodeNameUnterminated(prefix: Bytes, labels: seq<string>)
    requires ValidLabels(labels) && LabelsSize(labels) <= MAX_NAME_LENGTH
    ensures DecodeName(prefix + EncodeLabels(labels), |prefix|) == Ok((Join(labels), |prefix| + LabelsSize(labels)))
  {
    hide DecodeNameLoop, NameStep, EncodeLabels;
    var buf := prefix + EncodeLabels(labels);
    assert buf[|prefix|..] == EncodeLabels(labels);
    UnterminatedLabels(buf, |prefix|, [], 0, labels);
    assert [] + labels == labels;
  }

  /** The loop stops after five pointers and returns what it has, without an error: a chain of
      six pointers (22 -> 20 -> 18 -> 16 -> 14 -> 12 -> ...) yields the empty name. */
  lemma DecodeNameJumpLimit()
    ensures DecodeName([0, 0, 0, 0, 0, 0, 0, 0, 0, 0, 0, 0,
                        0xC0, 12, 0xC0, 12, 0xC0, 14, 0xC0, 16, 0xC0, 18, 0xC0, 20], 22) == Ok(("", 24))
  {
    hide NameStep, DecodeNameLoop;
    var buf: Bytes := [0, 0, 0, 0, 0, 0, 0, 0, 0, 0, 0, 0,
                       0xC0, 12, 0xC0, 12, 0xC0, 14, 0xC0, 16, 0xC0, 18, 0xC0, 20];
    BackwardPointer(buf, 22);
    BackwardPointer(buf, 20);
    BackwardPointer(buf, 18);
    BackwardPointer(buf, 16);
    BackwardPointer(buf, 14);
    JumpStep(buf, 22, [], 0, 0, None, 20);
    JumpStep(buf, 20, [], 0, 1, Some(24), 18);
    JumpStep(buf, 18, [], 0, 2, Some(24), 16);
    JumpStep(buf, 16, [], 0, 3, Some(24), 14);
    JumpStep(buf, 14, [], 0, 4, Some(24), 12);
    JumpsExhausted(buf, 12, [], 0, 5, Some(24));
  }

  /** A pointer byte 0xC0 followed by an earlier position inside the buffer, past the header. */
  lemma BackwardPointer(buf: Bytes, offset: nat)
    requires offset + 1 < |buf| && buf[offset] == 0xC0
    requires HEADER_SIZE <= buf[offset + 1] < offset - 1
    ensures NameStep(buf, offset) == Jump(buf[offset + 1])
  {
  }

  /** Following one pointer. */
  lemma JumpStep(buf: Bytes, offset: nat, labels: seq<string>, total: nat, jumps: nat, resume: Option<nat>, target: nat)
    requires offset < |buf| && jumps < MAX_JUMPS && NameStep(buf, offset) == Jump(target)
    ensures DecodeNameLoop(buf, offset, labels, total, jumps, resume)
         == DecodeNameLoop(buf, target, labels, total, jumps + 1, if resume.None? then Some(offset + 2) else resume)
  {
  }

  /** After five pointers the loop stops where it is, without an error. */
  lemma JumpsExhausted(buf: Bytes, offset: nat, labels: seq<string>, total: nat, jumps: nat, resume: Option<nat>)
    requires jumps >= MAX_JUMPS
    ensures DecodeNameLoop(buf, offset, labels, total, jumps, resume) == Ok((labels, Resume(resume, offset)))
  {
  }

}
