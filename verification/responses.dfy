/** Round trips through the response decoders. A response of the shape the
    program expects is written out here: the header, the echoed question,
    and records whose owner name is a compression pointer to the question's
    name at offset 12 (RFC 1035, sections 4.1.3 and 4.1.4). The decoders
    give back exactly what was written. */
module Responses {
  import opened Wire
  import opened Names
  import opened Message
  import opened Records

  /** A compression pointer to offset 12, where the question's name starts. */
  const PointerToQuestion: seq<Byte> := [0xC0, 0x0C]

  /** The bytes of a record: the pointer as owner name, then type, class,
      TTL, data length, each big-endian, then the given data. */
  function EncodeEnvelope<D>(r: Record<D>, data: seq<Byte>): (b: seq<Byte>)
    ensures |b| == 12 + |data|
  {
    PointerToQuestion + U16Bytes(r.recordType) + U16Bytes(r.recordClass)
      + U32Bytes(r.ttl) + U16Bytes(r.rdLength) + data
  }

  /** The bytes of an address record. */
  function EncodeIPv4Record(r: Record<IPv4>): (b: seq<Byte>)
    ensures |b| == 16
  {
    EncodeEnvelope(r, [r.rdData.a, r.rdData.b, r.rdData.c, r.rdData.d])
  }

  /** The bytes of a name-server record: the target host encoded as a name. */
  function EncodeNSRecord(r: Record<seq<Byte>>): seq<Byte>
  {
    EncodeEnvelope(r, EncodeHost(r.rdData))
  }

  /** The answer chunks for some address records. */
  function EncodeAnswers(rs: seq<Record<IPv4>>): (cs: seq<seq<Byte>>)
    ensures |cs| == |rs|
    ensures forall i :: 0 <= i < |cs| ==> |cs[i]| == 16
  {
    if |rs| == 0 then [] else [EncodeIPv4Record(rs[0])] + EncodeAnswers(rs[1..])
  }

  /** A response echoing the question for `host`, followed by `records`. */
  function Response(h: Header, host: seq<Byte>, qType: U16, qClass: U16, records: seq<Byte>): seq<Byte>
  {
    PackMessage(PackHeader(h), PackQuestion(Question(EncodeHost(host), qType, qClass))) + records
  }

  /** Reading a 16-bit field that was written at offset `|x|`. */
  lemma ReadU16At(x: seq<Byte>, v: U16, y: seq<Byte>)
    ensures ReadU16(x + U16Bytes(v) + y, |x|) == v
  {
    var s := x + U16Bytes(v) + y;
    assert s[|x|] == U16Bytes(v)[0] && s[|x| + 1] == U16Bytes(v)[1];
  }

  /** Reading a 32-bit field that was written at offset `|x|`. */
  lemma ReadU32At(x: seq<Byte>, v: U32, y: seq<Byte>)
    ensures ReadU32(x + U32Bytes(v) + y, |x|) == v
  {
    var s := x + U32Bytes(v) + y;
    var b := U32Bytes(v);
    assert s[|x|] == b[0] && s[|x| + 1] == b[1] && s[|x| + 2] == b[2] && s[|x| + 3] == b[3];
  }

  /** What follows the header of a response built as above: the encoded
      host, then type, class and the records. */
  lemma ResponseBody(h: Header, host: seq<Byte>, qType: U16, qClass: U16, records: seq<Byte>)
    ensures Response(h, host, qType, qClass, records)[HeaderSize..]
         == EncodeHost(host) + (U16Bytes(qType) + U16Bytes(qClass) + records)
  {
    var q := PackQuestion(Question(EncodeHost(host), qType, qClass));
    assert q + records == EncodeHost(host) + (U16Bytes(qType) + U16Bytes(qClass) + records);
    assert (PackHeader(h) + (q + records))[HeaderSize..] == q + records;
  }

  /** A pointer to the question's name, in a response built as above,
      denotes the queried host. */
  lemma QuestionNameFromPointer(h: Header, host: seq<Byte>, qType: U16, qClass: U16, records: seq<Byte>)
    requires ValidHost(host)
    ensures PointerName(Response(h, host, qType, qClass, records), HeaderSize) == Some(host)
  {
    var m := Response(h, host, qType, qClass, records);
    var e := EncodeHost(host);
    var tail := U16Bytes(qType) + U16Bytes(qClass) + records;
    ResponseBody(h, host, qType, qClass, records);
    PointerNameAtQuestion(m);
    DomainLengthOfEncoded(host, tail);
    assert DomainLength(m[HeaderSize..]) == Some(|e|);
    assert m[HeaderSize..HeaderSize + |e|] == (e + tail)[..|e|] == e;
    DecodeEncodeHost(host);
  }

  /** The envelope written above decodes to the record it was written from,
      whatever follows it, as long as the pointer denotes the record's name. */
  lemma DecodeEncodedEnvelope<D>(m: seq<Byte>, r: Record<D>, data: seq<Byte>, more: seq<Byte>)
    requires PointerName(m, HeaderSize) == Some(r.name)
    requires r.rdLength == |data| && 12 + |data| < 0x1_0000
    ensures IsPointer(EncodeEnvelope(r, data) + more)
    ensures DecodeEnvelope(m, EncodeEnvelope(r, data) + more)
         == Some(Record(r.name, r.recordType, r.recordClass, r.ttl, r.rdLength, data))
  {
    var t := U16Bytes(r.recordType);
    var c := U16Bytes(r.recordClass);
    var l := U32Bytes(r.ttl);
    var d := U16Bytes(r.rdLength);
    var a := EncodeEnvelope(r, data) + more;
    assert a == PointerToQuestion + t + c + l + d + (data + more);
    assert a[0] == 0xC0 && a[1] == 0x0C;
    assert ReadU16(a, 0) == 0xC00C;
    ReadU16At(PointerToQuestion, r.recordType, c + l + d + (data + more));
    ReadU16At(PointerToQuestion + t, r.recordClass, l + d + (data + more));
    ReadU32At(PointerToQuestion + t + c, r.ttl, d + (data + more));
    ReadU16At(PointerToQuestion + t + c + l, r.rdLength, data + more);
    assert a[12..12 + |data|] == data;
  }

  /** Each address record written as a chunk decodes back to itself. */
  lemma DecodeEncodedIPv4Record(m: seq<Byte>, r: Record<IPv4>)
    requires PointerName(m, HeaderSize) == Some(r.name)
    requires r.rdLength == 4
    ensures IsPointer(EncodeIPv4Record(r))
    ensures DecodeIPv4Record(m, EncodeIPv4Record(r)) == Some(r)
  {
    var data := [r.rdData.a, r.rdData.b, r.rdData.c, r.rdData.d];
    DecodeEncodedEnvelope(m, r, data, []);
    assert EncodeEnvelope(r, data) + [] == EncodeIPv4Record(r);
  }

  /** Unpacking the written chunks gives back the records. */
  lemma {:induction false} UnpackEncodedAnswers(m: seq<Byte>, host: seq<Byte>, rs: seq<Record<IPv4>>)
    requires PointerName(m, HeaderSize) == Some(host)
    requires forall i :: 0 <= i < |rs| ==> rs[i].name == host && rs[i].rdLength == 4
    ensures UnpackAnswers(m, EncodeAnswers(rs)) == Some(rs)
    decreases |rs|
  {
    if |rs| > 0 {
      UnpackEncodedAnswers(m, host, rs[1..]);
      DecodeEncodedIPv4Record(m, rs[0]);
      var cs := EncodeAnswers(rs);
      assert cs[1..] == EncodeAnswers(rs[1..]);
      assert UnpackChunk(m, cs[0]) == Some([rs[0]]);
      assert [rs[0]] + rs[1..] == rs;
    }
  }

  /** Where the records start in a response built as above: the header
      reads back, and the question is skipped exactly. */
  lemma ResponseLayout(h: Header, host: seq<Byte>, qType: U16, qClass: U16, records: seq<Byte>)
    requires ValidHost(host)
    ensures var m := Response(h, host, qType, qClass, records);
            && UnpackResponseHeader(m) == Some(h)
            && AfterQuestion(m[HeaderSize..]).Some?
            && m[HeaderSize..][AfterQuestion(m[HeaderSize..]).value..] == records
  {
    var e := EncodeHost(host);
    var tail := U16Bytes(qType) + U16Bytes(qClass) + records;
    var body := e + tail;
    var m := Response(h, host, qType, qClass, records);
    ResponseBody(h, host, qType, qClass, records);
    assert m == PackHeader(h) + m[HeaderSize..];
    UnpackPackHeader(h, body);
    DomainLengthOfEncoded(host, tail);
    assert AfterQuestion(body) == Some(|e| + 4);
    assert body[|e| + 4..] == records;
  }

  /** The answer region written for `n >= 1` records is cut back into the
      same `n` chunks. */
  lemma EvenChunksOfEncoded(rs: seq<Record<IPv4>>)
    requires |rs| >= 1
    ensures EvenChunks(Flatten(EncodeAnswers(rs)), |rs|) == EncodeAnswers(rs)
  {
    var cs := EncodeAnswers(rs);
    FlattenChunks(cs, 16);
    DivUnique(|Flatten(cs)|, |rs|, 16, 0);
  }

  /** Round trip for the answer path: a response announcing `n >= 1`
      address answers for the queried host, each 16 bytes with a pointer to
      the question, has its header read back, its answer region cut into
      exactly those `n` chunks, and the chunks unpacked into the records. */
  lemma AnswersRoundTrip(h: Header, host: seq<Byte>, qType: U16, qClass: U16, rs: seq<Record<IPv4>>)
    requires ValidHost(host)
    requires |rs| >= 1 && h.numAnswers == |rs|
    requires forall i :: 0 <= i < |rs| ==> rs[i].name == host && rs[i].rdLength == 4
    ensures var m := Response(h, host, qType, qClass, Flatten(EncodeAnswers(rs)));
            && UnpackResponseHeader(m) == Some(h)
            && ExtractAnswers(m[HeaderSize..], h.numAnswers) == Some(EncodeAnswers(rs))
            && UnpackAnswers(m, EncodeAnswers(rs)) == Some(rs)
  {
    var region := Flatten(EncodeAnswers(rs));
    var m := Response(h, host, qType, qClass, region);
    ResponseLayout(h, host, qType, qClass, region);
    EvenChunksOfEncoded(rs);
    QuestionNameFromPointer(h, host, qType, qClass, region);
    UnpackEncodedAnswers(m, host, rs);
  }

  /** Round trip for the referral path: a response whose authority section
      starts with a name-server record for the queried host, pointing to the
      question and carrying an encoded target host, yields that record,
      whatever follows it. */
  lemma AuthorityRoundTrip(h: Header, host: seq<Byte>, qType: U16, qClass: U16,
                           ns: Record<seq<Byte>>, more: seq<Byte>)
    requires ValidHost(host) && ValidHost(ns.rdData)
    requires ns.name == host && ns.rdLength == |EncodeHost(ns.rdData)|
    requires 12 + ns.rdLength < 0x1_0000
    ensures var m := Response(h, host, qType, qClass, EncodeNSRecord(ns) + more);
            && ExtractAuthorityAnswer(m[HeaderSize..]) == Some(EncodeNSRecord(ns) + more)
            && UnpackAuthorityAnswer(m, EncodeNSRecord(ns) + more) == Some(ns)
  {
    var a := EncodeNSRecord(ns) + more;
    var m := Response(h, host, qType, qClass, a);
    ResponseLayout(h, host, qType, qClass, a);
    QuestionNameFromPointer(h, host, qType, qClass, a);
    DecodeEncodedEnvelope(m, ns, EncodeHost(ns.rdData), more);
    DecodeEncodeHost(ns.rdData);
  }
}
