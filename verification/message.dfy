/** The message header (RFC 1035, section 4.1.1), the question (section
    4.1.2) and the assembly of a query: `packHeader`,
    `unpackResponseHeader`, `packQuestion`, `packMessage` and
    `checkResponse`. */
module Message {
  import opened Wire
  import opened Names

  /** `dnsHeader`: the six 16-bit header fields. */
  datatype Header = Header(
    id: U16,
    flags: U16,
    numQuestions: U16,
    numAnswers: U16,
    numAuthorityRR: U16,
    numAdditionalRR: U16)

  /** `dnsQuestion`: an already encoded name, its type and its class. */
  datatype Question = Question(qName: seq<Byte>, qType: U16, qClass: U16)

  /** The size of the header on the wire. */
  const HeaderSize := 12

  /** The header fields in wire order. */
  function Fields(h: Header): seq<U16>
  {
    [h.id, h.flags, h.numQuestions, h.numAnswers, h.numAuthorityRR, h.numAdditionalRR]
  }

  /** `packHeader`: twelve bytes holding, big-endian, `id`, `flags` and the
      four counts in that order. */
  function PackHeader(h: Header): (r: seq<Byte>)
    ensures |r| == HeaderSize
    ensures ReadU16(r, 0) == h.id && ReadU16(r, 2) == h.flags
    ensures ReadU16(r, 4) == h.numQuestions && ReadU16(r, 6) == h.numAnswers
    ensures ReadU16(r, 8) == h.numAuthorityRR && ReadU16(r, 10) == h.numAdditionalRR
  {
    var r := PackU16Fields(Fields(h));
    assert ReadU16(r, 2 * 5) == Fields(h)[5];
    assert ReadU16(r, 2 * 4) == Fields(h)[4];
    assert ReadU16(r, 2 * 3) == Fields(h)[3];
    assert ReadU16(r, 2 * 2) == Fields(h)[2];
    assert ReadU16(r, 2 * 1) == Fields(h)[1];
    assert ReadU16(r, 2 * 0) == Fields(h)[0];
    r
  }

  /** `unpackResponseHeader`: the header read from the first twelve bytes;
      `None` when the message is shorter, where `message[:12]` fails. */
  function UnpackResponseHeader(m: seq<Byte>): (r: Option<Header>)
    ensures r.Some? <==> |m| >= HeaderSize
  {
    if |m| < HeaderSize then None
    else Some(Header(ReadU16(m, 0), ReadU16(m, 2), ReadU16(m, 4),
                     ReadU16(m, 6), ReadU16(m, 8), ReadU16(m, 10)))
  }

  /** Round trip: unpacking a packed header, whatever follows it, gives the
      header back. */
  lemma UnpackPackHeader(h: Header, suffix: seq<Byte>)
    ensures UnpackResponseHeader(PackHeader(h) + suffix) == Some(h)
  {
    var m := PackHeader(h) + suffix;
    var p := PackHeader(h);
    assert m[..HeaderSize] == p;
    forall i | 0 <= i <= 10
      ensures ReadU16(m, i) == ReadU16(p, i)
    {
      assert m[i] == p[i] && m[i + 1] == p[i + 1];
    }
  }

  /** The other direction: packing the unpacked header reproduces the first
      twelve bytes of any message long enough to hold one. */
  lemma PackUnpackHeader(m: seq<Byte>)
    requires |m| >= HeaderSize
    ensures PackHeader(UnpackResponseHeader(m).value) == m[..HeaderSize]
  {
    var h := UnpackResponseHeader(m).value;
    var p := PackHeader(h);
    forall k | 0 <= k < 6
      ensures p[2 * k] == m[2 * k] && p[2 * k + 1] == m[2 * k + 1]
    {
      assert ReadU16(p, 2 * k) == ReadU16(m, 2 * k);
    }
    forall i | 0 <= i < HeaderSize
      ensures p[i] == m[i]
    {
      var k := i / 2;
      assert i == 2 * k || i == 2 * k + 1;
    }
  }

  /** `packQuestion`: the encoded name, then the big-endian type and class,
      so that type and class can be read back right behind the name. */
  function PackQuestion(q: Question): (r: seq<Byte>)
    ensures |r| == |q.qName| + 4
    ensures r[..|q.qName|] == q.qName
    ensures ReadU16(r, |q.qName|) == q.qType
    ensures ReadU16(r, |q.qName| + 2) == q.qClass
  {
    var r := q.qName + U16Bytes(q.qType) + U16Bytes(q.qClass);
    ReadU16Shift(q.qName, U16Bytes(q.qType) + U16Bytes(q.qClass), 0);
    ReadU16Shift(q.qName + U16Bytes(q.qType), U16Bytes(q.qClass), 0);
    r
  }

  /** `packMessage`: the packed header followed by the packed question. */
  function PackMessage(header: seq<Byte>, question: seq<Byte>): seq<Byte>
  {
    header + question
  }

  /** The layout of a query: the header, then `qName`, then the big-endian
      type and class, nothing added and nothing reordered. Reading it back as
      a response gives the header again. */
  lemma QueryLayout(h: Header, q: Question)
    ensures var m := PackMessage(PackHeader(h), PackQuestion(q));
            && |m| == HeaderSize + |q.qName| + 4
            && UnpackResponseHeader(m) == Some(h)
            && m[HeaderSize..HeaderSize + |q.qName|] == q.qName
            && ReadU16(m, HeaderSize + |q.qName|) == q.qType
            && ReadU16(m, HeaderSize + |q.qName| + 2) == q.qClass
  {
    var p := PackHeader(h);
    var qb := PackQuestion(q);
    var m := PackMessage(p, qb);
    UnpackPackHeader(h, qb);
    assert m[HeaderSize..HeaderSize + |q.qName|] == qb[..|q.qName|];
    ReadU16Shift(p, qb, |q.qName|);
    ReadU16Shift(p, qb, |q.qName| + 2);
  }

  /** The outcome of `checkResponse`: no error, or the error
      "No response from DNS server". */
  datatype Check = Accepted | NoResponse

  /** `checkResponse`: meant to test the QR bit (bit 15 of `flags`), it
      rejects exactly the flags below 32767. */
  function CheckResponse(h: Header): (r: Check)
    ensures r == NoResponse <==> h.flags < 0x7FFF
  {
    if h.flags < 32767 then NoResponse else Accepted
  }

  /** Bit 15 of a 16-bit word: the QR bit of the header flags, set in every
      response (RFC 1035, section 4.1.1). */
  predicate QRBit(flags: U16)
  {
    (flags / 0x8000) % 2 == 1
  }

  /** The numeric threshold agrees with the QR bit except at one value:
      every flags word with bit 15 set is accepted, and so is 32767, whose
      bit 15 is clear. */
  lemma CheckResponseVersusQR(h: Header)
    ensures CheckResponse(h) == Accepted <==> (QRBit(h.flags) || h.flags == 0x7FFF)
  {
  }

  /** 32767 has the QR bit clear yet passes the check. */
  lemma CheckResponseAcceptsQuery32767()
    ensures !QRBit(0x7FFF)
    ensures CheckResponse(Header(22, 0x7FFF, 1, 0, 0, 0)) == Accepted
  {
  }

  /** The query the program sends: id 22, flags 0, one question for
      `dns.google.com` of type A (1) and class IN (1). */
  const QueryHeader := Header(22, 0, 1, 0, 0, 0)

  const QueryQuestion := Question(EncodeHost(DnsGoogleCom), 1, 1)

  /** The header of the query, byte by byte. */
  lemma QueryHeaderBytes()
    ensures PackHeader(QueryHeader) == [0, 22, 0, 0, 0, 1, 0, 0, 0, 0, 0, 0]
  {
    var fields := Fields(QueryHeader);
    assert PackU16Fields(fields[5..]) == [0, 0];
    assert PackU16Fields(fields[4..]) == [0, 0, 0, 0];
    assert PackU16Fields(fields[3..]) == [0, 0, 0, 0, 0, 0];
    assert PackU16Fields(fields[2..]) == [0, 1, 0, 0, 0, 0, 0, 0];
    assert PackU16Fields(fields[1..]) == [0, 0, 0, 1, 0, 0, 0, 0, 0, 0];
  }

  /** The query's exact bytes, and the fact that the check would reject
      this very message if it came back unchanged, since its flags are 0. */
  lemma FixedQueryBytes()
    ensures PackMessage(PackHeader(QueryHeader), PackQuestion(QueryQuestion))
         == [0, 22, 0, 0, 0, 1, 0, 0, 0, 0, 0, 0]
          + [3, 100, 110, 115, 6, 103, 111, 111, 103, 108, 101, 3, 99, 111, 109, 0]
          + [0, 1, 0, 1]
    ensures CheckResponse(QueryHeader) == NoResponse
  {
    DnsGoogleComEncoding();
    QueryHeaderBytes();
    assert PackQuestion(QueryQuestion) == DnsGoogleComEncoded + U16Bytes(1) + U16Bytes(1);
  }
}
