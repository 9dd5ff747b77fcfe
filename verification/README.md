# dns-resolver-go: the DNS message codec, modelled in Dafny

`dns-resolver-go` is a small DNS client. It builds one query for
`dns.google.com` (type A, class IN), sends it to a root server, and reads the
reply in one of two ways. If the reply has no answers but has authority
records, it reads the first one as an NS record. Otherwise it reads the
answer section as A records. This project models the byte-level codec behind
that flow. It covers:

- name encoding and decoding (`encodeHost`, `decodeHost`, `domainLength`);
- big-endian field packing (`uint16ToByteSlice`, `packUint16Fields`);
- the header (`packHeader`, `unpackResponseHeader`, `checkResponse`);
- the question and the query (`packQuestion`, `packMessage`);
- the answer and authority sections (`extractAnswers`, `unpackAnswers`,
  `extractAuthorityAnswer`, `unpackAuthorityAnswer`, `decodeIP`).

The model follows the code as written, quirks included:

- The name scan behind a compression pointer reads its later length bytes
  relative to offset 12, not relative to the pointer's target.
- A pointer is recognised only when the 16-bit value is strictly above 49152.
- `checkResponse` rejects flags below 32767 rather than testing the QR bit.
- Label lengths are written as `byte(len)`, so they wrap modulo 256.
- `12 + RDLength` is a 16-bit sum and wraps modulo 65536.

Lemmas state the consequences of these quirks next to the behaviour that was
evidently intended.

Each Go run-time panic (index or slice out of range, division by zero) is
modelled as `None` of `Wire.Option`. The model does not turn a panic into a
precondition. Bytes are integers in `[0, 256)`, and `uint16`/`uint32` are
bounded integers. Go strings are byte sequences.

Files:

- `wire.dfy`: bytes, big-endian fields, `Option`.
- `names.dfy`: `strings.Split`/`Join` on `.`, and name encoding and decoding.
- `message.dfy`: the header, the question, the query, and the response check.
- `records.dfy`: the answer and authority sections.
- `responses.dfy`: an encoder for well-formed responses and round trips
  through the decoders.

## Model

| member | source | states |
|---|---|---|
| `Wire.U16Bytes` | main.go:166-173 | two bytes, most significant first, that read back as the number |
| `Wire.U16BytesOfRead` | main.go:166-173 | the other direction: two bytes read as a number and written back are the same bytes |
| `Wire.PackU16Fields` | main.go:94-102 | the output has two bytes per field, and field `i` reads back at offset `2*i` |
| `Names.Split` | main.go:128 | `strings.Split(host, ".")`: at least one part, no part contains a dot, and joining the parts with dots gives the host back |
| `Names.SplitJoin` | main.go:128 | splitting the dot-join of dot-free parts gives those parts back |
| `Names.EncodeHost` | main.go:122-137 | the encoding is two bytes longer than the host and ends in the zero byte |
| `Names.DomainLengthOfEncoded` | main.go:109-120 | `domainLength` of an encoded name, whatever follows it, is the encoding's full length |
| `Names.DomainLength` | main.go:109-120 | a found length lies inside the message and ends on a zero byte; an empty message or a scan off the end is a panic |
| `Names.DomainLengthLocal` | main.go:109-120 | the length depends only on the name's own bytes, not on what follows them |
| `Names.DecodeEncodeHost` | main.go:139-160 | decoding the encoding of a host gives the host back, when every section is 1..255 bytes long |
| `Names.DecodeHostSafe` | main.go:139-160 | `decodeHost` goes through exactly when `domainLength` of the same bytes does, because its slicing loop cannot fail after its scan |
| `Names.EmptySectionTruncates` | main.go:128-131 | an empty section (`a..b`) is encoded as a zero length byte, and decoding stops there: `a..b` comes back as `a` |
| `Names.LongSectionWraps` | main.go:129 | a 256-byte section gets the length byte `byte(256) == 0`, which ends the name early: the host decodes to the empty string |
| `Names.DnsGoogleComEncoding` | main.go:123-124 | `dns.google.com` encodes to the bytes given in the source's comment |
| `Names.DnsGoogleComDecoding` | main.go:139-160 | those bytes decode back to `dns.google.com` |
| `Message.PackHeader` | main.go:42-46 | twelve bytes, with id, flags and the four counts readable, in that order, at offsets 0 to 10 |
| `Message.UnpackResponseHeader` | main.go:175-189 | a header is read exactly when the message has at least 12 bytes; shorter messages panic |
| `Message.UnpackPackHeader` | main.go:175-189 | unpacking a packed header, whatever follows it, gives the header back |
| `Message.PackUnpackHeader` | main.go:175-189 | packing an unpacked header gives back the message's first 12 bytes |
| `Message.PackQuestion` | main.go:23-31 | the name, then the big-endian type and class right behind it |
| `Message.QueryLayout` | main.go:63-70 | a packed query is the header, then the name, then type and class, and its header reads back |
| `Message.CheckResponse` | main.go:48-56 | a response is rejected exactly when its flags are below 32767 |
| `Message.CheckResponseVersusQR` | main.go:50-52 | the threshold accepts every flags value with the QR bit set, plus one value, 32767, whose QR bit is clear |
| `Message.CheckResponseAcceptsQuery32767` | main.go:50-52 | flags 32767 have the QR bit clear yet pass the check |
| `Message.FixedQueryBytes` | main.go:331-357 | the exact 32 bytes of the query the program sends; the check would reject that message if it came back unchanged |
| `Records.AfterQuestion` | main.go:231-245 | the offset after the echoed question lies inside the message, 5 bytes past the name's closing zero; a message starting with the root name has one exactly when it holds the 4 type and class bytes |
| `Records.ExtractAuthorityAnswer` | main.go:191-194 | succeeds exactly when the question can be skipped, and then yields a suffix of the message that leaves out at least the 5 bytes of the shortest question |
| `Records.SplitAnswerRegion` | main.go:245-262 | the loop over `separator`, `count` and `part` cuts consecutive chunks of `len/n` bytes from offset 0, as many as fit, and none when `len/n` is 0 |
| `Records.ExtractAnswers` | main.go:228-263 | succeeds exactly when the question scan and slice stay in range and at least one answer is announced; zero answers is a division by zero |
| `Records.EvenChunksExact` | main.go:247-260 | when `n` divides the region's length and the region holds at least `n` bytes, there are exactly `n` chunks and together they are the region |
| `Records.FlattenChunks` | main.go:247-260 | cutting a concatenation of `L`-byte chunks at size `L` gives the chunks back |
| `Records.DecodeIP` | main.go:162-164 | the first four bytes of the data; fewer than four is a panic |
| `Records.PointerNameAtQuestion` | main.go:271-284 | for a pointer to offset 12 the scan finds exactly the name the pointer denotes |
| `Records.PointerNameElsewhere` | main.go:271-284 | for a pointer to another offset the scan can miss the name: a message where the pointed-to name is `c` but the scan panics |
| `Records.UnpackAnswers` | main.go:265-300 | never more records than chunks |
| `Records.UnpackAnswersSafe` | main.go:265-300 | goes through exactly when every chunk has its first two bytes and every pointer chunk decodes |
| `Records.UnpackAnswersRecords` | main.go:265-300 | one record per chunk whose first 16 bits exceed 49152, in order, each the decoding of that chunk; other chunks are dropped |
| `Records.PointerToZeroDropped` | main.go:270-271 | a pointer to offset 0 (exactly 49152) is not seen as a pointer, and its chunk is dropped |
| `Records.UnpackAuthorityAnswer` | main.go:196-225 | a section with two bytes and no pointer gives the zero NS record; any result needs two bytes |
| `Responses.QuestionNameFromPointer` | main.go:271-287 | in a response that echoes the question, a pointer to offset 12 decodes to the queried host |
| `Responses.DecodeEncodedEnvelope` | main.go:286-292 | a record's type, class, TTL, data length and data decode from the fixed offsets they were written at |
| `Responses.DecodeEncodedIPv4Record` | main.go:286-293 | an A record, written as a 16-byte pointer chunk, decodes back to itself |
| `Responses.ResponseLayout` | main.go:361-362 | in a response that echoes the question, the header reads back and the records start right after the question |
| `Responses.UnpackEncodedAnswers` | main.go:265-300 | unpacking the chunks written for A records gives the records back |
| `Responses.AnswersRoundTrip` | main.go:375-377 | for `n >= 1` A answers, the header reads back, the answer region splits into exactly the `n` written chunks, and they unpack into the records |
| `Responses.AuthorityRoundTrip` | main.go:368-370 | an NS record written after the echoed question is extracted, and unpacked back into itself, whatever follows it |

## Left out

- `sendMessage` (UDP to a root server on port 53) is network I/O. It is not
  modelled. The response is a parameter of the decoders.
- `main` is modelled only through the query it builds (`Message.FixedQueryBytes`).
  Its printing and its choice between the authority path and the answer path
  are not modelled. The round-trip lemmas in `responses.dfy` follow those two
  paths.
- `generateQueryID` draws a random number and is not called. The query id is the constant 22.
- `net.IPv4` is not modelled. An address is kept as its four raw bytes (`Records.IPv4`).
- `strings.Split` and `strings.Join` are modelled only for the single-byte
  separator `.`, by their defining property. Their internals are not modelled.
- Go slice capacity is not modelled. Go lets `s[i:j]` reach past `len(s)` up
  to `cap(s)`. The chunks and the response are slices of a larger read buffer,
  so the source may succeed where the model treats the same slice as out of
  range and yields `None`.
- Go strings are kept as byte sequences. No UTF-8 conversion is modelled.
- `Records.UnpackAnswers`: its own contract states only a bound. The full
  description (which chunks give records, and which records) is in
  `Records.UnpackAnswersSafe` and `Records.UnpackAnswersRecords`.
- `Records.UnpackAuthorityAnswer`: its own contract covers the non-pointer
  and panic cases. The pointer case is stated by `Responses.AuthorityRoundTrip`
  for well-formed responses only.
- `Names.EncodeHost`: its own contract states the length and the final zero.
  Its meaning is given by `Names.DecodeEncodeHost` and
  `Names.DomainLengthOfEncoded`, which need every section to be 1 to 255 bytes
  long. Longer sections wrap their length byte. `Names.LongSectionWraps`
  shows one consequence for a 256-byte section. No general lemma covers
  other lengths.
