/** The answer and authority sections of a response (RFC 1035, sections
    4.1.3 and 4.1.4), as this program reads them: skip the echoed question,
    cut the rest into equal chunks, and decode each chunk that starts with a
    compression pointer at fixed offsets. Models `extractAuthorityAnswer`,
    `extractAnswers`, `unpackAnswers`, `unpackAuthorityAnswer` and `decodeIP`. */
module Records {
  import opened Wire
  import opened Names
  import opened Message

  /** A 16-bit name field above this value is taken to be a compression
      pointer (its two top bits are set); the pointer's offset is the value
      minus this base. The comparison is strict, as in the source. */
  const PointerBase: U16 := 49152

  /** An IPv4 address, kept as its four raw bytes. */
  datatype IPv4 = IPv4(a: Byte, b: Byte, c: Byte, d: Byte)

  /** The fields shared by `resourceRecordIPv4` and `resourceRecordNS`;
      `rdData` is an address for the former and a host for the latter. */
  datatype Record<D> = Record(
    name: seq<Byte>,
    recordType: U16,
    recordClass: U16,
    ttl: U32,
    rdLength: U16,
    rdData: D)

  /** The zero value `resourceRecordNS{}`. */
  const ZeroNS: Record<seq<Byte>> := Record([], 0, 0, 0, 0, [])

  // ---------------------------------------------------------------------
  // Skipping the question and cutting the answer region
  // ---------------------------------------------------------------------

  /** The offset, in a response without its header, of the first byte after
      the echoed question: its name, then four bytes of type and class.
      `None` when the name scan or the slice there runs out of range. */
  function AfterQuestion(m: seq<Byte>): (r: Option<nat>)
    ensures r.Some? ==> 5 <= r.value <= |m| && m[r.value - 5] == 0
    ensures |m| >= 1 && m[0] == 0 ==> (r.Some? <==> |m| >= 5)
  {
    match DomainLength(m)
    case None => None
    case Some(n) => if n + 4 <= |m| then Some(n + 4) else None
  }

  /** `extractAuthorityAnswer`: everything after the echoed question. */
  function ExtractAuthorityAnswer(m: seq<Byte>): (r: Option<seq<Byte>>)
    ensures r.Some? <==> AfterQuestion(m).Some?
    ensures r.Some? ==> |r.value| <= |m| - 5 && r.value == m[|m| - |r.value|..]
  {
    match AfterQuestion(m)
    case None => None
    case Some(q) => Some(m[q..])
  }

  /** `(k + 1) * L` is `k * L + L`. */
  lemma MulSucc(k: int, L: int)
    ensures (k + 1) * L == k * L + L
  {
  }

  /** Multiplying by a natural keeps the order. */
  lemma MulMono(a: nat, b: nat, L: nat)
    requires a <= b
    ensures a * L <= b * L
  {
    assert b * L == a * L + (b - a) * L;
  }

  /** If `n == q * L + r` with `0 <= r < L`, then `q` is `n / L`. */
  lemma DivUnique(n: nat, L: nat, q: nat, r: nat)
    requires L >= 1 && r < L && n == q * L + r
    ensures n / L == q
  {
    var q' := n / L;
    assert n == q' * L + n % L;
    if q' > q {
      MulMono(q + 1, q', L);
      MulSucc(q, L);
      assert false;
    } else if q' < q {
      MulMono(q' + 1, q, L);
      MulSucc(q', L);
      assert false;
    }
  }

  /** `cs` cuts `region` into consecutive, non-overlapping chunks of exactly
      `L` bytes from offset 0, as many as fit: together they are a prefix of
      the region, and what is left is shorter than one chunk. */
  ghost predicate Chunked(region: seq<Byte>, cs: seq<seq<Byte>>, L: nat)
  {
    && (forall k :: 0 <= k < |cs| ==> |cs[k]| == L)
    && |Flatten(cs)| <= |region|
    && Flatten(cs) == region[..|Flatten(cs)|]
    && |region| - |Flatten(cs)| < L
  }

  /** The chunks of `L` bytes cut from the start of `region`. */
  function Chunks(region: seq<Byte>, L: nat): (r: seq<seq<Byte>>)
    requires L >= 1
    ensures Chunked(region, r, L)
    decreases |region|
  {
    if |region| < L then []
    else
      var rest := Chunks(region[L..], L);
      var r := [region[..L]] + rest;
      assert r[1..] == rest;
      assert Flatten(r) == region[..L] + Flatten(rest);
      assert region[..L] + region[L..][..|Flatten(rest)|] == region[..L + |Flatten(rest)|];
      r
  }

  /** Chunks of equal length `L` have `L` bytes each in their concatenation. */
  lemma {:induction false} FlattenLength(cs: seq<seq<Byte>>, L: nat)
    requires forall k :: 0 <= k < |cs| ==> |cs[k]| == L
    ensures |Flatten(cs)| == |cs| * L
    decreases |cs|
  {
    if |cs| > 0 {
      FlattenLength(cs[1..], L);
      MulSucc(|cs| - 1, L);
    }
  }

  /** Appending one chunk appends its bytes. */
  lemma {:induction false} FlattenSnoc(cs: seq<seq<Byte>>, c: seq<Byte>)
    ensures Flatten(cs + [c]) == Flatten(cs) + c
    decreases |cs|
  {
    if |cs| == 0 {
      assert Flatten([c]) == c + Flatten([]);
    } else {
      FlattenSnoc(cs[1..], c);
      assert (cs + [c])[1..] == cs[1..] + [c];
    }
  }

  /** There is only one way to cut a region into chunks of `L` bytes. */
  lemma {:induction false} ChunkedUnique(region: seq<Byte>, cs: seq<seq<Byte>>, L: nat)
    requires L >= 1 && Chunked(region, cs, L)
    ensures cs == Chunks(region, L)
    decreases |region|
  {
    if |cs| == 0 {
      assert |region| < L;
    } else {
      var f := Flatten(cs);
      assert f == cs[0] + Flatten(cs[1..]);
      assert |region| >= L;
      assert cs[0] == f[..L] == region[..L];
      assert Flatten(cs[1..]) == f[L..] == region[L..][..|Flatten(cs[1..])|];
      assert forall k :: 0 <= k < |cs[1..]| ==> |cs[1..][k]| == L by {
        forall k | 0 <= k < |cs[1..]| ensures |cs[1..][k]| == L {
          assert cs[1..][k] == cs[k + 1];
        }
      }
      ChunkedUnique(region[L..], cs[1..], L);
      assert [cs[0]] + cs[1..] == cs;
    }
  }

  /** There are `floor(|region| / L)` chunks. */
  lemma ChunkCount(region: seq<Byte>, L: nat)
    requires L >= 1
    ensures |Chunks(region, L)| == |region| / L
  {
    var cs := Chunks(region, L);
    FlattenLength(cs, L);
    DivUnique(|region|, L, |cs|, |region| - |Flatten(cs)|);
  }

  /** The chunks `extractAnswers` cuts for `n` answers: the chunk size is
      `|region| / n`; when that is zero no chunk is cut. */
  function EvenChunks(region: seq<Byte>, n: nat): seq<seq<Byte>>
    requires n >= 1
  {
    var L := |region| / n;
    if L == 0 then [] else Chunks(region, L)
  }

  /** The splitting loop of `extractAnswers`, step for step: with
      `separator == |region| / n - 1` it closes a chunk every time `count`
      reaches `separator`. It cuts the region into consecutive chunks of
      `|region| / n` bytes from offset 0, as many as fit, and cuts nothing
      when that size is zero. */
  method SplitAnswerRegion(region: seq<Byte>, n: nat) returns (answers: seq<seq<Byte>>)
    requires n >= 1
    ensures |region| / n == 0 ==> answers == []
    ensures |region| / n >= 1 ==> Chunked(region, answers, |region| / n)
    ensures answers == EvenChunks(region, n)
  {
    var separator: int := |region| / n - 1;
    var count := 0;
    var part := 0;
    answers := [];
    ghost var L := separator + 1;
    for index := 0 to |region|
      invariant separator < 0 ==> answers == [] && count == index
      invariant separator >= 0 ==> 0 <= count <= separator && index == part + count
      invariant separator >= 0 ==> forall k :: 0 <= k < |answers| ==> |answers[k]| == L
      invariant separator >= 0 ==> part == |Flatten(answers)| && Flatten(answers) == region[..part]
    {
      if count == separator {
        FlattenSnoc(answers, region[part..index + 1]);
        assert region[..part] + region[part..index + 1] == region[..index + 1];
        answers := answers + [region[part..index + 1]];
        count := 0;
        part := part + separator + 1;
        continue;
      }
      count := count + 1;
    }
    if L >= 1 {
      ChunkedUnique(region, answers, L);
    }
  }

  /** `extractAnswers`: skip the echoed question, then cut the rest into
      `responseAnswers` chunks of equal size. `None` where Go panics: a
      question scan or slice out of range, or a division by zero when no
      answer is announced. */
  function ExtractAnswers(m: seq<Byte>, responseAnswers: nat): (r: Option<seq<seq<Byte>>>)
    ensures r.Some? <==> AfterQuestion(m).Some? && responseAnswers >= 1
  {
    match AfterQuestion(m)
    case None => None
    case Some(q) =>
      if responseAnswers == 0 then None
      else Some(EvenChunks(m[q..], responseAnswers))
  }

  /** When `n` divides the region's length and the region holds at least `n`
      bytes, there are exactly `n` chunks and together they are the region. */
  lemma EvenChunksExact(region: seq<Byte>, n: nat)
    requires n >= 1 && |region| >= n && |region| % n == 0
    ensures |EvenChunks(region, n)| == n
    ensures Flatten(EvenChunks(region, n)) == region
  {
    var L := |region| / n;
    assert |region| == L * n;
    DivUnique(|region|, L, n, 0);
    var cs := Chunks(region, L);
    ChunkCount(region, L);
    FlattenLength(cs, L);
  }

  /** Cutting the concatenation of chunks that all have length `L` gives the
      chunks back. */
  lemma FlattenChunks(cs: seq<seq<Byte>>, L: nat)
    requires L >= 1
    requires forall i :: 0 <= i < |cs| ==> |cs[i]| == L
    ensures |Flatten(cs)| == |cs| * L
    ensures Chunks(Flatten(cs), L) == cs
  {
    FlattenLength(cs, L);
    ChunkedUnique(Flatten(cs), cs, L);
  }

  // ---------------------------------------------------------------------
  // Decoding one record
  // ---------------------------------------------------------------------

  /** A chunk whose first 16 bits exceed `PointerBase`. */
  predicate IsPointer(a: seq<Byte>)
  {
    |a| >= 2 && ReadU16(a, 0) > PointerBase
  }

  /** `decodeIP`: the first four bytes of the record data. */
  function DecodeIP(ip: seq<Byte>): (r: Option<IPv4>)
    ensures r.Some? <==> |ip| >= 4
  {
    if |ip| < 4 then None else Some(IPv4(ip[0], ip[1], ip[2], ip[3]))
  }

  /** The owner name of a record whose pointer names offset `ref`, as the
      source computes it: the first length byte is read at `ref`, but every
      later one at `12 + n`, that is relative to the question's name rather
      than to `ref`. The `n + 1` bytes from `ref` are then decoded. */
  function PointerName(m: seq<Byte>, ref: nat): Option<seq<Byte>>
  {
    if ref >= |m| then None
    else
      match Scan(m, HeaderSize, m[ref], 0)
      case None => None
      case Some(shifts) =>
        var n := Span(shifts);
        if ref + n + 1 <= |m| then DecodeHost(m[ref..ref + n + 1]) else None
  }

  /** The fixed-offset part of both record decoders: the owner name through
      the pointer, type at 2, class at 4, TTL at 6, data length at 10 and the
      data from 12, kept raw. The end of the data, `12 + RDLength`, is a
      16-bit sum in the source and wraps modulo 65536. */
  function DecodeEnvelope(m: seq<Byte>, a: seq<Byte>): Option<Record<seq<Byte>>>
    requires IsPointer(a)
  {
    match PointerName(m, ReadU16(a, 0) - PointerBase)
    case None => None
    case Some(name) =>
      if |a| < 12 then None
      else
        var rdLength := ReadU16(a, 10);
        var end := (12 + rdLength) % 0x1_0000;
        if end < 12 || end > |a| then None
        else Some(Record(name, ReadU16(a, 2), ReadU16(a, 4), ReadU32(a, 6), rdLength, a[12..end]))
  }

  /** The scan does not depend on the bytes before `base`. */
  lemma {:induction false} ScanRebase(m: seq<Byte>, base: nat, shift: Byte, acc: nat)
    requires base <= |m|
    ensures Scan(m, base, shift, acc) == Scan(m[base..], 0, shift, acc)
    decreases |m| - acc
  {
    if shift != 0 {
      var next := acc + shift + 1;
      if base + next < |m| {
        assert m[base..][next] == m[base + next];
        ScanRebase(m, base, m[base + next], next);
      }
    }
  }

  /** The name a pointer to `ref` denotes under section 4.1.4 of RFC 1035
      (without further pointers inside it): the encoded name starting at
      `ref`, scanned and decoded from there. */
  function NameAt(m: seq<Byte>, ref: nat): Option<seq<Byte>>
  {
    if ref >= |m| then None
    else
      match DomainLength(m[ref..])
      case None => None
      case Some(n) => DecodeHost(m[ref..ref + n])
  }

  /** For a pointer to offset 12, where the question's name starts, the
      source's scan finds the name the pointer denotes. */
  lemma PointerNameAtQuestion(m: seq<Byte>)
    ensures PointerName(m, HeaderSize) == NameAt(m, HeaderSize)
  {
    if HeaderSize < |m| {
      ScanRebase(m, HeaderSize, m[HeaderSize], 0);
    }
  }

  /** For a pointer to any other offset the scan measures the wrong name:
      here the question's name is `ab` and a second name `c` sits at offset
      20. The pointer to 20 denotes `c`, but the scan reads its later length
      bytes from offset 12 on, runs off the end and panics. */
  lemma PointerNameElsewhere()
    ensures var m: seq<Byte> := [0, 0, 0, 0, 0, 0, 0, 0, 0, 0, 0, 0] + [2, 97, 98, 0] + [0, 1, 0, 1] + [1, 99, 0];
            && NameAt(m, 20) == Some([99])
            && PointerName(m, 20) == None
  {
    var m: seq<Byte> := [0, 0, 0, 0, 0, 0, 0, 0, 0, 0, 0, 0] + [2, 97, 98, 0] + [0, 1, 0, 1] + [1, 99, 0];
    assert m[20] == 1 && m[14] == 98;
    assert Scan(m, HeaderSize, 98, 2) == None;
    assert Scan(m, HeaderSize, m[20], 0) == None;
    var c: seq<Byte> := [1, 99, 0];
    assert m[20..] == c && m[20..23] == c;
    assert Scan(c, 0, c[2], 2) == Some([]);
    ScanStep(c, 0, 1, 0);
    assert DomainLength(c) == Some(3);
    assert Cut(c, [1][1..], 3) == Some([]);
    CutStep(c, [1], 1);
    assert c[1..2] == [99];
    assert DecodeHost(c) == Some(Join([[99]]));
  }

  /** The record built by `unpackAnswers` from one pointer chunk. */
  function DecodeIPv4Record(m: seq<Byte>, a: seq<Byte>): Option<Record<IPv4>>
    requires IsPointer(a)
  {
    match DecodeEnvelope(m, a)
    case None => None
    case Some(e) =>
      match DecodeIP(e.rdData)
      case None => None
      case Some(ip) => Some(Record(e.name, e.recordType, e.recordClass, e.ttl, e.rdLength, ip))
  }

  /** The record built by `unpackAuthorityAnswer` from a pointer chunk. */
  function DecodeNSRecord(m: seq<Byte>, a: seq<Byte>): Option<Record<seq<Byte>>>
    requires IsPointer(a)
  {
    match DecodeEnvelope(m, a)
    case None => None
    case Some(e) =>
      match DecodeHost(e.rdData)
      case None => None
      case Some(target) => Some(Record(e.name, e.recordType, e.recordClass, e.ttl, e.rdLength, target))
  }

  // ---------------------------------------------------------------------
  // Unpacking the sections
  // ---------------------------------------------------------------------

  /** The chunks that start with a pointer, in order. */
  function PointerChunks(answers: seq<seq<Byte>>): (r: seq<seq<Byte>>)
    ensures |r| <= |answers|
    ensures forall j :: 0 <= j < |r| ==> IsPointer(r[j])
  {
    if |answers| == 0 then []
    else if IsPointer(answers[0]) then [answers[0]] + PointerChunks(answers[1..])
    else PointerChunks(answers[1..])
  }

  /** A chunk `unpackAnswers` gets through without a panic: its first two
      bytes exist, and if they form a pointer the record decodes. */
  predicate ChunkReadable(m: seq<Byte>, a: seq<Byte>)
  {
    |a| >= 2 && (IsPointer(a) ==> DecodeIPv4Record(m, a).Some?)
  }

  /** One turn of the loop in `unpackAnswers`: a record for a pointer chunk,
      nothing for any other chunk, `None` where Go panics. */
  function UnpackChunk(m: seq<Byte>, a: seq<Byte>): Option<seq<Record<IPv4>>>
  {
    if |a| < 2 then None
    else if ReadU16(a, 0) > PointerBase then
      match DecodeIPv4Record(m, a)
      case None => None
      case Some(record) => Some([record])
    else Some([])
  }

  /** `unpackAnswers`: the records of all chunks, in order; `None` when any
      chunk makes Go panic. */
  function UnpackAnswers(m: seq<Byte>, answers: seq<seq<Byte>>): (r: Option<seq<Record<IPv4>>>)
    ensures r.Some? ==> |r.value| <= |answers|
    decreases |answers|
  {
    if |answers| == 0 then Some([])
    else
      match UnpackChunk(m, answers[0])
      case None => None
      case Some(first) =>
        match UnpackAnswers(m, answers[1..])
        case None => None
        case Some(rest) => Some(first + rest)
  }

  /** `unpackAnswers` goes through exactly when every chunk has its first two
      bytes and every pointer chunk decodes. */
  lemma {:induction false} UnpackAnswersSafe(m: seq<Byte>, answers: seq<seq<Byte>>)
    ensures UnpackAnswers(m, answers).Some? <==>
            forall i :: 0 <= i < |answers| ==> ChunkReadable(m, answers[i])
    decreases |answers|
  {
    if |answers| > 0 {
      UnpackAnswersSafe(m, answers[1..]);
      assert forall i :: 1 <= i < |answers| ==> answers[i] == answers[1..][i - 1];
      assert UnpackChunk(m, answers[0]).Some? <==> ChunkReadable(m, answers[0]);
    }
  }

  /** `unpackAnswers` yields one record per chunk whose first 16 bits exceed
      49152, in order, namely that chunk decoded; every other chunk is
      dropped. */
  lemma {:induction false} UnpackAnswersRecords(m: seq<Byte>, answers: seq<seq<Byte>>)
    requires UnpackAnswers(m, answers).Some?
    ensures var rs := UnpackAnswers(m, answers).value;
            && |rs| == |PointerChunks(answers)|
            && forall j :: 0 <= j < |rs| ==> DecodeIPv4Record(m, PointerChunks(answers)[j]) == Some(rs[j])
    decreases |answers|
  {
    if |answers| > 0 {
      UnpackAnswersRecords(m, answers[1..]);
      var a := answers[0];
      var rest := UnpackAnswers(m, answers[1..]).value;
      var rs := UnpackAnswers(m, answers).value;
      if IsPointer(a) {
        var record := DecodeIPv4Record(m, a).value;
        assert rs == [record] + rest;
        assert PointerChunks(answers) == [a] + PointerChunks(answers[1..]);
      } else {
        assert rs == rest;
      }
    }
  }

  /** A pointer to offset 0 (first two bytes `0xC0 0x00`, exactly 49152) is
      a valid pointer under section 4.1.4 of RFC 1035, but the strict
      comparison does not see it, so the chunk is dropped without a trace. */
  lemma PointerToZeroDropped(m: seq<Byte>, a: seq<Byte>)
    requires |a| >= 2 && a[0] == 0xC0 && a[1] == 0
    ensures !IsPointer(a)
    ensures UnpackAnswers(m, [a]) == Some([])
  {
    assert [a][1..] == [];
  }

  /** `unpackAuthorityAnswer`: the NS record when the section starts with a
      pointer, and the zero record otherwise; `None` where Go panics. */
  function UnpackAuthorityAnswer(m: seq<Byte>, a: seq<Byte>): (r: Option<Record<seq<Byte>>>)
    ensures |a| >= 2 && !IsPointer(a) ==> r == Some(ZeroNS)
    ensures r.Some? ==> |a| >= 2
  {
    if |a| < 2 then None
    else if ReadU16(a, 0) > PointerBase then DecodeNSRecord(m, a)
    else Some(ZeroNS)
  }
}
