/** Domain names on the wire (RFC 1035, sections 3.1 and 4.1.2): a host
    such as `dns.google.com` travels as length-prefixed labels closed by a
    zero byte. This module models `encodeHost`, `domainLength` and
    `decodeHost`, together with the `.`-splitting and joining they rely on. */
module Names {
  import opened Wire

  /** The byte of `.` in a host string. */
  const Dot: Byte := 46

  // ---------------------------------------------------------------------
  // Splitting and joining on `.`
  // ---------------------------------------------------------------------

  /** `strings.Join(parts, ".")`. */
  function Join(parts: seq<seq<Byte>>): seq<Byte>
  {
    if |parts| == 0 then []
    else if |parts| == 1 then parts[0]
    else parts[0] + [Dot] + Join(parts[1..])
  }

  /** `strings.Split(s, ".")`: the maximal dot-free pieces between dots; an
      empty string and every pair of adjacent dots yield an empty piece. */
  function Split(s: seq<Byte>): (parts: seq<seq<Byte>>)
    ensures |parts| >= 1
    ensures forall i :: 0 <= i < |parts| ==> Dot !in parts[i]
    ensures Join(parts) == s
  {
    if |s| == 0 then [[]]
    else
      var rest := Split(s[1..]);
      if s[0] == Dot then
        assert s == [Dot] + s[1..];
        [[]] + rest
      else
        var parts := [[s[0]] + rest[0]] + rest[1..];
        assert parts[1..] == rest[1..];
        assert s == [s[0]] + s[1..];
        parts
  }

  /** Splitting a dot-free piece followed by a dot and more text. */
  lemma {:induction false} SplitDotFree(p: seq<Byte>, t: seq<Byte>)
    requires Dot !in p
    ensures Split(p) == [p]
    ensures Split(p + [Dot] + t) == [p] + Split(t)
    decreases |p|
  {
    if |p| == 0 {
      assert p + [Dot] + t == [Dot] + t;
      assert ([Dot] + t)[1..] == t;
    } else {
      SplitDotFree(p[1..], t);
      assert [p[1..]] + [] == [p[1..]];
      SplitConsPart(p, p, []);
      var s := p + [Dot] + t;
      assert s[1..] == p[1..] + [Dot] + t;
      SplitConsPart(s, p, Split(t));
    }
  }

  /** A leading non-dot byte is prepended to the first part of what follows. */
  lemma SplitConsPart(s: seq<Byte>, p: seq<Byte>, more: seq<seq<Byte>>)
    requires |s| >= 1 && |p| >= 1 && s[0] == p[0] != Dot
    requires Split(s[1..]) == [p[1..]] + more
    ensures Split(s) == [p] + more
  {
    assert [p[0]] + p[1..] == p;
    assert ([p[1..]] + more)[1..] == more;
  }



  /** Splitting undoes joining, for one or more dot-free parts. */
  lemma {:induction false} SplitJoin(parts: seq<seq<Byte>>)
    requires |parts| >= 1
    requires forall i :: 0 <= i < |parts| ==> Dot !in parts[i]
    ensures Split(Join(parts)) == parts
    decreases |parts|
  {
    if |parts| == 1 {
      SplitDotFree(parts[0], []);
    } else {
      SplitJoin(parts[1..]);
      SplitDotFree(parts[0], Join(parts[1..]));
      assert [parts[0]] + parts[1..] == parts;
    }
  }

  // ---------------------------------------------------------------------
  // Encoding
  // ---------------------------------------------------------------------

  /** Every section is 1 to 255 bytes long, so that `byte(len(section))`
      neither truncates nor writes an early terminator. DNS labels are at
      most 63 bytes, which this admits. */
  predicate ValidSections(parts: seq<seq<Byte>>)
  {
    |parts| == 0 || (1 <= |parts[0]| < 0x100 && ValidSections(parts[1..]))
  }

  /** A host whose every `.`-separated section is 1 to 255 bytes long. */
  predicate ValidHost(host: seq<Byte>)
  {
    ValidSections(Split(host))
  }

  /** The body of `encodeHost` before the final zero: for each section, one
      length byte (Go's `byte(len(section))`, which wraps modulo 256) and the
      section's bytes. */
  function EncodeSections(parts: seq<seq<Byte>>): seq<Byte>
  {
    if |parts| == 0 then []
    else [|parts[0]| % 0x100] + parts[0] + EncodeSections(parts[1..])
  }

  /** The number of bytes the sections take: each section plus its length byte. */
  function SectionsSize(parts: seq<seq<Byte>>): nat
  {
    if |parts| == 0 then 0 else |parts[0]| + 1 + SectionsSize(parts[1..])
  }

  lemma {:induction false} EncodeSectionsSize(parts: seq<seq<Byte>>)
    ensures |EncodeSections(parts)| == SectionsSize(parts)
    decreases |parts|
  {
    if |parts| > 0 {
      EncodeSectionsSize(parts[1..]);
    }
  }

  /** The sections of a host take one byte more than the host: every dot is
      replaced by a length byte, and the first section gets one as well. */
  lemma {:induction false} SplitSize(s: seq<Byte>)
    ensures SectionsSize(Split(s)) == |s| + 1
    decreases |s|
  {
    if |s| > 0 {
      SplitSize(s[1..]);
      var rest := Split(s[1..]);
      if s[0] != Dot {
        assert Split(s)[1..] == rest[1..];
        assert SectionsSize(rest) == |rest[0]| + 1 + SectionsSize(rest[1..]);
      }
    }
  }

  /** `encodeHost`: the sections of `host`, each behind its length byte, and a
      closing zero byte. The result is two bytes longer than the host. */
  function EncodeHost(host: seq<Byte>): (r: seq<Byte>)
    ensures |r| == |host| + 2
    ensures r[|r| - 1] == 0
  {
    SplitSize(host);
    EncodeSectionsSize(Split(host));
    EncodeSections(Split(host)) + [0]
  }

  // ---------------------------------------------------------------------
  // Scanning label lengths
  // ---------------------------------------------------------------------

  /** The bytes covered by a run of labels with the given lengths: each
      label plus its length byte. */
  function Span(shifts: seq<Byte>): nat
  {
    if |shifts| == 0 then 0 else shifts[0] + 1 + Span(shifts[1..])
  }

  /** The label-length loop shared by `domainLength`, `decodeHost` and the
      pointer loops of the record decoders:

          for shift != 0 { n += shift + 1; shift = m[base + n] }

      started with `n == acc` and the given `shift`. The result is the
      sequence of non-zero shifts seen, or `None` when an index runs past
      the end of `m` (a Go panic). On success the loop stopped on a zero
      byte at `base + acc + Span(shifts)`. */
  function Scan(m: seq<Byte>, base: nat, shift: Byte, acc: nat): Option<seq<Byte>>
    decreases |m| - acc
  {
    if shift == 0 then Some([])
    else
      var next := acc + shift + 1;
      if base + next < |m| then
        match Scan(m, base, m[base + next], next)
        case None => None
        case Some(rest) => Some([shift] + rest)
      else None
  }

  /** A successful scan saw only non-zero lengths and, if it moved at all,
      stopped on a zero byte inside `m`. */
  lemma {:induction false} ScanStops(m: seq<Byte>, base: nat, shift: Byte, acc: nat)
    requires Scan(m, base, shift, acc).Some?
    ensures var shifts := Scan(m, base, shift, acc).value;
            && (forall i :: 0 <= i < |shifts| ==> shifts[i] != 0)
            && (|shifts| > 0 ==> base + acc + Span(shifts) < |m| && m[base + acc + Span(shifts)] == 0)
    decreases |m| - acc
  {
    if shift != 0 {
      var next := acc + shift + 1;
      var rest := Scan(m, base, m[base + next], next).value;
      ScanStops(m, base, m[base + next], next);
      assert ([shift] + rest)[1..] == rest;
    }
  }

  /** `domainLength`: the number of bytes of the encoded name at the start
      of `m`, terminating zero included, or `None` when the scan runs off
      the end (including on an empty `m`). The byte just inside that length
      is the zero terminator. */
  function DomainLength(m: seq<Byte>): (r: Option<nat>)
    ensures r.Some? ==> 1 <= r.value <= |m| && m[r.value - 1] == 0
  {
    if |m| == 0 then None
    else
      match Scan(m, 0, m[0], 0)
      case None => None
      case Some(shifts) =>
        ScanStops(m, 0, m[0], 0);
        Some(Span(shifts) + 1)
  }

  // ---------------------------------------------------------------------
  // Decoding
  // ---------------------------------------------------------------------

  /** The second loop of `decodeHost`: cut one label of each recorded length,
      starting at `start` and skipping one length byte between labels, or
      `None` when a slice would run past the end of `e`. */
  function Cut(e: seq<Byte>, shifts: seq<Byte>, start: nat): Option<seq<seq<Byte>>>
    decreases |shifts|
  {
    if |shifts| == 0 then Some([])
    else if start + shifts[0] <= |e| then
      match Cut(e, shifts[1..], start + shifts[0] + 1)
      case None => None
      case Some(rest) => Some([e[start..start + shifts[0]]] + rest)
    else None
  }

  /** `decodeHost`: record the label lengths up to the first zero, cut the
      labels out and join them with dots; `None` when Go would panic. */
  function DecodeHost(e: seq<Byte>): Option<seq<Byte>>
  {
    if |e| == 0 then None
    else
      match Scan(e, 0, e[0], 0)
      case None => None
      case Some(shifts) =>
        match Cut(e, shifts, 1)
        case None => None
        case Some(labels) => Some(Join(labels))
  }

  // ---------------------------------------------------------------------
  // Properties
  // ---------------------------------------------------------------------

  /** The label lengths written for some sections. */
  function Lengths(parts: seq<seq<Byte>>): seq<Byte>
  {
    if |parts| == 0 then [] else [|parts[0]| % 0x100] + Lengths(parts[1..])
  }

  lemma {:induction false} SpanLengths(parts: seq<seq<Byte>>)
    requires ValidSections(parts)
    ensures Span(Lengths(parts)) == |EncodeSections(parts)|
    decreases |parts|
  {
    if |parts| > 0 {
      SpanLengths(parts[1..]);
      assert Lengths(parts)[1..] == Lengths(parts[1..]);
    }
  }

  /** A slice of `m` that equals a byte, then `p`, then `rest`, holds them
      at consecutive offsets. */
  lemma SliceParts(m: seq<Byte>, a: nat, b: Byte, p: seq<Byte>, rest: seq<Byte>)
    requires a + 1 + |p| + |rest| <= |m|
    requires m[a..a + 1 + |p| + |rest|] == [b] + p + rest
    ensures m[a] == b
    ensures m[a + 1..a + 1 + |p|] == p
    ensures m[a + 1 + |p|..a + 1 + |p| + |rest|] == rest
  {
    var s := [b] + p + rest;
    assert m[a..a + |s|][0] == m[a];
    forall i | 0 <= i < |p| ensures m[a + 1..a + 1 + |p|][i] == p[i] {
      assert m[a..a + |s|][1 + i] == m[a + 1 + i];
      assert s[1 + i] == p[i];
    }
    forall i | 0 <= i < |rest| ensures m[a + 1 + |p|..a + |s|][i] == rest[i] {
      assert m[a..a + |s|][1 + |p| + i] == m[a + 1 + |p| + i];
      assert s[1 + |p| + i] == rest[i];
    }
  }

  /** Where encoded sections sit in `m` at offset `a`, the first length byte,
      the first section and the remaining sections sit right after another. */
  lemma EncodedHead(m: seq<Byte>, a: nat, parts: seq<seq<Byte>>)
    requires |parts| > 0
    requires a + |EncodeSections(parts)| <= |m|
    requires m[a..a + |EncodeSections(parts)|] == EncodeSections(parts)
    ensures |EncodeSections(parts)| == |parts[0]| + 1 + |EncodeSections(parts[1..])|
    ensures m[a] == |parts[0]| % 0x100
    ensures m[a + 1..a + 1 + |parts[0]|] == parts[0]
    ensures var next := a + |parts[0]| + 1;
            m[next..next + |EncodeSections(parts[1..])|] == EncodeSections(parts[1..])
  {
    SliceParts(m, a, |parts[0]| % 0x100, parts[0], EncodeSections(parts[1..]));
  }

  /** Scanning valid encoded sections placed at `base + acc` of a larger
      message, and followed there by a zero byte, reports exactly their
      lengths. */
  lemma {:induction false} ScanEncoded(m: seq<Byte>, base: nat, acc: nat, parts: seq<seq<Byte>>)
    requires ValidSections(parts)
    requires base + acc + |EncodeSections(parts)| < |m|
    requires m[base + acc..base + acc + |EncodeSections(parts)|] == EncodeSections(parts)
    requires m[base + acc + |EncodeSections(parts)|] == 0
    ensures Scan(m, base, m[base + acc], acc) == Some(Lengths(parts))
    decreases |parts|
  {
    if |parts| > 0 {
      EncodedHead(m, base + acc, parts);
      var k: Byte := |parts[0]|;
      assert m[base + acc] == k;
      var next := acc + k + 1;
      ScanEncoded(m, base, next, parts[1..]);
      ScanStep(m, base, k, acc);
      assert Lengths(parts) == [k] + Lengths(parts[1..]);
    }
  }

  /** One turn of the scan loop on a non-zero length byte. */
  lemma ScanStep(m: seq<Byte>, base: nat, shift: Byte, acc: nat)
    requires shift != 0
    requires base + acc + shift + 1 < |m|
    requires Scan(m, base, m[base + acc + shift + 1], acc + shift + 1).Some?
    ensures Scan(m, base, shift, acc)
         == Some([shift] + Scan(m, base, m[base + acc + shift + 1], acc + shift + 1).value)
  {
  }

  /** Cutting at the lengths of valid encoded sections placed at `p` gives
      back the sections. */
  lemma {:induction false} CutEncoded(e: seq<Byte>, p: nat, parts: seq<seq<Byte>>)
    requires ValidSections(parts)
    requires p + |EncodeSections(parts)| <= |e|
    requires e[p..p + |EncodeSections(parts)|] == EncodeSections(parts)
    ensures Cut(e, Lengths(parts), p + 1) == Some(parts)
    decreases |parts|
  {
    if |parts| > 0 {
      EncodedHead(e, p, parts);
      var next := p + |parts[0]| + 1;
      CutEncoded(e, next, parts[1..]);
      assert Lengths(parts)[1..] == Lengths(parts[1..]);
      CutStep(e, Lengths(parts), p + 1);
      assert [parts[0]] + parts[1..] == parts;
    }
  }

  /** One turn of the cutting loop. */
  lemma CutStep(e: seq<Byte>, shifts: seq<Byte>, start: nat)
    requires |shifts| > 0 && start + shifts[0] <= |e|
    requires Cut(e, shifts[1..], start + shifts[0] + 1).Some?
    ensures Cut(e, shifts, start)
         == Some([e[start..start + shifts[0]]] + Cut(e, shifts[1..], start + shifts[0] + 1).value)
  {
  }

  /** `domainLength` of an encoded valid host, followed by anything, is the
      length of the encoding: it counts the length bytes, the label bytes
      and the terminator, and stops there. */
  lemma DomainLengthOfEncoded(host: seq<Byte>, suffix: seq<Byte>)
    requires ValidHost(host)
    ensures DomainLength(EncodeHost(host) + suffix) == Some(|EncodeHost(host)|)
  {
    var parts := Split(host);
    var e := EncodeHost(host);
    var m := e + suffix;
    var enc := EncodeSections(parts);
    assert m[..|enc|] == enc;
    assert m[|enc|] == 0;
    ScanEncoded(m, 0, 0, parts);
    SpanLengths(parts);
  }

  /** Round trip: decoding an encoded host gives the host back, whenever every
      section is 1 to 255 bytes long. */
  lemma DecodeEncodeHost(host: seq<Byte>)
    requires ValidHost(host)
    ensures DecodeHost(EncodeHost(host)) == Some(host)
  {
    var parts := Split(host);
    var e := EncodeHost(host);
    var enc := EncodeSections(parts);
    assert e[..|enc|] == enc;
    ScanEncoded(e, 0, 0, parts);
    CutEncoded(e, 0, parts);
  }

  /** The recorded lengths always leave room for the cuts: Go's second loop
      in `decodeHost` never slices out of range once the first loop has
      finished. */
  lemma {:induction false} CutAfterScan(e: seq<Byte>, p: nat)
    requires p < |e|
    requires Scan(e, 0, e[p], p).Some?
    ensures Cut(e, Scan(e, 0, e[p], p).value, p + 1).Some?
    decreases |e| - p
  {
    if e[p] != 0 {
      var next := p + e[p] + 1;
      CutAfterScan(e, next);
    }
  }

  /** `decodeHost` panics exactly when `domainLength` does: both fail only in
      the shared label-length scan. */
  lemma DecodeHostSafe(e: seq<Byte>)
    ensures DecodeHost(e).Some? <==> DomainLength(e).Some?
  {
    if |e| > 0 && Scan(e, 0, e[0], 0).Some? {
      CutAfterScan(e, 0);
    }
  }

  /** Locality of the scan: once it stops, replacing every byte after the
      terminator changes nothing. */
  lemma {:induction false} ScanLocal(m: seq<Byte>, m': seq<Byte>, base: nat, shift: Byte, acc: nat)
    requires Scan(m, base, shift, acc).Some?
    requires var k := base + acc + Span(Scan(m, base, shift, acc).value);
             shift != 0 ==> k < |m| && k < |m'| && m[..k + 1] == m'[..k + 1]
    ensures Scan(m', base, shift, acc) == Scan(m, base, shift, acc)
    decreases |m| - acc
  {
    if shift != 0 {
      var next := acc + shift + 1;
      var rest := Scan(m, base, m[base + next], next).value;
      var k := base + acc + Span(Scan(m, base, shift, acc).value);
      assert Scan(m, base, shift, acc).value == [shift] + rest;
      assert k == base + next + Span(rest);
      assert m[base + next] == m[..k + 1][base + next] == m'[base + next];
      if m[base + next] != 0 {
        assert m[..base + next + Span(rest) + 1] == m[..k + 1];
        assert m'[..base + next + Span(rest) + 1] == m'[..k + 1];
      }
      ScanLocal(m, m', base, m[base + next], next);
    }
  }

  /** `domainLength` reads nothing beyond the name it measures: keeping those
      bytes and replacing the rest of the message gives the same length. */
  lemma DomainLengthLocal(m: seq<Byte>, suffix: seq<Byte>)
    requires DomainLength(m).Some?
    ensures DomainLength(m[..DomainLength(m).value] + suffix) == DomainLength(m)
  {
    var n := DomainLength(m).value;
    var m' := m[..n] + suffix;
    assert m'[..n] == m[..n];
    assert m'[0] == m[0];
    ScanLocal(m, m', 0, m[0], 0);
  }

  /** An empty section, as in `a..b`, writes a zero length byte in the middle
      of the encoding, so decoding stops there and drops the rest of the host. */
  lemma EmptySectionTruncates()
    ensures EncodeHost([97, Dot, Dot, 98]) == [1, 97, 0, 1, 98, 0]
    ensures DecodeHost(EncodeHost([97, Dot, Dot, 98])) == Some([97])
  {
    var parts: seq<seq<Byte>> := [[97], [], [98]];
    assert Join(parts) == [97, Dot, Dot, 98] by {
      assert Join(parts[1..]) == [Dot, 98];
    }
    SplitJoin(parts);
    assert EncodeSections(parts) == [1, 97, 0, 1, 98] by {
      assert EncodeSections(parts[1..]) == [0, 1, 98] by {
        assert EncodeSections(parts[2..]) == [1, 98];
      }
    }
    var e: seq<Byte> := [1, 97, 0, 1, 98, 0];
    assert Scan(e, 0, e[2], 2) == Some([]);
    ScanStep(e, 0, 1, 0);
    assert [1] + [] == [1];
    assert Cut(e, [1][1..], 3) == Some([]);
    CutStep(e, [1], 1);
    assert e[1..2] == [97];
    assert [[97]] + [] == [[97]];
  }
  /** A section of exactly 256 bytes gets the length byte `byte(256) == 0`,
      which reads as the end of the name: the host decodes to the empty
      string. */
  lemma LongSectionWraps(p: seq<Byte>)
    requires |p| == 0x100 && Dot !in p
    ensures EncodeHost(p) == [0] + p + [0]
    ensures DecodeHost(EncodeHost(p)) == Some([])
  {
    SplitDotFree(p, []);
    assert EncodeSections([p]) == [0] + p by {
      assert [p][1..] == [];
    }
    var e := EncodeHost(p);
    assert e[0] == 0;
    assert Scan(e, 0, e[0], 0) == Some([]);
  }


  /** The sections of `dns.google.com`. */
  const DnsGoogleComSections: seq<seq<Byte>> := [[100, 110, 115], [103, 111, 111, 103, 108, 101], [99, 111, 109]]

  lemma DnsGoogleComSplit()
    ensures Split(DnsGoogleCom) == DnsGoogleComSections
    ensures ValidHost(DnsGoogleCom)
  {
    var parts := DnsGoogleComSections;
    assert Join(parts) == DnsGoogleCom by {
      assert Join(parts[1..]) == [103, 111, 111, 103, 108, 101, Dot, 99, 111, 109] by {
        assert Join(parts[2..]) == [99, 111, 109];
      }
    }
    SplitJoin(parts);
    assert ValidSections(parts[1..]) by {
      assert ValidSections(parts[2..]) by {
        assert ValidSections(parts[3..]);
      }
    }
  }

  /** The encoding quoted in `encodeHost`'s own comment. */
  lemma DnsGoogleComEncoding()
    ensures EncodeHost(DnsGoogleCom) == DnsGoogleComEncoded
  {
    var parts := DnsGoogleComSections;
    DnsGoogleComSplit();
    assert EncodeSections(parts) == DnsGoogleComEncoded[..15] by {
      assert EncodeSections(parts[1..]) == [6, 103, 111, 111, 103, 108, 101, 3, 99, 111, 109] by {
        assert EncodeSections(parts[2..]) == [3, 99, 111, 109] by {
          assert EncodeSections(parts[3..]) == [];
        }
      }
    }
  }

  /** Decoding that encoding gives back `dns.google.com`. */
  lemma DnsGoogleComDecoding()
    ensures DecodeHost(DnsGoogleComEncoded) == Some(DnsGoogleCom)
  {
    DnsGoogleComEncoding();
    DnsGoogleComSplit();
    DecodeEncodeHost(DnsGoogleCom);
  }

  /** The host `dns.google.com` that the program queries. */
  const DnsGoogleCom: seq<Byte> := [100, 110, 115, Dot, 103, 111, 111, 103, 108, 101, Dot, 99, 111, 109]

  /** Its encoding, as given in `encodeHost`'s comment. */
  const DnsGoogleComEncoded: seq<Byte> := [3, 100, 110, 115, 6, 103, 111, 111, 103, 108, 101, 3, 99, 111, 109, 0]
}
