/** Bytes, bounded integers and big-endian field packing, as used by the
    DNS wire format (RFC 1035, section 4.1: every 16- and 32-bit field is
    sent most significant byte first). */
module Wire {

  /** An octet of a message. */
  type Byte = b: int | 0 <= b < 0x100

  /** Go's `uint16` and `uint32`, as bounded naturals. */
  type U16 = x: int | 0 <= x < 0x1_0000
  type U32 = x: int | 0 <= x < 0x1_0000_0000

  /** A computation that either yields a value or, as `None`, stands for a
      Go run-time panic (slice index out of range, integer division by zero). */
  datatype Option<+T> = None | Some(value: T)

  /** `binary.BigEndian.Uint16` applied to `s[i:i+2]`. */
  function ReadU16(s: seq<Byte>, i: nat): U16
    requires i + 2 <= |s|
  {
    s[i] as int * 0x100 + s[i + 1]
  }

  /** `binary.BigEndian.Uint32` applied to `s[i:i+4]`. */
  function ReadU32(s: seq<Byte>, i: nat): U32
    requires i + 4 <= |s|
  {
    s[i] as int * 0x100_0000 + s[i + 1] as int * 0x1_0000 + s[i + 2] as int * 0x100 + s[i + 3]
  }

  /** `uint16ToByteSlice`: the two big-endian bytes of `n`; reading them back
      gives `n`. */
  function U16Bytes(n: U16): (r: seq<Byte>)
    ensures |r| == 2
    ensures ReadU16(r, 0) == n
  {
    [n / 0x100, n % 0x100]
  }

  /** The four big-endian bytes of a 32-bit value; reading them back gives `n`. */
  function U32Bytes(n: U32): (r: seq<Byte>)
    ensures |r| == 4
    ensures ReadU32(r, 0) == n
  {
    var r := [n / 0x100_0000, (n / 0x1_0000) % 0x100, (n / 0x100) % 0x100, n % 0x100];
    assert n / 0x100 == (n / 0x1_0000) * 0x100 + (n / 0x100) % 0x100;
    assert n / 0x1_0000 == (n / 0x100_0000) * 0x100 + (n / 0x1_0000) % 0x100;
    r
  }

  /** The other direction of the inverse: two bytes read as a 16-bit value
      and written back are the same two bytes. */
  lemma U16BytesOfRead(s: seq<Byte>, i: nat)
    requires i + 2 <= |s|
    ensures U16Bytes(ReadU16(s, i)) == s[i..i + 2]
  {
    var n := ReadU16(s, i);
    assert n / 0x100 == s[i];
    assert n % 0x100 == s[i + 1];
  }

  /** Reading a field is unaffected by what surrounds it. */
  lemma ReadU16Shift(a: seq<Byte>, s: seq<Byte>, i: nat)
    requires i + 2 <= |s|
    ensures ReadU16(a + s, |a| + i) == ReadU16(s, i)
  {
    assert (a + s)[|a| + i] == s[i];
    assert (a + s)[|a| + i + 1] == s[i + 1];
  }

  /** `packUint16Fields`: the fields one after the other, two bytes each, so
      that the `i`-th field can be read back at offset `2 * i`. */
  function PackU16Fields(fields: seq<U16>): (r: seq<Byte>)
    ensures |r| == 2 * |fields|
    ensures forall i :: 0 <= i < |fields| ==> ReadU16(r, 2 * i) == fields[i]
  {
    if |fields| == 0 then []
    else
      var rest := PackU16Fields(fields[1..]);
      var r := U16Bytes(fields[0]) + rest;
      assert forall i :: 1 <= i < |fields| ==> ReadU16(r, 2 * i) == fields[i] by {
        forall i | 1 <= i < |fields|
          ensures ReadU16(r, 2 * i) == fields[i]
        {
          ReadU16Shift(U16Bytes(fields[0]), rest, 2 * (i - 1));
        }
      }
      r
  }

  /** A slice of a suffix is a slice of the whole. */
  lemma SliceOfSuffix<T>(s: seq<T>, a: nat, i: nat, j: nat)
    requires a <= |s| && i <= j <= |s| - a
    ensures s[a..][i..j] == s[a + i..a + j]
  {
  }

  /** The concatenation of a sequence of sequences. */
  function Flatten<T>(ss: seq<seq<T>>): seq<T>
  {
    if |ss| == 0 then [] else ss[0] + Flatten(ss[1..])
  }
}
