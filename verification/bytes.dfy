/** Bytes and the little-endian integer layouts the stream formats use. */
module Bytes {

  /** An octet; bit operations on it are written out as division and remainder by powers of two. */
  type byte = b: int | 0 <= b < 256

  const TWO_16: int := 0x1_0000
  const TWO_32: int := 0x1_0000_0000

  /** Unsigned little-endian reads of two and four bytes. */
  function U16(b0: byte, b1: byte): (v: nat)
    ensures v < TWO_16
  {
    b0 + 256 * b1
  }

  function U32(b0: byte, b1: byte, b2: byte, b3: byte): (v: nat)
    ensures v < TWO_32
  {
    b0 + 256 * b1 + 0x1_0000 * b2 + 0x100_0000 * b3
  }

  /** Two's-complement reading of four little-endian bytes, as an x86 `int32_t` load. */
  function I32(b0: byte, b1: byte, b2: byte, b3: byte): (v: int)
    ensures -0x8000_0000 <= v < 0x8000_0000
    ensures v % TWO_32 == U32(b0, b1, b2, b3)
  {
    var u := U32(b0, b1, b2, b3);
    if u < 0x8000_0000 then u else u - TWO_32
  }

  /** The low byte of `v`, as a one-byte `fwrite` or a `uint8_t` cast stores it. */
  function Low8(v: int): (b: byte)
    ensures b == v % 256
  {
    v % 256
  }

  /** The two bytes of a 16-bit value, least significant first. */
  function LE16(v: nat): (bs: seq<byte>)
    requires v < TWO_16
    ensures |bs| == 2 && U16(bs[0], bs[1]) == v
  {
    [v % 256, v / 256]
  }

  /** The four bytes of a 32-bit value, least significant first. */
  function LE32(v: nat): (bs: seq<byte>)
    requires v < TWO_32
    ensures |bs| == 4 && U32(bs[0], bs[1], bs[2], bs[3]) == v
  {
    var b0 := v % 256;
    var r1 := v / 256;
    var b1 := r1 % 256;
    var r2 := r1 / 256;
    var b2 := r2 % 256;
    var b3 := r2 / 256;
    assert v == b0 + 256 * b1 + 0x1_0000 * b2 + 0x100_0000 * b3;
    [b0, b1, b2, b3]
  }

  /** A four-byte read determines its bytes: LE32 inverts U32. */
  lemma U32Injective(bs: seq<byte>)
    requires |bs| == 4
    ensures LE32(U32(bs[0], bs[1], bs[2], bs[3])) == bs
  {
    var hi: nat := bs[2] as int + 256 * (bs[3] as int);
    var mid: nat := bs[1] + 256 * hi;
    var v := U32(bs[0], bs[1], bs[2], bs[3]);
    assert v == bs[0] as int + 256 * mid;
    DivMod256(bs[0], mid);
    DivMod256(bs[1], hi);
    DivMod256(bs[2], bs[3]);
    var out := LE32(v);
    assert out[0] == bs[0] && out[1] == bs[1] && out[2] == bs[2] && out[3] == bs[3];
  }

  /** Splitting `low + 256 * rest` by 256 gives `low` and `rest` back. */
  lemma DivMod256(low: byte, rest: nat)
    ensures (low + 256 * rest) % 256 == low && (low + 256 * rest) / 256 == rest
  {
  }

  /** Writing a signed 32-bit value as four bytes and loading them as `int32_t` gives the value back. */
  lemma I32RoundTrip(v: int)
    requires -0x8000_0000 <= v < 0x8000_0000
    ensures var bs := LE32(v % TWO_32); I32(bs[0], bs[1], bs[2], bs[3]) == v
  {
  }
}
