/** Machine integers and their big-endian byte encoding. */
module Bytes {

  type uint8 = x: int | 0 <= x < 0x100

  type uint32 = x: int | 0 <= x < 0x1_0000_0000

  const UINT32_LIMIT: nat := 0x1_0000_0000

  /** The number four bytes denote when read most significant first
      (`u32::from_be_bytes`). */
  function U32FromBytes(b: seq<uint8>): uint32
    requires |b| == 4
  {
    ((b[0] as int * 0x100 + b[1] as int) * 0x100 + b[2] as int) * 0x100 + b[3] as int
  }

  /** The four bytes of `x`, most significant first (`u32::to_be_bytes`). */
  function U32ToBytes(x: uint32): (b: seq<uint8>)
    ensures |b| == 4
  {
    [x / 0x100_0000, (x / 0x1_0000) % 0x100, (x / 0x100) % 0x100, x % 0x100]
  }

  /** Reading back the four bytes of a `u32` gives the number. */
  lemma U32RoundTrip(x: uint32)
    ensures U32FromBytes(U32ToBytes(x)) == x
  {
    var q1 := x / 0x100;
    var q2 := q1 / 0x100;
    var q3 := q2 / 0x100;
    assert x / 0x1_0000 == q2 && x / 0x100_0000 == q3;
    assert q2 == q3 * 0x100 + q2 % 0x100;
    assert q1 == q2 * 0x100 + q1 % 0x100;
  }

  /** Every four-byte sequence is the encoding of the number it denotes, so
      the encoding is a bijection between `uint32` and four-byte sequences. */
  lemma U32BytesInverse(b: seq<uint8>)
    requires |b| == 4
    ensures U32ToBytes(U32FromBytes(b)) == b
  {
    var x := U32FromBytes(b);
    var q2 := b[0] as int * 0x100 + b[1] as int;
    var q1 := q2 * 0x100 + b[2] as int;
    assert x == q1 * 0x100 + b[3] as int;
    assert x / 0x100 == q1 && x % 0x100 == b[3] as int;
    assert q1 / 0x100 == q2 && q1 % 0x100 == b[2] as int;
    assert q2 / 0x100 == b[0] as int && q2 % 0x100 == b[1] as int;
  }
}
