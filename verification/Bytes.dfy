/** Octets and the little-endian 16-bit fields of the wire formats. */
module Bytes {

  type byte = n: int | 0 <= n < 0x100
  type u16 = n: int | 0 <= n < 0x1_0000

  function GetLe16(lo: byte, hi: byte): u16 {
    lo + 0x100 * hi
  }

  function PutLe16(value: u16): (r: seq<byte>)
    ensures |r| == 2 && GetLe16(r[0], r[1]) == value
  {
    [value % 0x100, value / 0x100]
  }

  /** The low octet comes first, and no other pair of octets stands for the same value. */
  lemma LowOctetFirst(lo: byte, hi: byte, value: u16)
    requires value == lo + 256 * hi
    ensures GetLe16(lo, hi) == value && PutLe16(value) == [lo, hi]
  {
    assert value / 256 == hi && value % 256 == lo;
  }
}
