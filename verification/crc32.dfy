/** binascii.crc32: the CRC-32 of IEEE 802.3 (clause 3.2.9), the one zlib
    computes.  Generator polynomial 0x04C11DB7 processed bit-reflected
    (0xEDB88320), register preset to all ones, result complemented.  This
    is the bit-at-a-time reference definition; zlib's table-driven code
    computes the same function. */
module Crc32 {
  import opened ByteCodec

  const REFLECTED_POLY: bv32 := 0xEDB8_8320
  const ALL_ONES: bv32 := 0xFFFF_FFFF

  /** One shift of the reflected register. */
  function ShiftBit(c: bv32): bv32
  {
    if c & 1 == 1 then (c >> 1) ^ REFLECTED_POLY else c >> 1
  }

  function ShiftBits(c: bv32, n: nat): bv32
    decreases n
  {
    if n == 0 then c else ShiftBits(ShiftBit(c), n - 1)
  }

  /** Feed one byte, least significant bit first. */
  function UpdateByte(c: bv32, b: byte): bv32
  {
    ShiftBits(c ^ (b as bv32), 8)
  }

  /** Feed a byte string into the register. */
  function Update(c: bv32, data: Bytes): bv32
    decreases |data|
  {
    if |data| == 0 then c else Update(UpdateByte(c, data[0]), data[1..])
  }

  /** binascii.crc32(data) as a Python int: always in [0, 2^32). */
  function Crc32(data: Bytes): (r: nat)
    ensures r < 0x1_0000_0000
  {
    (Update(ALL_ONES, data) ^ ALL_ONES) as int
  }

  /** A check value: binascii.crc32(b"a") == 0xE8B7BE43.  The register
      is followed through the eight shifts of the single byte. */
  lemma CheckValue()
    ensures Crc32([0x61]) == 0xE8B7_BE43
  {
    assert ALL_ONES ^ (0x61 as bv32) == 0xFFFF_FF9E;
    assert ShiftBit(0xFFFF_FF9E) == 0x7FFF_FFCF;
    assert ShiftBit(0x7FFF_FFCF) == 0xD247_7CC7;
    assert ShiftBit(0xD247_7CC7) == 0x849B_3D43;
    assert ShiftBit(0x849B_3D43) == 0xAFF5_1D81;
    assert ShiftBit(0xAFF5_1D81) == 0xBA42_0DE0;
    assert ShiftBit(0xBA42_0DE0) == 0x5D21_06F0;
    assert ShiftBit(0x5D21_06F0) == 0x2E90_8378;
    assert ShiftBit(0x2E90_8378) == 0x1748_41BC;
    assert Update(ALL_ONES, [0x61]) == UpdateByte(ALL_ONES, 0x61);
  }

  /** The register can be fed a byte string in pieces. */
  lemma {:induction false} UpdateAppend(c: bv32, a: Bytes, b: Bytes)
    ensures Update(c, a + b) == Update(Update(c, a), b)
    decreases |a|
  {
    if |a| == 0 {
      assert a + b == b;
    } else {
      assert (a + b)[1..] == a[1..] + b;
      UpdateAppend(UpdateByte(c, a[0]), a[1..], b);
    }
  }
}
