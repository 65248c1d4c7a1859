/** CRC-32 as a fold over bytes.
  *
  * The eight shift-and-xor rounds that absorb one byte are a parameter, so nothing proved
  * here depends on which bits they mix; what matters is how the checksum is accumulated.
  */
module Crc {
  import opened Bytes

  /** One byte absorbed into the running register. */
  type ByteStep = (u32, byte) -> u32

  const ALL_ONES: u32 := 0xffff_ffff

  /** `crc32_update`. */
  function Update(step: ByteStep, crc: u32, bytes: seq<byte>): u32
    decreases |bytes|
  {
    if bytes == [] then crc
    else step(Update(step, crc, bytes[..|bytes| - 1]), bytes[|bytes| - 1])
  }

  /** `crc32`: start from all ones, complement at the end. */
  function Crc32(step: ByteStep, bytes: seq<byte>): u32 {
    ALL_ONES - Update(step, ALL_ONES, bytes)
  }

  /** The checksum of nothing is 0; another byte is absorbed by the complement, and the complement taken again. */
  lemma Crc32Is(step: ByteStep, bytes: seq<byte>, b: byte)
    ensures Crc32(step, []) == 0
    ensures Crc32(step, bytes + [b]) == 0xffff_ffff - step(0xffff_ffff - Crc32(step, bytes), b)
  {
    assert (bytes + [b])[..|bytes|] == bytes;
  }

  /** Feeding the register piece by piece is feeding it the concatenation. */
  lemma {:induction false} UpdateAppend(step: ByteStep, crc: u32, a: seq<byte>, b: seq<byte>)
    ensures Update(step, crc, a + b) == Update(step, Update(step, crc, a), b)
    decreases |b|
  {
    if b == [] {
      assert a + b == a;
    } else {
      UpdateAppend(step, crc, a, b[..|b| - 1]);
      assert (a + b)[..|a + b| - 1] == a + b[..|b| - 1];
    }
  }
}
