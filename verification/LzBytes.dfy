/** The stream and image formats in bytes. */
module LzBytes {
  import opened Bytes
  import opened Crc
  import opened LzFormat
  import opened Dzimage

  /** A length past 15 is as many bytes 255 as fit into it, and the rest. */
  lemma {:induction false} LengthIs(n: nat)
    ensures LengthBytes(n) == seq(n / 255, _ => 255) + [n % 255]
  {
    if n >= 255 {
      LengthIs(n - 255);
      assert seq(n / 255, _ => 255) == [255] + seq((n - 255) / 255, _ => 255);
    }
  }

  /** The token holds both lengths, the first in its upper half, the second less four; the offset follows the literals,
    * low byte first. */
  lemma BlockIs(b: Block)
    requires BlockOk(b) && |b.literals| < 15 && b.length < 19
    ensures BlockBytes(b) == [16 * |b.literals| + (b.length - 4)] + b.literals + [b.offset % 256, b.offset / 256]
  {
    assert Le(b.offset, 2) == [b.offset % 256, b.offset / 256];
  }

  /** A longer block, with the rest of its lengths behind the token and behind the offset. */
  lemma LongBlockIs(b: Block)
    requires BlockOk(b) && |b.literals| >= 15 && b.length >= 19
    ensures BlockBytes(b) == [255] + LengthBytes(|b.literals| - 15) + b.literals + [b.offset % 256, b.offset / 256]
                             + LengthBytes(b.length - 19)
  {
    assert Le(b.offset, 2) == [b.offset % 256, b.offset / 256];
  }

  /** What is refused, and as what: the header first, then the size it gives. */
  lemma HeaderIff(image: seq<byte>, n: nat)
    ensures UnpackedSize(image) == Ok(n) <==>
      && |image| >= 24 && image[..8] == [0x44, 0x5a, 0x49, 0x4d, 0x41, 0x47, 0x45, 0x00]
      && image[20..24] == [0, 0, 0, 0] && Read64(image, 8) == n && 1 <= n <= 0x400_0000
    ensures UnpackedSize(image) == Err(InvalidHeader) <==>
      |image| < 24 || image[..8] != [0x44, 0x5a, 0x49, 0x4d, 0x41, 0x47, 0x45, 0x00] || image[20..24] != [0, 0, 0, 0]
    ensures UnpackedSize(image).Err? ==> UnpackedSize(image).error in {InvalidHeader, InvalidSize}
  {}

  /** Behind a good header: room comes first, then the stream, then the checksum. */
  lemma RefusedFor(step: ByteStep, image: seq<byte>, room: nat)
    requires UnpackedSize(image).Ok?
    ensures var v, size := UnpackVerdict(step, image, room), UnpackedSize(image).value;
      && (v == Err(InvalidSize) <==> size > room)
      && (v == Err(InvalidLz4) <==>
            size <= room && forall bytes | Says(image[24..], bytes) :: |bytes| != size)
      && (v.Ok? || v.error in {InvalidSize, InvalidLz4, ChecksumMismatch})
  {
    hide Decode, Says, Crc32, UnpackedSize;
    var size := UnpackedSize(image).value;
    SizeFits(image);
    forall bytes | Says(image[24..], bytes) && |bytes| == size
      ensures Decode(image[24..], [], size) == Some(bytes)
    {
      DecodeIff(image[24..], size, bytes);
    }
    if Decode(image[24..], [], size).Some? {
      DecodeIff(image[24..], size, Decode(image[24..], [], size).value);
    }
  }

  lemma SizeFits(image: seq<byte>)
    requires UnpackedSize(image).Ok?
    ensures |image| >= 24
  {}
}
