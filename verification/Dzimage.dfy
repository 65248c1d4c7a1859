/** The boot-time unpacker. */
module Dzimage {
  import opened Bytes
  import opened Crc
  import opened LzFormat

  /** "DZIMAGE\0" */
  const MAGIC: seq<byte> := [0x44, 0x5a, 0x49, 0x4d, 0x41, 0x47, 0x45, 0x00]
  const HEADER_SIZE := 24
  const MAX_KERNEL_SIZE := 67_108_864

  datatype UnpackError = InvalidHeader | InvalidSize | InvalidLz4 | ChecksumMismatch

  /** `unpacked_size`. */
  function UnpackedSize(image: seq<byte>): (r: Result<nat, UnpackError>)
    ensures r.Ok? ==> |image| >= HEADER_SIZE && 1 <= r.value <= MAX_KERNEL_SIZE
  {
    if |image| < HEADER_SIZE || image[..8] != MAGIC || image[20..24] != [0, 0, 0, 0] then Err(InvalidHeader)
    else if Read64(image, 8) == 0 || Read64(image, 8) > MAX_KERNEL_SIZE then Err(InvalidSize)
    else Ok(Read64(image, 8))
  }

  /** What unpacking into a buffer of `room` bytes answers. */
  function UnpackVerdict(step: ByteStep, image: seq<byte>, room: nat): Result<nat, UnpackError> {
    match Unpacked(step, image, room)
    case Ok(bytes) => Ok(|bytes|)
    case Err(e) => Err(e)
  }

  /** The bytes an image unpacks to. */
  function Unpacked(step: ByteStep, image: seq<byte>, room: nat): Result<seq<byte>, UnpackError> {
    match UnpackedSize(image)
    case Err(e) => Err(e)
    case Ok(size) =>
      if size > room then Err(InvalidSize)
      else
        match Decode(image[HEADER_SIZE..], [], size)
        case None => Err(InvalidLz4)
        case Some(bytes) =>
          if |bytes| != size then Err(InvalidLz4)
          else if Crc32(step, bytes) != Read32(image, 16) then Err(ChecksumMismatch)
          else Ok(bytes)
  }

  /** Unpacking succeeds exactly when the payload is a stream that stands for as many bytes as the header says,
    * with the checksum the header says; then those are the bytes. */
  lemma UnpackedIff(step: ByteStep, image: seq<byte>, room: nat, bytes: seq<byte>)
    ensures Unpacked(step, image, room) == Ok(bytes) <==>
      && UnpackedSize(image) == Ok(|bytes|) && |bytes| <= room
      && Says(image[HEADER_SIZE..], bytes) && Crc32(step, bytes) == Read32(image, 16)
  {
    hide Decode, Says, Crc32;
    if UnpackedSize(image).Ok? {
      DecodeIff(image[HEADER_SIZE..], UnpackedSize(image).value, bytes);
    }
  }

  lemma HeaderReads(size: u64, sum: u32, compressed: seq<byte>)
    ensures var image := MAGIC + Le(size, 8) + Le(sum, 4) + [0, 0, 0, 0] + compressed;
      && |image| >= HEADER_SIZE && image[..8] == MAGIC && image[20..24] == [0, 0, 0, 0]
      && Read64(image, 8) == size && Read32(image, 16) == sum && image[HEADER_SIZE..] == compressed
  {
    var image := MAGIC + Le(size, 8) + Le(sum, 4) + [0, 0, 0, 0] + compressed;
    assert image[8..16] == Le(size, 8) && image[16..20] == Le(sum, 4);
    Le64(size);
    Le32(sum);
  }

  /** Magic, size, checksum, four zero bytes, the compressed stream. */
  function ImageOf(step: ByteStep, input: seq<byte>, compressed: seq<byte>): seq<byte> {
    MAGIC + Le(|input|, 8) + Le(Crc32(step, input), 4) + [0, 0, 0, 0] + compressed
  }

  /** What the packer builds unpacks to what it was given, whatever the size of the buffer beyond that. */
  lemma PackedUnpacks(step: ByteStep, input: seq<byte>, compressed: seq<byte>, room: nat)
    requires 1 <= |input| <= MAX_KERNEL_SIZE && Says(compressed, input) && room >= |input|
    ensures Unpacked(step, ImageOf(step, input, compressed), room) == Ok(input)
    ensures UnpackVerdict(step, ImageOf(step, input, compressed), room) == Ok(|input|)
  {
    hide Unpacked, Says, Crc32, Le;
    HeaderReads(|input|, Crc32(step, input), compressed);
    UnpackedIff(step, ImageOf(step, input, compressed), room, input);
  }
}
