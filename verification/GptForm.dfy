/** Which tables and entries are in order, told by their bytes: sections 5.3.2 and 5.3.3 of the UEFI Specification. */
module GptForm {
  import opened Bytes
  import opened Crc
  import opened Disks
  import opened Gpt

  /** A table is accepted exactly when its header says that it is the first, with the backup behind the usable sectors
    * and the entries before them, and both checksums are right. */
  lemma AcceptableIff(step: ByteStep, img: Image)
    ensures Acceptable(step, img) <==>
      && |img| >= 2 && img[1][..8] == [0x45, 0x46, 0x49, 0x20, 0x50, 0x41, 0x52, 0x54]
      && var h := img[1];
      && var size, count, each := Read32(h, 12), Read32(h, 80), Read32(h, 84);
      && var entries, first, last, backup := Read64(h, 72), Read64(h, 40), Read64(h, 48), Read64(h, 32);
      && Read64(h, 24) == 1 && 92 <= size <= 512 && 1 <= count <= 128 && each in {128, 256, 512}
      && 2 <= entries && entries + (count * each + 511) / 512 <= first <= last < backup < |img|
      && Crc32(step, (h[..16] + [0, 0, 0, 0] + h[20..])[..size]) == Read32(h, 16)
      && Crc32(step, BytesFrom(img, entries, count * each)) == Read32(h, 88)
  {
    hide Crc32, BytesFrom, Read32, Read64;
    if |img| >= 2 {
      assert Unsummed(img[1]) == img[1][..16] + [0, 0, 0, 0] + img[1][20..] by {
        assert Zeros(4) == [0, 0, 0, 0];
      }
    }
  }

  /** The first thing wrong is what is reported. */
  lemma ComplaintIs(step: ByteStep, img: Image, e: GptError)
    requires Complaint(step, img, e)
    ensures |img| < 2 <==> e == OutOfBounds
    ensures |img| >= 2 && img[1][..8] != [0x45, 0x46, 0x49, 0x20, 0x50, 0x41, 0x52, 0x54] <==> e == InvalidSignature
    ensures |img| >= 2 && e == HeaderChecksum ==>
      && Sane(img[1], |img|)
      && Crc32(step, (img[1][..16] + [0, 0, 0, 0] + img[1][20..])[..Read32(img[1], 12)]) != Read32(img[1], 16)
    ensures e == InvalidHeader ==> |img| >= 2 && !Sane(img[1], |img|)
    ensures e in {OutOfBounds, InvalidSignature, InvalidHeader, HeaderChecksum, EntryChecksum}
  {
    hide Crc32, Read32, Read64;
    if |img| >= 2 {
      assert Unsummed(img[1]) == img[1][..16] + [0, 0, 0, 0] + img[1][20..] by {
        assert Zeros(4) == [0, 0, 0, 0];
      }
    }
  }

  /** An entry of the zero type is none; any other is a partition if it lies inside the usable sectors. */
  lemma EntryIff(t: Table, b: seq<byte>)
    requires |b| >= 56
    ensures EntryOf(t, b) == Ok(None) <==> forall k | 0 <= k < 16 :: b[k] == 0
    ensures EntryOf(t, b).Ok? && EntryOf(t, b).value.Some? <==>
      && (exists k :: 0 <= k < 16 && b[k] != 0)
      && t.firstUsable <= Read64(b, 32) <= Read64(b, 40) <= t.lastUsable
    ensures EntryOf(t, b).Ok? && EntryOf(t, b).value.Some? ==>
      EntryOf(t, b).value.value == Partition(b[..16], b[16..32], Read64(b, 32), Read64(b, 40), Read64(b, 48))
    ensures EntryOf(t, b).Err? ==> EntryOf(t, b).error == InvalidPartition
  {
    hide Read64;
    if forall k | 0 <= k < 16 :: b[k] == 0 {
      assert b[..16] == NO_GUID;
    }
    assert b[..16] == NO_GUID ==> forall k | 0 <= k < 16 :: b[k] == b[..16][k];
  }
}
