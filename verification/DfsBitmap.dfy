/** The allocation bitmap: one bit a sector, eight a byte, 4096 a bitmap sector. */
module DfsBitmap {
  import opened Bytes
  import opened Disks
  import opened DfsLayout

  // ---------------------------------------------------------------- bits of a byte

  /** The low `n` bits of `b`, least significant first. */
  function Bits(b: nat, n: nat): (bs: seq<bool>)
    ensures |bs| == n
  {
    if n == 0 then [] else [b % 2 == 1] + Bits(b / 2, n - 1)
  }

  function FromBits(bs: seq<bool>): nat {
    if bs == [] then 0 else (if bs[0] then 1 else 0) + 2 * FromBits(bs[1..])
  }

  function Power2(n: nat): nat {
    if n == 0 then 1 else 2 * Power2(n - 1)
  }

  lemma {:induction false} BitsRoundTrip(bs: seq<bool>)
    ensures FromBits(bs) < Power2(|bs|)
    ensures Bits(FromBits(bs), |bs|) == bs
  {
    if bs != [] {
      BitsRoundTrip(bs[1..]);
      assert bs == [bs[0]] + bs[1..];
    }
  }

  /** `b | (1 << k)` or `b & !(1 << k)`: the byte with the bits of `b`, except bit `k`. */
  function WithBit(b: byte, k: nat, value: bool): byte
    requires k < 8
  {
    var bs := Bits(b, 8)[k := value];
    BitsRoundTrip(bs);
    assert Power2(|bs|) == 256 by { EightBits(); }
    FromBits(bs)
  }

  lemma EightBits()
    ensures Power2(8) == 256
  {
    assert Power2(4) == 16;
    assert Power2(6) == 2 * Power2(5) == 4 * Power2(4);
  }

  // ---------------------------------------------------------------- bits of a sector

  /** `bitmap[bit / 8] & (1 << (bit % 8)) != 0`. */
  predicate TestBit(s: Sector, bit: nat)
    requires bit < BITS_PER_SECTOR
  {
    Bits(s[bit / 8], 8)[bit % 8]
  }

  lemma {:induction false} BitsBack(b: nat, n: nat)
    requires b < Power2(n)
    ensures FromBits(Bits(b, n)) == b
  {
    if n > 0 {
      BitsBack(b / 2, n - 1);
      assert Bits(b, n)[1..] == Bits(b / 2, n - 1);
    }
  }

  lemma {:induction false} FourBits(bs: seq<bool>)
    requires |bs| >= 4
    ensures FromBits(bs) ==
      Weight(bs[0], 1) + Weight(bs[1], 2) + Weight(bs[2], 4) + Weight(bs[3], 8) + 16 * FromBits(bs[4..])
  {
    var a, b, c := bs[1..], bs[2..], bs[3..];
    assert a[1..] == b && b[1..] == c && c[1..] == bs[4..];
    assert FromBits(bs) == Weight(bs[0], 1) + 2 * FromBits(a) && FromBits(a) == Weight(bs[1], 1) + 2 * FromBits(b);
    assert FromBits(b) == Weight(bs[2], 1) + 2 * FromBits(c) && FromBits(c) == Weight(bs[3], 1) + 2 * FromBits(bs[4..]);
  }

  function Weight(bit: bool, w: nat): nat { if bit then w else 0 }

  /** The eight bits of a byte count 1 to 128, in this order. */
  lemma {:induction false} ByteIs(s: Sector, k: nat)
    requires k < SECTOR_SIZE
    ensures s[k] == Weight(TestBit(s, 8 * k), 1) + Weight(TestBit(s, 8 * k + 1), 2) + Weight(TestBit(s, 8 * k + 2), 4)
      + Weight(TestBit(s, 8 * k + 3), 8) + Weight(TestBit(s, 8 * k + 4), 16) + Weight(TestBit(s, 8 * k + 5), 32)
      + Weight(TestBit(s, 8 * k + 6), 64) + Weight(TestBit(s, 8 * k + 7), 128)
  {
    hide Bits;
    var bs := Bits(s[k], 8);
    EightBits();
    BitsBack(s[k], 8);
    FourBits(bs);
    FourBits(bs[4..]);
    assert FromBits(bs[4..][4..]) == 0;
    forall j | 0 <= j < 8
      ensures TestBit(s, 8 * k + j) == bs[j]
    {
      assert (8 * k + j) / 8 == k && (8 * k + j) % 8 == j;
    }
    assert TestBit(s, 8 * k + 0) == bs[0];
  }

  /** `set_bit`. */
  function SetBit(s: Sector, bit: nat, value: bool): Sector
    requires bit < BITS_PER_SECTOR
  {
    s[bit / 8 := WithBit(s[bit / 8], bit % 8, value)]
  }

  /** Setting a bit changes that bit and no other. */
  lemma SetBitFrame(s: Sector, bit: nat, value: bool, other: nat)
    requires bit < BITS_PER_SECTOR && other < BITS_PER_SECTOR
    ensures TestBit(SetBit(s, bit, value), other) == if other == bit then value else TestBit(s, other)
  {
    var bs := Bits(s[bit / 8], 8)[bit % 8 := value];
    BitsRoundTrip(bs);
    assert Bits(SetBit(s, bit, value)[bit / 8], 8) == bs;
    if other / 8 == bit / 8 && other != bit {
      assert other % 8 != bit % 8;
    }
  }

  // ---------------------------------------------------------------- bits of the disk

  /** `bitmap_location`. */
  function BitmapLocation(l: Layout, lba: u64): Result<(nat, nat), DfsError> {
    if lba < l.start || lba - l.start >= l.sectors then Err(InvalidFilesystem)
    else if (lba - l.start) / BITS_PER_SECTOR >= l.bitmapSectors then Err(CorruptMetadata)
    else Ok((l.bitmap + (lba - l.start) / BITS_PER_SECTOR, (lba - l.start) % BITS_PER_SECTOR))
  }

  /** The bitmap sector, and the bit in it, that stand for `lba`. */
  function Home(l: Layout, lba: nat): nat
    requires l.start <= lba
  {
    l.bitmap + (lba - l.start) / BITS_PER_SECTOR
  }

  function Slot(l: Layout, lba: nat): (bit: nat)
    requires l.start <= lba
    ensures bit < BITS_PER_SECTOR
  {
    (lba - l.start) % BITS_PER_SECTOR
  }

  /** `bitmap_location` for a sector of the partition. */
  lemma Located(l: Layout, n: nat, lba: u64)
    requires Fits(l, n) && l.start <= lba < End(l)
    ensures BitmapLocation(l, lba) == Ok((Home(l, lba), Slot(l, lba)))
    ensures l.bitmap <= Home(l, lba) < l.data
  {}

  /** A bit belongs to one sector. */
  lemma HomeAndSlotTell(l: Layout, a: nat, b: nat)
    requires l.start <= a && l.start <= b
    requires Home(l, a) == Home(l, b) && Slot(l, a) == Slot(l, b)
    ensures a == b
  {}

  /** Whether the bitmap marks `lba` as allocated. */
  predicate Marked(l: Layout, img: Image, lba: nat)
    requires Fits(l, |img|) && l.start <= lba < End(l)
  {
    Located(l, |img|, lba);
    TestBit(img[Home(l, lba)], Slot(l, lba))
  }
}
