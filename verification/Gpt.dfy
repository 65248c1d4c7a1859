/** Reading a GUID partition table: the primary header, its checksums and the partitions it lists. */
module Gpt {
  import opened Bytes
  import opened Crc
  import opened Disks

  /** "EFI PART" */
  const SIGNATURE: seq<byte> := [0x45, 0x46, 0x49, 0x20, 0x50, 0x41, 0x52, 0x54]
  const HEADER_MIN_SIZE := 92
  const MAX_ENTRY_COUNT := 128
  const MAX_ENTRY_SIZE := 512

  datatype GptError =
    | OutOfBounds
    | InvalidSignature
    | InvalidHeader
    | HeaderChecksum
    | EntryChecksum
    | InvalidPartition
    | PartitionNotFound

  type Guid = g: seq<byte> | |g| == 16 witness Zeros(16)

  /** The type of a DFS partition. */
  const DFS_GUID: Guid :=
    [0x9d, 0x2c, 0x7f, 0x8a, 0x31, 0x6b, 0x52, 0x4e, 0x9b, 0x14, 0x44, 0x53, 0x46, 0x53, 0x00, 0x01]

  const NO_GUID: Guid := Zeros(16)

  datatype Partition = Partition(typeGuid: Guid, uniqueGuid: Guid, firstLba: u64, lastLba: u64, attributes: u64)

  datatype Table = Table(firstUsable: u64, lastUsable: u64, entriesLba: u64, entryCount: u32, entrySize: u32)

  // ---------------------------------------------------------------- what a table is

  function SectorsFor(bytes: nat): nat { (bytes + 511) / 512 }

  /** The first `bytes` bytes from sector `lba` on. */
  function BytesFrom(img: Image, lba: nat, bytes: nat): (r: seq<byte>)
    requires lba + SectorsFor(bytes) <= |img|
    ensures |r| == bytes
  {
    seq(bytes, i requires 0 <= i < bytes => img[lba + i / 512][i % 512])
  }

  /** The table a header describes. */
  function Described(h: Sector): Table {
    Table(Read64(h, 40), Read64(h, 48), Read64(h, 72), Read32(h, 80), Read32(h, 84))
  }

  function EntryBytes(t: Table): nat { t.entryCount * t.entrySize }

  /** The numbers of a table fit together, and with a disk of `n` sectors. */
  predicate Sound(t: Table, n: nat) {
    && 0 < t.entryCount <= MAX_ENTRY_COUNT
    && (t.entrySize == 128 || t.entrySize == 256 || t.entrySize == 512)
    && 2 <= t.entriesLba && t.entriesLba + SectorsFor(EntryBytes(t)) <= t.firstUsable <= t.lastUsable < n
  }

  /** A header that may be the primary one of a disk of `n` sectors. */
  predicate Sane(h: Sector, n: nat) {
    && HEADER_MIN_SIZE <= Read32(h, 12) <= SECTOR_SIZE
    && Read64(h, 24) == 1
    && Read64(h, 48) < Read64(h, 32) < n
    && Sound(Described(h), n)
  }

  /** The header without its checksum. */
  function Unsummed(h: Sector): Sector { Put(h, 16, Zeros(4)) }

  /** A disk whose primary table is in order. */
  predicate Acceptable(step: ByteStep, img: Image) {
    && |img| >= 2
    && var h := img[1];
    && h[..8] == SIGNATURE && Sane(h, |img|)
    && Crc32(step, Unsummed(h)[..Read32(h, 12)]) == Read32(h, 16)
    && Crc32(step, BytesFrom(img, Read64(h, 72), EntryBytes(Described(h)))) == Read32(h, 88)
  }

  /** The first thing wrong with a table, in the order the checks are made. */
  predicate Complaint(step: ByteStep, img: Image, e: GptError) {
    if |img| < 2 then e == OutOfBounds
    else
      var h := img[1];
      if h[..8] != SIGNATURE then e == InvalidSignature
      else if !Sane(h, |img|) then e == InvalidHeader
      else if Crc32(step, Unsummed(h)[..Read32(h, 12)]) != Read32(h, 16) then e == HeaderChecksum
      else e == EntryChecksum
  }

  /** The bytes of entry `index`. */
  function Slot(t: Table, img: Image, index: nat): (r: seq<byte>)
    requires Sound(t, |img|) && index < t.entryCount
    ensures |r| == t.entrySize
  {
    SlotEnds(t, index);
    BytesFrom(img, t.entriesLba, EntryBytes(t))[index * t.entrySize..(index + 1) * t.entrySize]
  }

  lemma SlotEnds(t: Table, index: nat)
    requires index < t.entryCount
    ensures 0 <= index * t.entrySize <= (index + 1) * t.entrySize <= EntryBytes(t)
    ensures (index + 1) * t.entrySize == index * t.entrySize + t.entrySize
  {}

  function Decoded(b: seq<byte>): Partition
    requires |b| >= 56
  {
    Partition(b[..16], b[16..32], Read64(b, 32), Read64(b, 40), Read64(b, 48))
  }

  predicate Inside(t: Table, p: Partition) {
    t.firstUsable <= p.firstLba <= p.lastLba <= t.lastUsable
  }

  /** What an entry says: no partition, one inside the usable sectors, or one that is refused. */
  function EntryOf(t: Table, b: seq<byte>): Result<Option<Partition>, GptError>
    requires |b| >= 56
  {
    if b[..16] == NO_GUID then Ok(None)
    else if Inside(t, Decoded(b)) then Ok(Some(Decoded(b)))
    else Err(InvalidPartition)
  }

  /** Nothing at `index` stops the search for a partition of type `guid`. */
  predicate Passed(t: Table, img: Image, guid: Guid, index: nat)
    requires Sound(t, |img|) && index < t.entryCount
  {
    var e := EntryOf(t, Slot(t, img, index));
    e.Ok? && (e.value.None? || e.value.value.typeGuid != guid)
  }

  // ---------------------------------------------------------------- reading it

  /** The bytes up to the end of a sector, and those of the next one. */
  lemma BytesGrow(img: Image, lba: nat, done: nat, more: nat)
    requires done % 512 == 0 && 0 < more <= 512 && lba + SectorsFor(done + more) <= |img|
    ensures lba + done / 512 < |img| && lba + SectorsFor(done) <= |img|
    ensures BytesFrom(img, lba, done + more) == BytesFrom(img, lba, done) + img[lba + done / 512][..more]
  {}

  /** `partition_entries_checksum`: sector by sector, what one pass over all the bytes gives. */
  method EntriesChecksum(step: ByteStep, device: Disk, entriesLba: nat, bytes: nat) returns (sum: u32)
    requires entriesLba + SectorsFor(bytes) <= |device.durable|
    ensures sum == Crc32(step, BytesFrom(device.View(), entriesLba, bytes))
  {
    hide Update, Apply;
    var register: u32 := ALL_ONES;
    var remaining := bytes;
    var lba := entriesLba;
    ghost var img := device.View();
    ghost var done := 0;
    FromNothing(step, img, entriesLba);
    while remaining != 0
      invariant 0 <= remaining && done + remaining == bytes
      invariant remaining != 0 ==> done % 512 == 0 && lba == entriesLba + done / 512
      invariant entriesLba + SectorsFor(done) <= |img|
      invariant register == Update(step, ALL_ONES, BytesFrom(img, entriesLba, done))
      decreases remaining
    {
      hide BytesFrom;
      var length := Min(remaining, SECTOR_SIZE);
      Monotone(done + length, bytes);
      BytesGrow(img, entriesLba, done, length);
      var sector := device.ReadSector(lba);
      UpdateAppend(step, ALL_ONES, BytesFrom(img, entriesLba, done), sector[..length]);
      register := Update(step, register, sector[..length]);
      remaining := remaining - length;
      lba := lba + 1;
      done := done + length;
    }
    return ALL_ONES - register;
  }

  lemma Monotone(a: nat, b: nat)
    requires a <= b
    ensures SectorsFor(a) <= SectorsFor(b)
  {}

  lemma FromNothing(step: ByteStep, img: Image, lba: nat)
    requires lba <= |img|
    ensures Update(step, ALL_ONES, BytesFrom(img, lba, 0)) == ALL_ONES
  {}

  /** A size that divides a sector, as the header check asks. */
  lemma EntrySizes(size: nat)
    requires 128 <= size <= 512
    ensures size % 8 == 0 && 512 % size == 0 <==> size == 128 || size == 256 || size == 512
  {
    if 512 % size == 0 {
      var q := 512 / size;
      assert q * size == 512;
      assert 1 <= q <= 4;
      assert q == 1 || q == 2 || q == 3 || q == 4;
    }
  }

  /** `read_primary`: a table is accepted exactly when it is in order, and every sector that is read exists. */
  method ReadPrimary(step: ByteStep, device: Disk) returns (r: Result<Table, GptError>)
    ensures r.Ok? <==> Acceptable(step, device.View())
    ensures r.Ok? ==> r.value == Described(device.View()[1]) && Sound(r.value, |device.durable|)
    ensures r.Err? ==> Complaint(step, device.View(), r.error)
  {
    hide Apply, Crc32, BytesFrom, Put, Read32, Read64, SectorsFor;
    if |device.durable| < 2 {
      return Err(OutOfBounds);
    }
    var h := device.ReadSector(1);
    if h[..8] != SIGNATURE {
      return Err(InvalidSignature);
    }
    var t := Described(h);
    var size := Read32(h, 12);
    if !(HEADER_MIN_SIZE <= size <= SECTOR_SIZE)
       || Read64(h, 24) != 1
       || Read64(h, 32) >= |device.durable|
       || Read64(h, 32) <= t.lastUsable
       || t.firstUsable < 2
       || t.firstUsable > t.lastUsable
       || t.lastUsable >= |device.durable|
       || t.entryCount == 0
       || t.entryCount > MAX_ENTRY_COUNT
       || t.entrySize < 128
       || t.entrySize > MAX_ENTRY_SIZE
       || t.entrySize % 8 != 0
       || 512 % t.entrySize != 0
    {
      SizesMatter(t.entrySize);
      return Err(InvalidHeader);
    }
    EntrySizes(t.entrySize);
    var entriesEnd := t.entriesLba + SectorsFor(EntryBytes(t));
    if entriesEnd >= 0x1_0000_0000_0000_0000 || t.entriesLba < 2 || entriesEnd > t.firstUsable {
      return Err(InvalidHeader);
    }
    if Crc32(step, Unsummed(h)[..size]) != Read32(h, 16) {
      return Err(HeaderChecksum);
    }
    var sum := EntriesChecksum(step, device, t.entriesLba, EntryBytes(t));
    if sum != Read32(h, 88) {
      return Err(EntryChecksum);
    }
    return Ok(t);
  }

  lemma SizesMatter(size: nat)
    ensures size == 128 || size == 256 || size == 512 ==> size % 8 == 0 && 512 % size == 0
  {}

  /** An entry lies within one sector. */
  lemma SlotSector(t: Table, img: Image, index: nat)
    requires Sound(t, |img|) && index < t.entryCount
    ensures var at := index * t.entrySize;
      && t.entriesLba + at / 512 < t.firstUsable && at % 512 + t.entrySize <= 512
      && img[t.entriesLba + at / 512][at % 512..at % 512 + t.entrySize] == Slot(t, img, index)
  {
    SlotEnds(t, index);
    var at, size := index * t.entrySize, t.entrySize;
    Aligned(index, size);
    var sector := img[t.entriesLba + at / 512];
    var bytes := BytesFrom(img, t.entriesLba, EntryBytes(t));
    var slot := bytes[at..at + size];
    assert Slot(t, img, index) == slot;
    forall k | 0 <= k < size
      ensures slot[k] == sector[at % 512 + k]
    {
      assert slot[k] == bytes[at + k];
      assert (at + k) / 512 == at / 512;
    }
  }

  lemma Aligned(index: nat, size: nat)
    requires size == 128 || size == 256 || size == 512
    ensures (index * size) % 512 + size <= 512
  {
    if size == 128 {
      Stretch(index / 4, 128 * (index % 4), index * size);
    } else if size == 256 {
      Stretch(index / 2, 256 * (index % 2), index * size);
    } else {
      Stretch(index, 0, index * size);
    }
  }

  lemma Stretch(q: nat, r: nat, x: nat)
    requires r < 512 && x == 512 * q + r
    ensures x % 512 == r
  {}

  /** `Gpt::partition`. */
  method ReadPartition(t: Table, device: Disk, index: nat) returns (r: Result<Option<Partition>, GptError>)
    requires Sound(t, |device.durable|)
    ensures r == if index >= t.entryCount then Ok(None) else EntryOf(t, Slot(t, device.View(), index))
  {
    hide Apply, Slot, Read64;
    if index >= t.entryCount {
      return Ok(None);
    }
    SlotSector(t, device.View(), index);
    var offset := index * t.entrySize;
    var sector := device.ReadSector(t.entriesLba + offset / SECTOR_SIZE);
    var entry := sector[offset % SECTOR_SIZE..offset % SECTOR_SIZE + t.entrySize];
    if entry[..16] == NO_GUID {
      return Ok(None);
    }
    var p := Decoded(entry);
    if p.firstLba < t.firstUsable || p.lastLba > t.lastUsable || p.firstLba > p.lastLba {
      return Err(InvalidPartition);
    }
    return Ok(Some(p));
  }

  /** The search passes everything before `at` and stops there with `r`, or has passed everything. */
  ghost predicate Stops(t: Table, img: Image, guid: Guid, at: nat, r: Result<Partition, GptError>)
    requires Sound(t, |img|)
  {
    && at <= t.entryCount && (forall j | 0 <= j < at :: Passed(t, img, guid, j))
    && if at == t.entryCount then r == Err(PartitionNotFound)
       else match EntryOf(t, Slot(t, img, at))
         case Err(e) => r == Err(e)
         case Ok(p) => p.Some? && p.value.typeGuid == guid && r == Ok(p.value)
  }

  /** `Gpt::find_partition`: the first partition of the type, unless an entry before it is refused. */
  method FindPartition(t: Table, device: Disk, guid: Guid) returns (r: Result<Partition, GptError>)
    requires Sound(t, |device.durable|)
    ensures exists at :: Stops(t, device.View(), guid, at, r)
  {
    hide Apply, Slot, Decoded, BytesFrom;
    for index := 0 to t.entryCount
      invariant forall j | 0 <= j < index :: Passed(t, device.View(), guid, j)
    {
      var p := ReadPartition(t, device, index);
      if p.Err? {
        r := Err(p.error);
        assert Stops(t, device.View(), guid, index, r);
        return;
      }
      if p.value.Some? && p.value.value.typeGuid == guid {
        r := Ok(p.value.value);
        assert Stops(t, device.View(), guid, index, r);
        return;
      }
    }
    r := Err(PartitionNotFound);
    assert Stops(t, device.View(), guid, t.entryCount, r);
  }

  /** An accepted table stays accepted, and says the same, as long as its own sectors do. */
  lemma TableFrame(step: ByteStep, a: Image, b: Image)
    requires Acceptable(step, a) && |a| == |b|
    requires forall i | 0 <= i < Described(a[1]).firstUsable :: a[i] == b[i]
    ensures Acceptable(step, b) && Described(b[1]) == Described(a[1])
    ensures forall k | 0 <= k < Described(a[1]).entryCount ::
      Slot(Described(a[1]), a, k) == Slot(Described(a[1]), b, k)
  {
    hide Crc32, Put, Read32, Read64;
    var t := Described(a[1]);
    assert a[1] == b[1];
    assert BytesFrom(a, t.entriesLba, EntryBytes(t)) == BytesFrom(b, t.entriesLba, EntryBytes(t));
  }
}
