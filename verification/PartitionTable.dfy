/** What the installer writes is what the reader accepts and finds. */
module PartitionTable {
  import opened Bytes
  import opened Crc
  import opened Records
  import opened Disks
  import opened Gpt
  import opened Installer
  import opened Partitioning

  /** A header as the reader sees it. */
  ghost predicate Says(step: ByteStep, h: Sector, current: u64, backup: u64, t: Table, sum: u32) {
    && h[..8] == SIGNATURE && Read32(h, 12) == 92
    && Read64(h, 24) == current && Read64(h, 32) == backup
    && Described(h) == t
    && Read32(h, 88) == sum
    && Crc32(step, Unsummed(h)[..92]) == Read32(h, 16)
  }

  lemma FieldsAscend(current: u64, backup: u64, first: u64, last: u64, entriesLba: u64, sum: u32, disk: Guid)
    ensures var f := HeaderFields(current, backup, first, last, entriesLba, sum, disk);
      forall k | 0 <= k < |f| - 1 :: Past(f[k]) <= f[k + 1].at
  {
    hide Le;
  }

  lemma FieldsApart(current: u64, backup: u64, first: u64, last: u64, entriesLba: u64, sum: u32, disk: Guid)
    ensures var f := HeaderFields(current, backup, first, last, entriesLba, sum, disk);
      Disjoint(f) && SparesSum(f)
  {
    hide Le;
    var f := HeaderFields(current, backup, first, last, entriesLba, sum, disk);
    FieldsAscend(current, backup, first, last, entriesLba, sum, disk);
    Ascending(f);
  }

  /** Field `k` of a header, where it stands. */
  lemma HeaderField(step: ByteStep, f: seq<Field>, k: nat)
    requires Within(f, 92) && Disjoint(f) && SparesSum(f) && k < |f|
    ensures f[k] in f && HeaderSector(step, f)[f[k].at..Past(f[k])] == f[k].bytes
  {
    hide HeaderSector;
    HeaderReads(step, f, k);
  }

  lemma HeaderSums(step: ByteStep, f: seq<Field>)
    requires |f| > 0 && Within(f, 92) && Disjoint(f) && SparesSum(f)
    ensures var h := HeaderSector(step, f); Crc32(step, Unsummed(h)[..92]) == Read32(h, 16)
  {
    hide HeaderSector, Filled, Crc32;
    HeaderReads(step, f, 0);
    Le32(Crc32(step, Filled(ZERO_SECTOR, f)[..92]));
  }

  lemma Number32(step: ByteStep, f: seq<Field>, k: nat, at: nat, v: u32)
    requires Within(f, 92) && Disjoint(f) && SparesSum(f) && k < |f| && f[k] == Field(at, Le(v, 4))
    ensures at + 4 <= 512 && Read32(HeaderSector(step, f), at) == v
  {
    hide HeaderSector, Le, FromLe;
    HeaderField(step, f, k);
    Le32(v);
  }

  lemma Number64(step: ByteStep, f: seq<Field>, k: nat, at: nat, v: u64)
    requires Within(f, 92) && Disjoint(f) && SparesSum(f) && k < |f| && f[k] == Field(at, Le(v, 8))
    ensures at + 8 <= 512 && Read64(HeaderSector(step, f), at) == v
  {
    hide HeaderSector, Le, FromLe;
    HeaderField(step, f, k);
    Le64(v);
  }

  /** A header reads back as it was made. */
  lemma HeaderSays(step: ByteStep, current: u64, backup: u64, first: u64, last: u64, entriesLba: u64, sum: u32, disk: Guid)
    ensures Says(step, HeaderSector(step, HeaderFields(current, backup, first, last, entriesLba, sum, disk)), current, backup,
                 Table(first, last, entriesLba, ENTRY_COUNT, ENTRY_SIZE), sum)
    ensures var h := HeaderSector(step, HeaderFields(current, backup, first, last, entriesLba, sum, disk));
      Read32(h, 8) == 0x1_0000 && h[56..72] == disk
  {
    hide HeaderSector, Filled, Crc32, Le, FromLe, Unsummed, Disjoint, SparesSum, Read32, Read64, Within;
    var f := HeaderFields(current, backup, first, last, entriesLba, sum, disk);
    var h := HeaderSector(step, f);
    FieldsApart(current, backup, first, last, entriesLba, sum, disk);
    HeaderSums(step, f);
    HeaderField(step, f, 0);
    assert h[0..8] == h[..8];
    Number32(step, f, 1, 8, 0x1_0000);
    HeaderField(step, f, 7);
    Number32(step, f, 2, 12, 92);
    Number64(step, f, 3, 24, current);
    Number64(step, f, 4, 32, backup);
    Number64(step, f, 5, 40, first);
    Number64(step, f, 6, 48, last);
    Number64(step, f, 8, 72, entriesLba);
    Number32(step, f, 9, 80, ENTRY_COUNT);
    Number32(step, f, 10, 84, ENTRY_SIZE);
    Number32(step, f, 11, 88, sum);
  }

  // ---------------------------------------------------------------- acceptance

  function PrimaryTable(total: nat): (t: Table)
    requires Roomy(total)
    ensures Sound(t, total)
  {
    Table(34, LastUsable(total), 2, ENTRY_COUNT, ENTRY_SIZE)
  }

  /** The reader accepts every table the installer writes. */
  lemma WrittenIsAccepted(step: ByteStep, img: Image, ids: Guids)
    requires Partitioned(step, img, ids)
    ensures Acceptable(step, img) && Described(img[1]) == PrimaryTable(|img|)
  {
    hide HeaderSector, Crc32, EntryArray, BytesFrom, Filled, Read32, Read64, Unsummed, HeaderFields, MbrFields, Put, Le;
    var total := |img|;
    var sum := Crc32(step, EntryArray(ids, total));
    HeaderSays(step, 1, total - 1, 34, LastUsable(total), 2, sum, ids.disk);
  }

  /** The backup copy says the same of the disk, with the two headers' places exchanged. */
  lemma BackupAgrees(step: ByteStep, img: Image, ids: Guids)
    requires Partitioned(step, img, ids)
    ensures |img| >= 34 && BytesFrom(img, |img| - 33, ARRAY_BYTES) == BytesFrom(img, 2, ARRAY_BYTES)
    ensures Says(step, img[|img| - 1], |img| - 1, 1, PrimaryTable(|img|).(entriesLba := |img| - 33), Read32(img[1], 88))
    ensures Read64(img[1], 32) == |img| - 1
  {
    hide HeaderSector, Crc32, EntryArray, BytesFrom, Filled, Read32, Read64, Unsummed;
    var total := |img|;
    var sum := Crc32(step, EntryArray(ids, total));
    HeaderSays(step, 1, total - 1, 34, LastUsable(total), 2, sum, ids.disk);
    HeaderSays(step, total - 1, 1, 34, LastUsable(total), total - 33, sum, ids.disk);
  }

  // ---------------------------------------------------------------- the partitions

  lemma DecodedEntry(typeGuid: Guid, uniqueGuid: Guid, first: u64, last: u64, name: seq<byte>)
    ensures var e := EntryOver(Zeros(ENTRY_SIZE), typeGuid, uniqueGuid, first, last, name);
      e[..16] == typeGuid && Decoded(e) == Partition(typeGuid, uniqueGuid, first, last, 0)
  {
    hide Le, FromLe, NameOver;
    var e := EntryOver(Zeros(ENTRY_SIZE), typeGuid, uniqueGuid, first, last, name);
    assert e[..16] == typeGuid;
    assert e[16..32] == uniqueGuid;
    assert e[32..40] == Le(first, 8);
    assert e[40..48] == Le(last, 8);
    assert e[48..56] == Zeros(8);
    Le64(first);
    Le64(last);
    Le64(0);
    ZeroField(8);
  }

  lemma {:induction false} ZeroField(k: nat)
    ensures Le(0, k) == Zeros(k)
  {
    if k > 0 {
      ZeroField(k - 1);
    }
  }

  /** Entry `k` of the array that was written. */
  lemma WrittenSlot(step: ByteStep, img: Image, ids: Guids, k: nat)
    requires Partitioned(step, img, ids) && k < ENTRY_COUNT
    ensures Slot(PrimaryTable(|img|), img, k) == EntryArray(ids, |img|)[128 * k..128 * k + 128]
  {
    hide HeaderSector, Crc32, EntryArray, BytesFrom, Filled;
    var t := PrimaryTable(|img|);
    assert EntryBytes(t) == ARRAY_BYTES;
    SlotEnds(t, k);
  }

  lemma FirstSlots(ids: Guids, total: nat)
    requires Roomy(total)
    ensures EntryArray(ids, total)[0..128]
            == EntryOver(Zeros(ENTRY_SIZE), ESP_GUID, ids.esp, ESP_START, ESP_START + ESP_SECTORS - 1, ESP_NAME)
    ensures EntryArray(ids, total)[128..256]
            == EntryOver(Zeros(ENTRY_SIZE), DFS_GUID, ids.dfs, DFS_START, DfsEnd(total), DFS_NAME)
  {
    hide EntryOver;
  }

  lemma OtherSlots(ids: Guids, total: nat, k: nat)
    requires Roomy(total) && 2 <= k < ENTRY_COUNT
    ensures EntryArray(ids, total)[128 * k..128 * k + 128][..16] == NO_GUID
  {
    hide EntryOver;
    var e := EntryArray(ids, total)[128 * k..128 * k + 128];
    assert forall i | 0 <= i < 16 :: e[i] == EntryArray(ids, total)[128 * k + i];
  }

  function EspPartition(ids: Guids): Partition {
    Partition(ESP_GUID, ids.esp, ESP_START, ESP_START + ESP_SECTORS - 1, 0)
  }

  function DfsPartition(ids: Guids, total: nat): Partition
    requires Roomy(total)
  {
    Partition(DFS_GUID, ids.dfs, DFS_START, DfsEnd(total), 0)
  }

  /** The table lists the ESP, the DFS partition and nothing else. */
  lemma WrittenPartitions(step: ByteStep, img: Image, ids: Guids, k: nat)
    requires Partitioned(step, img, ids) && k < ENTRY_COUNT
    ensures var e := EntryOf(PrimaryTable(|img|), Slot(PrimaryTable(|img|), img, k));
      e == Ok(if k == 0 then Some(EspPartition(ids)) else if k == 1 then Some(DfsPartition(ids, |img|)) else None)
  {
    hide HeaderSector, Crc32, EntryArray, BytesFrom, Filled, EntryOver, Slot, Decoded;
    var total := |img|;
    WrittenSlot(step, img, ids, k);
    FirstSlots(ids, total);
    GuidsDiffer();
    if k == 0 {
      DecodedEntry(ESP_GUID, ids.esp, ESP_START, ESP_START + ESP_SECTORS - 1, ESP_NAME);
    } else if k == 1 {
      DecodedEntry(DFS_GUID, ids.dfs, DFS_START, DfsEnd(total), DFS_NAME);
    } else {
      OtherSlots(ids, total, k);
    }
  }

  lemma GuidsDiffer()
    ensures ESP_GUID != DFS_GUID && ESP_GUID != NO_GUID && DFS_GUID != NO_GUID
  {
    assert ESP_GUID[0] == 0x28 && DFS_GUID[0] == 0x9d && NO_GUID[0] == 0;
  }

  /** A search for the DFS partition stops at it. */
  lemma SearchEnds(step: ByteStep, img: Image, ids: Guids, at: nat, r: Result<Partition, GptError>)
    requires Partitioned(step, img, ids) && Stops(PrimaryTable(|img|), img, DFS_GUID, at, r)
    ensures r == Ok(DfsPartition(ids, |img|))
  {
    hide HeaderSector, Crc32, EntryArray, BytesFrom, Filled, Slot, EntryOf;
    WrittenPartitions(step, img, ids, 0);
    WrittenPartitions(step, img, ids, 1);
    GuidsDiffer();
    if at < ENTRY_COUNT {
      WrittenPartitions(step, img, ids, at);
    }
    assert Passed(PrimaryTable(|img|), img, DFS_GUID, 1) == false;
  }
}
