/** The partition table the installer writes. */
module Installer {
  import opened Bytes
  import opened Crc
  import opened Records
  import opened Disks
  import opened Gpt

  const ESP_START := 2048
  const ESP_SECTORS := 262_144
  const ENTRY_COUNT := 128
  const ENTRY_SIZE := 128
  const ENTRY_SECTORS := 32
  const ARRAY_BYTES := 16_384
  const MIN_DISK_SECTORS := ESP_START + ESP_SECTORS + 4096
  const DFS_START := ESP_START + ESP_SECTORS
  const ALIGNMENT := 2048
  const GPT_REVISION := 0x0001_0000

  const ESP_GUID: Guid :=
    [0x28, 0x73, 0x2a, 0xc1, 0x1f, 0xf8, 0xd2, 0x11, 0xba, 0x4b, 0x00, 0xa0, 0xc9, 0x3e, 0xc9, 0x3b]

  /** "IMAGINEOS_ESP" */
  const ESP_NAME: seq<byte> := [0x49, 0x4d, 0x41, 0x47, 0x49, 0x4e, 0x45, 0x4f, 0x53, 0x5f, 0x45, 0x53, 0x50]
  /** "DREAMCORE_DFS" */
  const DFS_NAME: seq<byte> := [0x44, 0x52, 0x45, 0x41, 0x4d, 0x43, 0x4f, 0x52, 0x45, 0x5f, 0x44, 0x46, 0x53]

  datatype InstallError = DiskTooSmall | DfsFormat

  /** The identifiers drawn for the disk and its two partitions. */
  datatype Guids = Guids(disk: Guid, esp: Guid, dfs: Guid)

  // ---------------------------------------------------------------- where the partitions go

  function LastUsable(total: nat): int { total - 34 }

  /** The last sector of the DFS partition: the one before the last aligned sector there is room for. */
  function DfsEnd(total: nat): int { LastUsable(total) - (LastUsable(total) + 1) % ALIGNMENT }

  /** On every disk the installer accepts: both table copies, the ESP and the DFS partition lie one behind the other,
    * the DFS partition begins and ends on an alignment boundary, and no larger aligned one would fit. */
  lemma PartitionsInOrder(total: nat)
    requires total >= MIN_DISK_SECTORS
    ensures LastUsable(total) + 1 == total - 33
    ensures 2 + ENTRY_SECTORS <= ESP_START && ESP_START + ESP_SECTORS == DFS_START
    ensures DFS_START < DfsEnd(total) <= LastUsable(total) < total - 33
    ensures DFS_START % ALIGNMENT == 0 && (DfsEnd(total) + 1) % ALIGNMENT == 0
    ensures DfsEnd(total) + 1 - DFS_START >= ALIGNMENT
    ensures forall x | x % ALIGNMENT == 0 && x - 1 <= LastUsable(total) :: x - 1 <= DfsEnd(total)
  {}

  // ---------------------------------------------------------------- entries

  /** The name field of an entry: a character in every other byte. */
  function NameOver(was: seq<byte>, name: seq<byte>): (r: seq<byte>)
    requires |was| == 72
    ensures |r| == 72
  {
    seq(72, i requires 0 <= i < 72 => if i % 2 == 0 && i / 2 < |name| then name[i / 2] else was[i])
  }

  /** A table entry written over `slot`. */
  function EntryOver(slot: seq<byte>, typeGuid: Guid, uniqueGuid: Guid, first: u64, last: u64, name: seq<byte>)
    : (r: seq<byte>)
    requires |slot| == ENTRY_SIZE
    ensures |r| == ENTRY_SIZE
  {
    typeGuid + uniqueGuid + Le(first, 8) + Le(last, 8) + slot[48..56] + NameOver(slot[56..], name)
  }

  /** Type, identifier, first and last sector, the attributes that were there, and up to 36 characters of the name, each
    * in two bytes of which the second stays. */
  lemma EntryIs(slot: seq<byte>, typeGuid: Guid, uniqueGuid: Guid, first: u64, last: u64, name: seq<byte>)
    requires |slot| == ENTRY_SIZE
    ensures var e := EntryOver(slot, typeGuid, uniqueGuid, first, last, name);
      && e[..16] == typeGuid && e[16..32] == uniqueGuid && Read64(e, 32) == first && Read64(e, 40) == last
      && e[48..56] == slot[48..56]
      && forall k | 0 <= k < 36 ::
           e[56 + 2 * k] == (if k < |name| then name[k] else slot[56 + 2 * k]) && e[57 + 2 * k] == slot[57 + 2 * k]
  {
    hide Le, FromLe;
    var e := EntryOver(slot, typeGuid, uniqueGuid, first, last, name);
    assert e[32..40] == Le(first, 8) && e[40..48] == Le(last, 8);
    Le64(first);
    Le64(last);
    forall k | 0 <= k < 36
      ensures e[56 + 2 * k] == (if k < |name| then name[k] else slot[56 + 2 * k]) && e[57 + 2 * k] == slot[57 + 2 * k]
    {
      assert e[56 + 2 * k] == NameOver(slot[56..], name)[2 * k];
      assert e[57 + 2 * k] == NameOver(slot[56..], name)[2 * k + 1];
    }
  }

  /** The entry array of a disk of `total` sectors. */
  function EntryArray(ids: Guids, total: nat): (r: seq<byte>)
    requires DFS_START <= DfsEnd(total) + 1 && total < 0x1_0000_0000_0000_0000
    ensures |r| == ARRAY_BYTES
  {
    EntryOver(Zeros(ENTRY_SIZE), ESP_GUID, ids.esp, ESP_START, ESP_START + ESP_SECTORS - 1, ESP_NAME)
    + EntryOver(Zeros(ENTRY_SIZE), DFS_GUID, ids.dfs, DFS_START, DfsEnd(total), DFS_NAME)
    + Zeros(ARRAY_BYTES - 2 * ENTRY_SIZE)
  }

  /** `copy_from_slice` into part of a buffer. */
  method CopyInto(buffer: array<byte>, at: nat, bytes: seq<byte>)
    requires at + |bytes| <= buffer.Length
    modifies buffer
    ensures buffer[..] == Put(old(buffer[..]), at, bytes)
  {
    for k := 0 to |bytes|
      invariant forall j | 0 <= j < buffer.Length ::
        buffer[j] == if at <= j < at + k then bytes[j - at] else old(buffer[j])
    {
      buffer[at + k] := bytes[k];
    }
  }

  /** The fixed fields of an entry, put one after the other. */
  lemma EntryFields(was: seq<byte>, start: nat, a: Guid, b: Guid, c: seq<byte>, d: seq<byte>)
    requires |c| == |d| == 8 && start + ENTRY_SIZE <= |was|
    ensures Put(Put(Put(Put(was, start, a), start + 16, b), start + 32, c), start + 40, d)
            == Put(was, start, a + b + c + d)
  {
    hide Put;
    PutPut(was, start, a, b);
    PutPut(was, start, a + b, c);
    PutPut(was, start, a + b + c, d);
  }

  lemma PutPut(was: seq<byte>, start: nat, x: seq<byte>, y: seq<byte>)
    requires start + |x| + |y| <= |was|
    ensures Put(Put(was, start, x), start + |x|, y) == Put(was, start, x + y)
  {
    var r, once := Put(Put(was, start, x), start + |x|, y), Put(was, start, x + y);
    forall j | 0 <= j < |was|
      ensures r[j] == once[j]
    {
      PutAt(Put(was, start, x), start + |x|, y, j);
      PutAt(was, start, x, j);
      PutAt(was, start, x + y, j);
    }
  }

  /** `write_partition_entry`. */
  method WritePartitionEntry(entries: array<byte>, index: nat, typeGuid: Guid, uniqueGuid: Guid, first: u64, last: u64,
                             name: seq<byte>)
    requires index * ENTRY_SIZE + ENTRY_SIZE <= entries.Length
    modifies entries
    ensures var start := index * ENTRY_SIZE;
      var was := old(entries[..]);
      entries[..] == Put(was, start, EntryOver(was[start..start + ENTRY_SIZE], typeGuid, uniqueGuid, first, last, name))
  {
    hide Put, Le;
    var start := index * ENTRY_SIZE;
    ghost var was := entries[..];
    CopyInto(entries, start, typeGuid);
    CopyInto(entries, start + 16, uniqueGuid);
    CopyInto(entries, start + 32, Le(first, 8));
    CopyInto(entries, start + 40, Le(last, 8));
    EntryFields(was, start, typeGuid, uniqueGuid, Le(first, 8), Le(last, 8));
    ghost var now := entries[..];
    for k := 0 to Min(|name|, 36)
      invariant forall j | 0 <= j < entries.Length :: entries[j] == Named(now, start + 56, name[..k], j)
    {
      entries[start + 56 + 2 * k] := name[k];
    }
    EntryDone(was, start, typeGuid + uniqueGuid + Le(first, 8) + Le(last, 8), name, entries[..]);
    SubSlice(was, start, ENTRY_SIZE, 48, 56);
    SubSlice(was, start, ENTRY_SIZE, 56, ENTRY_SIZE);
  }

  /** Byte `j` when the characters of `name` are stored in every other byte from `at` on. */
  function Named(was: seq<byte>, at: nat, name: seq<byte>, j: nat): byte
    requires j < |was|
  {
    if j >= at && (j - at) % 2 == 0 && (j - at) / 2 < |name| then name[(j - at) / 2] else was[j]
  }

  lemma EntryDone(was: seq<byte>, start: nat, fixed: seq<byte>, name: seq<byte>, now: seq<byte>)
    requires |fixed| == 48 && start + ENTRY_SIZE <= |was| == |now|
    requires forall j | 0 <= j < |now| ::
      now[j] == Named(Put(was, start, fixed), start + 56, name[..Min(|name|, 36)], j)
    ensures now == Put(was, start, fixed + was[start + 48..start + 56] + NameOver(was[start + 56..start + ENTRY_SIZE], name))
  {
    var r := fixed + was[start + 48..start + 56] + NameOver(was[start + 56..start + ENTRY_SIZE], name);
    forall j | 0 <= j < |now|
      ensures now[j] == Put(was, start, r)[j]
    {
      PutAt(was, start, fixed, j);
      PutAt(was, start, r, j);
    }
  }

  /** The array is cleared and its two entries written. */
  method FillEntries(entries: array<byte>, ids: Guids, total: nat)
    requires entries.Length == ARRAY_BYTES
    requires DFS_START <= DfsEnd(total) + 1 && total < 0x1_0000_0000_0000_0000
    modifies entries
    ensures entries[..] == EntryArray(ids, total)
  {
    hide EntryOver;
    for k := 0 to ARRAY_BYTES
      invariant forall j | 0 <= j < k :: entries[j] == 0
    {
      entries[k] := 0;
    }
    assert entries[..] == Zeros(ARRAY_BYTES);
    var espEnd := ESP_START + ESP_SECTORS - 1;
    WritePartitionEntry(entries, 0, ESP_GUID, ids.esp, ESP_START, espEnd, ESP_NAME);
    assert Zeros(ARRAY_BYTES)[0..ENTRY_SIZE] == Zeros(ENTRY_SIZE);
    ghost var esp := EntryOver(Zeros(ENTRY_SIZE), ESP_GUID, ids.esp, ESP_START, espEnd, ESP_NAME);
    assert entries[..] == esp + Zeros(ARRAY_BYTES - ENTRY_SIZE);
    WritePartitionEntry(entries, 1, DFS_GUID, ids.dfs, DFS_START, DfsEnd(total), DFS_NAME);
    assert (esp + Zeros(ARRAY_BYTES - ENTRY_SIZE))[ENTRY_SIZE..2 * ENTRY_SIZE] == Zeros(ENTRY_SIZE);
    assert entries[..] == EntryArray(ids, total);
  }

  /** The entry array goes to the `ENTRY_SECTORS` sectors from `at` on. */
  method WriteEntries(device: Disk, at: nat, entries: array<byte>)
    requires entries.Length == ARRAY_BYTES && at + ENTRY_SECTORS <= |device.durable|
    modifies device
    ensures device.durable == old(device.durable)
    ensures BytesFrom(device.View(), at, ARRAY_BYTES) == entries[..]
    ensures forall i | 0 <= i < |device.durable| && !(at <= i < at + ENTRY_SECTORS) ::
      device.View()[i] == old(device.View())[i]
  {
    hide Apply;
    for index := 0 to ENTRY_SECTORS
      invariant device.durable == old(device.durable)
      invariant forall i | 0 <= i < index :: device.View()[at + i] == entries[512 * i..512 * i + 512]
      invariant forall i | 0 <= i < |device.durable| && !(at <= i < at + index) ::
        device.View()[i] == old(device.View())[i]
    {
      device.WriteSector(at + index, entries[512 * index..512 * index + 512]);
    }
    Gathered(device.View(), at, entries[..]);
  }

  lemma Gathered(img: Image, at: nat, bytes: seq<byte>)
    requires |bytes| == ARRAY_BYTES && at + ENTRY_SECTORS <= |img|
    requires forall i | 0 <= i < ENTRY_SECTORS :: img[at + i] == bytes[512 * i..512 * i + 512]
    ensures BytesFrom(img, at, ARRAY_BYTES) == bytes
  {
    forall j | 0 <= j < ARRAY_BYTES
      ensures BytesFrom(img, at, ARRAY_BYTES)[j] == bytes[j]
    {
      var i := j / 512;
      assert img[at + i] == bytes[512 * i..512 * i + 512];
    }
  }

  // ---------------------------------------------------------------- headers

  function HeaderFields(current: u64, backup: u64, first: u64, last: u64, entriesLba: u64, sum: u32, disk: Guid)
    : (fields: seq<Field>)
    ensures |fields| == 12 && Within(fields, 92)
  {
    [ Field(0, SIGNATURE),
      Field(8, Le(GPT_REVISION, 4)),
      Field(12, Le(92, 4)),
      Field(24, Le(current, 8)),
      Field(32, Le(backup, 8)),
      Field(40, Le(first, 8)),
      Field(48, Le(last, 8)),
      Field(56, disk),
      Field(72, Le(entriesLba, 8)),
      Field(80, Le(ENTRY_COUNT, 4)),
      Field(84, Le(ENTRY_SIZE, 4)),
      Field(88, Le(sum, 4)) ]
  }

  /** A header with its checksum. */
  function HeaderSector(step: ByteStep, fields: seq<Field>): Sector
    requires Within(fields, 92)
  {
    WithinMore(fields);
    var body := Filled(ZERO_SECTOR, fields);
    Put(body, 16, Le(Crc32(step, body[..92]), 4))
  }

  lemma WithinMore(fields: seq<Field>)
    requires Within(fields, 92)
    ensures Within(fields, 512)
  {}

  /** The fields up to the usable sectors. */
  method HeaderStart(current: u64, backup: u64, first: u64, last: u64, ghost fields: seq<Field>) returns (header: Sector)
    requires |fields| == 12 && Within(fields, 92)
    requires fields[..7] == HeaderFields(current, backup, first, last, 0, 0, NO_GUID)[..7]
    ensures Within(fields[..7], 512) && header == Filled(ZERO_SECTOR, fields[..7])
  {
    hide Put, Le, Filled, Within;
    ghost var f := HeaderFields(current, backup, first, last, 0, 0, NO_GUID);
    assert forall k | 0 <= k < 7 :: fields[k] == fields[..7][k] && fields[..7][k] == f[..7][k] && f[..7][k] == f[k];
    FilledNothing(ZERO_SECTOR);
    assert fields[..0] == [];
    header := Put(ZERO_SECTOR, 0, SIGNATURE);
    FilledFrom(ZERO_SECTOR, fields, 92, 0);
    header := Put(header, 8, Le(GPT_REVISION, 4));
    FilledFrom(ZERO_SECTOR, fields, 92, 1);
    header := Put(header, 12, Le(92, 4));
    FilledFrom(ZERO_SECTOR, fields, 92, 2);
    header := Put(header, 24, Le(current, 8));
    FilledFrom(ZERO_SECTOR, fields, 92, 3);
    header := Put(header, 32, Le(backup, 8));
    FilledFrom(ZERO_SECTOR, fields, 92, 4);
    header := Put(header, 40, Le(first, 8));
    FilledFrom(ZERO_SECTOR, fields, 92, 5);
    header := Put(header, 48, Le(last, 8));
    FilledFrom(ZERO_SECTOR, fields, 92, 6);
  }

  /** `make_gpt_header`. */
  method MakeGptHeader(step: ByteStep, current: u64, backup: u64, first: u64, last: u64, entriesLba: u64, sum: u32,
                       disk: Guid) returns (header: Sector)
    ensures header == HeaderSector(step, HeaderFields(current, backup, first, last, entriesLba, sum, disk))
  {
    hide Put, Le, Filled, Within;
    ghost var f := HeaderFields(current, backup, first, last, entriesLba, sum, disk);
    header := HeaderStart(current, backup, first, last, f);
    header := Put(header, 56, disk);
    FilledFrom(ZERO_SECTOR, f, 92, 7);
    header := Put(header, 72, Le(entriesLba, 8));
    FilledFrom(ZERO_SECTOR, f, 92, 8);
    header := Put(header, 80, Le(ENTRY_COUNT, 4));
    FilledFrom(ZERO_SECTOR, f, 92, 9);
    header := Put(header, 84, Le(ENTRY_SIZE, 4));
    FilledFrom(ZERO_SECTOR, f, 92, 10);
    header := Put(header, 88, Le(sum, 4));
    FilledFrom(ZERO_SECTOR, f, 92, 11);
    header := Put(header, 16, Le(Crc32(step, header[..92]), 4));
  }

  /** No field lies where the checksum goes. */
  ghost predicate SparesSum(fields: seq<Field>) {
    forall k | 0 <= k < |fields| :: Past(fields[k]) <= 16 || 20 <= fields[k].at
  }

  /** Every field of a header reads back, and without its checksum it is the record the checksum was taken of. */
  lemma HeaderReads(step: ByteStep, fields: seq<Field>, k: nat)
    requires Within(fields, 92) && Disjoint(fields) && SparesSum(fields) && k < |fields|
    ensures Within(fields, 512)
    ensures HeaderSector(step, fields)[16..20] == Le(Crc32(step, Filled(ZERO_SECTOR, fields)[..92]), 4)
    ensures Unsummed(HeaderSector(step, fields)) == Filled(ZERO_SECTOR, fields)
    ensures fields[k] in fields
    ensures HeaderSector(step, fields)[fields[k].at..Past(fields[k])] == fields[k].bytes
  {
    WithinMore(fields);
    var body := Filled(ZERO_SECTOR, fields);
    var sum := Le(Crc32(step, body[..92]), 4);
    FilledReads(ZERO_SECTOR, fields, k);
    FilledElsewhere(ZERO_SECTOR, fields, 16, 20);
    PutBack(body, sum);
    PutElsewhere(body, 16, sum, fields[k].at, Past(fields[k]));
  }

  lemma PutBack(body: Sector, sum: seq<byte>)
    requires |sum| == 4 && body[16..20] == ZERO_SECTOR[16..20]
    ensures Put(Put(body, 16, sum), 16, Zeros(4)) == body
  {
    var r := Put(Put(body, 16, sum), 16, Zeros(4));
    forall j | 0 <= j < 512
      ensures r[j] == body[j]
    {
      PutAt(Put(body, 16, sum), 16, Zeros(4), j);
      PutAt(body, 16, sum, j);
      if 16 <= j < 20 {
        assert body[16..20][j - 16] == ZERO_SECTOR[16..20][j - 16];
      }
    }
  }
}
