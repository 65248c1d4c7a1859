/** `write_gpt`, and that the reader finds in it what was written. */
module Partitioning {
  import opened Bytes
  import opened Crc
  import opened Records
  import opened Disks
  import opened Gpt
  import opened Installer

  /** Room for a DFS partition behind the ESP. */
  predicate Roomy(total: nat) {
    DFS_START < DfsEnd(total) && total < 0x1_0000_0000_0000_0000
  }

  /** The smallest disk with such room, and the smallest on which no bound is negative. */
  const SMALLEST := 266_273
  const COUNTABLE := 2081

  /** The smallest disk with room for a DFS partition. */
  lemma RoomyDisks(total: nat)
    requires COUNTABLE <= total < 0x1_0000_0000_0000_0000
    ensures Roomy(total) <==> total >= SMALLEST
  {}

  function MbrFields(total: nat): (fields: seq<Field>)
    requires 1 <= total
    ensures |fields| == 4 && Within(fields, 512)
  {
    [ Field(450, [0xee]),
      Field(454, Le(1, 4)),
      Field(458, Le(Min(total - 1, 0xffff_ffff), 4)),
      Field(510, [0x55, 0xaa]) ]
  }

  /** The boot record protects everything behind itself with one partition of type 0xee, and nothing else is in it. */
  lemma MbrSays(total: nat)
    requires 1 <= total
    ensures var mbr := Filled(ZERO_SECTOR, MbrFields(total));
      && mbr[450] == 0xee && Read32(mbr, 454) == 1 && Read32(mbr, 458) == Min(total - 1, 0xffff_ffff)
      && mbr[510] == 0x55 && mbr[511] == 0xaa
      && mbr[..450] == Zeros(450) && mbr[451..454] == Zeros(3) && mbr[462..510] == Zeros(48)
  {
    hide Le, FromLe;
    var f := MbrFields(total);
    var mbr := Filled(ZERO_SECTOR, f);
    Ascending(f);
    FilledReads(ZERO_SECTOR, f, 0);
    FilledReads(ZERO_SECTOR, f, 1);
    FilledReads(ZERO_SECTOR, f, 2);
    FilledReads(ZERO_SECTOR, f, 3);
    Le32(1);
    Le32(Min(total - 1, 0xffff_ffff));
    FilledElsewhere(ZERO_SECTOR, f, 0, 450);
    FilledElsewhere(ZERO_SECTOR, f, 451, 454);
    FilledElsewhere(ZERO_SECTOR, f, 462, 510);
    assert mbr[450..451][0] == mbr[450] && mbr[510..512] == [mbr[510], mbr[511]];
    assert mbr[0..450] == mbr[..450];
  }

  /** The numbers of the primary header, then those of the backup. */
  function PrimaryFields(ids: Guids, total: nat, sum: u32): (fields: seq<Field>)
    requires Roomy(total)
    ensures |fields| == 12 && Within(fields, 92)
  {
    HeaderFields(1, total - 1, 34, LastUsable(total), 2, sum, ids.disk)
  }

  function BackupFields(ids: Guids, total: nat, sum: u32): (fields: seq<Field>)
    requires Roomy(total)
    ensures |fields| == 12 && Within(fields, 92)
  {
    HeaderFields(total - 1, 1, 34, LastUsable(total), total - 33, sum, ids.disk)
  }

  /** Both copies of the table and the protective boot record are on the disk. */
  ghost predicate Partitioned(step: ByteStep, img: Image, ids: Guids) {
    && Roomy(|img|)
    && var total := |img|;
    && var sum := Crc32(step, EntryArray(ids, total));
    && img[0] == Filled(ZERO_SECTOR, MbrFields(total))
    && img[1] == HeaderSector(step, PrimaryFields(ids, total, sum))
    && BytesFrom(img, 2, ARRAY_BYTES) == EntryArray(ids, total)
    && BytesFrom(img, total - 33, ARRAY_BYTES) == EntryArray(ids, total)
    && img[total - 1] == HeaderSector(step, BackupFields(ids, total, sum))
  }

  /** Outside the two copies nothing is touched. */
  predicate BetweenCopies(total: nat, lba: nat) { 34 <= lba < total - 33 }

  /** A table copy that is not written to stays as it is. */
  lemma BytesFrame(a: Image, b: Image, at: nat)
    requires |a| == |b| && at + ENTRY_SECTORS <= |a|
    requires forall i | at <= i < at + ENTRY_SECTORS :: a[i] == b[i]
    ensures BytesFrom(a, at, ARRAY_BYTES) == BytesFrom(b, at, ARRAY_BYTES)
  {}

  method ProtectiveMbr(total: u64) returns (mbr: Sector)
    requires 1 <= total
    ensures mbr == Filled(ZERO_SECTOR, MbrFields(total))
  {
    hide Put, Le, Filled, Within;
    ghost var f := MbrFields(total);
    FilledNothing(ZERO_SECTOR);
    assert f[..0] == [];
    mbr := Put(ZERO_SECTOR, 450, [0xee]);
    FilledFrom(ZERO_SECTOR, f, 512, 0);
    mbr := Put(mbr, 454, Le(1, 4));
    FilledFrom(ZERO_SECTOR, f, 512, 1);
    mbr := Put(mbr, 458, Le(Min(total - 1, 0xffff_ffff), 4));
    FilledFrom(ZERO_SECTOR, f, 512, 2);
    mbr := Put(mbr, 510, [0x55, 0xaa]);
    FilledFrom(ZERO_SECTOR, f, 512, 3);
  }

  /** The backup copy is written first, then the primary one, then the boot record. */
  method WriteGpt(step: ByteStep, device: Disk, entries: array<byte>, ids: Guids) returns (ok: bool)
    requires entries.Length == ARRAY_BYTES && COUNTABLE <= |device.durable| < 0x1_0000_0000_0000_0000
    modifies device, entries
    ensures device.durable == old(device.durable)
    ensures ok <==> |device.durable| >= SMALLEST
    ensures ok ==> Partitioned(step, device.View(), ids)
    ensures !ok ==> device.View() == old(device.View())
    ensures forall i | 0 <= i < |device.durable| && BetweenCopies(|device.durable|, i) ::
      device.View()[i] == old(device.View())[i]
  {
    hide Apply, EntryArray, HeaderSector, HeaderFields, Filled, BytesFrom, Crc32;
    var total: nat := |device.durable|;
    RoomyDisks(total);
    if DfsEnd(total) <= DFS_START {
      return false;
    }
    var last := LastUsable(total);
    FillEntries(entries, ids, total);
    var sum := Crc32(step, entries[..]);
    WriteEntries(device, total - 33, entries);
    var backup := MakeGptHeader(step, total - 1, 1, 34, last, total - 33, sum, ids.disk);
    ghost var a := device.View();
    device.WriteSector(total - 1, backup);
    WriteEntries(device, 2, entries);
    var primary := MakeGptHeader(step, 1, total - 1, 34, last, 2, sum, ids.disk);
    ghost var b := device.View();
    device.WriteSector(1, primary);
    var mbr := ProtectiveMbr(total);
    device.WriteSector(0, mbr);
    BytesFrame(a, device.View(), total - 33);
    BytesFrame(b, device.View(), 2);
    return true;
  }
}
