/** The first sector of a partition. */
module DfsSuperblock {
  import opened Bytes
  import opened Crc
  import opened Records
  import opened DfsLayout

  /** "DREAMDFS" */
  const MAGIC: seq<byte> := [0x44, 0x52, 0x45, 0x41, 0x4d, 0x44, 0x46, 0x53]
  const VERSION: u32 := 1

  function SuperFields(l: Layout): (fields: seq<Field>)
    ensures |fields| == 10 && Within(fields, 508)
  {
    [ Field(0, MAGIC),
      Field(8, Le(VERSION, 4)),
      Field(16, Le(l.sectors, 8)),
      Field(24, Le(JOURNAL_SECTORS, 8)),
      Field(32, Le(l.journal, 8)),
      Field(40, Le(l.inode, 8)),
      Field(48, Le(INODE_COUNT, 4)),
      Field(52, Le(l.bitmap, 8)),
      Field(60, Le(l.bitmapSectors, 8)),
      Field(68, Le(l.data, 8)) ]
  }

  /** `write_superblock`. */
  function SuperblockSector(step: ByteStep, l: Layout): Sector {
    var body := Filled(ZERO_SECTOR, SuperFields(l));
    Put(body, 508, Le(Crc32(step, body[..508]), 4))
  }

  /** The fields before the bitmap's. */
  method EncodeFirst(l: Layout) returns (sector: Sector)
    ensures Within(SuperFields(l)[..7], 512) && sector == Filled(ZERO_SECTOR, SuperFields(l)[..7])
  {
    hide Put, Le, Filled, Within;
    ghost var f := SuperFields(l);
    FilledNothing(ZERO_SECTOR);
    assert f[..0] == [];
    sector := Put(ZERO_SECTOR, 0, MAGIC);
    FilledFrom(ZERO_SECTOR, f, 508, 0);
    sector := Put(sector, 8, Le(VERSION, 4));
    FilledFrom(ZERO_SECTOR, f, 508, 1);
    sector := Put(sector, 16, Le(l.sectors, 8));
    FilledFrom(ZERO_SECTOR, f, 508, 2);
    sector := Put(sector, 24, Le(JOURNAL_SECTORS, 8));
    FilledFrom(ZERO_SECTOR, f, 508, 3);
    sector := Put(sector, 32, Le(l.journal, 8));
    FilledFrom(ZERO_SECTOR, f, 508, 4);
    sector := Put(sector, 40, Le(l.inode, 8));
    FilledFrom(ZERO_SECTOR, f, 508, 5);
    sector := Put(sector, 48, Le(INODE_COUNT, 4));
    FilledFrom(ZERO_SECTOR, f, 508, 6);
  }

  /** `write_superblock`, up to the write. */
  method EncodeSuperblock(step: ByteStep, l: Layout) returns (sector: Sector)
    ensures sector == SuperblockSector(step, l)
  {
    hide Put, Le, Filled, Within;
    ghost var f := SuperFields(l);
    sector := EncodeFirst(l);
    sector := Put(sector, 52, Le(l.bitmap, 8));
    FilledFrom(ZERO_SECTOR, f, 508, 7);
    sector := Put(sector, 60, Le(l.bitmapSectors, 8));
    FilledFrom(ZERO_SECTOR, f, 508, 8);
    sector := Put(sector, 68, Le(l.data, 8));
    FilledFrom(ZERO_SECTOR, f, 508, 9);
    sector := Put(sector, 508, Le(Crc32(step, sector[..508]), 4));
  }

  /** `read_superblock`. */
  function ReadSuperblock(step: ByteStep, s: Sector, start: u64, sectors: u64): Result<Layout, DfsError> {
    if s[..8] != MAGIC || Read32(s, 8) != VERSION || Crc32(step, s[..508]) != Read32(s, 508) then
      Err(InvalidFilesystem)
    else
      match MakeLayout(start, sectors)
      case Err(e) => Err(e)
      case Ok(l) => if Describes(s, l) then Ok(l) else Err(InvalidFilesystem)
  }

  predicate Describes(s: Sector, l: Layout) {
    && Read64(s, 16) == l.sectors
    && Read64(s, 24) == JOURNAL_SECTORS
    && Read64(s, 32) == l.journal
    && Read64(s, 40) == l.inode
    && Read32(s, 48) == INODE_COUNT
    && Read64(s, 52) == l.bitmap
    && Read64(s, 60) == l.bitmapSectors
    && Read64(s, 68) == l.data
  }

  lemma SuperField(step: ByteStep, l: Layout, k: nat)
    requires k < 10
    ensures SuperFields(l)[k] in SuperFields(l)
    ensures var f := SuperFields(l)[k]; SuperblockSector(step, l)[f.at..Past(f)] == f.bytes
  {
    var body := Filled(ZERO_SECTOR, SuperFields(l));
    var f := SuperFields(l)[k];
    SuperDisjoint(l);
    FilledReads(ZERO_SECTOR, SuperFields(l), k);
    PutElsewhere(body, 508, Le(Crc32(step, body[..508]), 4), f.at, Past(f));
  }

  lemma SuperDisjoint(l: Layout)
    ensures Disjoint(SuperFields(l))
  {
    assert forall k | 0 <= k < 9 :: Past(SuperFields(l)[k]) <= SuperFields(l)[k + 1].at;
    Ascending(SuperFields(l));
  }

  lemma SuperNumbers(step: ByteStep, l: Layout)
    ensures Describes(SuperblockSector(step, l), l)
  {
    SuperField(step, l, 2);
    SuperField(step, l, 3);
    SuperField(step, l, 4);
    SuperField(step, l, 5);
    SuperField(step, l, 6);
    SuperField(step, l, 7);
    SuperField(step, l, 8);
    SuperField(step, l, 9);
    Le64(l.sectors);
    Le64(JOURNAL_SECTORS);
    Le64(l.journal);
    Le64(l.inode);
    Le32(INODE_COUNT);
    Le64(l.bitmap);
    Le64(l.bitmapSectors);
    Le64(l.data);
  }

  /** The superblock `format` writes is the one `mount` accepts, with the same layout. */
  lemma SuperblockRoundTrip(step: ByteStep, l: Layout)
    requires MakeLayout(l.start, l.sectors) == Ok(l)
    ensures ReadSuperblock(step, SuperblockSector(step, l), l.start, l.sectors) == Ok(l)
  {
    var body := Filled(ZERO_SECTOR, SuperFields(l));
    var s := SuperblockSector(step, l);
    SuperField(step, l, 0);
    assert s[0..8] == s[..8];
    SuperField(step, l, 1);
    Le32(VERSION);
    assert s[..508] == body[..508];
    Le32(Crc32(step, body[..508]));
    assert s[508..512] == Le(Crc32(step, body[..508]), 4);
    SuperNumbers(step, l);
  }

  lemma MagicField(s: Sector)
    ensures HoldsField(s, Field(0, MAGIC)) <==> s[..8] == MAGIC
  {
    assert s[0..8] == s[..8];
  }

  lemma TenFields(s: Sector, l: Layout)
    ensures var f := SuperFields(l);
      HoldsFields(s, f) <==>
        && HoldsField(s, f[0]) && HoldsField(s, f[1]) && HoldsField(s, f[2]) && HoldsField(s, f[3]) && HoldsField(s, f[4])
        && HoldsField(s, f[5]) && HoldsField(s, f[6]) && HoldsField(s, f[7]) && HoldsField(s, f[8]) && HoldsField(s, f[9])
  {
    hide HoldsField, Le, SuperFields;
  }

  lemma DescribesIff(s: Sector, l: Layout)
    ensures HoldsFields(s, SuperFields(l)) <==> s[..8] == MAGIC && Read32(s, 8) == VERSION && Describes(s, l)
  {
    hide HoldsField, HoldsFields, Le, Read32, Read64;
    TenFields(s, l);
    MagicField(s);
    Field32(s, 8, VERSION);
    Field64(s, 16, l.sectors);
    Field64(s, 24, JOURNAL_SECTORS);
    Field64(s, 32, l.journal);
    Field64(s, 40, l.inode);
    Field32(s, 48, INODE_COUNT);
    Field64(s, 52, l.bitmap);
    Field64(s, 60, l.bitmapSectors);
    Field64(s, 68, l.data);
  }

  /** A superblock is accepted exactly when the partition has a layout, every field that is written for this layout is
    * found in it, and the checksum is right. */
  lemma SuperblockIff(step: ByteStep, s: Sector, start: u64, sectors: u64, l: Layout)
    ensures ReadSuperblock(step, s, start, sectors) == Ok(l) <==>
      && MakeLayout(start, sectors) == Ok(l) && HoldsFields(s, SuperFields(l))
      && HoldsField(s, Field(508, Le(Crc32(step, s[..508]), 4)))
  {
    hide HoldsFields, HoldsField, Describes, MakeLayout, Le, SuperFields;
    DescribesIff(s, l);
    Field32(s, 508, Crc32(step, s[..508]));
  }
}
