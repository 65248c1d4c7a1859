/** Where a DFS partition keeps its superblock, journal, inodes, bitmap and data. */
module DfsLayout {
  import opened Bytes
  import opened Crc
  import opened Disks

  const JOURNAL_SECTORS := 17
  const INODE_COUNT := 256
  const TRANSACTION_SECTORS := 16
  const BITS_PER_SECTOR := 4096

  datatype DfsError =
    | InvalidFilesystem
    | CorruptMetadata
    | InvalidPath
    | NotFound
    | NotDirectory
    | IsDirectory
    | AlreadyExists
    | DirectoryNotEmpty
    | NoSpace
    | JournalFull

  datatype Layout = Layout(
    start: u64, sectors: u64, journal: u64, inode: u64, bitmap: u64, bitmapSectors: u64, data: u64)

  /** A mounted filesystem: its layout, and the CRC step its records are checked with. */
  datatype Dfs = Dfs(layout: Layout, crc: ByteStep)

  const U64_LIMIT := 0x1_0000_0000_0000_0000

  /** `make_layout`: every addition is checked. */
  function MakeLayout(start: u64, sectors: u64): (r: Result<Layout, DfsError>)
  {
    if sectors + (BITS_PER_SECTOR - 1) >= U64_LIMIT then Err(InvalidFilesystem)
    else
      var bitmapSectors := (sectors + (BITS_PER_SECTOR - 1)) / BITS_PER_SECTOR;
      if start + 1 >= U64_LIMIT then Err(InvalidFilesystem)
      else if start + 1 + JOURNAL_SECTORS >= U64_LIMIT then Err(InvalidFilesystem)
      else if start + 1 + JOURNAL_SECTORS + INODE_COUNT >= U64_LIMIT then Err(InvalidFilesystem)
      else if start + 1 + JOURNAL_SECTORS + INODE_COUNT + bitmapSectors >= U64_LIMIT then Err(InvalidFilesystem)
      else
        var journal := start + 1;
        var inode := journal + JOURNAL_SECTORS;
        var bitmap := inode + INODE_COUNT;
        var data := bitmap + bitmapSectors;
        if sectors <= data - start || start + sectors >= U64_LIMIT then Err(InvalidFilesystem)
        else Ok(Layout(start, sectors, journal, inode, bitmap, bitmapSectors, data))
  }

  function End(l: Layout): nat { l.start + l.sectors }

  /** A layout `make_layout` produced, on a device that has those sectors; ATA addresses stay below 2^32. */
  ghost predicate Fits(l: Layout, n: nat) {
    && MakeLayout(l.start, l.sectors) == Ok(l)
    && End(l) <= n < 0x1_0000_0000
  }

  predicate InJournal(l: Layout, lba: int) {
    l.journal <= lba < l.journal + JOURNAL_SECTORS
  }

  /** A sector a transaction may name. */
  predicate Target(l: Layout, lba: int) {
    l.start <= lba < l.start + l.sectors && !InJournal(l, lba)
  }

  predicate InData(l: Layout, lba: int) {
    l.data <= lba < End(l)
  }

  /** A layout exists exactly when the partition leaves room for a data sector and no address
    * overflows; its regions then follow each other without overlap and the bitmap has a bit for
    * every sector. */
  lemma LayoutRegions(start: u64, sectors: u64)
    ensures MakeLayout(start, sectors).Ok? <==>
            && sectors + 4095 < U64_LIMIT
            && sectors > 1 + JOURNAL_SECTORS + INODE_COUNT + (sectors + 4095) / BITS_PER_SECTOR
            && start + sectors < U64_LIMIT
    ensures MakeLayout(start, sectors).Ok? ==>
            var l := MakeLayout(start, sectors).value;
            && l.start == start && l.sectors == sectors
            && l.start + 1 == l.journal && l.journal + JOURNAL_SECTORS == l.inode
            && l.inode + INODE_COUNT == l.bitmap && l.bitmap + l.bitmapSectors == l.data
            && l.data < End(l)
            && (l.bitmapSectors - 1) * BITS_PER_SECTOR < l.sectors <= l.bitmapSectors * BITS_PER_SECTOR
  {}

  /** The image with the journal blanked: what a transaction is about. */
  function Core(l: Layout, img: Image): (r: Image)
    ensures |r| == |img|
  {
    seq(|img|, i requires 0 <= i < |img| => if InJournal(l, i) then ZERO_SECTOR else img[i])
  }

  /** Equal outside the journal. */
  ghost predicate SameCore(l: Layout, a: Image, b: Image) {
    |a| == |b| && forall i | 0 <= i < |a| && !InJournal(l, i) :: a[i] == b[i]
  }

  lemma CoreIsSame(l: Layout, a: Image, b: Image)
    ensures Core(l, a) == Core(l, b) <==> SameCore(l, a, b)
    ensures SameCore(l, a, Core(l, a))
  {
    if Core(l, a) == Core(l, b) {
      assert |a| == |Core(l, a)| == |b|;
      forall i | 0 <= i < |a| && !InJournal(l, i)
        ensures a[i] == b[i]
      {
        assert Core(l, a)[i] == Core(l, b)[i];
      }
    }
    if SameCore(l, a, b) {
      forall i | 0 <= i < |a|
        ensures Core(l, a)[i] == Core(l, b)[i]
      {}
      assert Core(l, a) == Core(l, b);
    }
  }
}
