/** `format`: an empty filesystem. */
module DfsFormat {
  import opened Bytes
  import opened Crc
  import opened Disks
  import opened DfsLayout
  import opened DfsNode
  import opened DfsBitmap
  import opened DfsState
  import opened DfsSuperblock
  import opened DfsImage
  import opened DfsAlloc
  import opened DfsEffects
  import opened DfsFind

  /** 0o755 */
  const ROOT_MODE: u16 := 493
  const ROOT_NODE := Node(NODE_DIRECTORY, [], 0, ROOT_MODE, 0, 0, [])

  /** The bits of bitmap sector `k` when exactly the sectors before the data area are marked. */
  ghost predicate FreshBits(s: Sector, k: nat, reserved: nat) {
    forall j | 0 <= j < BITS_PER_SECTOR :: TestBit(s, j) == (k * BITS_PER_SECTOR + j < reserved)
  }

  /** One sector of the bitmap of an empty filesystem. */
  method FreshBitmap(k: nat, reserved: nat) returns (bitmap: Sector)
    ensures FreshBits(bitmap, k, reserved)
  {
    bitmap := ZERO_SECTOR;
    ZeroBits();
    var first := k * BITS_PER_SECTOR;
    var past := Min(first + BITS_PER_SECTOR, reserved);
    var bit := first;
    while bit < past
      invariant first <= bit <= Max(first, past)
      invariant forall j | 0 <= j < BITS_PER_SECTOR :: TestBit(bitmap, j) == (first + j < bit)
    {
      hide SetBit, TestBit;
      ghost var before := bitmap;
      bitmap := SetBit(bitmap, bit - first, true);
      forall j | 0 <= j < BITS_PER_SECTOR
        ensures TestBit(bitmap, j) == (first + j < bit + 1)
      {
        SetBitFrame(before, bit - first, true, j);
      }
      bit := bit + 1;
    }
  }

  lemma ZeroBits()
    ensures forall j | 0 <= j < BITS_PER_SECTOR :: !TestBit(ZERO_SECTOR, j)
  {
    forall j | 0 <= j < BITS_PER_SECTOR
      ensures !TestBit(ZERO_SECTOR, j)
    {
      NoBits(8, j % 8);
    }
  }

  lemma {:induction false} NoBits(n: nat, k: nat)
    requires k < n
    ensures !Bits(0, n)[k]
  {
    if k > 0 {
      NoBits(n - 1, k - 1);
    }
  }

  /** The disk just before the root inode is stored. */
  ghost predicate Blank(fs: Dfs, was: Image, img: Image)
    requires Fits(fs.layout, |img|)
  {
    var l := fs.layout;
    && |was| == |img|
    && img[l.start] == SuperblockSector(fs.crc, l)
    && (forall i | l.start < i < l.bitmap :: img[i] == ZERO_SECTOR)
    && (forall k | 0 <= k < l.bitmapSectors :: FreshBits(img[BitmapAt(l, k)], k, l.data - l.start))
    && (forall i | 0 <= i < |img| && !(l.start <= i < l.data) :: img[i] == was[i])
  }

  function BitmapAt(l: Layout, k: nat): nat { l.bitmap + k }

  /** Every sector before the data area is zeroed. */
  method ZeroMetadata(l: Layout, device: Disk)
    requires Fits(l, |device.durable|)
    modifies device
    ensures |device.durable| == |old(device.durable)|
    ensures forall i | 0 <= i < |device.durable| ::
      device.View()[i] == if l.start <= i < l.data then ZERO_SECTOR else old(device.View())[i]
  {
    hide MakeLayout, Apply;
    Bounds(l, |device.durable|);
    for lba := l.start to l.data
      invariant |device.durable| == |old(device.durable)|
      invariant forall i | 0 <= i < |device.durable| ::
        device.View()[i] == if l.start <= i < lba then ZERO_SECTOR else old(device.View())[i]
    {
      device.WriteSector(lba, ZERO_SECTOR);
    }
  }

  method WriteBitmaps(l: Layout, device: Disk)
    requires Fits(l, |device.durable|)
    modifies device
    ensures |device.durable| == |old(device.durable)|
    ensures forall k | 0 <= k < l.bitmapSectors :: FreshBits(device.View()[BitmapAt(l, k)], k, l.data - l.start)
    ensures forall i | 0 <= i < |device.durable| && !(l.bitmap <= i < l.data) :: device.View()[i] == old(device.View())[i]
  {
    hide MakeLayout, Apply, FreshBits;
    BitmapBounds(l, |device.durable|);
    for index := 0 to l.bitmapSectors
      invariant |device.durable| == |old(device.durable)|
      invariant forall k | 0 <= k < index :: FreshBits(device.View()[BitmapAt(l, k)], k, l.data - l.start)
      invariant forall i | 0 <= i < |device.durable| && !(l.bitmap <= i < l.bitmap + index) ::
        device.View()[i] == old(device.View())[i]
    {
      var bitmap := FreshBitmap(index, l.data - l.start);
      device.WriteSector(l.bitmap + index, bitmap);
    }
  }

  lemma BitmapBounds(l: Layout, n: nat)
    requires Fits(l, n)
    ensures l.start < l.journal < l.inode < l.bitmap && l.bitmap + l.bitmapSectors == l.data < n
  {}

  lemma BlankInodes(fs: Dfs, was: Image, img: Image)
    requires Fits(fs.layout, |img|) && Blank(fs, was, img)
    ensures Readable(fs, img) && Nodes(fs, img) == seq(INODE_COUNT, _ => EMPTY_NODE)
    ensures img[fs.layout.journal] == ZERO_SECTOR
  {
    hide FreshBits, MakeLayout, DecodeNode;
    var l := fs.layout;
    BitmapBounds(l, |img|);
    EmptyRoundTrip(fs.crc);
    forall i | 0 <= i < INODE_COUNT
      ensures InodeSector(l, img, i) == ZERO_SECTOR
    {
      InodesFirst(l, i);
    }
    assert Nodes(fs, img) == seq(INODE_COUNT, _ => EMPTY_NODE);
  }

  lemma InodesFirst(l: Layout, i: nat)
    requires MakeLayout(l.start, l.sectors) == Ok(l) && i < INODE_COUNT
    ensures l.start < l.inode + i < l.bitmap
  {}

  lemma BlankBit(fs: Dfs, was: Image, img: Image, x: nat)
    requires Fits(fs.layout, |img|) && Blank(fs, was, img) && fs.layout.data <= x < End(fs.layout)
    ensures !Marked(fs.layout, img, x)
  {
    hide TestBit, SuperblockSector;
    var l := fs.layout;
    Located(l, |img|, x);
    var k := (x - l.start) / BITS_PER_SECTOR;
    assert FreshBits(img[BitmapAt(l, k)], k, l.data - l.start);
    assert k * BITS_PER_SECTOR + Slot(l, x) == x - l.start;
  }

  /** No inode is in use and no data sector is marked. */
  lemma BlankMeta(fs: Dfs, was: Image, img: Image)
    requires Fits(fs.layout, |img|) && Blank(fs, was, img)
    ensures Readable(fs, img) && Used(fs.layout, img) == {}
    ensures Nodes(fs, img) == seq(INODE_COUNT, _ => EMPTY_NODE)
    ensures img[fs.layout.journal] == ZERO_SECTOR
  {
    hide Blank, Marked, Nodes, Readable;
    BlankInodes(fs, was, img);
    forall x: nat | fs.layout.data <= x < End(fs.layout)
      ensures !Marked(fs.layout, img, x)
    {
      BlankBit(fs, was, img, x);
    }
  }

  function RootOnly(): (nodes: seq<Node>)
    ensures |nodes| == INODE_COUNT && nodes[0] == ROOT_NODE
    ensures forall i | 0 < i < INODE_COUNT :: nodes[i] == EMPTY_NODE
  {
    seq(INODE_COUNT, i => if i == 0 then ROOT_NODE else EMPTY_NODE)
  }

  lemma RootIsConsistent(l: Layout)
    ensures NodeOk(l, ROOT_NODE) && Consistent(l, Meta(RootOnly(), {})) && NoLeaks(Meta(RootOnly(), {}))
  {
    var nodes := RootOnly();
    forall i | 0 <= i < |nodes|
      ensures NodeOk(l, nodes[i]) && Blocks(nodes[i]) == {}
    {
      EmptyOwnsNothing(nodes[i]);
    }
  }

  /** A freshly formatted filesystem shows the root directory and nothing else. */
  ghost predicate OnlyRoot(fs: Dfs, img: Image)
    requires FsOk(fs, img)
  {
    && Lookup(fs, img, []) == Some(Entry(NODE_DIRECTORY, ROOT_MODE, 0, 0, []))
    && forall p: Path | p != [] :: Lookup(fs, img, p) == None
  }

  /** With the root stored the filesystem is consistent and shows nothing but the root. */
  lemma RootStored(fs: Dfs, was: Image, f: Image, e: Image)
    requires Fits(fs.layout, |f|) && Blank(fs, was, f) && Encodable(ROOT_NODE) && Stored(fs, f, e, 0, ROOT_NODE)
    ensures FsOk(fs, e) && MetaOf(fs, e) == Meta(RootOnly(), {})
    ensures OnlyRoot(fs, e)
  {
    hide Tree, Owned, FreshBits, Marked, TestBit, Stored, Readable;
    BlankMeta(fs, was, f);
    RootIsConsistent(fs.layout);
    StoredMeta(fs, f, e, 0, ROOT_NODE);
    assert Nodes(fs, f)[0 := ROOT_NODE] == RootOnly();
    assert Nodes(fs, e) == MetaOf(fs, e).nodes;
    LookupAt(fs, e, 0);
    forall p: Path | p != []
      ensures Lookup(fs, e, p) == None
    {
      assert Find(Nodes(fs, e), p) == None;
    }
  }

  /** `format`: it succeeds whenever there is a layout. */
  method Format(device: Disk, crc: ByteStep, start: u64, sectors: u64) returns (r: Result<Dfs, DfsError>)
    requires start + sectors <= |device.durable| < 0x1_0000_0000
    modifies device
    ensures r.Ok? <==> MakeLayout(start, sectors).Ok?
    ensures r.Err? ==> r == Err(InvalidFilesystem) && device.durable == old(device.durable)
    ensures r.Ok? ==>
      && r.value == Dfs(MakeLayout(start, sectors).value, crc)
      && Quiet(r.value, device.durable, device.pending)
      && FsOk(r.value, device.durable) && NoLeaks(MetaOf(r.value, device.durable))
      && OnlyRoot(r.value, device.durable)
      && |device.durable| == |old(device.durable)|
      && (forall i | 0 <= i < |device.durable| && !(start <= i < r.value.layout.data) ::
            device.durable[i] == old(device.View())[i])
  {
    var l :- MakeLayout(start, sectors);
    var fs := Dfs(l, crc);
    ghost var was := device.View();
    Prepare(fs, device);
    ghost var f := device.durable;
    BlankMeta(fs, was, f);
    var _ := StoreNode(fs, device, 0, ROOT_NODE);
    RootStored(fs, was, f, device.durable);
    RootIsConsistent(l);
    return Ok(fs);
  }

  /** Everything but the root inode, flushed. */
  method Prepare(fs: Dfs, device: Disk)
    requires Fits(fs.layout, |device.durable|)
    modifies device
    ensures |device.durable| == |old(device.durable)| && device.pending == []
    ensures Blank(fs, old(device.View()), device.durable)
  {
    hide MakeLayout, Apply, FreshBits, SuperblockSector;
    var l := fs.layout;
    BitmapBounds(l, |device.durable|);
    ZeroMetadata(l, device);
    WriteBitmaps(l, device);
    var superblock := EncodeSuperblock(fs.crc, l);
    device.WriteSector(l.start, superblock);
    device.Flush();
  }
}
