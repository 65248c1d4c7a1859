/** A disk image read as a filesystem: its metadata, its files, and what a change of sectors does to them. */
module DfsImage {
  import opened Bytes
  import opened Disks
  import opened DfsLayout
  import opened DfsNode
  import opened DfsExtents
  import opened DfsPatch
  import opened DfsBitmap
  import opened DfsState
  import opened DfsSuperblock

  /** The sector that holds inode `i`. */
  function InodeSector(l: Layout, img: Image, i: nat): Sector
    requires Fits(l, |img|) && i < INODE_COUNT
  {
    img[l.inode + i]
  }

  function NodeAt(fs: Dfs, img: Image, i: nat): Node
    requires Fits(fs.layout, |img|) && i < INODE_COUNT
  {
    match DecodeNode(fs.crc, InodeSector(fs.layout, img, i))
    case Ok(node) => node
    case Err(_) => EMPTY_NODE
  }

  ghost predicate Readable(fs: Dfs, img: Image)
    requires Fits(fs.layout, |img|)
  {
    forall i | 0 <= i < INODE_COUNT :: DecodeNode(fs.crc, InodeSector(fs.layout, img, i)).Ok?
  }

  ghost function Nodes(fs: Dfs, img: Image): (nodes: seq<Node>)
    requires Fits(fs.layout, |img|)
    ensures |nodes| == INODE_COUNT
  {
    seq(INODE_COUNT, i requires 0 <= i < INODE_COUNT => NodeAt(fs, img, i))
  }

  ghost function Used(l: Layout, img: Image): set<nat>
    requires Fits(l, |img|)
  {
    set lba: nat | l.data <= lba < End(l) && Marked(l, img, lba)
  }

  ghost function MetaOf(fs: Dfs, img: Image): Meta
    requires Fits(fs.layout, |img|)
  {
    Meta(Nodes(fs, img), Used(fs.layout, img))
  }

  /** A consistent filesystem that mounts. */
  ghost predicate FsOk(fs: Dfs, img: Image) {
    && Fits(fs.layout, |img|)
    && img[fs.layout.start] == SuperblockSector(fs.crc, fs.layout)
    && Readable(fs, img)
    && Consistent(fs.layout, MetaOf(fs, img))
  }

  // ---------------------------------------------------------------- files

  /** What `stat` and `read_file` show of a path. */
  datatype Entry = Entry(kind: byte, mode: u16, uid: u32, gid: u32, bytes: seq<byte>)

  ghost function EntryOf(l: Layout, img: Image, node: Node): Entry
    requires Fits(l, |img|) && NodeOk(l, node)
  {
    Entry(node.kind, node.mode, node.uid, node.gid, Content(img, Sectors(node.extents), node.size))
  }

  /** The filesystem as a map from paths to files and directories. */
  ghost function Lookup(fs: Dfs, img: Image, p: Path): Option<Entry>
    requires FsOk(fs, img)
  {
    match Find(Nodes(fs, img), p)
    case None => None
    case Some(i) =>
      assert NodeOk(fs.layout, MetaOf(fs, img).nodes[i]);
      Some(EntryOf(fs.layout, img, Nodes(fs, img)[i]))
  }

  // ---------------------------------------------------------------- what changes of sectors do

  lemma NodesFrame(fs: Dfs, a: Image, b: Image)
    requires Fits(fs.layout, |a|) && |a| == |b|
    requires forall i | 0 <= i < INODE_COUNT :: InodeSector(fs.layout, a, i) == InodeSector(fs.layout, b, i)
    ensures Nodes(fs, a) == Nodes(fs, b)
    ensures Readable(fs, a) <==> Readable(fs, b)
  {}

  lemma UsedFrame(l: Layout, a: Image, b: Image)
    requires Fits(l, |a|) && |a| == |b|
    requires forall i | l.bitmap <= i < l.data :: a[i] == b[i]
    ensures Used(l, a) == Used(l, b)
  {
    forall lba: nat | l.data <= lba < End(l)
      ensures Marked(l, a, lba) == Marked(l, b, lba)
    {
      Located(l, |a|, lba);
    }
  }

  /** Nothing about the filesystem depends on the journal. */
  lemma CoreFrame(fs: Dfs, a: Image, b: Image)
    requires Fits(fs.layout, |a|) && SameCore(fs.layout, a, b)
    ensures MetaOf(fs, a) == MetaOf(fs, b)
    ensures FsOk(fs, a) <==> FsOk(fs, b)
  {
    NodesFrame(fs, a, b);
    UsedFrame(fs.layout, a, b);
  }

  lemma LookupFrame(fs: Dfs, a: Image, b: Image, p: Path)
    requires FsOk(fs, a) && FsOk(fs, b) && |a| == |b|
    requires Find(Nodes(fs, a), p) == Find(Nodes(fs, b), p)
    requires var i := Find(Nodes(fs, a), p); i.Some? ==>
      && Nodes(fs, a)[i.value] == Nodes(fs, b)[i.value]
      && forall x | x in Blocks(Nodes(fs, a)[i.value]) :: x < |a| && a[x] == b[x]
    ensures Lookup(fs, a, p) == Lookup(fs, b, p)
  {
    var i := Find(Nodes(fs, a), p);
    if i.Some? {
      var node := Nodes(fs, a)[i.value];
      assert NodeOk(fs.layout, MetaOf(fs, a).nodes[i.value]);
      forall x | x in Sectors(node.extents)
        ensures a[x] == b[x]
      {
        assert x in Blocks(node);
      }
      ContentFrame(a, b, Sectors(node.extents), node.size);
    }
  }

  /** The image with only the journal different is the same filesystem. */
  lemma LookupCore(fs: Dfs, a: Image, b: Image, p: Path)
    requires FsOk(fs, a) && SameCore(fs.layout, a, b)
    ensures FsOk(fs, b) && Lookup(fs, a, p) == Lookup(fs, b, p)
  {
    CoreFrame(fs, a, b);
    var i := Find(Nodes(fs, a), p);
    if i.Some? {
      assert NodeOk(fs.layout, MetaOf(fs, a).nodes[i.value]);
    }
    LookupFrame(fs, a, b, p);
  }

  /** Storing an inode replaces it in the table. */
  lemma StoreEffect(fs: Dfs, a: Image, b: Image, i: nat, node: Node)
    requires Fits(fs.layout, |a|) && |a| == |b| && i < INODE_COUNT && Readable(fs, a)
    requires node == EMPTY_NODE || Storable(node)
    requires InodeSector(fs.layout, b, i) == NodeSector(fs.crc, node)
    requires forall k | 0 <= k < INODE_COUNT && k != i :: InodeSector(fs.layout, b, k) == InodeSector(fs.layout, a, k)
    ensures Readable(fs, b) && Nodes(fs, b) == Nodes(fs, a)[i := ReadBack(node)]
  {
    assert DecodeNode(fs.crc, NodeSector(fs.crc, node)) == Ok(ReadBack(node)) by {
      if node == EMPTY_NODE {
        EmptyRoundTrip(fs.crc);
      } else {
        NodeRoundTrip(fs.crc, node);
      }
    }
    forall k | 0 <= k < INODE_COUNT
      ensures Nodes(fs, b)[k] == Nodes(fs, a)[i := ReadBack(node)][k]
      ensures DecodeNode(fs.crc, InodeSector(fs.layout, b, k)).Ok?
    {
      assert DecodeNode(fs.crc, InodeSector(fs.layout, a, k)).Ok?;
    }
  }
}
