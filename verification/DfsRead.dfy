/** `read_file` and `stat`. */
module DfsRead {
  import opened Bytes
  import opened Disks
  import opened DfsLayout
  import opened DfsNode
  import opened DfsExtents
  import opened DfsPatch
  import opened DfsPath
  import opened DfsState
  import opened DfsImage
  import opened DfsAlloc
  import opened DfsEffects
  import opened DfsFind

  /** `output[at..at + n]` after copying from `sector[from..]`. */
  method CopyInto(output: array<byte>, at: nat, sector: Sector, from: nat, n: nat)
    requires at + n <= output.Length && from + n <= SECTOR_SIZE
    modifies output
    ensures forall k | 0 <= k < output.Length ::
      output[k] == if at <= k < at + n then sector[from + (k - at)] else old(output[k])
  {
    for j := 0 to n
      invariant forall k | 0 <= k < output.Length ::
        output[k] == if at <= k < at + j then sector[from + (k - at)] else old(output[k])
    {
      output[at + j] := sector[from + j];
    }
  }

  /** The first `done` bytes have been delivered, the rest of the buffer is as it was. */
  ghost predicate Delivered(now: seq<byte>, before: seq<byte>, bytes: seq<byte>, offset: nat, done: nat) {
    && |now| == |before| && done <= |now| && offset + done <= |bytes|
    && forall k | 0 <= k < |now| :: now[k] == if k < done then bytes[offset + k] else before[k]
  }

  lemma DeliveredMeans(now: seq<byte>, before: seq<byte>, bytes: seq<byte>, offset: nat, done: nat)
    requires Delivered(now, before, bytes, offset, done)
    ensures now == bytes[offset..offset + done] + before[done..]
  {
    var want := bytes[offset..offset + done] + before[done..];
    assert forall k | 0 <= k < |now| :: now[k] == want[k];
  }

  /** The bytes of one sector as part of the file. */
  lemma SectorOfFile(img: Image, ss: seq<nat>, size: nat, position: nat, j: nat)
    requires size <= SECTOR_SIZE * |ss| && (forall x | x in ss :: x < |img|)
    requires position + j < size && position % SECTOR_SIZE + j < SECTOR_SIZE
    ensures position / SECTOR_SIZE < |ss| && ss[position / SECTOR_SIZE] < |img|
    ensures Content(img, ss, size)[position + j] == img[ss[position / SECTOR_SIZE]][position % SECTOR_SIZE + j]
  {
    assert (position + j) / SECTOR_SIZE == position / SECTOR_SIZE;
    assert ss[position / SECTOR_SIZE] in ss;
  }

  lemma DeliveredMore(now: seq<byte>, later: seq<byte>, before: seq<byte>, img: Image, ss: seq<nat>, size: nat,
                      offset: nat, done: nat, n: nat)
    requires size <= SECTOR_SIZE * |ss| && (forall x | x in ss :: x < |img|)
    requires Delivered(now, before, Content(img, ss, size), offset, done)
    requires offset + done + n <= size && done + n <= |now| && 0 < n
    requires (offset + done) % SECTOR_SIZE + n <= SECTOR_SIZE
    requires |later| == |now| && (offset + done) / SECTOR_SIZE < |ss| && ss[(offset + done) / SECTOR_SIZE] < |img|
    requires forall k | 0 <= k < done :: later[k] == now[k]
    requires forall k | done + n <= k < |now| :: later[k] == now[k]
    requires forall k | done <= k < done + n ::
      later[k] == img[ss[(offset + done) / SECTOR_SIZE]][(offset + done) % SECTOR_SIZE + (k - done)]
    ensures Delivered(later, before, Content(img, ss, size), offset, done + n)
  {
    var bytes := Content(img, ss, size);
    hide Content;
    forall k | 0 <= k < |later|
      ensures later[k] == if k < done + n then bytes[offset + k] else before[k]
    {
      if done <= k < done + n {
        SectorOfFile(img, ss, size, offset + done, k - done);
      }
    }
  }

  lemma FileFacts(fs: Dfs, img: Image, i: nat)
    requires FsOk(fs, img) && i < INODE_COUNT && Live(Nodes(fs, img)[i])
    ensures var node := Nodes(fs, img)[i];
      && Tiled(node.extents) && (forall x | x in Sectors(node.extents) :: x < |img|)
      && node.size <= SECTOR_SIZE * |Sectors(node.extents)|
      && Lookup(fs, img, node.path) == Some(Entry(node.kind, node.mode, node.uid, node.gid,
                                                  Content(img, Sectors(node.extents), node.size)))
  {
    LookupAt(fs, img, i);
    Bounds(fs.layout, |img|);
  }

  /** The copy loop. */
  method ReadInto(device: Disk, node: Node, offset: u64, output: array<byte>, length: nat)
    returns (r: Result<nat, DfsError>)
    requires Tiled(node.extents) && forall x | x in Sectors(node.extents) :: x < |device.durable|
    requires node.size <= SECTOR_SIZE * |Sectors(node.extents)|
    requires offset + length <= node.size && length <= output.Length
    modifies output
    ensures r == Ok(length)
    ensures Delivered(output[..], old(output[..]), Content(device.View(), Sectors(node.extents), node.size), offset, length)
  {
    ghost var img, ss := device.View(), Sectors(node.extents);
    hide Sectors, Tiled, Content, ByteAt, Delivered, Apply, ExtentFor;
    ghost var bytes := Content(img, ss, node.size);
    NothingDelivered(output[..], bytes, offset);
    var copied := 0;
    while copied < length
      invariant copied <= length
      invariant Delivered(output[..], old(output[..]), bytes, offset, copied)
    {
      var position := offset + copied;
      var logical := position / SECTOR_SIZE;
      var within := position % SECTOR_SIZE;
      SectorOfFile(img, ss, node.size, position, 0);
      TiledFinds(node.extents, logical);
      var physical := Locate(node.extents, logical);
      if physical.None? {
        return Err(CorruptMetadata);
      }
      var sector := device.ReadSector(physical.value);
      var count := Min(SECTOR_SIZE - within, length - copied);
      ghost var now := output[..];
      CopyInto(output, copied, sector, within, count);
      DeliveredMore(now, output[..], old(output[..]), img, ss, node.size, offset, copied, count);
      copied := copied + count;
    }
    return Ok(length);
  }

  lemma NothingDelivered(now: seq<byte>, bytes: seq<byte>, offset: nat)
    requires offset <= |bytes|
    ensures Delivered(now, now, bytes, offset, 0)
  {}

  /** A read returns the file's bytes from `offset` on: until the buffer is full or the file ends, and nothing less.  It
    * never finds the metadata corrupt, and it leaves the rest of the buffer alone. */
  method ReadFile(fs: Dfs, device: Disk, path: Path, offset: u64, output: array<byte>)
    returns (r: Result<nat, DfsError>)
    requires FsOk(fs, device.View())
    modifies output
    ensures CanonicalPath(path).Err? ==> r == Err(CanonicalPath(path).error)
    ensures CanonicalPath(path).Ok? ==>
      match Lookup(fs, device.View(), CanonicalPath(path).value)
      case None => r == Err(NotFound)
      case Some(e) =>
        if e.kind != NODE_FILE then r == Err(IsDirectory)
        else
          && r.Ok? && r.value <= output.Length && (r.value > 0 ==> offset + r.value <= |e.bytes|)
          && (r.value == output.Length || offset + r.value >= |e.bytes|)
          && (r.value > 0 ==> output[..] == e.bytes[offset..offset + r.value] + old(output[..])[r.value..])
          && (offset == 0 && output.Length >= |e.bytes| ==> r == Ok(|e.bytes|) && output[..|e.bytes|] == e.bytes)
    ensures r.Err? || r.value == 0 ==> output[..] == old(output[..])
  {
    hide FsOk, MakeLayout, Nodes, CanonicalPath, Apply, Content, Sectors, Tiled, Delivered;
    ghost var img := device.View();
    var p :- CanonicalPath(path);
    var lookup := FindNode(fs, device, p);
    var found := lookup.value;
    NoEntry(fs, img, p);
    if found.None? {
      return Err(NotFound);
    }
    var node := found.value;
    ghost var i := Find(Nodes(fs, img), p).value;
    FileFacts(fs, img, i);
    ViewSize(device);
    if node.kind != NODE_FILE {
      return Err(IsDirectory);
    }
    if offset >= node.size {
      return Ok(0);
    }
    var length: nat := Min(output.Length, node.size - offset);
    r := ReadInto(device, node, offset, output, length);
    DeliveredMeans(output[..], old(output[..]), Content(img, Sectors(node.extents), node.size), offset, length);
    NoneRead(output[..], old(output[..]), length);
  }

  lemma NoneRead(now: seq<byte>, before: seq<byte>, n: nat)
    ensures n == 0 && n <= |before| ==> before[n..] == before && [] + before == before
  {}

  lemma ViewSize(device: Disk)
    ensures |device.View()| == |device.durable|
  {}

  lemma NoEntry(fs: Dfs, img: Image, p: Path)
    requires FsOk(fs, img)
    ensures Fits(fs.layout, |img|)
    ensures Find(Nodes(fs, img), p).None? <==> Lookup(fs, img, p) == None
    ensures Find(Nodes(fs, img), p).Some? ==> Find(Nodes(fs, img), p).value < INODE_COUNT
  {}

  datatype Metadata = Metadata(size: u64, mode: u16, uid: u32, gid: u32, isDirectory: bool)

  /** `stat`. */
  method Stat(fs: Dfs, device: Disk, path: Path) returns (r: Result<Metadata, DfsError>)
    requires FsOk(fs, device.View())
    ensures CanonicalPath(path).Err? ==> r == Err(CanonicalPath(path).error)
    ensures CanonicalPath(path).Ok? ==>
      match Lookup(fs, device.View(), CanonicalPath(path).value)
      case None => r == Err(NotFound)
      case Some(e) =>
        |e.bytes| < U64_LIMIT && r == Ok(Metadata(|e.bytes|, e.mode, e.uid, e.gid, e.kind == NODE_DIRECTORY))
  {
    hide FsOk, MakeLayout, Nodes, CanonicalPath, Apply, Content, Sectors, Tiled, Lookup;
    ghost var img := device.View();
    var p :- CanonicalPath(path);
    var lookup := FindNode(fs, device, p);
    var found := lookup.value;
    NoEntry(fs, img, p);
    if found.None? {
      return Err(NotFound);
    }
    var node := found.value;
    FileFacts(fs, img, Find(Nodes(fs, img), p).value);
    return Ok(Metadata(node.size, node.mode, node.uid, node.gid, node.kind == NODE_DIRECTORY));
  }
}
