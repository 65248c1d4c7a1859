/** `write_file` once the inode is known. */
module DfsWrite {
  import opened Bytes
  import opened Disks
  import opened DfsLayout
  import opened DfsJournal
  import opened DfsNode
  import opened DfsExtents
  import opened DfsPatch
  import opened DfsState
  import opened DfsImage
  import opened DfsAlloc
  import opened DfsEffects
  import opened DfsFind
  import opened DfsGrow
  import opened DfsData
  import opened DfsWritten

  /** `x` is `a` with the write of `input` at `offset` of the file `p` not done, half done or done:
    * the file shows the splice, or the bytes it had with some of them overwritten. */
  ghost predicate MayShow(fs: Dfs, a: Image, x: Image, p: Path, offset: nat, input: seq<byte>) {
    && FsOk(fs, a) && Lookup(fs, a, p).Some?
    && exists t :: Rewritten(fs, a, x, p, t) && HalfWritten(BytesAt(fs, a, p), t, offset, input)
  }

  ghost predicate HalfWritten(was: seq<byte>, t: seq<byte>, offset: nat, input: seq<byte>) {
    (offset <= |was| && t == Splice(was, offset, input)) || Torn(was, t, offset, input)
  }

  ghost function WriteOutcomes(fs: Dfs, a: Image, p: Path, offset: nat, input: seq<byte>): iset<Image> {
    iset x | MayShow(fs, a, x, p, offset, input)
  }

  /** A write that starts at the end of the file is all or nothing. */
  lemma AppendIsAtomic(fs: Dfs, a: Image, x: Image, p: Path, input: seq<byte>)
    requires FsOk(fs, a) && Lookup(fs, a, p).Some?
    requires x in WriteOutcomes(fs, a, p, |BytesAt(fs, a, p)|, input)
    ensures Rewritten(fs, a, x, p, BytesAt(fs, a, p)) || Rewritten(fs, a, x, p, BytesAt(fs, a, p) + input)
  {
    hide Rewritten, HalfWritten, FsOk, Lookup, BytesAt;
    var t :| Rewritten(fs, a, x, p, t) && HalfWritten(BytesAt(fs, a, p), t, |BytesAt(fs, a, p)|, input);
    HalfAppended(BytesAt(fs, a, p), t, input);
  }

  lemma HalfAppended(was: seq<byte>, t: seq<byte>, input: seq<byte>)
    requires HalfWritten(was, t, |was|, input)
    ensures t == was || t == was + input
  {
    if Torn(was, t, |was|, input) {
      TornAppend(was, t, input);
    } else {
      assert was[..|was|] == was;
    }
  }

  /** A write is all or nothing exactly when it changes no more than one sector of what the file shows, and none if the
    * file grows; with `TornReached` this is about what does happen. */
  lemma AtomicIff(was: seq<byte>, offset: nat, input: seq<byte>)
    requires offset <= |was|
    ensures (forall t | HalfWritten(was, t, offset, input) :: t == was || t == Splice(was, offset, input))
            <==> OneStep(was, offset, input)
  {
    hide Torn, OneStep, Splice;
    if OneStep(was, offset, input) {
      forall t | HalfWritten(was, t, offset, input)
        ensures t == was || t == Splice(was, offset, input)
      {
        if Torn(was, t, offset, input) {
          OneStepShows(was, t, offset, input);
        }
      }
    } else {
      var t := BetweenShows(was, offset, input);
      assert HalfWritten(was, t, offset, input);
    }
  }

  lemma NothingShown(fs: Dfs, a: Image, x: Image, p: Path, offset: nat, input: seq<byte>)
    requires FsOk(fs, a) && Lookup(fs, a, p).Some? && Rewritten(fs, a, x, p, BytesAt(fs, a, p))
    ensures MayShow(fs, a, x, p, offset, input)
  {
    assert HalfWritten(BytesAt(fs, a, p), BytesAt(fs, a, p), offset, input);
  }

  /** Growing shows nothing, so what may show after it may show from the start. */
  lemma OutcomesFromStart(fs: Dfs, a: Image, g: Image, p: Path, offset: nat, input: seq<byte>)
    requires FsOk(fs, a) && Lookup(fs, a, p).Some? && Rewritten(fs, a, g, p, BytesAt(fs, a, p))
    ensures WriteOutcomes(fs, g, p, offset, input) <= WriteOutcomes(fs, a, p, offset, input)
  {
    forall x | MayShow(fs, g, x, p, offset, input)
      ensures MayShow(fs, a, x, p, offset, input)
    {
      var t :| Rewritten(fs, g, x, p, t) && HalfWritten(BytesAt(fs, g, p), t, offset, input);
      RewrittenTrans(fs, a, g, x, p, BytesAt(fs, a, p), t);
    }
  }

  lemma GrownMayShow(fs: Dfs, a: Image, i: nat, offset: nat, input: seq<byte>)
    requires FsOk(fs, a) && i < INODE_COUNT && Live(Nodes(fs, a)[i])
    ensures GrownOutcomes(fs, a, i) <= WriteOutcomes(fs, a, Nodes(fs, a)[i].path, offset, input)
  {
    hide Rewritten;
    forall x | Grown(fs, a, x, i)
      ensures MayShow(fs, a, x, Nodes(fs, a)[i].path, offset, input)
    {
      GrownRewrites(fs, a, x, i);
      NothingShown(fs, a, x, Nodes(fs, a)[i].path, offset, input);
    }
  }

  /** Images that show everything as `a` does: a write that is refused leaves no other. */
  ghost function Unwritten(fs: Dfs, a: Image, p: Path): iset<Image>
    requires FsOk(fs, a) && Lookup(fs, a, p).Some?
  {
    iset x | Rewritten(fs, a, x, p, BytesAt(fs, a, p))
  }

  lemma GrownIsUnwritten(fs: Dfs, a: Image, i: nat)
    requires FsOk(fs, a) && i < INODE_COUNT && Live(Nodes(fs, a)[i]) && Lookup(fs, a, Nodes(fs, a)[i].path).Some?
    ensures GrownOutcomes(fs, a, i) <= Unwritten(fs, a, Nodes(fs, a)[i].path)
  {
    hide Rewritten, Lookup;
    forall x | Grown(fs, a, x, i)
      ensures Rewritten(fs, a, x, Nodes(fs, a)[i].path, BytesAt(fs, a, Nodes(fs, a)[i].path))
    {
      GrownRewrites(fs, a, x, i);
    }
  }

  lemma PatchedIsTorn(a: Image, b: Image, ss: seq<nat>, offset: nat, input: seq<byte>)
    requires PatchedBy(a, b, ss, offset, input)
    ensures TornBy(a, b, ss, offset, input)
  {}

  /** A power loss while the data is written mounts with the old size in force. */
  lemma TornMayShow(fs: Dfs, g: Image, c: Image, i: nat, offset: nat, input: seq<byte>)
    requires FsOk(fs, g) && i < INODE_COUNT && Live(Nodes(fs, g)[i]) && g[fs.layout.journal] == ZERO_SECTOR
    requires TornBy(g, c, Sectors(Nodes(fs, g)[i].extents), offset, input)
    ensures Recovered(fs, c) == Ok(Core(fs.layout, c)) && Anchored(fs, c)
    ensures Core(fs.layout, c) in WriteOutcomes(fs, g, Nodes(fs, g)[i].path, offset, input)
  {
    hide Rewritten, FsOk, Torn, TornBy, Core, Sectors;
    ReadableFits(fs, g);
    var p := Nodes(fs, g)[i].path;
    TornRewrites(fs, g, c, i, offset, input);
    var t :| Torn(BytesAt(fs, g, p), t, offset, input) && Rewritten(fs, g, c, p, t);
    RewrittenFits(fs, g, c, p, t);
    UncommittedRecovers(fs, c, c);
    RewrittenCore(fs, g, c, p, t);
  }

  lemma RewrittenFits(fs: Dfs, a: Image, b: Image, p: Path, t: seq<byte>)
    requires Rewritten(fs, a, b, p, t)
    ensures FsOk(fs, b) && Fits(fs.layout, |b|) && |b| == |a|
  {}

  /** The data of a write, flushed. */
  method WriteDurably(fs: Dfs, device: Disk, node: Node, offset: nat, input: seq<byte>, ghost i: nat)
    returns (r: Result<nat, DfsError>)
    requires FsOk(fs, device.durable) && Quiet(fs, device.durable, device.pending)
    requires i < INODE_COUNT && node == Nodes(fs, device.durable)[i] && node.kind == NODE_FILE
    requires offset + |input| <= SECTOR_SIZE * |Sectors(node.extents)|
    modifies device
    ensures r == Ok(|input|) && Quiet(fs, device.durable, device.pending)
    ensures PatchedBy(old(device.durable), device.durable, Sectors(node.extents), offset, input)
    ensures CrashesInto(fs, old(device.crashes), device.crashes,
                        WriteOutcomes(fs, old(device.durable), node.path, offset, input))
    ensures input != [] ==> TornReached(fs, device.crashes, old(device.durable), node.path, offset, input)
  {
    hide FsOk, Core, Sectors, MayShow, TornBy, PatchedBy, Recovered, MakeLayout, NodeOk, Apply, TornReached;
    ghost var g := device.durable;
    ReadableNode(fs, g, i);
    r := WriteData(fs, device, node, offset, input);
    device.Flush();
    ghost var ss := Sectors(node.extents);
    PatchedIsTorn(g, device.durable, ss, offset, input);
    TornRewrites(fs, g, device.durable, i, offset, input);
    forall c | c in device.crashes && c !in old(device.crashes)
      ensures MountsInto(fs, c, WriteOutcomes(fs, g, node.path, offset, input))
    {
      TornMayShow(fs, g, c, i, offset, input);
    }
    if input != [] {
      AllTornReached(fs, device.crashes, g, i, offset, input);
    }
  }

  /** After some power loss mounting shows the file `p` with the bytes `t`, all else as in `a`. */
  ghost predicate Reached(fs: Dfs, crashes: iset<Image>, a: Image, p: Path, t: seq<byte>) {
    exists c :: c in crashes && MountsTo(fs, c, a, p, t)
  }

  ghost predicate MountsTo(fs: Dfs, c: Image, a: Image, p: Path, t: seq<byte>) {
    Anchored(fs, c) && Recovered(fs, c).Ok? && Rewritten(fs, a, Recovered(fs, c).value, p, t)
  }

  /** Every torn text may be what is left. */
  ghost predicate TornReached(fs: Dfs, crashes: iset<Image>, a: Image, p: Path, offset: nat, input: seq<byte>) {
    && FsOk(fs, a) && Lookup(fs, a, p).Some?
    && forall t | Torn(BytesAt(fs, a, p), t, offset, input) :: Reached(fs, crashes, a, p, t)
  }

  lemma AllTornReached(fs: Dfs, crashes: iset<Image>, g: Image, i: nat, offset: nat, input: seq<byte>)
    requires FsOk(fs, g) && i < INODE_COUNT && Live(Nodes(fs, g)[i]) && g[fs.layout.journal] == ZERO_SECTOR
    requires forall c | TornBy(g, c, Sectors(Nodes(fs, g)[i].extents), offset, input) :: c in crashes
    ensures TornReached(fs, crashes, g, Nodes(fs, g)[i].path, offset, input)
  {
    hide Rewritten, FsOk, Torn, TornBy, Core, Sectors, Lookup;
    ReadableFits(fs, g);
    var p := Nodes(fs, g)[i].path;
    PathShows(fs, g, i);
    forall t | Torn(BytesAt(fs, g, p), t, offset, input)
      ensures Reached(fs, crashes, g, p, t)
    {
      var c := TornIsReached(fs, g, i, offset, input, t);
      TornMayShow(fs, g, c, i, offset, input);
      RewrittenCore(fs, g, c, p, t);
      assert MountsTo(fs, c, g, p, t);
    }
  }

  lemma PathShows(fs: Dfs, g: Image, i: nat)
    requires FsOk(fs, g) && i < INODE_COUNT && Live(Nodes(fs, g)[i])
    ensures Lookup(fs, g, Nodes(fs, g)[i].path).Some? && Fits(fs.layout, |g|)
  {
    LookupAt(fs, g, i);
  }

  lemma ReachedMore(fs: Dfs, crashes: iset<Image>, more: iset<Image>, a: Image, g: Image, p: Path, offset: nat,
                    input: seq<byte>)
    requires TornReached(fs, crashes, g, p, offset, input) && crashes <= more
    requires FsOk(fs, a) && Lookup(fs, a, p).Some? && Rewritten(fs, a, g, p, BytesAt(fs, a, p))
    ensures TornReached(fs, more, a, p, offset, input)
  {
    hide Torn, FsOk, Lookup;
    RewrittenShows(fs, a, g, p, BytesAt(fs, a, p));
    forall t | Torn(BytesAt(fs, a, p), t, offset, input)
      ensures Reached(fs, more, a, p, t)
    {
      assert Reached(fs, crashes, g, p, t);
      var c :| c in crashes && MountsTo(fs, c, g, p, t);
      RewrittenTrans(fs, a, g, Recovered(fs, c).value, p, BytesAt(fs, a, p), t);
      assert MountsTo(fs, c, a, p, t);
    }
  }

  /** The splice becomes visible when the inode with the new size is committed. */
  lemma PublishMayShow(fs: Dfs, g: Image, d: Image, e: Image, i: nat, offset: nat, input: seq<byte>)
    requires FsOk(fs, g) && i < INODE_COUNT && Nodes(fs, g)[i].kind == NODE_FILE
    requires g[fs.layout.journal] == ZERO_SECTOR
    requires PatchedBy(g, d, Sectors(Nodes(fs, g)[i].extents), offset, input)
    requires offset <= Nodes(fs, g)[i].size
    requires offset + |input| <= SECTOR_SIZE * |Sectors(Nodes(fs, g)[i].extents)| && offset + |input| < U64_LIMIT
    requires var node := Nodes(fs, g)[i].(size := Max(Nodes(fs, g)[i].size, offset + |input|));
      Encodable(node) && Stored(fs, d, e, i, node)
    ensures var p := Nodes(fs, g)[i].path;
      && iset{Core(fs.layout, d), Core(fs.layout, e)} <= WriteOutcomes(fs, g, p, offset, input)
      && Lookup(fs, g, p).Some? && offset <= |BytesAt(fs, g, p)|
      && Rewritten(fs, g, e, p, Splice(BytesAt(fs, g, p), offset, input))
  {
    hide Rewritten, FsOk, Torn, TornBy, PatchedBy, Core, Sectors, Stored, Encodable, Lookup;
    ReadableFits(fs, g);
    var p := Nodes(fs, g)[i].path;
    PatchedIsTorn(g, d, Sectors(Nodes(fs, g)[i].extents), offset, input);
    TornMayShow(fs, g, d, i, offset, input);
    PublishedRewrites(fs, g, d, e, i, offset, input);
    RewrittenCore(fs, g, e, p, Splice(BytesAt(fs, g, p), offset, input));
  }

  /** Sectors that hold `n` bytes. */
  function SectorsFor(n: nat): (k: nat)
    ensures n <= SECTOR_SIZE * k < n + SECTOR_SIZE
  {
    (n + SECTOR_SIZE - 1) / SECTOR_SIZE
  }

  lemma SizedEncodable(fs: Dfs, a: Image, i: nat, size: u64)
    requires FsOk(fs, a) && i < INODE_COUNT && Nodes(fs, a)[i].kind == NODE_FILE
    ensures Encodable(Nodes(fs, a)[i].(size := size))
    ensures Nodes(fs, a)[i].kind == NODE_FILE && Live(Nodes(fs, a)[i])
    ensures Nodes(fs, a)[i].(size := size).kind == NODE_FILE
    ensures Lookup(fs, a, Nodes(fs, a)[i].path).Some?
    ensures |BytesAt(fs, a, Nodes(fs, a)[i].path)| == Nodes(fs, a)[i].size
  {
    ReadableNode(fs, a, i);
    LookupAt(fs, a, i);
  }

  lemma StillReached(fs: Dfs, crashes: iset<Image>, more: iset<Image>, g: Image, p: Path, offset: nat, input: seq<byte>)
    requires TornReached(fs, crashes, g, p, offset, input) && crashes <= more
    ensures TornReached(fs, more, g, p, offset, input)
  {
    hide Torn, FsOk, Lookup, MountsTo;
    forall t | Torn(BytesAt(fs, g, p), t, offset, input)
      ensures Reached(fs, more, g, p, t)
    {
      assert Reached(fs, crashes, g, p, t);
    }
  }

  /** Data first, then the inode that admits to it. */
  method WriteAndPublish(fs: Dfs, device: Disk, index: nat, node: Node, offset: u64, input: seq<byte>)
    returns (r: Result<nat, DfsError>)
    requires FsOk(fs, device.durable) && Quiet(fs, device.durable, device.pending)
    requires index < INODE_COUNT && node == Nodes(fs, device.durable)[index] && node.kind == NODE_FILE
    requires offset <= node.size && offset + |input| < U64_LIMIT
    requires offset + |input| <= SECTOR_SIZE * |Sectors(node.extents)|
    modifies device
    ensures r == Ok(|input|) && Quiet(fs, device.durable, device.pending)
    ensures Lookup(fs, old(device.durable), node.path).Some?
    ensures offset <= |BytesAt(fs, old(device.durable), node.path)|
    ensures Rewritten(fs, old(device.durable), device.durable, node.path,
                      Splice(BytesAt(fs, old(device.durable), node.path), offset, input))
    ensures CrashesInto(fs, old(device.crashes), device.crashes,
                        WriteOutcomes(fs, old(device.durable), node.path, offset, input))
    ensures input != [] ==> TornReached(fs, device.crashes, old(device.durable), node.path, offset, input)
  {
    hide FsOk, Core, Sectors, MayShow, TornBy, PatchedBy, Recovered, MakeLayout, NodeOk, Lookup, Rewritten, Encodable,
      Stored, BytesAt, Splice, Nodes, TornReached;
    ghost var g := device.durable;
    SizedEncodable(fs, g, index, Max(node.size, offset + |input|));
    var written := WriteDurably(fs, device, node, offset, input, index);
    var consumed := written.value;
    ghost var d, crashed := device.durable, device.crashes;
    var bigger := node.(size := Max(node.size, offset + |input|));
    var _ := StoreNode(fs, device, index, bigger);
    PublishMayShow(fs, g, d, device.durable, index, offset, input);
    if input != [] {
      StillReached(fs, crashed, device.crashes, g, node.path, offset, input);
    }
    EitherIsInto(fs, crashed, device.crashes, d, device.durable);
    return Ok(consumed);
  }

  lemma GrownStaysOk(fs: Dfs, a: Image, g: Image, i: nat)
    requires Grown(fs, a, g, i)
    ensures FsOk(fs, g) && Nodes(fs, g)[i].path == Nodes(fs, a)[i].path && Nodes(fs, g)[i].kind == Nodes(fs, a)[i].kind
    ensures Nodes(fs, g)[i].size == Nodes(fs, a)[i].size
  {}

  /** No data sector is free, or the file cannot take another extent. */
  ghost predicate OutOfRoom(fs: Dfs, b: Image, p: Path) {
    && FsOk(fs, b) && Find(Nodes(fs, b), p).Some? && Exhausted(fs, b, Find(Nodes(fs, b), p).value)
  }

  lemma NoRoomLeft(fs: Dfs, a: Image, g: Image, i: nat)
    requires Grown(fs, a, g, i) && Live(Nodes(fs, a)[i]) && Exhausted(fs, g, i)
    ensures OutOfRoom(fs, g, Nodes(fs, a)[i].path)
  {
    FindUnique(Nodes(fs, g), i);
  }

  /** `write_file` from the inode on. */
  method WriteAt(fs: Dfs, device: Disk, index: nat, offset: u64, input: seq<byte>) returns (r: Result<nat, DfsError>)
    requires FsOk(fs, device.durable) && Quiet(fs, device.durable, device.pending)
    requires index < INODE_COUNT && Nodes(fs, device.durable)[index].kind == NODE_FILE
    modifies device
    ensures Quiet(fs, device.durable, device.pending)
    ensures Lookup(fs, old(device.durable), Nodes(fs, old(device.durable))[index].path).Some?
    ensures WriteVerdict(fs, old(device.durable), device.durable, Nodes(fs, old(device.durable))[index].path,
                         offset, input, r)
    ensures r == Err(InvalidPath) || offset + |input| >= U64_LIMIT ==>
      device.durable == old(device.durable) && device.crashes == old(device.crashes)
    ensures CrashesInto(fs, old(device.crashes), device.crashes,
      WriteOutcomes(fs, old(device.durable), Nodes(fs, old(device.durable))[index].path, offset, input))
    ensures r.Err? ==> CrashesInto(fs, old(device.crashes), device.crashes,
      Unwritten(fs, old(device.durable), Nodes(fs, old(device.durable))[index].path))
    ensures r.Ok? && input != [] ==>
      TornReached(fs, device.crashes, old(device.durable), Nodes(fs, old(device.durable))[index].path, offset, input)
  {
    hide FsOk, Core, Sectors, MayShow, Recovered, MakeLayout, NodeOk, Lookup, Rewritten, BytesAt, Splice, Nodes,
      Exhausted, OutOfRoom, Unwritten, TornReached;
    ghost var a := device.durable;
    assert device.View() == a;
    ReadableNode(fs, a, index);
    SizedEncodable(fs, a, index, 0);
    GrownRefl(fs, a, index);
    GrownRewrites(fs, a, a, index);
    ghost var p := Nodes(fs, a)[index].path;
    var loaded := ReadNode(fs, device, index);
    var node := loaded.value;
    if offset > node.size {
      return Err(InvalidPath);
    }
    var end := offset + |input|;
    if end >= U64_LIMIT {
      return Err(NoSpace);
    }
    var grown := Allocate(fs, device, index, node, SectorsFor(end));
    ghost var g, crashed := device.durable, device.crashes;
    GrownStaysOk(fs, a, g, index);
    GrownRewrites(fs, a, g, index);
    GrownMayShow(fs, a, index, offset, input);
    CrashesWeaken(fs, old(device.crashes), crashed, GrownOutcomes(fs, a, index), WriteOutcomes(fs, a, p, offset, input));
    if grown.Err? {
      NoRoomLeft(fs, a, g, index);
      GrownIsUnwritten(fs, a, index);
      CrashesWeaken(fs, old(device.crashes), crashed, GrownOutcomes(fs, a, index), Unwritten(fs, a, p));
      return Err(grown.error);
    }
    r := WriteAndPublish(fs, device, index, grown.value, offset, input);
    OutcomesFromStart(fs, a, g, p, offset, input);
    RewrittenShows(fs, a, g, p, BytesAt(fs, a, p));
    RewrittenTrans(fs, a, g, device.durable, p, BytesAt(fs, a, p), Splice(BytesAt(fs, a, p), offset, input));
    if input != [] {
      ReachedMore(fs, device.crashes, device.crashes, a, g, p, offset, input);
    }
  }

  /** What a write answers and leaves: the splice, or every byte as before. */
  ghost predicate WriteVerdict(fs: Dfs, a: Image, b: Image, p: Path, offset: nat, input: seq<byte>,
                               r: Result<nat, DfsError>)
    requires FsOk(fs, a) && Lookup(fs, a, p).Some?
  {
    var bytes := BytesAt(fs, a, p);
    match r
    case Ok(n) => n == |input| && offset <= |bytes| && Rewritten(fs, a, b, p, Splice(bytes, offset, input))
    case Err(e) =>
      && Rewritten(fs, a, b, p, bytes)
      && (e == InvalidPath <==> offset > |bytes|)
      && (e != InvalidPath ==> e == NoSpace && (offset + |input| >= U64_LIMIT || OutOfRoom(fs, b, p)))
  }
}
