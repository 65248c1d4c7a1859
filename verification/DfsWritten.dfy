/** What a write to a file changes, and what a power loss during it may leave. */
module DfsWritten {
  import opened Bytes
  import opened Disks
  import opened DfsLayout
  import opened DfsNode
  import opened DfsExtents
  import opened DfsPatch
  import opened DfsState
  import opened DfsImage
  import opened DfsAlloc
  import opened DfsEffects
  import opened DfsGrow

  /** `b` is `a` with the file `p` showing other bytes and nothing else different. */
  ghost predicate Rewritten(fs: Dfs, a: Image, b: Image, p: Path, bytes: seq<byte>) {
    && FsOk(fs, a) && FsOk(fs, b) && |a| == |b|
    && OthersSame(fs, a, b, p)
    && Lookup(fs, a, p).Some? && Lookup(fs, b, p) == Some(Lookup(fs, a, p).value.(bytes := bytes))
    && (NoLeaks(MetaOf(fs, a)) ==> NoLeaks(MetaOf(fs, b)))
  }

  lemma RewrittenTrans(fs: Dfs, a: Image, b: Image, c: Image, p: Path, bytes: seq<byte>, bytes': seq<byte>)
    requires Rewritten(fs, a, b, p, bytes) && Rewritten(fs, b, c, p, bytes')
    ensures Rewritten(fs, a, c, p, bytes')
  {
    hide Lookup, FsOk, NoLeaks;
  }

  lemma RewrittenCore(fs: Dfs, a: Image, b: Image, p: Path, bytes: seq<byte>)
    requires Rewritten(fs, a, b, p, bytes)
    ensures Rewritten(fs, a, Core(fs.layout, b), p, bytes)
  {
    hide NoLeaks;
    CoreIsSame(fs.layout, b, b);
    CoreFrame(fs, b, Core(fs.layout, b));
    forall q: Path
      ensures Lookup(fs, Core(fs.layout, b), q) == Lookup(fs, b, q)
    {
      LookupCore(fs, b, Core(fs.layout, b), q);
    }
    hide Lookup, FsOk;
  }

  ghost function BytesAt(fs: Dfs, a: Image, p: Path): seq<byte>
    requires FsOk(fs, a) && Lookup(fs, a, p).Some?
  {
    Lookup(fs, a, p).value.bytes
  }

  lemma RewrittenShows(fs: Dfs, a: Image, b: Image, p: Path, bytes: seq<byte>)
    requires Rewritten(fs, a, b, p, bytes)
    ensures FsOk(fs, b) && Lookup(fs, b, p).Some? && BytesAt(fs, b, p) == bytes
  {}

  lemma GrownRewrites(fs: Dfs, a: Image, b: Image, i: nat)
    requires Grown(fs, a, b, i) && Live(Nodes(fs, a)[i])
    ensures Lookup(fs, a, Nodes(fs, a)[i].path).Some?
    ensures Rewritten(fs, a, b, Nodes(fs, a)[i].path, BytesAt(fs, a, Nodes(fs, a)[i].path))
  {
    forall q: Path
      ensures Lookup(fs, b, q) == Lookup(fs, a, q)
    {
      GrownLooksSame(fs, a, b, i, q);
    }
    LookupAt(fs, a, i);
  }

  /** File data is outside everything the metadata is read from. */
  lemma DataFrame(fs: Dfs, g: Image, c: Image, i: nat)
    requires FsOk(fs, g) && |c| == |g| && i < INODE_COUNT && Live(Nodes(fs, g)[i])
    requires forall x | 0 <= x < |g| && x !in Sectors(Nodes(fs, g)[i].extents) :: c[x] == g[x]
    ensures FsOk(fs, c) && MetaOf(fs, c) == MetaOf(fs, g)
    ensures c[fs.layout.journal] == g[fs.layout.journal]
    ensures OthersSame(fs, g, c, Nodes(fs, g)[i].path)
  {
    assert NodeOk(fs.layout, MetaOf(fs, g).nodes[i]);
    Bounds(fs.layout, |g|);
    assert forall x | 0 <= x < fs.layout.data :: c[x] == g[x];
    NodesFrame(fs, g, c);
    UsedFrame(fs.layout, g, c);
    OthersKept(fs, g, c, i, Nodes(fs, g)[i].path);
  }

  /** While the old size is in force a half-done write shows old and new bytes mixed within that size. */
  lemma TornRewrites(fs: Dfs, g: Image, c: Image, i: nat, offset: nat, input: seq<byte>)
    requires FsOk(fs, g) && i < INODE_COUNT && Live(Nodes(fs, g)[i])
    requires TornBy(g, c, Sectors(Nodes(fs, g)[i].extents), offset, input)
    ensures c[fs.layout.journal] == g[fs.layout.journal]
    ensures var p := Nodes(fs, g)[i].path;
      && Lookup(fs, g, p).Some?
      && (exists t :: Torn(BytesAt(fs, g, p), t, offset, input) && Rewritten(fs, g, c, p, t))
  {
    DataFrame(fs, g, c, i);
    LookupAt(fs, g, i);
    assert Nodes(fs, c)[i] == Nodes(fs, g)[i] by {
      assert MetaOf(fs, c).nodes == MetaOf(fs, g).nodes;
    }
    LookupAt(fs, c, i);
    var node := Nodes(fs, g)[i];
    TornContent(g, c, Sectors(node.extents), offset, input, node.size);
    assert Torn(BytesAt(fs, g, node.path), BytesAt(fs, c, node.path), offset, input);
  }

  /** And whatever torn text is chosen, some half-done write shows it. */
  lemma TornIsReached(fs: Dfs, g: Image, i: nat, offset: nat, input: seq<byte>, t: seq<byte>) returns (c: Image)
    requires FsOk(fs, g) && i < INODE_COUNT && Live(Nodes(fs, g)[i])
    requires Lookup(fs, g, Nodes(fs, g)[i].path).Some? && Torn(BytesAt(fs, g, Nodes(fs, g)[i].path), t, offset, input)
    ensures TornBy(g, c, Sectors(Nodes(fs, g)[i].extents), offset, input)
    ensures Rewritten(fs, g, c, Nodes(fs, g)[i].path, t)
  {
    hide Torn, TornBy, Sectors, Tiled, Distinct, TornImage;
    var node := Nodes(fs, g)[i];
    LookupAt(fs, g, i);
    assert NodeOk(fs.layout, MetaOf(fs, g).nodes[i]);
    Bounds(fs.layout, |g|);
    TornImageShows(g, Sectors(node.extents), offset, input, node.size, t);
    c := TornImage(g, Sectors(node.extents), offset, input, Content(g, Sectors(node.extents), node.size), t);
    TornElsewhere(g, c, Sectors(node.extents), offset, input);
    DataFrame(fs, g, c, i);
    assert Nodes(fs, c)[i] == node by {
      assert MetaOf(fs, c).nodes == MetaOf(fs, g).nodes;
    }
    LookupAt(fs, c, i);
  }

  lemma TornElsewhere(a: Image, c: Image, ss: seq<nat>, offset: nat, input: seq<byte>)
    requires TornBy(a, c, ss, offset, input)
    ensures |c| == |a| && forall x | 0 <= x < |a| && x !in ss :: c[x] == a[x]
  {}

  /** Once all the data is there and the size published, the file is the splice. */
  lemma PublishedRewrites(fs: Dfs, g: Image, d: Image, e: Image, i: nat, offset: nat, input: seq<byte>)
    requires FsOk(fs, g) && i < INODE_COUNT && Nodes(fs, g)[i].kind == NODE_FILE
    requires PatchedBy(g, d, Sectors(Nodes(fs, g)[i].extents), offset, input)
    requires offset <= Nodes(fs, g)[i].size
    requires offset + |input| <= SECTOR_SIZE * |Sectors(Nodes(fs, g)[i].extents)| && offset + |input| < U64_LIMIT
    requires var node := Nodes(fs, g)[i].(size := Max(Nodes(fs, g)[i].size, offset + |input|));
      Encodable(node) && Stored(fs, d, e, i, node)
    ensures var p := Nodes(fs, g)[i].path;
      && Lookup(fs, g, p).Some? && offset <= |BytesAt(fs, g, p)|
      && Rewritten(fs, g, e, p, Splice(BytesAt(fs, g, p), offset, input))
  {
    var node := Nodes(fs, g)[i];
    var bigger := node.(size := Max(node.size, offset + |input|));
    DataFrame(fs, g, d, i);
    SizePublished(fs, d, e, i, bigger.size);
    LookupAt(fs, g, i);
    PatchedFile(fs, g, d, e, i, offset, input);
    hide FsOk, NoLeaks, Lookup;
  }

  lemma PatchedFile(fs: Dfs, g: Image, d: Image, e: Image, i: nat, offset: nat, input: seq<byte>)
    requires FsOk(fs, g) && i < INODE_COUNT && Nodes(fs, g)[i].kind == NODE_FILE
    requires PatchedBy(g, d, Sectors(Nodes(fs, g)[i].extents), offset, input)
    requires offset <= Nodes(fs, g)[i].size
    requires offset + |input| <= SECTOR_SIZE * |Sectors(Nodes(fs, g)[i].extents)|
    requires |e| == |d| && forall x | InData(fs.layout, x) :: e[x] == d[x]
    ensures var node := Nodes(fs, g)[i];
      && NodeOk(fs.layout, node) && (forall x | x in Sectors(node.extents) :: x < |g|)
      && Content(e, Sectors(node.extents), Max(node.size, offset + |input|))
         == Splice(Content(g, Sectors(node.extents), node.size), offset, input)
  {
    var node := Nodes(fs, g)[i];
    assert NodeOk(fs.layout, MetaOf(fs, g).nodes[i]);
    Bounds(fs.layout, |g|);
    PatchedContent(g, d, Sectors(node.extents), offset, input, node.size);
    ContentFrame(e, d, Sectors(node.extents), Max(node.size, offset + |input|));
  }

  lemma SizePublished(fs: Dfs, d: Image, e: Image, i: nat, size: u64)
    requires FsOk(fs, d) && i < INODE_COUNT && Nodes(fs, d)[i].kind == NODE_FILE
    requires size <= SECTOR_SIZE * |Sectors(Nodes(fs, d)[i].extents)|
    requires var node := Nodes(fs, d)[i].(size := size); Encodable(node) && Stored(fs, d, e, i, node)
    ensures |e| == |d| && FsOk(fs, e) && (NoLeaks(MetaOf(fs, d)) ==> NoLeaks(MetaOf(fs, e)))
    ensures OthersSame(fs, d, e, Nodes(fs, d)[i].path)
    ensures var node := Nodes(fs, d)[i].(size := size);
      && NodeOk(fs.layout, node)
      && Lookup(fs, e, node.path) == Some(EntryOf(fs.layout, e, node))
    ensures forall x | InData(fs.layout, x) :: e[x] == d[x]
  {
    hide Stored, Used, Readable, MakeLayout, NoLeaks, Tree, Owned, Sectors, Tiled, Distinct;
    var node := Nodes(fs, d)[i].(size := size);
    assert NodeOk(fs.layout, MetaOf(fs, d).nodes[i]);
    StoredMeta(fs, d, e, i, node);
    ResizeKeeps(fs.layout, MetaOf(fs, d), i, size);
    assert Nodes(fs, e)[i] == node by {
      assert MetaOf(fs, e).nodes == MetaOf(fs, d).nodes[i := node];
    }
    OthersKept(fs, d, e, i, node.path);
    LookupAt(fs, e, i);
  }
}
