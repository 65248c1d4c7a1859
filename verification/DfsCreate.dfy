/** `create_node`: a new inode, and when its name leaves the filesystem consistent. */
module DfsCreate {
  import opened Bytes
  import opened Disks
  import opened DfsLayout
  import opened DfsJournal
  import opened DfsNode
  import opened DfsPath
  import opened DfsState
  import opened DfsNames
  import opened DfsImage
  import opened DfsAlloc
  import opened DfsEffects
  import opened DfsFind

  /** A new inode that `create_node` accepts for a free slot. */
  ghost predicate Creatable(nodes: seq<Node>, i: nat, node: Node) {
    && 0 < i < |nodes| && !Live(nodes[i])
    && Named(node.path) && |node.path| <= MAX_PATH && CreateVerdict(nodes, node.path).Ok?
    && node == NewNode(node.path, node.kind, node.mode, node.uid, node.gid)
    && (node.kind == NODE_FILE || node.kind == NODE_DIRECTORY)
  }

  /** The stored name stops at the first NUL; with it stored the table holds this. */
  lemma CreatedMeta(fs: Dfs, a: Image, b: Image, i: nat, node: Node)
    requires FsOk(fs, a) && i < INODE_COUNT && Creatable(Nodes(fs, a), i, node)
    requires Stored(fs, a, b, i, node)
    ensures |b| == |a| && Readable(fs, b) && b[fs.layout.start] == a[fs.layout.start]
    ensures MetaOf(fs, b) == WithNode(MetaOf(fs, a), i, ReadBack(node))
    ensures Nodes(fs, b) == Nodes(fs, a)[i := ReadBack(node)]
    ensures forall x | InData(fs.layout, x) :: b[x] == a[x]
  {
    hide Stored, Used, Readable, MakeLayout, CanonicalPath, Consistent, ReadBack, CreateVerdict, Find;
    ReadableHere(fs, a);
    StoredAny(fs, a, b, i, node);
    assert MetaOf(fs, b).nodes == Nodes(fs, b);
  }

  lemma ReadableHere(fs: Dfs, a: Image)
    requires FsOk(fs, a)
    ensures Readable(fs, a) && Tree(Nodes(fs, a))
    ensures forall k | 0 <= k < INODE_COUNT && Live(Nodes(fs, a)[k]) :: 0 !in Nodes(fs, a)[k].path
  {
    assert MetaOf(fs, a).nodes == Nodes(fs, a);
    forall k | 0 <= k < INODE_COUNT && Live(Nodes(fs, a)[k])
      ensures 0 !in Nodes(fs, a)[k].path
    {
      assert NodeOk(fs.layout, MetaOf(fs, a).nodes[k]);
    }
  }

  /** A filesystem with the inode in it is consistent exactly when the name, cut at its first NUL, is a proper one and
    * free. */
  lemma CreatedOkIff(fs: Dfs, a: Image, b: Image, i: nat, node: Node)
    requires FsOk(fs, a) && i < INODE_COUNT && Creatable(Nodes(fs, a), i, node)
    requires Stored(fs, a, b, i, node)
    ensures FsOk(fs, b) <==> KeepsTree(Nodes(fs, a), node.path)
    ensures KeepsTree(Nodes(fs, a), node.path) ==> NoLeaks(MetaOf(fs, a)) ==> NoLeaks(MetaOf(fs, b))
  {
    hide Stored, Used, Readable, MakeLayout, CanonicalPath, NoLeaks, Tree, Owned, Find, KeepsTree, NodeOk;
    CreatedMeta(fs, a, b, i, node);
    ReadableHere(fs, a);
    CreateKeepsTreeIff(Nodes(fs, a), i, node);
    if KeepsTree(Nodes(fs, a), node.path) {
      KeptDirectory(Nodes(fs, a), node.path);
      CutIsPrefix(node.path);
      NewNodeOk(fs.layout, ReadBack(node));
      CreateKeeps(fs.layout, MetaOf(fs, a), i, ReadBack(node));
    } else {
      assert MetaOf(fs, b).nodes == Nodes(fs, b);
    }
  }

  lemma NewNodeOk(l: Layout, node: Node)
    requires node == NewNode(node.path, node.kind, node.mode, node.uid, node.gid)
    requires (node.kind == NODE_FILE || node.kind == NODE_DIRECTORY) && |node.path| <= MAX_PATH && 0 !in node.path
    ensures NodeOk(l, node) && Live(node) && node.extents == []
  {}

  lemma KeptDirectory(nodes: seq<Node>, path: Path)
    requires Named(path) && CreateVerdict(nodes, path).Ok? && KeepsTree(nodes, path)
    requires forall k | 0 <= k < |nodes| && Live(nodes[k]) :: 0 !in nodes[k].path
    ensures HasDirectory(nodes, ParentPath(CutAtNul(path)))
    ensures Named(CutAtNul(path)) && Find(nodes, CutAtNul(path)) == None
  {
    var d := Find(nodes, ParentPath(path)).value;
    assert nodes[d].path == ParentPath(path) && nodes[d].kind == NODE_DIRECTORY;
    CutKeepsParent(path);
  }

  /** Such a new inode shows an empty entry under its name, cut at the first NUL, and nothing else changes. */
  lemma CreatedShows(fs: Dfs, a: Image, b: Image, i: nat, node: Node)
    requires FsOk(fs, a) && i < INODE_COUNT && Creatable(Nodes(fs, a), i, node)
    requires Stored(fs, a, b, i, node) && FsOk(fs, b)
    ensures Lookup(fs, b, CutAtNul(node.path)) == Some(Entry(node.kind, node.mode, node.uid, node.gid, []))
    ensures OthersSame(fs, a, b, CutAtNul(node.path))
  {
    hide Stored, Used, Readable, MakeLayout, CanonicalPath, NoLeaks, Tree, Owned, Find, KeepsTree, NodeOk,
      CreateVerdict, Consistent;
    CreatedMeta(fs, a, b, i, node);
    LookupAt(fs, b, i);
    OthersKept(fs, a, b, i, CutAtNul(node.path));
  }

  /** A new inode is found again under the name it was created with exactly when the name has no NUL. */
  lemma CreatedIsFound(fs: Dfs, a: Image, b: Image, i: nat, node: Node)
    requires FsOk(fs, a) && i < INODE_COUNT && Creatable(Nodes(fs, a), i, node)
    requires Stored(fs, a, b, i, node)
    ensures |b| == |a| && (Find(Nodes(fs, b), node.path).Some? <==> 0 !in node.path)
  {
    hide Consistent, Stored, MakeLayout, CanonicalPath;
    CreatedMeta(fs, a, b, i, node);
    CutIsWhole(node.path);
    var stored := Nodes(fs, b);
    assert Live(stored[i]);
    if 0 in node.path {
      forall k | 0 <= k < INODE_COUNT
        ensures !Live(stored[k]) || stored[k].path != node.path
      {
        assert k == i || stored[k] == Nodes(fs, a)[k];
      }
    }
  }

  /** Any inode stored in a free slot keeps paths unique exactly when nothing has its name cut at the first NUL, and
    * keeps the tree exactly when moreover the cut name is a proper one with a live directory as its parent. */
  lemma StoredUniqueIff(fs: Dfs, a: Image, b: Image, i: nat, node: Node)
    requires FsOk(fs, a) && i < INODE_COUNT && !Live(Nodes(fs, a)[i])
    requires Storable(node) && Stored(fs, a, b, i, node)
    ensures |b| == |a| && (UniquePaths(Nodes(fs, b)) <==> Find(Nodes(fs, a), CutAtNul(node.path)).None?)
    ensures Tree(Nodes(fs, b)) <==>
      && Find(Nodes(fs, a), CutAtNul(node.path)).None? && Named(CutAtNul(node.path))
      && HasDirectory(Nodes(fs, a), ParentPath(CutAtNul(node.path)))
  {
    hide Consistent, Stored, MakeLayout, CanonicalPath, Tree, UniquePaths, Find, ParentPath, CutAtNul, Used, Named;
    ReadableHere(fs, a);
    ReadableFits(fs, a);
    StoredAny(fs, a, b, i, node);
    assert MetaOf(fs, b).nodes == Nodes(fs, b);
    TreeIsUnique(Nodes(fs, a));
    UniqueIff(Nodes(fs, a), i, ReadBack(node));
    TreeIff(Nodes(fs, a), i, ReadBack(node));
  }

  /** The input that breaks it: with a file "a" in the root and a slot free, "a\0b" is a name `create_node` accepts, and
    * afterwards two inodes have the path "a". */
  lemma NulMakesDoubles(fs: Dfs, a: Image, b: Image, i: nat, mode: u16, uid: u32, gid: u32)
    requires FsOk(fs, a) && 0 < i < INODE_COUNT && !Live(Nodes(fs, a)[i]) && Find(Nodes(fs, a), PLAIN_NAME).Some?
    requires Stored(fs, a, b, i, NewNode(NUL_NAME, NODE_FILE, mode, uid, gid))
    ensures CanonicalPath(NUL_NAME) == Ok(NUL_NAME)
    ensures Creatable(Nodes(fs, a), i, NewNode(NUL_NAME, NODE_FILE, mode, uid, gid))
    ensures |b| == |a| && !UniquePaths(Nodes(fs, b)) && !FsOk(fs, b)
  {
    hide Consistent, Stored, MakeLayout, CanonicalPath, Tree, UniquePaths, Find, ParentPath, CutAtNul, FsOk;
    var node := NewNode(NUL_NAME, NODE_FILE, mode, uid, gid);
    ReadableFits(fs, a);
    NulName();
    ReadableHere(fs, a);
    NulInput(Nodes(fs, a), i, node);
    CanonicalIsClean(NUL_NAME);
    assert |NUL_NAME| == 3;
    StoredUniqueIff(fs, a, b, i, node);
    CreatedOkIff(fs, a, b, i, node);
  }

  /** `create_node`: every check comes before the first write. */
  method CreateNode(fs: Dfs, device: Disk, path: Path, kind: byte, mode: u16, uid: u32, gid: u32)
    returns (r: Result<nat, DfsError>)
    requires FsOk(fs, device.durable) && Quiet(fs, device.durable, device.pending)
    requires Named(path) && |path| <= MAX_PATH && (kind == NODE_FILE || kind == NODE_DIRECTORY)
    modifies device
    ensures Quiet(fs, device.durable, device.pending)
    ensures |device.durable| == |old(device.durable)|
    ensures CreateVerdict(Nodes(fs, old(device.durable)), path).Err? ==>
      && r == Err(CreateVerdict(Nodes(fs, old(device.durable)), path).error)
      && device.durable == old(device.durable) && device.crashes == old(device.crashes)
    ensures CreateVerdict(Nodes(fs, old(device.durable)), path).Ok? ==>
      && r.Ok? && 1 <= r.value < INODE_COUNT && !Live(Nodes(fs, old(device.durable))[r.value])
      && MetaOf(fs, device.durable)
         == WithNode(MetaOf(fs, old(device.durable)), r.value, ReadBack(NewNode(path, kind, mode, uid, gid)))
      && (FsOk(fs, device.durable) <==> KeepsTree(Nodes(fs, old(device.durable)), path))
      && EitherWay(fs, old(device.crashes), device.crashes, old(device.durable), device.durable)
    ensures CreateVerdict(Nodes(fs, old(device.durable)), path).Ok? && KeepsTree(Nodes(fs, old(device.durable)), path) ==>
      && Lookup(fs, device.durable, CutAtNul(path)) == Some(Entry(kind, mode, uid, gid, []))
      && OthersSame(fs, old(device.durable), device.durable, CutAtNul(path))
      && (NoLeaks(MetaOf(fs, old(device.durable))) ==> NoLeaks(MetaOf(fs, device.durable)))
  {
    hide Consistent, MetaOf, MakeLayout, Named, Stored, NoLeaks, Find, Recovered, Core, FsOk, OthersSame, Lookup,
      KeepsTree, EitherWay, ReadBack, CutAtNul;
    ghost var before := device.durable;
    assert device.View() == before;
    var lookup := FindNode(fs, device, path);
    var existing := lookup.value;
    if existing.Some? {
      return Err(AlreadyExists);
    }
    var above := FindNode(fs, device, ParentPath(path));
    var parent := above.value;
    if parent.None? || parent.value.kind != NODE_DIRECTORY {
      return Err(NotDirectory);
    }
    var index :- FindFree(fs, device);
    var node := NewNode(path, kind, mode, uid, gid);
    var _ := StoreNode(fs, device, index, node);
    CreatedMeta(fs, before, device.durable, index, node);
    CreatedOkIff(fs, before, device.durable, index, node);
    if KeepsTree(Nodes(fs, before), path) {
      CreatedShows(fs, before, device.durable, index, node);
    }
    return Ok(index);
  }
}
