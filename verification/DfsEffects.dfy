/** What the journaled updates mean for the metadata and for the files. */
module DfsEffects {
  import opened Bytes
  import opened Disks
  import opened DfsLayout
  import opened DfsNode
  import opened DfsExtents
  import opened DfsBitmap
  import opened DfsState
  import opened DfsImage
  import opened DfsAlloc

  /** `b` is `a` with inode `i` stored as `node`, the journal aside. */
  ghost predicate Stored(fs: Dfs, a: Image, b: Image, i: nat, node: Node)
    requires i < INODE_COUNT && Encodable(node)
  {
    && |a| == |b| && fs.layout.inode + i < |a|
    && SameCore(fs.layout, b, a[fs.layout.inode + i := NodeSector(fs.crc, node)])
  }

  /** An inode that reads back as it was stored. */
  ghost predicate Faithful(node: Node) {
    node == EMPTY_NODE || (Storable(node) && 0 !in node.path)
  }

  lemma FaithfulReadsBack(node: Node)
    requires Faithful(node)
    ensures ReadBack(node) == node
  {
    CutIsWhole(node.path);
  }

  /** Storing an inode, whatever its path: the table has it as it reads back. */
  lemma StoredAny(fs: Dfs, a: Image, b: Image, i: nat, node: Node)
    requires Fits(fs.layout, |a|) && i < INODE_COUNT && (node == EMPTY_NODE || Storable(node)) && Readable(fs, a)
    requires Stored(fs, a, b, i, node)
    ensures Readable(fs, b) && MetaOf(fs, b) == WithNode(MetaOf(fs, a), i, ReadBack(node))
    ensures |b| == |a| && b[fs.layout.start] == a[fs.layout.start]
    ensures forall x | InData(fs.layout, x) :: b[x] == a[x]
  {
    StoreEffect(fs, a, b, i, node);
    UsedFrame(fs.layout, a, b);
  }

  lemma StoredMeta(fs: Dfs, a: Image, b: Image, i: nat, node: Node)
    requires Fits(fs.layout, |a|) && i < INODE_COUNT && Faithful(node) && Readable(fs, a)
    requires Stored(fs, a, b, i, node)
    ensures Readable(fs, b) && MetaOf(fs, b) == WithNode(MetaOf(fs, a), i, node)
    ensures |b| == |a| && b[fs.layout.start] == a[fs.layout.start]
    ensures forall x | InData(fs.layout, x) :: b[x] == a[x]
  {
    hide ReadBack, Stored, Used, Readable, MakeLayout;
    FaithfulReadsBack(node);
    StoredAny(fs, a, b, i, node);
  }

  /** The sectors of a run as a set. */
  function RunSet(lo: nat, n: nat): set<nat> {
    set x | x in Range(lo, n)
  }

  lemma RunSetHas(lo: nat, n: nat, x: nat)
    ensures x in RunSet(lo, n) <==> lo <= x < lo + n
  {
    if lo <= x < lo + n {
      assert Range(lo, n)[x - lo] == x;
    }
  }

  lemma UsedGrows(l: Layout, a: Image, b: Image, lo: nat, n: nat)
    requires Fits(l, |a|) && |a| == |b| && l.data <= lo && lo + n <= End(l)
    requires forall x | l.start <= x < End(l) :: Marked(l, b, x) == (lo <= x < lo + n || Marked(l, a, x))
    ensures Used(l, b) == Used(l, a) + RunSet(lo, n)
  {
    Bounds(l, |a|);
    forall x: nat
      ensures x in Used(l, b) <==> x in Used(l, a) + RunSet(lo, n)
    {
      RunSetHas(lo, n, x);
    }
  }

  lemma ReservedMeta(fs: Dfs, a: Image, b: Image, lo: nat, n: nat, i: nat, node: Node)
    requires Fits(fs.layout, |a|) && i < INODE_COUNT && Faithful(node) && Readable(fs, a)
    requires fs.layout.data <= lo && lo + n <= End(fs.layout)
    requires Reserved(fs, a, b, lo, lo + n, i, node)
    ensures Readable(fs, b)
    ensures MetaOf(fs, b) == Meta(Nodes(fs, a)[i := node], Used(fs.layout, a) + RunSet(lo, n))
    ensures |b| == |a| && b[fs.layout.start] == a[fs.layout.start]
    ensures forall x | InData(fs.layout, x) :: b[x] == a[x]
  {
    FaithfulReadsBack(node);
    StoreEffect(fs, a, b, i, node);
    UsedGrows(fs.layout, a, b, lo, n);
  }

  lemma ReleasedMeta(fs: Dfs, a: Image, b: Image, lo: nat, n: nat)
    requires Fits(fs.layout, |a|)
    requires fs.layout.data <= lo && lo + n <= End(fs.layout)
    requires Released(fs.layout, a, b, lo, lo + n)
    ensures MetaOf(fs, b) == Meta(Nodes(fs, a), Used(fs.layout, a) - RunSet(lo, n))
    ensures Readable(fs, a) <==> Readable(fs, b)
    ensures |b| == |a| && b[fs.layout.start] == a[fs.layout.start]
    ensures forall x | InData(fs.layout, x) :: b[x] == a[x]
  {
    NodesFrame(fs, a, b);
    Bounds(fs.layout, |a|);
    forall x: nat
      ensures x in Used(fs.layout, b) <==> x in Used(fs.layout, a) - RunSet(lo, n)
    {
      RunSetHas(lo, n, x);
    }
  }

  // ---------------------------------------------------------------- from sectors to files

  /** Every path other than `p` shows the same file or directory. */
  ghost predicate OthersSame(fs: Dfs, a: Image, b: Image, p: Path)
    requires FsOk(fs, a) && FsOk(fs, b)
  {
    forall q: Path | q != p :: Lookup(fs, b, q) == Lookup(fs, a, q)
  }

  /** Replacing inode `i`, of path `p` before or after, leaves every other path alone as long as the
    * sectors of the other files do. */
  lemma OthersKept(fs: Dfs, a: Image, b: Image, i: nat, p: Path)
    requires FsOk(fs, a) && FsOk(fs, b) && |a| == |b| && i < INODE_COUNT
    requires forall k | 0 <= k < INODE_COUNT && k != i :: Nodes(fs, b)[k] == Nodes(fs, a)[k]
    requires Live(Nodes(fs, a)[i]) ==> Nodes(fs, a)[i].path == p
    requires Live(Nodes(fs, b)[i]) ==> Nodes(fs, b)[i].path == p
    requires forall x | InData(fs.layout, x) && x !in Blocks(Nodes(fs, a)[i]) && x in Used(fs.layout, a) :: b[x] == a[x]
    ensures OthersSame(fs, a, b, p)
  {
    forall q: Path | q != p
      ensures Lookup(fs, b, q) == Lookup(fs, a, q)
    {
      OtherKept(fs, a, b, i, p, q);
    }
  }

  lemma OtherKept(fs: Dfs, a: Image, b: Image, i: nat, p: Path, q: Path)
    requires FsOk(fs, a) && FsOk(fs, b) && |a| == |b| && i < INODE_COUNT && q != p
    requires forall k | 0 <= k < INODE_COUNT && k != i :: Nodes(fs, b)[k] == Nodes(fs, a)[k]
    requires Live(Nodes(fs, a)[i]) ==> Nodes(fs, a)[i].path == p
    requires Live(Nodes(fs, b)[i]) ==> Nodes(fs, b)[i].path == p
    requires forall x | InData(fs.layout, x) && x !in Blocks(Nodes(fs, a)[i]) && x in Used(fs.layout, a) :: b[x] == a[x]
    ensures Lookup(fs, b, q) == Lookup(fs, a, q)
  {
    var na, nb := Nodes(fs, a), Nodes(fs, b);
    match Find(na, q)
    case None =>
      forall k | 0 <= k < INODE_COUNT
        ensures !Live(nb[k]) || nb[k].path != q
      {
        assert k == i || nb[k] == na[k];
      }
    case Some(k) =>
      assert k != i && nb[k] == na[k];
      FindUnique(nb, k);
      BlocksAway(fs, a, k, i);
      LookupFrame(fs, a, b, q);
  }

  /** The sectors of one file are data sectors in use that no other file has. */
  lemma BlocksAway(fs: Dfs, a: Image, k: nat, i: nat)
    requires FsOk(fs, a) && k < INODE_COUNT && i < INODE_COUNT && k != i
    ensures forall x | x in Blocks(Nodes(fs, a)[k]) ::
      InData(fs.layout, x) && x < |a| && x in Used(fs.layout, a) && x !in Blocks(Nodes(fs, a)[i])
  {
    var m := MetaOf(fs, a);
    assert NodeOk(fs.layout, m.nodes[k]);
    assert Blocks(m.nodes[k]) <= m.used;
    if k < i {
      assert Blocks(m.nodes[k]) !! Blocks(m.nodes[i]);
    } else {
      assert Blocks(m.nodes[i]) !! Blocks(m.nodes[k]);
    }
  }

  /** With the same inodes and the same file data every path shows the same. */
  lemma SameNodesLookSame(fs: Dfs, a: Image, b: Image, q: Path)
    requires FsOk(fs, a) && FsOk(fs, b) && |a| == |b| && Nodes(fs, b) == Nodes(fs, a)
    requires forall x | InData(fs.layout, x) :: b[x] == a[x]
    ensures Lookup(fs, b, q) == Lookup(fs, a, q)
  {
    var i := Find(Nodes(fs, a), q);
    if i.Some? {
      assert NodeOk(fs.layout, MetaOf(fs, a).nodes[i.value]);
      Bounds(fs.layout, |a|);
    }
    LookupFrame(fs, a, b, q);
  }

  /** The entry of a live inode. */
  lemma LookupAt(fs: Dfs, a: Image, i: nat)
    requires FsOk(fs, a) && i < INODE_COUNT && Live(Nodes(fs, a)[i])
    ensures NodeOk(fs.layout, Nodes(fs, a)[i])
    ensures Lookup(fs, a, Nodes(fs, a)[i].path) == Some(EntryOf(fs.layout, a, Nodes(fs, a)[i]))
  {
    FindUnique(Nodes(fs, a), i);
    assert NodeOk(fs.layout, MetaOf(fs, a).nodes[i]);
  }
}
