/** The metadata of a filesystem as an abstract value, what makes it consistent, and the changes
  * that keep it so. */
module DfsState {
  import opened Bytes
  import opened DfsLayout
  import opened DfsNode
  import opened DfsExtents
  import opened DfsPath

  /** The inode table and the data sectors the bitmap marks. */
  datatype Meta = Meta(nodes: seq<Node>, used: set<nat>)

  predicate Live(node: Node) { node.kind != 0 }

  /** The sectors a file owns. */
  function Blocks(node: Node): set<nat> {
    set x | x in Sectors(node.extents)
  }

  ghost predicate NodeOk(l: Layout, node: Node) {
    if node.kind == 0 then node == EMPTY_NODE
    else
      && Storable(node) && 0 !in node.path
      && (node.kind == NODE_DIRECTORY ==> node.size == 0)
      && Tiled(node.extents) && Distinct(Sectors(node.extents))
      && (forall x | x in Sectors(node.extents) :: InData(l, x))
      && node.size <= SECTOR_SIZE * |Sectors(node.extents)|
  }

  ghost predicate HasDirectory(nodes: seq<Node>, p: Path) {
    exists j :: 0 <= j < |nodes| && nodes[j].kind == NODE_DIRECTORY && nodes[j].path == p
  }

  /** Paths are unique and form a tree of directories under the root. */
  ghost predicate Tree(nodes: seq<Node>) {
    && |nodes| == INODE_COUNT
    && nodes[0].kind == NODE_DIRECTORY && nodes[0].path == []
    && (forall i, j | 0 <= i < |nodes| && 0 <= j < |nodes| && Live(nodes[i]) && Live(nodes[j])
          && nodes[i].path == nodes[j].path :: i == j)
    && (forall i | 0 < i < |nodes| && Live(nodes[i]) ::
          Named(nodes[i].path) && HasDirectory(nodes, ParentPath(nodes[i].path)))
  }

  /** No sector has two owners, and every owned sector is marked. */
  ghost predicate Owned(m: Meta) {
    && (forall i, j | 0 <= i < j < |m.nodes| :: Blocks(m.nodes[i]) !! Blocks(m.nodes[j]))
    && (forall i | 0 <= i < |m.nodes| :: Blocks(m.nodes[i]) <= m.used)
  }

  ghost predicate Consistent(l: Layout, m: Meta) {
    && Tree(m.nodes)
    && (forall i | 0 <= i < |m.nodes| :: NodeOk(l, m.nodes[i]))
    && Owned(m)
  }

  /** Every marked data sector has an owner: nothing was lost to an earlier power failure. */
  ghost predicate NoLeaks(m: Meta) {
    forall x | x in m.used :: HasOwner(m.nodes, x)
  }

  ghost predicate HasOwner(nodes: seq<Node>, x: nat) {
    exists i :: 0 <= i < |nodes| && x in Blocks(nodes[i])
  }

  /** `find_index`: the first live inode with this path. */
  function Find(nodes: seq<Node>, p: Path): (r: Option<nat>)
    ensures r.Some? ==> r.value < |nodes| && Live(nodes[r.value]) && nodes[r.value].path == p
    ensures r.None? ==> forall i | 0 <= i < |nodes| :: !Live(nodes[i]) || nodes[i].path != p
  {
    if nodes == [] then None
    else
      var n := |nodes| - 1;
      match Find(nodes[..n], p)
      case Some(i) => Some(i)
      case None =>
        assert forall i | 0 <= i < n :: nodes[i] == nodes[..n][i];
        if Live(nodes[n]) && nodes[n].path == p then Some(n) else None
  }

  /** A path leads to its one inode. */
  lemma FindUnique(nodes: seq<Node>, i: nat)
    requires Tree(nodes) && i < |nodes| && Live(nodes[i])
    ensures Find(nodes, nodes[i].path) == Some(i)
  {}

  /** Only the root has the empty path. */
  lemma RootIsAlone(nodes: seq<Node>, i: nat)
    requires Tree(nodes) && i < |nodes| && Live(nodes[i])
    ensures nodes[i].path == [] <==> i == 0
    ensures nodes[i].path == [] || Named(nodes[i].path)
  {}

  /** A sector count that fits the 32-bit fields of an extent. */
  lemma FileFits(l: Layout, n: nat, node: Node)
    requires Fits(l, n) && NodeOk(l, node)
    ensures |Sectors(node.extents)| <= End(l) - l.data < U32_LIMIT
    ensures forall k | 0 <= k < |node.extents| :: node.extents[k].logical + node.extents[k].count < U32_LIMIT
  {
    if node.kind != 0 {
      Pigeonhole(Sectors(node.extents), l.data, End(l));
      forall k | 0 <= k < |node.extents|
        ensures node.extents[k].logical + node.extents[k].count < U32_LIMIT
      {
        SectorsPrefix(node.extents, k + 1);
        assert node.extents[..k + 1][..k] == node.extents[..k];
      }
    }
  }

  lemma {:induction false} SectorsPrefix(es: seq<Extent>, k: nat)
    requires k <= |es|
    ensures |Sectors(es[..k])| <= |Sectors(es)|
    decreases |es|
  {
    if k < |es| {
      assert es[..|es| - 1][..k] == es[..k];
      SectorsPrefix(es[..|es| - 1], k);
    } else {
      assert es[..k] == es;
    }
  }

  // ---------------------------------------------------------------- changes that keep consistency

  function WithNode(m: Meta, i: nat, node: Node): Meta
    requires i < |m.nodes|
  {
    m.(nodes := m.nodes[i := node])
  }

  /** Replacing an inode by one with the same kind and path leaves the tree as it was. */
  lemma TreeSamePath(nodes: seq<Node>, i: nat, node: Node)
    requires Tree(nodes) && i < |nodes| && node.kind == nodes[i].kind && node.path == nodes[i].path
    ensures Tree(nodes[i := node])
  {
    var after := nodes[i := node];
    forall k | 0 < k < |after| && Live(after[k])
      ensures Named(after[k].path) && HasDirectory(after, ParentPath(after[k].path))
    {
      assert after[k].path == nodes[k].path;
      var j :| 0 <= j < |nodes| && nodes[j].kind == NODE_DIRECTORY && nodes[j].path == ParentPath(nodes[k].path);
      assert after[j].kind == NODE_DIRECTORY && after[j].path == nodes[j].path;
    }
    assert forall k | 0 <= k < |nodes| :: after[k].kind == nodes[k].kind && after[k].path == nodes[k].path;
  }

  /** A new inode under an existing directory extends the tree. */
  lemma TreeCreate(nodes: seq<Node>, i: nat, node: Node)
    requires Tree(nodes) && 0 < i < |nodes| && !Live(nodes[i])
    requires Live(node) && Named(node.path) && Find(nodes, node.path) == None
    requires HasDirectory(nodes, ParentPath(node.path))
    ensures Tree(nodes[i := node])
  {
    var after := nodes[i := node];
    forall k | 0 < k < |after| && Live(after[k])
      ensures Named(after[k].path) && HasDirectory(after, ParentPath(after[k].path))
    {
      var p := ParentPath(after[k].path);
      var j :| 0 <= j < |nodes| && nodes[j].kind == NODE_DIRECTORY && nodes[j].path == p;
      assert after[j] == nodes[j];
    }
  }

  ghost predicate Childless(nodes: seq<Node>, p: Path) {
    forall j | 0 <= j < |nodes| && Live(nodes[j]) && nodes[j].path != [] :: ParentPath(nodes[j].path) != p
  }

  /** Removing an inode without children leaves a tree. */
  lemma TreeRemove(nodes: seq<Node>, i: nat)
    requires Tree(nodes) && 0 < i < |nodes| && Live(nodes[i])
    requires Childless(nodes, nodes[i].path) || nodes[i].kind != NODE_DIRECTORY
    ensures Tree(nodes[i := EMPTY_NODE])
  {
    var after := nodes[i := EMPTY_NODE];
    forall k | 0 < k < |after| && Live(after[k])
      ensures Named(after[k].path) && HasDirectory(after, ParentPath(after[k].path))
    {
      assert after[k] == nodes[k] && k != i;
      var j :| 0 <= j < |nodes| && nodes[j].kind == NODE_DIRECTORY && nodes[j].path == ParentPath(nodes[k].path);
      assert nodes[k].path != [];
      assert j != i;
      assert after[j] == nodes[j];
    }
  }

  /** Metadata with one inode replaced by one that owns no more than `extra` beside the old sectors. */
  lemma OwnedReplace(m: Meta, i: nat, node: Node, used: set<nat>)
    requires Owned(m) && i < |m.nodes|
    requires m.used <= used
    requires Blocks(node) <= Blocks(m.nodes[i]) + (used - m.used)
    ensures Owned(Meta(m.nodes[i := node], used))
  {
    var after := m.nodes[i := node];
    forall a, b | 0 <= a < b < |after|
      ensures Blocks(after[a]) !! Blocks(after[b])
    {
      assert Blocks(m.nodes[a]) !! Blocks(m.nodes[b]);
      assert Blocks(m.nodes[a]) <= m.used && Blocks(m.nodes[b]) <= m.used;
    }
    forall a | 0 <= a < |after|
      ensures Blocks(after[a]) <= used
    {
      assert Blocks(m.nodes[a]) <= m.used;
    }
  }

  lemma NodesOkReplace(l: Layout, nodes: seq<Node>, i: nat, node: Node)
    requires i < |nodes| && NodeOk(l, node)
    requires forall k | 0 <= k < |nodes| :: NodeOk(l, nodes[k])
    ensures var after := nodes[i := node]; forall k | 0 <= k < |after| :: NodeOk(l, after[k])
  {}

  lemma EmptyOwnsNothing(node: Node)
    requires node.extents == []
    ensures Blocks(node) == {}
  {}

  lemma CreateKeeps(l: Layout, m: Meta, i: nat, node: Node)
    requires Consistent(l, m) && 0 < i < |m.nodes| && !Live(m.nodes[i])
    requires NodeOk(l, node) && Live(node) && node.extents == []
    requires Named(node.path) && Find(m.nodes, node.path) == None
    requires HasDirectory(m.nodes, ParentPath(node.path))
    ensures Consistent(l, WithNode(m, i, node))
    ensures NoLeaks(m) ==> NoLeaks(WithNode(m, i, node))
  {
    TreeCreate(m.nodes, i, node);
    NodesOkReplace(l, m.nodes, i, node);
    EmptyOwnsNothing(node);
    OwnedReplace(m, i, node, m.used);
    assert Blocks(m.nodes[i]) == {};
    OwnersStay(m, i, node, m.used);
  }

  /** Owners are not lost when the replacement owns at least what the old inode did. */
  lemma OwnersStay(m: Meta, i: nat, node: Node, used: set<nat>)
    requires i < |m.nodes|
    requires Blocks(m.nodes[i]) <= Blocks(node)
    requires used - m.used <= Blocks(node)
    ensures NoLeaks(m) ==> NoLeaks(Meta(m.nodes[i := node], used))
  {
    if NoLeaks(m) {
      var after := m.nodes[i := node];
      forall x | x in used
        ensures HasOwner(after, x)
      {
        if x in m.used {
          assert HasOwner(m.nodes, x);
          var k :| 0 <= k < |m.nodes| && x in Blocks(m.nodes[k]);
          assert x in Blocks(after[k]);
        } else {
          assert x in Blocks(after[i]);
        }
      }
    }
  }

  lemma BlocksAppend(a: seq<nat>, b: seq<nat>)
    ensures (set x | x in a + b) == (set x | x in a) + (set x | x in b)
  {}

  /** A file that grew by sectors nobody had, now marked, keeps everything consistent. */
  lemma GrowKeeps(l: Layout, m: Meta, i: nat, node: Node, run: seq<nat>)
    requires Consistent(l, m) && i < |m.nodes| && m.nodes[i].kind == NODE_FILE
    requires node == m.nodes[i].(extents := node.extents) && Storable(node)
    requires Tiled(node.extents) && Sectors(node.extents) == Sectors(m.nodes[i].extents) + run
    requires Distinct(run) && forall x | x in run :: InData(l, x) && x !in m.used
    ensures Consistent(l, Meta(m.nodes[i := node], m.used + (set x | x in run)))
    ensures NoLeaks(m) ==> NoLeaks(Meta(m.nodes[i := node], m.used + (set x | x in run)))
  {
    var used := m.used + (set x | x in run);
    BlocksAppend(Sectors(m.nodes[i].extents), run);
    assert Blocks(node) == Blocks(m.nodes[i]) + (set x | x in run);
    TreeSamePath(m.nodes, i, node);
    assert NodeOk(l, node) by {
      assert Blocks(m.nodes[i]) <= m.used;
      assert NodeOk(l, m.nodes[i]);
      var was := Sectors(m.nodes[i].extents);
      forall a, b | 0 <= a < b < |was + run|
        ensures (was + run)[a] != (was + run)[b]
      {
        if a < |was| <= b {
          assert was[a] in Blocks(m.nodes[i]);
          assert run[b - |was|] in run;
        }
      }
    }
    NodesOkReplace(l, m.nodes, i, node);
    OwnedReplace(m, i, node, used);
    OwnersStay(m, i, node, used);
  }

  /** Publishing a size within what is allocated. */
  lemma ResizeKeeps(l: Layout, m: Meta, i: nat, size: u64)
    requires Consistent(l, m) && i < |m.nodes| && m.nodes[i].kind == NODE_FILE
    requires size <= SECTOR_SIZE * |Sectors(m.nodes[i].extents)|
    ensures Consistent(l, WithNode(m, i, m.nodes[i].(size := size)))
    ensures NoLeaks(m) ==> NoLeaks(WithNode(m, i, m.nodes[i].(size := size)))
  {
    var node := m.nodes[i].(size := size);
    assert NodeOk(l, m.nodes[i]);
    TreeSamePath(m.nodes, i, node);
    NodesOkReplace(l, m.nodes, i, node);
    OwnedReplace(m, i, node, m.used);
    OwnersStay(m, i, node, m.used);
  }

  /** An inode that gives up its sectors, which stay marked for now. */
  lemma EmptyKeeps(l: Layout, m: Meta, i: nat)
    requires Consistent(l, m) && i < |m.nodes| && m.nodes[i].kind == NODE_FILE
    ensures Consistent(l, WithNode(m, i, m.nodes[i].(size := 0, extents := [])))
  {
    var node := m.nodes[i].(size := 0, extents := []);
    assert NodeOk(l, m.nodes[i]);
    TreeSamePath(m.nodes, i, node);
    NodesOkReplace(l, m.nodes, i, node);
    EmptyOwnsNothing(node);
    OwnedReplace(m, i, node, m.used);
  }

  lemma RemoveKeeps(l: Layout, m: Meta, i: nat)
    requires Consistent(l, m) && 0 < i < |m.nodes| && Live(m.nodes[i])
    requires Childless(m.nodes, m.nodes[i].path) || m.nodes[i].kind != NODE_DIRECTORY
    ensures Consistent(l, WithNode(m, i, EMPTY_NODE))
  {
    TreeRemove(m.nodes, i);
    NodesOkReplace(l, m.nodes, i, EMPTY_NODE);
    EmptyOwnsNothing(EMPTY_NODE);
    OwnedReplace(m, i, EMPTY_NODE, m.used);
  }

  /** Unmarking sectors that nobody owns. */
  lemma FreeKeeps(l: Layout, m: Meta, used: set<nat>)
    requires Consistent(l, m) && used <= m.used
    requires forall x | x in m.used && x !in used :: !HasOwner(m.nodes, x)
    ensures Consistent(l, m.(used := used))
  {
    forall i | 0 <= i < |m.nodes|
      ensures Blocks(m.nodes[i]) <= used
    {
      forall x | x in Blocks(m.nodes[i])
        ensures x in used
      {
        assert x in m.used;
        assert HasOwner(m.nodes, x);
      }
    }
  }

  /** What one inode owned has no owner once the inode is gone or emptied. */
  lemma OrphanedBy(m: Meta, i: nat, node: Node, x: nat)
    requires Owned(m) && i < |m.nodes| && Blocks(node) == {}
    ensures x in Blocks(m.nodes[i]) ==> !HasOwner(m.nodes[i := node], x)
    ensures x !in Blocks(m.nodes[i]) && HasOwner(m.nodes, x) ==> HasOwner(m.nodes[i := node], x)
  {
    var after := m.nodes[i := node];
    if x in Blocks(m.nodes[i]) {
      forall k | 0 <= k < |after|
        ensures x !in Blocks(after[k])
      {
        if k < i {
          assert Blocks(m.nodes[k]) !! Blocks(m.nodes[i]);
        } else if i < k {
          assert Blocks(m.nodes[i]) !! Blocks(m.nodes[k]);
        }
      }
    } else if HasOwner(m.nodes, x) {
      var k :| 0 <= k < |m.nodes| && x in Blocks(m.nodes[k]);
      assert after[k] == m.nodes[k];
    }
  }

  /** Once the sectors of the emptied inode are unmarked, exactly the owned sectors are marked. */
  lemma ReleaseSettles(m: Meta, i: nat, node: Node)
    requires Owned(m) && i < |m.nodes| && Blocks(node) == {} && NoLeaks(m)
    ensures NoLeaks(Meta(m.nodes[i := node], m.used - Blocks(m.nodes[i])))
  {
    var after := m.nodes[i := node];
    forall x | x in m.used - Blocks(m.nodes[i])
      ensures HasOwner(after, x)
    {
      OrphanedBy(m, i, node, x);
    }
  }
}
