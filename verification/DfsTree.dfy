/** Subtrees of the inode table: descendants, depth, and what removing part of one leaves. */
module DfsTree {
  import opened Bytes
  import opened Disks
  import opened DfsLayout
  import opened DfsNode
  import opened DfsPath
  import opened DfsState
  import opened DfsDepth
  import opened DfsImage
  import opened DfsEffects
  import opened DfsAlloc
  import opened DfsVacate

  /** Nothing of the subtree is left. */
  ghost predicate Gone(nodes: seq<Node>, p: Path) {
    forall k | 0 <= k < |nodes| && Live(nodes[k]) :: !InTree(nodes[k].path, p)
  }

  /** Climbing from a descendant of `p` one meets a child of `p`. */
  lemma {:induction false} DescendantHasChild(nodes: seq<Node>, p: Path, k: nat)
    requires Tree(nodes) && k < |nodes| && Live(nodes[k]) && Under(nodes[k].path, p) && Clean(p)
    ensures !Childless(nodes, p)
    decreases |nodes[k].path|
  {
    var q := nodes[k].path;
    RootIsAlone(nodes, k);
    UnderParent(q, p);
    if ParentPath(q) != p {
      assert HasDirectory(nodes, ParentPath(q));
      var j :| 0 <= j < |nodes| && nodes[j].kind == NODE_DIRECTORY && nodes[j].path == ParentPath(q);
      DescendantHasChild(nodes, p, j);
    }
  }

  /** Files have no children, and a childless inode is its whole subtree. */
  lemma SubtreeOfChildless(nodes: seq<Node>, i: nat)
    requires Tree(nodes) && 0 < i < |nodes| && Live(nodes[i])
    requires nodes[i].kind != NODE_DIRECTORY || Childless(nodes, nodes[i].path)
    ensures Gone(nodes[i := EMPTY_NODE], nodes[i].path)
    ensures forall k | 0 <= k < |nodes| && Live(nodes[k]) && InTree(nodes[k].path, nodes[i].path) :: k == i
  {
    var p := nodes[i].path;
    RootIsAlone(nodes, i);
    if nodes[i].kind != NODE_DIRECTORY {
      FileIsChildless(nodes, i);
    }
    forall k | 0 <= k < |nodes| && Live(nodes[k]) && InTree(nodes[k].path, p)
      ensures k == i
    {
      if nodes[k].path != p {
        DescendantHasChild(nodes, p, k);
        assert false;
      }
    }
  }

  /** `b` is `a` with some inodes at or below `p` gone and the file data untouched. */
  ghost predicate Pruned(fs: Dfs, a: Image, b: Image, p: Path) {
    && FsOk(fs, a) && FsOk(fs, b) && |a| == |b|
    && (forall k | 0 <= k < INODE_COUNT :: Pruning(Nodes(fs, a)[k], Nodes(fs, b)[k], p))
    && (forall x | InData(fs.layout, x) :: b[x] == a[x])
  }

  ghost predicate Pruning(was: Node, now: Node, p: Path) {
    now == was || (now == EMPTY_NODE && Live(was) && InTree(was.path, p))
  }

  ghost function PruneOutcomes(fs: Dfs, a: Image, p: Path): iset<Image> {
    iset x | Pruned(fs, a, x, p)
  }

  lemma PrunedRefl(fs: Dfs, a: Image, p: Path)
    requires FsOk(fs, a)
    ensures Pruned(fs, a, a, p)
  {}

  lemma PrunedTrans(fs: Dfs, a: Image, b: Image, c: Image, p: Path)
    requires Pruned(fs, a, b, p) && Pruned(fs, b, c, p)
    ensures Pruned(fs, a, c, p)
  {
    hide InTree, Consistent, MakeLayout, Nodes;
    forall k | 0 <= k < INODE_COUNT
      ensures Pruning(Nodes(fs, a)[k], Nodes(fs, c)[k], p)
    {
      assert Pruning(Nodes(fs, a)[k], Nodes(fs, b)[k], p) && Pruning(Nodes(fs, b)[k], Nodes(fs, c)[k], p);
    }
  }

  lemma PrunedFrom(fs: Dfs, a: Image, b: Image, p: Path)
    requires Pruned(fs, a, b, p)
    ensures PruneOutcomes(fs, b, p) <= PruneOutcomes(fs, a, p)
  {
    forall c | Pruned(fs, b, c, p)
      ensures Pruned(fs, a, c, p)
    {
      PrunedTrans(fs, a, b, c, p);
    }
  }

  /** Pruning below a descendant is pruning below the ancestor. */
  lemma PrunedWiden(fs: Dfs, a: Image, b: Image, q: Path, p: Path)
    requires Pruned(fs, a, b, q) && InTree(q, p)
    ensures Pruned(fs, a, b, p)
  {
    hide Consistent, MakeLayout, Nodes;
    forall k | 0 <= k < INODE_COUNT
      ensures Pruning(Nodes(fs, a)[k], Nodes(fs, b)[k], p)
    {
      assert Pruning(Nodes(fs, a)[k], Nodes(fs, b)[k], q);
      if Nodes(fs, b)[k] != Nodes(fs, a)[k] {
        InTreeTrans(Nodes(fs, a)[k].path, q, p);
      }
    }
  }

  lemma OutcomesWiden(fs: Dfs, a: Image, q: Path, p: Path)
    requires InTree(q, p)
    ensures PruneOutcomes(fs, a, q) <= PruneOutcomes(fs, a, p)
  {
    forall b | Pruned(fs, a, b, q)
      ensures Pruned(fs, a, b, p)
    {
      PrunedWiden(fs, a, b, q, p);
    }
  }

  /** As the paths show it: outside the subtree nothing changed, inside it things are as before or gone. */
  lemma PrunedShows(fs: Dfs, a: Image, b: Image, p: Path, q: Path)
    requires Pruned(fs, a, b, p)
    ensures Lookup(fs, b, q) == Lookup(fs, a, q) || (InTree(q, p) && Lookup(fs, b, q) == None)
    ensures Gone(Nodes(fs, b), p) && InTree(q, p) ==> Lookup(fs, b, q) == None
  {
    hide InTree;
    var na, nb := Nodes(fs, a), Nodes(fs, b);
    match Find(nb, q)
    case None =>
      if Find(na, q).Some? {
        var k := Find(na, q).value;
        assert Pruning(na[k], nb[k], p);
        FindUniqueIn(fs, a, k);
      }
    case Some(k) =>
      assert Pruning(na[k], nb[k], p);
      LookupAt(fs, a, k);
      LookupAt(fs, b, k);
      SurvivorSame(fs, a, b, k);
  }

  lemma FindUniqueIn(fs: Dfs, a: Image, k: nat)
    requires FsOk(fs, a) && k < INODE_COUNT && Live(Nodes(fs, a)[k])
    ensures Find(Nodes(fs, a), Nodes(fs, a)[k].path) == Some(k)
  {
    FindUnique(Nodes(fs, a), k);
  }

  lemma SurvivorSame(fs: Dfs, a: Image, b: Image, k: nat)
    requires FsOk(fs, a) && FsOk(fs, b) && |a| == |b| && k < INODE_COUNT && Live(Nodes(fs, a)[k])
    requires Nodes(fs, b)[k] == Nodes(fs, a)[k]
    requires forall x | InData(fs.layout, x) :: b[x] == a[x]
    ensures Lookup(fs, b, Nodes(fs, a)[k].path) == Lookup(fs, a, Nodes(fs, a)[k].path)
  {
    FindUniqueIn(fs, a, k);
    FindUniqueIn(fs, b, k);
    assert NodeOk(fs.layout, MetaOf(fs, a).nodes[k]);
    Bounds(fs.layout, |a|);
    LookupFrame(fs, a, b, Nodes(fs, a)[k].path);
  }

  /** Removing one inode prunes its path, done or not. */
  lemma VacatedPrunes(fs: Dfs, a: Image, x: Image, i: nat)
    requires MayLeave(fs, a, x, i, EMPTY_NODE) && Live(Nodes(fs, a)[i])
    ensures Pruned(fs, a, x, Nodes(fs, a)[i].path)
  {
    hide Consistent, MakeLayout;
    forall k | 0 <= k < INODE_COUNT
      ensures Pruning(Nodes(fs, a)[k], Nodes(fs, x)[k], Nodes(fs, a)[i].path)
    {
      if k == i {
        assert InTree(Nodes(fs, a)[i].path, Nodes(fs, a)[i].path);
      }
    }
  }

  lemma VacateOutcomesPrune(fs: Dfs, a: Image, i: nat)
    requires FsOk(fs, a) && i < INODE_COUNT && Live(Nodes(fs, a)[i])
    ensures VacateOutcomes(fs, a, i, EMPTY_NODE) <= PruneOutcomes(fs, a, Nodes(fs, a)[i].path)
  {
    forall x | MayLeave(fs, a, x, i, EMPTY_NODE)
      ensures Pruned(fs, a, x, Nodes(fs, a)[i].path)
    {
      VacatedPrunes(fs, a, x, i);
    }
  }
}
