/** Taking an inode's sectors away: the common part of `truncate` and `remove`. */
module DfsVacate {
  import opened Bytes
  import opened Disks
  import opened DfsLayout
  import opened DfsJournal
  import opened DfsNode
  import opened DfsState
  import opened DfsImage
  import opened DfsAlloc
  import opened DfsEffects
  import opened DfsFind
  import opened DfsFree

  function Emptied(node: Node): Node { node.(size := 0, extents := []) }

  /** A file may be emptied; a file or a directory without children may go, but not the root. */
  ghost predicate MayVacate(nodes: seq<Node>, i: nat, after: Node) {
    && i < |nodes| && Live(nodes[i])
    && (|| (nodes[i].kind == NODE_FILE && after == Emptied(nodes[i]))
        || (i > 0 && after == EMPTY_NODE && (nodes[i].kind != NODE_DIRECTORY || Childless(nodes, nodes[i].path))))
  }

  /** `b` is `a` except that `p` shows `e`. */
  ghost predicate Replaced(fs: Dfs, a: Image, b: Image, p: Path, e: Option<Entry>) {
    FsOk(fs, a) && FsOk(fs, b) && |a| == |b| && OthersSame(fs, a, b, p) && Lookup(fs, b, p) == e
  }

  ghost function Left(fs: Dfs, a: Image, p: Path, after: Node): Option<Entry>
    requires FsOk(fs, a)
  {
    if after == EMPTY_NODE || Lookup(fs, a, p).None? then None else Some(Lookup(fs, a, p).value.(bytes := []))
  }

  /** `x` is `a` with `after` in place of inode `i`, file data untouched. */
  ghost predicate Vacated(fs: Dfs, a: Image, x: Image, i: nat, after: Node) {
    && FsOk(fs, a) && FsOk(fs, x) && |x| == |a| && i < INODE_COUNT
    && Nodes(fs, x) == Nodes(fs, a)[i := after]
    && (forall s | InData(fs.layout, s) :: x[s] == a[s])
  }

  /** A power loss leaves the inode as it was or as it is to be. */
  ghost predicate MayLeave(fs: Dfs, a: Image, x: Image, i: nat, after: Node) {
    FsOk(fs, a) && i < INODE_COUNT && (Vacated(fs, a, x, i, Nodes(fs, a)[i]) || Vacated(fs, a, x, i, after))
  }

  ghost function VacateOutcomes(fs: Dfs, a: Image, i: nat, after: Node): iset<Image> {
    iset x | MayLeave(fs, a, x, i, after)
  }

  lemma VacatedEncodable(fs: Dfs, a: Image, i: nat, after: Node)
    requires FsOk(fs, a) && i < INODE_COUNT && MayVacate(Nodes(fs, a), i, after)
    ensures Encodable(after) && Faithful(after) && after.extents == []
  {
    ReadableNode(fs, a, i);
  }

  lemma VacatedMeta(fs: Dfs, a: Image, e: Image, i: nat, after: Node)
    requires FsOk(fs, a) && i < INODE_COUNT && MayVacate(Nodes(fs, a), i, after)
    requires Encodable(after) && Stored(fs, a, e, i, after)
    ensures Vacated(fs, a, e, i, after) && Used(fs.layout, e) == Used(fs.layout, a)
  {
    hide Consistent, NoLeaks, Stored, Used, NodeOk, Childless;
    VacatedEncodable(fs, a, i, after);
    StoredMeta(fs, a, e, i, after);
    if after == EMPTY_NODE {
      RemoveKeeps(fs.layout, MetaOf(fs, a), i);
    } else {
      EmptyKeeps(fs.layout, MetaOf(fs, a), i);
    }
  }

  lemma VacatedUnowned(m: Meta, i: nat, after: Node)
    requires Owned(m) && i < |m.nodes| && after.extents == []
    ensures Unowned(m.nodes[i := after], SectorSet(m.nodes[i].extents))
  {
    EmptyOwnsNothing(after);
    forall x | x in SectorSet(m.nodes[i].extents)
      ensures !HasOwner(m.nodes[i := after], x)
    {
      assert x in Blocks(m.nodes[i]);
      OrphanedBy(m, i, after, x);
    }
  }

  /** A vacated inode as the paths show it. */
  lemma VacatedShows(fs: Dfs, a: Image, e: Image, i: nat, after: Node)
    requires Vacated(fs, a, e, i, after) && MayVacate(Nodes(fs, a), i, after)
    ensures Replaced(fs, a, e, Nodes(fs, a)[i].path, Left(fs, a, Nodes(fs, a)[i].path, after))
  {
    hide Consistent, Used, NodeOk, Childless;
    var p := Nodes(fs, a)[i].path;
    OthersKept(fs, a, e, i, p);
    LookupAt(fs, a, i);
    if after == EMPTY_NODE {
      GoneFrom(fs, a, e, i);
    } else {
      LookupAt(fs, e, i);
    }
  }

  /** So a power loss while a file is emptied or removed shows it whole, or shows it done. */
  lemma VacateIsAtomic(fs: Dfs, a: Image, x: Image, i: nat, after: Node)
    requires x in VacateOutcomes(fs, a, i, after) && MayVacate(Nodes(fs, a), i, after)
    ensures var p := Nodes(fs, a)[i].path;
      Replaced(fs, a, x, p, Lookup(fs, a, p)) || Replaced(fs, a, x, p, Left(fs, a, p, after))
  {
    hide Replaced, Left, Lookup, FsOk;
    if Vacated(fs, a, x, i, after) {
      VacatedShows(fs, a, x, i, after);
    } else {
      UntouchedShows(fs, a, x, i);
    }
  }

  lemma UntouchedShows(fs: Dfs, a: Image, x: Image, i: nat)
    requires i < INODE_COUNT && FsOk(fs, a) && Live(Nodes(fs, a)[i]) && Vacated(fs, a, x, i, Nodes(fs, a)[i])
    ensures Replaced(fs, a, x, Nodes(fs, a)[i].path, Lookup(fs, a, Nodes(fs, a)[i].path))
  {
    hide Lookup;
    forall q: Path
      ensures Lookup(fs, x, q) == Lookup(fs, a, q)
    {
      SameNodesLookSame(fs, a, x, q);
    }
  }

  /** The path of an inode that is gone names nothing. */
  lemma GoneFrom(fs: Dfs, a: Image, e: Image, i: nat)
    requires FsOk(fs, a) && FsOk(fs, e) && i < INODE_COUNT && Live(Nodes(fs, a)[i])
    requires Nodes(fs, e) == Nodes(fs, a)[i := EMPTY_NODE]
    ensures Lookup(fs, e, Nodes(fs, a)[i].path) == None
  {
    var p := Nodes(fs, a)[i].path;
    assert Tree(MetaOf(fs, a).nodes);
    forall k | 0 <= k < INODE_COUNT
      ensures !Live(Nodes(fs, e)[k]) || Nodes(fs, e)[k].path != p
    {
      assert k == i || Nodes(fs, a)[k] == Nodes(fs, e)[k];
    }
  }

  lemma VacatedFreed(fs: Dfs, a: Image, e: Image, b: Image, i: nat, after: Node, gone: set<nat>)
    requires Vacated(fs, a, e, i, after) && Freed(fs, e, b, gone)
    ensures Vacated(fs, a, b, i, after)
  {}

  lemma VacatedCore(fs: Dfs, a: Image, b: Image, i: nat, after: Node)
    requires Vacated(fs, a, b, i, after)
    ensures Vacated(fs, a, Core(fs.layout, b), i, after)
  {
    CoreIsSame(fs.layout, b, b);
    CoreFrame(fs, b, Core(fs.layout, b));
    Bounds(fs.layout, |a|);
    assert Nodes(fs, Core(fs.layout, b)) == MetaOf(fs, Core(fs.layout, b)).nodes;
    assert Nodes(fs, b) == MetaOf(fs, b).nodes;
  }

  lemma VacatedRefl(fs: Dfs, a: Image, i: nat)
    requires FsOk(fs, a) && i < INODE_COUNT
    ensures Vacated(fs, a, a, i, Nodes(fs, a)[i])
  {}

  /** With the old sectors unmarked, marked and owned agree again. */
  lemma VacatedSettles(fs: Dfs, a: Image, e: Image, b: Image, i: nat, after: Node)
    requires Vacated(fs, a, e, i, after) && after.extents == [] && Used(fs.layout, e) == Used(fs.layout, a)
    requires Freed(fs, e, b, SectorSet(Nodes(fs, a)[i].extents))
    requires Used(fs.layout, b) == Used(fs.layout, e) - SectorSet(Nodes(fs, a)[i].extents)
    ensures NoLeaks(MetaOf(fs, a)) ==> NoLeaks(MetaOf(fs, b))
  {
    hide NoLeaks, Tree, NodeOk;
    EmptyOwnsNothing(after);
    assert SectorSet(Nodes(fs, a)[i].extents) == Blocks(MetaOf(fs, a).nodes[i]);
    if NoLeaks(MetaOf(fs, a)) {
      ReleaseSettles(MetaOf(fs, a), i, after);
    }
  }

  /** Storing the new inode: before and after are both allowed outcomes. */
  lemma StoredOutcomes(fs: Dfs, a: Image, e: Image, i: nat, after: Node)
    requires FsOk(fs, a) && i < INODE_COUNT && MayVacate(Nodes(fs, a), i, after)
    requires Encodable(after) && Stored(fs, a, e, i, after)
    ensures FsOk(fs, e) && Fits(fs.layout, |e|)
    ensures Vacated(fs, a, e, i, after) && Used(fs.layout, e) == Used(fs.layout, a)
    ensures Unowned(Nodes(fs, e), SectorSet(Nodes(fs, a)[i].extents))
    ensures iset{Core(fs.layout, a), Core(fs.layout, e)} <= VacateOutcomes(fs, a, i, after)
  {
    hide Lookup, Stored, Core, MayVacate, Encodable, Tree, Nodes, Used, NodeOk, Readable, Owned, SectorSet;
    VacatedEncodable(fs, a, i, after);
    VacatedMeta(fs, a, e, i, after);
    VacatedUnowned(MetaOf(fs, a), i, after);
    VacatedRefl(fs, a, i);
    VacatedCore(fs, a, a, i, Nodes(fs, a)[i]);
    VacatedCore(fs, a, e, i, after);
  }

  lemma FreedOutcomesIn(fs: Dfs, a: Image, e: Image, i: nat, after: Node, gone: set<nat>)
    requires Vacated(fs, a, e, i, after)
    ensures FreedOutcomes(fs, e, gone) <= VacateOutcomes(fs, a, i, after)
  {
    forall x | x in FreedOutcomes(fs, e, gone)
      ensures x in VacateOutcomes(fs, a, i, after)
    {
      VacatedFreed(fs, a, e, x, i, after, gone);
    }
  }

  /** The inode changes first; only then are its sectors given back. */
  method Vacate(fs: Dfs, device: Disk, index: nat, node: Node, after: Node) returns (r: Result<(), DfsError>)
    requires FsOk(fs, device.durable) && Quiet(fs, device.durable, device.pending)
    requires index < INODE_COUNT && node == Nodes(fs, device.durable)[index]
    requires MayVacate(Nodes(fs, device.durable), index, after)
    modifies device
    ensures r.Ok? && Quiet(fs, device.durable, device.pending)
    ensures Vacated(fs, old(device.durable), device.durable, index, after)
    ensures NoLeaks(MetaOf(fs, old(device.durable))) ==> NoLeaks(MetaOf(fs, device.durable))
    ensures CrashesInto(fs, old(device.crashes), device.crashes,
                        VacateOutcomes(fs, old(device.durable), index, after))
  {
    hide FsOk, MakeLayout, Nodes, Used, SectorSet, Recovered, Quiet, NoLeaks, Lookup, Stored, Core, MayVacate, Freed,
      Encodable, MetaOf, Vacated, MayLeave;
    ghost var a := device.durable;
    VacatedEncodable(fs, a, index, after);
    ReadableNode(fs, a, index);
    NodePlaced(fs.layout, node);
    var _ := StoreNode(fs, device, index, after);
    ghost var e, crashed := device.durable, device.crashes;
    StoredOutcomes(fs, a, e, index, after);
    EitherIsInto(fs, old(device.crashes), crashed, a, e);
    CrashesWeaken(fs, old(device.crashes), crashed, iset{Core(fs.layout, a), Core(fs.layout, e)},
                  VacateOutcomes(fs, a, index, after));
    var _ := ReleaseExtents(fs, device, node.extents);
    VacatedSettles(fs, a, e, device.durable, index, after);
    FreedOutcomesIn(fs, a, e, index, after, SectorSet(node.extents));
    VacatedFreed(fs, a, e, device.durable, index, after, SectorSet(node.extents));
    CrashesWeaken(fs, crashed, device.crashes, FreedOutcomes(fs, e, SectorSet(node.extents)),
                  VacateOutcomes(fs, a, index, after));
    return Ok(());
  }
}
