/** Giving the sectors of an inode back, and emptying a file. */
module DfsFree {
  import opened Bytes
  import opened Disks
  import opened DfsLayout
  import opened DfsJournal
  import opened DfsNode
  import opened DfsExtents
  import opened DfsState
  import opened DfsImage
  import opened DfsAlloc
  import opened DfsEffects

  /** `b` is `a` with some of the marks of `gone`, which nobody owns, cleared. */
  ghost predicate Freed(fs: Dfs, a: Image, b: Image, gone: set<nat>) {
    && FsOk(fs, a) && FsOk(fs, b) && |a| == |b|
    && Nodes(fs, b) == Nodes(fs, a)
    && Used(fs.layout, a) - gone <= Used(fs.layout, b) <= Used(fs.layout, a)
    && (forall x | InData(fs.layout, x) :: b[x] == a[x])
  }

  ghost function FreedOutcomes(fs: Dfs, a: Image, gone: set<nat>): iset<Image> {
    iset x | Freed(fs, a, x, gone)
  }

  lemma FreedTrans(fs: Dfs, a: Image, b: Image, c: Image, gone: set<nat>, more: set<nat>)
    requires Freed(fs, a, b, gone) && Freed(fs, b, c, more)
    ensures Freed(fs, a, c, gone + more)
  {}

  lemma FreedMore(fs: Dfs, a: Image, gone: set<nat>, more: set<nat>)
    requires gone <= more
    ensures FreedOutcomes(fs, a, gone) <= FreedOutcomes(fs, a, more)
  {}

  lemma FreedFrom(fs: Dfs, a: Image, b: Image, gone: set<nat>, more: set<nat>)
    requires Freed(fs, a, b, gone)
    ensures FreedOutcomes(fs, b, more) <= FreedOutcomes(fs, a, gone + more)
  {
    forall c | Freed(fs, b, c, more)
      ensures Freed(fs, a, c, gone + more)
    {
      FreedTrans(fs, a, b, c, gone, more);
    }
  }

  ghost predicate Unowned(nodes: seq<Node>, gone: set<nat>) {
    forall x | x in gone :: !HasOwner(nodes, x)
  }

  /** What a released run means. */
  lemma ReleasedFrees(fs: Dfs, a: Image, b: Image, lo: nat, n: nat)
    requires FsOk(fs, a) && fs.layout.data <= lo && lo + n <= End(fs.layout)
    requires Unowned(Nodes(fs, a), RunSet(lo, n))
    requires Released(fs.layout, a, b, lo, lo + n)
    ensures Freed(fs, a, b, RunSet(lo, n)) && Used(fs.layout, b) == Used(fs.layout, a) - RunSet(lo, n)
  {
    ReleasedMeta(fs, a, b, lo, n);
    hide Consistent, Released;
    FreeKeeps(fs.layout, MetaOf(fs, a), Used(fs.layout, b));
    assert MetaOf(fs, b) == MetaOf(fs, a).(used := Used(fs.layout, b));
  }

  lemma RunOutcomes(fs: Dfs, a: Image, lo: nat, n: nat)
    requires FsOk(fs, a) && fs.layout.data <= lo && lo + n <= End(fs.layout)
    requires Unowned(Nodes(fs, a), RunSet(lo, n))
    ensures ReleaseOutcomes(fs.layout, a, lo, lo + n) <= FreedOutcomes(fs, a, RunSet(lo, n))
  {
    hide Consistent, Readable, Released, Nodes, NoLeaks;
    forall x | PartReleased(fs.layout, a, x, lo, lo + n)
      ensures Freed(fs, a, x, RunSet(lo, n))
    {
      var mid: nat :| lo <= mid <= lo + n && Released(fs.layout, a, x, lo, mid);
      RunSetPart(lo, mid - lo, n);
      ReleasedFrees(fs, a, x, lo, mid - lo);
    }
  }

  lemma RunSetPart(lo: nat, k: nat, n: nat)
    requires k <= n
    ensures RunSet(lo, k) <= RunSet(lo, n)
  {
    forall x | x in RunSet(lo, k)
      ensures x in RunSet(lo, n)
    {
      RunSetHas(lo, k, x);
      RunSetHas(lo, n, x);
    }
  }

  /** Extents that lie in the data area. */
  ghost predicate Placed(l: Layout, es: seq<Extent>) {
    forall k | 0 <= k < |es| :: es[k].count > 0 && l.data <= es[k].start && es[k].start + es[k].count <= End(l)
  }

  function SectorSet(es: seq<Extent>): set<nat> {
    set x | x in Sectors(es)
  }

  lemma SectorSetStep(es: seq<Extent>, k: nat)
    requires k < |es|
    ensures SectorSet(es[..k + 1]) == SectorSet(es[..k]) + RunSet(es[k].start, es[k].count)
    ensures RunSet(es[k].start, es[k].count) <= SectorSet(es)
  {
    assert es[..k + 1][..k] == es[..k];
    forall x | x in RunSet(es[k].start, es[k].count)
      ensures x in Sectors(es)
    {
      RunSetHas(es[k].start, es[k].count, x);
      ExtentInSectors(es, k, x);
    }
  }

  lemma NodePlaced(l: Layout, node: Node)
    requires NodeOk(l, node)
    ensures Placed(l, node.extents)
  {
    forall k | 0 <= k < |node.extents|
      ensures node.extents[k].count > 0 && l.data <= node.extents[k].start
           && node.extents[k].start + node.extents[k].count <= End(l)
    {
      ExtentInSectors(node.extents, k, node.extents[k].start);
      ExtentInSectors(node.extents, k, node.extents[k].start + node.extents[k].count - 1);
    }
  }

  /** The loop over the extents an inode had. */
  method ReleaseExtents(fs: Dfs, device: Disk, extents: seq<Extent>) returns (r: Result<(), DfsError>)
    requires FsOk(fs, device.durable) && Quiet(fs, device.durable, device.pending)
    requires Placed(fs.layout, extents) && Unowned(Nodes(fs, device.durable), SectorSet(extents))
    modifies device
    ensures r.Ok? && Quiet(fs, device.durable, device.pending)
    ensures Freed(fs, old(device.durable), device.durable, SectorSet(extents))
    ensures Used(fs.layout, device.durable) == Used(fs.layout, old(device.durable)) - SectorSet(extents)
    ensures CrashesInto(fs, old(device.crashes), device.crashes,
                        FreedOutcomes(fs, old(device.durable), SectorSet(extents)))
  {
    hide FsOk, MakeLayout, Nodes, Used, Sectors, SectorSet, Recovered, ReleaseOutcomes, Released, Quiet, RunSet;
    ghost var a := device.durable;
    FreedNothing(fs, a, extents);
    for k := 0 to |extents|
      invariant Quiet(fs, device.durable, device.pending)
      invariant Freed(fs, a, device.durable, SectorSet(extents[..k]))
      invariant Used(fs.layout, device.durable) == Used(fs.layout, a) - SectorSet(extents[..k])
      invariant CrashesInto(fs, old(device.crashes), device.crashes, FreedOutcomes(fs, a, SectorSet(extents)))
    {
      ghost var b, crashed := device.durable, device.crashes;
      ghost var start, count := extents[k].start, extents[k].count;
      SectorSetStep(extents, k);
      RunOutcomes(fs, b, start, count);
      var _ := ReleaseRun(fs, device, extents[k].start, extents[k].count);
      ReleasedFrees(fs, b, device.durable, start, count);
      FreedTrans(fs, a, b, device.durable, SectorSet(extents[..k]), RunSet(start, count));
      FreedFrom(fs, a, b, SectorSet(extents[..k]), RunSet(start, count));
      SectorSetPrefix(extents, k + 1);
      FreedMore(fs, a, SectorSet(extents[..k + 1]), SectorSet(extents));
      CrashesWeaken(fs, crashed, device.crashes, ReleaseOutcomes(fs.layout, b, start, start + count),
                    FreedOutcomes(fs, a, SectorSet(extents)));
    }
    assert extents[..|extents|] == extents;
    return Ok(());
  }

  lemma FreedNothing(fs: Dfs, a: Image, es: seq<Extent>)
    requires FsOk(fs, a)
    ensures SectorSet(es[..0]) == {} && Freed(fs, a, a, {}) && Fits(fs.layout, |a|)
  {}

  lemma {:induction false} SectorSetPrefix(es: seq<Extent>, k: nat)
    requires k <= |es|
    ensures SectorSet(es[..k]) <= SectorSet(es)
    decreases |es| - k
  {
    if k < |es| {
      SectorSetStep(es, k);
      SectorSetPrefix(es, k + 1);
    } else {
      assert es[..k] == es;
    }
  }
}
