/** The allocation loop of `write_file`. */
module DfsGrow {
  import opened Bytes
  import opened Disks
  import opened DfsLayout
  import opened DfsJournal
  import opened DfsNode
  import opened DfsExtents
  import opened DfsPatch
  import opened DfsState
  import opened DfsImage
  import opened DfsRuns
  import opened DfsAlloc
  import opened DfsEffects
  import opened DfsFind

  // ---------------------------------------------------------------- allocation

  /** `b` is `a` with nothing changed but inode `i`, which has all its sectors and maybe more. */
  ghost predicate Grown(fs: Dfs, a: Image, b: Image, i: nat) {
    && FsOk(fs, a) && FsOk(fs, b) && |a| == |b| && i < INODE_COUNT
    && (forall k | 0 <= k < INODE_COUNT && k != i :: Nodes(fs, b)[k] == Nodes(fs, a)[k])
    && Nodes(fs, b)[i] == Nodes(fs, a)[i].(extents := Nodes(fs, b)[i].extents)
    && Sectors(Nodes(fs, a)[i].extents) <= Sectors(Nodes(fs, b)[i].extents)
    && (forall x | InData(fs.layout, x) :: b[x] == a[x])
    && (NoLeaks(MetaOf(fs, a)) ==> NoLeaks(MetaOf(fs, b)))
  }

  lemma GrownTrans(fs: Dfs, a: Image, b: Image, c: Image, i: nat)
    requires Grown(fs, a, b, i) && Grown(fs, b, c, i)
    ensures Grown(fs, a, c, i)
  {}

  lemma GrownRefl(fs: Dfs, a: Image, i: nat)
    requires FsOk(fs, a) && i < INODE_COUNT
    ensures Grown(fs, a, a, i)
  {}

  lemma GrownCore(fs: Dfs, a: Image, b: Image, i: nat)
    requires Grown(fs, a, b, i)
    ensures Grown(fs, a, Core(fs.layout, b), i)
  {
    CoreIsSame(fs.layout, b, b);
    CoreFrame(fs, b, Core(fs.layout, b));
    Bounds(fs.layout, |a|);
    assert Nodes(fs, b) == MetaOf(fs, b).nodes;
    assert Nodes(fs, Core(fs.layout, b)) == MetaOf(fs, Core(fs.layout, b)).nodes;
  }

  /** Growing a file does not change what anyone reads. */
  lemma GrownLooksSame(fs: Dfs, a: Image, b: Image, i: nat, q: Path)
    requires Grown(fs, a, b, i) && Live(Nodes(fs, a)[i])
    ensures Lookup(fs, b, q) == Lookup(fs, a, q)
  {
    var p := Nodes(fs, a)[i].path;
    if q == p {
      LookupAt(fs, a, i);
      LookupAt(fs, b, i);
      var sa, sb := Sectors(Nodes(fs, a)[i].extents), Sectors(Nodes(fs, b)[i].extents);
      ContentPrefix(b, sa, sb, Nodes(fs, a)[i].size);
      Bounds(fs.layout, |a|);
      ContentFrame(a, b, sa, Nodes(fs, a)[i].size);
    } else {
      OtherKept(fs, a, b, i, p, q);
    }
  }

  /** One reserved run: the inode has it, the bitmap shows it, everything else stands. */
  lemma ReservedGrows(fs: Dfs, a: Image, b: Image, i: nat, start: u64, count: u32)
    requires FsOk(fs, a) && i < INODE_COUNT && Nodes(fs, a)[i].kind == NODE_FILE
    requires count > 0 && fs.layout.data <= start && start + count <= End(fs.layout)
    requires forall x | start <= x < start + count :: x !in Used(fs.layout, a)
    requires |Sectors(Nodes(fs, a)[i].extents)| < U32_LIMIT
    requires AddExtent(Nodes(fs, a)[i], start, |Sectors(Nodes(fs, a)[i].extents)|, count).Ok?
    requires var grown := AddExtent(Nodes(fs, a)[i], start, |Sectors(Nodes(fs, a)[i].extents)|, count).value;
      Encodable(grown) && Reserved(fs, a, b, start, start + count, i, grown)
    ensures var grown := AddExtent(Nodes(fs, a)[i], start, |Sectors(Nodes(fs, a)[i].extents)|, count).value;
      && Grown(fs, a, b, i) && Nodes(fs, b)[i] == grown
      && Sectors(grown.extents) == Sectors(Nodes(fs, a)[i].extents) + Range(start, count)
  {
    hide Consistent, NoLeaks, Reserved, Sectors, Tiled, MakeLayout, Used, AddExtent, Range, NodeOk;
    var node := Nodes(fs, a)[i];
    var logical := |Sectors(node.extents)|;
    var grown := AddExtent(node, start, logical, count).value;
    ReadableNode(fs, a, i);
    AddExtentAppends(node, start, logical, count);
    AddExtentStorable(node, start, logical, count);
    ReservedMeta(fs, a, b, start, count, i, grown);
    GrowKeeps(fs.layout, MetaOf(fs, a), i, grown, Range(start, count));
  }

  /** Outcomes of a power loss while inode `i` is being given sectors. */
  ghost function GrownOutcomes(fs: Dfs, a: Image, i: nat): iset<Image> {
    iset x | Grown(fs, a, x, i)
  }

  /** Why allocation may fail: no free sector is left, or the inode has fourteen extents and the lowest free sector
    * does not follow its last one. */
  ghost predicate Exhausted(fs: Dfs, img: Image, i: nat)
    requires Fits(fs.layout, |img|) && i < INODE_COUNT
  {
    || (forall x | InData(fs.layout, x) :: x in Used(fs.layout, img))
    || (&& |Nodes(fs, img)[i].extents| == 14
        && forall x | LowestFree(fs.layout, img, x) ::
             x != Nodes(fs, img)[i].extents[13].start + Nodes(fs, img)[i].extents[13].count)
  }

  ghost predicate LowestFree(l: Layout, img: Image, x: nat)
    requires Fits(l, |img|)
  {
    InData(l, x) && x !in Used(l, img) && forall y | l.data <= y < x :: y in Used(l, img)
  }

  lemma FirstFitIsFree(fs: Dfs, img: Image, requested: nat, start: nat, count: nat)
    requires Fits(fs.layout, |img|) && FirstFit(fs.layout, img, requested, start, count)
    ensures Reservable(fs.layout, |img|, start, count)
    ensures forall x | start <= x < start + count :: x !in Used(fs.layout, img)
    ensures count < U32_LIMIT && fs.layout.data <= start
    ensures forall x | fs.layout.data <= x < start :: x in Used(fs.layout, img)
  {}

  lemma FullDisk(fs: Dfs, img: Image)
    requires Fits(fs.layout, |img|) && Full(fs.layout, img)
    ensures forall i | 0 <= i < INODE_COUNT :: Exhausted(fs, img, i)
  {
    Bounds(fs.layout, |img|);
  }

  /** `add_extent` only fails on a fifteenth fragment, which a run behind the last one is not: the sectors
    * of a file fit its 32-bit counts. */
  lemma AddExtentRoom(fs: Dfs, a: Image, i: nat, start: u64, count: u32)
    requires FsOk(fs, a) && i < INODE_COUNT && Nodes(fs, a)[i].kind == NODE_FILE
    requires fs.layout.data <= start && start + count <= End(fs.layout)
    ensures |Sectors(Nodes(fs, a)[i].extents)| < U32_LIMIT
    ensures var r := AddExtent(Nodes(fs, a)[i], start, |Sectors(Nodes(fs, a)[i].extents)|, count);
      && (r.Err? ==>
            && r.error == NoSpace && |Nodes(fs, a)[i].extents| == 14
            && start != Nodes(fs, a)[i].extents[13].start + Nodes(fs, a)[i].extents[13].count)
      && (r.Ok? ==> Encodable(r.value))
  {
    hide Consistent, Readable, Sectors, Tiled, Distinct, MakeLayout, Nodes, AddExtent;
    var node := Nodes(fs, a)[i];
    ReadableNode(fs, a, i);
    FileFits(fs.layout, |a|, node);
    Bounds(fs.layout, |a|);
    LastEnds(node.extents);
    ExtentRoom(node, start, |Sectors(node.extents)|, count);
  }

  lemma LastEnds(es: seq<Extent>)
    ensures Tiled(es) && es != [] ==> es[|es| - 1].logical + es[|es| - 1].count == |Sectors(es)|
  {}

  /** The first fit begins at the lowest free sector. */
  lemma FirstFitIsLowest(fs: Dfs, img: Image, requested: nat, start: nat, count: nat, x: nat)
    requires Fits(fs.layout, |img|) && FirstFit(fs.layout, img, requested, start, count)
    requires LowestFree(fs.layout, img, x)
    ensures x == start
  {
    hide Used, FirstFit;
    FirstFitIsFree(fs, img, requested, start, count);
    Bounds(fs.layout, |img|);
    assert start !in Used(fs.layout, img);
  }

  lemma ExtentRoom(node: Node, start: u64, logical: u32, count: u32)
    requires node.kind == NODE_FILE && Storable(node) && start + count < U32_LIMIT
    requires forall k | 0 <= k < |node.extents| :: node.extents[k].logical + node.extents[k].count < U32_LIMIT
    requires node.extents != [] ==>
      node.extents[|node.extents| - 1].logical + node.extents[|node.extents| - 1].count == logical
    ensures var r := AddExtent(node, start, logical, count);
      && (r.Err? ==>
            && r.error == NoSpace && |node.extents| == 14
            && start != node.extents[13].start + node.extents[13].count)
      && (r.Ok? ==> Encodable(r.value))
  {}

  lemma NoRoom(fs: Dfs, a: Image, i: nat, requested: nat, start: nat, count: nat)
    requires Fits(fs.layout, |a|) && i < INODE_COUNT && FirstFit(fs.layout, a, requested, start, count)
    requires |Nodes(fs, a)[i].extents| == 14
    requires start != Nodes(fs, a)[i].extents[13].start + Nodes(fs, a)[i].extents[13].count
    ensures Exhausted(fs, a, i)
  {
    hide FirstFit, LowestFree;
    forall x | LowestFree(fs.layout, a, x)
      ensures x == start
    {
      FirstFitIsLowest(fs, a, requested, start, count, x);
    }
  }

  /** One turn of the allocation loop: a run is found, added to the inode and reserved with it. */
  method AllocateStep(fs: Dfs, device: Disk, index: nat, node: Node, have: nat, required: nat)
    returns (r: Result<(Node, nat), DfsError>)
    requires FsOk(fs, device.durable) && Quiet(fs, device.durable, device.pending)
    requires index < INODE_COUNT && Nodes(fs, device.durable)[index] == node && node.kind == NODE_FILE
    requires have == |Sectors(node.extents)| < required
    modifies device
    ensures Quiet(fs, device.durable, device.pending)
    ensures Grown(fs, old(device.durable), device.durable, index)
    ensures r.Ok? ==>
      && r.value.0 == Nodes(fs, device.durable)[index] && r.value.0.kind == NODE_FILE
      && have < r.value.1 == |Sectors(r.value.0.extents)| <= required
    ensures r.Err? ==>
      && r.error == NoSpace && Exhausted(fs, old(device.durable), index)
      && device.durable == old(device.durable) && device.crashes == old(device.crashes)
    ensures CrashesInto(fs, old(device.crashes), device.crashes, GrownOutcomes(fs, old(device.durable), index))
  {
    hide FsOk, MetaOf, MakeLayout, Full, Reservable, Reserved, FirstFit, Recovered, NoLeaks, Core, Encodable,
      AddExtent, Sectors, Exhausted;
    ghost var a := device.durable;
    assert device.View() == a;
    GrownRefl(fs, a, index);
    ReadableFits(fs, a);
    var run := FindFreeRun(fs, device, required - have);
    if run.Err? {
      FullDisk(fs, a);
      return Err(run.error);
    }
    var start: nat, count: nat := run.value.0, run.value.1;
    FirstFitIsFree(fs, a, required - have, start, count);
    RunInside(fs, a, start, count);
    AddExtentRoom(fs, a, index, start, count);
    var grown := AddExtent(node, start, have, count);
    if grown.Err? {
      NoRoom(fs, a, index, required - have, start, count);
      return Err(grown.error);
    }
    var _ := ReserveRun(fs, device, start, count, index, grown.value);
    ReservedGrows(fs, a, device.durable, index, start, count);
    EitherIsInto(fs, old(device.crashes), device.crashes, a, device.durable);
    GrownCore(fs, a, a, index);
    GrownCore(fs, a, device.durable, index);
    return Ok((grown.value, have + count));
  }

  lemma RunInside(fs: Dfs, a: Image, start: nat, count: nat)
    requires Reservable(fs.layout, |a|, start, count)
    ensures 0 < count && fs.layout.data <= start && start + count <= End(fs.layout) < U32_LIMIT
  {}

  /** The allocation loop of `write_file`. */
  method Allocate(fs: Dfs, device: Disk, index: nat, begun: Node, required: nat) returns (r: Result<Node, DfsError>)
    requires FsOk(fs, device.durable) && Quiet(fs, device.durable, device.pending)
    requires index < INODE_COUNT && Nodes(fs, device.durable)[index] == begun && begun.kind == NODE_FILE
    modifies device
    ensures Quiet(fs, device.durable, device.pending)
    ensures Grown(fs, old(device.durable), device.durable, index)
    ensures r.Ok? ==>
      && r.value == Nodes(fs, device.durable)[index]
      && |Sectors(r.value.extents)| == Max(required, |Sectors(begun.extents)|)
    ensures r.Err? ==> r.error == NoSpace && Exhausted(fs, device.durable, index)
    ensures CrashesInto(fs, old(device.crashes), device.crashes, GrownOutcomes(fs, old(device.durable), index))
  {
    hide MetaOf, MakeLayout, Recovered, NoLeaks, Sectors, Exhausted, Quiet;
    ghost var a := device.durable;
    GrownRefl(fs, a, index);
    var node := begun;
    var have := AllocatedSectors(node.extents);
    while have < required
      invariant Quiet(fs, device.durable, device.pending)
      invariant Grown(fs, a, device.durable, index)
      invariant node == Nodes(fs, device.durable)[index] && node.kind == NODE_FILE
      invariant have == |Sectors(node.extents)|
      invariant have == |Sectors(begun.extents)| || |Sectors(begun.extents)| < have <= required
      invariant CrashesInto(fs, old(device.crashes), device.crashes, GrownOutcomes(fs, a, index))
    {
      ghost var b, crashed := device.durable, device.crashes;
      var step := AllocateStep(fs, device, index, node, have, required);
      GrownTrans(fs, a, b, device.durable, index);
      GrownOutcomesTrans(fs, a, b, index);
      CrashesWeaken(fs, crashed, device.crashes, GrownOutcomes(fs, b, index), GrownOutcomes(fs, a, index));
      if step.Err? {
        return Err(step.error);
      }
      node, have := step.value.0, step.value.1;
    }
    return Ok(node);
  }

  lemma GrownOutcomesTrans(fs: Dfs, a: Image, b: Image, i: nat)
    requires Grown(fs, a, b, i)
    ensures GrownOutcomes(fs, b, i) <= GrownOutcomes(fs, a, i)
  {
    forall x | x in GrownOutcomes(fs, b, i)
      ensures x in GrownOutcomes(fs, a, i)
    {
      GrownTrans(fs, a, b, x, i);
    }
  }
}
