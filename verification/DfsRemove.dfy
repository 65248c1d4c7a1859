/** `remove`: children before their directory, at most 32 levels deep. */
module DfsRemove {
  import opened Bytes
  import opened Disks
  import opened DfsLayout
  import opened DfsJournal
  import opened DfsNode
  import opened DfsPath
  import opened DfsState
  import opened DfsDepth
  import opened DfsImage
  import opened DfsAlloc
  import opened DfsFind
  import opened DfsVacate
  import opened DfsTree

  /** The path of the first child of `path` in the inode table. */
  method FirstChild(fs: Dfs, device: Disk, path: Path) returns (r: Result<Option<Path>, DfsError>)
    requires FsOk(fs, device.View()) && Named(path)
    ensures var nodes := Nodes(fs, device.View()); var k := FindChild(nodes, path);
      r == Ok(if k.Some? then Some(nodes[k.value].path) else None)
  {
    hide Consistent, MetaOf, MakeLayout, FsOk, Nodes, Apply, DecodeNode, InodeSector, Named, ImmediateChild, IsChild;
    ReadableFits(fs, device.View());
    ghost var nodes := Nodes(fs, device.View());
    for index := 0 to INODE_COUNT
      invariant FindChild(nodes[..index], path) == None
    {
      ReadableNode(fs, device.View(), index);
      ChildSkips(nodes, index, path);
      SeenAsChild(fs, device.View(), path, index);
      var scan := ReadNode(fs, device, index);
      var child := scan.value;
      if child.kind != 0 {
        if ImmediateChild(child.path, path).Some? {
          ChildPrefix(nodes, index + 1, path);
          return Ok(Some(child.path));
        }
      }
    }
    assert nodes[..INODE_COUNT] == nodes;
    return Ok(None);
  }

  lemma ChildSkips(nodes: seq<Node>, k: nat, p: Path)
    requires k < |nodes| && FindChild(nodes[..k], p) == None
    ensures FindChild(nodes[..k + 1], p) == if IsChild(nodes[k], p) then Some(k) else None
  {
    assert nodes[..k + 1][..k] == nodes[..k];
  }

  lemma {:induction false} ChildPrefix(nodes: seq<Node>, k: nat, p: Path)
    requires k <= |nodes| && FindChild(nodes[..k], p).Some?
    ensures FindChild(nodes, p) == FindChild(nodes[..k], p)
    decreases |nodes|
  {
    if k < |nodes| {
      assert nodes[..|nodes| - 1][..k] == nodes[..k];
      ChildPrefix(nodes[..|nodes| - 1], k, p);
    } else {
      assert nodes[..k] == nodes;
    }
  }

  /** What the scan looks for is a child. */
  lemma SeenAsChild(fs: Dfs, img: Image, p: Path, k: nat)
    requires FsOk(fs, img) && Named(p) && k < INODE_COUNT
    ensures var node := Nodes(fs, img)[k];
      IsChild(node, p) <==> Live(node) && ImmediateChild(node.path, p).Some?
  {
    hide NodeOk, Owned, ParentPath, CanonicalPath;
    var nodes := Nodes(fs, img);
    assert MetaOf(fs, img).nodes == nodes;
    if Live(nodes[k]) {
      RootIsAlone(nodes, k);
      if nodes[k].path != [] {
        ChildIffParent(nodes[k].path, p);
      }
    }
  }

  // ---------------------------------------------------------------- recursion

  /** The directory loop stands at `b`: the directory is still there, and nothing removed so far was out of reach. */
  ghost predicate Emptying(fs: Dfs, a: Image, b: Image, i: nat, p: Path, depth: nat) {
    && Pruned(fs, a, b, p) && i < INODE_COUNT
    && Nodes(fs, b)[i] == Nodes(fs, a)[i]
    && Spared(fs, a, b, p, depth)
    && (NoLeaks(MetaOf(fs, a)) ==> NoLeaks(MetaOf(fs, b)))
  }

  /** Nothing out of reach is gone. */
  ghost predicate Spared(fs: Dfs, a: Image, b: Image, p: Path, depth: nat) {
    && Fits(fs.layout, |a|) && Fits(fs.layout, |b|)
    && forall k | 0 <= k < INODE_COUNT :: Within(Nodes(fs, a)[k], Nodes(fs, b)[k], p, depth)
  }

  ghost predicate Within(was: Node, now: Node, p: Path, depth: nat) {
    now == was || !DeepAt(was, p, depth)
  }

  lemma EmptyingStart(fs: Dfs, a: Image, i: nat, p: Path, depth: nat)
    requires FsOk(fs, a) && i < INODE_COUNT
    ensures Emptying(fs, a, a, i, p, depth)
  {}

  /** One more child's subtree gone. */
  lemma EmptyingNext(fs: Dfs, a: Image, b: Image, d: Image, i: nat, p: Path, c: Path, depth: nat)
    requires Emptying(fs, a, b, i, p, depth) && Nodes(fs, a)[i].path == p && Named(c) && ParentPath(c) == p && p != []
    requires Pruned(fs, b, d, c) && (Deep(Nodes(fs, b), c, depth + 1) ==> Spared(fs, b, d, c, depth + 1))
    requires NoLeaks(MetaOf(fs, b)) ==> NoLeaks(MetaOf(fs, d))
    ensures Emptying(fs, a, d, i, p, depth)
  {
    hide InTree, Consistent, MakeLayout, Nodes, NoLeaks, DeepAt;
    ChildFacts(c, p);
    PrunedWiden(fs, b, d, c, p);
    PrunedTrans(fs, a, b, d, p);
    assert Pruning(Nodes(fs, b)[i], Nodes(fs, d)[i], c);
    forall k | 0 <= k < INODE_COUNT
      ensures Within(Nodes(fs, a)[k], Nodes(fs, d)[k], p, depth)
    {
      assert Within(Nodes(fs, a)[k], Nodes(fs, b)[k], p, depth) && Pruning(Nodes(fs, b)[k], Nodes(fs, d)[k], c);
      assert Spared(fs, b, d, c, depth + 1) ==> Within(Nodes(fs, b)[k], Nodes(fs, d)[k], c, depth + 1);
      DeepBelow(Nodes(fs, b)[k], c, p, depth);
    }
  }

  /** What was out of reach below a child was out of reach from the start. */
  lemma DeepFromStart(fs: Dfs, a: Image, b: Image, i: nat, p: Path, c: Path, depth: nat)
    requires Emptying(fs, a, b, i, p, depth) && Named(c) && ParentPath(c) == p && p != []
    requires Deep(Nodes(fs, b), c, depth + 1)
    ensures Deep(Nodes(fs, a), p, depth)
  {
    hide InTree, Consistent, MakeLayout, Nodes, NoLeaks;
    ChildFacts(c, p);
    var k :| 0 <= k < INODE_COUNT && DeepAt(Nodes(fs, b)[k], c, depth + 1);
    DeepBelow(Nodes(fs, b)[k], c, p, depth);
    assert Pruning(Nodes(fs, a)[k], Nodes(fs, b)[k], p);
    assert DeepAt(Nodes(fs, a)[k], p, depth);
  }

  /** An emptied directory had nothing out of reach. */
  lemma EmptyingDone(fs: Dfs, a: Image, b: Image, i: nat, p: Path, depth: nat)
    requires Emptying(fs, a, b, i, p, depth) && 0 < i && Live(Nodes(fs, a)[i]) && Nodes(fs, a)[i].path == p
    requires Nodes(fs, a)[i].kind != NODE_DIRECTORY || Childless(Nodes(fs, b), p)
    requires depth <= MAX_DEPTH
    ensures !Deep(Nodes(fs, a), p, depth)
  {
    hide InTree, NodeOk, Owned, MakeLayout, NoLeaks;
    SubtreeOfChildless(Nodes(fs, b), i);
    forall k | 0 <= k < INODE_COUNT
      ensures !DeepAt(Nodes(fs, a)[k], p, depth)
    {
      assert Within(Nodes(fs, a)[k], Nodes(fs, b)[k], p, depth);
    }
  }

  function LiveSet(nodes: seq<Node>): set<nat> {
    set k: nat | k < |nodes| && Live(nodes[k])
  }

  /** The live inodes, as long as the image is one that can be read. */
  ghost function LiveIn(fs: Dfs, img: Image): set<nat> {
    if Fits(fs.layout, |img|) then LiveSet(Nodes(fs, img)) else {}
  }

  lemma FewerLive(fs: Dfs, b: Image, d: Image, c: Path)
    requires Pruned(fs, b, d, c) && Gone(Nodes(fs, d), c) && Find(Nodes(fs, b), c).Some?
    ensures LiveIn(fs, d) < LiveIn(fs, b)
  {
    hide Consistent, MakeLayout;
    var j := Find(Nodes(fs, b), c).value;
    assert j in LiveSet(Nodes(fs, b)) && j !in LiveSet(Nodes(fs, d));
    forall k | k in LiveSet(Nodes(fs, d))
      ensures k in LiveSet(Nodes(fs, b))
    {
      assert Pruning(Nodes(fs, b)[k], Nodes(fs, d)[k], c);
    }
  }

  lemma RecursionVerdict(fs: Dfs, a: Image, b: Image, i: nat, p: Path, c: Path, depth: nat)
    requires Emptying(fs, a, b, i, p, depth) && p != [] && depth <= MAX_DEPTH
    requires Named(c) && ParentPath(c) == p && Find(Nodes(fs, b), c).Some?
    ensures CanonicalPath(c) == Ok(c)
    ensures RemovePathVerdict(Nodes(fs, b), c, true, depth + 1)
            == if Deep(Nodes(fs, b), c, depth + 1) then Err(InvalidPath) else Ok(())
    ensures Deep(Nodes(fs, b), c, depth + 1) ==> Deep(Nodes(fs, a), p, depth)
  {
    hide InTree, Consistent, MakeLayout, Nodes, NoLeaks, Deep;
    ChildFacts(c, p);
    if depth == MAX_DEPTH {
      OutOfReach(Nodes(fs, b), c, depth + 1);
    }
    if Deep(Nodes(fs, b), c, depth + 1) {
      DeepFromStart(fs, a, b, i, p, c, depth);
    }
  }

  /** The child the scan found. */
  lemma ScannedChild(fs: Dfs, b: Image, p: Path)
    requires FsOk(fs, b) && p != [] && FindChild(Nodes(fs, b), p).Some?
    ensures var c := Nodes(fs, b)[FindChild(Nodes(fs, b), p).value].path;
      Named(c) && ParentPath(c) == p && Find(Nodes(fs, b), c).Some? && InTree(c, p)
  {
    hide Named, InTree;
    assert MetaOf(fs, b).nodes == Nodes(fs, b);
    FirstChildFacts(Nodes(fs, b), p);
  }

  /** A child whose removal goes through, or stops halfway, shows that the way is not straight out of reach. */
  lemma NotStraight(fs: Dfs, a: Image, p: Path, depth: nat)
    requires FsOk(fs, a) && p != [] && FindChild(Nodes(fs, a), p).Some? && depth <= MAX_DEPTH
    ensures var c := Nodes(fs, a)[FindChild(Nodes(fs, a), p).value].path;
      && (Straight(Nodes(fs, a), p, depth) <==> Straight(Nodes(fs, a), c, depth + 1))
      && (Straight(Nodes(fs, a), c, depth + 1) ==> Deep(Nodes(fs, a), c, depth + 1))
  {
    hide Named, InTree, Deep, Tree;
    assert MetaOf(fs, a).nodes == Nodes(fs, a);
    TreeHere(fs, a);
    FirstChildFacts(Nodes(fs, a), p);
    var c := Nodes(fs, a)[FindChild(Nodes(fs, a), p).value].path;
    if Straight(Nodes(fs, a), c, depth + 1) {
      StraightIsDeep(Nodes(fs, a), c, depth + 1);
    }
  }

  lemma TreeHere(fs: Dfs, a: Image)
    requires FsOk(fs, a)
    ensures Tree(Nodes(fs, a))
  {
    assert MetaOf(fs, a).nodes == Nodes(fs, a);
  }

  lemma EmptyingFacts(fs: Dfs, a: Image, b: Image, i: nat, p: Path, depth: nat)
    requires Emptying(fs, a, b, i, p, depth)
    ensures FsOk(fs, a) && FsOk(fs, b) && Fits(fs.layout, |a|) && Fits(fs.layout, |b|) && Pruned(fs, a, b, p)
    ensures NoLeaks(MetaOf(fs, a)) ==> NoLeaks(MetaOf(fs, b))
    ensures Nodes(fs, b)[i] == Nodes(fs, a)[i] && Spared(fs, a, b, p, depth)
  {}

  lemma QuietView(fs: Dfs, device: Disk)
    requires Quiet(fs, device.durable, device.pending)
    ensures device.View() == device.durable
  {}

  ghost predicate TopStays(was: seq<Node>, now: seq<Node>, p: Path)
    requires |was| == |now|
  {
    Find(was, p).Some? ==> now[Find(was, p).value] == was[Find(was, p).value]
  }

  /** A removal that fails has lost something when it stopped halfway, and done nothing otherwise. */
  ghost predicate Refused(fs: Dfs, a: Image, b: Image, before: iset<Image>, now: iset<Image>, halfway: bool) {
    if halfway then LiveIn(fs, b) < LiveIn(fs, a) else b == a && now == before
  }

  /** The loop over children stands at `b`: at the start, or with something gone and the way not straight out of
    * reach. */
  ghost predicate Begun(fs: Dfs, a: Image, b: Image, before: iset<Image>, now: iset<Image>, straight: bool) {
    (b == a && now == before) || (LiveIn(fs, b) < LiveIn(fs, a) && !straight)
  }

  /** What one more child's removal, answered with `ok`, makes of that. */
  lemma BegunNext(fs: Dfs, a: Image, b: Image, d: Image, before: iset<Image>, mid: iset<Image>, now: iset<Image>,
                  p: Path, depth: nat, ok: bool)
    requires FsOk(fs, a) && FsOk(fs, b) && FsOk(fs, d) && p != [] && depth <= MAX_DEPTH
    requires FindChild(Nodes(fs, b), p).Some?
    requires Begun(fs, a, b, before, mid, Straight(Nodes(fs, a), p, depth))
    requires var c := Nodes(fs, b)[FindChild(Nodes(fs, b), p).value].path;
      && (ok <==> !Deep(Nodes(fs, b), c, depth + 1))
      && (ok ==> LiveIn(fs, d) < LiveIn(fs, b))
      && (!ok ==> Refused(fs, b, d, mid, now, !Straight(Nodes(fs, b), c, depth + 1)))
    ensures ok ==> Begun(fs, a, d, before, now, Straight(Nodes(fs, a), p, depth))
    ensures !ok ==> Refused(fs, a, d, before, now, !Straight(Nodes(fs, a), p, depth))
  {
    hide FsOk, Deep, LiveIn, FindChild, Straight;
    NotStraight(fs, b, p, depth);
  }

  /** The loop over the children of a directory. */
  method RemoveChildren(fs: Dfs, device: Disk, path: Path, recursive: bool, depth: nat, ghost i: nat)
    returns (r: Result<(), DfsError>)
    requires FsOk(fs, device.durable) && Quiet(fs, device.durable, device.pending)
    requires 0 < i < INODE_COUNT && Named(path) && path != []
    requires Live(Nodes(fs, device.durable)[i]) && Nodes(fs, device.durable)[i].path == path
    requires depth <= MAX_DEPTH
    modifies device
    decreases MAX_DEPTH + 1 - depth, 0
    ensures Quiet(fs, device.durable, device.pending)
    ensures Emptying(fs, old(device.durable), device.durable, i, path, depth)
    ensures r.Ok? ==> Childless(Nodes(fs, device.durable), path)
    ensures !recursive || Childless(Nodes(fs, old(device.durable)), path) ==>
      && device.durable == old(device.durable) && device.crashes == old(device.crashes)
      && r == if Childless(Nodes(fs, old(device.durable)), path) then Ok(()) else Err(DirectoryNotEmpty)
    ensures recursive && r.Err? ==>
      && r.error == InvalidPath && Deep(Nodes(fs, old(device.durable)), path, depth)
      && Refused(fs, old(device.durable), device.durable, old(device.crashes), device.crashes,
                 !Straight(Nodes(fs, old(device.durable)), path, depth))
    ensures CrashesInto(fs, old(device.crashes), device.crashes, PruneOutcomes(fs, old(device.durable), path))
  {
    hide Consistent, MetaOf, MakeLayout, FsOk, Nodes, Childless, Named, Deep, Recovered, NoLeaks, Quiet, Straight,
      Emptying, LiveSet, LiveIn, Gone, Pruned, RemovePathVerdict, Refused, Begun, Spared;
    ghost var a := device.durable;
    EmptyingStart(fs, a, i, path, depth);
    EmptyingFacts(fs, a, a, i, path, depth);
    BegunStart(fs, a, device.crashes, Straight(Nodes(fs, a), path, depth));
    while true
      invariant Quiet(fs, device.durable, device.pending)
      invariant Emptying(fs, a, device.durable, i, path, depth)
      invariant Begun(fs, a, device.durable, old(device.crashes), device.crashes, Straight(Nodes(fs, a), path, depth))
      invariant !recursive || Childless(Nodes(fs, a), path) ==> device.durable == a && device.crashes == old(device.crashes)
      invariant CrashesInto(fs, old(device.crashes), device.crashes, PruneOutcomes(fs, a, path))
      decreases LiveIn(fs, device.durable)
    {
      ghost var b, crashed := device.durable, device.crashes;
      EmptyingFacts(fs, a, b, i, path, depth);
      QuietView(fs, device);
      var scan := FirstChild(fs, device, path);
      var child := scan.value;
      if child.None? {
        return Ok(());
      }
      if !recursive {
        return Err(DirectoryNotEmpty);
      }
      ScannedChild(fs, b, path);
      RecursionVerdict(fs, a, b, i, path, child.value, depth);
      var removed := RemoveAt(fs, device, child.value, true, depth + 1);
      OutcomesWiden(fs, b, child.value, path);
      PrunedFrom(fs, a, b, path);
      CrashesWeaken(fs, crashed, device.crashes, PruneOutcomes(fs, b, child.value), PruneOutcomes(fs, a, path));
      EmptyingNext(fs, a, b, device.durable, i, path, child.value, depth);
      EmptyingFacts(fs, a, device.durable, i, path, depth);
      if removed.Ok? {
        FewerLive(fs, b, device.durable, child.value);
      }
      BegunNext(fs, a, b, device.durable, old(device.crashes), crashed, device.crashes, path, depth, removed.Ok?);
      if removed.Err? {
        return Err(removed.error);
      }
    }
  }

  lemma BegunStart(fs: Dfs, a: Image, crashes: iset<Image>, straight: bool)
    ensures Begun(fs, a, a, crashes, crashes, straight)
  {}

  /** The inode of a named path, with its children out of the way, may go. */
  lemma MayRemove(fs: Dfs, a: Image, b: Image, i: nat, p: Path, depth: nat)
    requires Emptying(fs, a, b, i, p, depth) && 0 < i && Live(Nodes(fs, a)[i]) && Nodes(fs, a)[i].path == p
    requires Nodes(fs, a)[i].kind != NODE_DIRECTORY || Childless(Nodes(fs, b), p)
    ensures MayVacate(Nodes(fs, b), i, EMPTY_NODE)
  {}

  lemma RemovedAll(fs: Dfs, b: Image, d: Image, i: nat, p: Path)
    requires Vacated(fs, b, d, i, EMPTY_NODE) && 0 < i && Live(Nodes(fs, b)[i]) && Nodes(fs, b)[i].path == p
    requires Nodes(fs, b)[i].kind != NODE_DIRECTORY || Childless(Nodes(fs, b), p)
    ensures Gone(Nodes(fs, d), p) && Pruned(fs, b, d, p)
  {
    hide InTree, NodeOk, Owned, MakeLayout, Childless;
    SubtreeOfChildless(MetaOf(fs, b).nodes, i);
    VacatedPrunes(fs, b, d, i);
  }

  /** The checks before the first write leave everything as it was. */
  lemma NothingGone(fs: Dfs, a: Image, crashes: iset<Image>, p: Path, recursive: bool, depth: nat)
    requires FsOk(fs, a)
    ensures Spared(fs, a, a, p, depth)
    ensures depth > MAX_DEPTH || p == [] || Find(Nodes(fs, a), p).None? || !recursive ==>
      Refused(fs, a, a, crashes, crashes, Halfway(Nodes(fs, a), p, recursive, depth))
  {
    hide Deep, LiveIn;
  }

  lemma HalfwayHere(nodes: seq<Node>, p: Path, recursive: bool, depth: nat)
    requires p != [] && Find(nodes, p).Some?
    ensures recursive && Deep(nodes, p, depth) ==> Halfway(nodes, p, recursive, depth) == !Straight(nodes, p, depth)
  {}

  /** `remove_at_depth`. */
  method RemoveAt(fs: Dfs, device: Disk, path: Path, recursive: bool, depth: nat) returns (r: Result<(), DfsError>)
    requires FsOk(fs, device.durable) && Quiet(fs, device.durable, device.pending)
    modifies device
    decreases MAX_DEPTH + 1 - depth, 1
    ensures Quiet(fs, device.durable, device.pending) && FsOk(fs, device.durable)
    ensures r == RemovePathVerdict(Nodes(fs, old(device.durable)), path, recursive, depth)
    ensures NoLeaks(MetaOf(fs, old(device.durable))) ==> NoLeaks(MetaOf(fs, device.durable))
    ensures CanonicalPath(path).Err? ==> device.durable == old(device.durable) && device.crashes == old(device.crashes)
    ensures r.Err? && CanonicalPath(path).Ok? ==>
      && Spared(fs, old(device.durable), device.durable, CanonicalPath(path).value, depth)
      && TopStays(Nodes(fs, old(device.durable)), Nodes(fs, device.durable), CanonicalPath(path).value)
      && Refused(fs, old(device.durable), device.durable, old(device.crashes), device.crashes,
                 Halfway(Nodes(fs, old(device.durable)), CanonicalPath(path).value, recursive, depth))
    ensures CanonicalPath(path).Ok? ==>
      && Pruned(fs, old(device.durable), device.durable, CanonicalPath(path).value)
      && (r.Ok? ==> Gone(Nodes(fs, device.durable), CanonicalPath(path).value))
      && CrashesInto(fs, old(device.crashes), device.crashes,
                     PruneOutcomes(fs, old(device.durable), CanonicalPath(path).value))
    ensures r.Ok? && CanonicalPath(path).Ok? && Childless(Nodes(fs, old(device.durable)), CanonicalPath(path).value) ==>
      && Find(Nodes(fs, old(device.durable)), CanonicalPath(path).value).Some?
      && CrashesInto(fs, old(device.crashes), device.crashes,
                     VacateOutcomes(fs, old(device.durable),
                                    Find(Nodes(fs, old(device.durable)), CanonicalPath(path).value).value, EMPTY_NODE))
  {
    hide Consistent, MetaOf, MakeLayout, FsOk, Nodes, Childless, Named, Deep, Recovered, NoLeaks, Quiet, Straight,
      Emptying, LiveSet, LiveIn, Gone, Pruned, MayVacate, Vacated, CanonicalPath, Spared, Find;
    ghost var a := device.durable;
    ReadableFits(fs, a);
    QuietView(fs, device);
    if CanonicalPath(path).Ok? {
      PrunedRefl(fs, a, CanonicalPath(path).value);
      NothingGone(fs, a, device.crashes, CanonicalPath(path).value, recursive, depth);
      CanonicalIsNamed(path);
    }
    if depth > MAX_DEPTH {
      return Err(InvalidPath);
    }
    var p :- CanonicalPath(path);
    if p == [] {
      return Err(InvalidPath);
    }
    var lookup := FindIndex(fs, device, p);
    var found := lookup.value;
    if found.None? {
      return Err(NotFound);
    }
    var index: nat := found.value;
    NotTheRoot(fs, a, index);
    ReadableNode(fs, a, index);
    var loaded := ReadNode(fs, device, index);
    var node := loaded.value;
    EmptyingStart(fs, a, index, p, depth);
    if node.kind == NODE_DIRECTORY {
      var emptied := RemoveChildren(fs, device, p, recursive, depth, index);
      EmptyingFacts(fs, a, device.durable, index, p, depth);
      HalfwayHere(Nodes(fs, a), p, recursive, depth);
      var _ :- emptied;
    }
    ghost var b, crashed := device.durable, device.crashes;
    EmptyingFacts(fs, a, b, index, p, depth);
    EmptyingDone(fs, a, b, index, p, depth);
    MayRemove(fs, a, b, index, p, depth);
    var _ := Vacate(fs, device, index, node, EMPTY_NODE);
    RemovedAll(fs, b, device.durable, index, p);
    PrunedFacts(fs, b, device.durable, p);
    PrunedTrans(fs, a, b, device.durable, p);
    PrunedFrom(fs, a, b, p);
    VacateOutcomesPrune(fs, b, index);
    CrashesWeaken(fs, crashed, device.crashes, VacateOutcomes(fs, b, index, EMPTY_NODE), PruneOutcomes(fs, a, p));
    return Ok(());
  }

  lemma PrunedFacts(fs: Dfs, a: Image, b: Image, p: Path)
    requires Pruned(fs, a, b, p)
    ensures FsOk(fs, a) && FsOk(fs, b) && |a| == |b| && Fits(fs.layout, |b|)
  {}

  lemma NotTheRoot(fs: Dfs, a: Image, i: nat)
    requires FsOk(fs, a) && i < INODE_COUNT && Live(Nodes(fs, a)[i]) && Nodes(fs, a)[i].path != []
    ensures 0 < i
  {
    RootIsAlone(Nodes(fs, a), i);
  }
}
