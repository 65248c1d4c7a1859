/** The operations callers use: `write_file`, `create_directory`, `truncate` and `remove`. */
module DfsOps {
  import opened Bytes
  import opened Disks
  import opened DfsLayout
  import opened DfsJournal
  import opened DfsNode
  import opened DfsPatch
  import opened DfsPath
  import opened DfsState
  import opened DfsNames
  import opened DfsDepth
  import opened DfsImage
  import opened DfsAlloc
  import opened DfsEffects
  import opened DfsFind
  import opened DfsCreate
  import opened DfsRead
  import opened DfsWritten
  import opened DfsWrite
  import opened DfsVacate
  import opened DfsTree
  import opened DfsRemove
  import opened DfsSpec

  // ---------------------------------------------------------------- truncate

  lemma TruncateShown(fs: Dfs, a: Image, b: Image, i: nat, op: Op)
    requires op.TruncateOp? && CanonicalPath(op.path).Ok?
    requires FsOk(fs, a) && i < INODE_COUNT && Find(Nodes(fs, a), CanonicalPath(op.path).value) == Some(i)
    requires Nodes(fs, a)[i].kind == NODE_FILE
    requires Vacated(fs, a, b, i, Emptied(Nodes(fs, a)[i]))
    requires NoLeaks(MetaOf(fs, a)) ==> NoLeaks(MetaOf(fs, b))
    ensures Done(fs, a, b, op, Ok(0))
    ensures VacateOutcomes(fs, a, i, Emptied(Nodes(fs, a)[i])) <= InterruptedBy(fs, a, op, Ok(0))
  {
    hide Consistent, MakeLayout, Replaced, NoLeaks, CanonicalPath, Lookup;
    LookupAt(fs, a, i);
    VacatedShows(fs, a, b, i, Emptied(Nodes(fs, a)[i]));
    forall x | x in VacateOutcomes(fs, a, i, Emptied(Nodes(fs, a)[i]))
      ensures Interrupted(fs, a, x, op, Ok(0))
    {
      VacateIsAtomic(fs, a, x, i, Emptied(Nodes(fs, a)[i]));
    }
  }

  /** `truncate`. */
  method Truncate(fs: Dfs, device: Disk, op: Op) returns (r: Result<nat, DfsError>)
    requires FsOk(fs, device.durable) && Quiet(fs, device.durable, device.pending)
    requires op.TruncateOp?
    modifies device
    ensures Quiet(fs, device.durable, device.pending)
    ensures Done(fs, old(device.durable), device.durable, op, r)
    ensures CrashesInto(fs, old(device.crashes), device.crashes, InterruptedBy(fs, old(device.durable), op, r))
  {
    hide FsOk, MakeLayout, Nodes, MetaOf, CanonicalPath, NoLeaks, Vacated, MayLeave, Interrupted, Recovered, Replaced,
      Lookup;
    ghost var a := device.durable;
    QuietView(fs, device);
    var path :- CanonicalPath(op.path);
    NoEntry(fs, a, path);
    var lookup := FindIndex(fs, device, path);
    var found := lookup.value;
    if found.None? {
      return Err(NotFound);
    }
    var index: nat := found.value;
    ReadableNode(fs, a, index);
    FileFacts(fs, a, index);
    var loaded := ReadNode(fs, device, index);
    var node := loaded.value;
    if node.kind != NODE_FILE {
      return Err(IsDirectory);
    }
    var emptied := Emptied(node);
    var _ := Vacate(fs, device, index, node, emptied);
    TruncateShown(fs, a, device.durable, index, op);
    CrashesWeaken(fs, old(device.crashes), device.crashes, VacateOutcomes(fs, a, index, emptied),
                  InterruptedBy(fs, a, op, Ok(0)));
    return Ok(0);
  }

  // ---------------------------------------------------------------- remove

  /** A removal that went through. */
  lemma RemoveShown(fs: Dfs, a: Image, b: Image, op: Op)
    requires op.RemoveOp? && CanonicalPath(op.path).Ok?
    requires var p := CanonicalPath(op.path).value;
      Pruned(fs, a, b, p) && RemoveVerdict(Nodes(fs, a), p, op.recursive, 0).Ok? && Gone(Nodes(fs, b), p)
    requires NoLeaks(MetaOf(fs, a)) ==> NoLeaks(MetaOf(fs, b))
    ensures Done(fs, a, b, op, Ok(0))
  {
    hide Consistent, MakeLayout, NoLeaks, CanonicalPath, Lookup, InTree, PrunedTo, RemoveVerdict, Gone;
    PrunedAsShown(fs, a, b, CanonicalPath(op.path).value);
  }

  /** What is removed without recursion has no children. */
  lemma RemovesChildless(fs: Dfs, a: Image, p: Path)
    requires FsOk(fs, a) && RemoveVerdict(Nodes(fs, a), p, false, 0).Ok?
    ensures Childless(Nodes(fs, a), p)
  {
    hide Deep;
    TreeHere(fs, a);
    var i := Find(Nodes(fs, a), p).value;
    if Nodes(fs, a)[i].kind != NODE_DIRECTORY {
      NotTheRoot(fs, a, i);
      FileIsChildless(Nodes(fs, a), i);
    }
  }

  /** What has no children is removed whole or not at all. */
  lemma WholeInterrupts(fs: Dfs, a: Image, i: nat, op: Op)
    requires op.RemoveOp? && CanonicalPath(op.path).Ok? && FsOk(fs, a) && CanonicalPath(op.path).value != []
    requires Find(Nodes(fs, a), CanonicalPath(op.path).value) == Some(i)
    requires Childless(Nodes(fs, a), CanonicalPath(op.path).value)
    ensures VacateOutcomes(fs, a, i, EMPTY_NODE) <= InterruptedBy(fs, a, op, Ok(0))
  {
    hide Consistent, MakeLayout, CanonicalPath, Lookup, Replaced;
    NotTheRoot(fs, a, i);
    forall x | x in VacateOutcomes(fs, a, i, EMPTY_NODE)
      ensures Interrupted(fs, a, x, op, Ok(0))
    {
      VacateIsAtomic(fs, a, x, i, EMPTY_NODE);
    }
  }

  /** Of a subtree any part may be gone. */
  lemma PartsInterrupt(fs: Dfs, a: Image, op: Op, r: Result<nat, DfsError>)
    requires op.RemoveOp? && CanonicalPath(op.path).Ok? && FsOk(fs, a)
    requires var p := CanonicalPath(op.path).value;
      if r.Err? then Halfway(Nodes(fs, a), p, op.recursive, 0) else op.recursive && !Childless(Nodes(fs, a), p)
    ensures PruneOutcomes(fs, a, CanonicalPath(op.path).value) <= InterruptedBy(fs, a, op, r)
  {
    hide Consistent, MakeLayout, CanonicalPath, Lookup, InTree, PrunedTo, Childless, Halfway;
    forall x | Pruned(fs, a, x, CanonicalPath(op.path).value)
      ensures Interrupted(fs, a, x, op, r)
    {
      PrunedAsShown(fs, a, x, CanonicalPath(op.path).value);
    }
  }

  /** A removal that was refused, and perhaps stopped halfway. */
  lemma RefusalShown(fs: Dfs, a: Image, b: Image, before: iset<Image>, now: iset<Image>, op: Op, e: DfsError)
    requires op.RemoveOp? && CanonicalPath(op.path).Ok?
    requires var p := CanonicalPath(op.path).value;
      && Pruned(fs, a, b, p) && RemoveVerdict(Nodes(fs, a), p, op.recursive, 0) == Err(e)
      && Spared(fs, a, b, p, 0) && TopStays(Nodes(fs, a), Nodes(fs, b), p)
      && Refused(fs, a, b, before, now, Halfway(Nodes(fs, a), p, op.recursive, 0))
      && CrashesInto(fs, before, now, PruneOutcomes(fs, a, p))
    requires NoLeaks(MetaOf(fs, a)) ==> NoLeaks(MetaOf(fs, b))
    ensures Done(fs, a, b, op, Err(e))
    ensures CrashesInto(fs, before, now, InterruptedBy(fs, a, op, Err(e)))
  {
    hide Consistent, MakeLayout, NoLeaks, CanonicalPath, Lookup, InTree, HalfRemoved, RemoveVerdict, Spared, LiveIn,
      Deep, Straight, MountsInto, Interrupted, Pruned, Find;
    var p := CanonicalPath(op.path).value;
    PrunedFacts(fs, a, b, p);
    if Halfway(Nodes(fs, a), p, op.recursive, 0) {
      HalfwayShows(fs, a, b, p);
      PartsInterrupt(fs, a, op, Err(e));
      CrashesWeaken(fs, before, now, PruneOutcomes(fs, a, p), InterruptedBy(fs, a, op, Err(e)));
    }
  }

  /** `remove`. */
  method Remove(fs: Dfs, device: Disk, op: Op) returns (r: Result<nat, DfsError>)
    requires FsOk(fs, device.durable) && Quiet(fs, device.durable, device.pending)
    requires op.RemoveOp?
    modifies device
    ensures Quiet(fs, device.durable, device.pending)
    ensures Done(fs, old(device.durable), device.durable, op, r)
    ensures CrashesInto(fs, old(device.crashes), device.crashes, InterruptedBy(fs, old(device.durable), op, r))
  {
    hide FsOk, MakeLayout, Nodes, MetaOf, CanonicalPath, NoLeaks, Pruned, Gone, Interrupted, Recovered, RemoveVerdict,
      Spared, TopStays, Refused, Halfway, Childless;
    ghost var a := device.durable;
    ReadableFits(fs, a);
    var removed := RemoveAt(fs, device, op.path, op.recursive, 0);
    if removed.Err? {
      if CanonicalPath(op.path).Ok? {
        RefusalShown(fs, a, device.durable, old(device.crashes), device.crashes, op, removed.error);
      }
      return Err(removed.error);
    }
    RemoveShown(fs, a, device.durable, op);
    RemovedOutcomes(fs, a, device.crashes, old(device.crashes), op);
    return Ok(0);
  }

  lemma RemovedOutcomes(fs: Dfs, a: Image, now: iset<Image>, before: iset<Image>, op: Op)
    requires op.RemoveOp? && CanonicalPath(op.path).Ok? && FsOk(fs, a)
    requires var p := CanonicalPath(op.path).value;
      && RemoveVerdict(Nodes(fs, a), p, op.recursive, 0).Ok?
      && CrashesInto(fs, before, now, PruneOutcomes(fs, a, p))
      && (Childless(Nodes(fs, a), p) ==>
            && Find(Nodes(fs, a), p).Some?
            && CrashesInto(fs, before, now, VacateOutcomes(fs, a, Find(Nodes(fs, a), p).value, EMPTY_NODE)))
    ensures CrashesInto(fs, before, now, InterruptedBy(fs, a, op, Ok(0)))
  {
    hide FsOk, MakeLayout, Nodes, CanonicalPath, Interrupted, MountsInto, Childless, Find, Deep, Pruned, MayLeave;
    ReadableFits(fs, a);
    var p := CanonicalPath(op.path).value;
    if !op.recursive {
      RemovesChildless(fs, a, p);
    }
    if Childless(Nodes(fs, a), p) {
      var i := Find(Nodes(fs, a), p).value;
      WholeInterrupts(fs, a, i, op);
      CrashesWeaken(fs, before, now, VacateOutcomes(fs, a, i, EMPTY_NODE), InterruptedBy(fs, a, op, Ok(0)));
    } else {
      PartsInterrupt(fs, a, op, Ok(0));
      CrashesWeaken(fs, before, now, PruneOutcomes(fs, a, p), InterruptedBy(fs, a, op, Ok(0)));
    }
  }

  // ---------------------------------------------------------------- create_directory

  lemma NamePath(path: Path)
    requires CanonicalPath(path).Ok? && CanonicalPath(path).value != []
    ensures Named(CanonicalPath(path).value) && |CanonicalPath(path).value| <= MAX_PATH
  {
    CanonicalIsClean(path);
    CanonicalIsNamed(path);
  }

  /** A power loss while a free name is given to a new inode: it is not there, or it shows `e`. */
  lemma CreatedOutcomes(fs: Dfs, a: Image, b: Image, q: Path, e: Entry, good: iset<Image>,
                        before: iset<Image>, now: iset<Image>)
    requires FsOk(fs, a) && Replaced(fs, a, b, q, Some(e)) && EitherWay(fs, before, now, a, b)
    requires Lookup(fs, a, q) == None
    requires forall x | Replaced(fs, a, x, q, None) || Replaced(fs, a, x, q, Some(e)) :: x in good
    ensures CrashesInto(fs, before, now, good)
  {
    hide Replaced, Recovered, Lookup, FsOk, Core, MakeLayout, EitherWay;
    ReplacedRefl(fs, a, q);
    DfsSpec.ReplacedCore(fs, a, a, q, None);
    DfsSpec.ReplacedCore(fs, a, b, q, Some(e));
    EitherIsInto(fs, before, now, a, b);
  }

  /** A name that keeps the tree shows nothing yet, nor does it as it is given. */
  lemma FreeName(fs: Dfs, a: Image, p: Path)
    requires FsOk(fs, a) && KeepsTree(Nodes(fs, a), p)
    ensures Lookup(fs, a, CutAtNul(p)) == None && CutAtNul(p) != []
  {}

  /** `create_directory`: the filesystem stays consistent exactly when the new name is one that keeps the tree. */
  method CreateDirectory(fs: Dfs, device: Disk, op: Op) returns (r: Result<nat, DfsError>)
    requires FsOk(fs, device.durable) && Quiet(fs, device.durable, device.pending)
    requires op.MakeDirectoryOp?
    modifies device
    ensures Quiet(fs, device.durable, device.pending) && |device.durable| == |old(device.durable)|
    ensures FsOk(fs, device.durable) <==> Harmless(fs, old(device.durable), op)
    ensures !Harmless(fs, old(device.durable), op) ==> r == Ok(0)
    ensures Harmless(fs, old(device.durable), op) ==>
      && Done(fs, old(device.durable), device.durable, op, r)
      && CrashesInto(fs, old(device.crashes), device.crashes, InterruptedBy(fs, old(device.durable), op, r))
  {
    hide Consistent, MakeLayout, Nodes, MetaOf, CanonicalPath, NoLeaks, Recovered, CreateVerdict, EitherWay, Lookup,
      WithNode, KeepsTree;
    ghost var a := device.durable;
    var path :- CanonicalPath(op.path);
    if path == [] {
      return Err(AlreadyExists);
    }
    NamePath(op.path);
    var created := CreateNode(fs, device, path, NODE_DIRECTORY, op.mode, op.uid, op.gid);
    if created.Ok? && KeepsTree(Nodes(fs, a), path) {
      FreeName(fs, a, path);
      ghost var e := Entry(NODE_DIRECTORY, op.mode, op.uid, op.gid, []);
      CreatedOutcomes(fs, a, device.durable, CutAtNul(path), e, InterruptedBy(fs, a, op, Ok(0)), old(device.crashes),
                      device.crashes);
    }
    var _ :- created;
    return Ok(0);
  }

  // ---------------------------------------------------------------- write_file

  /** `m` is where the write to the inode starts: `a` itself, or `a` with the new file in it. */
  ghost predicate Begun(fs: Dfs, a: Image, m: Image, p: Path, op: Op)
    requires op.WriteOp?
  {
    && FsOk(fs, a) && Writable(fs, a, p, op.create)
    && Replaced(fs, a, m, CutAtNul(p), Some(Base(fs, a, p, op.mode, op.uid, op.gid)))
    && (NoLeaks(MetaOf(fs, a)) ==> NoLeaks(MetaOf(fs, m)))
  }

  lemma MayShowShown(fs: Dfs, m: Image, p: Path, offset: nat, input: seq<byte>, x: Image)
    requires FsOk(fs, m) && Lookup(fs, m, p).Some? && MayShow(fs, m, x, p, offset, input)
    ensures exists t :: HalfWritten(Lookup(fs, m, p).value.bytes, t, offset, input)
                     && Replaced(fs, m, x, p, Some(Lookup(fs, m, p).value.(bytes := t)))
  {
    hide Replaced, Rewritten, HalfWritten, FsOk, Lookup;
    var t :| Rewritten(fs, m, x, p, t) && HalfWritten(BytesAt(fs, m, p), t, offset, input);
    RewrittenReplaces(fs, m, x, p, t);
  }

  /** A write that goes through may be seen half done. */
  lemma WriteMayInterrupt(fs: Dfs, a: Image, m: Image, p: Path, op: Op, r: Result<nat, DfsError>)
    requires op.WriteOp? && CanonicalPath(op.path) == Ok(p) && Begun(fs, a, m, p, op) && r.Ok?
    ensures WriteOutcomes(fs, m, CutAtNul(p), op.offset, op.input) <= InterruptedBy(fs, a, op, r)
  {
    hide MakeLayout, NoLeaks, CanonicalPath, HalfWritten, OthersSame, Lookup, MayShow, Consistent, CreateVerdict;
    var e, q := Base(fs, a, p, op.mode, op.uid, op.gid), CutAtNul(p);
    forall x | x in WriteOutcomes(fs, m, q, op.offset, op.input)
      ensures Interrupted(fs, a, x, op, r)
    {
      MayShowShown(fs, m, q, op.offset, op.input, x);
      var t :| HalfWritten(e.bytes, t, op.offset, op.input) && Replaced(fs, m, x, q, Some(e.(bytes := t)));
      ReplacedTrans(fs, a, m, x, q, Some(e), Some(e.(bytes := t)));
      assert WrittenPartly(fs, a, x, q, e, op.offset, op.input);
    }
  }

  /** One that is refused shows the bytes as they were. */
  lemma RefusalMayInterrupt(fs: Dfs, a: Image, m: Image, p: Path, op: Op, r: Result<nat, DfsError>)
    requires op.WriteOp? && CanonicalPath(op.path) == Ok(p) && Begun(fs, a, m, p, op)
    requires FsOk(fs, m) && Lookup(fs, m, CutAtNul(p)).Some?
    ensures Unwritten(fs, m, CutAtNul(p)) <= InterruptedBy(fs, a, op, r)
  {
    hide MakeLayout, NoLeaks, CanonicalPath, OthersSame, Lookup, Consistent, CreateVerdict, Rewritten;
    var e, q := Base(fs, a, p, op.mode, op.uid, op.gid), CutAtNul(p);
    assert e.(bytes := e.bytes) == e;
    forall x | Rewritten(fs, m, x, q, BytesAt(fs, m, q))
      ensures Interrupted(fs, a, x, op, r)
    {
      RewrittenReplaces(fs, m, x, q, BytesAt(fs, m, q));
      ReplacedTrans(fs, a, m, x, q, Some(e), Some(e));
    }
  }

  /** The write to the inode, in the callers' terms. */
  lemma WriteShown(fs: Dfs, a: Image, m: Image, b: Image, p: Path, op: Op, r: Result<nat, DfsError>)
    requires op.WriteOp? && CanonicalPath(op.path) == Ok(p) && Begun(fs, a, m, p, op)
    requires FsOk(fs, m) && Lookup(fs, m, CutAtNul(p)).Some?
    requires WriteVerdict(fs, m, b, CutAtNul(p), op.offset, op.input, r)
    ensures Done(fs, a, b, op, r)
  {
    hide MakeLayout, NoLeaks, CanonicalPath, Splice, OthersSame, Consistent, Lookup, OutOfRoom, CreateVerdict,
      CutAtNul;
    var e, q := Base(fs, a, p, op.mode, op.uid, op.gid), CutAtNul(p);
    assert e.(bytes := e.bytes) == e;
    var t := if r.Ok? then Splice(e.bytes, op.offset, op.input) else e.bytes;
    RewrittenReplaces(fs, m, b, q, t);
    ReplacedTrans(fs, a, m, b, q, Some(e), Some(e.(bytes := t)));
    if Lookup(fs, a, p).Some? {
      ShownHasNoNul(fs, a, p);
    }
  }

  lemma BegunThere(fs: Dfs, a: Image, i: nat, op: Op)
    requires op.WriteOp? && FsOk(fs, a) && 0 < i < INODE_COUNT && Nodes(fs, a)[i].kind == NODE_FILE
    ensures Begun(fs, a, a, Nodes(fs, a)[i].path, op) && CutAtNul(Nodes(fs, a)[i].path) == Nodes(fs, a)[i].path
  {
    LookupAt(fs, a, i);
    RootIsAlone(Nodes(fs, a), i);
    ShownHasNoNul(fs, a, Nodes(fs, a)[i].path);
    hide Lookup, FsOk;
  }

  lemma BegunNew(fs: Dfs, a: Image, m: Image, p: Path, op: Op)
    requires op.WriteOp? && op.create && FsOk(fs, a) && FsOk(fs, m) && |a| == |m| && p != []
    requires Find(Nodes(fs, a), p).None? && CreateVerdict(Nodes(fs, a), p).Ok?
    requires Lookup(fs, m, CutAtNul(p)) == Some(Entry(NODE_FILE, op.mode, op.uid, op.gid, []))
    requires OthersSame(fs, a, m, CutAtNul(p))
    requires NoLeaks(MetaOf(fs, a)) ==> NoLeaks(MetaOf(fs, m))
    ensures Begun(fs, a, m, p, op) && Lookup(fs, a, p).None?
  {
    hide NoLeaks, CreateVerdict, OthersSame, Consistent, MakeLayout, CutAtNul;
  }

  /** A power loss while the file is created: no file, or an empty one. */
  lemma BegunOutcomes(fs: Dfs, a: Image, m: Image, p: Path, op: Op, before: iset<Image>, now: iset<Image>,
                      r: Result<nat, DfsError>)
    requires op.WriteOp? && CanonicalPath(op.path) == Ok(p) && Begun(fs, a, m, p, op) && Lookup(fs, a, p).None?
    requires Lookup(fs, a, CutAtNul(p)) == None && EitherWay(fs, before, now, a, m)
    ensures CrashesInto(fs, before, now, InterruptedBy(fs, a, op, r))
  {
    hide MakeLayout, NoLeaks, CanonicalPath, OthersSame, Lookup, Consistent, CreateVerdict, EitherWay, CutAtNul,
      WrittenPartly;
    var e := Base(fs, a, p, op.mode, op.uid, op.gid);
    CreatedOutcomes(fs, a, m, CutAtNul(p), e, InterruptedBy(fs, a, op, r), before, now);
  }

  /** The inode a write goes to: the file's, or a new one; what may be seen meanwhile does not depend on how the write
    * ends. */
  method OpenForWrite(fs: Dfs, device: Disk, op: Op, path: Path) returns (r: Result<nat, DfsError>)
    requires FsOk(fs, device.durable) && Quiet(fs, device.durable, device.pending)
    requires op.WriteOp? && Harmless(fs, device.durable, op) && CanonicalPath(op.path) == Ok(path) && path != []
    modifies device
    ensures Quiet(fs, device.durable, device.pending)
    ensures r.Ok? ==>
      && Begun(fs, old(device.durable), device.durable, path, op)
      && r.value < INODE_COUNT && FsOk(fs, device.durable)
      && Nodes(fs, device.durable)[r.value].kind == NODE_FILE
      && Nodes(fs, device.durable)[r.value].path == CutAtNul(path)
    ensures r.Err? ==>
      && device.durable == old(device.durable) && device.crashes == old(device.crashes)
      && Done(fs, device.durable, device.durable, op, r)
    ensures Lookup(fs, old(device.durable), path).Some? ==>
      device.durable == old(device.durable) && device.crashes == old(device.crashes)
    ensures forall end ::
      CrashesInto(fs, old(device.crashes), device.crashes, InterruptedBy(fs, old(device.durable), op, end))
  {
    hide Consistent, MakeLayout, Nodes, MetaOf, CanonicalPath, NoLeaks, Recovered, CreateVerdict, EitherWay, Lookup,
      WithNode, Begun, Interrupted, OthersSame, KeepsTree, CutAtNul, ReadBack;
    ghost var a := device.durable;
    QuietView(fs, device);
    NoEntry(fs, a, path);
    var lookup := FindNode(fs, device, path);
    var there := lookup.value;
    if there.Some? {
      ghost var i := Find(Nodes(fs, a), path).value;
      FileFacts(fs, a, i);
      ReadableNode(fs, a, i);
      if there.value.kind == NODE_DIRECTORY {
        return Err(IsDirectory);
      }
      NotTheRoot(fs, a, i);
      BegunThere(fs, a, i, op);
      var search := FindIndex(fs, device, path);
      var index := search.value;
      if index.None? {
        return Err(CorruptMetadata);
      }
      return Ok(index.value);
    }
    if !op.create {
      return Err(NotFound);
    }
    NamePath(op.path);
    r := CreateNode(fs, device, path, NODE_FILE, op.mode, op.uid, op.gid);
    if r.Ok? {
      FreeName(fs, a, path);
      BegunNew(fs, a, device.durable, path, op);
      forall end
        ensures CrashesInto(fs, old(device.crashes), device.crashes, InterruptedBy(fs, a, op, end))
      {
        BegunOutcomes(fs, a, device.durable, path, op, old(device.crashes), device.crashes, end);
      }
      NewNodeThere(fs, a, device.durable, r.value, NewNode(path, NODE_FILE, op.mode, op.uid, op.gid));
    }
  }

  lemma NewNodeThere(fs: Dfs, a: Image, m: Image, i: nat, node: Node)
    requires FsOk(fs, a) && FsOk(fs, m) && i < INODE_COUNT
    requires MetaOf(fs, m) == WithNode(MetaOf(fs, a), i, ReadBack(node))
    ensures Nodes(fs, m)[i].kind == node.kind && Nodes(fs, m)[i].path == CutAtNul(node.path)
  {
    assert MetaOf(fs, m).nodes[i] == ReadBack(node);
  }

  /** `write_file`.  Overwriting a file, every mixture of old and new sectors may be seen after a power loss. */
  method WriteFile(fs: Dfs, device: Disk, op: Op) returns (r: Result<nat, DfsError>)
    requires FsOk(fs, device.durable) && Quiet(fs, device.durable, device.pending)
    requires op.WriteOp? && Harmless(fs, device.durable, op)
    modifies device
    ensures Quiet(fs, device.durable, device.pending)
    ensures Done(fs, old(device.durable), device.durable, op, r)
    ensures CrashesInto(fs, old(device.crashes), device.crashes, InterruptedBy(fs, old(device.durable), op, r))
    ensures CanonicalPath(op.path).Ok? && Lookup(fs, old(device.durable), CanonicalPath(op.path).value).Some? ==>
      r.Ok? && op.input != [] ==>
        TornReached(fs, device.crashes, old(device.durable), CanonicalPath(op.path).value, op.offset, op.input)
  {
    hide Consistent, MakeLayout, Nodes, MetaOf, CanonicalPath, NoLeaks, Recovered, Lookup, Begun, Interrupted,
      WriteVerdict, MayShow, CutAtNul, Harmless, Rewritten, TornReached;
    ghost var a := device.durable;
    var path :- CanonicalPath(op.path);
    if path == [] {
      return Err(IsDirectory);
    }
    var index :- OpenForWrite(fs, device, op, path);
    ghost var m, crashed := device.durable, device.crashes;
    r := WriteAt(fs, device, index, op.offset, op.input);
    WriteShown(fs, a, m, device.durable, path, op, r);
    if Lookup(fs, a, path).Some? {
      ShownHasNoNul(fs, a, path);
    }
    if r.Ok? {
      WriteMayInterrupt(fs, a, m, path, op, r);
      CrashesWeaken(fs, crashed, device.crashes, WriteOutcomes(fs, m, CutAtNul(path), op.offset, op.input),
                    InterruptedBy(fs, a, op, r));
    } else {
      RefusalMayInterrupt(fs, a, m, path, op, r);
      CrashesWeaken(fs, crashed, device.crashes, Unwritten(fs, m, CutAtNul(path)), InterruptedBy(fs, a, op, r));
    }
  }
}
