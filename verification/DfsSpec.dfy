/** The filesystem as its callers see it: what each operation does to the map from paths to entries, and
  * what a power loss in the middle of it may leave. */
module DfsSpec {
  import opened Bytes
  import opened Disks
  import opened DfsLayout
  import opened DfsNode
  import opened DfsPatch
  import opened DfsPath
  import opened DfsState
  import opened DfsNames
  import opened DfsDepth
  import opened DfsImage
  import opened DfsEffects
  import opened DfsWritten
  import opened DfsWrite
  import opened DfsVacate
  import opened DfsTree
  import opened DfsRemove

  datatype Op =
    | WriteOp(path: Path, offset: u64, input: seq<byte>, create: bool, mode: u16, uid: u32, gid: u32)
    | MakeDirectoryOp(path: Path, mode: u16, uid: u32, gid: u32)
    | TruncateOp(path: Path)
    | RemoveOp(path: Path, recursive: bool)

  /** The entry a write starts from: the file, or a new empty one. */
  ghost function Base(fs: Dfs, a: Image, p: Path, mode: u16, uid: u32, gid: u32): Entry
    requires FsOk(fs, a)
  {
    if Lookup(fs, a, p).Some? then Lookup(fs, a, p).value else Entry(NODE_FILE, mode, uid, gid, [])
  }

  /** Writing `input` at `offset` of a file that shows `e`: the splice, or an error with the contents as they were. */
  ghost predicate WroteOver(fs: Dfs, a: Image, b: Image, p: Path, e: Entry, offset: nat, input: seq<byte>,
                            r: Result<nat, DfsError>) {
    match r
    case Ok(n) =>
      && n == |input| && offset <= |e.bytes|
      && Replaced(fs, a, b, p, Some(e.(bytes := Splice(e.bytes, offset, input))))
    case Err(error) =>
      && Replaced(fs, a, b, p, Some(e))
      && (error == InvalidPath <==> offset > |e.bytes|)
      && (error != InvalidPath ==> error == NoSpace && (offset + |input| >= U64_LIMIT || OutOfRoom(fs, b, p)))
  }

  /** A new file shows under its name as it is stored, which stops at the first NUL. */
  ghost predicate WriteDone(fs: Dfs, a: Image, b: Image, p: Path, offset: nat, input: seq<byte>, create: bool, e: Entry,
                            r: Result<nat, DfsError>)
    requires FsOk(fs, a)
  {
    if p == [] then r == Err(IsDirectory) && b == a
    else if Lookup(fs, a, p).Some? then
      if Lookup(fs, a, p).value.kind == NODE_DIRECTORY then r == Err(IsDirectory) && b == a
      else WroteOver(fs, a, b, p, e, offset, input, r)
    else if !create then r == Err(NotFound) && b == a
    else if CreateVerdict(Nodes(fs, a), p).Err? then r == Err(CreateVerdict(Nodes(fs, a), p).error) && b == a
    else WroteOver(fs, a, b, CutAtNul(p), e, offset, input, r)
  }

  /** A write comes as far as an inode: of the file there is, or of one that may be created. */
  ghost predicate Writable(fs: Dfs, a: Image, p: Path, create: bool)
    requires FsOk(fs, a)
  {
    && p != []
    && if Lookup(fs, a, p).Some? then Lookup(fs, a, p).value.kind != NODE_DIRECTORY
       else create && CreateVerdict(Nodes(fs, a), p).Ok?
  }

  /** A new file is not there yet, or empty; a file shows its bytes as they were; or, where the write would go
    * through, as they were but for overwritten sectors, or with the whole write done. */
  ghost predicate WriteInterrupted(fs: Dfs, a: Image, x: Image, p: Path, offset: nat, input: seq<byte>, create: bool,
                                   e: Entry, r: Result<nat, DfsError>)
    requires FsOk(fs, a)
  {
    && Writable(fs, a, p, create)
    && (|| (Lookup(fs, a, p).None? && Replaced(fs, a, x, CutAtNul(p), None))
        || Replaced(fs, a, x, CutAtNul(p), Some(e))
        || (r.Ok? && WrittenPartly(fs, a, x, CutAtNul(p), e, offset, input)))
  }

  ghost predicate WrittenPartly(fs: Dfs, a: Image, x: Image, p: Path, e: Entry, offset: nat, input: seq<byte>) {
    exists t :: HalfWritten(e.bytes, t, offset, input) && Replaced(fs, a, x, p, Some(e.(bytes := t)))
  }

  ghost predicate MakeDirectoryDone(fs: Dfs, a: Image, b: Image, p: Path, e: Entry, r: Result<nat, DfsError>)
    requires FsOk(fs, a)
  {
    if p == [] then r == Err(AlreadyExists) && b == a
    else if CreateVerdict(Nodes(fs, a), p).Err? then r == Err(CreateVerdict(Nodes(fs, a), p).error) && b == a
    else r == Ok(0) && Replaced(fs, a, b, CutAtNul(p), Some(e))
  }

  ghost predicate MakeDirectoryInterrupted(fs: Dfs, a: Image, x: Image, p: Path, e: Entry, r: Result<nat, DfsError>) {
    r.Ok? && (Replaced(fs, a, x, CutAtNul(p), None) || Replaced(fs, a, x, CutAtNul(p), Some(e)))
  }

  ghost predicate TruncateDone(fs: Dfs, a: Image, b: Image, p: Path, r: Result<nat, DfsError>)
    requires FsOk(fs, a)
  {
    match Lookup(fs, a, p)
    case None => r == Err(NotFound) && b == a
    case Some(e) =>
      if e.kind != NODE_FILE then r == Err(IsDirectory) && b == a
      else r == Ok(0) && Replaced(fs, a, b, p, Some(e.(bytes := [])))
  }

  ghost predicate TruncateInterrupted(fs: Dfs, a: Image, x: Image, p: Path, r: Result<nat, DfsError>)
    requires FsOk(fs, a)
  {
    var e := Lookup(fs, a, p);
    r.Ok? && e.Some? && (Replaced(fs, a, x, p, e) || Replaced(fs, a, x, p, Some(e.value.(bytes := []))))
  }

  /** The subtree is gone when the answer says so.  A refusal changes nothing, but for the one way it has of stopping
    * halfway, which loses some of what lies in the subtree, though neither its top nor what is out of reach. */
  ghost predicate RemoveDone(fs: Dfs, a: Image, b: Image, p: Path, recursive: bool, r: Result<nat, DfsError>)
    requires FsOk(fs, a)
  {
    match RemoveVerdict(Nodes(fs, a), p, recursive, 0)
    case Ok(_) => r == Ok(0) && PrunedTo(fs, a, b, p) && forall q | InTree(q, p) :: Lookup(fs, b, q) == None
    case Err(error) =>
      && r == Err(error)
      && if Halfway(Nodes(fs, a), p, recursive, 0) then HalfRemoved(fs, a, b, p) else b == a
  }

  ghost predicate HalfRemoved(fs: Dfs, a: Image, b: Image, p: Path) {
    && PrunedTo(fs, a, b, p)
    && (exists q :: InTree(q, p) && Lookup(fs, a, q).Some? && Lookup(fs, b, q).None?)
    && Lookup(fs, a, p).Some? && Lookup(fs, b, p) == Lookup(fs, a, p)
    && (forall q | InTree(q, p) && Level(q) > MAX_DEPTH + Level(p) :: Lookup(fs, b, q) == Lookup(fs, a, q))
  }

  /** What has no children is there or gone; of a subtree any part may be gone.  A refused removal leaves nothing else
    * to be seen unless it stops halfway. */
  ghost predicate RemoveInterrupted(fs: Dfs, a: Image, x: Image, p: Path, recursive: bool, r: Result<nat, DfsError>)
    requires FsOk(fs, a)
  {
    if r.Err? then Halfway(Nodes(fs, a), p, recursive, 0) && PrunedTo(fs, a, x, p)
    else if !recursive || Childless(Nodes(fs, a), p) then
      Replaced(fs, a, x, p, Lookup(fs, a, p)) || Replaced(fs, a, x, p, None)
    else PrunedTo(fs, a, x, p)
  }

  /** Outside the subtree nothing changed, inside it things are as before or gone. */
  ghost predicate PrunedTo(fs: Dfs, a: Image, x: Image, p: Path) {
    && FsOk(fs, a) && FsOk(fs, x)
    && forall q: Path :: Lookup(fs, x, q) == Lookup(fs, a, q) || (InTree(q, p) && Lookup(fs, x, q) == None)
  }

  /** `b` and `r` are what `op` makes of `a`. */
  ghost predicate Done(fs: Dfs, a: Image, b: Image, op: Op, r: Result<nat, DfsError>) {
    && FsOk(fs, a) && FsOk(fs, b) && |a| == |b|
    && (NoLeaks(MetaOf(fs, a)) ==> NoLeaks(MetaOf(fs, b)))
    && match CanonicalPath(op.path)
       case Err(error) => r == Err(error) && b == a
       case Ok(p) =>
         match op
         case WriteOp(_, offset, input, create, mode, uid, gid) =>
           WriteDone(fs, a, b, p, offset, input, create, Base(fs, a, p, mode, uid, gid), r)
         case MakeDirectoryOp(_, mode, uid, gid) =>
           MakeDirectoryDone(fs, a, b, p, Entry(NODE_DIRECTORY, mode, uid, gid, []), r)
         case TruncateOp(_) => TruncateDone(fs, a, b, p, r)
         case RemoveOp(_, recursive) => RemoveDone(fs, a, b, p, recursive, r)
  }

  /** Mounting after a power loss during `op`, which would have answered `r`, may show `x`. */
  ghost predicate Interrupted(fs: Dfs, a: Image, x: Image, op: Op, r: Result<nat, DfsError>) {
    && FsOk(fs, a) && FsOk(fs, x) && |a| == |x|
    && match CanonicalPath(op.path)
       case Err(_) => false
       case Ok(p) =>
         match op
         case WriteOp(_, offset, input, create, mode, uid, gid) =>
           WriteInterrupted(fs, a, x, p, offset, input, create, Base(fs, a, p, mode, uid, gid), r)
         case MakeDirectoryOp(_, mode, uid, gid) =>
           MakeDirectoryInterrupted(fs, a, x, p, Entry(NODE_DIRECTORY, mode, uid, gid, []), r)
         case TruncateOp(_) => TruncateInterrupted(fs, a, x, p, r)
         case RemoveOp(_, recursive) => RemoveInterrupted(fs, a, x, p, recursive, r)
  }

  ghost function InterruptedBy(fs: Dfs, a: Image, op: Op, r: Result<nat, DfsError>): iset<Image> {
    iset x | Interrupted(fs, a, x, op, r)
  }

  /** Any new name the operation would put into `a` is, cut at its first NUL, a proper one and free. */
  ghost predicate Harmless(fs: Dfs, a: Image, op: Op)
    requires FsOk(fs, a)
  {
    (op.WriteOp? && op.create) || op.MakeDirectoryOp? ==>
      var p := CanonicalPath(op.path);
      p.Ok? && p.value != [] && CreateVerdict(Nodes(fs, a), p.value).Ok? ==> KeepsTree(Nodes(fs, a), p.value)
  }

  /** A name without a NUL always is. */
  lemma PlainIsHarmless(fs: Dfs, a: Image, op: Op)
    requires FsOk(fs, a) && 0 !in op.path
    ensures Harmless(fs, a, op)
  {
    hide CreateVerdict, KeepsTree, Consistent;
    var p := CanonicalPath(op.path);
    if p.Ok? && p.value != [] && CreateVerdict(Nodes(fs, a), p.value).Ok? {
      CanonicalIsClean(op.path);
      CanonicalIsNamed(op.path);
      PlainKeepsTree(Nodes(fs, a), p.value);
    }
  }

  // ---------------------------------------------------------------- from inodes to entries

  lemma ReplacedTrans(fs: Dfs, a: Image, b: Image, c: Image, p: Path, e: Option<Entry>, e': Option<Entry>)
    requires Replaced(fs, a, b, p, e) && Replaced(fs, b, c, p, e')
    ensures Replaced(fs, a, c, p, e')
  {
    hide Lookup, FsOk;
  }

  lemma ReplacedCore(fs: Dfs, a: Image, b: Image, p: Path, e: Option<Entry>)
    requires Replaced(fs, a, b, p, e)
    ensures Replaced(fs, a, Core(fs.layout, b), p, e)
  {
    CoreIsSame(fs.layout, b, b);
    CoreFrame(fs, b, Core(fs.layout, b));
    forall q: Path
      ensures Lookup(fs, Core(fs.layout, b), q) == Lookup(fs, b, q)
    {
      LookupCore(fs, b, Core(fs.layout, b), q);
    }
    hide Lookup, FsOk;
  }

  lemma ReplacedRefl(fs: Dfs, a: Image, p: Path)
    requires FsOk(fs, a)
    ensures Replaced(fs, a, a, p, Lookup(fs, a, p))
  {}

  lemma RewrittenReplaces(fs: Dfs, a: Image, b: Image, p: Path, bytes: seq<byte>)
    requires Rewritten(fs, a, b, p, bytes)
    ensures Lookup(fs, a, p).Some? && Replaced(fs, a, b, p, Some(Lookup(fs, a, p).value.(bytes := bytes)))
    ensures NoLeaks(MetaOf(fs, a)) ==> NoLeaks(MetaOf(fs, b))
  {
    hide Lookup, FsOk, NoLeaks;
  }

  lemma PrunedAsShown(fs: Dfs, a: Image, b: Image, p: Path)
    requires Pruned(fs, a, b, p)
    ensures PrunedTo(fs, a, b, p)
    ensures Gone(Nodes(fs, b), p) ==> forall q | InTree(q, p) :: Lookup(fs, b, q) == None
  {
    hide Lookup, InTree, Consistent, MakeLayout;
    forall q: Path
      ensures Lookup(fs, b, q) == Lookup(fs, a, q) || (InTree(q, p) && Lookup(fs, b, q) == None)
      ensures Gone(Nodes(fs, b), p) && InTree(q, p) ==> Lookup(fs, b, q) == None
    {
      PrunedShows(fs, a, b, p, q);
    }
  }

  /** A removal that stopped halfway, as the paths show it. */
  lemma HalfwayShows(fs: Dfs, a: Image, b: Image, p: Path)
    requires Pruned(fs, a, b, p) && LiveIn(fs, b) < LiveIn(fs, a) && Spared(fs, a, b, p, 0)
    requires Find(Nodes(fs, a), p).Some? && TopStays(Nodes(fs, a), Nodes(fs, b), p)
    ensures HalfRemoved(fs, a, b, p)
  {
    hide Lookup, InTree, Consistent, MakeLayout, Level, Find;
    PrunedAsShown(fs, a, b, p);
    SurvivorShown(fs, a, b, Find(Nodes(fs, a), p).value);
    var k :| k in LiveIn(fs, a) && k !in LiveIn(fs, b);
    LostShown(fs, a, b, p, k);
    forall q | InTree(q, p) && Level(q) > MAX_DEPTH + Level(p)
      ensures Lookup(fs, b, q) == Lookup(fs, a, q)
    {
      SparedShown(fs, a, b, p, q);
    }
  }

  lemma SurvivorShown(fs: Dfs, a: Image, b: Image, k: nat)
    requires FsOk(fs, a) && FsOk(fs, b) && |a| == |b| && k < INODE_COUNT && Live(Nodes(fs, a)[k])
    requires Nodes(fs, b)[k] == Nodes(fs, a)[k]
    requires forall x | InData(fs.layout, x) :: b[x] == a[x]
    ensures var q := Nodes(fs, a)[k].path; Lookup(fs, a, q).Some? && Lookup(fs, b, q) == Lookup(fs, a, q)
  {
    SurvivorSame(fs, a, b, k);
    LookupAt(fs, a, k);
  }

  lemma LostShown(fs: Dfs, a: Image, b: Image, p: Path, k: nat)
    requires Pruned(fs, a, b, p) && k in LiveIn(fs, a) && k !in LiveIn(fs, b)
    ensures var q := Nodes(fs, a)[k].path; InTree(q, p) && Lookup(fs, a, q).Some? && Lookup(fs, b, q).None?
  {
    hide InTree;
    var q := Nodes(fs, a)[k].path;
    assert Pruning(Nodes(fs, a)[k], Nodes(fs, b)[k], p);
    LookupAt(fs, a, k);
    FindUniqueIn(fs, a, k);
    if Find(Nodes(fs, b), q).Some? {
      var j := Find(Nodes(fs, b), q).value;
      assert Pruning(Nodes(fs, a)[j], Nodes(fs, b)[j], p);
      FindUniqueIn(fs, a, j);
      assert false;
    }
  }

  lemma SparedShown(fs: Dfs, a: Image, b: Image, p: Path, q: Path)
    requires Pruned(fs, a, b, p) && Spared(fs, a, b, p, 0) && InTree(q, p) && Level(q) > MAX_DEPTH + Level(p)
    ensures Lookup(fs, b, q) == Lookup(fs, a, q)
  {
    hide InTree, Level;
    if Find(Nodes(fs, a), q).Some? {
      var k := Find(Nodes(fs, a), q).value;
      assert Within(Nodes(fs, a)[k], Nodes(fs, b)[k], p, 0);
      SurvivorShown(fs, a, b, k);
    } else {
      PrunedShows(fs, a, b, p, q);
    }
  }

  /** After a write the path shows, byte by byte, the input where it was written and what was there elsewhere. */
  lemma WriteShows(fs: Dfs, a: Image, b: Image, op: Op, r: Result<nat, DfsError>, i: nat)
    requires Done(fs, a, b, op, r) && op.WriteOp? && r.Ok?
    ensures CanonicalPath(op.path).Ok?
    ensures var p := CanonicalPath(op.path).value;
      var was := if Lookup(fs, a, p).Some? then Lookup(fs, a, p).value.bytes else [];
      var now := Lookup(fs, b, if Lookup(fs, a, p).Some? then p else CutAtNul(p));
      && r.value == |op.input| && op.offset <= |was| && now.Some?
      && |now.value.bytes| == Max(|was|, op.offset + |op.input|)
      && (i < |now.value.bytes| ==>
            now.value.bytes[i] ==
              if op.offset <= i < op.offset + |op.input| then op.input[i - op.offset] else was[i])
  {
    hide FsOk, Lookup, CanonicalPath, CreateVerdict, MetaOf, NoLeaks, OutOfRoom;
  }

  /** A completed append is atomic: mounting shows the old file or the whole new one. */
  lemma AppendInterrupted(fs: Dfs, a: Image, x: Image, op: Op, r: Result<nat, DfsError>)
    requires op.WriteOp? && Interrupted(fs, a, x, op, r)
    requires var p := CanonicalPath(op.path).value; Lookup(fs, a, p).Some? && op.offset == |Lookup(fs, a, p).value.bytes|
    ensures var p := CanonicalPath(op.path).value; var e := Lookup(fs, a, p).value;
      || Replaced(fs, a, x, p, Some(e))
      || Replaced(fs, a, x, p, Some(e.(bytes := e.bytes + op.input)))
  {
    hide Replaced, FsOk, Lookup, CanonicalPath;
    var p := CanonicalPath(op.path).value;
    var e := Lookup(fs, a, p).value;
    ShownHasNoNul(fs, a, p);
    if !Replaced(fs, a, x, p, Some(e)) {
      var t :| HalfWritten(e.bytes, t, op.offset, op.input) && Replaced(fs, a, x, p, Some(e.(bytes := t)));
      HalfAppended(e.bytes, t, op.input);
    }
  }

  /** What is found under a path has no NUL in it. */
  lemma ShownHasNoNul(fs: Dfs, a: Image, p: Path)
    requires FsOk(fs, a) && Lookup(fs, a, p).Some?
    ensures 0 !in p && CutAtNul(p) == p
  {
    var i := Find(Nodes(fs, a), p).value;
    assert NodeOk(fs.layout, MetaOf(fs, a).nodes[i]);
    CutIsWhole(p);
  }

  // ---------------------------------------------------------------- what an operation leaves alone

  /** The paths whose entry an operation may change. */
  predicate Touches(op: Op, p: Path) {
    match CanonicalPath(op.path)
    case Err(_) => false
    case Ok(q) => if op.RemoveOp? then InTree(p, q) else p == CutAtNul(q)
  }

  lemma DoneKeeps(fs: Dfs, a: Image, b: Image, op: Op, r: Result<nat, DfsError>, p: Path)
    requires Done(fs, a, b, op, r) && !Touches(op, p)
    ensures Lookup(fs, b, p) == Lookup(fs, a, p)
  {
    hide FsOk, MetaOf, NoLeaks, CanonicalPath, CreateVerdict, OutOfRoom, Lookup, InTree, RemoveVerdict, Halfway,
      CutAtNul;
    var q := CanonicalPath(op.path);
    if q.Ok? && !op.RemoveOp? && Lookup(fs, a, q.value).Some? {
      ShownHasNoNul(fs, a, q.value);
    }
  }

  lemma InterruptedKeeps(fs: Dfs, a: Image, x: Image, op: Op, r: Result<nat, DfsError>, p: Path)
    requires Interrupted(fs, a, x, op, r) && !Touches(op, p)
    ensures Lookup(fs, x, p) == Lookup(fs, a, p)
  {
    hide FsOk, MetaOf, CanonicalPath, CreateVerdict, Lookup, InTree, Halfway, Childless, CutAtNul;
    var q := CanonicalPath(op.path).value;
    ItsOwnTree(q);
    if !op.RemoveOp? && Lookup(fs, a, q).Some? {
      ShownHasNoNul(fs, a, q);
    }
  }

  lemma ItsOwnTree(p: Path)
    ensures InTree(p, p)
  {}
}
