/** Mounting, and whole runs: sequences of operations cut short anywhere by a power loss. */
module DfsSession {
  import opened Bytes
  import opened Crc
  import opened Disks
  import opened DfsLayout
  import opened DfsJournal
  import opened DfsNode
  import opened DfsState
  import opened DfsSuperblock
  import opened DfsImage
  import opened DfsWrite
  import opened DfsAlloc
  import opened DfsFind
  import opened DfsSpec
  import opened DfsOps
  import opened DfsAtomic

  // ---------------------------------------------------------------- mounting

  /** What a mount leads to: the filesystem `x`, journal aside. */
  ghost predicate Mounts(fs: Dfs, c: Image, x: Image) {
    && Anchored(fs, c) && Recovered(fs, c) == Ok(x) && FsOk(fs, x)
  }

  lemma MountsStart(fs: Dfs, c: Image, x: Image)
    requires Fits(fs.layout, |c|) && Mounts(fs, c, x)
    ensures |x| == |c| && c[fs.layout.start] == SuperblockSector(fs.crc, fs.layout)
    ensures ReadSuperblock(fs.crc, c[fs.layout.start], fs.layout.start, fs.layout.sectors) == Ok(fs.layout)
  {
    hide Recovered, Decide, SuperblockSector, Anchored, Readable, Consistent, MakeLayout;
    AnchoredStart(fs, c);
    SuperFits(fs, |c|);
  }

  lemma SuperFits(fs: Dfs, n: nat)
    requires Fits(fs.layout, n)
    ensures ReadSuperblock(fs.crc, SuperblockSector(fs.crc, fs.layout), fs.layout.start, fs.layout.sectors) == Ok(fs.layout)
  {
    SuperblockRoundTrip(fs.crc, fs.layout);
  }

  lemma RootNode(fs: Dfs, d: Image)
    requires FsOk(fs, d)
    ensures Nodes(fs, d)[0].kind == NODE_DIRECTORY && Nodes(fs, d)[0].path == []
  {
    assert Tree(MetaOf(fs, d).nodes);
  }

  /** What a mount of `a` answers once its superblock gave the layout. */
  ghost function MountWith(fs: Dfs, a: Image): Result<Dfs, DfsError>
    requires Fits(fs.layout, |a|)
  {
    match Recovered(fs, a)
    case Err(e) => Err(e)
    case Ok(x) =>
      match DecodeNode(fs.crc, InodeSector(fs.layout, x, 0))
      case Err(e) => Err(e)
      case Ok(root) => if root.kind != NODE_DIRECTORY || root.path != [] then Err(CorruptMetadata) else Ok(fs)
  }

  ghost function MountVerdict(a: Image, crc: ByteStep, start: u64, sectors: u64): Result<Dfs, DfsError>
    requires start + sectors <= |a| < 0x1_0000_0000 && start < |a|
  {
    match ReadSuperblock(crc, a[start], start, sectors)
    case Err(e) => Err(e)
    case Ok(l) => MountWith(Dfs(l, crc), a)
  }

  /** A disk left by a power loss always mounts. */
  lemma MountSucceeds(fs: Dfs, c: Image, x: Image)
    requires Fits(fs.layout, |c|) && Mounts(fs, c, x)
    ensures MountVerdict(c, fs.crc, fs.layout.start, fs.layout.sectors) == Ok(fs)
  {
    hide Decide, SuperblockSector, Anchored, MakeLayout;
    MountsStart(fs, c, x);
    RootNode(fs, x);
    ReadableNode(fs, x, 0);
  }

  /** What mounts, and what a refusal is for: the superblock, or the journal or root behind it. */
  lemma MountIff(a: Image, crc: ByteStep, start: u64, sectors: u64, l: Layout)
    requires start + sectors <= |a| < 0x1_0000_0000 && start < |a|
    ensures var verdict, fs := MountVerdict(a, crc, start, sectors), Dfs(l, crc);
      && (verdict == Ok(fs) <==>
            && ReadSuperblock(crc, a[start], start, sectors) == Ok(l) && Recovered(fs, a).Ok?
            && l.inode < |a| && DecodeNode(crc, Recovered(fs, a).value[l.inode]).Ok?
            && DecodeNode(crc, Recovered(fs, a).value[l.inode]).value.kind == NODE_DIRECTORY
            && DecodeNode(crc, Recovered(fs, a).value[l.inode]).value.path == [])
      && (verdict == Err(InvalidFilesystem) <==> ReadSuperblock(crc, a[start], start, sectors).Err?)
      && (verdict.Err? ==> verdict.error == InvalidFilesystem || verdict.error == CorruptMetadata)
  {
    hide Recovered, DecodeNode, ReadSuperblock;
    if ReadSuperblock(crc, a[start], start, sectors).Ok? {
      SuperblockFits(crc, a[start], start, sectors, |a|);
      Bounds(ReadSuperblock(crc, a[start], start, sectors).value, |a|);
      OnlyCorrupt(crc);
    } else {
      OnlyInvalid(crc, a[start], start, sectors);
    }
  }

  lemma OnlyInvalid(crc: ByteStep, s: Sector, start: u64, sectors: u64)
    ensures ReadSuperblock(crc, s, start, sectors).Err? ==>
      ReadSuperblock(crc, s, start, sectors).error == InvalidFilesystem
  {}

  lemma OnlyCorrupt(crc: ByteStep)
    ensures forall s: Sector :: DecodeNode(crc, s).Err? ==> DecodeNode(crc, s).error == CorruptMetadata
  {}

  lemma SameInode(l: Layout, a: Image, b: Image, i: nat)
    requires Fits(l, |a|) && Core(l, a) == b && i < INODE_COUNT
    ensures |a| == |b| && InodeSector(l, a, i) == InodeSector(l, b, i)
  {
    Bounds(l, |a|);
  }

  /** The journal is replayed before the root is looked at, so a mount refused for its root leaves the replayed disk. */
  method MountOn(fs: Dfs, device: Disk) returns (r: Result<Dfs, DfsError>)
    requires Fits(fs.layout, |device.durable|) && device.pending == []
    modifies device
    ensures r == MountWith(fs, old(device.durable))
    ensures r.Ok? ==> r.value == fs && Recovered(fs, old(device.durable)).Ok?
    ensures Recovered(fs, old(device.durable)).Ok? ==>
      && Quiet(fs, device.durable, device.pending)
      && Recovered(fs, old(device.durable)) == Ok(Core(fs.layout, device.durable))
    ensures Recovered(fs, old(device.durable)).Err? ==> device.durable == old(device.durable) && device.pending == []
    ensures forall c | c in device.crashes :: c in old(device.crashes) || MayFollow(fs, old(device.durable), c)
  {
    hide Recovered, MakeLayout, Decide, MayFollow, Core, DecodeNode;
    var _ :- ReplayJournal(fs, device);
    SameInode(fs.layout, device.durable, Core(fs.layout, device.durable), 0);
    var root :- ReadNode(fs, device, 0);
    if root.kind != NODE_DIRECTORY || root.path != [] {
      return Err(CorruptMetadata);
    }
    return Ok(fs);
  }

  lemma SuperblockFits(crc: ByteStep, s: Sector, start: u64, sectors: u64, n: nat)
    requires start + sectors <= n < 0x1_0000_0000 && ReadSuperblock(crc, s, start, sectors).Ok?
    ensures Fits(ReadSuperblock(crc, s, start, sectors).value, n)
  {}

  /** `mount`: the superblock is checked, the journal replayed, the root looked at. */
  method Mount(device: Disk, crc: ByteStep, start: u64, sectors: u64) returns (r: Result<Dfs, DfsError>)
    requires start + sectors <= |device.durable| < 0x1_0000_0000 && start < |device.durable| && device.pending == []
    modifies device
    ensures r == MountVerdict(old(device.durable), crc, start, sectors)
    ensures r.Ok? ==>
      && Quiet(r.value, device.durable, device.pending)
      && Recovered(r.value, old(device.durable)) == Ok(Core(r.value.layout, device.durable))
    ensures ReadSuperblock(crc, old(device.durable)[start], start, sectors).Err? ==>
      device.durable == old(device.durable) && device.pending == [] && device.crashes == old(device.crashes)
    ensures ReadSuperblock(crc, old(device.durable)[start], start, sectors).Ok? ==>
      var fs := Dfs(ReadSuperblock(crc, old(device.durable)[start], start, sectors).value, crc);
      && (if Recovered(fs, old(device.durable)).Ok?
          then Quiet(fs, device.durable, device.pending)
               && Recovered(fs, old(device.durable)) == Ok(Core(fs.layout, device.durable))
          else device.durable == old(device.durable) && device.pending == [])
      && forall c | c in device.crashes :: c in old(device.crashes) || MayFollow(fs, old(device.durable), c)
  {
    hide MakeLayout, ReadSuperblock, Recovered, MayFollow, Core, MountWith;
    var superblock := device.ReadSector(start);
    var layout :- ReadSuperblock(crc, superblock, start, sectors);
    SuperblockFits(crc, superblock, start, sectors, |device.durable|);
    r := MountOn(Dfs(layout, crc), device);
  }

  // ---------------------------------------------------------------- runs

  /** Names written through the filesystem hold no NUL, which ends a stored path. */
  predicate Plain(op: Op) {
    op.TruncateOp? || op.RemoveOp? || 0 !in op.path
  }

  /** One operation. */
  method Perform(fs: Dfs, device: Disk, op: Op) returns (r: Result<nat, DfsError>)
    requires FsOk(fs, device.durable) && Quiet(fs, device.durable, device.pending) && Harmless(fs, device.durable, op)
    modifies device
    ensures Quiet(fs, device.durable, device.pending)
    ensures Done(fs, old(device.durable), device.durable, op, r)
    ensures CrashesInto(fs, old(device.crashes), device.crashes, InterruptedBy(fs, old(device.durable), op, r))
    ensures Overwrites(fs, old(device.durable), op, r) ==>
      TornReached(fs, device.crashes, old(device.durable), PathOf(op), op.offset, op.input)
  {
    hide FsOk, MetaOf, MakeLayout, Done, Interrupted, Quiet, CrashesInto, NoLeaks, Harmless, TornReached, Lookup;
    match op
    case WriteOp(_, _, _, _, _, _, _) => r := WriteFile(fs, device, op);
    case MakeDirectoryOp(_, _, _, _) => r := CreateDirectory(fs, device, op);
    case TruncateOp(_) => r := Truncate(fs, device, op);
    case RemoveOp(_, _) => r := Remove(fs, device, op);
  }

  /** One operation of a run, with the images apart that a power loss between its start and its end may leave. */
  method PerformWatched(fs: Dfs, device: Disk, op: Op) returns (r: Result<nat, DfsError>, ghost cut: iset<Image>)
    requires FsOk(fs, device.durable) && Quiet(fs, device.durable, device.pending) && Plain(op)
    modifies device
    ensures Quiet(fs, device.durable, device.pending)
    ensures Done(fs, old(device.durable), device.durable, op, r)
    ensures forall c | c in cut :: CutAt(fs, old(device.durable), op, r, c)
    ensures AtomicWhen(fs, old(device.durable), op, r, cut)
    ensures device.crashes == old(device.crashes) + cut
  {
    hide FsOk, MetaOf, MakeLayout, Done, Interrupted, Quiet, MountsInto, NoLeaks, Harmless, TornReached, Lookup,
      AtomicWhen, Overwrites;
    ghost var a := device.durable;
    assert Harmless(fs, a, op) by {
      PlainHere(fs, a, op);
    }
    QuietNow(fs, a, device.pending);
    device.crashes := iset{device.durable};
    r := Perform(fs, device, op);
    cut := device.crashes;
    device.crashes := old(device.crashes) + cut;
    AtomicAt(fs, a, device.durable, op, r, cut);
  }

  lemma PlainHere(fs: Dfs, a: Image, op: Op)
    requires FsOk(fs, a) && Plain(op)
    ensures Harmless(fs, a, op)
  {
    if 0 !in op.path {
      PlainIsHarmless(fs, a, op);
    }
  }

  /** `states` are the filesystems between the operations of a run that gave `answers`, and `cuts` what a power loss
    * during each of them may have left on the disk. */
  ghost predicate History(fs: Dfs, states: seq<Image>, ops: seq<Op>, answers: seq<Result<nat, DfsError>>,
                          cuts: seq<iset<Image>>) {
    && |states| == |ops| + 1 && |answers| == |ops| && |cuts| == |ops|
    && forall k | 0 <= k < |ops| :: StepAt(fs, states, ops, answers, cuts, k)
  }

  ghost predicate StepAt(fs: Dfs, states: seq<Image>, ops: seq<Op>, answers: seq<Result<nat, DfsError>>,
                         cuts: seq<iset<Image>>, k: nat)
    requires k < |ops| == |answers| && |cuts| == |ops| && k + 1 < |states|
  {
    && Quiet(fs, states[k], [])
    && Done(fs, states[k], states[k + 1], ops[k], answers[k])
    && (forall c | c in cuts[k] :: CutAt(fs, states[k], ops[k], answers[k], c))
    && AtomicWhen(fs, states[k], ops[k], answers[k], cuts[k])
  }

  lemma HistoryStep(fs: Dfs, states: seq<Image>, ops: seq<Op>, answers: seq<Result<nat, DfsError>>,
                    cuts: seq<iset<Image>>, n: nat, b: Image, r: Result<nat, DfsError>, cut: iset<Image>)
    requires n < |ops| && History(fs, states, ops[..n], answers, cuts)
    requires Quiet(fs, states[n], []) && Done(fs, states[n], b, ops[n], r)
    requires (forall c | c in cut :: CutAt(fs, states[n], ops[n], r, c)) && AtomicWhen(fs, states[n], ops[n], r, cut)
    ensures History(fs, states + [b], ops[..n + 1], answers + [r], cuts + [cut])
  {
    hide Done, CutAt, Quiet, AtomicWhen;
    var s, o, a, w := states + [b], ops[..n + 1], answers + [r], cuts + [cut];
    forall k | 0 <= k < |o|
      ensures StepAt(fs, s, o, a, w, k)
    {
      if k < n {
        assert StepAt(fs, states, ops[..n], answers, cuts, k);
      }
    }
  }

  /** Every image of `now` is one of `before` or left by a power loss during one of the operations. */
  ghost predicate Covered(before: iset<Image>, now: iset<Image>, cuts: seq<iset<Image>>) {
    forall c | c in now :: c in before || InSome(cuts, c)
  }

  ghost predicate InSome(cuts: seq<iset<Image>>, c: Image) {
    exists k :: 0 <= k < |cuts| && c in cuts[k]
  }

  lemma CoveredNext(before: iset<Image>, mid: iset<Image>, now: iset<Image>, cuts: seq<iset<Image>>, cut: iset<Image>)
    requires Covered(before, mid, cuts) && now == mid + cut
    ensures Covered(before, now, cuts + [cut])
  {
    var all := cuts + [cut];
    forall c | c in now && c !in before
      ensures InSome(all, c)
    {
      if c in mid {
        var k :| 0 <= k < |cuts| && c in cuts[k];
        assert c in all[k];
      } else {
        assert c in all[|cuts|];
      }
    }
  }

  lemma DoneIsOk(fs: Dfs, a: Image, b: Image, op: Op, r: Result<nat, DfsError>)
    requires Done(fs, a, b, op, r)
    ensures FsOk(fs, b) && |b| == |a| && (NoLeaks(MetaOf(fs, a)) ==> NoLeaks(MetaOf(fs, b)))
  {}

  lemma QuietNow(fs: Dfs, a: Image, pending: seq<Write>)
    requires Quiet(fs, a, pending)
    ensures Quiet(fs, a, [])
  {}

  /** Any sequence of operations: each does what it is specified to do to the state the one before left, and a power
    * loss during the k-th mounts to the state before it or to what that one operation may leave. */
  method Run(fs: Dfs, device: Disk, ops: seq<Op>)
    returns (answers: seq<Result<nat, DfsError>>, ghost states: seq<Image>, ghost cuts: seq<iset<Image>>)
    requires FsOk(fs, device.durable) && Quiet(fs, device.durable, device.pending)
    requires forall op | op in ops :: Plain(op)
    modifies device
    ensures History(fs, states, ops, answers, cuts)
    ensures states[0] == old(device.durable) && states[|ops|] == device.durable
    ensures FsOk(fs, device.durable) && Quiet(fs, device.durable, device.pending)
    ensures NoLeaks(MetaOf(fs, old(device.durable))) ==> NoLeaks(MetaOf(fs, device.durable))
    ensures Covered(old(device.crashes), device.crashes, cuts)
  {
    hide FsOk, MetaOf, NoLeaks, Done, CutAt, MakeLayout, History, Plain, Covered, Quiet, AtomicWhen;
    answers, states, cuts := [], [device.durable], [];
    ReadableFits(fs, device.durable);
    HistoryStart(fs, device.durable, ops, device.crashes);
    for n := 0 to |ops|
      invariant |states| == n + 1 && |answers| == n
      invariant History(fs, states, ops[..n], answers, cuts)
      invariant states[0] == old(device.durable) && states[n] == device.durable
      invariant FsOk(fs, device.durable) && Quiet(fs, device.durable, device.pending)
      invariant Fits(fs.layout, |device.durable|)
      invariant NoLeaks(MetaOf(fs, old(device.durable))) ==> NoLeaks(MetaOf(fs, device.durable))
      invariant Covered(old(device.crashes), device.crashes, cuts)
    {
      ghost var a, crashed := device.durable, device.crashes;
      assert ops[n] in ops;
      QuietNow(fs, a, device.pending);
      var r;
      ghost var cut;
      r, cut := PerformWatched(fs, device, ops[n]);
      DoneIsOk(fs, a, device.durable, ops[n], r);
      HistoryStep(fs, states, ops, answers, cuts, n, device.durable, r, cut);
      CoveredNext(old(device.crashes), crashed, device.crashes, cuts, cut);
      answers, states, cuts := answers + [r], states + [device.durable], cuts + [cut];
    }
    assert ops[..|ops|] == ops;
  }

  lemma HistoryStart(fs: Dfs, a: Image, ops: seq<Op>, crashes: iset<Image>)
    ensures History(fs, [a], ops[..0], [], []) && Covered(crashes, crashes, [])
  {}

  // ---------------------------------------------------------------- life after a power loss

  /** What is seen after a power loss during the k-th operation: the state before it, or what the operation may leave. */
  ghost predicate Seen(fs: Dfs, a: Image, op: Op, r: Result<nat, DfsError>, x: Image)
    requires Fits(fs.layout, |a|)
  {
    x == Core(fs.layout, a) || Interrupted(fs, a, x, op, r)
  }

  lemma UntouchedMounts(fs: Dfs, a: Image)
    requires FsOk(fs, a) && Quiet(fs, a, [])
    ensures Mounts(fs, a, Core(fs.layout, a))
  {
    hide Consistent, MakeLayout, Readable;
    UncommittedRecovers(fs, a, a);
    CoreIsSame(fs.layout, a, a);
    CoreFrame(fs, a, Core(fs.layout, a));
  }

  /** Whatever a power loss during the k-th operation of a run leaves, it mounts: to a consistent filesystem that shows
    * the state before that operation, or what the operation may leave. */
  lemma PowerLossMounts(fs: Dfs, states: seq<Image>, ops: seq<Op>, answers: seq<Result<nat, DfsError>>,
                        cuts: seq<iset<Image>>, k: nat, c: Image)
    requires History(fs, states, ops, answers, cuts) && k < |ops| && c in cuts[k]
    ensures Recovered(fs, c).Ok? && Mounts(fs, c, Recovered(fs, c).value) && Fits(fs.layout, |c|)
    ensures Fits(fs.layout, |states[k]|) && Seen(fs, states[k], ops[k], answers[k], Recovered(fs, c).value)
    ensures MountVerdict(c, fs.crc, fs.layout.start, fs.layout.sectors) == Ok(fs)
  {
    hide Recovered, Decide, Anchored, MakeLayout, MountVerdict, FsOk, Done, Interrupted, Core, Quiet;
    assert StepAt(fs, states, ops, answers, cuts, k);
    StartsOk(fs, states[k], states[k + 1], ops[k], answers[k]);
    assert CutAt(fs, states[k], ops[k], answers[k], c);
    if c == states[k] {
      UntouchedMounts(fs, c);
    } else {
      InterruptedIsOk(fs, states[k], Recovered(fs, c).value, ops[k], answers[k]);
    }
    ReadableFits(fs, Recovered(fs, c).value);
    MountSucceeds(fs, c, Recovered(fs, c).value);
  }

  lemma StartsOk(fs: Dfs, a: Image, b: Image, op: Op, r: Result<nat, DfsError>)
    requires Done(fs, a, b, op, r)
    ensures FsOk(fs, a) && Fits(fs.layout, |a|)
  {}

  lemma InterruptedIsOk(fs: Dfs, a: Image, x: Image, op: Op, r: Result<nat, DfsError>)
    requires Interrupted(fs, a, x, op, r)
    ensures FsOk(fs, a) && FsOk(fs, x)
  {}

  // ---------------------------------------------------------------- durability

  lemma SeenKeeps(fs: Dfs, a: Image, x: Image, op: Op, r: Result<nat, DfsError>, p: Path)
    requires FsOk(fs, a) && Seen(fs, a, op, r, x) && !Touches(op, p)
    ensures FsOk(fs, x) && Lookup(fs, x, p) == Lookup(fs, a, p)
  {
    hide Lookup, Consistent, Readable, MakeLayout, Interrupted, Touches;
    if x == Core(fs.layout, a) {
      CoreIsSame(fs.layout, a, a);
      LookupCore(fs, a, x, p);
    } else {
      InterruptedIsOk(fs, a, x, op, r);
      InterruptedKeeps(fs, a, x, op, r, p);
    }
  }

  /** What an operation has returned from is there for good: a path that the operations from the j-th to the k-th leave
    * alone shows, after a power loss during the k-th and a mount, what it showed when the j-th began. */
  lemma {:induction false} Durability(fs: Dfs, states: seq<Image>, ops: seq<Op>, answers: seq<Result<nat, DfsError>>,
                                      cuts: seq<iset<Image>>, j: nat, k: nat, c: Image, p: Path)
    requires History(fs, states, ops, answers, cuts) && j <= k < |ops| && c in cuts[k]
    requires forall i | j <= i <= k :: !Touches(ops[i], p)
    ensures Recovered(fs, c).Ok? && FsOk(fs, Recovered(fs, c).value) && FsOk(fs, states[j])
    ensures Lookup(fs, Recovered(fs, c).value, p) == Lookup(fs, states[j], p)
  {
    hide Recovered, MakeLayout, FsOk, Done, Seen, Touches, Lookup, Quiet, CutAt, MountVerdict;
    PowerLossMounts(fs, states, ops, answers, cuts, k, c);
    KeptUpTo(fs, states, ops, answers, cuts, j, k, p);
    SeenKeeps(fs, states[k], Recovered(fs, c).value, ops[k], answers[k], p);
  }

  lemma {:induction false} KeptUpTo(fs: Dfs, states: seq<Image>, ops: seq<Op>, answers: seq<Result<nat, DfsError>>,
                                    cuts: seq<iset<Image>>, j: nat, k: nat, p: Path)
    requires History(fs, states, ops, answers, cuts) && j <= k < |ops|
    requires forall i | j <= i <= k :: !Touches(ops[i], p)
    ensures FsOk(fs, states[j]) && FsOk(fs, states[k]) && Lookup(fs, states[k], p) == Lookup(fs, states[j], p)
    decreases k - j
  {
    hide FsOk, Done, Touches, Lookup, Quiet, CutAt;
    assert StepAt(fs, states, ops, answers, cuts, j);
    StartsOk(fs, states[j], states[j + 1], ops[j], answers[j]);
    if j < k {
      DoneKeeps(fs, states[j], states[j + 1], ops[j], answers[j], p);
      KeptUpTo(fs, states, ops, answers, cuts, j + 1, k, p);
    }
  }

  /** Further power losses while mounting, however many, change nothing: the last mount still succeeds and
    * arrives at the same filesystem. */
  lemma {:induction false} MountingIsRestartable(fs: Dfs, cs: seq<Image>, x: Image)
    requires cs != [] && Fits(fs.layout, |cs[0]|) && Mounts(fs, cs[0], x)
    requires forall k | 0 <= k < |cs| - 1 :: MayFollow(fs, cs[k], cs[k + 1])
    ensures var c := cs[|cs| - 1];
      && Fits(fs.layout, |c|) && Mounts(fs, c, x)
      && MountVerdict(c, fs.crc, fs.layout.start, fs.layout.sectors) == Ok(fs)
    decreases |cs|
  {
    hide Recovered, Decide, Anchored, MakeLayout, MountVerdict, FsOk, MayFollow;
    if |cs| == 1 {
      MountSucceeds(fs, cs[0], x);
    } else {
      var init := cs[..|cs| - 1];
      forall k | 0 <= k < |init| - 1
        ensures MayFollow(fs, init[k], init[k + 1])
      {
        assert MayFollow(fs, cs[k], cs[k + 1]);
      }
      MountingIsRestartable(fs, init, x);
      assert MayFollow(fs, cs[|cs| - 2], cs[|cs| - 2 + 1]);
      ReplayIsRepeatable(fs, cs[|cs| - 2], cs[|cs| - 1]);
      MountSucceeds(fs, cs[|cs| - 1], x);
    }
  }
}
