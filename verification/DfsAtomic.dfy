/** When overwriting a file is atomic: on the images that a power loss during the operation may leave. */
module DfsAtomic {
  import opened Bytes
  import opened Disks
  import opened DfsLayout
  import opened DfsJournal
  import opened DfsNode
  import opened DfsPatch
  import opened DfsPath
  import opened DfsState
  import opened DfsNames
  import opened DfsImage
  import opened DfsAlloc
  import opened DfsEffects
  import opened DfsWritten
  import opened DfsWrite
  import opened DfsVacate
  import opened DfsSpec

  /** The path an operation is about. */
  function PathOf(op: Op): Path {
    if CanonicalPath(op.path).Ok? then CanonicalPath(op.path).value else []
  }

  /** A write that goes through and overwrites what a file there already shows. */
  ghost predicate Overwrites(fs: Dfs, a: Image, op: Op, r: Result<nat, DfsError>) {
    && FsOk(fs, a) && op.WriteOp? && op.input != [] && r.Ok? && CanonicalPath(op.path).Ok?
    && Lookup(fs, a, PathOf(op)).Some?
  }

  /** A power loss between start and end of `op`: nothing was written yet, or mounting shows what `op` may leave. */
  ghost predicate CutAt(fs: Dfs, a: Image, op: Op, r: Result<nat, DfsError>, c: Image) {
    c == a || MountsInto(fs, c, InterruptedBy(fs, a, op, r))
  }

  /** Mounting shows the file whole: as it was, or with all of the write. */
  ghost predicate ShowsWhole(fs: Dfs, a: Image, op: Op, c: Image)
    requires op.WriteOp? && FsOk(fs, a) && Lookup(fs, a, PathOf(op)).Some?
    requires op.offset <= |BytesAt(fs, a, PathOf(op))|
  {
    var p := PathOf(op);
    var e := Lookup(fs, a, p).value;
    && Recovered(fs, c).Ok? && FsOk(fs, Recovered(fs, c).value)
    && (|| Lookup(fs, Recovered(fs, c).value, p) == Some(e)
        || Lookup(fs, Recovered(fs, c).value, p) == Some(e.(bytes := Splice(e.bytes, op.offset, op.input))))
  }

  /** Overwriting is all or nothing at every power loss exactly when it changes no more than one sector of what the file
    * shows, and none if the file grows. */
  ghost predicate AtomicWhen(fs: Dfs, a: Image, op: Op, r: Result<nat, DfsError>, cut: iset<Image>) {
    Overwrites(fs, a, op, r) ==>
      var bytes := BytesAt(fs, a, PathOf(op));
      && op.offset <= |bytes|
      && ((forall c | c in cut :: ShowsWhole(fs, a, op, c)) <==> OneStep(bytes, op.offset, op.input))
  }

  /** Such a write begins within the file, whose path holds no NUL. */
  lemma OverwriteInside(fs: Dfs, a: Image, b: Image, op: Op, r: Result<nat, DfsError>)
    requires Overwrites(fs, a, op, r) && Done(fs, a, b, op, r)
    ensures var p := PathOf(op);
      p != [] && op.offset <= |BytesAt(fs, a, p)| && CutAtNul(p) == p
  {
    hide FsOk, MetaOf, NoLeaks, Lookup, CanonicalPath, CreateVerdict, Replaced, OutOfRoom;
    ShownHasNoNul(fs, a, PathOf(op));
  }

  /** A write of one step: every power loss shows the file whole. */
  lemma OneStepIsWhole(fs: Dfs, a: Image, op: Op, r: Result<nat, DfsError>, c: Image)
    requires Overwrites(fs, a, op, r) && Quiet(fs, a, []) && CutAt(fs, a, op, r, c)
    requires var p := PathOf(op);
      CutAtNul(p) == p && op.offset <= |BytesAt(fs, a, p)| && OneStep(BytesAt(fs, a, p), op.offset, op.input)
    ensures ShowsWhole(fs, a, op, c)
  {
    hide FsOk, MetaOf, Lookup, CanonicalPath, CreateVerdict, Recovered, Anchored, HalfWritten, OneStep, Splice,
      OthersSame;
    var p := PathOf(op);
    var e := Lookup(fs, a, p).value;
    if c == a {
      UntouchedShows(fs, a, p);
    } else {
      var x := Recovered(fs, c).value;
      assert Interrupted(fs, a, x, op, r);
      if Lookup(fs, x, p) != Some(e) {
        var t :| HalfWritten(e.bytes, t, op.offset, op.input) && Replaced(fs, a, x, p, Some(e.(bytes := t)));
        AtomicIff(e.bytes, op.offset, op.input);
      }
    }
  }

  lemma UntouchedShows(fs: Dfs, a: Image, p: Path)
    requires FsOk(fs, a) && Quiet(fs, a, [])
    ensures Recovered(fs, a) == Ok(Core(fs.layout, a)) && FsOk(fs, Core(fs.layout, a))
    ensures Lookup(fs, Core(fs.layout, a), p) == Lookup(fs, a, p)
  {
    UncommittedRecovers(fs, a, a);
    CoreIsSame(fs.layout, a, a);
    LookupCore(fs, a, Core(fs.layout, a), p);
  }

  /** A write of several: some power loss does not. */
  lemma ManyStepsAreNot(fs: Dfs, a: Image, op: Op, r: Result<nat, DfsError>, cut: iset<Image>) returns (c: Image)
    requires Overwrites(fs, a, op, r)
    requires TornReached(fs, cut, a, PathOf(op), op.offset, op.input)
    requires op.offset <= |BytesAt(fs, a, PathOf(op))|
    requires !OneStep(BytesAt(fs, a, PathOf(op)), op.offset, op.input)
    ensures c in cut && !ShowsWhole(fs, a, op, c)
  {
    hide FsOk, MetaOf, Lookup, CanonicalPath, Recovered, Anchored, Torn, OneStep, Splice, OthersSame;
    var p := PathOf(op);
    var t := BetweenShows(BytesAt(fs, a, p), op.offset, op.input);
    assert Reached(fs, cut, a, p, t);
    c :| c in cut && MountsTo(fs, c, a, p, t);
  }

  /** Over all the images power losses during the operation may leave. */
  lemma AtomicAt(fs: Dfs, a: Image, b: Image, op: Op, r: Result<nat, DfsError>, cut: iset<Image>)
    requires Done(fs, a, b, op, r) && Quiet(fs, a, [])
    requires forall c | c in cut :: CutAt(fs, a, op, r, c)
    requires Overwrites(fs, a, op, r) ==>
      TornReached(fs, cut, a, PathOf(op), op.offset, op.input)
    ensures AtomicWhen(fs, a, op, r, cut)
  {
    hide FsOk, MetaOf, Lookup, CanonicalPath, OneStep, TornReached, Done, CutAt, ShowsWhole, Quiet;
    if Overwrites(fs, a, op, r) {
      var bytes := BytesAt(fs, a, PathOf(op));
      OverwriteInside(fs, a, b, op, r);
      if OneStep(bytes, op.offset, op.input) {
        forall c | c in cut
          ensures ShowsWhole(fs, a, op, c)
        {
          OneStepIsWhole(fs, a, op, r, c);
        }
      } else {
        var c := ManyStepsAreNot(fs, a, op, r, cut);
      }
    }
  }
}
