/** What `open` decides before it hands out a descriptor. */
module Opening {
  import opened Bytes

  /** An error as a system call returns it. */
  type Errno = e: int | e < 0 witness -1

  const EINVAL: int := -22
  const EISDIR: int := -21
  const EEXIST: int := -17
  const EACCES: int := -13
  const ENOENT: int := -2

  const OPEN_READ := 1
  const OPEN_WRITE := 2
  const OPEN_CREATE := 4
  const OPEN_TRUNCATE := 8
  const OPEN_APPEND := 16
  const OPEN_EXCLUSIVE := 32
  const KNOWN_FLAGS := 64

  predicate Has(flags: nat, flag: nat)
    requires flag > 0
  {
    (flags / flag) % 2 == 1
  }

  /** Each flag is one bit. */
  lemma HasBits(flags: nat)
    requires flags < KNOWN_FLAGS
    ensures flags == (if Has(flags, OPEN_READ) then 1 else 0) + (if Has(flags, OPEN_WRITE) then 2 else 0)
      + (if Has(flags, OPEN_CREATE) then 4 else 0) + (if Has(flags, OPEN_TRUNCATE) then 8 else 0)
      + (if Has(flags, OPEN_APPEND) then 16 else 0) + (if Has(flags, OPEN_EXCLUSIVE) then 32 else 0)
  {
    hide Has;
    var a := flags / 2;
    var b := a / 2;
    var c := b / 2;
    var d := c / 2;
    var e := d / 2;
    HasIs(flags, OPEN_READ, flags);
    HasIs(flags, OPEN_WRITE, a);
    HasIs(flags, OPEN_CREATE, b);
    HasIs(flags, OPEN_TRUNCATE, c);
    HasIs(flags, OPEN_APPEND, d);
    HasIs(flags, OPEN_EXCLUSIVE, e);
    assert e / 2 == 0;
  }

  lemma HasIs(flags: nat, flag: nat, shifted: nat)
    requires flag > 0 && shifted == flags / flag
    ensures shifted == 2 * (shifted / 2) + if Has(flags, flag) then 1 else 0
  {}

  /** What the file system says of the path: the answers `open` asks it for. */
  datatype FileFacts = FileFacts(
    path: Result<(), Errno>, directory: bool, present: bool,
    mayRead: bool, mayWrite: bool, mayCreate: bool,
    create: Result<(), Errno>, truncate: Result<(), Errno>, length: Result<nat, Errno>)

  predicate BadFlags(flags: nat) {
    || flags >= KNOWN_FLAGS
    || !(Has(flags, OPEN_READ) || Has(flags, OPEN_WRITE))
    || ((Has(flags, OPEN_TRUNCATE) || Has(flags, OPEN_APPEND)) && !Has(flags, OPEN_WRITE))
    || (Has(flags, OPEN_TRUNCATE) && Has(flags, OPEN_APPEND))
    || (Has(flags, OPEN_EXCLUSIVE) && !Has(flags, OPEN_CREATE))
  }

  /** Reading, writing or both; creating, perhaps a new file only; and for writing, truncating or appending. */
  predicate Combines(flags: nat, access: nat, creation: nat, change: nat) {
    && access in {1, 2, 3} && creation in {0, 4, 36} && change in {0, 8, 16} && (access == 1 ==> change == 0)
    && flags == access + creation + change
  }

  /** The flags that fit together are 21 numbers. */
  lemma FlagsFit(flags: nat)
    ensures !BadFlags(flags) <==> exists access: nat, creation: nat, change: nat ::
      Combines(flags, access, creation, change)
  {
    if !BadFlags(flags) {
      HasBits(flags);
      var access := (if Has(flags, OPEN_READ) then 1 else 0) + (if Has(flags, OPEN_WRITE) then 2 else 0);
      var creation := (if Has(flags, OPEN_CREATE) then 4 else 0) + (if Has(flags, OPEN_EXCLUSIVE) then 32 else 0);
      var change := (if Has(flags, OPEN_TRUNCATE) then 8 else 0) + (if Has(flags, OPEN_APPEND) then 16 else 0);
      assert Combines(flags, access, creation, change);
    }
    if access: nat, creation: nat, change: nat :| Combines(flags, access, creation, change) {
      assert !BadFlags(access + creation + change);
    }
  }

  /** The checks of `open` in their order; what is left is where the cursor of the new descriptor starts. */
  function OpenVerdict(flags: nat, f: FileFacts): Result<nat, Errno> {
    if f.path.Err? then Err(f.path.error)
    else if BadFlags(flags) then Err(EINVAL)
    else if f.directory then Err(EISDIR)
    else if f.present && Has(flags, OPEN_CREATE) && Has(flags, OPEN_EXCLUSIVE) then Err(EEXIST)
    else if f.present && ((Has(flags, OPEN_READ) && !f.mayRead) || (Has(flags, OPEN_WRITE) && !f.mayWrite)) then Err(EACCES)
    else if !f.present && Has(flags, OPEN_CREATE) && !f.mayCreate then Err(EACCES)
    else if !f.present && !Has(flags, OPEN_CREATE) then Err(ENOENT)
    else if !f.present && f.create.Err? then Err(f.create.error)
    else if Has(flags, OPEN_TRUNCATE) && f.truncate.Err? then Err(f.truncate.error)
    else if Has(flags, OPEN_APPEND) then f.length
    else Ok(0)
  }

  /** The first check that fails gives the answer. */
  lemma FirstComplaint(flags: nat, f: FileFacts)
    ensures var v := OpenVerdict(flags, f);
      && (f.path.Err? ==> v == Err(f.path.error))
      && (f.path.Ok? && BadFlags(flags) ==> v == Err(-22))
      && (f.path.Ok? && !BadFlags(flags) ==>
          && (f.directory ==> v == Err(-21))
          && (!f.directory && f.present && Has(flags, OPEN_EXCLUSIVE) ==> v == Err(-17))
          && (!f.directory && f.present && !Has(flags, OPEN_EXCLUSIVE) && !Permitted(flags, f) ==> v == Err(-13))
          && (!f.directory && !f.present && !Has(flags, OPEN_CREATE) ==> v == Err(-2))
          && (!f.directory && !f.present && Has(flags, OPEN_CREATE) && !f.mayCreate ==> v == Err(-13))
          && (!f.directory && !f.present && Has(flags, OPEN_CREATE) && f.mayCreate && f.create.Err? ==>
                v == Err(f.create.error))
          && (!f.directory && Permitted(flags, f) && Has(flags, OPEN_TRUNCATE) && f.truncate.Err? ==>
                v == Err(f.truncate.error))
          && (!f.directory && Permitted(flags, f) && Has(flags, OPEN_APPEND) && f.length.Err? ==>
                v == Err(f.length.error)))
  {
    hide Has;
  }

  /** The cursor starts at the end of the file for appending, and at its beginning otherwise. */
  lemma CursorStands(flags: nat, f: FileFacts)
    requires OpenVerdict(flags, f).Ok?
    ensures Has(flags, OPEN_APPEND) ==> f.length.Ok? && OpenVerdict(flags, f).value == f.length.value
    ensures !Has(flags, OPEN_APPEND) ==> OpenVerdict(flags, f).value == 0
  {
    hide Has;
  }

  /** What the caller asked of a file that is there, or may have made of one that is not. */
  predicate Permitted(flags: nat, f: FileFacts) {
    if f.present then
      && !Has(flags, OPEN_EXCLUSIVE)
      && (Has(flags, OPEN_READ) ==> f.mayRead) && (Has(flags, OPEN_WRITE) ==> f.mayWrite)
    else Has(flags, OPEN_CREATE) && f.mayCreate && f.create.Ok?
  }

  /** The file is made: even if a later step fails. */
  predicate Creates(flags: nat, f: FileFacts) {
    f.path.Ok? && !BadFlags(flags) && !f.directory && !f.present && Permitted(flags, f)
  }

  /** The file is emptied: even if the descriptor table turns out to be full. */
  predicate Empties(flags: nat, f: FileFacts) {
    && f.path.Ok? && !BadFlags(flags) && !f.directory && Permitted(flags, f)
    && Has(flags, OPEN_TRUNCATE) && f.truncate.Ok?
  }

  /** A refusal after which the file is there, or is empty, all the same. */
  lemma RefusedLate(flags: nat, f: FileFacts)
    ensures OpenVerdict(flags, f).Err? && Creates(flags, f) <==>
      && Creates(flags, f)
      && ((Has(flags, OPEN_TRUNCATE) && f.truncate.Err?) || (Has(flags, OPEN_APPEND) && f.length.Err?))
    ensures Empties(flags, f) ==> OpenVerdict(flags, f) == Ok(0)
  {
    hide Has;
  }

  /** A descriptor is handed out exactly for a good path to no directory, with flags that fit together and a file that
    * may be used so; a file is never emptied without leave to write it. */
  lemma OpensIff(flags: nat, f: FileFacts)
    ensures OpenVerdict(flags, f).Ok? <==>
      && f.path.Ok? && !f.directory && !BadFlags(flags) && Permitted(flags, f)
      && (Has(flags, OPEN_TRUNCATE) ==> f.truncate.Ok?) && (Has(flags, OPEN_APPEND) ==> f.length.Ok?)
    ensures OpenVerdict(flags, f).Ok? && Has(flags, OPEN_TRUNCATE) && f.present ==>
      Has(flags, OPEN_WRITE) && f.mayWrite && OpenVerdict(flags, f) == Ok(0)
    ensures OpenVerdict(flags, f).Ok? && Has(flags, OPEN_EXCLUSIVE) ==> !f.present
  {
    hide Has;
  }
}
