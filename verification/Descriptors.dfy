/** Descriptor tables, and what the pipe reference counts have to do with them. */
module Descriptors {
  import opened Ipc

  const MAX_OPEN_FDS := 24

  /** More references than any operation ever holds outside the tables. */
  const MAX_IN_FLIGHT := 32

  datatype Kind = Closed | Stdin | Stdout | Stderr | File | PipeRead | PipeWrite

  /** An open file, device or pipe end; `offset` stands for the cursor and the buffered input. */
  datatype Descriptor = Descriptor(kind: Kind, pipe: nat, offset: nat)

  const CLOSED := Descriptor(Closed, 0, 0)

  type Table = seq<Descriptor>

  /** `DescriptorTable::new`. */
  function FreshTable(): (t: Table)
    ensures |t| == MAX_OPEN_FDS
  {
    seq(MAX_OPEN_FDS, i =>
      if i == 0 then Descriptor(Stdin, 0, 0)
      else if i == 1 then Descriptor(Stdout, 0, 0)
      else if i == 2 then Descriptor(Stderr, 0, 0)
      else CLOSED)
  }

  predicate IsEnd(d: Descriptor) { d.kind == PipeRead || d.kind == PipeWrite }

  function One(d: Descriptor, kind: Kind, id: nat): nat {
    if d.kind == kind && d.pipe == id then 1 else 0
  }

  /** How many descriptors of a table are `kind` ends of pipe `id`. */
  function CountIn(t: Table, kind: Kind, id: nat): nat {
    if t == [] then 0 else CountIn(t[..|t| - 1], kind, id) + One(t[|t| - 1], kind, id)
  }

  function Total(ts: seq<Table>, kind: Kind, id: nat): nat {
    if ts == [] then 0 else Total(ts[..|ts| - 1], kind, id) + CountIn(ts[|ts| - 1], kind, id)
  }

  lemma {:induction false} CountUpdate(t: Table, fd: nat, d: Descriptor, kind: Kind, id: nat)
    requires fd < |t|
    ensures CountIn(t[fd := d], kind, id) + One(t[fd], kind, id) == CountIn(t, kind, id) + One(d, kind, id)
    decreases |t|
  {
    var n := |t| - 1;
    if fd < n {
      CountUpdate(t[..n], fd, d, kind, id);
      assert t[fd := d][..n] == t[..n][fd := d];
    } else {
      assert t[fd := d][..n] == t[..n];
    }
  }

  lemma {:induction false} TotalUpdate(ts: seq<Table>, s: nat, t: Table, kind: Kind, id: nat)
    requires s < |ts|
    ensures Total(ts[s := t], kind, id) + CountIn(ts[s], kind, id) == Total(ts, kind, id) + CountIn(t, kind, id)
    decreases |ts|
  {
    var n := |ts| - 1;
    if s < n {
      TotalUpdate(ts[..n], s, t, kind, id);
      assert ts[s := t][..n] == ts[..n][s := t];
    } else {
      assert ts[s := t][..n] == ts[..n];
    }
  }

  lemma CountAppend(t: Table, d: Descriptor, kind: Kind, id: nat)
    ensures CountIn(t + [d], kind, id) == CountIn(t, kind, id) + One(d, kind, id)
  {
    assert (t + [d])[..|t|] == t;
  }

  lemma {:induction false} CountAt(t: Table, fd: nat, kind: Kind, id: nat)
    requires fd < |t| && t[fd].kind == kind && t[fd].pipe == id
    ensures CountIn(t, kind, id) >= 1
    decreases |t|
  {
    if fd < |t| - 1 {
      CountAt(t[..|t| - 1], fd, kind, id);
    }
  }

  lemma {:induction false} CountNone(t: Table, kind: Kind, id: nat)
    requires forall fd | 0 <= fd < |t| :: One(t[fd], kind, id) == 0
    ensures CountIn(t, kind, id) == 0
    decreases |t|
  {
    if t != [] {
      CountNone(t[..|t| - 1], kind, id);
    }
  }

  lemma {:induction false} TotalAt(ts: seq<Table>, s: nat, kind: Kind, id: nat)
    requires s < |ts|
    ensures Total(ts, kind, id) >= CountIn(ts[s], kind, id)
    decreases |ts|
  {
    if s < |ts| - 1 {
      TotalAt(ts[..|ts| - 1], s, kind, id);
    }
  }

  lemma {:induction false} TotalNone(ts: seq<Table>, kind: Kind, id: nat)
    requires forall s | 0 <= s < |ts| :: CountIn(ts[s], kind, id) == 0
    ensures Total(ts, kind, id) == 0
    decreases |ts|
  {
    if ts != [] {
      TotalNone(ts[..|ts| - 1], kind, id);
    }
  }

  lemma {:induction false} CountBound(t: Table, kind: Kind, id: nat)
    ensures CountIn(t, kind, id) <= |t|
    decreases |t|
  {
    if t != [] {
      CountBound(t[..|t| - 1], kind, id);
    }
  }

  lemma {:induction false} TotalBound(ts: seq<Table>, kind: Kind, id: nat)
    requires forall s | 0 <= s < |ts| :: |ts[s]| <= MAX_OPEN_FDS
    ensures Total(ts, kind, id) <= |ts| * MAX_OPEN_FDS
    decreases |ts|
  {
    if ts != [] {
      TotalBound(ts[..|ts| - 1], kind, id);
      CountBound(ts[|ts| - 1], kind, id);
    }
  }

  // ---------------------------------------------------------------- counting references

  /** What the descriptors of `ts`, and those of `extra` that are in no table yet, add up to. */
  function Ends(ts: seq<Table>, extra: Table, kind: Kind, id: nat): nat {
    Total(ts, kind, id) + CountIn(extra, kind, id)
  }

  ghost predicate Sized(ts: seq<Table>) {
    |ts| <= 16 && forall s | 0 <= s < |ts| :: |ts[s]| == MAX_OPEN_FDS
  }

  ghost predicate PipeCounted(p: Pipe, ts: seq<Table>, extra: Table, id: nat) {
    && p.readers == Ends(ts, extra, PipeRead, id)
    && p.writers == Ends(ts, extra, PipeWrite, id)
    && (p.open <==> p.readers + p.writers > 0)
  }

  /** Every pipe counts exactly the descriptors that name it, and is open exactly while there are some. */
  ghost predicate Counted(ts: seq<Table>, pipes: seq<Pipe>, extra: Table) {
    && Sized(ts) && |pipes| == MAX_PIPES && |extra| <= MAX_IN_FLIGHT
    && (forall id | 0 <= id < MAX_PIPES :: PipeCounted(pipes[id], ts, extra, id))
    && (forall s, fd | 0 <= s < |ts| && 0 <= fd < |ts[s]| && IsEnd(ts[s][fd]) :: ts[s][fd].pipe < MAX_PIPES)
    && (forall k | 0 <= k < |extra| && IsEnd(extra[k]) :: extra[k].pipe < MAX_PIPES)
  }

  /** The pipes after a reference to what `d` names was taken, or given back. */
  function Taken(pipes: seq<Pipe>, d: Descriptor): seq<Pipe> {
    if d.pipe < |pipes| && pipes[d.pipe].open then
      if d.kind == PipeRead then pipes[d.pipe := pipes[d.pipe].(readers := Up(pipes[d.pipe].readers))]
      else if d.kind == PipeWrite then pipes[d.pipe := pipes[d.pipe].(writers := Up(pipes[d.pipe].writers))]
      else pipes
    else pipes
  }

  function Given(pipes: seq<Pipe>, d: Descriptor): seq<Pipe> {
    if d.pipe < |pipes| && pipes[d.pipe].open then
      if d.kind == PipeRead then pipes[d.pipe := WithoutReader(pipes[d.pipe])]
      else if d.kind == PipeWrite then pipes[d.pipe := WithoutWriter(pipes[d.pipe])]
      else pipes
    else pipes
  }

  /** No descriptor names a closed pipe. */
  lemma NamedIsOpen(ts: seq<Table>, pipes: seq<Pipe>, extra: Table, s: nat, fd: nat)
    requires Counted(ts, pipes, extra) && s < |ts| && fd < |ts[s]| && IsEnd(ts[s][fd])
    ensures ts[s][fd].pipe < MAX_PIPES && pipes[ts[s][fd].pipe].open
  {
    var d := ts[s][fd];
    CountAt(ts[s], fd, d.kind, d.pipe);
    TotalAt(ts, s, d.kind, d.pipe);
    assert PipeCounted(pipes[d.pipe], ts, extra, d.pipe);
  }

  lemma NoneMeans(ts: seq<Table>, kind: Kind, id: nat)
    ensures Total(ts, kind, id) == 0 <==>
      forall s, fd | 0 <= s < |ts| && 0 <= fd < |ts[s]| :: One(ts[s][fd], kind, id) == 0
  {
    if Total(ts, kind, id) == 0 {
      forall s, fd | 0 <= s < |ts| && 0 <= fd < |ts[s]|
        ensures One(ts[s][fd], kind, id) == 0
      {
        if One(ts[s][fd], kind, id) != 0 {
          CountAt(ts[s], fd, kind, id);
          TotalAt(ts, s, kind, id);
        }
      }
    }
    if forall s, fd | 0 <= s < |ts| && 0 <= fd < |ts[s]| :: One(ts[s][fd], kind, id) == 0 {
      forall s | 0 <= s < |ts|
        ensures CountIn(ts[s], kind, id) == 0
      {
        CountNone(ts[s], kind, id);
      }
      TotalNone(ts, kind, id);
    }
  }

  /** A pipe counts no writers, or no readers, exactly when no table holds such a descriptor. */
  lemma NoWritersMeans(ts: seq<Table>, pipes: seq<Pipe>, id: nat)
    requires Counted(ts, pipes, []) && id < MAX_PIPES
    ensures pipes[id].writers == 0 <==>
      forall s, fd | 0 <= s < |ts| && 0 <= fd < |ts[s]| :: One(ts[s][fd], PipeWrite, id) == 0
  {
    assert PipeCounted(pipes[id], ts, [], id);
    NoneMeans(ts, PipeWrite, id);
  }

  /** The same for read ends. */
  lemma NoReadersMeans(ts: seq<Table>, pipes: seq<Pipe>, id: nat)
    requires Counted(ts, pipes, []) && id < MAX_PIPES
    ensures pipes[id].readers == 0 <==>
      forall s, fd | 0 <= s < |ts| && 0 <= fd < |ts[s]| :: One(ts[s][fd], PipeRead, id) == 0
  {
    assert PipeCounted(pipes[id], ts, [], id);
    NoneMeans(ts, PipeRead, id);
  }

  lemma CountsSmall(ts: seq<Table>, pipes: seq<Pipe>, extra: Table, id: nat)
    requires Counted(ts, pipes, extra) && id < MAX_PIPES
    ensures pipes[id].readers < USIZE_MAX && pipes[id].writers < USIZE_MAX
  {
    TotalBound(ts, PipeRead, id);
    TotalBound(ts, PipeWrite, id);
    CountBound(extra, PipeRead, id);
    CountBound(extra, PipeWrite, id);
    assert PipeCounted(pipes[id], ts, extra, id);
  }

  /** A reference taken is one more descriptor in flight. */
  lemma TakeCounts(ts: seq<Table>, pipes: seq<Pipe>, extra: Table, d: Descriptor)
    requires Counted(ts, pipes, extra) && |extra| < MAX_IN_FLIGHT
    requires IsEnd(d) ==> d.pipe < MAX_PIPES && pipes[d.pipe].open
    ensures Counted(ts, Taken(pipes, d), extra + [d])
  {
    var after := Taken(pipes, d);
    forall id | 0 <= id < MAX_PIPES
      ensures PipeCounted(after[id], ts, extra + [d], id)
    {
      assert PipeCounted(pipes[id], ts, extra, id);
      CountsSmall(ts, pipes, extra, id);
      CountAppend(extra, d, PipeRead, id);
      CountAppend(extra, d, PipeWrite, id);
    }
  }

  /** A reference given back is one descriptor in flight fewer; the last one recycles the pipe. */
  lemma GiveCounts(ts: seq<Table>, pipes: seq<Pipe>, extra: Table, d: Descriptor)
    requires Counted(ts, pipes, extra + [d])
    ensures Counted(ts, Given(pipes, d), extra)
  {
    var after := Given(pipes, d);
    forall id | 0 <= id < MAX_PIPES
      ensures PipeCounted(after[id], ts, extra, id)
    {
      assert PipeCounted(pipes[id], ts, extra + [d], id);
      CountAppend(extra, d, PipeRead, id);
      CountAppend(extra, d, PipeWrite, id);
    }
    forall k | 0 <= k < |extra| && IsEnd(extra[k])
      ensures extra[k].pipe < MAX_PIPES
    {
      assert extra[k] == (extra + [d])[k];
    }
  }

  /** A descriptor in flight takes a slot; the one it displaces is in flight now. */
  lemma StoreCounts(ts: seq<Table>, pipes: seq<Pipe>, extra: Table, s: nat, fd: nat, d: Descriptor)
    requires Counted(ts, pipes, extra + [d]) && s < |ts| && fd < |ts[s]|
    ensures Counted(ts[s := ts[s][fd := d]], pipes, extra + [ts[s][fd]])
  {
    var was := ts[s][fd];
    var after := ts[s := ts[s][fd := d]];
    assert IsEnd(d) ==> (extra + [d])[|extra|].pipe < MAX_PIPES;
    forall id | 0 <= id < MAX_PIPES
      ensures PipeCounted(pipes[id], after, extra + [was], id)
    {
      assert PipeCounted(pipes[id], ts, extra + [d], id);
      StoreEnds(ts, extra, s, fd, d, PipeRead, id);
      StoreEnds(ts, extra, s, fd, d, PipeWrite, id);
    }
    forall k | 0 <= k < |extra + [was]| && IsEnd((extra + [was])[k])
      ensures (extra + [was])[k].pipe < MAX_PIPES
    {
      assert k < |extra| ==> (extra + [was])[k] == (extra + [d])[k];
    }
  }

  lemma StoreEnds(ts: seq<Table>, extra: Table, s: nat, fd: nat, d: Descriptor, kind: Kind, id: nat)
    requires s < |ts| && fd < |ts[s]|
    ensures Ends(ts[s := ts[s][fd := d]], extra + [ts[s][fd]], kind, id) == Ends(ts, extra + [d], kind, id)
  {
    CountUpdate(ts[s], fd, d, kind, id);
    TotalUpdate(ts, s, ts[s][fd := d], kind, id);
    CountAppend(extra, d, kind, id);
    CountAppend(extra, ts[s][fd], kind, id);
  }

  /** Descriptors that are no pipe ends do not matter. */
  lemma PlainInFlight(ts: seq<Table>, pipes: seq<Pipe>, extra: Table, d: Descriptor)
    requires !IsEnd(d) && |extra| < MAX_IN_FLIGHT
    ensures Counted(ts, pipes, extra + [d]) <==> Counted(ts, pipes, extra)
  {
    forall id: nat | id < MAX_PIPES
      ensures Ends(ts, extra + [d], PipeRead, id) == Ends(ts, extra, PipeRead, id)
      ensures Ends(ts, extra + [d], PipeWrite, id) == Ends(ts, extra, PipeWrite, id)
    {
      CountAppend(extra, d, PipeRead, id);
      CountAppend(extra, d, PipeWrite, id);
    }
    if Counted(ts, pipes, extra + [d]) {
      forall id | 0 <= id < MAX_PIPES
        ensures PipeCounted(pipes[id], ts, extra, id)
      {
        assert PipeCounted(pipes[id], ts, extra + [d], id);
      }
      forall k | 0 <= k < |extra| && IsEnd(extra[k])
        ensures extra[k].pipe < MAX_PIPES
      {
        assert extra[k] == (extra + [d])[k];
      }
    }
    if Counted(ts, pipes, extra) {
      forall id | 0 <= id < MAX_PIPES
        ensures PipeCounted(pipes[id], ts, extra + [d], id)
      {
        assert PipeCounted(pipes[id], ts, extra, id);
      }
    }
  }

  /** A table none of whose descriptors is a pipe end. */
  ghost predicate Endless(t: Table) {
    forall fd | 0 <= fd < |t| :: !IsEnd(t[fd])
  }

  /** A whole table in flight takes the place of one without pipe ends. */
  lemma TableCounts(ts: seq<Table>, pipes: seq<Pipe>, s: nat, t: Table)
    requires Counted(ts, pipes, t) && s < |ts| && Endless(ts[s]) && |t| == MAX_OPEN_FDS
    ensures Counted(ts[s := t], pipes, [])
  {
    var after := ts[s := t];
    forall id | 0 <= id < MAX_PIPES
      ensures PipeCounted(pipes[id], after, [], id)
    {
      assert PipeCounted(pipes[id], ts, t, id);
      TotalUpdate(ts, s, t, PipeRead, id);
      TotalUpdate(ts, s, t, PipeWrite, id);
      CountNone(ts[s], PipeRead, id);
      CountNone(ts[s], PipeWrite, id);
    }
  }

  /** A reference taken for a descriptor that goes straight into a table still in flight. */
  lemma InstallCounts(ts: seq<Table>, pipes: seq<Pipe>, t: Table, fd: nat, d: Descriptor)
    requires Counted(ts, pipes, t) && fd < |t| && !IsEnd(t[fd])
    requires IsEnd(d) ==> d.pipe < MAX_PIPES && pipes[d.pipe].open
    ensures Counted(ts, Taken(pipes, d), t[fd := d])
  {
    var after := Taken(pipes, d);
    forall id | 0 <= id < MAX_PIPES
      ensures PipeCounted(after[id], ts, t[fd := d], id)
    {
      assert PipeCounted(pipes[id], ts, t, id);
      CountsSmall(ts, pipes, t, id);
      CountUpdate(t, fd, d, PipeRead, id);
      CountUpdate(t, fd, d, PipeWrite, id);
    }
  }

  /** `child` with descriptor `source` of the parent in slot `target`, if there is such a descriptor. */
  function Installed(child: Table, target: nat, source: int, parent: Table): (t: Table)
    requires target < |child|
    ensures |t| == |child|
  {
    if 0 <= source < |parent| && parent[source].kind != Closed then child[target := parent[source]] else child
  }

  /** The table a spawned child starts with: standard descriptors, three of which may come from the parent. */
  function SpawnTable(parent: Table, input: int, output: int, error: int): (t: Table)
    ensures |t| == MAX_OPEN_FDS
  {
    Installed(Installed(Installed(FreshTable(), 0, input, parent), 1, output, parent), 2, error, parent)
  }

  /** Standard input, output and error, and nothing else. */
  ghost predicate StandardTable(t: Table) {
    && |t| == MAX_OPEN_FDS
    && t[0] == Descriptor(Stdin, 0, 0) && t[1] == Descriptor(Stdout, 0, 0) && t[2] == Descriptor(Stderr, 0, 0)
    && forall fd | 3 <= fd < MAX_OPEN_FDS :: t[fd] == CLOSED
  }

  lemma FreshIsStandard()
    ensures StandardTable(FreshTable())
  {}

  /** `d` is the parent's descriptor `source`, if that number is in range and open, and the standard one otherwise. */
  ghost predicate HandedDown(parent: Table, source: int, standard: Kind, d: Descriptor) {
    d == if 0 <= source < |parent| && parent[source].kind != Closed then parent[source] else Descriptor(standard, 0, 0)
  }

  /** What a spawned child finds in each of its slots. */
  lemma SpawnSlots(parent: Table, input: int, output: int, error: int)
    ensures var t := SpawnTable(parent, input, output, error);
      && HandedDown(parent, input, Stdin, t[0])
      && HandedDown(parent, output, Stdout, t[1])
      && HandedDown(parent, error, Stderr, t[2])
      && forall fd | 3 <= fd < MAX_OPEN_FDS :: t[fd] == CLOSED
  {}

  lemma {:induction false} FreshCounts(ts: seq<Table>, pipes: seq<Pipe>)
    requires Counted(ts, pipes, [])
    ensures Counted(ts, pipes, FreshTable())
  {
    forall id | 0 <= id < MAX_PIPES
      ensures PipeCounted(pipes[id], ts, FreshTable(), id)
    {
      assert PipeCounted(pipes[id], ts, [], id);
      CountNone(FreshTable(), PipeRead, id);
      CountNone(FreshTable(), PipeWrite, id);
    }
  }

  /** The lowest free descriptor from 3 on. */
  function FirstFree(t: Table): (fd: nat)
    ensures |t| >= 3 ==> 3 <= fd <= |t|
    ensures fd < |t| ==> t[fd].kind == Closed
    ensures forall k :: 3 <= k < fd && k < |t| ==> t[k].kind != Closed
  {
    if |t| <= 3 then 3
    else
      var rest := FirstFree(t[..|t| - 1]);
      assert forall k :: 0 <= k < |t| - 1 ==> t[k] == t[..|t| - 1][k];
      if rest < |t| - 1 then rest else if t[|t| - 1].kind == Closed then |t| - 1 else |t|
  }

  /** The same tables, as far as open descriptors go. */
  ghost predicate SameOpen(a: seq<Table>, b: seq<Table>) {
    |a| == |b| && forall s | 0 <= s < |a| :: SameOpenIn(a[s], b[s])
  }

  ghost predicate SameOpenIn(a: Table, b: Table) {
    |a| == |b| && forall fd | 0 <= fd < |a| :: a[fd] == b[fd] || (a[fd].kind == Closed && b[fd].kind == Closed)
  }

  lemma {:induction false} SameOpenCounts(a: Table, b: Table, kind: Kind, id: nat)
    requires SameOpenIn(a, b) && kind != Closed
    ensures CountIn(a, kind, id) == CountIn(b, kind, id)
    decreases |a|
  {
    if a != [] {
      SameOpenCounts(a[..|a| - 1], b[..|b| - 1], kind, id);
    }
  }

  lemma {:induction false} SameOpenTotals(a: seq<Table>, b: seq<Table>, kind: Kind, id: nat)
    requires SameOpen(a, b) && kind != Closed
    ensures Total(a, kind, id) == Total(b, kind, id)
    decreases |a|
  {
    if a != [] {
      SameOpenCounts(a[|a| - 1], b[|b| - 1], kind, id);
      SameOpenTotals(a[..|a| - 1], b[..|b| - 1], kind, id);
    }
  }

  /** The counts follow from the tables: with the same descriptors open, every pipe is what it was. */
  lemma SameOpenSameEnds(a: seq<Table>, p: seq<Pipe>, b: seq<Table>, q: seq<Pipe>)
    requires Counted(a, p, []) && Counted(b, q, []) && SameOpen(a, b)
    ensures SameEnds(p, q)
  {
    forall id | 0 <= id < MAX_PIPES
      ensures p[id].open == q[id].open && p[id].readers == q[id].readers && p[id].writers == q[id].writers
    {
      assert PipeCounted(p[id], a, [], id) && PipeCounted(q[id], b, [], id);
      SameOpenTotals(a, b, PipeRead, id);
      SameOpenTotals(a, b, PipeWrite, id);
    }
  }
}
