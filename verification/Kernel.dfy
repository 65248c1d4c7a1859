/** The kernel's process calls: scheduling, birth and death, waiting, and descriptors over pipes. */
module Kernels {
  import opened Bytes
  import opened Ipc
  import opened Descriptors
  import opened Opening
  import opened Processes

  const TIMER_QUANTUM_TICKS := 10
  const EPERM: int := -1
  const ESRCH: int := -3
  const ENOEXEC: int := -8
  const EBADF: int := -9
  const ECHILD: int := -10
  const EAGAIN: int := -11
  const ENOMEM: int := -12
  const EFAULT: int := -14
  const ENFILE: int := -23
  const EMFILE: int := -24
  const EPIPE: int := -32

  /** Slots without a living process hold no pipe ends. */
  ghost predicate DeadHoldNone(ps: seq<Process>, ts: seq<Table>) {
    |ts| == |ps| && forall s | 0 <= s < |ps| && !Alive(ps[s]) :: Endless(ts[s])
  }

  function Around(from: nat, d: nat): (s: nat)
    ensures s < MAX_PROCESSES
  {
    (from + d) % MAX_PROCESSES
  }

  /** `to` is the first runnable slot after `from`, going round; it may be `from` itself. */
  ghost predicate NextRunnable(ps: seq<Process>, from: nat, to: nat) {
    && |ps| == MAX_PROCESSES && to < |ps| && Runnable(ps[to])
    && exists d :: 1 <= d <= MAX_PROCESSES && to == Around(from, d) && NoneWithin(ps, from, d)
  }

  /** The `d - 1` slots after `from` are not runnable. */
  ghost predicate NoneWithin(ps: seq<Process>, from: nat, d: nat) {
    |ps| == MAX_PROCESSES && forall e | 1 <= e < d :: !Runnable(ps[Around(from, e)])
  }

  /** Told without distances: going up from the slot behind `from` and on from slot 0, the first to be runnable. */
  lemma NextRunnableIff(ps: seq<Process>, from: nat, to: nat)
    requires |ps| == MAX_PROCESSES && from < MAX_PROCESSES
    ensures NextRunnable(ps, from, to) <==>
      && to < MAX_PROCESSES && Runnable(ps[to])
      && (to > from ==> forall s | from < s < to :: !Runnable(ps[s]))
      && (to <= from ==> forall s | 0 <= s < to || from < s < MAX_PROCESSES :: !Runnable(ps[s]))
  {
    if to < MAX_PROCESSES {
      var d: nat := if to > from then to - from else to + MAX_PROCESSES - from;
      assert Around(from, d) == to;
      if NextRunnable(ps, from, to) {
        assert NoneWithin(ps, from, d);
        forall s | if to > from then from < s < to else 0 <= s < to || from < s < MAX_PROCESSES
          ensures !Runnable(ps[s])
        {
          var e: nat := if s > from then s - from else s + MAX_PROCESSES - from;
          assert 1 <= e < d && Around(from, e) == s;
        }
      } else {
        assert !Runnable(ps[to]) || !NoneWithin(ps, from, d);
      }
    }
  }

  lemma NoneAtAll(ps: seq<Process>, from: nat)
    requires NoneWithin(ps, from, MAX_PROCESSES + 1) && from < MAX_PROCESSES
    ensures !SomeRunnable(ps)
  {
    forall s | 0 <= s < |ps|
      ensures !Runnable(ps[s])
    {
      var e := if s > from then s - from else s + MAX_PROCESSES - from;
      assert Around(from, e) == s;
    }
  }

  function ClosedTable(): (t: Table)
    ensures |t| == MAX_OPEN_FDS
  {
    seq(MAX_OPEN_FDS, _ => CLOSED)
  }

  class Kernel {
    var processes: seq<Process>
    var current: nat
    var tables: seq<Table>
    const pipes: Pipes
    /** `kernel_halt` was reached: nothing can run. */
    var halted: bool
    ghost var lineage: Lineage

    ghost predicate Valid()
      reads this, pipes
    {
      && pipes.Valid()
      && Slots(processes) && Reconciled(processes, lineage)
      && Counted(tables, pipes.table, []) && DeadHoldNone(processes, tables)
      && current < MAX_PROCESSES
      && (halted ==> !SomeRunnable(processes))
      && (!halted ==> Runnable(processes[current]))
    }

    /** `init` with the one program the kernel boots. */
    constructor ()
      ensures Valid() && Waits(processes) && !halted && fresh(pipes)
      ensures processes == seq(MAX_PROCESSES, _ => EMPTY_PROCESS)[0 := Process(1, true, false, 0, false, 0, 0, 0)]
      ensures current == 0 && |tables| == MAX_PROCESSES && forall s | 0 <= s < MAX_PROCESSES :: StandardTable(tables[s])
    {
      processes := seq(MAX_PROCESSES, _ => EMPTY_PROCESS)[0 := NewProcess(1, 0)];
      current, halted := 0, false;
      tables := seq(MAX_PROCESSES, _ => FreshTable());
      lineage := Lineage(seq(MAX_PROCESSES, _ => 0), [0], map[], []);
      pipes := new Pipes();
      new;
      BootCounts(tables, pipes.table);
      FreshIsStandard();
    }

    // -------------------------------------------------------------- scheduling

    /** `schedule` once the books are in order: round robin over the runnable slots, or halt. */
    method Schedule()
      requires |processes| == MAX_PROCESSES && current < MAX_PROCESSES && !halted
      modifies this`current, this`halted
      ensures current < MAX_PROCESSES
      ensures halted ==> !SomeRunnable(processes) && current == old(current)
      ensures !halted ==> NextRunnable(processes, old(current), current)
    {
      for distance := 1 to MAX_PROCESSES + 1
        invariant NoneWithin(processes, current, distance)
      {
        var candidate := Around(current, distance);
        if Runnable(processes[candidate]) {
          current := candidate;
          return;
        }
      }
      NoneAtAll(processes, current);
      halted := true;
    }

    /** `yield`: somebody can always run, if only the caller. */
    method YieldCurrent()
      requires Valid() && !halted
      modifies this`current, this`halted
      ensures Valid() && !halted && NextRunnable(processes, old(current), current)
    {
      Schedule();
    }

    /** `any_waiting`. */
    method AnyWaiting() returns (r: bool)
      requires |processes| == MAX_PROCESSES
      ensures r <==> exists s :: 0 <= s < MAX_PROCESSES && processes[s].active && processes[s].waitingFor != 0
    {
      for s := 0 to MAX_PROCESSES
        invariant forall k | 0 <= k < s :: !processes[k].active || processes[k].waitingFor == 0
      {
        if processes[s].active && processes[s].waitingFor != 0 {
          return true;
        }
      }
      return false;
    }

    /** The scan for another runnable process in `timer_tick`. */
    method OtherRunnable() returns (r: bool)
      requires |processes| == MAX_PROCESSES
      ensures r <==> exists s :: 0 <= s < MAX_PROCESSES && s != current && Runnable(processes[s])
    {
      for s := 0 to MAX_PROCESSES
        invariant forall k | 0 <= k < s && k != current :: !Runnable(processes[k])
      {
        if s != current && Runnable(processes[s]) {
          return true;
        }
      }
      return false;
    }

    /** A timer interrupt: the running process is only preempted out of user mode, when nobody waits,
      * somebody else can run, and its quantum of ten ticks is used up. */
    method TimerTick(fromUser: bool)
      requires Valid() && !halted
      modifies this`current, this`halted, this`processes
      ensures Valid() && !halted
      ensures old(Waits(processes)) ==> Waits(processes)
      ensures
        var p := old(processes)[old(current)];
        if !(&& fromUser
             && (forall s | 0 <= s < MAX_PROCESSES && old(processes)[s].active :: old(processes)[s].waitingFor == 0)
             && exists s :: 0 <= s < MAX_PROCESSES && s != old(current) && Runnable(old(processes)[s])) then
          processes == old(processes) && current == old(current)
        else if p.quantum + 1 < TIMER_QUANTUM_TICKS then
          processes == old(processes)[old(current) := p.(quantum := p.quantum + 1)] && current == old(current)
        else
          && processes == old(processes)[old(current) := p.(quantum := 0)]
          && NextRunnable(processes, old(current), current)
    {
      hide Waits, Reconciled, DeadHoldNone, Counted, NextRunnable;
      if !fromUser || !processes[current].active {
        return;
      }
      var waiting := AnyWaiting();
      if waiting {
        return;
      }
      var other := OtherRunnable();
      if !other {
        return;
      }
      var p := processes[current];
      var used := p.quantum + 1;
      Touched(current, p.(quantum := used));
      processes := processes[current := p.(quantum := used)];
      if used < TIMER_QUANTUM_TICKS {
        return;
      }
      Touched(current, p.(quantum := 0));
      processes := processes[current := p.(quantum := 0)];
      assert Runnable(processes[current]);
      Schedule();
    }

    /** A change of a process that leaves identity, kinship, waiting and life alone. */
    lemma Touched(slot: nat, p: Process)
      requires Slots(processes) && Reconciled(processes, lineage) && DeadHoldNone(processes, tables)
      requires slot < MAX_PROCESSES && processes[slot].active && SlotOk(p) && p.active
      requires p.pid == processes[slot].pid && p.parent == processes[slot].parent
      requires p.zombie == processes[slot].zombie && p.waitingFor == processes[slot].waitingFor
      requires p.zombie ==> p.exitStatus == processes[slot].exitStatus
      ensures Slots(processes[slot := p]) && Reconciled(processes[slot := p], lineage)
      ensures Waits(processes) ==> Waits(processes[slot := p])
      ensures DeadHoldNone(processes[slot := p], tables)
    {
      TouchKeeps(processes, slot, p);
      TouchReconciles(processes, lineage, slot, p);
    }

    // -------------------------------------------------------------- references

    method TakeReference(d: Descriptor) returns (r: Result<(), PipeError>)
      requires pipes.Valid()
      modifies pipes`table
      ensures pipes.Valid() && pipes.table == Taken(old(pipes.table), d)
      ensures r.Ok? <==> !IsEnd(d) || old(pipes.Open(d.pipe))
      ensures r.Err? ==> r.error == Invalid
    {
      match d.kind
      case PipeRead => r := pipes.AddReader(d.pipe);
      case PipeWrite => r := pipes.AddWriter(d.pipe);
      case _ => r := Ok(());
    }

    /** `release_pipe_reference`. */
    method GiveReference(d: Descriptor)
      requires pipes.Valid()
      modifies pipes`table
      ensures pipes.Valid() && pipes.table == Given(old(pipes.table), d)
    {
      match d.kind
      case PipeRead => pipes.CloseReader(d.pipe);
      case PipeWrite => pipes.CloseWriter(d.pipe);
      case _ =>
    }

    /** Closing one descriptor: its reference is given back, the slot is free. */
    method DropDescriptor(slot: nat, fd: nat)
      requires pipes.Valid() && Counted(tables, pipes.table, []) && slot < |tables| && fd < MAX_OPEN_FDS
      modifies this`tables, pipes`table
      ensures pipes.Valid() && Counted(tables, pipes.table, [])
      ensures tables == old(tables)[slot := old(tables)[slot][fd := CLOSED]]
      ensures pipes.table == Given(old(pipes.table), old(tables)[slot][fd])
    {
      var d := tables[slot][fd];
      PlainInFlight(tables, pipes.table, [], CLOSED);
      StoreCounts(tables, pipes.table, [], slot, fd, CLOSED);
      GiveCounts(tables[slot := tables[slot][fd := CLOSED]], pipes.table, [], d);
      hide Counted, Given;
      GiveReference(d);
      tables := tables[slot := tables[slot][fd := CLOSED]];
    }

    /** Every descriptor of an ending process is closed. */
    method ReleaseDescriptors(slot: nat)
      requires pipes.Valid() && Counted(tables, pipes.table, []) && slot < |tables|
      modifies this`tables, pipes`table
      ensures pipes.Valid() && Counted(tables, pipes.table, [])
      ensures tables == old(tables)[slot := ClosedTable()]
    {
      for fd := 0 to MAX_OPEN_FDS
        invariant pipes.Valid() && Counted(tables, pipes.table, [])
        invariant |tables| == |old(tables)| && |tables[slot]| == MAX_OPEN_FDS
        invariant tables == old(tables)[slot := tables[slot]]
        invariant forall k | 0 <= k < fd :: tables[slot][k] == CLOSED
      {
        hide Counted, PipeCounted;
        DropDescriptor(slot, fd);
      }
      assert tables[slot] == ClosedTable();
    }

    // -------------------------------------------------------------- ending

    /** `schedule(frame, true)`: the process becomes a zombie, its descriptors go, whoever waited for it is
      * released, and the next one runs; the kernel halts only when nobody alive is left or one is stopped. */
    method EndCurrent()
      requires Valid() && !halted
      modifies this, pipes`table
      ensures Valid()
      ensures old(Waits(processes)) ==> Waits(processes)
      ensures processes == Ended(old(processes), old(current))
      ensures tables == old(tables)[old(current) := ClosedTable()]
      ensures lineage == old(lineage).(finished :=
        old(lineage).finished[old(lineage).births[old(current)] := old(processes)[old(current)].exitStatus])
      ensures !halted ==> NextRunnable(processes, old(current), current)
      ensures halted && old(Waits(processes)) ==> !SomeAlive(processes) || SomeStopped(processes)
    {
      hide Counted, Slots, Waits, Reconciled, NextRunnable;
      ghost var was, l := processes, lineage;
      Books(processes, lineage);
      EndKeeps(processes, current);
      EndReconciles(processes, lineage, current);
      processes := processes[current := Zombified(processes[current])];
      ReleaseDescriptors(current);
      var finished := processes[current].pid;
      ReleaseWaiting(finished);
      EndedIs(was, current, processes);
      lineage := l.(finished := l.finished[l.births[current] := was[current].exitStatus]);
      Schedule();
      if halted && Waits(was) {
        HaltedMeans(processes);
      }
    }

    /** The loop that releases whoever waited for `finished`. */
    method ReleaseWaiting(finished: nat)
      requires |processes| == MAX_PROCESSES
      modifies this`processes
      ensures |processes| == MAX_PROCESSES
      ensures forall s | 0 <= s < MAX_PROCESSES :: processes[s] == Released(old(processes)[s], finished)
    {
      for s := 0 to MAX_PROCESSES
        invariant |processes| == MAX_PROCESSES
        invariant forall k | 0 <= k < s :: processes[k] == Released(old(processes)[k], finished)
        invariant forall k | s <= k < MAX_PROCESSES :: processes[k] == old(processes)[k]
      {
        if processes[s].waitingFor == finished {
          processes := processes[s := processes[s].(waitingFor := 0)];
        }
      }
    }

    /** `exit` with a status. */
    method ExitCurrent(status: int)
      requires Valid() && !halted && -0x8000_0000 <= status < 0x8000_0000
      modifies this, pipes`table
      ensures Valid()
      ensures old(Waits(processes)) ==> Waits(processes)
      ensures processes ==
        Ended(old(processes)[old(current) := old(processes)[old(current)].(exitStatus := status)], old(current))
      ensures lineage == old(lineage).(finished := old(lineage).finished[old(lineage).births[old(current)] := status])
      ensures tables == old(tables)[old(current) := ClosedTable()]
      ensures halted && old(Waits(processes)) ==> !SomeAlive(processes) || SomeStopped(processes)
    {
      hide Counted, Slots, Waits, Reconciled, SomeRunnable;
      Books(processes, lineage);
      var p := processes[current].(exitStatus := status);
      Touched(current, p);
      processes := processes[current := p];
      EndCurrent();
    }

    // -------------------------------------------------------------- signals

    /** A stop signal taken by the running process. */
    method StopCurrent()
      requires Valid() && !halted
      modifies this`processes, this`current, this`halted
      ensures Valid()
      ensures old(Waits(processes)) ==> Waits(processes)
      ensures processes == old(processes)[old(current) := old(processes)[old(current)].(stopped := true)]
      ensures halted ==> SomeStopped(processes)
    {
      hide Counted, Slots, Waits, Reconciled, NextRunnable;
      Books(processes, lineage);
      var p := processes[current].(stopped := true);
      Touched(current, p);
      processes := processes[current := p];
      assert Alive(processes[current]) && processes[current].stopped;
      Schedule();
    }

    /** `send_signal`: whether the sender is the superuser or owns the process is given.  A continue or kill signal
      * makes the process eligible again; process 1 takes none. */
    method SendSignal(pid: nat, signal: nat, permitted: bool) returns (rax: int)
      requires Valid() && !halted
      modifies this`processes
      ensures Valid()
      ensures old(Waits(processes)) ==> Waits(processes)
      ensures rax ==
        if signal !in {SIGNAL_HUP, SIGNAL_INT, SIGNAL_KILL, SIGNAL_SEGV, SIGNAL_TERM, SIGNAL_CONT, SIGNAL_STOP}
        then EINVAL
        else if forall s | 0 <= s < MAX_PROCESSES && old(processes)[s].active :: old(processes)[s].pid != pid then ESRCH
        else if !permitted || pid == 1 then EPERM
        else 0
      ensures rax != 0 || signal !in {SIGNAL_CONT, SIGNAL_KILL} ==> processes == old(processes)
      ensures rax == 0 && signal in {SIGNAL_CONT, SIGNAL_KILL} ==> Resumed(old(processes), processes, pid)
    {
      if signal !in {SIGNAL_HUP, SIGNAL_INT, SIGNAL_KILL, SIGNAL_SEGV, SIGNAL_TERM, SIGNAL_CONT, SIGNAL_STOP} {
        return EINVAL;
      }
      for s := 0 to MAX_PROCESSES
        invariant forall k | 0 <= k < s && processes[k].active :: processes[k].pid != pid
      {
        if processes[s].active && processes[s].pid == pid {
          if !permitted {
            return EPERM;
          }
          if pid == 1 {
            return EPERM;
          }
          if signal == SIGNAL_CONT || signal == SIGNAL_KILL {
            Books(processes, lineage);
            var p := processes[s].(stopped := false);
            Touched(s, p);
            processes := processes[s := p];
          }
          return 0;
        }
      }
      return ESRCH;
    }

    // -------------------------------------------------------------- birth

    /** `fork`: the child gets a copy of the table, every pipe end in it counted once more. */
    method ForkCurrent(cloned: bool) returns (rax: int)
      requires Valid() && !halted
      modifies this`processes, this`tables, this`lineage, pipes`table
      ensures Valid()
      ensures old(Waits(processes)) ==> Waits(processes)
      ensures rax == EAGAIN <==> FirstIdle(old(processes)) == MAX_PROCESSES
      ensures rax == ENOMEM <==> FirstIdle(old(processes)) < MAX_PROCESSES && !cloned
      ensures rax < 0 ==>
        && (rax == EAGAIN || rax == ENOMEM) && processes == old(processes) && tables == old(tables)
        && lineage == old(lineage) && pipes.table == old(pipes.table)
      ensures rax >= 0 ==>
        && var slot := FirstIdle(old(processes));
        && slot < MAX_PROCESSES && rax == MaxPid(old(processes)) + 1
        && processes == old(processes)[slot := Process(rax, true, false, old(processes)[current].pid, false, 0, 0, 0)]
        && tables == old(tables)[slot := old(tables)[current]]
        && lineage == Bear(old(lineage), slot, old(lineage).births[current])
    {
      hide Counted, Slots, Waits, Reconciled, Runnable, MaxPid;
      Books(processes, lineage);
      var slot := FirstIdle(processes);
      if slot == MAX_PROCESSES {
        return EAGAIN;
      }
      var pid := MaxPid(processes) + 1;
      if !cloned {
        return ENOMEM;
      }
      RunnerAlive(processes, current, slot);
      BirthKeeps(processes, slot, processes[current].pid);
      BirthReconciles(processes, lineage, slot, current);
      var table := tables[current];
      ReferAll(table);
      TableCounts(tables, pipes.table, slot, table);
      tables := tables[slot := table];
      processes := processes[slot := NewProcess(pid, processes[current].pid)];
      lineage := Bear(lineage, slot, lineage.births[current]);
      BornRuns(old(processes), processes, current, slot);
      return pid;
    }

    /** Takes a reference for every pipe end of a table. */
    method ReferAll(table: Table)
      requires pipes.Valid() && Counted(tables, pipes.table, [])
      requires current < |tables| && table == tables[current]
      modifies pipes`table
      ensures pipes.Valid() && Counted(tables, pipes.table, table)
      ensures |table| == MAX_OPEN_FDS
    {
      hide Counted, PipeCounted;
      SizeOf(tables, pipes.table, []);
      assert table[..0] == [];
      for fd := 0 to |table|
        invariant pipes.Valid() && |table| == MAX_OPEN_FDS
        invariant Counted(tables, pipes.table, table[..fd])
      {
        if IsEnd(table[fd]) {
          NamedIsOpen(tables, pipes.table, table[..fd], current, fd);
        }
        TakeCounts(tables, pipes.table, table[..fd], table[fd]);
        var _ := TakeReference(table[fd]);
        assert table[..fd] + [table[fd]] == table[..fd + 1];
      }
      assert table[..|table|] == table;
    }

    /** One of the three descriptors a spawned child is given. */
    method ApplySpawnIo(child: Table, target: nat, source: int) returns (t: Table)
      requires pipes.Valid() && current < |tables| && Counted(tables, pipes.table, child) && |child| == MAX_OPEN_FDS
      requires target < 3 && !IsEnd(child[target])
      modifies pipes`table
      ensures pipes.Valid() && t == Installed(child, target, source, tables[current])
      ensures Counted(tables, pipes.table, t)
    {
      t := child;
      if source < 0 || source >= MAX_OPEN_FDS {
        return;
      }
      var d := tables[current][source];
      if d.kind == Closed {
        return;
      }
      if IsEnd(d) {
        NamedIsOpen(tables, pipes.table, child, current, source);
      }
      InstallCounts(tables, pipes.table, child, target, d);
      hide Counted, PipeCounted;
      var _ := TakeReference(d);
      t := child[target := d];
    }

    method SpawnTables(input: int, output: int, error: int) returns (table: Table)
      requires pipes.Valid() && current < |tables| && Counted(tables, pipes.table, [])
      modifies pipes`table
      ensures pipes.Valid() && table == SpawnTable(tables[current], input, output, error)
      ensures Counted(tables, pipes.table, table)
    {
      hide Counted;
      FreshCounts(tables, pipes.table);
      table := FreshTable();
      table := ApplySpawnIo(table, 0, input);
      table := ApplySpawnIo(table, 1, output);
      table := ApplySpawnIo(table, 2, error);
    }

    /** `spawn`: the checks on the program file and its loading are given as their outcomes.  The caller gets
      * `rax`; then the next process runs. */
    method SpawnCurrent(accessible: bool, present: bool, loads: bool, input: int, output: int, error: int)
      returns (rax: int)
      requires Valid() && !halted
      modifies this, pipes`table
      ensures Valid() && !halted
      ensures old(Waits(processes)) ==> Waits(processes)
      ensures rax < 0 ==>
        && processes == old(processes) && tables == old(tables) && lineage == old(lineage)
        && pipes.table == old(pipes.table) && current == old(current)
      ensures rax ==
        if !accessible then EACCES else if !present then ENOENT
        else if FirstIdle(old(processes)) == MAX_PROCESSES then EAGAIN
        else if !loads then ENOEXEC else MaxPid(old(processes)) + 1
      ensures rax >= 0 ==>
        && var slot := FirstIdle(old(processes));
        && slot < MAX_PROCESSES
        && processes == old(processes)[slot :=
             Process(rax, true, false, old(processes)[old(current)].pid, false, 0, 0, 0)]
        && |tables| == MAX_PROCESSES && tables == old(tables)[slot := tables[slot]] && |tables[slot]| == MAX_OPEN_FDS
        && HandedDown(old(tables)[old(current)], input, Stdin, tables[slot][0])
        && HandedDown(old(tables)[old(current)], output, Stdout, tables[slot][1])
        && HandedDown(old(tables)[old(current)], error, Stderr, tables[slot][2])
        && (forall fd | 3 <= fd < MAX_OPEN_FDS :: tables[slot][fd] == CLOSED)
        && lineage == Bear(old(lineage), slot, old(lineage).births[old(current)])
        && NextRunnable(processes, old(current), current)
    {
      hide Counted, Slots, Waits, Reconciled, Runnable, MaxPid, SpawnTable, NextRunnable;
      Books(processes, lineage);
      if !accessible {
        return EACCES;
      }
      if !present {
        return ENOENT;
      }
      var slot := FirstIdle(processes);
      if slot == MAX_PROCESSES {
        return EAGAIN;
      }
      var pid := MaxPid(processes) + 1;
      if !loads {
        return ENOEXEC;
      }
      RunnerAlive(processes, current, slot);
      BirthKeeps(processes, slot, processes[current].pid);
      BirthReconciles(processes, lineage, slot, current);
      var table := SpawnTables(input, output, error);
      SpawnSlots(tables[current], input, output, error);
      TableCounts(tables, pipes.table, slot, table);
      tables := tables[slot := table];
      processes := processes[slot := NewProcess(pid, processes[current].pid)];
      lineage := Bear(lineage, slot, lineage.births[current]);
      BornRuns(old(processes), processes, current, slot);
      StillRunnable(processes, current);
      Schedule();
      return pid;
    }

    /** `execve`: a new image under the same pid and parent; the descriptors stay. */
    method ExecveCurrent(accessible: bool, present: bool, loads: bool) returns (rax: int)
      requires Valid() && !halted
      modifies this`processes
      ensures Valid()
      ensures old(Waits(processes)) ==> Waits(processes)
      ensures rax == if !accessible then EACCES else if !present then ENOENT else if !loads then ENOEXEC else 0
      ensures rax < 0 ==> processes == old(processes)
      ensures rax == 0 ==>
        var p := old(processes)[current];
        processes == old(processes)[current := Process(p.pid, true, false, p.parent, false, 0, 0, 0)]
    {
      hide Counted, Slots, Waits, Reconciled;
      Books(processes, lineage);
      if !accessible {
        return EACCES;
      }
      if !present {
        return ENOENT;
      }
      if !loads {
        return ENOEXEC;
      }
      var replacement := NewProcess(processes[current].pid, processes[current].parent);
      Touched(current, replacement);
      processes := processes[current := replacement];
      return 0;
    }

    // -------------------------------------------------------------- waiting

    /** `reap_child`: the first matching zombie, unless its status cannot be delivered. */
    method ReapChild(wanted: int, copied: bool) returns (collected: Option<nat>, foundAny: bool, word: nat)
      requires Valid() && !halted
      modifies this`processes, this`lineage
      ensures Valid()
      ensures old(Waits(processes)) ==> Waits(processes)
      ensures foundAny <==> HasChild(old(processes), old(processes)[current].pid, wanted)
      ensures collected.Some? <==> FirstZombie(old(processes), old(processes)[current].pid, wanted) < MAX_PROCESSES && copied
      ensures collected.None? ==> processes == old(processes) && lineage == old(lineage)
      ensures collected.Some? ==>
        var z := FirstZombie(old(processes), old(processes)[current].pid, wanted);
        && Collected(old(processes), processes, old(lineage), lineage, current, z)
        && collected.value == old(processes)[z].pid
        && word < 0x1_0000 && word % 256 == 0 && word / 256 == old(processes)[z].exitStatus % 256
    {
      hide Counted, Slots, Waits, Reconciled, Runnable;
      ghost var ps := processes;
      Books(processes, lineage);
      var parent := processes[current].pid;
      var zombie := MAX_PROCESSES;
      foundAny := false;
      for s := 0 to MAX_PROCESSES
        invariant foundAny <==> exists k :: 0 <= k < s && Matches(ps[k], parent, wanted)
        invariant zombie == MAX_PROCESSES || (0 <= zombie < s && Matches(ps[zombie], parent, wanted) && ps[zombie].zombie)
        invariant forall k | 0 <= k < s && k < zombie :: !(Matches(ps[k], parent, wanted) && ps[k].zombie)
      {
        if Matches(processes[s], parent, wanted) {
          foundAny := true;
          if processes[s].zombie && zombie == MAX_PROCESSES {
            zombie := s;
          }
        }
      }
      FirstZombieIs(ps, parent, wanted, zombie);
      if zombie == MAX_PROCESSES || !copied {
        return None, foundAny, 0;
      }
      var pid := processes[zombie].pid;
      word := (processes[zombie].exitStatus % 256) * 256;
      ghost var handover := Handover(lineage.births[zombie], processes[zombie].exitStatus, lineage.births[current]);
      NotSelf(ps, current, zombie);
      ReapKeeps(ps, zombie);
      ReapReconciles(ps, lineage, zombie, current);
      ReapedEndless(ps, tables, zombie);
      FreeSlotOf(pid, zombie);
      lineage := lineage.(reaped := lineage.reaped + [handover]);
      return Some(pid), foundAny, word;
    }

    /** The slot is found again by pid and emptied. */
    method FreeSlotOf(pid: nat, ghost slot: nat)
      requires Slots(processes) && slot < MAX_PROCESSES && processes[slot].active && processes[slot].pid == pid
      modifies this`processes
      ensures processes == old(processes)[slot := EMPTY_PROCESS]
    {
      for s := 0 to MAX_PROCESSES
        invariant processes == old(processes) && s <= slot
      {
        if processes[s].active && processes[s].pid == pid {
          processes := processes[s := EMPTY_PROCESS];
          return;
        }
      }
    }

    /** `waitpid`.  A specific child is waited for without fail.  The state stays sound exactly unless the caller
      * ends up waiting for what never comes: any child at all, or a zombie whose status could not be delivered. */
    method WaitPid(wanted: int, noHang: bool, copied: bool) returns (rax: int, word: nat)
      requires Valid() && !halted
      modifies this`processes, this`lineage, this`current, this`halted
      ensures Valid()
      ensures old(Waits(processes)) && !WaitsInVain(old(processes), old(current), wanted, noHang, copied) ==>
        Waits(processes)
      ensures WaitsInVain(old(processes), old(current), wanted, noHang, copied) && MaxPid(old(processes)) < USIZE_MAX ==>
        !Waits(processes)
      ensures rax > 0 ==>
        exists z :: 0 <= z < MAX_PROCESSES
          && old(processes)[z].active && old(processes)[z].zombie && old(processes)[z].pid == rax
          && old(processes)[z].parent == old(processes)[old(current)].pid && (wanted > 0 ==> rax == wanted)
          && word < 0x1_0000 && word % 256 == 0 && |old(lineage).births| == MAX_PROCESSES
          && old(lineage).births[z] in old(lineage).finished
          && word / 256 == old(lineage).finished[old(lineage).births[z]] % 256
      ensures rax == ECHILD <==>
        forall s | 0 <= s < MAX_PROCESSES && old(processes)[s].active
                   && old(processes)[s].parent == old(processes)[old(current)].pid ::
          wanted > 0 && old(processes)[s].pid != wanted
      ensures
        var parent, z := old(processes)[old(current)].pid,
          FirstZombie(old(processes), old(processes)[old(current)].pid, wanted);
        if z < MAX_PROCESSES && copied then
          && rax == old(processes)[z].pid
          && Collected(old(processes), processes, old(lineage), lineage, old(current), z)
          && current == old(current) && !halted
        else if !HasChild(old(processes), parent, wanted) then
          rax == ECHILD && processes == old(processes) && lineage == old(lineage) && current == old(current) && !halted
        else if noHang then
          rax == 0 && processes == old(processes) && lineage == old(lineage) && current == old(current) && !halted
        else
          && rax == EAGAIN && lineage == old(lineage)
          && processes == old(processes)[old(current) :=
               old(processes)[old(current)].(waitingFor := if wanted > 0 then wanted else USIZE_MAX)]
          && (!halted ==> NextRunnable(processes, old(current), current))
          && (halted ==> !SomeRunnable(processes))
    {
      hide Counted, Slots, Waits, Reconciled, Runnable, NextRunnable, SomeRunnable, Collected;
      Books(processes, lineage);
      ghost var ps, l, parent := processes, lineage, processes[current].pid;
      var reaped, foundAny;
      reaped, foundAny, word := ReapChild(wanted, copied);
      if reaped.Some? {
        ZombieFinished(ps, l, FirstZombie(ps, parent, wanted));
        return reaped.value, word;
      }
      if !foundAny {
        return ECHILD, word;
      }
      if noHang {
        return 0, word;
      }
      var target: nat := if wanted > 0 then wanted else USIZE_MAX;
      processes := processes[current := processes[current].(waitingFor := target)];
      WaitingBooks(ps, l, tables, current, wanted, copied);
      Schedule();
      return EAGAIN, word;
    }

    // -------------------------------------------------------------- descriptors

    /** A descriptor in flight gets the lowest free slot of the running process. */
    method AllocateDescriptor(d: Descriptor, ghost extra: Table) returns (r: Option<nat>)
      requires current < |tables| && Counted(tables, pipes.table, extra + [d]) && |extra| < MAX_IN_FLIGHT
      requires d.kind != Closed
      modifies this`tables
      ensures r.None? <==> FirstFree(old(tables)[current]) == MAX_OPEN_FDS
      ensures r.None? ==> tables == old(tables)
      ensures r.Some? ==>
        && r.value == FirstFree(old(tables)[current]) < MAX_OPEN_FDS
        && tables == old(tables)[current := old(tables)[current][r.value := d]]
        && Counted(tables, pipes.table, extra)
    {
      SizeOf(tables, pipes.table, extra + [d]);
      var table := tables[current];
      for fd := 3 to MAX_OPEN_FDS
        invariant forall k | 3 <= k < fd :: table[k].kind != Closed
      {
        hide Counted;
        if table[fd].kind == Closed {
          StoreCounts(tables, pipes.table, extra, current, fd, d);
          tables := tables[current := table[fd := d]];
          PlainInFlight(tables, pipes.table, extra, table[fd]);
          FirstFreeIs(table, fd);
          return Some(fd);
        }
      }
      return None;
    }

    /** `close`. */
    method CloseDescriptor(fd: nat) returns (ok: bool)
      requires Valid() && !halted
      modifies this`tables, pipes`table
      ensures Valid()
      ensures ok <==> fd < MAX_OPEN_FDS && old(tables)[current][fd].kind != Closed
      ensures tables == if ok then old(tables)[current := old(tables)[current][fd := CLOSED]] else old(tables)
      ensures !ok ==> pipes.table == old(pipes.table)
    {
      hide Counted, Slots, Waits, Reconciled, Runnable;
      SizeOf(tables, pipes.table, []);
      Books(processes, lineage);
      if fd >= MAX_OPEN_FDS || tables[current][fd].kind == Closed {
        return false;
      }
      DropDescriptor(current, fd);
      RunnerTables(processes, old(tables), current, tables[current]);
      return true;
    }

    /** `dup`. */
    method Duplicate(fd: nat) returns (rax: int)
      requires Valid() && !halted
      modifies this`tables, pipes`table
      ensures Valid()
      ensures rax ==
        if fd >= MAX_OPEN_FDS || old(tables)[current][fd].kind == Closed then EBADF
        else if FirstFree(old(tables)[current]) == MAX_OPEN_FDS then EMFILE
        else FirstFree(old(tables)[current])
      ensures tables ==
        if rax >= 0 then old(tables)[current := old(tables)[current][rax := old(tables)[current][fd]]] else old(tables)
      ensures rax < 0 ==> SameEnds(old(pipes.table), pipes.table)
    {
      hide Counted, Slots, Waits, Reconciled, Runnable, SameEnds, SameOpen;
      SizeOf(tables, pipes.table, []);
      Books(processes, lineage);
      SameOpenRefl(tables);
      SameOpenSameEnds(tables, pipes.table, tables, pipes.table);
      if fd >= MAX_OPEN_FDS {
        return EBADF;
      }
      var d := tables[current][fd];
      if d.kind == Closed {
        return EBADF;
      }
      if IsEnd(d) {
        NamedIsOpen(tables, pipes.table, [], current, fd);
      }
      ghost var was := pipes.table;
      TakeCounts(tables, pipes.table, [], d);
      var taken := TakeReference(d);
      if taken.Err? {
        return EBADF;
      }
      var slot := AllocateDescriptor(d, []);
      if slot.None? {
        GiveCounts(tables, pipes.table, [], d);
        GiveReference(d);
        SameOpenSameEnds(tables, was, tables, pipes.table);
        return EMFILE;
      }
      RunnerTables(processes, old(tables), current, tables[current]);
      return slot.value;
    }

    /** `dup2`: the new reference is counted before the old one in the slot is given up. */
    method DuplicateTo(source: nat, target: nat) returns (rax: int)
      requires Valid() && !halted
      modifies this`tables, pipes`table
      ensures Valid()
      ensures rax ==
        if target >= MAX_OPEN_FDS || source >= MAX_OPEN_FDS || old(tables)[current][source].kind == Closed then EBADF
        else target
      ensures tables ==
        if rax >= 0 then old(tables)[current := old(tables)[current][target := old(tables)[current][source]]] else old(tables)
      ensures rax < 0 ==> pipes.table == old(pipes.table)
    {
      hide Counted, Slots, Waits, Reconciled, Runnable;
      SizeOf(tables, pipes.table, []);
      Books(processes, lineage);
      if target >= MAX_OPEN_FDS || source >= MAX_OPEN_FDS {
        return EBADF;
      }
      var d := tables[current][source];
      if d.kind == Closed {
        return EBADF;
      }
      if source == target {
        assert tables[current][target := d] == tables[current];
        return target;
      }
      if IsEnd(d) {
        NamedIsOpen(tables, pipes.table, [], current, source);
      }
      TakeCounts(tables, pipes.table, [], d);
      var taken := TakeReference(d);
      if taken.Err? {
        return EBADF;
      }
      var displaced := tables[current][target];
      StoreCounts(tables, pipes.table, [], current, target, d);
      GiveCounts(tables[current := tables[current][target := d]], pipes.table, [], displaced);
      GiveReference(displaced);
      tables := tables[current := tables[current][target := d]];
      RunnerTables(processes, old(tables), current, tables[current]);
      return target;
    }

    /** `pipe`: both ends or neither.  On every way back the descriptors are as before and the pipe is closed again. */
    method CreatePipe(copied: bool) returns (rax: int, readFd: nat, writeFd: nat)
      requires Valid() && !halted
      modifies this`tables, pipes
      ensures Valid()
      ensures rax == ENFILE <==> forall id | 0 <= id < MAX_PIPES :: old(pipes.Open(id))
      ensures rax != ENFILE ==> (rax == EMFILE <==> !TwoFree(old(tables)[current]))
      ensures rax == 0 || rax == ENFILE || rax == EMFILE || (rax == EFAULT && !copied)
      ensures rax == 0 ==>
        copied && exists id :: PipeMade(old(tables), tables, old(pipes.table), current, id, readFd, writeFd)
      ensures rax != 0 ==> SameOpen(old(tables), tables) && SameEnds(old(pipes.table), pipes.table)
    {
      hide Counted, Slots, Waits, Reconciled, Runnable, SameEnds, SameOpen, FirstFree, DeadHoldNone, PipeMade, TwoFree;
      SizeOf(tables, pipes.table, []);
      Books(processes, lineage);
      TablesFit(processes, tables);
      ghost var was, ends := tables, pipes.table;
      SameOpenRefl(was);
      SameOpenSameEnds(was, ends, was, ends);
      assert forall k | 0 <= k < MAX_PIPES :: pipes.Open(k) == ends[k].open;
      var created := pipes.Create();
      if created.Err? {
        return ENFILE, 0, 0;
      }
      var id := created.value;
      var reader, writer := Descriptor(PipeRead, id, 0), Descriptor(PipeWrite, id, 0);
      CreatedCounts(was, ends, pipes.table, id, reader, writer);
      TwoFreeMeans(was[current], reader);
      assert [writer] + [] == [writer];
      var readEnd := AllocateDescriptor(reader, [writer]);
      var writeEnd := AllocateWriter(writer, if readEnd.Some? then [] else [reader], reader);
      if readEnd.None? || writeEnd.None? {
        RollBack(readEnd, writeEnd, id, reader, writer, was);
        RunnerTables(processes, was, current, tables[current]);
        SameOpenSameEnds(was, ends, tables, pipes.table);
        return EMFILE, 0, 0;
      }
      if !copied {
        DropBoth(readEnd.value, writeEnd.value, reader, writer, was);
        RunnerTables(processes, was, current, tables[current]);
        SameOpenSameEnds(was, ends, tables, pipes.table);
        return EFAULT, 0, 0;
      }
      RunnerTables(processes, was, current, tables[current]);
      BothPlaced(was, tables, ends, current, id, readEnd.value, reader, writeEnd.value, writer);
      return 0, readEnd.value, writeEnd.value;
    }

    /** The two ends are closed again where the caller could not be told of them. */
    method DropBoth(readFd: nat, writeFd: nat, ghost reader: Descriptor, ghost writer: Descriptor,
                    ghost was: seq<Table>)
      requires pipes.Valid() && Counted(tables, pipes.table, []) && current < |was| && |was[current]| == MAX_OPEN_FDS
      requires readFd < MAX_OPEN_FDS && writeFd < MAX_OPEN_FDS && readFd != writeFd
      requires was[current][readFd].kind == Closed && was[current][writeFd].kind == Closed
      requires tables == was[current := was[current][readFd := reader][writeFd := writer]]
      modifies this`tables, pipes`table
      ensures pipes.Valid() && Counted(tables, pipes.table, [])
      ensures SameOpen(was, tables) && |tables| == |was| && tables == was[current := tables[current]]
    {
      hide Counted, SameOpen;
      ghost var made := tables;
      DropDescriptor(current, readFd);
      DropDescriptor(current, writeFd);
      DroppedBoth(was, made, tables, current, readFd, writeFd, reader, writer);
    }

    /** The second end; the list of references in flight is put in the order in which they may be given back. */
    method AllocateWriter(d: Descriptor, ghost extra: Table, ghost reader: Descriptor) returns (r: Option<nat>)
      requires current < |tables| && d.kind == PipeWrite && (extra == [] || extra == [reader])
      requires Counted(tables, pipes.table, [d] + extra)
      modifies this`tables
      ensures r.None? <==> FirstFree(old(tables)[current]) == MAX_OPEN_FDS
      ensures r.None? ==> tables == old(tables)
      ensures r.Some? ==>
        && r.value == FirstFree(old(tables)[current]) < MAX_OPEN_FDS
        && tables == old(tables)[current := old(tables)[current][r.value := d]]
        && Counted(tables, pipes.table, extra)
    {
      if extra == [reader] {
        SwapInFlight(tables, pipes.table, d, reader);
        assert [reader] + [d] == extra + [d];
      } else {
        assert [d] + extra == extra + [d];
      }
      r := AllocateDescriptor(d, extra);
    }

    /** The descriptors that were allocated are closed, then both ends of the pipe once more, which does nothing to an
      * end already given back. */
    method RollBack(readEnd: Option<nat>, writeEnd: Option<nat>, id: nat, reader: Descriptor, writer: Descriptor,
                    ghost was: seq<Table>)
      requires pipes.Valid() && current < |was| && Sized(was)
      requires reader == Descriptor(PipeRead, id, 0) && writer == Descriptor(PipeWrite, id, 0)
      requires id < MAX_PIPES && pipes.table[id] == EmptyPipe().(open := true, readers := 1, writers := 1)
      requires readEnd.None? || writeEnd.None?
      requires readEnd.None? && writeEnd.None? ==> tables == was && Counted(tables, pipes.table, [writer] + [reader])
      requires readEnd.Some? ==>
        Placed(was, tables, current, readEnd.value, reader) && Counted(tables, pipes.table, [writer])
      requires writeEnd.Some? ==>
        Placed(was, tables, current, writeEnd.value, writer) && Counted(tables, pipes.table, [reader])
      modifies this`tables, pipes`table
      ensures pipes.Valid() && Counted(tables, pipes.table, []) && SameOpen(was, tables)
      ensures |tables| == |was| && tables == was[current := tables[current]]
    {
      hide Counted;
      if readEnd.Some? {
        DropInFlight(current, readEnd.value, [writer]);
      }
      if writeEnd.Some? {
        DropInFlight(current, writeEnd.value, [reader]);
      }
      assert SameOpen(was, tables);
      ghost var ends := pipes.table;
      pipes.CloseReader(id);
      ReaderClosed(tables, ends, pipes.table, readEnd.Some?, writeEnd.Some?, id, reader, writer);
      ghost var halfway := pipes.table;
      pipes.CloseWriter(id);
      WriterClosed(tables, halfway, pipes.table, writeEnd.Some?, id, writer);
    }

    method DropInFlight(slot: nat, fd: nat, ghost extra: Table)
      requires pipes.Valid() && Counted(tables, pipes.table, extra) && slot < |tables| && fd < MAX_OPEN_FDS
      requires |extra| < MAX_IN_FLIGHT
      modifies this`tables, pipes`table
      ensures pipes.Valid() && Counted(tables, pipes.table, extra)
      ensures tables == old(tables)[slot := old(tables)[slot][fd := CLOSED]]
      ensures pipes.table == Given(old(pipes.table), old(tables)[slot][fd])
    {
      var d := tables[slot][fd];
      PlainInFlight(tables, pipes.table, extra, CLOSED);
      StoreCounts(tables, pipes.table, extra, slot, fd, CLOSED);
      GiveCounts(tables[slot := tables[slot][fd := CLOSED]], pipes.table, extra, d);
      hide Counted, Given;
      GiveReference(d);
      tables := tables[slot := tables[slot][fd := CLOSED]];
    }

    /** `open`: the path, the flags and the file are checked first, the file being made or emptied on the way; then the
      * descriptor takes the lowest free slot. */
    method OpenFile(flags: nat, facts: FileFacts) returns (rax: int, created: bool, emptied: bool)
      requires Valid() && !halted
      modifies this`tables
      ensures Valid()
      ensures created == Creates(flags, facts) && emptied == Empties(flags, facts)
      ensures OpenVerdict(flags, facts).Err? ==> rax == OpenVerdict(flags, facts).error
      ensures OpenVerdict(flags, facts).Ok? ==>
        rax == if FirstFree(old(tables)[current]) == MAX_OPEN_FDS then EMFILE else FirstFree(old(tables)[current])
      ensures rax < 0 ==> tables == old(tables)
      ensures rax >= 0 ==>
        && |tables[current]| == MAX_OPEN_FDS && rax < MAX_OPEN_FDS
        && tables == old(tables)[current := old(tables)[current][rax := tables[current][rax]]]
        && (Has(flags, OPEN_APPEND) ==> facts.length.Ok?)
        && tables[current][rax] == Descriptor(File, 0, if Has(flags, OPEN_APPEND) then facts.length.value else 0)
    {
      hide Counted, Slots, Waits, Reconciled, Runnable;
      var cursor;
      cursor, created, emptied := Admit(flags, facts);
      if cursor.Err? {
        return cursor.error, created, emptied;
      }
      SizeOf(tables, pipes.table, []);
      Books(processes, lineage);
      TablesFit(processes, tables);
      var d := Descriptor(File, 0, cursor.value);
      CursorStands(flags, facts);
      PlainInFlight(tables, pipes.table, [], d);
      var slot := AllocateDescriptor(d, []);
      if slot.None? {
        return EMFILE, created, emptied;
      }
      RunnerTables(processes, old(tables), current, tables[current]);
      return slot.value, created, emptied;
    }

    /** The checks of `open`, with what they do to the file. */
    method Admit(flags: nat, facts: FileFacts) returns (r: Result<nat, Errno>, created: bool, emptied: bool)
      ensures r == OpenVerdict(flags, facts)
      ensures created == Creates(flags, facts) && emptied == Empties(flags, facts)
    {
      hide Has;
      created, emptied := false, false;
      if facts.path.Err? {
        return Err(facts.path.error), created, emptied;
      }
      if BadFlags(flags) {
        return Err(EINVAL), created, emptied;
      }
      if facts.directory {
        return Err(EISDIR), created, emptied;
      }
      if facts.present && Has(flags, OPEN_CREATE) && Has(flags, OPEN_EXCLUSIVE) {
        return Err(EEXIST), created, emptied;
      }
      if facts.present && ((Has(flags, OPEN_READ) && !facts.mayRead) || (Has(flags, OPEN_WRITE) && !facts.mayWrite)) {
        return Err(EACCES), created, emptied;
      }
      if !facts.present && Has(flags, OPEN_CREATE) && !facts.mayCreate {
        return Err(EACCES), created, emptied;
      }
      if !facts.present {
        if !Has(flags, OPEN_CREATE) {
          return Err(ENOENT), created, emptied;
        }
        if facts.create.Err? {
          return Err(facts.create.error), created, emptied;
        }
        created := true;
      }
      if Has(flags, OPEN_TRUNCATE) {
        if facts.truncate.Err? {
          return Err(facts.truncate.error), created, emptied;
        }
        emptied := true;
      }
      if Has(flags, OPEN_APPEND) {
        return facts.length, created, emptied;
      }
      return Ok(0), created, emptied;
    }

    /** `lseek`: only the cursor of an open file moves. */
    method SeekFd(fd: nat, whence: nat, distance: int, fileLength: Result<nat, Errno>) returns (rax: int)
      requires Valid() && !halted
      modifies this`tables
      ensures Valid()
      ensures
        var t := old(tables)[current];
        rax == if fd >= MAX_OPEN_FDS || t[fd].kind == Closed then EBADF
          else if t[fd].kind != File then ESPIPE
          else if whence > 2 then EINVAL
          else if whence == 2 && fileLength.Err? then fileLength.error
          else
            var to := distance + if whence == 0 then 0 else if whence == 1 then t[fd].offset else fileLength.value;
            if 0 <= to <= USIZE_MAX then to else EINVAL
      ensures tables ==
        if rax >= 0 then old(tables)[current := old(tables)[current][fd := Descriptor(File, old(tables)[current][fd].pipe, rax)]]
        else old(tables)
    {
      hide Counted, Slots, Waits, Reconciled, Runnable;
      SizeOf(tables, pipes.table, []);
      Books(processes, lineage);
      TablesFit(processes, tables);
      if fd >= MAX_OPEN_FDS || tables[current][fd].kind == Closed {
        return EBADF;
      }
      var d := tables[current][fd];
      if d.kind != File {
        return ESPIPE;
      }
      if whence > 2 {
        return EINVAL;
      }
      if whence == 2 && fileLength.Err? {
        return fileLength.error;
      }
      var from := if whence == 0 then 0 else if whence == 1 then d.offset else fileLength.value;
      var offset := from + distance;
      if offset < 0 || offset > USIZE_MAX {
        return EINVAL;
      }
      var moved := d.(offset := offset);
      PlainInFlight(tables, pipes.table, [], moved);
      StoreCounts(tables, pipes.table, [], current, fd, moved);
      PlainInFlight(tables[current := tables[current][fd := moved]], pipes.table, [], d);
      RunnerTables(processes, tables, current, tables[current][fd := moved]);
      tables := tables[current := tables[current][fd := moved]];
      return offset;
    }

    /** `read` on a pipe: a read that asks for something returns 0 exactly when everything that was written has
      * been read and no process holds a write end.  Bytes that cannot be copied to the caller are gone. */
    method ReadPipe(fd: nat, output: array<byte>, copied: bool) returns (rax: int)
      requires Valid() && !halted
      requires fd < MAX_OPEN_FDS ==> tables[current][fd].kind !in {Stdin, File}
      modifies pipes, output
      ensures Valid() && SameEnds(old(pipes.table), pipes.table) && pipes.accepted == old(pipes.accepted)
      ensures output.Length > MAX_READ_BUFFER ==> rax == EINVAL
      ensures output.Length == 0 ==> rax == 0
      ensures 0 < output.Length <= MAX_READ_BUFFER && !HoldsEnd(tables[current], fd, PipeRead) ==> rax == EBADF
      ensures 0 < output.Length <= MAX_READ_BUFFER && HoldsEnd(tables[current], fd, PipeRead) ==>
        && var id := tables[current][fd].pipe;
        && id < MAX_PIPES && |pipes.delivered| == |pipes.accepted| == MAX_PIPES
        && var n := Min(output.Length, |pipes.accepted[id]| - |old(pipes.delivered)[id]|);
        && (rax == 0 <==> old(pipes.delivered)[id] == pipes.accepted[id] && NoEndLeft(tables, PipeWrite, id))
        && (rax == EAGAIN <==> old(pipes.delivered)[id] == pipes.accepted[id] && !NoEndLeft(tables, PipeWrite, id))
        && (old(pipes.delivered)[id] != pipes.accepted[id] ==>
              && 0 < n <= output.Length && rax == (if copied then n else EFAULT)
              && Appended(old(pipes.delivered), pipes.delivered, id, output[..n]))
      ensures rax <= 0 && rax != EFAULT ==> pipes.delivered == old(pipes.delivered) && output[..] == old(output[..])
    {
      hide Buffered, RingOk, Slots, Waits, Reconciled, Counted, DeadHoldNone, Appended, NoEndLeft, One;
      TablesFit(processes, tables);
      Books(processes, lineage);
      SizeOf(tables, pipes.table, []);
      ghost var ends := pipes.table;
      if output.Length > MAX_READ_BUFFER {
        return EINVAL;
      }
      if output.Length == 0 {
        return 0;
      }
      if fd >= MAX_OPEN_FDS || tables[current][fd].kind != PipeRead {
        return EBADF;
      }
      var id := tables[current][fd].pipe;
      NamedIsOpen(tables, ends, [], current, fd);
      NoWritersMeans(tables, ends, id);
      EndLeft(tables, PipeWrite, id);
      NothingBuffered(pipes.accepted[id], pipes.delivered[id], Buffered(pipes.table[id]));
      var r := pipes.Read(id, output);
      SameEndsCount(tables, ends, pipes.table);
      if r.Err? {
        return EAGAIN;
      }
      if r.value == 0 {
        AppendedEmpty(old(pipes.delivered), pipes.delivered, id, output[..0]);
      } else if !copied {
        return EFAULT;
      }
      return r.value;
    }

    /** `write` on a pipe: what fits joins the end of the stream; without a reader it fails. */
    method WritePipe(fd: nat, input: seq<byte>, copied: bool) returns (rax: int)
      requires Valid() && !halted
      requires fd < MAX_OPEN_FDS ==> tables[current][fd].kind !in {Stdout, Stderr, File}
      modifies pipes
      ensures Valid() && SameEnds(old(pipes.table), pipes.table) && pipes.delivered == old(pipes.delivered)
      ensures |input| > MAX_READ_BUFFER ==> rax == EINVAL
      ensures |input| <= MAX_READ_BUFFER && (fd >= MAX_OPEN_FDS || tables[current][fd].kind == Closed) ==> rax == EBADF
      ensures |input| <= MAX_READ_BUFFER && fd < MAX_OPEN_FDS && tables[current][fd].kind != Closed ==>
        if input != [] && !copied then rax == EFAULT
        else if tables[current][fd].kind != PipeWrite then rax == EBADF
        else
          && var id := tables[current][fd].pipe;
          && id < MAX_PIPES && |pipes.delivered| == |old(pipes.accepted)| == MAX_PIPES
          && var space := PIPE_CAPACITY - (|old(pipes.accepted)[id]| - |pipes.delivered[id]|);
          && (rax == EPIPE <==> NoEndLeft(tables, PipeRead, id))
          && (rax == EAGAIN <==> !NoEndLeft(tables, PipeRead, id) && input != [] && space == 0)
          && (rax == EPIPE || rax == EAGAIN || rax == Min(|input|, space) >= 0)
          && (rax >= 0 ==> Appended(old(pipes.accepted), pipes.accepted, id, input[..rax]))
      ensures rax < 0 ==> pipes.accepted == old(pipes.accepted)
    {
      hide Buffered, RingOk, Slots, Waits, Reconciled, Counted, DeadHoldNone, Appended, NoEndLeft, One;
      TablesFit(processes, tables);
      Books(processes, lineage);
      SizeOf(tables, pipes.table, []);
      ghost var ends := pipes.table;
      if |input| > MAX_READ_BUFFER {
        return EINVAL;
      }
      if fd >= MAX_OPEN_FDS || tables[current][fd].kind == Closed {
        return EBADF;
      }
      if input != [] && !copied {
        return EFAULT;
      }
      if tables[current][fd].kind != PipeWrite {
        return EBADF;
      }
      var id := tables[current][fd].pipe;
      NamedIsOpen(tables, ends, [], current, fd);
      NoReadersMeans(tables, ends, id);
      EndLeft(tables, PipeRead, id);
      NothingBuffered(pipes.accepted[id], pipes.delivered[id], Buffered(pipes.table[id]));
      var r := pipes.Write(id, input);
      SameEndsCount(tables, ends, pipes.table);
      match r
      case Ok(n) => return n;
      case Err(Broken) => return EPIPE;
      case Err(_) => return EAGAIN;
    }
  }

  /** Nobody waits, and somebody else can run. */
  ghost predicate MayPreempt(ps: seq<Process>, current: nat) {
    && (forall s | 0 <= s < |ps| && ps[s].active :: ps[s].waitingFor == 0)
    && exists s :: 0 <= s < |ps| && s != current && Runnable(ps[s])
  }

  const ESPIPE: int := -29
  const MAX_READ_BUFFER := 4096

  predicate HoldsEnd(t: Table, fd: nat, kind: Kind) {
    fd < |t| && t[fd].kind == kind
  }

  /** No process holds such an end of the pipe. */
  ghost predicate NoEndLeft(ts: seq<Table>, kind: Kind, id: nat) {
    forall s | 0 <= s < |ts| :: NoEndIn(ts[s], kind, id)
  }

  ghost predicate NoEndIn(t: Table, kind: Kind, id: nat) {
    forall fd | 0 <= fd < |t| :: One(t[fd], kind, id) == 0
  }

  lemma EndLeft(ts: seq<Table>, kind: Kind, id: nat)
    ensures NoEndLeft(ts, kind, id) <==>
      forall s, fd | 0 <= s < |ts| && 0 <= fd < |ts[s]| :: One(ts[s][fd], kind, id) == 0
  {
    if NoEndLeft(ts, kind, id) {
      forall s, fd | 0 <= s < |ts| && 0 <= fd < |ts[s]|
        ensures One(ts[s][fd], kind, id) == 0
      {
        assert NoEndIn(ts[s], kind, id);
      }
    }
  }

  lemma NothingBuffered(accepted: seq<byte>, delivered: seq<byte>, buffered: seq<byte>)
    requires accepted == delivered + buffered
    ensures delivered == accepted <==> |buffered| == 0
    ensures |accepted| - |delivered| == |buffered|
  {
    if |buffered| == 0 {
      assert delivered + buffered == delivered;
    }
  }

  lemma SameEndsCount(ts: seq<Table>, p: seq<Pipe>, q: seq<Pipe>)
    requires Counted(ts, p, []) && SameEnds(p, q)
    ensures Counted(ts, q, [])
  {
    forall id | 0 <= id < MAX_PIPES
      ensures PipeCounted(q[id], ts, [], id)
    {
      assert PipeCounted(p[id], ts, [], id);
    }
  }

  lemma AppendedEmpty(a: seq<seq<byte>>, b: seq<seq<byte>>, id: nat, none: seq<byte>)
    requires Appended(a, b, id, none) && none == []
    ensures b == a
  {
    forall k | 0 <= k < |a|
      ensures b[k] == a[k]
    {
      assert a[id] + none == a[id];
    }
  }

  /** A slot that was free holds `d`. */
  ghost predicate Placed(was: seq<Table>, now: seq<Table>, current: nat, fd: nat, d: Descriptor) {
    && current < |was| && fd < |was[current]| && fd < MAX_OPEN_FDS && was[current][fd].kind == Closed
    && now == was[current := was[current][fd := d]]
  }

  /** Closing the read end of a pipe that is being given up, its descriptor dropped before or never there. */
  lemma ReaderClosed(ts: seq<Table>, ends: seq<Pipe>, after: seq<Pipe>, readGone: bool, writeGone: bool, id: nat,
                     reader: Descriptor, writer: Descriptor)
    requires reader == Descriptor(PipeRead, id, 0) && writer == Descriptor(PipeWrite, id, 0)
    requires id < |ends| && ends[id].open && !(readGone && writeGone) && after == ends[id := WithoutReader(ends[id])]
    requires ends[id].readers == (if readGone then 0 else 1) && ends[id].writers == (if writeGone then 0 else 1)
    requires Counted(ts, ends, if readGone then [writer] else if writeGone then [reader] else [writer] + [reader])
    ensures Counted(ts, after, if writeGone then [] else [writer])
    ensures writeGone ==> !after[id].open
    ensures !writeGone ==> after[id].open
  {
    hide Counted;
    if readGone {
      SameReader(ends[id]);
      assert after == ends;
    } else {
      assert [] + [reader] == [reader];
      GiveCounts(ts, ends, if writeGone then [] else [writer], reader);
    }
  }

  lemma WriterClosed(ts: seq<Table>, ends: seq<Pipe>, after: seq<Pipe>, writeGone: bool, id: nat, writer: Descriptor)
    requires writer == Descriptor(PipeWrite, id, 0) && id < |ends|
    requires ends[id].open == !writeGone
    requires after == if ends[id].open then ends[id := WithoutWriter(ends[id])] else ends
    requires Counted(ts, ends, if writeGone then [] else [writer])
    ensures Counted(ts, after, [])
  {
    hide Counted;
    if !writeGone {
      assert [] + [writer] == [writer];
      GiveCounts(ts, ends, [], writer);
    }
  }

  /** No read end is left to give back: closing it once more changes nothing while the write end is there. */
  lemma SameReader(p: Pipe)
    requires p.readers == 0 && p.writers == 1
    ensures WithoutReader(p) == p
  {}

  /** Two descriptors from 3 on are free. */
  ghost predicate TwoFree(t: Table) {
    exists r, w :: 3 <= r < w < |t| && t[r].kind == Closed && t[w].kind == Closed
  }

  lemma TwoFreeMeans(t: Table, d: Descriptor)
    requires |t| == MAX_OPEN_FDS && d.kind != Closed
    ensures TwoFree(t) <==> FirstFree(t) < |t| && FirstFree(t[FirstFree(t) := d]) < |t|
    ensures FirstFree(t) < |t| ==> FirstFree(t[FirstFree(t) := d]) != FirstFree(t)
    ensures FirstFree(t) < |t| && FirstFree(t[FirstFree(t) := d]) < |t| ==>
      t[FirstFree(t[FirstFree(t) := d])].kind == Closed
  {
    hide FirstFree;
    var r := FirstFree(t);
    if r < |t| {
      var u := t[r := d];
      var w := FirstFree(u);
      if w < |t| {
        assert u[w].kind == Closed && w != r;
        assert t[w].kind == Closed && r < w;
      }
    }
    if TwoFree(t) {
      var a, b :| 3 <= a < b < |t| && t[a].kind == Closed && t[b].kind == Closed;
      assert r <= a;
      var u := t[r := d];
      assert u[b].kind == Closed;
      assert FirstFree(u) <= b;
    }
  }

  /** The lowest closed pipe, its read end in the lowest free descriptor from 3 on and its write end in the next. */
  ghost predicate PipeMade(was: seq<Table>, now: seq<Table>, ends: seq<Pipe>, current: nat, id: nat, r: nat, w: nat) {
    && current < |was| && |was[current]| == MAX_OPEN_FDS && id < |ends| && !ends[id].open
    && (forall k | 0 <= k < id :: ends[k].open)
    && 3 <= r < w < MAX_OPEN_FDS && was[current][r].kind == Closed && was[current][w].kind == Closed
    && (forall k | 3 <= k < w && k != r :: was[current][k].kind != Closed)
    && now == was[current := was[current][r := Descriptor(PipeRead, id, 0)][w := Descriptor(PipeWrite, id, 0)]]
  }

  lemma BothPlaced(was: seq<Table>, now: seq<Table>, ends: seq<Pipe>, current: nat, id: nat, r: nat, reader: Descriptor,
                   w: nat, writer: Descriptor)
    requires current < |was| && |was[current]| == MAX_OPEN_FDS && id < |ends| && !ends[id].open
    requires forall k | 0 <= k < id :: ends[k].open
    requires reader == Descriptor(PipeRead, id, 0) && writer == Descriptor(PipeWrite, id, 0)
    requires r == FirstFree(was[current]) < MAX_OPEN_FDS && w == FirstFree(was[current][r := reader]) < MAX_OPEN_FDS
    requires now == was[current := was[current][r := reader][w := writer]]
    ensures PipeMade(was, now, ends, current, id, r, w)
  {
    hide FirstFree;
    var t, u := was[current], was[current][r := reader];
    assert u[w].kind == Closed;
    forall k | 3 <= k < w && k != r
      ensures t[k].kind != Closed
    {
      assert u[k].kind != Closed && u[k] == t[k];
    }
  }

  /** A new pipe starts with its two ends in flight. */
  lemma CreatedCounts(ts: seq<Table>, was: seq<Pipe>, now: seq<Pipe>, id: nat, reader: Descriptor, writer: Descriptor)
    requires Counted(ts, was, []) && id < MAX_PIPES && !was[id].open
    requires now == was[id := EmptyPipe().(open := true, readers := 1, writers := 1)]
    requires reader == Descriptor(PipeRead, id, 0) && writer == Descriptor(PipeWrite, id, 0)
    ensures Counted(ts, now, [writer] + [reader])
  {
    forall k | 0 <= k < MAX_PIPES
      ensures PipeCounted(now[k], ts, [writer] + [reader], k)
    {
      assert PipeCounted(was[k], ts, [], k);
      CountAppend([writer], reader, PipeRead, k);
      CountAppend([writer], reader, PipeWrite, k);
      CountAppend([], writer, PipeRead, k);
      CountAppend([], writer, PipeWrite, k);
      assert [] + [writer] == [writer];
    }
  }

  lemma SwapInFlight(ts: seq<Table>, pipes: seq<Pipe>, a: Descriptor, b: Descriptor)
    requires Counted(ts, pipes, [a] + [b])
    ensures Counted(ts, pipes, [b] + [a])
  {
    forall k | 0 <= k < MAX_PIPES
      ensures PipeCounted(pipes[k], ts, [b] + [a], k)
    {
      assert PipeCounted(pipes[k], ts, [a] + [b], k);
      CountAppend([a], b, PipeRead, k);
      CountAppend([a], b, PipeWrite, k);
      CountAppend([b], a, PipeRead, k);
      CountAppend([b], a, PipeWrite, k);
      CountAppend([], a, PipeRead, k);
      CountAppend([], a, PipeWrite, k);
      CountAppend([], b, PipeRead, k);
      CountAppend([], b, PipeWrite, k);
      assert [] + [a] == [a] && [] + [b] == [b];
    }
    assert ([a] + [b])[0] == a && ([a] + [b])[1] == b;
    forall k | 0 <= k < 2 && IsEnd(([b] + [a])[k])
      ensures ([b] + [a])[k].pipe < MAX_PIPES
    {
      assert ([b] + [a])[k] == ([a] + [b])[1 - k];
    }
  }

  lemma DroppedBoth(was: seq<Table>, made: seq<Table>, now: seq<Table>, current: nat, r: nat, w: nat,
                    reader: Descriptor, writer: Descriptor)
    requires current < |was| && |was[current]| == MAX_OPEN_FDS && r < MAX_OPEN_FDS && w < MAX_OPEN_FDS && r != w
    requires was[current][r].kind == Closed && was[current][w].kind == Closed
    requires made == was[current := was[current][r := reader][w := writer]]
    requires now == made[current := made[current][r := CLOSED][w := CLOSED]]
    ensures SameOpen(was, now) && now == was[current := now[current]]
  {}

  lemma SizeOf(ts: seq<Table>, pipes: seq<Pipe>, extra: Table)
    requires Counted(ts, pipes, extra)
    ensures |ts| <= MAX_PROCESSES && forall s | 0 <= s < |ts| :: |ts[s]| == MAX_OPEN_FDS
  {}

  lemma TablesFit(ps: seq<Process>, ts: seq<Table>)
    requires DeadHoldNone(ps, ts)
    ensures |ts| == |ps|
  {}

  lemma SameOpenRefl(ts: seq<Table>)
    ensures SameOpen(ts, ts)
  {}

  lemma {:induction false} FirstFreeIs(t: Table, fd: nat)
    requires 3 <= fd < |t| && t[fd].kind == Closed && forall k | 3 <= k < fd :: t[k].kind != Closed
    ensures FirstFree(t) == fd
  {}

  /** The running process is alive, so its table may hold pipe ends. */
  lemma RunnerTables(ps: seq<Process>, ts: seq<Table>, current: nat, t: Table)
    requires DeadHoldNone(ps, ts) && current < |ps| && Runnable(ps[current])
    ensures DeadHoldNone(ps, ts[current := t])
  {}

  /** A child of `parent` that `waitpid(wanted)` asks for. */
  predicate Matches(p: Process, parent: nat, wanted: int) {
    p.active && p.parent == parent && (wanted > 0 ==> p.pid == wanted)
  }

  ghost predicate HasChild(ps: seq<Process>, parent: nat, wanted: int) {
    exists s :: 0 <= s < |ps| && Matches(ps[s], parent, wanted)
  }

  /** The first slot with a matching zombie. */
  function FirstZombie(ps: seq<Process>, parent: nat, wanted: int): (z: nat)
    ensures z <= |ps| && (z < |ps| ==> Matches(ps[z], parent, wanted) && ps[z].zombie)
    ensures forall k :: 0 <= k < z ==> !(Matches(ps[k], parent, wanted) && ps[k].zombie)
  {
    if ps == [] then 0
    else
      var rest := FirstZombie(ps[..|ps| - 1], parent, wanted);
      assert forall s :: 0 <= s < |ps| - 1 ==> ps[s] == ps[..|ps| - 1][s];
      if rest < |ps| - 1 then rest
      else if Matches(ps[|ps| - 1], parent, wanted) && ps[|ps| - 1].zombie then |ps| - 1 else |ps|
  }

  /** The status of a zombie is on record as that of its birth; its pid is not 0. */
  lemma ZombieFinished(ps: seq<Process>, l: Lineage, z: nat)
    requires Slots(ps) && Reconciled(ps, l) && z < |ps| && ps[z].active && ps[z].zombie
    ensures |l.births| == MAX_PROCESSES && ps[z].pid > 0
    ensures l.births[z] in l.finished && l.finished[l.births[z]] == ps[z].exitStatus
  {
    assert SlotOk(ps[z]) && Recorded(ps[z], l.births[z], l);
  }

  lemma FirstZombieIs(ps: seq<Process>, parent: nat, wanted: int, z: nat)
    requires z <= |ps| && (z < |ps| ==> Matches(ps[z], parent, wanted) && ps[z].zombie)
    requires forall k | 0 <= k < z :: !(Matches(ps[k], parent, wanted) && ps[k].zombie)
    ensures FirstZombie(ps, parent, wanted) == z
  {}

  /** The call would block although no living child with the awaited pid exists: any child was asked for, which
    * is marked with a pid nobody has, or the child has ended already but its status cannot be delivered. */
  ghost predicate WaitsInVain(ps: seq<Process>, current: nat, wanted: int, noHang: bool, copied: bool) {
    && current < |ps| && !noHang && HasChild(ps, ps[current].pid, wanted)
    && var z := FirstZombie(ps, ps[current].pid, wanted);
    (z < |ps| && !copied) || (z == |ps| && wanted <= 0)
  }

  /** Whoever waits for a pid that no living process has keeps waiting: no end of a living process releases it,
    * and no new process will ever have the pid of an ended one that still occupies a slot. */
  ghost predicate Hopeless(ps: seq<Process>, s: nat) {
    && s < |ps| && ps[s].active && ps[s].waitingFor != 0
    && forall t | 0 <= t < |ps| && Alive(ps[t]) :: ps[t].pid != ps[s].waitingFor
  }

  /** Whoever waits in vain waits for nobody. */
  lemma VainWait(ps: seq<Process>, current: nat, wanted: int, copied: bool)
    requires Slots(ps) && current < |ps| && Runnable(ps[current]) && MaxPid(ps) < USIZE_MAX
    requires WaitsInVain(ps, current, wanted, false, copied)
    ensures var after := ps[current := ps[current].(waitingFor := if wanted > 0 then wanted else USIZE_MAX)];
      Hopeless(after, current) && !Waits(after)
  {
    hide HasChild, FirstZombie, MaxPid;
    var z := FirstZombie(ps, ps[current].pid, wanted);
    var p := ps[current].(waitingFor := if wanted > 0 then wanted else USIZE_MAX);
    var after := ps[current := p];
    forall t: nat
      ensures !Awaited(after, p, t)
    {
      if t < |ps| {
        assert after[t].pid == ps[t].pid <= MaxPid(ps) && after[t].active == ps[t].active;
        assert wanted > 0 && ps[t].active && ps[t].pid == wanted ==> t == z;
      }
    }
    assert after[current] == p && !WaitOk(after, p);
  }

  lemma WaitingBooks(ps: seq<Process>, l: Lineage, ts: seq<Table>, current: nat, wanted: int, copied: bool)
    requires Slots(ps) && Reconciled(ps, l) && DeadHoldNone(ps, ts)
    requires current < |ps| && Runnable(ps[current])
    requires HasChild(ps, ps[current].pid, wanted)
    requires FirstZombie(ps, ps[current].pid, wanted) == |ps| || !copied
    ensures var after := ps[current := ps[current].(waitingFor := if wanted > 0 then wanted else USIZE_MAX)];
      && Slots(after) && Reconciled(after, l) && DeadHoldNone(after, ts)
      && (Waits(ps) && !WaitsInVain(ps, current, wanted, false, copied) ==> Waits(after))
      && (WaitsInVain(ps, current, wanted, false, copied) && MaxPid(ps) < USIZE_MAX ==> !Waits(after))
  {
    hide MaxPid, Reconciled, HasChild, FirstZombie;
    var parent := ps[current].pid;
    var p := ps[current].(waitingFor := if wanted > 0 then wanted else USIZE_MAX);
    assert SlotOk(ps[current]);
    TouchReconciles(ps, l, current, p);
    if WaitsInVain(ps, current, wanted, false, copied) {
      if MaxPid(ps) < USIZE_MAX {
        VainWait(ps, current, wanted, copied);
      }
    } else {
      var k := SomeChild(ps, parent, wanted);
      assert Alive(ps[k]);
      WaitKeeps(ps, current, k);
    }
  }

  lemma SomeChild(ps: seq<Process>, parent: nat, wanted: int) returns (k: nat)
    requires HasChild(ps, parent, wanted)
    ensures k < |ps| && Matches(ps[k], parent, wanted)
  {
    k :| 0 <= k < |ps| && Matches(ps[k], parent, wanted);
  }

  lemma NotSelf(ps: seq<Process>, current: nat, z: nat)
    requires current < |ps| && z < |ps| && Runnable(ps[current]) && ps[z].zombie
    ensures current != z && Runnable(ps[z := EMPTY_PROCESS][current]) && ps[current].active
  {}

  lemma ReapedEndless(ps: seq<Process>, ts: seq<Table>, z: nat)
    requires DeadHoldNone(ps, ts) && z < |ps| && ps[z].zombie
    ensures DeadHoldNone(ps[z := EMPTY_PROCESS], ts)
  {}

  /** The zombie's slot is free, and its status was handed to the process that created it. */
  ghost predicate Collected(was: seq<Process>, now: seq<Process>, l: Lineage, m: Lineage, current: nat, z: nat) {
    && z < |was| && z < |l.births| && current < |l.births|
    && now == was[z := EMPTY_PROCESS]
    && m == l.(reaped := l.reaped + [Handover(l.births[z], was[z].exitStatus, l.births[current])])
    && l.births[current] == CreatorOf(l, l.births[z])
    && (forall i | 0 <= i < |l.reaped| :: l.reaped[i].child != l.births[z])
  }

  lemma StillRunnable(ps: seq<Process>, s: nat)
    requires s < |ps| && Runnable(ps[s])
    ensures SomeRunnable(ps)
  {}

  /** A running process has a pid of its own, and is not in the idle slot. */
  lemma RunnerAlive(ps: seq<Process>, current: nat, slot: nat)
    requires |ps| == MAX_PROCESSES && current < |ps| && slot < |ps| && Runnable(ps[current]) && !ps[slot].active
    ensures ps[current].active && Alive(ps[current]) && current != slot && !Alive(ps[slot])
    ensures ps[current].pid <= MaxPid(ps)
  {}

  lemma BornRuns(ps: seq<Process>, after: seq<Process>, current: nat, slot: nat)
    requires |ps| == |after| && current < |ps| && slot != current && Runnable(ps[current])
    requires slot < |ps| && after == ps[slot := after[slot]]
    ensures Runnable(after[current])
  {}

  const SIGNAL_HUP := 1
  const SIGNAL_INT := 2
  const SIGNAL_KILL := 9
  const SIGNAL_SEGV := 11
  const SIGNAL_TERM := 15
  const SIGNAL_CONT := 18
  const SIGNAL_STOP := 19

  /** The process with that pid is no longer stopped, and nothing else has changed. */
  ghost predicate Resumed(was: seq<Process>, now: seq<Process>, pid: nat) {
    exists s :: 0 <= s < |was| && was[s].active && was[s].pid == pid && now == was[s := was[s].(stopped := false)]
  }

  lemma Books(ps: seq<Process>, l: Lineage)
    requires Slots(ps) && Reconciled(ps, l)
    ensures |ps| == MAX_PROCESSES == |l.births|
    ensures forall s | 0 <= s < MAX_PROCESSES :: SlotOk(ps[s])
  {}

  /** Marking the process a zombie and then releasing its waiters is ending it. */
  lemma EndedIs(was: seq<Process>, slot: nat, now: seq<Process>)
    requires slot < |was| == |now| && was[slot].waitingFor == 0
    requires forall s | 0 <= s < |was| ::
      now[s] == Released(was[slot := Zombified(was[slot])][s], was[slot].pid)
    ensures now == Ended(was, slot)
  {}

  lemma HaltedMeans(ps: seq<Process>)
    requires Slots(ps) && Waits(ps) && !SomeRunnable(ps)
    ensures !SomeAlive(ps) || SomeStopped(ps)
  {
    if SomeAlive(ps) {
      SomebodyRuns(ps);
    }
  }

  lemma BootCounts(ts: seq<Table>, pipes: seq<Pipe>)
    requires ts == seq(MAX_PROCESSES, _ => FreshTable())
    requires |pipes| == MAX_PIPES && forall id | 0 <= id < MAX_PIPES :: pipes[id] == EmptyPipe()
    ensures Counted(ts, pipes, [])
  {
    forall id | 0 <= id < MAX_PIPES
      ensures PipeCounted(pipes[id], ts, [], id)
    {
      forall s | 0 <= s < |ts|
        ensures CountIn(ts[s], PipeRead, id) == 0 && CountIn(ts[s], PipeWrite, id) == 0
      {
        CountNone(ts[s], PipeRead, id);
        CountNone(ts[s], PipeWrite, id);
      }
      TotalNone(ts, PipeRead, id);
      TotalNone(ts, PipeWrite, id);
    }
  }
}
