/** Any sequence of calls the running processes make. */
module KernelRun {
  import opened Bytes
  import opened Ipc
  import opened Opening
  import opened Descriptors
  import opened Processes
  import opened Kernels
  import opened VainWaits

  type i32 = x: int | -0x8000_0000 <= x < 0x8000_0000

  datatype Call =
    | Yield
    | Tick(fromUser: bool)
    | Exit(status: i32)
    | Fault
    | Stop
    | Signal(pid: nat, signal: nat, permitted: bool)
    | Fork(cloned: bool)
    | Spawn(accessible: bool, present: bool, loads: bool, input: int, output: int, error: int)
    | Execve(accessible: bool, present: bool, loads: bool)
    | Wait(wanted: int, noHang: bool, copied: bool)
    | MakePipe(copied: bool)
    | Dup(fd: nat)
    | Dup2(source: nat, target: nat)
    | Close(fd: nat)
    | Open(flags: nat, facts: FileFacts)
    | Seek(fd: nat, whence: nat, distance: int, fileLength: Result<nat, Errno>)
    | Read(fd: nat, capacity: nat, copied: bool)
    | Write(fd: nat, bytes: seq<byte>, copied: bool)

  /** A wait that is for a particular child whose status can be delivered, or that does not block. */
  predicate Answerable(c: Call) {
    c.Wait? ==> (c.wanted > 0 && c.copied) || c.noHang
  }

  /** Who created whom and exit statuses once recorded stay what they are, and hand-overs are only ever added. */
  ghost predicate Grew(l: Lineage, m: Lineage) {
    && l.creators <= m.creators && l.reaped <= m.reaped
    && forall b | b in l.finished :: b in m.finished && m.finished[b] == l.finished[b]
  }

  lemma GrewTrans(l: Lineage, m: Lineage, n: Lineage)
    requires Grew(l, m) && Grew(m, n)
    ensures Grew(l, n)
  {}

  /** A birth not yet finished can be entered. */
  lemma FinishGrows(ps: seq<Process>, l: Lineage, slot: nat, status: int)
    requires Reconciled(ps, l) && slot < |ps| && ps[slot].active && !ps[slot].zombie
    ensures slot < |l.births| && Grew(l, l.(finished := l.finished[l.births[slot] := status]))
  {
    assert Recorded(ps[slot], l.births[slot], l);
  }

  ghost predicate NoneStopped(ps: seq<Process>) {
    forall s | 0 <= s < |ps| :: !(Alive(ps[s]) && ps[s].stopped)
  }

  lemma NoneStoppedMeans(ps: seq<Process>)
    ensures NoneStopped(ps) <==> !SomeStopped(ps)
  {}

  predicate OfRunning(call: Call) {
    call.Yield? || call.Tick? || call.Exit? || call.Fault? || call.Stop? || call.Signal?
  }

  predicate OfFamily(call: Call) {
    call.Fork? || call.Spawn? || call.Execve? || call.Wait?
  }

  /** The calls about running and ending. */
  method RunningCall(kernel: Kernel, call: Call)
    requires kernel.Valid() && !kernel.halted && OfRunning(call)
    modifies kernel, kernel.pipes`table
    ensures kernel.Valid()
    ensures old(Waits(kernel.processes)) && Answerable(call) ==>
      && Waits(kernel.processes)
      && (kernel.halted ==> !SomeAlive(kernel.processes) || SomeStopped(kernel.processes))
    ensures NoneStopped(old(kernel.processes)) && !call.Stop? ==> NoneStopped(kernel.processes)
    ensures Grew(old(kernel.lineage), kernel.lineage)
    ensures MaxPid(old(kernel.processes)) + 1 < USIZE_MAX ==> Happens(old(kernel.processes), kernel.processes)
  {
    hide Counted, Slots, Waits, Reconciled, DeadHoldNone, NextRunnable, Collected, MaxPid, FirstIdle, Resumed,
      HandedDown, Happens, NewProcess;
    Books(kernel.processes, kernel.lineage);
    ghost var was, current := kernel.processes, kernel.current;
    RunsNow(was, current);
    match call
    case Yield => kernel.YieldCurrent();
    case Tick(fromUser) =>
      kernel.TimerTick(fromUser);
      TickStops(was, kernel.processes);
      TickHappens(was, kernel.processes, current);
    case Exit(status) =>
      FinishGrows(kernel.processes, kernel.lineage, kernel.current, status);
      EndHappens(was, current, status);
      kernel.ExitCurrent(status);
    case Fault =>
      FinishGrows(kernel.processes, kernel.lineage, kernel.current, kernel.processes[kernel.current].exitStatus);
      EndHappens(was, current, was[current].exitStatus);
      kernel.EndCurrent();
    case Stop =>
      StopHappens(was, current);
      kernel.StopCurrent();
    case Signal(pid, signal, permitted) =>
      var _ := kernel.SendSignal(pid, signal, permitted);
      if kernel.processes != was {
        ResumedStops(was, kernel.processes, pid);
      }
      ResumeHappens(was, kernel.processes, pid);
  }

  /** The calls about children. */
  method FamilyCall(kernel: Kernel, call: Call)
    requires kernel.Valid() && !kernel.halted && OfFamily(call)
    modifies kernel, kernel.pipes`table
    ensures kernel.Valid()
    ensures old(Waits(kernel.processes)) && Answerable(call) ==>
      && Waits(kernel.processes)
      && (kernel.halted ==> !SomeAlive(kernel.processes) || SomeStopped(kernel.processes))
    ensures NoneStopped(old(kernel.processes)) && !call.Stop? ==> NoneStopped(kernel.processes)
    ensures Grew(old(kernel.lineage), kernel.lineage)
    ensures MaxPid(old(kernel.processes)) + 1 < USIZE_MAX ==> Happens(old(kernel.processes), kernel.processes)
  {
    hide Counted, Slots, Waits, Reconciled, DeadHoldNone, NextRunnable, Collected, MaxPid, FirstIdle, Resumed,
      HandedDown, Happens, NewProcess;
    Books(kernel.processes, kernel.lineage);
    ghost var was, current := kernel.processes, kernel.current;
    RunsNow(was, current);
    match call
    case Fork(cloned) =>
      NewcomerHappens(was, current);
      var _ := kernel.ForkCurrent(cloned);
    case Spawn(accessible, present, loads, input, output, error) =>
      NewcomerHappens(was, current);
      var _ := kernel.SpawnCurrent(accessible, present, loads, input, output, error);
    case Execve(accessible, present, loads) =>
      ExecHappens(was, current);
      var _ := kernel.ExecveCurrent(accessible, present, loads);
    case Wait(_, _, _) => WaitCall(kernel, call);
  }

  method WaitCall(kernel: Kernel, call: Call)
    requires kernel.Valid() && !kernel.halted && call.Wait?
    modifies kernel, kernel.pipes`table
    ensures kernel.Valid()
    ensures old(Waits(kernel.processes)) && Answerable(call) ==>
      && Waits(kernel.processes)
      && (kernel.halted ==> !SomeAlive(kernel.processes) || SomeStopped(kernel.processes))
    ensures NoneStopped(old(kernel.processes)) ==> NoneStopped(kernel.processes)
    ensures Grew(old(kernel.lineage), kernel.lineage)
    ensures MaxPid(old(kernel.processes)) + 1 < USIZE_MAX ==> Happens(old(kernel.processes), kernel.processes)
  {
    hide Counted, Slots, Waits, Reconciled, DeadHoldNone, NextRunnable, Collected, MaxPid, FirstIdle, Happens;
    Books(kernel.processes, kernel.lineage);
    var wanted, noHang, copied := call.wanted, call.noHang, call.copied;
    ghost var was, current, l := kernel.processes, kernel.current, kernel.lineage;
    RunsNow(was, current);
    AnswerableWait(was, current, wanted, noHang, copied);
    BlockHappens(was, current, if wanted > 0 then wanted else USIZE_MAX);
    var _, _ := kernel.WaitPid(wanted, noHang, copied);
    WaitedGrows(was, kernel.processes, l, kernel.lineage, current, FirstZombie(was, was[current].pid, wanted));
    WaitedHappens(was, kernel.processes, l, kernel.lineage, current, wanted);
    if kernel.halted && Waits(kernel.processes) {
      WaitedHalts(kernel.processes);
    }
  }

  lemma RunsNow(ps: seq<Process>, current: nat)
    requires current < |ps| && Runnable(ps[current])
    ensures Happens(ps, ps) && ps[current].active
  {}

  lemma NewcomerHappens(ps: seq<Process>, current: nat)
    requires current < |ps| && Runnable(ps[current])
    ensures var slot := FirstIdle(ps);
      slot < |ps| && MaxPid(ps) + 1 < USIZE_MAX ==>
        Happens(ps, ps[slot := Process(MaxPid(ps) + 1, true, false, ps[current].pid, false, 0, 0, 0)])
  {
    hide MaxPid, FirstIdle, Happens;
    if FirstIdle(ps) < |ps| && MaxPid(ps) + 1 < USIZE_MAX {
      BirthHappens(ps, FirstIdle(ps), current);
    }
  }

  lemma WaitedHappens(was: seq<Process>, now: seq<Process>, l: Lineage, m: Lineage, current: nat, wanted: int)
    requires current < |was| && Runnable(was[current])
    ensures var z := FirstZombie(was, was[current].pid, wanted);
      z < |was| && Collected(was, now, l, m, current, z) ==> Happens(was, now)
  {
    hide Happens, FirstZombie;
    var z := FirstZombie(was, was[current].pid, wanted);
    if z < |was| && Collected(was, now, l, m, current, z) {
      CollectHappens(was, z, current);
    }
  }

  lemma TickStops(was: seq<Process>, now: seq<Process>)
    requires |was| == MAX_PROCESSES && Slots(now)
    requires forall s | 0 <= s < MAX_PROCESSES :: now[s] == was[s].(quantum := now[s].quantum)
    ensures NoneStopped(was) ==> NoneStopped(now)
  {}

  lemma ResumedStops(was: seq<Process>, now: seq<Process>, pid: nat)
    requires Resumed(was, now, pid)
    ensures NoneStopped(was) ==> NoneStopped(now)
  {}

  lemma AnswerableWait(ps: seq<Process>, current: nat, wanted: int, noHang: bool, copied: bool)
    requires current < |ps|
    ensures (wanted > 0 && copied) || noHang ==> !WaitsInVain(ps, current, wanted, noHang, copied)
  {}

  lemma WaitedGrows(was: seq<Process>, now: seq<Process>, l: Lineage, m: Lineage, current: nat, z: nat)
    requires Collected(was, now, l, m, current, z) || m == l
    ensures Grew(l, m)
    ensures Collected(was, now, l, m, current, z) && NoneStopped(was) ==> NoneStopped(now)
  {}

  lemma WaitedHalts(ps: seq<Process>)
    requires Slots(ps) && Waits(ps) && !SomeRunnable(ps)
    ensures !SomeAlive(ps) || SomeStopped(ps)
  {
    HaltedMeans(ps);
  }

  /** The calls about descriptors; what reads and writes of files and the console do is not modelled. */
  method DescriptorCall(kernel: Kernel, call: Call)
    requires kernel.Valid() && !kernel.halted
    requires !OfRunning(call) && !OfFamily(call)
    modifies kernel`tables, kernel.pipes
    ensures kernel.Valid()
  {
    hide Counted, Slots, Waits, Reconciled, DeadHoldNone, SameEnds, Appended, NoEndLeft, FirstFree, PipeMade;
    match call
    case MakePipe(copied) => var _, _, _ := kernel.CreatePipe(copied);
    case Dup(fd) => var _ := kernel.Duplicate(fd);
    case Dup2(source, target) => var _ := kernel.DuplicateTo(source, target);
    case Close(fd) => var _ := kernel.CloseDescriptor(fd);
    case Open(flags, facts) => var _, _, _ := kernel.OpenFile(flags, facts);
    case Seek(fd, whence, distance, fileLength) => var _ := kernel.SeekFd(fd, whence, distance, fileLength);
    case Read(fd, capacity, copied) =>
      TableThere(kernel);
      if fd < MAX_OPEN_FDS && kernel.tables[kernel.current][fd].kind == PipeRead {
        var output := new byte[capacity](_ => 0);
        var _ := kernel.ReadPipe(fd, output, copied);
      }
    case Write(fd, bytes, copied) =>
      TableThere(kernel);
      if fd < MAX_OPEN_FDS && kernel.tables[kernel.current][fd].kind == PipeWrite {
        var _ := kernel.WritePipe(fd, bytes, copied);
      }
  }

  lemma TableThere(kernel: Kernel)
    requires kernel.Valid() && !kernel.halted
    ensures kernel.current < |kernel.tables| && |kernel.tables[kernel.current]| == MAX_OPEN_FDS
  {}

  /** Who is stuck stays stuck as long as pids last. */
  ghost predicate StillStuck(was: seq<Process>, now: seq<Process>, calls: nat) {
    MaxPid(was) + calls < USIZE_MAX ==>
      MaxPid(now) <= MaxPid(was) + calls && forall s | Stuck(was, s) :: Stuck(now, s)
  }

  lemma StuckStart(ps: seq<Process>)
    ensures StillStuck(ps, ps, 0)
  {}

  lemma StuckNext(was: seq<Process>, mid: seq<Process>, now: seq<Process>, calls: nat)
    requires StillStuck(was, mid, calls) && Slots(mid)
    requires MaxPid(mid) + 1 < USIZE_MAX ==> Happens(mid, now)
    ensures StillStuck(was, now, calls + 1)
  {
    hide MaxPid, Slots, Stuck, Happens;
    if MaxPid(was) + calls + 1 < USIZE_MAX {
      HappensMax(mid, now);
      forall s | Stuck(was, s)
        ensures Stuck(now, s)
      {
        StuckThrough(mid, now, s);
      }
    }
  }

  /** Whatever the processes do, in whatever order: the books stay right, an exit status is handed over at most
    * once and to the process that created the child, and who waits in vain does so for good.  As long as every
    * wait can be answered, the kernel halts only when no process is left alive or somebody is stopped. */
  method Drive(kernel: Kernel, calls: seq<Call>)
    requires kernel.Valid() && !kernel.halted
    modifies kernel, kernel.pipes
    ensures kernel.Valid()
    ensures Grew(old(kernel.lineage), kernel.lineage) && HandedOnce(kernel.lineage)
    ensures StillStuck(old(kernel.processes), kernel.processes, |calls|)
    ensures NoneStopped(old(kernel.processes)) && (forall c | c in calls :: !c.Stop?) ==> NoneStopped(kernel.processes)
    ensures old(Waits(kernel.processes)) && (forall c | c in calls :: Answerable(c)) ==>
      && Waits(kernel.processes)
      && (kernel.halted ==> !SomeAlive(kernel.processes) || SomeStopped(kernel.processes))
      && (kernel.halted && NoneStopped(kernel.processes) ==> !SomeAlive(kernel.processes))
  {
    hide Counted, Slots, Waits, Reconciled, DeadHoldNone, SomeAlive, SomeRunnable, NoneStopped, SomeStopped,
      HandedOnce, StillStuck, Happens, MaxPid;
    ghost var quiet := NoneStopped(kernel.processes) && forall c | c in calls :: !c.Stop?;
    ghost var answered := Waits(kernel.processes) && forall c | c in calls :: Answerable(c);
    StuckStart(kernel.processes);
    for k := 0 to |calls|
      invariant kernel.Valid() && Grew(old(kernel.lineage), kernel.lineage)
      invariant StillStuck(old(kernel.processes), kernel.processes, k)
      invariant quiet ==> NoneStopped(kernel.processes)
      invariant answered ==>
        && Waits(kernel.processes)
        && (kernel.halted ==> !SomeAlive(kernel.processes) || SomeStopped(kernel.processes))
    {
      ghost var l, mid := kernel.lineage, kernel.processes;
      if !kernel.halted {
        var call := calls[k];
        assert call in calls;
        if OfRunning(call) {
          RunningCall(kernel, call);
        } else if OfFamily(call) {
          FamilyCall(kernel, call);
        } else {
          DescriptorCall(kernel, call);
        }
      }
      SameHappens(mid);
      GrewTrans(old(kernel.lineage), l, kernel.lineage);
      StuckNext(old(kernel.processes), mid, kernel.processes, k);
    }
    NoneStoppedMeans(kernel.processes);
    BooksSay(kernel.processes, kernel.lineage);
  }

  lemma SameHappens(ps: seq<Process>)
    ensures Happens(ps, ps)
  {}

  /** After `fork` and `waitpid(-1)` right after boot, and whatever calls follow: the first process never runs again,
    * and the timer never preempts anyone. */
  method NeverAgain(calls: seq<Call>) returns (kernel: Kernel)
    ensures fresh(kernel) && kernel.Valid()
    ensures |calls| + 2 < USIZE_MAX ==>
      !Runnable(kernel.processes[0]) && forall current :: !MayPreempt(kernel.processes, current)
  {
    hide Counted, Slots, Waits, Reconciled, DeadHoldNone, Stuck, MaxPid, Runnable, MayPreempt;
    kernel := ForkAndWait();
    Drive(kernel, calls);
    if |calls| + 2 < USIZE_MAX {
      StuckMeans(kernel.processes, 0);
    }
  }

  lemma BooksSay(ps: seq<Process>, l: Lineage)
    requires Reconciled(ps, l)
    ensures HandedOnce(l)
  {}
}
