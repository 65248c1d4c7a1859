/** What becomes of a process that waits in vain: nothing, however long the kernel goes on. */
module VainWaits {
  import opened Ipc
  import opened Descriptors
  import opened Processes
  import opened Kernels

  /** What the calls do to the process table: a running process creates another, ends, waits, collects a zombie
    * of its own; a field that is neither identity, kinship, life nor waiting changes. */
  datatype Event =
    | Birth(slot: nat, creator: nat)
    | End(slot: nat, status: int)
    | Block(slot: nat, pid: nat)
    | Collect(slot: nat, creator: nat)
    | Touch(slot: nat, process: Process)

  predicate Possible(ps: seq<Process>, e: Event) {
    && e.slot < |ps|
    && match e
       case Birth(slot, creator) =>
         !ps[slot].active && creator < |ps| && Runnable(ps[creator]) && MaxPid(ps) + 1 < USIZE_MAX
       case End(slot, _) => Runnable(ps[slot])
       case Block(slot, pid) => Runnable(ps[slot]) && pid != 0
       case Collect(slot, creator) =>
         ps[slot].zombie && creator < |ps| && Runnable(ps[creator]) && ps[slot].parent == ps[creator].pid
       case Touch(slot, p) =>
         && ps[slot].active && p.active && p.pid == ps[slot].pid && p.parent == ps[slot].parent
         && p.zombie == ps[slot].zombie && p.waitingFor == ps[slot].waitingFor && SlotOk(p)
  }

  function After(ps: seq<Process>, e: Event): (after: seq<Process>)
    requires Possible(ps, e)
    ensures |after| == |ps|
  {
    match e
    case Birth(slot, creator) => ps[slot := NewProcess(MaxPid(ps) + 1, ps[creator].pid)]
    case End(slot, status) => Ended(ps[slot := ps[slot].(exitStatus := status)], slot)
    case Block(slot, pid) => ps[slot := ps[slot].(waitingFor := pid)]
    case Collect(slot, _) => ps[slot := EMPTY_PROCESS]
    case Touch(slot, p) => ps[slot := p]
  }

  /** Waiting for a pid no living process has, which is no pid at all or that of a zombie only the waiter could
    * collect. */
  ghost predicate Stuck(ps: seq<Process>, s: nat) {
    && Slots(ps) && Hopeless(ps, s) && Alive(ps[s])
    && (|| (ps[s].waitingFor == USIZE_MAX && MaxPid(ps) < USIZE_MAX)
        || exists z :: 0 <= z < |ps| && OwnZombie(ps, s, z))
  }

  predicate OwnZombie(ps: seq<Process>, s: nat, z: nat)
    requires s < |ps| && z < |ps|
  {
    ps[z].active && ps[z].zombie && ps[z].pid == ps[s].waitingFor && ps[z].parent == ps[s].pid
  }

  /** Every wait in vain ends up there. */
  lemma VainIsStuck(ps: seq<Process>, current: nat, wanted: int, copied: bool)
    requires Slots(ps) && current < |ps| && Runnable(ps[current]) && MaxPid(ps) < USIZE_MAX
    requires WaitsInVain(ps, current, wanted, false, copied)
    ensures Stuck(ps[current := ps[current].(waitingFor := if wanted > 0 then wanted else USIZE_MAX)], current)
  {
    hide HasChild, FirstZombie, MaxPid;
    VainWait(ps, current, wanted, copied);
    var after := ps[current := ps[current].(waitingFor := if wanted > 0 then wanted else USIZE_MAX)];
    SlotsSame(ps, after);
    if wanted > 0 {
      var z := FirstZombie(ps, ps[current].pid, wanted);
      assert OwnZombie(after, current, z);
    } else {
      MaxPidSame(ps, after);
    }
  }

  lemma SlotsSame(ps: seq<Process>, after: seq<Process>)
    requires Slots(ps) && |after| == |ps|
    requires forall k | 0 <= k < |ps| :: after[k].active == ps[k].active && after[k].pid == ps[k].pid && SlotOk(after[k])
    ensures Slots(after)
  {}

  lemma {:induction false} MaxPidSame(ps: seq<Process>, after: seq<Process>)
    requires |after| == |ps| && forall k | 0 <= k < |ps| :: after[k].pid == ps[k].pid
    ensures MaxPid(after) == MaxPid(ps)
  {
    if ps != [] {
      MaxPidSame(ps[..|ps| - 1], after[..|ps| - 1]);
    }
  }

  lemma MaxPidBelow(ps: seq<Process>, bound: nat)
    requires forall k | 0 <= k < |ps| :: ps[k].pid <= bound
    ensures MaxPid(ps) <= bound
  {}

  lemma SlotsStep(ps: seq<Process>, e: Event)
    requires Slots(ps) && Possible(ps, e)
    ensures Slots(After(ps, e))
  {
    hide MaxPid;
    forall k | 0 <= k < |ps|
      ensures SlotOk(ps[k])
    {}
    PidIsFresh(ps);
  }

  /** No possible event helps. */
  lemma StuckStep(ps: seq<Process>, e: Event, s: nat)
    requires Stuck(ps, s) && Possible(ps, e)
    ensures Stuck(After(ps, e), s)
  {
    hide MaxPid;
    SlotsStep(ps, e);
    var after := After(ps, e);
    assert !Runnable(ps[s]);
    assert e.slot == s ==> e.Touch?;
    assert SlotOk(ps[s]);
    forall t | 0 <= t < |after| && Alive(after[t])
      ensures after[t].pid != after[s].waitingFor
    {
      StillNobody(ps, e, s, t);
    }
    if ps[s].waitingFor == USIZE_MAX && MaxPid(ps) < USIZE_MAX {
      MaxPidBelow(after, USIZE_MAX - 1);
    } else {
      var z :| 0 <= z < |ps| && OwnZombie(ps, s, z);
      assert OwnZombie(after, s, z);
    }
  }

  lemma StillNobody(ps: seq<Process>, e: Event, s: nat, t: nat)
    requires Stuck(ps, s) && Possible(ps, e) && t < |ps| && Alive(After(ps, e)[t])
    ensures After(ps, e)[t].pid != ps[s].waitingFor
  {
    hide MaxPid;
    PidIsFresh(ps);
    if e.Birth? && t == e.slot {
      if z :| 0 <= z < |ps| && OwnZombie(ps, s, z) {
        assert ps[z].pid < MaxPid(ps) + 1;
      }
    } else {
      assert Alive(ps[t]);
    }
  }

  /** One call: one event, or nothing that the table shows. */
  ghost predicate Happens(ps: seq<Process>, after: seq<Process>) {
    after == ps || exists e :: Possible(ps, e) && After(ps, e) == after
  }

  /** Nor does any call; and it adds no more than one to the highest pid. */
  lemma StuckThrough(ps: seq<Process>, after: seq<Process>, s: nat)
    requires Stuck(ps, s) && Happens(ps, after)
    ensures Stuck(after, s) && after[s].waitingFor == ps[s].waitingFor
  {
    hide MaxPid, Slots, Hopeless;
    if after != ps {
      var e :| Possible(ps, e) && After(ps, e) == after;
      StuckStep(ps, e, s);
      StuckKeepsWaiting(ps, e, s);
    }
  }

  lemma StuckKeepsWaiting(ps: seq<Process>, e: Event, s: nat)
    requires Stuck(ps, s) && Possible(ps, e)
    ensures After(ps, e)[s].waitingFor == ps[s].waitingFor
  {
    hide MaxPid;
    assert !Runnable(ps[s]);
  }

  lemma HappensMax(ps: seq<Process>, after: seq<Process>)
    requires Slots(ps) && Happens(ps, after)
    ensures MaxPid(after) <= MaxPid(ps) + 1
  {
    hide MaxPid, Slots;
    if after != ps {
      var e :| Possible(ps, e) && After(ps, e) == after;
      PidsBelow(ps);
      MaxPidBelow(after, MaxPid(ps) + 1);
    }
  }

  lemma PidsBelow(ps: seq<Process>)
    ensures forall s | 0 <= s < |ps| :: ps[s].pid <= MaxPid(ps)
  {}

  /** While somebody is stuck it does not run, and the timer takes the processor from no one. */
  lemma StuckMeans(ps: seq<Process>, s: nat)
    requires Stuck(ps, s)
    ensures !Runnable(ps[s]) && forall current :: !MayPreempt(ps, current)
  {}

  // ---------------------------------------------------------------- what the calls do is such an event

  lemma BirthHappens(ps: seq<Process>, slot: nat, creator: nat)
    requires slot < |ps| && !ps[slot].active && creator < |ps| && Runnable(ps[creator]) && MaxPid(ps) + 1 < USIZE_MAX
    ensures Happens(ps, ps[slot := NewProcess(MaxPid(ps) + 1, ps[creator].pid)])
  {
    var e := Birth(slot, creator);
    assert Possible(ps, e) && After(ps, e) == ps[slot := NewProcess(MaxPid(ps) + 1, ps[creator].pid)];
  }

  lemma EndHappens(ps: seq<Process>, slot: nat, status: int)
    requires slot < |ps| && Runnable(ps[slot])
    ensures Happens(ps, Ended(ps[slot := ps[slot].(exitStatus := status)], slot))
    ensures status == ps[slot].exitStatus ==> Happens(ps, Ended(ps, slot))
  {
    var e := End(slot, status);
    assert Possible(ps, e) && After(ps, e) == Ended(ps[slot := ps[slot].(exitStatus := status)], slot);
    if status == ps[slot].exitStatus {
      assert ps[slot := ps[slot].(exitStatus := status)] == ps;
    }
  }

  lemma TouchHappens(ps: seq<Process>, slot: nat, p: Process)
    requires slot < |ps| && Possible(ps, Touch(slot, p))
    ensures Happens(ps, ps[slot := p])
  {
    assert After(ps, Touch(slot, p)) == ps[slot := p];
  }

  lemma TickHappens(ps: seq<Process>, after: seq<Process>, slot: nat)
    requires Slots(ps) && slot < |ps| && ps[slot].active
    requires after == ps || (exists q: nat :: after == ps[slot := ps[slot].(quantum := q)])
    ensures Happens(ps, after)
  {
    if after != ps {
      var q: nat :| after == ps[slot := ps[slot].(quantum := q)];
      assert SlotOk(ps[slot]);
      TouchHappens(ps, slot, ps[slot].(quantum := q));
    }
  }

  lemma StopHappens(ps: seq<Process>, slot: nat)
    requires Slots(ps) && slot < |ps| && Runnable(ps[slot])
    ensures Happens(ps, ps[slot := ps[slot].(stopped := true)])
  {
    assert SlotOk(ps[slot]);
    TouchHappens(ps, slot, ps[slot].(stopped := true));
  }

  lemma ResumeHappens(ps: seq<Process>, after: seq<Process>, pid: nat)
    requires Slots(ps) && (after == ps || Resumed(ps, after, pid))
    ensures Happens(ps, after)
  {
    if after != ps {
      var s :| 0 <= s < |ps| && ps[s].active && ps[s].pid == pid && after == ps[s := ps[s].(stopped := false)];
      assert SlotOk(ps[s]);
      TouchHappens(ps, s, ps[s].(stopped := false));
    }
  }

  lemma ExecHappens(ps: seq<Process>, slot: nat)
    requires Slots(ps) && slot < |ps| && Runnable(ps[slot])
    ensures Happens(ps, ps[slot := Process(ps[slot].pid, true, false, ps[slot].parent, false, 0, 0, 0)])
  {
    assert SlotOk(ps[slot]);
    TouchHappens(ps, slot, NewProcess(ps[slot].pid, ps[slot].parent));
  }

  lemma BlockHappens(ps: seq<Process>, slot: nat, pid: nat)
    requires slot < |ps| && Runnable(ps[slot]) && pid != 0
    ensures Happens(ps, ps[slot := ps[slot].(waitingFor := pid)])
  {
    assert Possible(ps, Block(slot, pid)) && After(ps, Block(slot, pid)) == ps[slot := ps[slot].(waitingFor := pid)];
  }

  lemma CollectHappens(ps: seq<Process>, slot: nat, creator: nat)
    requires slot < |ps| && ps[slot].zombie
    requires creator < |ps| && Runnable(ps[creator]) && ps[slot].parent == ps[creator].pid
    ensures Happens(ps, ps[slot := EMPTY_PROCESS])
  {
    assert Possible(ps, Collect(slot, creator)) && After(ps, Collect(slot, creator)) == ps[slot := EMPTY_PROCESS];
  }

  lemma BootMax(ps: seq<Process>)
    requires ps == seq(MAX_PROCESSES, _ => EMPTY_PROCESS)[0 := NewProcess(1, 0)]
    ensures MaxPid(ps) == 1 && FirstIdle(ps) == 1
  {
    assert ps[0].pid == 1 && ps[0].active && !ps[1].active;
  }

  /** One parent, one child, both running. */
  lemma ForkedFacts(ps: seq<Process>)
    requires ps == seq(MAX_PROCESSES, _ => EMPTY_PROCESS)[0 := NewProcess(1, 0)][1 := NewProcess(2, 1)]
    ensures Slots(ps) && MaxPid(ps) == 2 && WaitsInVain(ps, 0, -1, false, true)
    ensures FirstZombie(ps, 1, -1) == MAX_PROCESSES && HasChild(ps, 1, -1) && ps[0].pid == 1
    ensures var after := ps[0 := ps[0].(waitingFor := USIZE_MAX)];
      SomeRunnable(after) && forall s | 0 <= s < |after| && Runnable(after[s]) :: s == 1
  {
    MaxPidBelow(ps, 2);
    assert Matches(ps[1], 1, -1);
    assert Runnable(ps[0 := ps[0].(waitingFor := USIZE_MAX)][1]);
  }

  /** Two calls after boot that end so: `fork`, then `waitpid(-1)`, with the child left running. */
  method ForkAndWait() returns (kernel: Kernel)
    ensures fresh(kernel) && fresh(kernel.pipes) && kernel.Valid() && !kernel.halted && kernel.current == 1
    ensures Stuck(kernel.processes, 0) && MaxPid(kernel.processes) == 2
  {
    hide Slots, Waits, Reconciled, Counted, DeadHoldNone, MaxPid, FirstIdle, FirstZombie, HasChild, WaitsInVain,
      Stuck, SomeRunnable, Runnable;
    kernel := new Kernel();
    BootMax(kernel.processes);
    var _ := kernel.ForkCurrent(true);
    ghost var ps := kernel.processes;
    ForkedFacts(ps);
    var _, _ := kernel.WaitPid(-1, false, true);
    FirstRuns(ps);
    VainIsStuck(ps, 0, -1, true);
    MaxPidSame(ps, kernel.processes);
  }

  lemma FirstRuns(ps: seq<Process>)
    requires |ps| == MAX_PROCESSES && ps[0] == NewProcess(1, 0)
    ensures Runnable(ps[0])
  {}
}
