/** The process table as a value: who is whose child, who waits for whom, and why somebody can always run. */
module Processes {

  const MAX_PROCESSES := 16

  datatype Process = Process(
    pid: nat, active: bool, stopped: bool, parent: nat, zombie: bool, exitStatus: int, waitingFor: nat, quantum: nat)

  const EMPTY_PROCESS := Process(0, false, false, 0, false, 0, 0, 0)

  /** What the loader returns: a process that has not run yet. */
  function NewProcess(pid: nat, parent: nat): Process {
    Process(pid, true, false, parent, false, 0, 0, 0)
  }

  predicate Alive(p: Process) { p.active && !p.zombie }

  /** What `schedule` looks for. */
  predicate Runnable(p: Process) { p.active && !p.stopped && !p.zombie && p.waitingFor == 0 }

  function MaxPid(ps: seq<Process>): (m: nat)
    ensures forall s :: 0 <= s < |ps| ==> ps[s].pid <= m
    ensures m == 0 || exists s :: 0 <= s < |ps| && ps[s].pid == m
  {
    if ps == [] then 0
    else
      var rest := MaxPid(ps[..|ps| - 1]);
      assert forall s :: 0 <= s < |ps| - 1 ==> ps[s] == ps[..|ps| - 1][s];
      if rest < ps[|ps| - 1].pid then ps[|ps| - 1].pid else rest
  }

  /** The first slot without an occupant. */
  function FirstIdle(ps: seq<Process>): (s: nat)
    ensures s <= |ps| && (s < |ps| ==> !ps[s].active)
    ensures forall k :: 0 <= k < s ==> ps[k].active
  {
    if ps == [] then 0
    else
      var rest := FirstIdle(ps[..|ps| - 1]);
      assert forall s :: 0 <= s < |ps| - 1 ==> ps[s] == ps[..|ps| - 1][s];
      if rest < |ps| - 1 then rest else if ps[|ps| - 1].active then |ps| else |ps| - 1
  }

  predicate SlotOk(p: Process) {
    && (!p.active ==> p == EMPTY_PROCESS)
    && (p.active ==> p.parent < p.pid)
    && (p.zombie ==> p.waitingFor == 0 && !p.stopped)
  }

  /** Occupied slots have distinct pids, each above its parent's. */
  ghost predicate Slots(ps: seq<Process>) {
    && |ps| == MAX_PROCESSES
    && (forall s | 0 <= s < |ps| :: SlotOk(ps[s]))
    && (forall s, t | 0 <= s < |ps| && 0 <= t < |ps| && ps[s].active && ps[t].active && ps[s].pid == ps[t].pid :: s == t)
  }

  /** `ps[t]` is the living child that `p` waits for. */
  ghost predicate Awaited(ps: seq<Process>, p: Process, t: nat) {
    t < |ps| && Alive(ps[t]) && ps[t].pid == p.waitingFor && ps[t].parent == p.pid
  }

  ghost predicate WaitOk(ps: seq<Process>, p: Process) {
    p.waitingFor != 0 ==> exists t: nat :: Awaited(ps, p, t)
  }

  /** Nobody waits for anything but a living child of its own. */
  ghost predicate Waits(ps: seq<Process>) {
    forall s | 0 <= s < |ps| && ps[s].active :: WaitOk(ps, ps[s])
  }

  ghost predicate SomeAlive(ps: seq<Process>) {
    exists s :: 0 <= s < |ps| && Alive(ps[s])
  }

  ghost predicate SomeStopped(ps: seq<Process>) {
    exists s :: 0 <= s < |ps| && Alive(ps[s]) && ps[s].stopped
  }

  ghost predicate SomeRunnable(ps: seq<Process>) {
    exists s :: 0 <= s < |ps| && Runnable(ps[s])
  }

  /** The living process with the highest pid. */
  lemma {:induction false} Eldest(ps: seq<Process>, n: nat) returns (s: nat)
    requires n <= |ps| && exists k :: 0 <= k < n && Alive(ps[k])
    ensures s < n && Alive(ps[s]) && forall k | 0 <= k < n && Alive(ps[k]) :: ps[k].pid <= ps[s].pid
    decreases n
  {
    if exists k :: 0 <= k < n - 1 && Alive(ps[k]) {
      s := Eldest(ps, n - 1);
      if Alive(ps[n - 1]) && ps[n - 1].pid > ps[s].pid {
        s := n - 1;
      }
    } else {
      s := n - 1;
    }
  }

  /** Deadlock freedom: the wait graph points to ever higher pids, so as long as somebody is alive and
    * nobody is stopped, somebody can run. */
  lemma SomebodyRuns(ps: seq<Process>)
    requires Slots(ps) && Waits(ps) && SomeAlive(ps)
    ensures SomeRunnable(ps) || SomeStopped(ps)
  {
    var s := Eldest(ps, |ps|);
    AwaitedIsHigher(ps, s);
    assert Runnable(ps[s]) || ps[s].stopped;
  }

  /** Whoever waits waits for a living process with a higher pid. */
  lemma AwaitedIsHigher(ps: seq<Process>, s: nat)
    requires Slots(ps) && Waits(ps) && s < |ps| && Alive(ps[s])
    ensures ps[s].waitingFor != 0 ==> exists t :: 0 <= t < |ps| && Alive(ps[t]) && ps[t].pid > ps[s].pid
  {
    assert WaitOk(ps, ps[s]);
    if ps[s].waitingFor != 0 {
      var t: nat :| Awaited(ps, ps[s], t);
      assert SlotOk(ps[t]) && Alive(ps[t]);
    }
  }

  /** Following waits from any process one reaches a process that does not wait, in at most as many steps as
    * there are higher pids; on the way every process is the child of the one before. */
  lemma {:induction false} WaitsEnd(ps: seq<Process>, s: nat, bound: nat) returns (t: nat)
    requires Slots(ps) && Waits(ps) && s < |ps| && Alive(ps[s])
    requires forall k | 0 <= k < |ps| :: ps[k].pid <= bound
    ensures t < |ps| && Alive(ps[t]) && ps[t].waitingFor == 0 && ps[s].pid <= ps[t].pid
    decreases bound - ps[s].pid
  {
    if ps[s].waitingFor == 0 {
      t := s;
    } else {
      assert WaitOk(ps, ps[s]);
      var next: nat :| Awaited(ps, ps[s], next);
      assert SlotOk(ps[next]);
      t := WaitsEnd(ps, next, bound);
    }
  }

  // ---------------------------------------------------------------- steps

  /** A new pid is above every pid and every parent field in the table. */
  lemma PidIsFresh(ps: seq<Process>)
    requires Slots(ps)
    ensures forall s | 0 <= s < |ps| && ps[s].active :: ps[s].pid < MaxPid(ps) + 1 && ps[s].parent < MaxPid(ps) + 1
    ensures forall s | 0 <= s < |ps| && ps[s].active :: ps[s].pid != MaxPid(ps) + 1 && ps[s].parent != MaxPid(ps) + 1
  {
    forall s | 0 <= s < |ps| && ps[s].active
      ensures ps[s].parent < ps[s].pid <= MaxPid(ps)
    {
      assert SlotOk(ps[s]);
    }
  }

  /** A new process, with the next pid, under any parent already there. */
  lemma BirthKeeps(ps: seq<Process>, slot: nat, parent: nat)
    requires Slots(ps) && slot < |ps| && !ps[slot].active
    requires parent <= MaxPid(ps)
    ensures Slots(ps[slot := NewProcess(MaxPid(ps) + 1, parent)])
    ensures Waits(ps) ==> Waits(ps[slot := NewProcess(MaxPid(ps) + 1, parent)])
  {
    var after := ps[slot := NewProcess(MaxPid(ps) + 1, parent)];
    PidIsFresh(ps);
    forall s | Waits(ps) && 0 <= s < |after| && after[s].active
      ensures WaitOk(after, after[s])
    {
      if s != slot && after[s].waitingFor != 0 {
        assert WaitOk(ps, ps[s]);
        var t: nat :| Awaited(ps, ps[s], t);
        assert Awaited(after, after[s], t);
      }
    }
  }

  /** The table after the process in `slot` ended: a zombie, with whoever waited for it released. */
  function Ended(ps: seq<Process>, slot: nat): (after: seq<Process>)
    requires slot < |ps|
    ensures |after| == |ps|
  {
    seq(|ps|, s requires 0 <= s < |ps| => Released(if s == slot then Zombified(ps[s]) else ps[s], ps[slot].pid))
  }

  function Zombified(p: Process): Process { p.(zombie := true, stopped := false, waitingFor := 0) }

  function Released(p: Process, finished: nat): Process {
    if p.waitingFor == finished then p.(waitingFor := 0) else p
  }

  /** An end, with its waiters released. */
  lemma EndKeeps(ps: seq<Process>, slot: nat)
    requires Slots(ps) && slot < |ps| && ps[slot].active
    ensures Slots(Ended(ps, slot)) && (Waits(ps) ==> Waits(Ended(ps, slot)))
  {
    var after := Ended(ps, slot);
    forall s | 0 <= s < |after|
      ensures SlotOk(after[s])
    {
      assert SlotOk(ps[s]);
    }
    forall s | Waits(ps) && 0 <= s < |after| && after[s].active
      ensures WaitOk(after, after[s])
    {
      if after[s].waitingFor != 0 {
        assert WaitOk(ps, ps[s]);
        var t: nat :| Awaited(ps, ps[s], t);
        assert Awaited(after, after[s], t);
      }
    }
  }

  /** Coming to wait for a living child. */
  lemma WaitKeeps(ps: seq<Process>, slot: nat, t: nat)
    requires Slots(ps) && slot < |ps| && Alive(ps[slot])
    requires t < |ps| && Alive(ps[t]) && ps[t].parent == ps[slot].pid
    ensures Waits(ps) ==> Waits(ps[slot := ps[slot].(waitingFor := ps[t].pid)])
  {
    var after := ps[slot := ps[slot].(waitingFor := ps[t].pid)];
    assert SlotOk(ps[t]) && SlotOk(ps[slot]);
    forall s | Waits(ps) && 0 <= s < |after| && after[s].active
      ensures WaitOk(after, after[s])
    {
      if s == slot {
        assert Awaited(after, after[s], t);
      } else if after[s].waitingFor != 0 {
        assert WaitOk(ps, ps[s]);
        var k: nat :| Awaited(ps, ps[s], k);
        assert Awaited(after, after[s], k);
      }
    }
  }

  /** Changes that leave identity, kinship and waiting alone. */
  lemma TouchKeeps(ps: seq<Process>, slot: nat, p: Process)
    requires Slots(ps) && slot < |ps| && SlotOk(p)
    requires ps[slot].active && p.pid == ps[slot].pid && p.parent == ps[slot].parent && p.active
    requires p.zombie == ps[slot].zombie && p.waitingFor == ps[slot].waitingFor
    ensures Slots(ps[slot := p]) && (Waits(ps) ==> Waits(ps[slot := p]))
  {
    var after := ps[slot := p];
    forall s | Waits(ps) && 0 <= s < |after| && after[s].active
      ensures WaitOk(after, after[s])
    {
      if after[s].waitingFor != 0 {
        assert WaitOk(ps, ps[s]);
        var t: nat :| Awaited(ps, ps[s], t);
        assert Awaited(after, after[s], t);
      }
    }
  }

  /** A zombie's slot is given up; nobody can be waiting for it. */
  lemma ReapKeeps(ps: seq<Process>, slot: nat)
    requires Slots(ps) && slot < |ps| && ps[slot].zombie
    ensures Slots(ps[slot := EMPTY_PROCESS]) && (Waits(ps) ==> Waits(ps[slot := EMPTY_PROCESS]))
  {
    var after := ps[slot := EMPTY_PROCESS];
    forall s | Waits(ps) && 0 <= s < |after| && after[s].active
      ensures WaitOk(after, after[s])
    {
      if after[s].waitingFor != 0 {
        assert WaitOk(ps, ps[s]);
        var t: nat :| Awaited(ps, ps[s], t);
        assert Awaited(after, after[s], t);
      }
    }
  }

  // ---------------------------------------------------------------- lineage

  /** An exit status handed over: whose, which, and to whom. */
  datatype Handover = Handover(child: nat, status: int, receiver: nat)

  /** Processes by order of birth, which unlike a pid is never used twice: `births` says who is in each slot,
    * `creators` for everyone ever born by whom it was created. */
  datatype Lineage = Lineage(births: seq<nat>, creators: seq<nat>, finished: map<nat, int>, reaped: seq<Handover>)

  function CreatorOf(l: Lineage, birth: nat): nat {
    if birth < |l.creators| then l.creators[birth] else 0
  }

  ghost predicate Recorded(p: Process, birth: nat, l: Lineage) {
    && birth < |l.creators|
    && (p.zombie ==> birth in l.finished && l.finished[birth] == p.exitStatus)
    && (!p.zombie ==> birth !in l.finished)
  }

  /** The occupant of the parent's pid is the process that did the creating. */
  ghost predicate TrueParent(p: Process, creator: nat, q: Process, birth: nat) {
    q.pid == p.parent ==> birth == creator
  }

  ghost predicate HandedOnce(l: Lineage) {
    && (forall i, j | 0 <= i < j < |l.reaped| :: l.reaped[i].child != l.reaped[j].child)
    && (forall i | 0 <= i < |l.reaped| ::
          l.reaped[i].child in l.finished && l.finished[l.reaped[i].child] == l.reaped[i].status)
    && (forall i | 0 <= i < |l.reaped| :: ToCreator(l, l.reaped[i]))
  }

  /** The status went to whoever created the child. */
  predicate ToCreator(l: Lineage, h: Handover) {
    h.child < |l.creators| && h.receiver == l.creators[h.child]
  }

  ghost predicate Reconciled(ps: seq<Process>, l: Lineage) {
    && |l.births| == |ps|
    && (forall b | b in l.finished :: b < |l.creators|)
    && (forall s | 0 <= s < |ps| && ps[s].active :: Recorded(ps[s], l.births[s], l))
    && (forall s, t | 0 <= s < t < |ps| && ps[s].active && ps[t].active :: l.births[s] != l.births[t])
    && (forall s, t | 0 <= s < |ps| && 0 <= t < |ps| && ps[s].active && ps[t].active ::
          TrueParent(ps[s], CreatorOf(l, l.births[s]), ps[t], l.births[t]))
    && HandedOnce(l)
    && (forall i, s | 0 <= i < |l.reaped| && 0 <= s < |ps| && ps[s].active :: l.births[s] != l.reaped[i].child)
  }

  function Bear(l: Lineage, slot: nat, creator: nat): Lineage
    requires slot < |l.births|
  {
    l.(births := l.births[slot := |l.creators|], creators := l.creators + [creator])
  }

  /** A birth adds to the record and rewrites nothing. */
  lemma BirthReconciles(ps: seq<Process>, l: Lineage, slot: nat, other: nat)
    requires Slots(ps) && Reconciled(ps, l) && slot < |ps| && !ps[slot].active && other < |ps| && ps[other].active
    ensures Reconciled(ps[slot := NewProcess(MaxPid(ps) + 1, ps[other].pid)], Bear(l, slot, l.births[other]))
  {
    hide MaxPid, SlotOk, Recorded, TrueParent, Slots, HandedOnce, Reconciled, CreatorOf;
    RecordFits(ps, l);
    var p := NewProcess(MaxPid(ps) + 1, ps[other].pid);
    var after, m := ps[slot := p], Bear(l, slot, l.births[other]);
    BirthHandsOn(l, slot, l.births[other]);
    BirthRecorded(ps, l, slot, l.births[other]);
    BirthDistinct(ps, l, slot, p, l.births[other]);
    forall s, t | 0 <= s < |after| && 0 <= t < |after| && after[s].active && after[t].active
      ensures TrueParent(after[s], CreatorOf(m, m.births[s]), after[t], m.births[t])
    {
      BirthParent(ps, l, slot, other, s, t);
    }
    ReconciledIs(after, m);
  }

  lemma RecordFits(ps: seq<Process>, l: Lineage)
    requires Reconciled(ps, l)
    ensures |l.births| == |ps| && HandedOnce(l)
  {}

  lemma ReconciledIs(ps: seq<Process>, l: Lineage)
    requires |l.births| == |ps| && HandedOnce(l)
    requires forall b | b in l.finished :: b < |l.creators|
    requires forall s | 0 <= s < |ps| && ps[s].active :: Recorded(ps[s], l.births[s], l)
    requires forall s, t | 0 <= s < t < |ps| && ps[s].active && ps[t].active :: l.births[s] != l.births[t]
    requires forall s, t | 0 <= s < |ps| && 0 <= t < |ps| && ps[s].active && ps[t].active ::
      TrueParent(ps[s], CreatorOf(l, l.births[s]), ps[t], l.births[t])
    requires forall i, s | 0 <= i < |l.reaped| && 0 <= s < |ps| && ps[s].active :: l.births[s] != l.reaped[i].child
    ensures Reconciled(ps, l)
  {}

  /** What was handed over went to creators that stay on record. */
  lemma BirthHandsOn(l: Lineage, slot: nat, creator: nat)
    requires HandedOnce(l) && slot < |l.births|
    ensures HandedOnce(Bear(l, slot, creator))
    ensures forall i | 0 <= i < |l.reaped| :: l.reaped[i].child < |l.creators|
  {
    var m := Bear(l, slot, creator);
    forall i | 0 <= i < |m.reaped|
      ensures ToCreator(m, m.reaped[i]) && l.reaped[i].child < |l.creators|
    {
      assert ToCreator(l, l.reaped[i]);
    }
  }

  /** An end not entered before leaves what was handed over as it is. */
  lemma EndHandsOn(l: Lineage, birth: nat, status: int)
    requires HandedOnce(l) && birth !in l.finished
    ensures HandedOnce(l.(finished := l.finished[birth := status]))
  {
    var m := l.(finished := l.finished[birth := status]);
    forall i | 0 <= i < |m.reaped|
      ensures ToCreator(m, m.reaped[i])
    {
      assert ToCreator(l, l.reaped[i]);
    }
  }

  lemma BirthRecorded(ps: seq<Process>, l: Lineage, slot: nat, creator: nat)
    requires Reconciled(ps, l) && slot < |ps| && !ps[slot].active
    ensures forall s | 0 <= s < |ps| && ps[s].active :: l.births[s] < |l.creators|
    ensures var m := Bear(l, slot, creator);
      && (forall s | 0 <= s < |ps| && s != slot && ps[s].active :: Recorded(ps[s], m.births[s], m))
      && (forall pid, parent :: Recorded(NewProcess(pid, parent), |l.creators|, m))
  {
    var m := Bear(l, slot, creator);
    forall s | 0 <= s < |ps| && ps[s].active
      ensures l.births[s] < |l.creators|
      ensures s != slot ==> Recorded(ps[s], m.births[s], m)
    {
      assert Recorded(ps[s], l.births[s], l);
    }
  }

  lemma BirthDistinct(ps: seq<Process>, l: Lineage, slot: nat, p: Process, creator: nat)
    requires Reconciled(ps, l) && slot < |ps| && !ps[slot].active
    ensures var after, m := ps[slot := p], Bear(l, slot, creator);
      && (forall b | b in m.finished :: b < |m.creators|)
      && (forall s, t | 0 <= s < t < |after| && after[s].active && after[t].active :: m.births[s] != m.births[t])
      && (forall i, s | 0 <= i < |m.reaped| && 0 <= s < |after| && after[s].active :: m.births[s] != m.reaped[i].child)
  {
    hide TrueParent;
    BirthRecorded(ps, l, slot, creator);
    BirthHandsOn(l, slot, creator);
    hide Recorded, HandedOnce;
  }

  lemma BirthParent(ps: seq<Process>, l: Lineage, slot: nat, other: nat, s: nat, t: nat)
    requires Slots(ps) && Reconciled(ps, l) && slot < |ps| && !ps[slot].active && other < |ps| && ps[other].active
    requires s < |ps| && t < |ps|
    ensures var p := NewProcess(MaxPid(ps) + 1, ps[other].pid);
      var after, m := ps[slot := p], Bear(l, slot, l.births[other]);
      after[s].active && after[t].active ==> TrueParent(after[s], CreatorOf(m, m.births[s]), after[t], m.births[t])
  {
    hide MaxPid, Recorded, HandedOnce, SlotOk, Slots, Reconciled, TrueParent, CreatorOf;
    var p := NewProcess(MaxPid(ps) + 1, ps[other].pid);
    PidIsFresh(ps);
    ParentsOf(ps, l, other);
    BirthRecorded(ps, l, slot, l.births[other]);
    CreatorsStay(l, slot, l.births[other]);
    if s == slot {
      if t == slot {
        NobodysChild(p, l.births[other], p, |l.creators|);
      } else {
        NewcomerParents(p, l.births[other], ps, l, t, other);
      }
    } else if t == slot && ps[s].active {
      NobodysChild(ps[s], CreatorOf(l, l.births[s]), p, |l.creators|);
    }
  }

  lemma CreatorsStay(l: Lineage, slot: nat, creator: nat)
    requires slot < |l.births|
    ensures CreatorOf(Bear(l, slot, creator), |l.creators|) == creator
    ensures forall b: nat | b < |l.creators| :: CreatorOf(Bear(l, slot, creator), b) == CreatorOf(l, b)
  {}

  lemma ParentsOf(ps: seq<Process>, l: Lineage, other: nat)
    requires Slots(ps) && Reconciled(ps, l) && other < |ps| && ps[other].active
    ensures |l.births| == |ps|
    ensures forall s, t | 0 <= s < |ps| && 0 <= t < |ps| && ps[s].active && ps[t].active ::
      TrueParent(ps[s], CreatorOf(l, l.births[s]), ps[t], l.births[t])
    ensures forall t | 0 <= t < |ps| && ps[t].active && ps[t].pid == ps[other].pid :: t == other
  {}

  lemma NewcomerParents(p: Process, creator: nat, ps: seq<Process>, l: Lineage, t: nat, other: nat)
    requires t < |ps| == |l.births| && other < |ps| && creator == l.births[other] && p.parent == ps[other].pid
    requires forall k | 0 <= k < |ps| && ps[k].active && ps[k].pid == ps[other].pid :: k == other
    ensures ps[t].active ==> TrueParent(p, creator, ps[t], l.births[t])
  {}

  lemma NobodysChild(p: Process, creator: nat, q: Process, birth: nat)
    requires q.pid != p.parent
    ensures TrueParent(p, creator, q, birth)
  {}

  /** An end enters the status under the birth it belongs to. */
  lemma EndReconciles(ps: seq<Process>, l: Lineage, slot: nat)
    requires Slots(ps) && Reconciled(ps, l) && slot < |ps| && Alive(ps[slot])
    ensures Reconciled(Ended(ps, slot), l.(finished := l.finished[l.births[slot] := ps[slot].exitStatus]))
  {
    var after, m := Ended(ps, slot), l.(finished := l.finished[l.births[slot] := ps[slot].exitStatus]);
    assert Recorded(ps[slot], l.births[slot], l);
    EndHandsOn(l, l.births[slot], ps[slot].exitStatus);
    hide HandedOnce;
    forall s | 0 <= s < |after| && after[s].active
      ensures Recorded(after[s], m.births[s], m)
    {
      assert Recorded(ps[s], l.births[s], l);
    }
    forall s, t | 0 <= s < |after| && 0 <= t < |after| && after[s].active && after[t].active
      ensures TrueParent(after[s], CreatorOf(m, m.births[s]), after[t], m.births[t])
    {
      assert TrueParent(ps[s], CreatorOf(l, l.births[s]), ps[t], l.births[t]);
    }
  }

  lemma TouchReconciles(ps: seq<Process>, l: Lineage, slot: nat, p: Process)
    requires Reconciled(ps, l) && slot < |ps| && ps[slot].active && p.active
    requires p.pid == ps[slot].pid && p.parent == ps[slot].parent && p.zombie == ps[slot].zombie
    requires p.zombie ==> p.exitStatus == ps[slot].exitStatus
    ensures Reconciled(ps[slot := p], l)
  {
    var after := ps[slot := p];
    forall s | 0 <= s < |after| && after[s].active
      ensures Recorded(after[s], l.births[s], l)
    {
      assert Recorded(ps[s], l.births[s], l);
    }
    forall s, t | 0 <= s < |after| && 0 <= t < |after| && after[s].active && after[t].active
      ensures TrueParent(after[s], CreatorOf(l, l.births[s]), after[t], l.births[t])
    {
      assert TrueParent(ps[s], CreatorOf(l, l.births[s]), ps[t], l.births[t]);
    }
  }

  /** The status of a zombie goes to its creator, for the first and only time. */
  lemma ReapReconciles(ps: seq<Process>, l: Lineage, slot: nat, other: nat)
    requires Slots(ps) && Reconciled(ps, l) && slot < |ps| && ps[slot].zombie
    requires other < |ps| && ps[other].active && ps[slot].parent == ps[other].pid && other != slot
    ensures l.births[other] == CreatorOf(l, l.births[slot])
    ensures forall i | 0 <= i < |l.reaped| :: l.reaped[i].child != l.births[slot]
    ensures Reconciled(ps[slot := EMPTY_PROCESS],
      l.(reaped := l.reaped + [Handover(l.births[slot], ps[slot].exitStatus, l.births[other])]))
  {
    assert SlotOk(ps[slot]);
    assert TrueParent(ps[slot], CreatorOf(l, l.births[slot]), ps[other], l.births[other]);
    assert Recorded(ps[slot], l.births[slot], l);
    var after := ps[slot := EMPTY_PROCESS];
    var m := l.(reaped := l.reaped + [Handover(l.births[slot], ps[slot].exitStatus, l.births[other])]);
    forall s | 0 <= s < |after| && after[s].active
      ensures Recorded(after[s], m.births[s], m)
    {
      assert Recorded(ps[s], l.births[s], l);
    }
    forall s, t | 0 <= s < |after| && 0 <= t < |after| && after[s].active && after[t].active
      ensures TrueParent(after[s], CreatorOf(m, m.births[s]), after[t], m.births[t])
    {
      assert TrueParent(ps[s], CreatorOf(l, l.births[s]), ps[t], l.births[t]);
    }
    forall s | 0 <= s < |after| && after[s].active
      ensures m.births[s] != l.births[slot]
    {
      if s < slot {
        assert l.births[s] != l.births[slot];
      } else {
        assert l.births[slot] != l.births[s];
      }
    }
  }
}
