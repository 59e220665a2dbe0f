/** Runs of the scheduler: table invariants over every run, reaping, and bounded waiting. */
module SchedulerRuns {
  import opened Arith
  import opened Scheduler

  // ----- steps

  datatype Op =
    | Create(byCurrent: bool, priority: nat)
    | Clone(src: nat, resources: bool)
    | Schedule(now: nat)
    | Wait(pid: int)
    | Exit(code: int, now: nat)
    | Sleep(deadline: nat)
    | BlockTty
    | WakeTty(slot: nat)
    | WakeSleeper(slot: nat)

  function ParentOf(s: State, byCurrent: bool): (pid: nat) {
    if byCurrent && HasCurrent(s) then s.table[s.current.i].value.pid else 0
  }

  /** A step, and what a wait returns. */
  ghost predicate Step(s: State, op: Op, s': State, r: Option<WaitResult>) {
    match op
    case Create(byCurrent, priority) =>
      r == None && s' == AfterAdd(s.(nextPid := s.nextPid + 1), NewProc(s.nextPid, ParentOf(s, byCurrent), priority))
    case Clone(src, resources) =>
      r == None && src < MAX_PROCESSES && s.table[src].Some? && s' == AfterClone(s, src, resources)
    case Schedule(now) =>
      r == None && Scheduled(s, true, now, s')
    case Wait(pid) =>
      r.Some? && Waited(s, pid, s', r.value)
    case Exit(code, now) =>
      r == None && HasCurrent(s) && Scheduled(AfterExit(s, code), false, now, s')
    case Sleep(deadline) =>
      r == None && HasCurrent(s) && s' == s.(table := Set(s.table, s.current.i,
        Some(s.table[s.current.i].value.(deadline := deadline, state := Sleeping))))
    case BlockTty =>
      r == None && HasCurrent(s) && s' == s.(table := Set(s.table, s.current.i,
        Some(s.table[s.current.i].value.(reason := WaitTty, waitPid := -1, state := Waiting))))
    case WakeTty(i) =>
      && r == None && i < MAX_PROCESSES
      && s' == if s.table[i].Some? && s.table[i].value.state.Waiting? && s.table[i].value.reason.WaitTty?
               then s.(table := Set(s.table, i, Some(s.table[i].value.(reason := WaitNone, waitPid := -1, state := Ready)))) else s
    case WakeSleeper(i) =>
      && r == None && i < MAX_PROCESSES
      && s' == if s.table[i].Some? && s.table[i].value.state.Sleeping?
               then s.(table := Set(s.table, i, Some(s.table[i].value.(deadline := 0, state := Ready)))) else s
  }

  // ----- invariants

  /** Slot `i` holds a process. */
  predicate Used(t: Table, i: int) {
    0 <= i < MAX_PROCESSES && t[i].Some?
  }

  predicate ZombieAt(t: Table, i: int) {
    Used(t, i) && t[i].value.state.Zombie?
  }

  /** PIDs are unique and below the next one. */
  ghost predicate PidsOk(s: State) {
    && (forall i :: Used(s.table, i) ==> 1 <= s.table[i].value.pid < s.nextPid)
    && (forall i, j :: Used(s.table, i) && Used(s.table, j) && s.table[i].value.pid == s.table[j].value.pid ==> i == j)
  }

  function Occupied(t: Table, n: nat): (c: nat)
    requires n <= MAX_PROCESSES
  {
    if n == 0 then 0 else Occupied(t, n - 1) + if t[n - 1].Some? then 1 else 0
  }

  /** Only the current process runs, and it is alive. */
  ghost predicate RunningOk(s: State) {
    && (forall i :: Used(s.table, i) && s.table[i].value.state.Running? ==> s.current == Slot(i))
    && (s.current.Slot? ==> HasCurrent(s) && !s.table[s.current.i].value.state.Zombie?)
  }

  ghost predicate InitOk(s: State) {
    HasInit(s) && s.table[s.init.value].value.parentPid == 0
  }

  /** No zombie other than init has children. */
  ghost predicate OrphansOk(s: State) {
    forall i, j :: ZombieAt(s.table, i) && s.init != Some(i) && Used(s.table, j) ==>
      s.table[j].value.parentPid != s.table[i].value.pid
  }

  predicate WaitsForChild(p: Option<Proc>) {
    p.Some? && p.value.state.Waiting? && p.value.reason.WaitChild?
  }

  /** No process waits for a child that it could reap. */
  ghost predicate WaitsOk(t: Table) {
    forall i, j :: 0 <= i < MAX_PROCESSES && 0 <= j < MAX_PROCESSES && WaitsForChild(t[i]) ==>
      !Reapable(t[j], t[i].value.pid, t[i].value.waitPid)
  }

  ghost predicate Inv(s: State) {
    && PidsOk(s) && s.count == Occupied(s.table, MAX_PROCESSES) && s.cursor < MAX_PROCESSES
    && RunningOk(s) && InitOk(s) && OrphansOk(s) && WaitsOk(s.table)
  }

  // ----- steps that keep who is who

  /** The same processes, with the same parents, exit codes and zombies. */
  ghost predicate Similar(t: Table, t': Table) {
    forall i :: 0 <= i < MAX_PROCESSES ==> SimilarSlot(t[i], t'[i])
  }

  predicate SimilarSlot(p: Option<Proc>, p': Option<Proc>) {
    && p.Some? == p'.Some?
    && (p.Some? ==>
      && p.value.pid == p'.value.pid && p.value.parentPid == p'.value.parentPid && p.value.exitCode == p'.value.exitCode
      && p.value.state.Zombie? == p'.value.state.Zombie?)
  }

  lemma {:induction false} OccupiedSimilar(t: Table, t': Table, n: nat)
    requires n <= MAX_PROCESSES && forall i :: 0 <= i < n ==> t[i].Some? == t'[i].Some?
    ensures Occupied(t, n) == Occupied(t', n)
  {
    if n > 0 {
      OccupiedSimilar(t, t', n - 1);
    }
  }

  lemma {:induction false} SimilarKeeps(s: State, s': State)
    requires Inv(s) && Similar(s.table, s'.table) && RunningOk(s') && s'.cursor < MAX_PROCESSES
    requires s'.nextPid >= s.nextPid && s'.count == s.count && s'.init == s.init
    requires forall i, j :: 0 <= i < MAX_PROCESSES && 0 <= j < MAX_PROCESSES && WaitsForChild(s'.table[i]) ==>
      || (WaitsForChild(s.table[i]) && s.table[i].value.waitPid == s'.table[i].value.waitPid)
      || !Reapable(s.table[j], s.table[i].value.pid, s'.table[i].value.waitPid)
    ensures Inv(s')
  {
    OccupiedSimilar(s.table, s'.table, MAX_PROCESSES);
    assert forall i :: 0 <= i < MAX_PROCESSES ==> SimilarSlot(s.table[i], s'.table[i]);
  }

  /** One slot is changed, but not its identity. */
  lemma {:induction false} SlotKeeps(s: State, i: nat, p: Proc)
    requires Inv(s) && Used(s.table, i) && SimilarSlot(s.table[i], Some(p)) && !p.state.Running?
    requires !p.state.Zombie? && (p.state.Waiting? && p.reason.WaitChild? ==>
      forall j :: 0 <= j < MAX_PROCESSES ==> !Reapable(s.table[j], p.pid, p.waitPid))
    ensures Inv(s.(table := Set(s.table, i, Some(p))))
  {
    SimilarKeeps(s, s.(table := Set(s.table, i, Some(p))));
  }

  lemma {:induction false} ScheduleKeeps(s: State, hasRegs: bool, now: nat, s': State)
    requires Inv(s) && Scheduled(s, hasRegs, now, s') && (hasRegs || s.current.NoProcess?)
    ensures Inv(s')
  {
    var t := Preempted(s, hasRegs, now);
    var r :| Picks(t, s.cursor, r) && s' == Dispatch(s, t, hasRegs, r);
    PickedSlot(t, s.cursor, r);
    PreemptedSimilar(s, hasRegs, now, t);
    DispatchKeeps(s, t, hasRegs, r);
  }

  lemma {:induction false} PickedSlot(t: Table, cursor: nat, r: int)
    requires Picks(t, cursor, r)
    ensures r < MAX_PROCESSES && (r >= 0 ==> Runnable(t[r]))
  {
  }

  lemma {:induction false} PreemptedSimilar(s: State, hasRegs: bool, now: nat, t: Table)
    requires RunningOk(s) && t == Preempted(s, hasRegs, now) && (hasRegs || s.current.NoProcess?)
    ensures forall i :: 0 <= i < MAX_PROCESSES ==> SimilarSlot(s.table[i], t[i])
    ensures forall i :: Used(t, i) ==> !t[i].value.state.Running?
    ensures forall i :: Used(t, i) && WaitsForChild(t[i]) ==> t[i] == s.table[i]
  {
    var w := Woken(s.table, now);
    forall i | 0 <= i < MAX_PROCESSES
      ensures SimilarSlot(s.table[i], t[i]) && (t[i].Some? ==> !t[i].value.state.Running?)
      ensures WaitsForChild(t[i]) ==> t[i] == s.table[i]
    {
      assert w[i] == WakeOne(s.table[i], now);
      assert Used(s.table, i) && s.table[i].value.state.Running? ==> s.current == Slot(i);
    }
  }

  lemma {:induction false} DispatchKeeps(s: State, t: Table, hasRegs: bool, r: int)
    requires Inv(s) && r < MAX_PROCESSES && (r >= 0 ==> Runnable(t[r]))
    requires forall i :: 0 <= i < MAX_PROCESSES ==> SimilarSlot(s.table[i], t[i])
    requires forall i :: Used(t, i) ==> !t[i].value.state.Running?
    requires forall i :: Used(t, i) && WaitsForChild(t[i]) ==> t[i] == s.table[i]
    ensures Inv(Dispatch(s, t, hasRegs, r))
  {
    SimilarKeeps(s, Dispatch(s, t, hasRegs, r));
  }

  // ----- adding

  lemma {:induction false} OccupiedSet(t: Table, i: nat, p: Option<Proc>, n: nat)
    requires n <= MAX_PROCESSES && i < MAX_PROCESSES
    ensures Occupied(Set(t, i, p), n) ==
      Occupied(t, n) + (if i < n && p.Some? then 1 else 0) - (if i < n && t[i].Some? then 1 else 0)
  {
    if n > 0 {
      OccupiedSet(t, i, p, n - 1);
    }
  }

  lemma {:induction false} OccupiedBound(t: Table, n: nat)
    requires n <= MAX_PROCESSES
    ensures Occupied(t, n) <= n && forall i :: 0 <= i < n && t[i].Some? ==> Occupied(t, n) >= 1
  {
    if n > 0 {
      OccupiedBound(t, n - 1);
    }
  }

  /** A new process has a new PID, and its parent is alive or none. */
  lemma {:induction false} AddKeeps(s: State, parentPid: nat, priority: nat)
    requires Inv(s) && (parentPid == 0 || exists k :: Used(s.table, k) && s.table[k].value.pid == parentPid && !ZombieAt(s.table, k))
    ensures Inv(AfterAdd(s.(nextPid := s.nextPid + 1), NewProc(s.nextPid, parentPid, priority)))
  {
    hide FindPid, FreeSlot;
    var s1 := s.(nextPid := s.nextPid + 1);
    var p := NewProc(s.nextPid, parentPid, priority);
    var slot := FreeSlot(s.table, 0);
    SimilarKeeps(s, s1);
    if FindPid(s.table, p.pid, 0) < 0 && slot >= 0 {
      OccupiedSet(s.table, slot, Some(p), MAX_PROCESSES);
      AddedOk(s1, slot, p, parentPid);
    }
  }

  lemma {:induction false} AddedOk(s: State, slot: nat, p: Proc, parentPid: nat)
    requires Inv(s) && slot < MAX_PROCESSES && s.table[slot].None? && p.parentPid == parentPid && p.state.Ready?
    requires 1 <= p.pid < s.nextPid && (forall i :: Used(s.table, i) ==> s.table[i].value.pid != p.pid)
    requires parentPid == 0 || exists k :: Used(s.table, k) && s.table[k].value.pid == parentPid && !ZombieAt(s.table, k)
    requires Occupied(Set(s.table, slot, Some(p)), MAX_PROCESSES) == s.count + 1
    ensures Inv(s.(table := Set(s.table, slot, Some(p)), count := s.count + 1))
  {
    var s' := s.(table := Set(s.table, slot, Some(p)), count := s.count + 1);
    assert forall i :: Used(s'.table, i) ==> i == slot || (Used(s.table, i) && s'.table[i] == s.table[i]);
    assert OrphansOk(s') by {
      forall i, j | ZombieAt(s'.table, i) && s'.init != Some(i) && Used(s'.table, j)
        ensures s'.table[j].value.parentPid != s'.table[i].value.pid
      {
        assert ZombieAt(s.table, i);
        if j == slot && parentPid != 0 {
          var k :| Used(s.table, k) && s.table[k].value.pid == parentPid && !ZombieAt(s.table, k);
        }
      }
    }
    assert WaitsOk(s'.table) by {
      forall i, j | 0 <= i < MAX_PROCESSES && 0 <= j < MAX_PROCESSES && WaitsForChild(s'.table[i])
        ensures !Reapable(s'.table[j], s'.table[i].value.pid, s'.table[i].value.waitPid)
      {
        assert WaitsForChild(s.table[i]);
      }
    }
  }

  // ----- waiting

  /** Reaping removes a zombie that has no children. */
  lemma {:induction false} ReapKeeps(s: State, j: nat)
    requires Inv(s) && ZombieAt(s.table, j) && s.init != Some(j)
    ensures s.count >= 1 && Inv(s.(table := Set(s.table, j, None), count := s.count - 1))
  {
    OccupiedSet(s.table, j, None, MAX_PROCESSES);
    OccupiedBound(s.table, MAX_PROCESSES);
    var s' := s.(table := Set(s.table, j, None), count := s.count - 1);
    assert forall i :: Used(s'.table, i) ==> Used(s.table, i) && s'.table[i] == s.table[i];
    assert OrphansOk(s') by {
      forall i, k | ZombieAt(s'.table, i) && s'.init != Some(i) && Used(s'.table, k)
        ensures s'.table[k].value.parentPid != s'.table[i].value.pid
      {
        assert ZombieAt(s.table, i) && Used(s.table, k);
      }
    }
    assert WaitsOk(s'.table) by {
      forall i, k | 0 <= i < MAX_PROCESSES && 0 <= k < MAX_PROCESSES && WaitsForChild(s'.table[i])
        ensures !Reapable(s'.table[k], s'.table[i].value.pid, s'.table[i].value.waitPid)
      {
        assert WaitsForChild(s.table[i]);
      }
    }
  }

  lemma {:induction false} WaitKeeps(s: State, pid: int, s': State, r: WaitResult)
    requires Inv(s) && Waited(s, pid, s', r)
    ensures Inv(s')
  {
    if !HasCurrent(s) {
      return;
    }
    var i, self := s.current.i, s.table[s.current.i].value;
    match r
    case Reaped(childPid, code) =>
      var j :| 0 <= j < MAX_PROCESSES && j != i && Reapable(s.table[j], self.pid, pid)
        && s' == s.(table := Set(Set(s.table, j, None), i, Some(self.(reason := WaitNone, waitPid := -1))),
                    count := if s.count > 0 then s.count - 1 else 0);
      assert Used(s.table, i) && ZombieAt(s.table, j);
      ReapKeeps(s, j);
      var s1 := s.(table := Set(s.table, j, None), count := s.count - 1);
      var s2 := s1.(table := Set(s1.table, i, Some(self.(reason := WaitNone, waitPid := -1))));
      SimilarKeeps(s1, s2);
      assert s' == s2;
    case Blocked =>
      assert Used(s.table, i);
      SlotKeeps(s, i, self.(reason := WaitChild, waitPid := pid, state := Waiting));
    case NoChildren =>
  }

  // ----- exiting

  /** Adoption moves the children of a zombie to init and wakes init if one of them is a zombie. */
  lemma {:induction false} AdoptionFacts(t: Table, t': Table, pid: nat, init: nat)
    requires init < MAX_PROCESSES && t[init].Some? && t' == AfterAdoption(t, pid, init)
    ensures forall i :: 0 <= i < MAX_PROCESSES ==> t'[i].Some? == t[i].Some?
    ensures forall i :: Used(t, i) ==> t'[i].value.pid == t[i].value.pid && t'[i].value.exitCode == t[i].value.exitCode
    ensures forall i :: Used(t, i) ==>
      t'[i].value.parentPid == if t[i].value.parentPid == pid then t[init].value.pid else t[i].value.parentPid
    ensures forall i :: Used(t, i) ==> t'[i].value.state == t[i].value.state || (t[i].value.state.Waiting? && t'[i].value.state.Ready?)
    ensures forall i :: Used(t, i) ==> t'[i].value.reason == t[i].value.reason && t'[i].value.waitPid == t[i].value.waitPid
    ensures (exists i :: Used(t, i) && ZombieChild(t[i], pid)) ==> !t'[init].value.state.Waiting?
  {
    forall i | 0 <= i < MAX_PROCESSES ensures t'[i] == AdoptedSlot(t, pid, init, MAX_PROCESSES, i) {
    }
    if i :| Used(t, i) && ZombieChild(t[i], pid) {
      assert HasZombieChild(t, pid, MAX_PROCESSES);
    }
  }

  /** The processes after an exit and the adoption of the children, before the parent is woken. */
  ghost function ZombieTable(s: State, code: int): (t: Table)
    requires HasCurrent(s)
  {
    Set(s.table, s.current.i, Some(s.table[s.current.i].value.(exitCode := code, state := Zombie)))
  }

  ghost function AdoptedTable(s: State, code: int): (t: Table)
    requires HasCurrent(s) && HasInit(s)
  {
    var i := s.current.i;
    if s.init.value != i then AfterAdoption(ZombieTable(s, code), s.table[i].value.pid, s.init.value) else ZombieTable(s, code)
  }

  /** What is known after adoption; only the parent may still wait for the exiting process. */
  ghost predicate ExitMiddle(s: State, t: Table, i: nat) {
    && (forall j :: 0 <= j < MAX_PROCESSES ==> t[j].Some? == s.table[j].Some?)
    && (forall j :: Used(t, j) ==> t[j].value.pid == s.table[j].value.pid && !t[j].value.state.Running?)
    && InitOk(s.(table := t)) && OrphansOk(s.(table := t)) && ZombieAt(t, i)
    && (forall x, y :: Used(t, x) && Used(t, y) && y != i && WaitsForChild(t[x]) ==>
          !Reapable(t[y], t[x].value.pid, t[x].value.waitPid))
  }

  lemma {:induction false} ExitToMiddle(s: State, code: int)
    requires Inv(s) && HasCurrent(s)
    ensures ExitMiddle(s, AdoptedTable(s, code), s.current.i)
  {
    var i, init := s.current.i, s.init.value;
    var pid, t := s.table[i].value.pid, ZombieTable(s, code);
    var t' := AdoptedTable(s, code);
    assert Used(s.table, i);
    assert forall j :: Used(t, j) ==> Used(s.table, j) && (j != i ==> t[j] == s.table[j]);
    if init != i {
      AdoptionFacts(t, t', pid, init);
      MiddleOrphans(s, t, t', i, pid, init);
      MiddleWaits(s, t, t', i, pid, init);
    } else {
      MiddleSelf(s, t, i);
    }
  }

  /** Init exits: nothing is adopted. */
  lemma {:induction false} MiddleSelf(s: State, t: Table, i: nat)
    requires Inv(s) && Used(s.table, i) && s.init == Some(i) && Used(t, i)
    requires forall j :: 0 <= j < MAX_PROCESSES && j != i ==> t[j] == s.table[j]
    requires t[i].value.pid == s.table[i].value.pid && t[i].value.parentPid == s.table[i].value.parentPid && t[i].value.state.Zombie?
    ensures OrphansOk(s.(table := t))
    ensures forall x, y :: Used(t, x) && Used(t, y) && y != i && WaitsForChild(t[x]) ==>
      !Reapable(t[y], t[x].value.pid, t[x].value.waitPid)
  {
    forall a, b | ZombieAt(t, a) && s.init != Some(a) && Used(t, b) ensures t[b].value.parentPid != t[a].value.pid {
      assert ZombieAt(s.table, a) && Used(s.table, b);
    }
    forall x, y | Used(t, x) && Used(t, y) && y != i && WaitsForChild(t[x])
      ensures !Reapable(t[y], t[x].value.pid, t[x].value.waitPid)
    {
      assert WaitsForChild(s.table[x]);
    }
  }

  lemma {:induction false} MiddleOrphans(s: State, t: Table, t': Table, i: nat, pid: nat, init: nat)
    requires Inv(s) && Used(s.table, i) && s.table[i].value.pid == pid && s.init == Some(init) && init != i
    requires forall j :: 0 <= j < MAX_PROCESSES && j != i ==> t[j] == s.table[j]
    requires Used(t, i) && t[i].value.pid == pid && t[i].value.parentPid == s.table[i].value.parentPid
    requires forall j :: 0 <= j < MAX_PROCESSES ==> t'[j].Some? == t[j].Some?
    requires forall j :: Used(t, j) ==> t'[j].value.pid == t[j].value.pid && (t'[j].value.state.Zombie? ==> t[j].value.state.Zombie?)
    requires forall j :: Used(t, j) ==>
      t'[j].value.parentPid == if t[j].value.parentPid == pid then t[init].value.pid else t[j].value.parentPid
    ensures OrphansOk(s.(table := t'))
  {
    forall a, b | ZombieAt(t', a) && s.init != Some(a) && Used(t', b) ensures t'[b].value.parentPid != t'[a].value.pid {
      assert Used(s.table, a) && Used(s.table, b) && Used(s.table, init) && Used(t, b) && Used(t, a);
      if a != i {
        assert ZombieAt(s.table, a);
      }
    }
  }

  lemma {:induction false} MiddleWaits(s: State, t: Table, t': Table, i: nat, pid: nat, init: nat)
    requires Inv(s) && Used(s.table, i) && s.table[i].value.pid == pid && s.init == Some(init) && init != i
    requires forall j :: 0 <= j < MAX_PROCESSES && j != i ==> t[j] == s.table[j]
    requires ZombieAt(t, i) && t[i].value.pid == pid
    requires t' == AfterAdoption(t, pid, init)
    ensures forall x, y :: Used(t', x) && Used(t', y) && y != i && WaitsForChild(t'[x]) ==>
      !Reapable(t'[y], t'[x].value.pid, t'[x].value.waitPid)
  {
    AdoptionFacts(t, t', pid, init);
    forall x, y | Used(t', x) && Used(t', y) && y != i && WaitsForChild(t'[x])
      ensures !Reapable(t'[y], t'[x].value.pid, t'[x].value.waitPid)
    {
      assert Used(t, x) && Used(t, y) && x != i && WaitsForChild(s.table[x]);
      assert Used(s.table, x) && Used(s.table, init);
      if t[y].value.parentPid == pid && t'[y].value.state.Zombie? {
        assert ZombieChild(t[y], pid);
      }
    }
  }

  /** Waking the parent leaves nobody waiting for the exiting process. */
  lemma {:induction false} MiddleToExit(s: State, t: Table, i: nat)
    requires Inv(s) && ExitMiddle(s, t, i)
    ensures Inv(s.(table := WakeParent(t, t[i].value.parentPid), current := NoProcess))
  {
    hide FindPid;
    var parentPid := t[i].value.parentPid;
    var p := FindPid(t, parentPid, 0);
    var t' := WakeParent(t, parentPid);
    var s' := s.(table := t', current := NoProcess);
    assert forall j :: 0 <= j < MAX_PROCESSES ==> t'[j].Some? == t[j].Some?;
    assert forall j :: Used(t', j) ==> Used(t, j) && Used(s.table, j) && SimilarSlot(t[j], t'[j]);
    OccupiedSimilar(s.table, t', MAX_PROCESSES);
    assert OrphansOk(s') by {
      forall a, b | ZombieAt(t', a) && s.init != Some(a) && Used(t', b) ensures t'[b].value.parentPid != t'[a].value.pid {
        assert ZombieAt(t, a) && Used(t, b);
      }
    }
    forall x, y | 0 <= x < MAX_PROCESSES && 0 <= y < MAX_PROCESSES && WaitsForChild(t'[x])
      ensures !Reapable(t'[y], t'[x].value.pid, t'[x].value.waitPid)
    {
      WokenParent(s, t, i, x, y);
    }
  }

  lemma {:induction false} WokenParent(s: State, t: Table, i: nat, x: int, y: int)
    requires Inv(s) && ExitMiddle(s, t, i) && 0 <= x < MAX_PROCESSES && 0 <= y < MAX_PROCESSES
    requires WaitsForChild(WakeParent(t, t[i].value.parentPid)[x])
    ensures var t' := WakeParent(t, t[i].value.parentPid); !Reapable(t'[y], t'[x].value.pid, t'[x].value.waitPid)
  {
    hide FindPid;
    var parentPid := t[i].value.parentPid;
    var p := FindPid(t, parentPid, 0);
    assert WaitsForChild(t[x]) && Used(t, x);
    assert Used(s.table, x) && (p >= 0 ==> Used(t, p) && Used(s.table, p));
    assert y == i && p < 0 ==> t[x].value.pid != parentPid;
  }

  lemma {:induction false} ExitKeeps(s: State, code: int)
    requires Inv(s) && HasCurrent(s)
    ensures Inv(AfterExit(s, code))
  {
    ExitToMiddle(s, code);
    MiddleToExit(s, AdoptedTable(s, code), s.current.i);
  }

  // ----- runs

  lemma {:induction false} StepKeeps(s: State, op: Op, s': State, r: Option<WaitResult>)
    requires Inv(s) && Step(s, op, s', r)
    ensures Inv(s')
  {
    hide Inv, Scheduled, Waited, AfterExit;
    match op
    case Create(byCurrent, priority) =>
      CreateKeeps(s, byCurrent, priority);
    case Clone(src, resources) =>
      CloneKeeps(s, src, resources);
    case Schedule(now) =>
      ScheduleKeeps(s, true, now, s');
    case Wait(pid) =>
      WaitKeeps(s, pid, s', r.value);
    case Exit(code, now) =>
      ExitKeeps(s, code);
      ExitLeavesNone(s, code);
      ScheduleKeeps(AfterExit(s, code), false, now, s');
    case Sleep(deadline) =>
      CurrentAlive(s);
      SlotKeeps(s, s.current.i, s.table[s.current.i].value.(deadline := deadline, state := Sleeping));
    case BlockTty =>
      CurrentAlive(s);
      SlotKeeps(s, s.current.i, s.table[s.current.i].value.(reason := WaitTty, waitPid := -1, state := Waiting));
    case WakeTty(i) =>
      if s' != s {
        SlotKeeps(s, i, s.table[i].value.(reason := WaitNone, waitPid := -1, state := Ready));
      }
    case WakeSleeper(i) =>
      if s' != s {
        SlotKeeps(s, i, s.table[i].value.(deadline := 0, state := Ready));
      }
  }

  lemma {:induction false} CurrentAlive(s: State)
    requires Inv(s) && HasCurrent(s)
    ensures !s.table[s.current.i].value.state.Zombie?
  {
  }

  lemma {:induction false} ExitLeavesNone(s: State, code: int)
    requires HasCurrent(s)
    ensures AfterExit(s, code).current.NoProcess? && AfterExit(s, code).nextPid == s.nextPid
  {
  }

  lemma {:induction false} CreateKeeps(s: State, byCurrent: bool, priority: nat)
    requires Inv(s)
    ensures Inv(AfterAdd(s.(nextPid := s.nextPid + 1), NewProc(s.nextPid, ParentOf(s, byCurrent), priority)))
  {
    if byCurrent && HasCurrent(s) {
      assert Used(s.table, s.current.i);
    }
    AddKeeps(s, ParentOf(s, byCurrent), priority);
  }

  lemma {:induction false} CloneKeeps(s: State, src: nat, resources: bool)
    requires Inv(s) && src < MAX_PROCESSES && s.table[src].Some?
    ensures Inv(AfterClone(s, src, resources))
  {
    hide AfterAdd, WaitsOk, OrphansOk, Occupied;
    var p := s.table[src].value;
    if !p.state.Zombie? {
      assert Used(s.table, src);
      SimilarKeeps(s, s.(nextPid := s.nextPid + 1));
      AddKeeps(s, p.pid, p.priority);
    }
  }

  /** The exit codes of all processes that have exited, and the processes that have been reaped. */
  datatype History = History(exited: map<nat, int>, reaped: set<nat>)

  function Recorded(h: History, s: State, op: Op, r: Option<WaitResult>): (h': History) {
    if op.Exit? && HasCurrent(s) then h.(exited := h.exited[s.table[s.current.i].value.pid := op.code])
    else if r.Some? && r.value.Reaped? then h.(reaped := h.reaped + {r.value.pid})
    else h
  }

  /** Zombies are exactly the exited processes that were not reaped. */
  ghost predicate HistoryOk(h: History, s: State) {
    && (forall i :: Used(s.table, i) ==> (ZombieAt(s.table, i) <==> s.table[i].value.pid in h.exited))
    && (forall i :: ZombieAt(s.table, i) ==> s.table[i].value.exitCode == h.exited[s.table[i].value.pid])
    && (forall i :: Used(s.table, i) ==> s.table[i].value.pid !in h.reaped)
    && (forall pid :: pid in h.exited ==> pid < s.nextPid)
    && (forall pid :: pid in h.reaped ==> pid in h.exited)
  }

  lemma {:induction false} HistorySimilar(h: History, s: State, s': State)
    requires HistoryOk(h, s) && s'.nextPid >= s.nextPid
    requires forall i :: 0 <= i < MAX_PROCESSES ==> SimilarSlot(s.table[i], s'.table[i])
    ensures HistoryOk(h, s')
  {
    forall i | Used(s'.table, i) ensures Used(s.table, i) && SimilarSlot(s.table[i], s'.table[i]) {
    }
  }

  lemma {:induction false} HistoryAdd(h: History, s: State, parentPid: nat, priority: nat)
    requires Inv(s) && HistoryOk(h, s)
    ensures HistoryOk(h, AfterAdd(s.(nextPid := s.nextPid + 1), NewProc(s.nextPid, parentPid, priority)))
  {
    hide FindPid, FreeSlot;
    var s' := AfterAdd(s.(nextPid := s.nextPid + 1), NewProc(s.nextPid, parentPid, priority));
    forall i | Used(s'.table, i)
      ensures (Used(s.table, i) && s'.table[i] == s.table[i]) || s'.table[i].value == NewProc(s.nextPid, parentPid, priority)
    {
    }
  }

  lemma {:induction false} HistoryClone(h: History, s: State, src: nat, resources: bool)
    requires Inv(s) && HistoryOk(h, s) && src < MAX_PROCESSES && s.table[src].Some?
    ensures HistoryOk(h, AfterClone(s, src, resources))
  {
    hide Inv, HistoryOk, AfterAdd;
    HistorySimilar(h, s, s.(nextPid := s.nextPid + 1));
    HistoryAdd(h, s, s.table[src].value.pid, s.table[src].value.priority);
  }

  lemma {:induction false} HistorySchedule(h: History, s: State, hasRegs: bool, now: nat, s': State)
    requires Inv(s) && HistoryOk(h, s) && Scheduled(s, hasRegs, now, s') && (hasRegs || s.current.NoProcess?)
    ensures HistoryOk(h, s')
  {
    var t := Preempted(s, hasRegs, now);
    var r :| Picks(t, s.cursor, r) && s' == Dispatch(s, t, hasRegs, r);
    PreemptedSimilar(s, hasRegs, now, t);
    HistorySimilar(h, s, s');
  }

  /** An exit makes the current process a zombie with the given code; all other zombies and codes stay. */
  lemma {:induction false} ExitEffect(s: State, code: int)
    requires Inv(s) && HasCurrent(s)
    ensures forall j :: Used(AfterExit(s, code).table, j) ==> ExitEffectAt(s, code, j)
  {
    hide FindPid, OrphansOk, WaitsOk, Occupied;
    var i := s.current.i;
    var pid, t := s.table[i].value.pid, ZombieTable(s, code);
    var t', s' := AdoptedTable(s, code), AfterExit(s, code);
    if s.init.value != i {
      AdoptionFacts(t, t', pid, s.init.value);
    }
    assert s'.table == WakeParent(t', t'[i].value.parentPid);
    forall j | Used(s'.table, j) ensures ExitEffectAt(s, code, j) {
      assert Used(t', j) && SimilarSlot(t'[j], s'.table[j]);
      assert Used(t, j) && Used(s.table, j);
    }
  }

  ghost predicate ExitEffectAt(s: State, code: int, j: int)
    requires HasCurrent(s)
  {
    var t', i := AfterExit(s, code).table, s.current.i;
    && Used(s.table, j) && Used(t', j) && t'[j].value.pid == s.table[j].value.pid
    && (ZombieAt(t', j) <==> ZombieAt(s.table, j) || j == i)
    && t'[j].value.exitCode == if j == i then code else s.table[j].value.exitCode
  }

  lemma {:induction false} HistoryExit(h: History, s: State, code: int)
    requires Inv(s) && HistoryOk(h, s) && HasCurrent(s)
    ensures HistoryOk(h.(exited := h.exited[s.table[s.current.i].value.pid := code]), AfterExit(s, code))
  {
    hide AfterExit, OrphansOk, WaitsOk, Occupied;
    ExitEffect(s, code);
    assert Used(s.table, s.current.i);
    assert AfterExit(s, code).nextPid == s.nextPid by { ExitLeavesNone(s, code); }
    forall j | Used(AfterExit(s, code).table, j) ensures ExitEffectAt(s, code, j) {
    }
  }

  /** A wait reaps a process that has exited, was not reaped before, and returns its exit code. */
  lemma {:induction false} WaitReaps(h: History, s: State, pid: int, s': State, r: WaitResult)
    requires Inv(s) && HistoryOk(h, s) && Waited(s, pid, s', r)
    ensures r.Reaped? ==> r.pid in h.exited && r.code == h.exited[r.pid] && r.pid !in h.reaped
    ensures HistoryOk(Recorded(h, s, Wait(pid), Some(r)), s')
  {
    hide InitOk, OrphansOk, WaitsOk, Occupied;
    if !HasCurrent(s) {
      return;
    }
    var i, self := s.current.i, s.table[s.current.i].value;
    assert Used(s.table, i);
    match r
    case Reaped(childPid, code) =>
      var j :| 0 <= j < MAX_PROCESSES && j != i && Reapable(s.table[j], self.pid, pid)
        && childPid == s.table[j].value.pid && code == s.table[j].value.exitCode
        && s' == s.(table := Set(Set(s.table, j, None), i, Some(self.(reason := WaitNone, waitPid := -1))),
                    count := if s.count > 0 then s.count - 1 else 0);
      assert ZombieAt(s.table, j);
      forall k | Used(s'.table, k)
        ensures k != j && Used(s.table, k) && SimilarSlot(s.table[k], s'.table[k]) && s.table[k].value.pid != childPid
      {
      }
    case Blocked =>
      HistorySimilar(h, s, s');
    case NoChildren =>
  }

  lemma {:induction false} StepRecords(h: History, s: State, op: Op, s': State, r: Option<WaitResult>)
    requires Inv(s) && HistoryOk(h, s) && Step(s, op, s', r)
    ensures HistoryOk(Recorded(h, s, op, r), s')
  {
    hide Scheduled, Waited, AfterExit, HistoryOk, Inv, AfterAdd, AfterClone;
    match op
    case Create(byCurrent, priority) =>
      HistoryAdd(h, s, ParentOf(s, byCurrent), priority);
    case Clone(src, resources) =>
      HistoryClone(h, s, src, resources);
    case Schedule(now) =>
      HistorySchedule(h, s, true, now, s');
    case Wait(pid) =>
      WaitReaps(h, s, pid, s', r.value);
    case Exit(code, now) =>
      HistoryExit(h, s, code);
      ExitKeeps(s, code);
      ExitLeavesNone(s, code);
      HistorySchedule(Recorded(h, s, op, r), AfterExit(s, code), false, now, s');
    case Sleep(_) =>
      CurrentAlive(s);
      HistorySimilar(h, s, s');
    case BlockTty =>
      CurrentAlive(s);
      HistorySimilar(h, s, s');
    case WakeTty(_) =>
      HistorySimilar(h, s, s');
    case WakeSleeper(_) =>
      HistorySimilar(h, s, s');
  }

  /** A run with the result of each operation and the history so far. */
  ghost predicate Run(ss: seq<State>, hs: seq<History>, ops: seq<Op>, rs: seq<Option<WaitResult>>) {
    && |ss| == |hs| == |ops| + 1 && |rs| == |ops|
    && Inv(ss[0]) && HistoryOk(hs[0], ss[0])
    && forall k :: 0 <= k < |ops| ==> RunStep(ss, hs, ops, rs, k)
  }

  ghost predicate RunStep(ss: seq<State>, hs: seq<History>, ops: seq<Op>, rs: seq<Option<WaitResult>>, k: nat)
    requires k < |ops| == |rs| && |ss| == |hs| == |ops| + 1
  {
    Step(ss[k], ops[k], ss[k + 1], rs[k]) && hs[k + 1] == Recorded(hs[k], ss[k], ops[k], rs[k])
  }

  /** The invariants hold in every state of every run. */
  lemma {:induction false} RunKeeps(ss: seq<State>, hs: seq<History>, ops: seq<Op>, rs: seq<Option<WaitResult>>, k: nat)
    requires Run(ss, hs, ops, rs) && k < |ss|
    ensures Inv(ss[k]) && HistoryOk(hs[k], ss[k])
  {
    hide Inv, HistoryOk, Step, Recorded;
    if k > 0 {
      RunKeeps(ss, hs, ops, rs, k - 1);
      assert RunStep(ss, hs, ops, rs, k - 1);
      StepKeeps(ss[k - 1], ops[k - 1], ss[k], rs[k - 1]);
      StepRecords(hs[k - 1], ss[k - 1], ops[k - 1], ss[k], rs[k - 1]);
    }
  }

  /** In every run, no two waits reap the same process, and each returns the code of the exit. */
  lemma {:induction false} ReapedOnce(ss: seq<State>, hs: seq<History>, ops: seq<Op>, rs: seq<Option<WaitResult>>,
                                      a: nat, b: nat)
    requires Run(ss, hs, ops, rs) && a < b < |ops|
    requires rs[a].Some? && rs[a].value.Reaped? && rs[b].Some? && rs[b].value.Reaped?
    ensures rs[a].value.pid != rs[b].value.pid
    ensures rs[b].value.pid in hs[b].exited && rs[b].value.code == hs[b].exited[rs[b].value.pid]
  {
    RunKeeps(ss, hs, ops, rs, b);
    assert RunStep(ss, hs, ops, rs, b) && RunStep(ss, hs, ops, rs, a);
    WaitReaps(hs[b], ss[b], ops[b].pid, ss[b + 1], rs[b].value);
    assert rs[a].value.pid in hs[a + 1].reaped;
    ReapedStays(ss, hs, ops, rs, a + 1, b, rs[a].value.pid);
  }

  lemma {:induction false} ReapedStays(ss: seq<State>, hs: seq<History>, ops: seq<Op>, rs: seq<Option<WaitResult>>,
                                       a: nat, b: nat, pid: nat)
    requires Run(ss, hs, ops, rs) && a <= b < |ss| && pid in hs[a].reaped
    ensures pid in hs[b].reaped
    decreases b
  {
    if a < b {
      ReapedStays(ss, hs, ops, rs, a, b - 1, pid);
      assert RunStep(ss, hs, ops, rs, b - 1);
    }
  }

  lemma {:induction false} BootedOk(priority: nat)
    ensures Inv(Booted(priority)) && HistoryOk(History(map[], {}), Booted(priority))
  {
    var s := Booted(priority);
    var empty: Table := seq(MAX_PROCESSES, i => None);
    OccupiedNone(empty, MAX_PROCESSES);
    OccupiedSet(empty, 0, s.table[0], MAX_PROCESSES);
    assert forall i :: Used(s.table, i) ==> i == 0;
  }

  lemma {:induction false} OccupiedNone(t: Table, n: nat)
    requires n <= MAX_PROCESSES && forall i :: 0 <= i < n ==> t[i].None?
    ensures Occupied(t, n) == 0
  {
    if n > 0 {
      OccupiedNone(t, n - 1);
    }
  }

  // ----- bounded waiting

  predicate CallsScheduler(op: Op) {
    op.Schedule? || op.Exit?
  }

  function SchedulerCalls(ops: seq<Op>): (n: nat) {
    if ops == [] then 0 else SchedulerCalls(ops[..|ops| - 1]) + if CallsScheduler(ops[|ops| - 1]) then 1 else 0
  }

  /** The table among which a scheduler call picks. */
  ghost function PickTable(s: State, op: Op): (t: Table)
    requires CallsScheduler(op) && (op.Exit? ==> HasCurrent(s))
  {
    if op.Schedule? then Preempted(s, true, op.now) else Preempted(AfterExit(s, op.code), false, op.now)
  }

  predicate ReadyAt(t: Table, i: nat) {
    Used(t, i) && t[i].value.state.Ready?
  }

  /** No runnable process has a higher priority than the one in slot `i`. */
  ghost predicate NothingAbove(t: Table, i: nat) {
    Used(t, i) && forall j :: 0 <= j < MAX_PROCESSES && Runnable(t[j]) ==> t[j].value.priority <= t[i].value.priority
  }

  lemma {:induction false} TopIsEligible(t: Table, i: nat)
    requires ReadyAt(t, i) && NothingAbove(t, i)
    ensures Eligible(t, i)
  {
    HighestIs(t, MAX_PROCESSES);
    assert Runnable(t[i]);
  }

  /** Passing over slot `i` brings the cursor closer to it. */
  lemma {:induction false} CursorAdvances(cursor: nat, r: nat, i: nat)
    requires cursor < MAX_PROCESSES && r < MAX_PROCESSES && i < MAX_PROCESSES && r != i
    requires Distance(cursor, r) <= Distance(cursor, i)
    ensures Distance((r + 1) % MAX_PROCESSES, i) < Distance(cursor, i)
  {
  }

  lemma {:induction false} CallAdvances(s: State, s1: State, hasRegs: bool, now: nat, s': State, i: nat)
    requires s1.cursor == s.cursor < MAX_PROCESSES && Scheduled(s1, hasRegs, now, s')
    requires ReadyAt(s'.table, i) && NothingAbove(Preempted(s1, hasRegs, now), i)
    ensures s'.cursor < MAX_PROCESSES && Distance(s'.cursor, i) < Distance(s.cursor, i)
  {
    var t := Preempted(s1, hasRegs, now);
    var r :| Picks(t, s1.cursor, r) && s' == Dispatch(s1, t, hasRegs, r);
    assert t[i] == s'.table[i];
    TopIsEligible(t, i);
    CursorAdvances(s.cursor, r, i);
  }

  lemma {:induction false} StepAdvances(s: State, op: Op, s': State, r: Option<WaitResult>, i: nat)
    requires Step(s, op, s', r) && s.cursor < MAX_PROCESSES && ReadyAt(s'.table, i)
    requires CallsScheduler(op) ==> NothingAbove(PickTable(s, op), i)
    ensures s'.cursor < MAX_PROCESSES
    ensures Distance(s'.cursor, i) + (if CallsScheduler(op) then 1 else 0) <= Distance(s.cursor, i)
  {
    hide Scheduled, AfterExit, Preempted, NothingAbove, Distance, AfterAdd;
    match op
    case Schedule(now) =>
      CallAdvances(s, s, true, now, s', i);
    case Exit(code, now) =>
      ExitCursor(s, code);
      CallAdvances(s, AfterExit(s, code), false, now, s', i);
    case Create(byCurrent, priority) =>
      AddCursor(s.(nextPid := s.nextPid + 1), NewProc(s.nextPid, ParentOf(s, byCurrent), priority));
    case Clone(src, _) =>
      AddCursor(s.(nextPid := s.nextPid + 1), NewProc(s.nextPid, s.table[src].value.pid, s.table[src].value.priority));
    case _ =>
  }

  lemma {:induction false} ExitCursor(s: State, code: int)
    requires HasCurrent(s)
    ensures AfterExit(s, code).cursor == s.cursor
  {
  }

  lemma {:induction false} AddCursor(s: State, p: Proc)
    ensures AfterAdd(s, p).cursor == s.cursor
  {
  }

  /** Step `k` of a run after which slot `i` is ready still, with nothing of higher priority runnable. */
  ghost predicate TopStep(ss: seq<State>, ops: seq<Op>, rs: seq<Option<WaitResult>>, i: nat, k: nat)
    requires k < |ops| == |rs| < |ss|
  {
    && Step(ss[k], ops[k], ss[k + 1], rs[k])
    && ReadyAt(ss[k + 1].table, i)
    && (CallsScheduler(ops[k]) ==> NothingAbove(PickTable(ss[k], ops[k]), i))
  }

  /**
    A process that stays ready, with nothing of higher priority runnable, is passed over by fewer
    scheduler calls than there are slots: the next call selects it.
  */
  lemma {:induction false} BoundedWaiting(ss: seq<State>, ops: seq<Op>, rs: seq<Option<WaitResult>>, i: nat)
    requires |ss| == |ops| + 1 && |rs| == |ops| && ss[0].cursor < MAX_PROCESSES && i < MAX_PROCESSES
    requires forall k :: 0 <= k < |ops| ==> TopStep(ss, ops, rs, i, k)
    ensures ss[|ops|].cursor < MAX_PROCESSES
    ensures Distance(ss[|ops|].cursor, i) + SchedulerCalls(ops) <= Distance(ss[0].cursor, i)
    ensures SchedulerCalls(ops) < MAX_PROCESSES
    decreases |ops|
  {
    hide Step, Distance, NothingAbove, PickTable;
    if ops != [] {
      var n := |ops| - 1;
      var ss', ops', rs' := ss[..n + 1], ops[..n], rs[..n];
      forall k | 0 <= k < n ensures TopStep(ss', ops', rs', i, k) {
        assert TopStep(ss, ops, rs, i, k);
      }
      BoundedWaiting(ss', ops', rs', i);
      assert TopStep(ss, ops, rs, i, n);
      StepAdvances(ss[n], ops[n], ss[n + 1], rs[n], i);
    }
  }
}
