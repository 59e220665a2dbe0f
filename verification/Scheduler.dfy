/** The process table and the scheduler of kernel/sched.c. */
module Scheduler {
  import opened Arith

  const MAX_PROCESSES: nat := 64
  const PRIO_NORMAL: nat := 2

  datatype TaskState = Running | Ready | Sleeping | Waiting | Zombie

  datatype WaitReason = WaitNone | WaitChild | WaitTty

  datatype Proc = Proc(pid: nat, parentPid: nat, exitCode: int, state: TaskState, priority: nat,
                       reason: WaitReason, waitPid: int, deadline: nat)

  type Table = t: seq<Option<Proc>> | |t| == MAX_PROCESSES witness seq(MAX_PROCESSES, i => None)

  /** `current_process`: none, the idle process, or the process in a slot of the table. */
  datatype Current = NoProcess | IdleProcess | Slot(i: nat)

  datatype State = State(table: Table, count: nat, current: Current, init: Option<nat>, cursor: nat, nextPid: nat)

  // ----- the operations on values

  function Set(t: Table, i: nat, p: Option<Proc>): (r: Table)
    requires i < MAX_PROCESSES
  {
    t[i := p]
  }

  predicate Runnable(p: Option<Proc>) {
    p.Some? && (p.value.state.Ready? || p.value.state.Running?)
  }

  /** `wake_sleeping_processes` on one slot. */
  function WakeOne(p: Option<Proc>, now: nat): (r: Option<Proc>) {
    if p.Some? && p.value.state.Sleeping? && p.value.deadline != 0 && now >= p.value.deadline
    then Some(p.value.(deadline := 0, state := Ready)) else p
  }

  function Woken(t: Table, now: nat): (r: Table)
    ensures forall i :: 0 <= i < MAX_PROCESSES ==> r[i] == WakeOne(t[i], now)
  {
    seq(MAX_PROCESSES, i requires 0 <= i < MAX_PROCESSES => WakeOne(t[i], now))
  }

  function WithState(t: Table, i: nat, s: TaskState): (r: Table)
    requires i < MAX_PROCESSES && t[i].Some?
  {
    Set(t, i, Some(t[i].value.(state := s)))
  }

  /** The highest priority of a runnable process among the first `n` slots, or -1. */
  function Highest(t: Table, n: nat): (h: int)
    requires n <= MAX_PROCESSES
  {
    if n == 0 then -1
    else
      var h := Highest(t, n - 1);
      if Runnable(t[n - 1]) && t[n - 1].value.priority > h then t[n - 1].value.priority else h
  }

  /** The table when the scheduler picks: sleepers woken, the preempted process ready again. */
  function Preempted(s: State, hasRegs: bool, now: nat): (r: Table) {
    var t := Woken(s.table, now);
    if s.current.Slot? && s.current.i < MAX_PROCESSES && t[s.current.i].Some? && t[s.current.i].value.state.Running? && hasRegs
    then WithState(t, s.current.i, Ready) else t
  }

  predicate Eligible(t: Table, i: nat) {
    i < MAX_PROCESSES && Runnable(t[i]) && t[i].value.priority == Highest(t, MAX_PROCESSES)
  }

  /** The steps from the cursor to slot `i`, going round the table. */
  function Distance(cursor: nat, i: nat): (d: nat)
    requires cursor < MAX_PROCESSES && i < MAX_PROCESSES
    ensures d < MAX_PROCESSES
  {
    if i >= cursor then i - cursor else i + MAX_PROCESSES - cursor
  }

  /** A cursor outside the table counts as 0. */
  function Normal(cursor: nat): (c: nat)
    ensures c < MAX_PROCESSES
  {
    if cursor >= MAX_PROCESSES then 0 else cursor
  }

  /** `r` is the eligible slot closest to the cursor, or -1 if nothing is runnable. */
  ghost predicate Picks(t: Table, cursor: nat, r: int) {
    && -1 <= r < MAX_PROCESSES
    && (r < 0 ==> forall i :: 0 <= i < MAX_PROCESSES ==> !Runnable(t[i]))
    && (r >= 0 ==> Eligible(t, r))
    && (r >= 0 ==> forall i: nat :: Eligible(t, i) ==> Distance(Normal(cursor), r) <= Distance(Normal(cursor), i))
  }

  lemma {:induction false} PickUnique(t: Table, cursor: nat, r: int, r': int)
    requires Picks(t, cursor, r) && Picks(t, cursor, r')
    ensures r == r'
  {
    if r >= 0 && r' >= 0 {
      assert Distance(Normal(cursor), r) == Distance(Normal(cursor), r');
    }
  }

  /** What a scheduler call does to the table, given the slot it picks. */
  function Dispatch(s: State, t: Table, hasRegs: bool, r: int): (s': State)
    requires r < MAX_PROCESSES && (r >= 0 ==> t[r].Some?)
  {
    if r >= 0 then s.(table := WithState(t, r, Running), current := Slot(r), cursor := (r + 1) % MAX_PROCESSES)
    else if s.current.NoProcess? && hasRegs then s.(table := t)
    else s.(table := t, current := IdleProcess)
  }

  ghost predicate Scheduled(s: State, hasRegs: bool, now: nat, s': State) {
    exists r :: Picks(Preempted(s, hasRegs, now), s.cursor, r) && s' == Dispatch(s, Preempted(s, hasRegs, now), hasRegs, r)
  }

  lemma {:induction false} HighestIs(t: Table, n: nat)
    requires n <= MAX_PROCESSES
    ensures forall i :: 0 <= i < n && Runnable(t[i]) ==> t[i].value.priority <= Highest(t, n)
    ensures Highest(t, n) >= 0 ==> exists i :: 0 <= i < n && Runnable(t[i]) && t[i].value.priority == Highest(t, n)
    ensures Highest(t, n) >= -1
  {
    if n > 0 {
      HighestIs(t, n - 1);
    }
  }

  // ----- exit and wait on values

  /** One slot after its parent `pid` has gone: the child belongs to init. */
  function AdoptOne(p: Option<Proc>, pid: nat, initPid: nat): (r: Option<Proc>) {
    if p.Some? && p.value.parentPid == pid then Some(p.value.(parentPid := initPid)) else p
  }

  predicate ZombieChild(p: Option<Proc>, pid: nat) {
    p.Some? && p.value.parentPid == pid && p.value.state.Zombie?
  }

  /** A zombie child of `pid` among the first `n` slots. */
  predicate HasZombieChild(t: Table, pid: nat, n: nat)
    requires n <= MAX_PROCESSES
  {
    exists i :: 0 <= i < n && ZombieChild(t[i], pid)
  }

  /** `adopt_children` after the first `n` slots. */
  ghost predicate Adopted(t: Table, t': Table, pid: nat, init: nat, n: nat)
    requires n <= MAX_PROCESSES && init < MAX_PROCESSES && t[init].Some?
  {
    forall i :: 0 <= i < MAX_PROCESSES ==> t'[i] == AdoptedSlot(t, pid, init, n, i)
  }

  ghost function AdoptedSlot(t: Table, pid: nat, init: nat, n: nat, i: nat): (r: Option<Proc>)
    requires n <= MAX_PROCESSES && init < MAX_PROCESSES && t[init].Some? && i < MAX_PROCESSES
  {
    var p := if i < n then AdoptOne(t[i], pid, t[init].value.pid) else t[i];
    if i == init && t[init].value.state.Waiting? && HasZombieChild(t, pid, n) then Some(p.value.(state := Ready)) else p
  }

  /** The first slot that holds process `pid`, or -1. */
  function FindPid(t: Table, pid: nat, from: nat): (r: int)
    requires from <= MAX_PROCESSES
    ensures -1 <= r < MAX_PROCESSES && (r >= 0 ==> from <= r && t[r].Some? && t[r].value.pid == pid)
    ensures forall i :: from <= i < (if r >= 0 then r else MAX_PROCESSES) ==> t[i].None? || t[i].value.pid != pid
    decreases MAX_PROCESSES - from
  {
    if from == MAX_PROCESSES then -1
    else if t[from].Some? && t[from].value.pid == pid then from
    else FindPid(t, pid, from + 1)
  }

  /** The parent of an exiting process is woken if it waits for a child. */
  function WakeParent(t: Table, parentPid: nat): (r: Table) {
    var p := FindPid(t, parentPid, 0);
    if p >= 0 && t[p].value.state.Waiting? && t[p].value.reason.WaitChild?
    then Set(t, p, Some(t[p].value.(state := Ready, reason := WaitNone, waitPid := -1))) else t
  }

  /** The slot matches what process `me` waits for. */
  predicate Matches(p: Option<Proc>, me: nat, pid: int) {
    p.Some? && p.value.parentPid == me && (pid == -1 || p.value.pid == pid)
  }

  predicate Reapable(p: Option<Proc>, me: nat, pid: int) {
    Matches(p, me, pid) && p.value.state.Zombie?
  }

  datatype WaitResult = Reaped(pid: nat, code: int) | Blocked | NoChildren

  /** `do_wait` by the current process; without one, nothing happens. */
  ghost predicate Waited(s: State, pid: int, s': State, r: WaitResult) {
    if !HasCurrent(s) then s.current.NoProcess? && r == NoChildren && s' == s else WaitedBy(s, pid, s', r)
  }

  /** The first reapable child is removed, or the process blocks if it has a matching child. */
  ghost predicate WaitedBy(s: State, pid: int, s': State, r: WaitResult)
    requires HasCurrent(s)
  {
    var i, self := s.current.i, s.table[s.current.i].value;
    match r
    case Reaped(childPid, code) => exists j ::
      && 0 <= j < MAX_PROCESSES && j != i && Reapable(s.table[j], self.pid, pid)
      && (forall k :: 0 <= k < j ==> !Reapable(s.table[k], self.pid, pid))
      && childPid == s.table[j].value.pid && code == s.table[j].value.exitCode
      && s' == s.(table := Set(Set(s.table, j, None), i, Some(self.(reason := WaitNone, waitPid := -1))),
                  count := if s.count > 0 then s.count - 1 else 0)
    case Blocked =>
      && (exists j :: 0 <= j < MAX_PROCESSES && Matches(s.table[j], self.pid, pid))
      && (forall j :: 0 <= j < MAX_PROCESSES ==> !Reapable(s.table[j], self.pid, pid))
      && s' == s.(table := Set(s.table, i, Some(self.(reason := WaitChild, waitPid := pid, state := Waiting))))
    case NoChildren =>
      && (forall j :: 0 <= j < MAX_PROCESSES ==> !Matches(s.table[j], self.pid, pid))
      && s' == s
  }

  /** The table after `adopt_children`. */
  ghost function AfterAdoption(t: Table, pid: nat, init: nat): (t': Table)
    requires init < MAX_PROCESSES && t[init].Some?
    ensures Adopted(t, t', pid, init, MAX_PROCESSES)
  {
    seq(MAX_PROCESSES, i requires 0 <= i < MAX_PROCESSES => AdoptedSlot(t, pid, init, MAX_PROCESSES, i))
  }

  /** There is a current process, in the table. */
  predicate HasCurrent(s: State) {
    s.current.Slot? && s.current.i < MAX_PROCESSES && s.table[s.current.i].Some?
  }

  /** `init_process` is in the table. */
  predicate HasInit(s: State) {
    s.init.Some? && s.init.value < MAX_PROCESSES && s.table[s.init.value].Some?
  }

  /** `do_exit` up to the call of the scheduler. */
  ghost function AfterExit(s: State, code: int): (s': State)
    requires HasCurrent(s)
  {
    var i, self := s.current.i, s.table[s.current.i].value;
    var t := Set(s.table, i, Some(self.(exitCode := code, state := Zombie)));
    var t' := if HasInit(s) && s.init.value != i then AfterAdoption(t, self.pid, s.init.value) else t;
    s.(table := WakeParent(t', t'[i].value.parentPid), current := NoProcess)
  }

  /** The next free slot, or -1. */
  function FreeSlot(t: Table, from: nat): (r: int)
    requires from <= MAX_PROCESSES
    ensures -1 <= r < MAX_PROCESSES && (r >= 0 ==> from <= r && t[r].None?)
    ensures r < 0 ==> forall i :: from <= i < MAX_PROCESSES ==> t[i].Some?
    decreases MAX_PROCESSES - from
  {
    if from == MAX_PROCESSES then -1 else if t[from].None? then from else FreeSlot(t, from + 1)
  }

  /** `add_process`: nothing if the process is in the table already or the table is full. */
  function AfterAdd(s: State, p: Proc): (s': State) {
    var slot := FreeSlot(s.table, 0);
    if FindPid(s.table, p.pid, 0) >= 0 || slot < 0 then s
    else s.(table := Set(s.table, slot, Some(p)), count := s.count + 1)
  }

  /** A process as `create_process_from_elf`, `kthread_create` and `clone_process` make it. */
  function NewProc(pid: nat, parentPid: nat, priority: nat): (p: Proc) {
    Proc(pid, parentPid, 0, Ready, priority, WaitNone, 0, 0)
  }

  /** The state after boot: init alone, running. */
  function Booted(priority: nat): (s: State) {
    State(Set(seq(MAX_PROCESSES, i => None), 0, Some(Proc(1, 0, 0, Running, priority, WaitNone, 0, 0))), 1, Slot(0), Some(0), 0, 2)
  }

  // ----- the operations in place

  class Processes {
    var table: Table
    var count: nat
    var current: Current
    var init: Option<nat>
    var cursor: nat
    var nextPid: nat

    ghost function View(): (s: State)
      reads this
    {
      State(table, count, current, init, cursor, nextPid)
    }

    /** `init_scheduler` */
    constructor ()
      ensures View() == State(seq(MAX_PROCESSES, i => None), 0, NoProcess, None, 0, 1)
    {
      table := seq(MAX_PROCESSES, i => None);
      count, current, init, cursor, nextPid := 0, NoProcess, None, 0, 1;
    }

    method WakeSleeping(now: nat)
      modifies this`table
      ensures table == Woken(old(table), now)
    {
      ghost var t := table;
      for i := 0 to MAX_PROCESSES
        invariant forall j :: 0 <= j < MAX_PROCESSES ==> table[j] == if j < i then WakeOne(t[j], now) else t[j]
      {
        var p := table[i];
        if p.Some? && p.value.state.Sleeping? && p.value.deadline != 0 && now >= p.value.deadline {
          table := Set(table, i, Some(p.value.(deadline := 0, state := Ready)));
        }
      }
      assert table == Woken(t, now);
    }

    method FindHighestPriority() returns (h: int)
      ensures h == Highest(table, MAX_PROCESSES)
    {
      h := -1;
      for i := 0 to MAX_PROCESSES
        invariant h == Highest(table, i)
      {
        if Runnable(table[i]) && table[i].value.priority > h {
          h := table[i].value.priority;
        }
      }
    }

    /** `pick_next_process` */
    method PickNext() returns (r: int)
      modifies this`cursor
      ensures Picks(table, old(cursor), r) && (r < 0 ==> cursor == old(cursor))
    {
      var highest := FindHighestPriority();
      HighestIs(table, MAX_PROCESSES);
      if highest < 0 {
        return -1;
      }
      if cursor >= MAX_PROCESSES {
        cursor := 0;
      }
      for n := 0 to MAX_PROCESSES
        invariant cursor == Normal(old(cursor))
        invariant forall i: nat :: Eligible(table, i) ==> Distance(cursor, i) >= n
      {
        var index := (cursor + n) % MAX_PROCESSES;
        AtDistance(cursor, n, index);
        if Runnable(table[index]) && table[index].value.priority == highest {
          return index;
        }
      }
      ghost var i :| 0 <= i < MAX_PROCESSES && Runnable(table[i]) && table[i].value.priority == highest;
      assert Eligible(table, i);
      assert false;
    }

    /** `scheduler` */
    method Schedule(hasRegs: bool, now: nat)
      requires current.Slot? ==> HasCurrent(View())
      modifies this`table, this`current, this`cursor
      ensures Scheduled(old(View()), hasRegs, now, View())
    {
      ghost var s := View();
      WakeSleeping(now);
      if current.Slot? && table[current.i].value.state.Running? && hasRegs {
        table := WithState(table, current.i, Ready);
      }
      ghost var t := table;
      assert t == Preempted(s, hasRegs, now);
      var next := PickNext();
      ghost var r := next;
      if next < 0 {
        if current.Slot? && Runnable(table[current.i]) {
          assert false;
        }
        if current.NoProcess? && hasRegs {
          assert View() == Dispatch(s, t, hasRegs, r);
          return;
        }
        current := IdleProcess;
        assert View() == Dispatch(s, t, hasRegs, r);
        return;
      }
      current := Slot(next);
      table := WithState(table, next, Running);
      cursor := (next + 1) % MAX_PROCESSES;
      assert View() == Dispatch(s, t, hasRegs, r);
    }

    /** `adopt_children` by the process in slot `i`. */
    method AdoptChildren(i: nat)
      requires i < MAX_PROCESSES && table[i].Some? && (init.Some? ==> HasInit(View()))
      modifies this`table
      ensures table == if init.Some? && init.value != i then AfterAdoption(old(table), old(table)[i].value.pid, init.value) else old(table)
    {
      if init.None? || init.value == i {
        return;
      }
      ghost var t := table;
      var pid, initPid := table[i].value.pid, table[init.value].value.pid;
      for j := 0 to MAX_PROCESSES
        invariant Adopted(t, table, pid, init.value, j)
      {
        AdoptStep(t, table, pid, init.value, j);
        var child := table[j];
        if child.Some? && child.value.parentPid == pid {
          table := Set(table, j, Some(child.value.(parentPid := initPid)));
          if child.value.state.Zombie? && table[init.value].value.state.Waiting? {
            table := WithState(table, init.value, Ready);
          }
        }
      }
      assert table == AfterAdoption(t, pid, init.value);
    }

    /** `do_wait`; the idle process makes no system calls. */
    method Wait(pid: int) returns (r: WaitResult)
      requires !current.IdleProcess? && (current.Slot? ==> HasCurrent(View()) && !table[current.i].value.state.Zombie?)
      modifies this`table, this`count
      ensures Waited(old(View()), pid, View(), r)
    {
      if current.NoProcess? {
        return NoChildren;
      }
      var i := current.i;
      var self := table[i].value;
      var hasChildren := false;
      for j := 0 to MAX_PROCESSES
        invariant View() == old(View())
        invariant hasChildren <==> exists k :: 0 <= k < j && Matches(table[k], self.pid, pid)
        invariant forall k :: 0 <= k < j ==> !Reapable(table[k], self.pid, pid)
      {
        if Matches(table[j], self.pid, pid) {
          hasChildren := true;
          if table[j].value.state.Zombie? {
            var child := table[j].value;
            Remove(j);
            table := Set(table, i, Some(self.(reason := WaitNone, waitPid := -1)));
            return Reaped(child.pid, child.exitCode);
          }
        }
      }
      if !hasChildren {
        return NoChildren;
      }
      table := Set(table, i, Some(self.(reason := WaitChild, waitPid := pid, state := Waiting)));
      return Blocked;
    }

    /** `process_remove` of the process in slot `j`. */
    method Remove(j: nat)
      requires j < MAX_PROCESSES && table[j].Some?
      modifies this`table, this`count
      ensures table == Set(old(table), j, None) && count == if old(count) > 0 then old(count) - 1 else 0
    {
      table := Set(table, j, None);
      if count > 0 {
        count := count - 1;
      }
    }

    /** `do_exit` */
    method Exit(code: int, now: nat)
      requires HasCurrent(View()) && (init.Some? ==> HasInit(View()))
      modifies this`table, this`current, this`cursor
      ensures Scheduled(AfterExit(old(View()), code), false, now, View())
    {
      ghost var s := View();
      var i := current.i;
      table := Set(table, i, Some(table[i].value.(exitCode := code, state := Zombie)));
      AdoptChildren(i);
      var parent := FindProcess(table[i].value.parentPid);
      if parent >= 0 && table[parent].value.state.Waiting? && table[parent].value.reason.WaitChild? {
        table := Set(table, parent, Some(table[parent].value.(state := Ready, reason := WaitNone, waitPid := -1)));
      }
      current := NoProcess;
      assert View() == AfterExit(s, code);
      Schedule(false, now);
    }

    /** `find_process_by_pid` */
    method FindProcess(pid: nat) returns (r: int)
      ensures r == FindPid(table, pid, 0)
    {
      for i := 0 to MAX_PROCESSES
        invariant FindPid(table, pid, 0) == FindPid(table, pid, i)
      {
        if table[i].Some? && table[i].value.pid == pid {
          return i;
        }
      }
      return -1;
    }

    /** `process_table_find_free_slot` */
    method FindFreeSlot() returns (r: int)
      ensures r == FreeSlot(table, 0)
    {
      for i := 0 to MAX_PROCESSES
        invariant FreeSlot(table, 0) == FreeSlot(table, i)
      {
        if table[i].None? {
          return i;
        }
      }
      return -1;
    }

    /** `add_process`; a process is in the table if its PID is. */
    method Add(p: Proc) returns (ok: bool)
      modifies this`table, this`count
      ensures View() == AfterAdd(old(View()), p)
      ensures ok <==> FindPid(table, p.pid, 0) >= 0
    {
      hide FindPid, FreeSlot;
      var found := FindProcess(p.pid);
      if found >= 0 {
        return true;
      }
      var slot := FindFreeSlot();
      if slot < 0 {
        return false;
      }
      table := Set(table, slot, Some(p));
      count := count + 1;
      assert table[slot] == Some(p);
      return true;
    }

    /** `create_process_from_elf` or `kthread_create`, followed by `add_process`. */
    method Create(parentPid: nat, priority: nat) returns (pid: nat, ok: bool)
      modifies this`table, this`count, this`nextPid
      ensures pid == old(nextPid)
      ensures View() == AfterAdd(old(View()).(nextPid := pid + 1), NewProc(pid, parentPid, priority))
      ensures ok <==> FindPid(table, pid, 0) >= 0
    {
      pid := nextPid;
      nextPid := nextPid + 1;
      ok := Add(NewProc(pid, parentPid, priority));
    }

    /** The start of init in kernel/main.c. */
    method Boot()
      requires View() == State(seq(MAX_PROCESSES, i => None), 0, NoProcess, None, 0, 1)
      modifies this
      ensures View() == Booted(PRIO_NORMAL)
    {
      var pid, ok := Create(0, PRIO_NORMAL);
      table := WithState(table, 0, Running);
      current := Slot(0);
      init := Some(0);
    }

    /** `clone_process` of the process in slot `src`; `resources` says whether memory and files could be copied. */
    method Clone(src: nat, resources: bool) returns (child: Option<nat>)
      requires src < MAX_PROCESSES && table[src].Some?
      modifies this`table, this`count, this`nextPid
      ensures child.Some? ==> child.value == old(nextPid)
      ensures View() == AfterClone(old(View()), src, resources)
      ensures child.Some? ==> FindPid(table, child.value, 0) >= 0
    {
      var p := table[src].value;
      if p.state.Zombie? {
        return None;
      }
      var slot := FindFreeSlot();
      if slot < 0 {
        return None;
      }
      var pid := nextPid;
      nextPid := nextPid + 1;
      if !resources {
        return None;
      }
      var ok := Add(NewProc(pid, p.pid, p.priority));
      return if ok then Some(pid) else None;
    }
  }

  /** `clone_process` uses up a PID once a free slot was seen. */
  function AfterClone(s: State, src: nat, resources: bool): (s': State)
    requires src < MAX_PROCESSES && s.table[src].Some?
  {
    var p := s.table[src].value;
    if p.state.Zombie? || FreeSlot(s.table, 0) < 0 then s
    else if !resources then s.(nextPid := s.nextPid + 1)
    else AfterAdd(s.(nextPid := s.nextPid + 1), NewProc(s.nextPid, p.pid, p.priority))
  }

  lemma {:induction false} AtDistance(cursor: nat, n: nat, index: nat)
    requires cursor < MAX_PROCESSES && n < MAX_PROCESSES && index == (cursor + n) % MAX_PROCESSES
    ensures forall i: nat :: i < MAX_PROCESSES && Distance(cursor, i) == n ==> i == index
    ensures Distance(cursor, index) == n
  {
  }

  /** One round of the adoption loop. */
  lemma {:induction false} AdoptStep(t: Table, t': Table, pid: nat, init: nat, j: nat)
    requires j < MAX_PROCESSES && init < MAX_PROCESSES && t[init].Some? && Adopted(t, t', pid, init, j)
    ensures HasZombieChild(t, pid, j + 1) <==> HasZombieChild(t, pid, j) || ZombieChild(t[j], pid)
    ensures t'[j].Some? <==> t[j].Some?
    ensures t'[init].Some?
  {
    if HasZombieChild(t, pid, j + 1) {
      var i :| 0 <= i < j + 1 && ZombieChild(t[i], pid);
    }
  }
}
