/** The mutex of arch/x86/mutex.c as interleaved atomic steps on its state word and owner field. */
module Mutex {
  /** Where a process stands with the mutex it may hold. */
  datatype Hold = NotHolding | Acquired | Owning | Clearing | Releasing

  /** Where a process stands in a lock call that met contention. */
  datatype Want = Resting | Contending | Registered

  datatype Pc = Pc(hold: Hold, want: Want)

  datatype State = State(word: nat, owner: nat, procs: map<nat, Pc>)

  /** The atomic steps; every process has a nonzero PID. */
  datatype Step =
    | LockFast(p: nat)       // compare-and-swap 0 -> 1 succeeds, in lock, trylock or timed lock
    | TryFails(p: nat)       // trylock meets contention and returns
    | LockContended(p: nat)  // lock or timed lock meets contention
    | Register(p: nat)       // atomic add
    | WaiterAcquires(p: nat) // compare-and-swap 1 -> 1 succeeds after sleeping
    | WaiterRetries(p: nat)  // it fails
    | TimeOut(p: nat)        // timed lock gives up: atomic subtract
    | SetOwner(p: nat)       // the plain store after acquiring
    | UnlockDenied(p: nat)   // unlock by a process that is not the owner
    | ClearOwner(p: nat)     // unlock by the owner
    | UnlockFast(p: nat)     // compare-and-swap 1 -> 0 succeeds
    | UnlockContended(p: nat) // it fails
    | Release(p: nat)        // atomic subtract

  function With(s: State, p: nat, pc: Pc): (r: map<nat, Pc>) {
    s.procs[p := pc]
  }

  ghost predicate Next(s: State, step: Step, s': State) {
    step.p in s.procs && step.p != 0 &&
    var p := step.p;
    var pc := s.procs[p];
    match step
    case LockFast(_) =>
      pc.want.Resting? && s.word == 0 && s' == s.(word := 1, procs := With(s, p, pc.(hold := Acquired)))
    case TryFails(_) =>
      pc.want.Resting? && s.word != 0 && s' == s
    case LockContended(_) =>
      pc.want.Resting? && s.word != 0 && s' == s.(procs := With(s, p, pc.(want := Contending)))
    case Register(_) =>
      pc.want.Contending? && s' == s.(word := s.word + 1, procs := With(s, p, pc.(want := Registered)))
    case WaiterAcquires(_) =>
      pc.want.Registered? && s.word == 1 && s' == s.(procs := With(s, p, Pc(Acquired, Resting)))
    case WaiterRetries(_) =>
      pc.want.Registered? && s.word != 1 && s' == s
    case TimeOut(_) =>
      pc.want.Registered? && s.word > 0 && s' == s.(word := s.word - 1, procs := With(s, p, pc.(want := Resting)))
    case SetOwner(_) =>
      pc.hold.Acquired? && s' == s.(owner := p, procs := With(s, p, pc.(hold := Owning)))
    case UnlockDenied(_) =>
      pc.want.Resting? && s.owner != p && s' == s
    case ClearOwner(_) =>
      pc.want.Resting? && s.owner == p && s' == s.(owner := 0, procs := With(s, p, pc.(hold := Clearing)))
    case UnlockFast(_) =>
      pc.hold.Clearing? && s.word == 1 && s' == s.(word := 0, procs := With(s, p, pc.(hold := NotHolding)))
    case UnlockContended(_) =>
      pc.hold.Clearing? && s.word != 1 && s' == s.(procs := With(s, p, pc.(hold := Releasing)))
    case Release(_) =>
      pc.hold.Releasing? && s.word > 0 && s' == s.(word := s.word - 1, procs := With(s, p, pc.(hold := NotHolding)))
  }

  // ----- the invariant

  ghost function Holders(s: State): (r: set<nat>) {
    set p | p in s.procs && !s.procs[p].hold.NotHolding?
  }

  ghost function Waiters(s: State): (r: set<nat>) {
    set p | p in s.procs && s.procs[p].want.Registered?
  }

  /** The state word counts holders and registered waiters; a nonzero owner is the holder. */
  ghost predicate Inv(s: State) {
    && s.word == |Holders(s)| + |Waiters(s)|
    && |Holders(s)| <= 1
    && (s.owner != 0 ==> s.owner in s.procs && s.procs[s.owner].hold.Owning?)
    && (forall p :: p in s.procs && s.procs[p].hold.Owning? ==> s.owner == p)
  }

  lemma {:induction false} AtMostOne(s: State, p: nat, q: nat)
    requires Inv(s) && p in Holders(s) && q in Holders(s)
    ensures p == q
  {
    if p != q {
      assert {p, q} <= Holders(s);
      SubsetSize({p, q}, Holders(s));
    }
  }

  lemma {:induction false} SubsetSize(a: set<nat>, b: set<nat>)
    requires a <= b
    ensures |a| <= |b|
    decreases a
  {
    if a != {} {
      var x :| x in a;
      SubsetSize(a - {x}, b - {x});
    }
  }

  /** The sets after process `p` moves to `pc`. */
  lemma {:induction false} Moved(s: State, s': State, p: nat, pc: Pc)
    requires p in s.procs && s'.procs == With(s, p, pc)
    ensures Holders(s') == if pc.hold.NotHolding? then Holders(s) - {p} else Holders(s) + {p}
    ensures Waiters(s') == if pc.want.Registered? then Waiters(s) + {p} else Waiters(s) - {p}
  {
  }

  function Weight(pc: Pc): (n: nat) {
    (if pc.hold.NotHolding? then 0 else 1) + if pc.want.Registered? then 1 else 0
  }

  /** The word follows what one process counts for, and only one process comes to hold the mutex. */
  lemma {:induction false} CountKept(s: State, s': State, p: nat, pc: Pc)
    requires Inv(s) && p in s.procs && s'.procs == With(s, p, pc)
    requires s'.word + Weight(s.procs[p]) == s.word + Weight(pc)
    requires pc.hold.NotHolding? || !s.procs[p].hold.NotHolding? || Holders(s) == {}
    ensures s'.word == |Holders(s')| + |Waiters(s')| && |Holders(s')| <= 1
  {
    hide Holders, Waiters;
    InSets(s, p);
    Moved(s, s', p, pc);
  }

  /** Each step keeps the invariant. */
  lemma {:induction false} StepKeeps(s: State, step: Step, s': State)
    requires Inv(s) && Next(s, step, s')
    ensures Inv(s')
  {
    hide Holders, Waiters;
    var p := step.p;
    var pc := s.procs[p];
    InSets(s, p);
    match step
    case LockFast(_) =>
      NoHolder(s);
      CountKept(s, s', p, pc.(hold := Acquired));
    case WaiterAcquires(_) =>
      SoleWaiter(s, p);
      CountKept(s, s', p, Pc(Acquired, Resting));
    case SetOwner(_) =>
      OnlyHolder(s, p);
      CountKept(s, s', p, pc.(hold := Owning));
    case ClearOwner(_) =>
      OnlyHolder(s, p);
      CountKept(s, s', p, pc.(hold := Clearing));
    case LockContended(_) =>
      CountKept(s, s', p, pc.(want := Contending));
    case Register(_) =>
      CountKept(s, s', p, pc.(want := Registered));
    case TimeOut(_) =>
      CountKept(s, s', p, pc.(want := Resting));
    case UnlockFast(_) =>
      CountKept(s, s', p, pc.(hold := NotHolding));
    case UnlockContended(_) =>
      CountKept(s, s', p, pc.(hold := Releasing));
    case Release(_) =>
      CountKept(s, s', p, pc.(hold := NotHolding));
    case _ =>
  }

  lemma {:induction false} InSets(s: State, p: nat)
    requires p in s.procs
    ensures p in Holders(s) <==> !s.procs[p].hold.NotHolding?
    ensures p in Waiters(s) <==> s.procs[p].want.Registered?
  {
  }

  lemma {:induction false} NoHolder(s: State)
    requires Inv(s) && s.word == 0
    ensures Holders(s) == {} && Waiters(s) == {} && s.owner == 0
    ensures forall p :: p in s.procs ==> s.procs[p].hold.NotHolding?
  {
    forall p | p in s.procs ensures s.procs[p].hold.NotHolding? {
      InSets(s, p);
    }
  }

  /** A waiter that finds the word at 1 is alone. */
  lemma {:induction false} SoleWaiter(s: State, p: nat)
    requires Inv(s) && p in Waiters(s) && s.word == 1
    ensures Holders(s) == {} && Waiters(s) == {p} && s.owner == 0
    ensures forall q :: q in s.procs ==> s.procs[q].hold.NotHolding?
  {
    SubsetSize({p}, Waiters(s));
    assert Waiters(s) == {p} by {
      if q :| q in Waiters(s) && q != p {
        SubsetSize({p, q}, Waiters(s));
      }
    }
    forall q | q in s.procs ensures s.procs[q].hold.NotHolding? {
      InSets(s, q);
    }
  }

  lemma {:induction false} OnlyHolder(s: State, p: nat)
    requires Inv(s) && p in s.procs && !s.procs[p].hold.NotHolding?
    ensures forall q :: q in s.procs && q != p ==> s.procs[q].hold.NotHolding?
    ensures s.owner == p || s.owner == 0
  {
    forall q | q in s.procs && q != p ensures s.procs[q].hold.NotHolding? {
      if !s.procs[q].hold.NotHolding? {
        AtMostOne(s, p, q);
      }
    }
  }

  /** A free mutex with every process at rest. */
  ghost predicate Initial(s: State) {
    s.word == 0 && s.owner == 0 && forall p :: p in s.procs ==> s.procs[p] == Pc(NotHolding, Resting)
  }

  lemma {:induction false} InitialOk(s: State)
    requires Initial(s)
    ensures Inv(s)
  {
    assert Holders(s) == {} && Waiters(s) == {};
  }

  ghost predicate Run(ss: seq<State>, steps: seq<Step>) {
    && |ss| == |steps| + 1 && Initial(ss[0])
    && forall k :: 0 <= k < |steps| ==> RunStep(ss, steps, k)
  }

  ghost predicate RunStep(ss: seq<State>, steps: seq<Step>, k: nat)
    requires k < |steps| < |ss|
  {
    Next(ss[k], steps[k], ss[k + 1])
  }

  lemma {:induction false} RunKeeps(ss: seq<State>, steps: seq<Step>, k: nat)
    requires Run(ss, steps) && k < |ss|
    ensures Inv(ss[k])
  {
    if k == 0 {
      InitialOk(ss[0]);
    } else {
      RunKeeps(ss, steps, k - 1);
      assert RunStep(ss, steps, k - 1);
      StepKeeps(ss[k - 1], steps[k - 1], ss[k]);
    }
  }

  /** In every state of every interleaving at most one process is between acquiring and releasing. */
  lemma {:induction false} MutualExclusion(ss: seq<State>, steps: seq<Step>, k: nat, p: nat, q: nat)
    requires Run(ss, steps) && k < |ss| && p in ss[k].procs && q in ss[k].procs && p != q
    requires !ss[k].procs[p].hold.NotHolding?
    ensures ss[k].procs[q].hold.NotHolding? && (ss[k].owner == 0 || ss[k].owner == p)
    ensures ss[k].word >= 1
  {
    RunKeeps(ss, steps, k);
    OnlyHolder(ss[k], p);
    InSets(ss[k], p);
    SubsetSize({p}, Holders(ss[k]));
  }

  /** A registered waiter can acquire exactly when nobody holds the mutex and nobody else waits. */
  lemma {:induction false} WaiterAcquiresIff(s: State, p: nat)
    requires Inv(s) && p != 0 && p in s.procs && s.procs[p].want.Registered?
    ensures (exists s' :: Next(s, WaiterAcquires(p), s')) <==> Holders(s) == {} && Waiters(s) == {p}
  {
    InSets(s, p);
    if s.word == 1 {
      SoleWaiter(s, p);
      assert Next(s, WaiterAcquires(p), s.(procs := With(s, p, Pc(Acquired, Resting))));
    }
  }

  // ----- progress

  /** Nobody holds the mutex and at least two processes wait for it. */
  ghost predicate Stuck(s: State) {
    Holders(s) == {} && |Waiters(s)| >= 2
  }

  /** Nothing but a timeout leads out of such a state, and nothing in it acquires the mutex. */
  lemma {:induction false} StuckStays(s: State, step: Step, s': State)
    requires Inv(s) && Stuck(s) && Next(s, step, s') && !step.TimeOut?
    ensures Stuck(s') && !step.LockFast? && !step.WaiterAcquires?
  {
    hide Holders, Waiters;
    var p := step.p;
    var pc := s.procs[p];
    InSets(s, p);
    match step
    case LockContended(_) =>
      Moved(s, s', p, pc.(want := Contending));
      assert Waiters(s) - {p} == Waiters(s) && Holders(s) - {p} == {};
    case Register(_) =>
      Moved(s, s', p, pc.(want := Registered));
      SubsetSize(Waiters(s), Waiters(s) + {p});
    case _ =>
  }

  /** From such a state on, as long as no wait times out, every continuation leaves the mutex free and unobtainable. */
  lemma {:induction false} StuckForever(ss: seq<State>, steps: seq<Step>, j: nat, k: nat)
    requires Run(ss, steps) && j <= k < |ss| && Stuck(ss[j])
    requires forall i :: j <= i < k ==> !steps[i].TimeOut?
    ensures Stuck(ss[k]) && forall i :: j <= i < k ==> !steps[i].LockFast? && !steps[i].WaiterAcquires?
    decreases k
  {
    hide Stuck, Next, Inv;
    if j < k {
      StuckForever(ss, steps, j, k - 1);
      RunKeeps(ss, steps, k - 1);
      assert RunStep(ss, steps, k - 1);
      StuckStays(ss[k - 1], steps[k - 1], ss[k]);
    }
  }

  /** Where three processes stand, the others being at rest. */
  ghost predicate Stand(s: State, word: nat, owner: nat, p: nat, q: nat, r: nat, pp: Pc, qq: Pc, rr: Pc) {
    && {p, q, r} <= s.procs.Keys && s.word == word && s.owner == owner
    && s.procs[p] == pp && s.procs[q] == qq && s.procs[r] == rr
    && forall x :: x in s.procs && x !in {p, q, r} ==> s.procs[x] == Pc(NotHolding, Resting)
  }

  /** The holder takes the mutex and two lock calls meet contention. */
  lemma {:induction false} TwoWait(s: State, p: nat, q: nat, r: nat) returns (ss: seq<State>, steps: seq<Step>)
    requires Initial(s) && {p, q, r} <= s.procs.Keys && 0 !in {p, q, r} && p != q && q != r && p != r
    ensures Run(ss, steps) && ss[0] == s && forall i :: 0 <= i < |steps| ==> !steps[i].TimeOut?
    ensures Stand(ss[|steps|], 3, p, p, q, r, Pc(Owning, Resting), Pc(NotHolding, Registered), Pc(NotHolding, Registered))
  {
    var rest := Pc(NotHolding, Resting);
    var s1 := State(1, 0, With(s, p, rest.(hold := Acquired)));
    var s2 := State(1, p, With(s1, p, rest.(hold := Owning)));
    var s3 := State(1, p, With(s2, q, rest.(want := Contending)));
    var s4 := State(2, p, With(s3, q, rest.(want := Registered)));
    var s5 := State(2, p, With(s4, r, rest.(want := Contending)));
    var s6 := State(3, p, With(s5, r, rest.(want := Registered)));
    ss := [s, s1, s2, s3, s4, s5, s6];
    steps := [LockFast(p), SetOwner(p), LockContended(q), Register(q), LockContended(r), Register(r)];
  }

  lemma {:induction false} Extended(ss: seq<State>, steps: seq<Step>, step: Step, s': State)
    requires Run(ss, steps) && Next(ss[|steps|], step, s')
    ensures Run(ss + [s'], steps + [step])
  {
    hide Next, Initial;
    var ss', steps' := ss + [s'], steps + [step];
    forall k | 0 <= k < |steps'| ensures RunStep(ss', steps', k) {
      if k < |steps| {
        assert RunStep(ss, steps, k);
      }
    }
  }

  /** Three processes suffice: two lock calls meet contention before the holder unlocks. */
  lemma {:induction false} StuckReachable(s: State, p: nat, q: nat, r: nat) returns (ss: seq<State>, steps: seq<Step>)
    requires Initial(s) && {p, q, r} <= s.procs.Keys && 0 !in {p, q, r} && p != q && q != r && p != r
    ensures Run(ss, steps) && ss[0] == s && forall i :: 0 <= i < |steps| ==> !steps[i].TimeOut?
    ensures Stuck(ss[|steps|]) && Waiters(ss[|steps|]) == {q, r}
  {
    hide Run, Initial;
    ss, steps := TwoWait(s, p, q, r);
    assert |ss| == |steps| + 1 by { RunLength(ss, steps); }
    var pc := Pc(NotHolding, Resting);
    var s7 := State(3, 0, With(ss[|steps|], p, pc.(hold := Clearing)));
    var s8 := State(3, 0, With(s7, p, pc.(hold := Releasing)));
    var s9 := State(2, 0, With(s8, p, pc));
    Extended(ss, steps, ClearOwner(p), s7);
    Extended(ss + [s7], steps + [ClearOwner(p)], UnlockContended(p), s8);
    Extended(ss + [s7] + [s8], steps + [ClearOwner(p)] + [UnlockContended(p)], Release(p), s9);
    ss := ss + [s7] + [s8] + [s9];
    steps := steps + [ClearOwner(p)] + [UnlockContended(p)] + [Release(p)];
    assert Waiters(s9) == {q, r} && Holders(s9) == {};
  }

  lemma {:induction false} RunLength(ss: seq<State>, steps: seq<Step>)
    requires Run(ss, steps)
    ensures |ss| == |steps| + 1
  {
  }
}
