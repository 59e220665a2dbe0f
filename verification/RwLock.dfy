/** The reader/writer lock of arch/x86/rwlock.c: each critical section is one step. */
module RwLock {
  /** The lock fields, who is inside, and how many write attempts have failed. */
  datatype State = State(readers: int, pendingWriters: nat, reading: multiset<nat>, writing: multiset<nat>, failed: nat)

  datatype Step =
    | ReadEnters(p: nat)   // a round of read lock that succeeds
    | ReadRetries(p: nat)  // one that fails
    | ReadLeaves(p: nat)
    | WriteEnters(p: nat)
    | WriteRetries(p: nat)
    | WriteLeaves(p: nat)

  predicate ReadAdmitted(s: State) {
    s.readers >= 0 && s.pendingWriters == 0
  }

  ghost predicate Next(s: State, step: Step, s': State) {
    match step
    case ReadEnters(p) =>
      ReadAdmitted(s) && s' == s.(readers := s.readers + 1, reading := s.reading + multiset{p})
    case ReadRetries(p) =>
      !ReadAdmitted(s) && s' == s
    case ReadLeaves(p) =>
      p in s.reading && s' == s.(readers := s.readers - 1, reading := s.reading - multiset{p})
    case WriteEnters(p) =>
      s.readers == 0 && s' == s.(readers := -1, writing := s.writing + multiset{p})
    case WriteRetries(p) =>
      s.readers != 0 && s' == s.(pendingWriters := s.pendingWriters + 1, failed := s.failed + 1)
    case WriteLeaves(p) =>
      p in s.writing && s' == s.(readers := 0, writing := s.writing - multiset{p})
  }

  /** The counter tells who is inside; a writer is alone. Failed write attempts are never taken back. */
  ghost predicate Inv(s: State) {
    && |s.writing| <= 1
    && (|s.writing| == 1 ==> s.readers == -1 && s.reading == multiset{})
    && (|s.writing| == 0 ==> s.readers == |s.reading|)
    && s.pendingWriters == s.failed
  }

  predicate Initial(s: State) {
    s.readers == 0 && s.pendingWriters == 0 && s.reading == multiset{} && s.writing == multiset{} && s.failed == 0
  }

  lemma {:induction false} StepKeeps(s: State, step: Step, s': State)
    requires Inv(s) && Next(s, step, s')
    ensures Inv(s')
  {
    match step
    case ReadLeaves(p) =>
      RemoveOne(s.reading, p);
    case WriteLeaves(p) =>
      RemoveOne(s.writing, p);
    case _ =>
  }

  lemma {:induction false} RemoveOne(m: multiset<nat>, p: nat)
    requires p in m
    ensures |m - multiset{p}| == |m| - 1
  {
    assert m == (m - multiset{p}) + multiset{p};
  }

  ghost predicate Run(ss: seq<State>, steps: seq<Step>) {
    && |ss| == |steps| + 1 && Initial(ss[0])
    && forall k :: 0 <= k < |steps| ==> RunStep(ss, steps, k)
  }

  ghost predicate RunStep(ss: seq<State>, steps: seq<Step>, k: nat)
    requires k < |steps| < |ss|
  {
    Next(ss[k], steps[k], ss[k + 1])
  }

  lemma {:induction false} RunKeeps(ss: seq<State>, steps: seq<Step>, k: nat)
    requires Run(ss, steps) && k < |ss|
    ensures Inv(ss[k])
  {
    if k > 0 {
      RunKeeps(ss, steps, k - 1);
      assert RunStep(ss, steps, k - 1);
      StepKeeps(ss[k - 1], steps[k - 1], ss[k]);
    }
  }

  /** In every interleaving a writer never coexists with a reader or another writer. */
  lemma {:induction false} Exclusion(ss: seq<State>, steps: seq<Step>, k: nat, p: nat)
    requires Run(ss, steps) && k < |ss| && p in ss[k].writing
    ensures ss[k].writing == multiset{p} && ss[k].reading == multiset{}
  {
    RunKeeps(ss, steps, k);
    RemoveOne(ss[k].writing, p);
    assert ss[k].writing == (ss[k].writing - multiset{p}) + multiset{p};
  }

  /** A reader is admitted exactly when no writer is inside and no write attempt has failed in the whole run so far. */
  lemma {:induction false} ReadAdmittedIff(ss: seq<State>, steps: seq<Step>, k: nat)
    requires Run(ss, steps) && k < |ss|
    ensures ReadAdmitted(ss[k]) <==> ss[k].writing == multiset{} && forall i :: 0 <= i < k ==> !steps[i].WriteRetries?
  {
    RunKeeps(ss, steps, k);
    FailedCount(ss, steps, k);
  }

  lemma {:induction false} FailedStep(s: State, step: Step, s': State)
    requires Next(s, step, s')
    ensures s'.failed == s.failed + if step.WriteRetries? then 1 else 0
  {
  }

  lemma {:induction false} FailedCount(ss: seq<State>, steps: seq<Step>, k: nat)
    requires Run(ss, steps) && k < |ss|
    ensures ss[k].failed == 0 <==> forall i :: 0 <= i < k ==> !steps[i].WriteRetries?
  {
    hide Next;
    if k > 0 {
      FailedCount(ss, steps, k - 1);
      assert RunStep(ss, steps, k - 1);
      FailedStep(ss[k - 1], steps[k - 1], ss[k]);
    }
  }

  /** One failed write attempt keeps readers out for the rest of the run. */
  lemma {:induction false} ReadersShutOut(ss: seq<State>, steps: seq<Step>, j: nat, k: nat)
    requires Run(ss, steps) && j < k < |steps| && steps[j].WriteRetries?
    ensures !steps[k].ReadEnters?
  {
    ReadAdmittedIff(ss, steps, k);
    assert RunStep(ss, steps, k);
  }

  /** Readers can be refused for good with nobody inside: a writer tries once while a reader is in. */
  lemma {:induction false} RefusedWhenFree(p: nat, q: nat, r: nat) returns (ss: seq<State>, steps: seq<Step>)
    ensures Run(ss, steps) && |steps| == 4 && steps[3] == ReadRetries(r)
    ensures ss[3].reading == multiset{} && ss[3].writing == multiset{} && !ReadAdmitted(ss[3])
  {
    var none := multiset{};
    var s1, s2, s3 := State(1, 0, multiset{p}, none, 0), State(1, 1, multiset{p}, none, 1), State(0, 1, none, none, 1);
    ss := [State(0, 0, none, none, 0), s1, s2, s3, s3];
    steps := [ReadEnters(p), WriteRetries(q), ReadLeaves(p), ReadRetries(r)];
    assert none + multiset{p} == multiset{p} && multiset{p} - multiset{p} == none;
  }
}
