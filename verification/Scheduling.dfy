/** Round-robin fairness of `sched_yield`, and what a context switch preserves. */
module Scheduling {
  import opened Options
  import opened Lists
  import opened EnvTable
  import opened EnvRuns

  // ---- fairness ----

  /** The registers an environment will resume with: on the time stack if it is current, else saved. */
  function Resumes(s: EnvState, e: nat): Trapframe
    requires e < |s.envs|
  {
    if s.cur == Some(e) then s.stack else s.envs[e].tf
  }

  /** `sched_yield` stops at the first runnable slot after the last pick. */
  lemma PickIsFirst(envs: seq<Env>, i: nat, e: nat)
    requires |envs| == NENV && i < NENV && e < NENV && Runnable(envs, e)
    ensures CyclicDistance(i, NextPick(envs, i)) <= CyclicDistance(i, e)
  {
    SomeRunnableAhead(envs, i);
    var d := CyclicDistance(i, e);
    assert RunnableAhead(envs, i, d);
    DistanceOfAdvance(i, Advance(envs, i, 1));
  }

  lemma DistanceOfAdvance(i: nat, k: nat)
    requires i < NENV && 1 <= k <= NENV
    ensures CyclicDistance(i, (i + k) % NENV) == k
  {
    if i + k < NENV {
      assert (i + k) % NENV == i + k;
    } else if i + k < 2 * NENV {
      assert (i + k) % NENV == i + k - NENV;
    }
  }

  /** A waiting environment is either picked or strictly closer to its turn. */
  lemma PickComesCloser(envs: seq<Env>, i: nat, e: nat)
    requires |envs| == NENV && i < NENV && e < NENV && Runnable(envs, e)
    ensures var p := NextPick(envs, i);
            p == e || CyclicDistance(p, e) < CyclicDistance(i, e)
  {
    PickIsFirst(envs, i, e);
  }

  /**
   `sched_yield` runs the first runnable environment after the last pick, and that becomes the last pick.
   The outgoing environment's registers are saved; nothing else in the table changes.
   */
  lemma YieldRunsFirst(s: EnvState)
    requires WellFormed(s) && SomeRunnable(s.envs)
    ensures var s' := SchedYield(s);
      match s'.cur
      case None => false
      case Some(e) =>
        && e < NENV && Runnable(s.envs, e) && s'.pick == e
        && (forall x: nat :: x < NENV && Runnable(s.envs, x) ==> CyclicDistance(s.pick, e) <= CyclicDistance(s.pick, x))
        && s'.stack == Resumes(s, e) && s'.ttbr0 == s.envs[e].pgdir
        && SavedOnly(s, s')
  {
    forall x: nat | x < NENV && Runnable(s.envs, x)
      ensures CyclicDistance(s.pick, NextPick(s.envs, s.pick)) <= CyclicDistance(s.pick, x)
    {
      PickIsFirst(s.envs, s.pick, x);
    }
  }

  /** The table differs in the saved registers of the environment that was current, and the lists not at all. */
  ghost predicate SavedOnly(s: EnvState, s': EnvState) {
    && |s'.envs| == |s.envs| && s'.free == s.free && s'.made == s.made
    && forall x: nat :: x < |s.envs| ==> s'.envs[x] == s.envs[x].(tf := Resumes(s, x))
  }

  /**
   Successive calls of `sched_yield`, the k-th in state `states[k]`: between two calls everything may
   change but the last pick.
   */
  ghost predicate Yields(states: seq<EnvState>) {
    && (forall k :: 0 <= k < |states| ==> WellFormed(states[k]) && SomeRunnable(states[k].envs))
    && (forall k :: 0 <= k < |states| - 1 ==> states[k + 1].pick == SchedYield(states[k]).pick)
  }

  lemma {:induction false} PickedInTime(states: seq<EnvState>, e: nat)
    requires Yields(states) && e < NENV && states != [] && |states| >= CyclicDistance(states[0].pick, e)
    requires forall k :: 0 <= k < |states| ==> Runnable(states[k].envs, e)
    ensures exists k :: 0 <= k < CyclicDistance(states[0].pick, e) && SchedYield(states[k]).cur == Some(e)
    decreases |states|
  {
    var rest := states[1..];
    PickComesCloser(states[0].envs, states[0].pick, e);
    YieldRunsFirst(states[0]);
    if SchedYield(states[0]).cur != Some(e) {
      assert states[1].pick == SchedYield(states[0]).pick;
      assert rest[0] == states[1];
      assert forall k :: 0 <= k < |rest| ==> rest[k] == states[k + 1];
      PickedInTime(rest, e);
      var k :| 0 <= k < CyclicDistance(rest[0].pick, e) && SchedYield(rest[k]).cur == Some(e);
      assert SchedYield(states[k + 1]).cur == Some(e);
    }
  }

  /**
   However the table changes between calls, an environment that every call finds runnable is run by one
   of NENV successive calls.
   */
  lemma PickedWithinNenv(states: seq<EnvState>, e: nat)
    requires Yields(states) && e < NENV && |states| == NENV
    requires forall k :: 0 <= k < |states| ==> Runnable(states[k].envs, e)
    ensures exists k :: 0 <= k < NENV && SchedYield(states[k]).cur == Some(e)
  {
    PickedInTime(states, e);
    var k :| 0 <= k < CyclicDistance(states[0].pick, e) && SchedYield(states[k]).cur == Some(e);
  }

  // ---- fairness over runs ----

  /** The operation ends in `sched_yield`. */
  ghost predicate Reschedules(s: EnvState, op: EnvOp)
    requires FreeListOk(s) && Enabled(s, op)
  {
    op.Yield? || op.Recv? || (op.Destroy? && Envid2Env(s, op.id, true) == s.cur)
  }

  /** Only a reschedule moves the pick, and a runnable environment that it does not run is closer to its turn. */
  lemma StepComesCloser(s: EnvState, op: EnvOp, e: nat)
    requires FreeListOk(s) && Enabled(s, op) && e < NENV && FreeListOk(Step(s, op)) && Runnable(Step(s, op).envs, e)
    ensures !Reschedules(s, op) ==> Step(s, op).pick == s.pick
    ensures Reschedules(s, op) && Step(s, op).cur != Some(e) ==>
      CyclicDistance(Step(s, op).pick, e) < CyclicDistance(s.pick, e)
  {
    match op
    case Yield => YieldComesCloser(s, e);
    case Recv(dstva) => YieldComesCloser(RecvOpened(s, dstva), e);
    case Destroy(id) =>
      if Reschedules(s, op) {
        PushDistinct(s.cur.value, s.free);
        YieldComesCloser(Released(s, s.cur.value), e);
      }
    case _ =>
  }

  lemma YieldComesCloser(a: EnvState, e: nat)
    requires WellFormed(a) && SomeRunnable(a.envs) && e < NENV
    ensures var s' := SchedYield(a);
      |s'.envs| == NENV && s'.pick < NENV &&
        (Runnable(s'.envs, e) && s'.cur != Some(e) ==> CyclicDistance(s'.pick, e) < CyclicDistance(a.pick, e))
  {
    YieldRunsFirst(a);
    if Runnable(a.envs, e) {
      PickComesCloser(a.envs, a.pick, e);
    }
  }

  /** Throughout the run environment `e` is runnable, and no reschedule runs it. */
  ghost predicate Waits(s: EnvState, ops: seq<EnvOp>, e: nat)
    requires FreeListOk(s)
    decreases |ops|
  {
    && e < NENV && Runnable(s.envs, e)
    && (ops == [] ||
        (Enabled(s, ops[0]) && (Reschedules(s, ops[0]) ==> Step(s, ops[0]).cur != Some(e)) &&
          (StepKeepsFreeList(s, ops[0]); Waits(Step(s, ops[0]), ops[1..], e))))
  }

  /** The number of reschedules in such a run. */
  ghost function Turns(s: EnvState, ops: seq<EnvOp>, e: nat): nat
    requires FreeListOk(s) && Waits(s, ops, e)
    decreases |ops|
  {
    if ops == [] then 0
    else
      StepKeepsFreeList(s, ops[0]);
      (if Reschedules(s, ops[0]) then 1 else 0) + Turns(Step(s, ops[0]), ops[1..], e)
  }

  /** In every run, an environment that stays runnable waits for fewer reschedules than its distance from the pick. */
  lemma {:induction false} WaitIsBounded(s: EnvState, ops: seq<EnvOp>, e: nat)
    requires FreeListOk(s) && Waits(s, ops, e)
    ensures Turns(s, ops, e) < CyclicDistance(s.pick, e) <= NENV
    decreases |ops|
  {
    if ops != [] {
      StepKeepsFreeList(s, ops[0]);
      StepComesCloser(s, ops[0], e);
      WaitIsBounded(Step(s, ops[0]), ops[1..], e);
    }
  }

  // ---- context switching ----

  ghost function SwitchAll(s: EnvState, targets: seq<nat>): (s': EnvState)
    requires WellFormed(s) && forall k :: 0 <= k < |targets| ==> targets[k] < NENV
    ensures WellFormed(s')
    decreases |targets|
  {
    if targets == [] then s else SwitchAll(EnvRun(s, targets[0]), targets[1..])
  }

  /** Any sequence of context switches leaves every environment's registers as they were. */
  lemma {:induction false} SwitchesKeepTrapframes(s: EnvState, targets: seq<nat>, e: nat)
    requires WellFormed(s) && e < NENV && forall k :: 0 <= k < |targets| ==> targets[k] < NENV
    ensures Resumes(SwitchAll(s, targets), e) == Resumes(s, e)
    ensures targets != [] ==>
      var s' := SwitchAll(s, targets); s'.cur == Some(targets[|targets| - 1]) && s'.ttbr0 == s'.envs[s'.cur.value].pgdir
    decreases |targets|
  {
    if targets != [] {
      SwitchesKeepTrapframes(EnvRun(s, targets[0]), targets[1..], e);
    }
  }

  /** The installed page directory is the current environment's. */
  ghost predicate DirectoryInstalled(s: EnvState)
    requires WellFormed(s)
  {
    s.cur.Some? ==> s.ttbr0 == s.envs[s.cur.value].pgdir
  }

  /** No operation separates the installed directory from the current environment. */
  lemma StepKeepsDirectory(s: EnvState, op: EnvOp)
    requires FreeListOk(s) && Enabled(s, op) && DirectoryInstalled(s)
    ensures FreeListOk(Step(s, op)) && DirectoryInstalled(Step(s, op))
  {
    StepKeepsFreeList(s, op);
    if op.Create? || op.Spawn? {
      assert s.free[0] in s.free;
    }
  }

  lemma {:induction false} RunsKeepDirectory(s: EnvState, issued: seq<nat>, ops: seq<EnvOp>, s': EnvState,
                                             issued': seq<nat>)
    requires FreeListOk(s) && Runs(s, issued, ops, s', issued') && DirectoryInstalled(s)
    ensures FreeListOk(s') && DirectoryInstalled(s')
    decreases |ops|
  {
    if ops != [] {
      StepKeepsDirectory(s, ops[0]);
      RunsKeepDirectory(Step(s, ops[0]), issued + NewIds(s, ops[0]), ops[1..], s', issued');
    }
  }

  /** Between its own instructions an environment keeps its registers, whatever the others do. */
  lemma StepKeepsTrapframe(s: EnvState, op: EnvOp, e: nat)
    requires FreeListOk(s) && Enabled(s, op) && e < NENV && e !in s.free
    requires e !in Step(s, op).free
    requires !(op.UserCode? && s.cur == Some(e))
    ensures FreeListOk(Step(s, op)) && Resumes(Step(s, op), e) == Resumes(s, e)
  {
    StepKeepsFreeList(s, op);
    if op.Create? || op.Spawn? {
      assert s.free[0] in s.free;
    }
  }
}
