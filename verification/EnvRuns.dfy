/** Whole runs of the environment layer: the free list, identities, context switching, mailboxes. */
module EnvRuns {
  import opened Options
  import opened Lists
  import opened EnvTable

  datatype EnvOp =
    | Create(pgdir: nat)
    | Spawn(pgdir: nat)
    | Destroy(id: nat)
    | Yield
    | Recv(dstva: nat)
    | Send(id: nat, value: nat, srcva: nat, perm: nat)
    | ChangeStatus(id: nat, status: Status)
    | UserCode(stack: Trapframe)

  /** Slots on the free list are ENV_FREE, and the current environment is not one of them. */
  ghost predicate FreeListOk(s: EnvState) {
    && WellFormed(s)
    && (forall e :: e in s.free ==> s.envs[e].status == ENV_FREE)
    && (s.cur.Some? ==> s.cur.value !in s.free)
  }

  /** When the operation can be made: by a current environment, and when it reschedules, with someone to run. */
  ghost predicate Enabled(s: EnvState, op: EnvOp)
    requires FreeListOk(s)
  {
    match op
    case Create(_) => s.free != []
    case Spawn(_) => s.free != [] && s.cur.Some? && |s.stack.regs| == 31
    case Destroy(id) =>
      s.cur.Some? &&
      (Envid2Env(s, id, true) == s.cur ==> SomeRunnable(Released(s, s.cur.value).envs))
    case Yield => SomeRunnable(s.envs)
    case Recv(dstva) => s.cur.Some? && SomeRunnable(RecvOpened(s, dstva).envs)
    case Send(_, _, _, _) => s.cur.Some?
    case ChangeStatus(_, _) => s.cur.Some?
    case UserCode(_) => s.cur.Some?
  }

  ghost function Step(s: EnvState, op: EnvOp): EnvState
    requires FreeListOk(s) && Enabled(s, op)
  {
    match op
    case Create(pgdir) => assert s.free[0] in s.free; EnvAlloc(s, 0, pgdir)
    case Spawn(pgdir) => assert s.free[0] in s.free; SysEnvAlloc(s, pgdir)
    case Destroy(id) =>
      var e := Envid2Env(s, id, true);
      if e.None? then s else EnvDestroy(s, e.value)
    case Yield => SchedYield(s)
    case Recv(dstva) => IpcRecv(s, dstva)
    case Send(id, value, srcva, perm) => IpcCanSend(s, id, value, srcva, perm)
    case ChangeStatus(id, status) => SetStatus(s, id, status)
    case UserCode(stack) => s.(stack := stack)
  }

  // ---- the free list ----

  lemma StepKeepsFreeList(s: EnvState, op: EnvOp)
    requires FreeListOk(s) && Enabled(s, op)
    ensures FreeListOk(Step(s, op))
  {
    if op.Create? || op.Spawn? {
      CreationKeepsFreeList(s, op);
    } else if op.Destroy? {
      var e := Envid2Env(s, op.id, true);
      if e.Some? {
        PushDistinct(e.value, s.free);
        DestroyKeepsFreeList(s, e.value);
      }
    }
  }

  lemma CreationKeepsFreeList(s: EnvState, op: EnvOp)
    requires FreeListOk(s) && Enabled(s, op) && (op.Create? || op.Spawn?)
    ensures FreeListOk(Step(s, op))
  {
    assert s.free[0] in s.free;
    assert forall e :: e in s.free[1..] ==> e in s.free && e != s.free[0];
  }

  lemma DestroyKeepsFreeList(s: EnvState, e: nat)
    requires FreeListOk(s) && e < NENV && e !in s.free
    requires s.cur == Some(e) ==> SomeRunnable(Released(s, e).envs)
    ensures FreeListOk(EnvDestroy(s, e))
  {
    var a := Released(s, e);
    PushDistinct(e, s.free);
    assert FreeListOk(a);
    if s.cur == Some(e) {
      YieldKeepsFreeList(a);
    }
  }

  lemma YieldKeepsFreeList(s: EnvState)
    requires FreeListOk(s) && SomeRunnable(s.envs)
    ensures FreeListOk(SchedYield(s))
  {
  }

  // ---- identities ----

  /** The identifiers an operation hands out. */
  ghost function NewIds(s: EnvState, op: EnvOp): seq<nat>
    requires FreeListOk(s) && Enabled(s, op)
  {
    if op.Create? || op.Spawn? then [MakeId(s.made + 1, s.free[0])] else []
  }

  const GENERATIONS: nat := 0x20_0000  // 2^21

  /** `issued` lists every identifier handed out so far; each slot holds the last one made for it. */
  ghost predicate IdsOk(s: EnvState, issued: seq<nat>) {
    && |s.envs| == NENV
    && |issued| == s.made < GENERATIONS
    && (forall k :: 0 <= k < |issued| ==> issued[k] / 2048 == k + 1 && issued[k] % 2048 < NENV)
    && (forall e :: 0 <= e < NENV ==> SlotOk(s, e, issued))
  }

  ghost predicate SlotOk(s: EnvState, e: nat, issued: seq<nat>)
    requires e < |s.envs|
  {
    && (e !in s.free ==> s.envs[e].id in issued && s.envs[e].id % 2048 == e)
    && (forall k :: 0 <= k < |issued| && issued[k] % 2048 == e ==> issued[k] <= s.envs[e].id)
  }

  lemma SlotOfId(id: nat, e: nat)
    requires id % 2048 == e && e < NENV && id / 2048 > 0
    ensures id % NENV == e && id != 0
  {
    assert id == NENV * (2 * (id / 2048)) + e;
  }

  /** The slot of `id` was freed, or has been given another identifier since. */
  ghost predicate Dead(s: EnvState, id: nat)
    requires |s.envs| == NENV
  {
    var e := id % NENV;
    e in s.free || s.envs[e].id != id
  }

  lemma DeadIdRejected(s: EnvState, id: nat, checkPerm: bool)
    requires FreeListOk(s) && s.cur.Some? && id != 0 && Dead(s, id)
    ensures Envid2Env(s, id, checkPerm).None?
  {
  }

  /** Freeing an environment kills its identifier. */
  lemma FreedIdIsDead(s: EnvState, e: nat)
    requires FreeListOk(s) && e < NENV && e !in s.free && s.envs[e].id % NENV == e
    ensures Dead(Released(s, e), s.envs[e].id)
  {
  }

  lemma NewIdFits(made: nat, e: nat)
    requires made + 1 < GENERATIONS && e < NENV
    ensures var id := MakeId(made + 1, e); id / 2048 == made + 1 && id % 2048 == e && id % NENV == e
  {
  }

  /** Only allocation gives a slot another identifier, and only it takes a slot off the free list. */
  lemma StepKeepsIds(s: EnvState, op: EnvOp)
    requires FreeListOk(s) && Enabled(s, op)
    ensures var s', alloc := Step(s, op), op.Create? || op.Spawn?;
      && |s'.envs| == NENV
      && s'.made == s.made + (if alloc then 1 else 0)
      && (alloc ==> s.free[0] < NENV && s'.envs[s.free[0]].id == MakeId(s.made + 1, s.free[0]))
      && (forall e: nat :: e < NENV && !(alloc && e == s.free[0]) ==>
            s'.envs[e].id == s.envs[e].id && (e in s.free ==> e in s'.free))
  {
    if op.Create? || op.Spawn? {
      assert s.free[0] in s.free;
      assert forall e :: e in s.free && e != s.free[0] ==> e in s.free[1..];
    } else if op.Destroy? {
      DestroyKeepsIds(s, op.id);
    }
  }

  lemma DestroyKeepsIds(s: EnvState, id: nat)
    requires FreeListOk(s) && Enabled(s, Destroy(id))
    ensures var s' := Step(s, Destroy(id));
      && |s'.envs| == NENV && s'.made == s.made
      && (forall e: nat :: e < NENV ==> s'.envs[e].id == s.envs[e].id && (e in s.free ==> e in s'.free))
  {
    var e := Envid2Env(s, id, true);
    if e.Some? {
      PushDistinct(e.value, s.free);
    }
  }

  lemma StepKeepsIdsOk(s: EnvState, issued: seq<nat>, op: EnvOp)
    requires FreeListOk(s) && Enabled(s, op) && IdsOk(s, issued) && s.made + 1 < GENERATIONS
    ensures IdsOk(Step(s, op), issued + NewIds(s, op))
  {
    var s', issued' := Step(s, op), issued + NewIds(s, op);
    StepKeepsIds(s, op);
    if op.Create? || op.Spawn? {
      NewIdFits(s.made, s.free[0]);
      assert issued'[|issued|] == MakeId(s.made + 1, s.free[0]);
    } else {
      assert issued' == issued;
    }
    forall e: nat | e < NENV
      ensures SlotOk(s', e, issued')
    {
      assert SlotOk(s, e, issued);
    }
  }

  /** Once an issued identifier is dead it stays dead, whatever happens afterwards. */
  lemma StepKeepsDead(s: EnvState, issued: seq<nat>, op: EnvOp, id: nat)
    requires FreeListOk(s) && Enabled(s, op) && IdsOk(s, issued) && s.made + 1 < GENERATIONS
    requires id in issued && Dead(s, id)
    ensures |Step(s, op).envs| == NENV && Dead(Step(s, op), id)
  {
    StepKeepsIds(s, op);
    if op.Create? || op.Spawn? {
      NewIdFits(s.made, s.free[0]);
      var k :| 0 <= k < |issued| && issued[k] == id;
      assert id / 2048 <= s.made;
    }
  }

  /** After 2^21 allocations the identifiers start over: the shift has pushed the counter out of 32 bits. */
  lemma IdsRepeat(generation: nat, e: nat)
    ensures MakeId(generation + GENERATIONS, e) == MakeId(generation, e)
  {
    assert (generation + GENERATIONS) * 2048 + e == generation * 2048 + e + 0x1_0000_0000;
  }

  // ---- runs ----

  /** `s'` is reached from `s` by `ops`, and the identifiers issued so far grow from `issued` to `issued'`. */
  ghost predicate Runs(s: EnvState, issued: seq<nat>, ops: seq<EnvOp>, s': EnvState, issued': seq<nat>)
    requires FreeListOk(s)
    decreases |ops|
  {
    if ops == [] then s' == s && issued' == issued
    else
      Enabled(s, ops[0]) && s.made + 1 < GENERATIONS &&
      (StepKeepsFreeList(s, ops[0]); Runs(Step(s, ops[0]), issued + NewIds(s, ops[0]), ops[1..], s', issued'))
  }

  /** `env_init`: every slot is free and nothing has been issued. */
  ghost predicate AtBoot(s: EnvState) {
    && FreeListOk(s) && s.cur.None? && s.made == 0
    && (forall e: nat :: e < NENV ==> e in s.free)
  }

  lemma BootIdsOk(s: EnvState)
    requires AtBoot(s)
    ensures IdsOk(s, [])
  {
  }

  lemma {:induction false} RunsKeepIdentities(s: EnvState, issued: seq<nat>, ops: seq<EnvOp>, s': EnvState,
                                              issued': seq<nat>)
    requires FreeListOk(s) && IdsOk(s, issued) && Runs(s, issued, ops, s', issued')
    ensures FreeListOk(s') && IdsOk(s', issued') && issued <= issued'
    decreases |ops|
  {
    if ops != [] {
      StepKeepsFreeList(s, ops[0]);
      StepKeepsIdsOk(s, issued, ops[0]);
      RunsKeepIdentities(Step(s, ops[0]), issued + NewIds(s, ops[0]), ops[1..], s', issued');
    }
  }

  /** An identifier whose slot was freed or reissued is rejected in every later state. */
  lemma {:induction false} DeadIdRejectedForever(s: EnvState, issued: seq<nat>, ops: seq<EnvOp>,
                                                 s': EnvState, issued': seq<nat>, id: nat, checkPerm: bool)
    requires FreeListOk(s) && IdsOk(s, issued) && Runs(s, issued, ops, s', issued')
    requires id in issued && Dead(s, id)
    ensures FreeListOk(s') && (s'.cur.Some? ==> Envid2Env(s', id, checkPerm).None?)
    decreases |ops|
  {
    if ops == [] {
      var k :| 0 <= k < |issued| && issued[k] == id;
      assert issued[k] / 2048 == k + 1;
      if s.cur.Some? {
        DeadIdRejected(s, id, checkPerm);
      }
    } else {
      StepKeepsFreeList(s, ops[0]);
      StepKeepsIdsOk(s, issued, ops[0]);
      StepKeepsDead(s, issued, ops[0], id);
      DeadIdRejectedForever(Step(s, ops[0]), issued + NewIds(s, ops[0]), ops[1..], s', issued', id, checkPerm);
    }
  }

  /** In every run from boot all identifiers issued are different from each other and from 0. */
  lemma IssuedIdsDistinct(s: EnvState, ops: seq<EnvOp>, s': EnvState, issued: seq<nat>, j: nat, k: nat)
    requires AtBoot(s) && Runs(s, [], ops, s', issued) && j < k < |issued|
    ensures issued[j] != issued[k] && issued[j] != 0 && issued[k] != 0
  {
    BootIdsOk(s);
    RunsKeepIdentities(s, [], ops, s', issued);
  }

  /** In every run from boot the identifier of a live environment resolves to precisely its slot. */
  lemma LiveIdResolves(s: EnvState, ops: seq<EnvOp>, s': EnvState, issued: seq<nat>, e: nat)
    requires AtBoot(s) && Runs(s, [], ops, s', issued)
    ensures FreeListOk(s')
    ensures s'.cur.Some? && e < NENV && s'.envs[e].status != ENV_FREE ==> Envid2Env(s', s'.envs[e].id, false) == Some(e)
  {
    BootIdsOk(s);
    RunsKeepIdentities(s, [], ops, s', issued);
    if s'.cur.Some? && e < NENV && s'.envs[e].status != ENV_FREE {
      LiveIdAt(s', issued, e);
    }
  }

  lemma LiveIdAt(s: EnvState, issued: seq<nat>, e: nat)
    requires FreeListOk(s) && IdsOk(s, issued) && s.cur.Some? && e < NENV && s.envs[e].status != ENV_FREE
    ensures Envid2Env(s, s.envs[e].id, false) == Some(e)
  {
    var id := s.envs[e].id;
    assert SlotOk(s, e, issued);
    var k :| 0 <= k < |issued| && issued[k] == id;
    assert id / 2048 == k + 1;
    SlotOfId(id, e);
  }

  /**
   In every run from boot an identifier, issued or not, leads to a slot exactly if the slot is live and
   carries it; 0 leads to the current environment.
   */
  lemma IdResolvesIff(s: EnvState, ops: seq<EnvOp>, s': EnvState, issued: seq<nat>, id: nat, e: nat)
    requires AtBoot(s) && Runs(s, [], ops, s', issued)
    ensures FreeListOk(s')
    ensures s'.cur.Some? ==>
      (Envid2Env(s', id, false) == Some(e) <==>
        if id == 0 then s'.cur == Some(e)
        else e < NENV && s'.envs[e].status != ENV_FREE && s'.envs[e].id == id)
  {
    BootIdsOk(s);
    RunsKeepIdentities(s, [], ops, s', issued);
    if s'.cur.Some? && e < NENV && s'.envs[e].status != ENV_FREE && s'.envs[e].id == id {
      LiveIdAt(s', issued, e);
    }
  }

  lemma DestroyKillsId(s: EnvState, id: nat, e: nat)
    requires FreeListOk(s) && Enabled(s, Destroy(id)) && Envid2Env(s, id, true) == Some(e)
    requires e !in s.free && s.envs[e].id % NENV == e
    ensures |Step(s, Destroy(id)).envs| == NENV && Dead(Step(s, Destroy(id)), s.envs[e].id)
  {
    FreedIdIsDead(s, e);
    PushDistinct(e, s.free);
  }

  /** Once an environment is destroyed, after any run from boot, its identifier is rejected in every later state. */
  lemma DestroyedIdRejectedForever(s: EnvState, ops: seq<EnvOp>, m: EnvState, issued: seq<nat>, id: nat, e: nat,
                                   later: seq<EnvOp>, s': EnvState, issued': seq<nat>, checkPerm: bool)
    requires AtBoot(s) && Runs(s, [], ops, m, issued)
    requires FreeListOk(m) && m.cur.Some? && Envid2Env(m, id, true) == Some(e) && e !in m.free
    requires Runs(m, issued, [Destroy(id)] + later, s', issued')
    ensures FreeListOk(s') && (s'.cur.Some? ==> Envid2Env(s', m.envs[e].id, checkPerm).None?)
  {
    BootIdsOk(s);
    RunsKeepIdentities(s, [], ops, m, issued);
    var all := [Destroy(id)] + later;
    assert all[0] == Destroy(id) && all[1..] == later;
    CarriedIdFits(m, issued, e);
    DestroyKillsId(m, id, e);
    StepKeepsFreeList(m, Destroy(id));
    StepKeepsIdsOk(m, issued, Destroy(id));
    assert issued + NewIds(m, Destroy(id)) == issued;
    DeadIdRejectedForever(Step(m, Destroy(id)), issued, later, s', issued', m.envs[e].id, checkPerm);
  }

  lemma CarriedIdFits(s: EnvState, issued: seq<nat>, e: nat)
    requires FreeListOk(s) && IdsOk(s, issued) && e < NENV && e !in s.free
    ensures s.envs[e].id in issued && s.envs[e].id % NENV == e
  {
    assert SlotOk(s, e, issued);
    var k :| 0 <= k < |issued| && issued[k] == s.envs[e].id;
    assert s.envs[e].id / 2048 == k + 1;
    SlotOfId(s.envs[e].id, e);
  }

  /** With the permission check the slot must besides be the current environment or its child. */
  lemma PermittedIdIff(s: EnvState, ops: seq<EnvOp>, s': EnvState, issued: seq<nat>, id: nat, e: nat)
    requires AtBoot(s) && Runs(s, [], ops, s', issued)
    ensures FreeListOk(s')
    ensures s'.cur.Some? ==>
      (Envid2Env(s', id, true) == Some(e) <==>
        if id == 0 then s'.cur == Some(e)
        else
          && e < NENV && s'.envs[e].status != ENV_FREE && s'.envs[e].id == id
          && (s'.cur == Some(e) || s'.envs[e].parent == s'.envs[s'.cur.value].id))
  {
    BootIdsOk(s);
    RunsKeepIdentities(s, [], ops, s', issued);
    if s'.cur.Some? && e < NENV && s'.envs[e].status != ENV_FREE && s'.envs[e].id == id {
      LiveIdAt(s', issued, e);
    }
  }
}
