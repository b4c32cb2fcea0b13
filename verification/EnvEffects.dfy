/** What the operations on environments do to the table, field by field. */
module EnvEffects {
  import opened Options
  import opened Lists
  import opened EnvTable
  import opened EnvRuns
  import opened Scheduling

  /** From `s` to `s'` no slot but `e` changed, and nothing outside the table. */
  ghost predicate OnlySlot(s: EnvState, s': EnvState, e: nat) {
    && |s'.envs| == |s.envs| && (forall x: nat :: x < |s.envs| && x != e ==> s'.envs[x] == s.envs[x])
    && s'.free == s.free && s'.made == s.made && OnCpu(s, s')
  }

  /** The same environment runs, with the same registers and directory, and the scheduler stands where it stood. */
  ghost predicate OnCpu(s: EnvState, s': EnvState) {
    s'.cur == s.cur && s'.pick == s.pick && s'.stack == s.stack && s'.ttbr0 == s.ttbr0
  }

  /** The head of the free list became an environment. */
  ghost predicate SlotTaken(s: EnvState, s': EnvState, e: nat) {
    && s.free != [] && e == s.free[0] && s'.free == s.free[1..] && s'.made == s.made + 1 && OnCpu(s, s')
    && |s'.envs| == |s.envs| && (forall x: nat :: x < |s.envs| && x != e ==> s'.envs[x] == s.envs[x])
    && e < |s.envs|
  }

  /** The mailboxes of two entries hold the same. */
  predicate SameMailbox(a: Env, b: Env) {
    && a.ipcValue == b.ipcValue && a.ipcFrom == b.ipcFrom && a.ipcDstva == b.ipcDstva && a.ipcPerm == b.ipcPerm
    && a.ipcRecving == b.ipcRecving
  }

  /** `env_alloc` makes a runnable environment that starts at the top of its stack; its other registers stay. */
  lemma CreatedEntry(s: EnvState, parent: nat, pgdir: nat)
    requires FreeListOk(s) && s.free != [] && s.made + 1 < GENERATIONS
    ensures s.free[0] < NENV
    ensures var s', e := EnvAlloc(s, parent, pgdir), s.free[0];
      && SlotTaken(s, s', e)
      && var was, env := s.envs[e], s'.envs[e];
         && env.id == (s.made + 1) * 2048 + e && env.parent == parent && env.pgdir == pgdir
         && env.status == ENV_RUNNABLE
         && env.tf.spsr == 0 && env.tf.sp == 0x0100_0000
         && env.tf.elr == was.tf.elr && env.tf.esr == was.tf.esr && env.tf.regs == was.tf.regs
         && SameMailbox(env, was)
  {
    assert s.free[0] in s.free;
  }

  /**
   `sys_env_alloc` makes a child that is not runnable yet, with its mailbox closed and the registers of
   its parent but for the result of the call, which is 0.
   */
  lemma SpawnedEntry(s: EnvState, pgdir: nat)
    requires FreeListOk(s) && s.free != [] && s.cur.Some? && |s.stack.regs| == 31 && s.made + 1 < GENERATIONS
    ensures s.free[0] < NENV
    ensures var s', e := SysEnvAlloc(s, pgdir), s.free[0];
      && SlotTaken(s, s', e)
      && var env := s'.envs[e];
         && env.id == (s.made + 1) * 2048 + e && env.parent == s.envs[s.cur.value].id && env.pgdir == pgdir
         && env.status == ENV_NOT_RUNNABLE && !env.ipcRecving
         && env.tf.spsr == s.stack.spsr && env.tf.elr == s.stack.elr && env.tf.esr == s.stack.esr
         && env.tf.sp == s.stack.sp && |env.tf.regs| == 31
         && env.tf.regs[0] == 0 && forall k :: 1 <= k < 31 ==> env.tf.regs[k] == s.stack.regs[k]
  {
    assert s.free[0] in s.free;
  }

  /** `env_destroy` frees the slot, at the front of the list, and schedules if it was running. */
  lemma DestroyedEntry(s: EnvState, e: nat)
    requires FreeListOk(s) && e < NENV && e !in s.free
    requires s.cur == Some(e) ==> SomeRunnable(Released(s, e).envs)
    ensures var s' := EnvDestroy(s, e);
      && |s'.envs| == NENV && s'.envs[e] == s.envs[e].(status := ENV_FREE) && s'.free == [e] + s.free
      && (forall x: nat :: x < NENV && x != e && s.cur != Some(x) ==> s'.envs[x] == s.envs[x])
      && (s.cur != Some(e) ==> OnCpu(s, s') && forall x: nat :: x < NENV && x != e ==> s'.envs[x] == s.envs[x])
      && (s.cur == Some(e) ==> RanFirst(s, s', e))
  {
    PushDistinct(e, s.free);
    if s.cur == Some(e) {
      YieldRunsFirst(Released(s, e));
    }
  }

  /** The first runnable environment after the last pick now runs, `e` out of the question. */
  ghost predicate RanFirst(s: EnvState, s': EnvState, e: nat)
    requires WellFormed(s)
  {
    match s'.cur
    case None => false
    case Some(n) =>
      && n < NENV && n != e && Runnable(s.envs, n) && s'.pick == n
      && (forall x: nat :: x < NENV && x != e && Runnable(s.envs, x) ==>
            CyclicDistance(s.pick, n) <= CyclicDistance(s.pick, x))
      && s'.stack == Resumes(s, n) && s'.ttbr0 == s.envs[n].pgdir
  }

  /** `sys_ipc_recv` leaves the caller waiting with its mailbox open, and runs somebody else. */
  lemma ReceiverWaits(s: EnvState, dstva: nat)
    requires FreeListOk(s) && s.cur.Some? && SomeRunnable(RecvOpened(s, dstva).envs)
    ensures var s', e := IpcRecv(s, dstva), s.cur.value;
      && |s'.envs| == NENV && s'.free == s.free && s'.made == s.made && RanFirst(s, s', e)
      && s'.envs[e] == s.envs[e].(ipcRecving := true, ipcDstva := dstva, status := ENV_NOT_RUNNABLE, tf := s.stack)
      && forall x: nat :: x < NENV && x != e ==> s'.envs[x] == s.envs[x]
  {
    YieldRunsFirst(RecvOpened(s, dstva));
  }

  /**
   A send that succeeds leaves value, sender and, with a page, its permissions in the receiver's mailbox,
   closes it and wakes the receiver; one that fails changes nothing.
   */
  lemma SendEffect(s: EnvState, id: nat, value: nat, srcva: nat, perm: nat)
    requires FreeListOk(s) && s.cur.Some?
    ensures var s' := IpcCanSend(s, id, value, srcva, perm);
      match Envid2Env(s, id, false)
      case None => CanSendTo(s, id) == BadEnv && s' == s
      case Some(e) =>
        if !s.envs[e].ipcRecving then CanSendTo(s, id) == NotReceiving && s' == s
        else
          && CanSendTo(s, id) == Sent && OnlySlot(s, s', e)
          && s'.envs[e] == s.envs[e].(ipcRecving := false, ipcValue := value, ipcFrom := s.envs[s.cur.value].id,
                                      status := ENV_RUNNABLE, ipcPerm := s'.envs[e].ipcPerm)
          && s'.envs[e].ipcPerm == if srcva == 0 || s.envs[e].ipcDstva == 0 then s.envs[e].ipcPerm else perm
  {
  }

  /** `sys_set_env_status` stores what its codes 0, 1 and 2 stand for, in the one slot that was named. */
  lemma StatusStored(s: EnvState, id: nat, code: nat)
    requires FreeListOk(s) && s.cur.Some?
    ensures StatusOf(code).Some? <==> code <= 2
    ensures code <= 2 && Envid2Env(s, id, false).Some? ==>
      var s', e := SetStatus(s, id, StatusOf(code).value), Envid2Env(s, id, false).value;
      && OnlySlot(s, s', e)
      && s'.envs[e] == s.envs[e].(status := [ENV_FREE, ENV_RUNNABLE, ENV_NOT_RUNNABLE][code])
  {
  }
}
