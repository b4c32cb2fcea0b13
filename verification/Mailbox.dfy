/** The one-slot mailboxes over whole runs: a delivered message stays, and sends match receives. */
module Mailbox {
  import opened Options
  import opened EnvTable
  import opened EnvRuns

  ghost predicate IsRecv(s: EnvState, op: EnvOp, e: nat) {
    op.Recv? && s.cur == Some(e)
  }

  ghost predicate IsDelivery(s: EnvState, op: EnvOp, e: nat)
    requires FreeListOk(s) && Enabled(s, op)
  {
    op.Send? && CanSendTo(s, op.id) == Sent && Envid2Env(s, op.id, false) == Some(e)
  }

  // ---- stability ----

  ghost predicate SameMessage(s: EnvState, s': EnvState, e: nat) {
    && e < |s.envs| && e < |s'.envs|
    && s'.envs[e].ipcValue == s.envs[e].ipcValue && s'.envs[e].ipcFrom == s.envs[e].ipcFrom
  }

  /** A closed mailbox keeps its message and stays closed, except in its owner's `sys_ipc_recv`. */
  lemma StepKeepsMessage(s: EnvState, op: EnvOp, e: nat)
    requires FreeListOk(s) && Enabled(s, op) && e < NENV
    requires !s.envs[e].ipcRecving && !IsRecv(s, op, e)
    ensures SameMessage(s, Step(s, op), e) && !Step(s, op).envs[e].ipcRecving
  {
    if op.Create? || op.Spawn? {
      assert s.free[0] in s.free;
    }
  }

  /** No operation of the run is `sys_ipc_recv` of environment `e`. */
  ghost predicate NoRecv(s: EnvState, ops: seq<EnvOp>, e: nat)
    requires FreeListOk(s)
    decreases |ops|
  {
    ops == [] ||
    (Enabled(s, ops[0]) && !IsRecv(s, ops[0], e) &&
      (StepKeepsFreeList(s, ops[0]); NoRecv(Step(s, ops[0]), ops[1..], e)))
  }

  /** In every run, a delivered message and its sender are unchanged until the receiver's next receive. */
  lemma {:induction false} MessageStable(s: EnvState, issued: seq<nat>, ops: seq<EnvOp>, s': EnvState,
                                         issued': seq<nat>, e: nat)
    requires FreeListOk(s) && Runs(s, issued, ops, s', issued') && e < NENV
    requires !s.envs[e].ipcRecving && NoRecv(s, ops, e)
    ensures SameMessage(s, s', e) && !s'.envs[e].ipcRecving
    decreases |ops|
  {
    if ops != [] {
      StepKeepsFreeList(s, ops[0]);
      StepKeepsMessage(s, ops[0], e);
      MessageStable(Step(s, ops[0]), issued + NewIds(s, ops[0]), ops[1..], s', issued', e);
    }
  }

  /** A delivery closes the mailbox with the sender's message in it. */
  lemma DeliveryFillsMailbox(s: EnvState, op: EnvOp, e: nat)
    requires FreeListOk(s) && Enabled(s, op) && IsDelivery(s, op, e)
    ensures var s' := Step(s, op);
      && e < |s'.envs| && s.envs[e].ipcRecving && !s'.envs[e].ipcRecving
      && s'.envs[e].ipcValue == op.value && s'.envs[e].ipcFrom == s.envs[s.cur.value].id
      && s'.envs[e].status == ENV_RUNNABLE
  {
  }

  // ---- matching ----

  /** A receiver waits: it is not runnable and not current. */
  ghost predicate ReceiversWait(s: EnvState)
    requires WellFormed(s)
  {
    forall e: nat :: e < NENV && s.envs[e].ipcRecving ==> s.envs[e].status != ENV_RUNNABLE && s.cur != Some(e)
  }

  /** The operations of the mailbox protocol: nobody forces a receiver's status or reuses its slot unopened. */
  ghost predicate Protocol(s: EnvState, op: EnvOp)
    requires FreeListOk(s) && Enabled(s, op)
  {
    match op
    case Create(_) => s.free[0] < NENV && !s.envs[s.free[0]].ipcRecving
    case ChangeStatus(id, _) => (var e := Envid2Env(s, id, false); e.Some? ==> !s.envs[e.value].ipcRecving)
    case _ => true
  }

  lemma StepKeepsReceiversWaiting(s: EnvState, op: EnvOp)
    requires FreeListOk(s) && Enabled(s, op) && Protocol(s, op) && ReceiversWait(s)
    ensures FreeListOk(Step(s, op)) && ReceiversWait(Step(s, op))
  {
    StepKeepsFreeList(s, op);
    if op.Create? || op.Spawn? {
      assert s.free[0] in s.free;
    }
  }

  /** One more receive, or one more delivery, is one change of the open flag. */
  lemma StepBalance(s: EnvState, op: EnvOp, e: nat)
    requires FreeListOk(s) && Enabled(s, op) && Protocol(s, op) && ReceiversWait(s) && e < NENV
    requires e !in s.free
    ensures e < |Step(s, op).envs|
    ensures Flag(Step(s, op), e) == Flag(s, e) + Recvs(s, op, e) - Deliveries(s, op, e)
  {
    if op.Create? || op.Spawn? {
      assert s.free[0] in s.free;
    }
  }

  ghost function Recvs(s: EnvState, op: EnvOp, e: nat): nat
    requires FreeListOk(s) && Enabled(s, op)
  {
    if IsRecv(s, op, e) then 1 else 0
  }

  ghost function Deliveries(s: EnvState, op: EnvOp, e: nat): nat
    requires FreeListOk(s) && Enabled(s, op)
  {
    if IsDelivery(s, op, e) then 1 else 0
  }

  ghost function Flag(s: EnvState, e: nat): nat
    requires e < |s.envs|
  {
    if s.envs[e].ipcRecving then 1 else 0
  }

  /** The receives `e` makes, minus the deliveries to it, in a protocol run during which `e` is not freed. */
  ghost predicate Exchanges(s: EnvState, ops: seq<EnvOp>, e: nat, recvs: nat, sends: nat)
    requires FreeListOk(s)
    decreases |ops|
  {
    e !in s.free &&
    if ops == [] then recvs == 0 && sends == 0
    else
      Enabled(s, ops[0]) && Protocol(s, ops[0]) &&
      (StepKeepsFreeList(s, ops[0]);
       var r, d := Recvs(s, ops[0], e), Deliveries(s, ops[0], e);
       recvs >= r && sends >= d && Exchanges(Step(s, ops[0]), ops[1..], e, recvs - r, sends - d))
  }

  ghost predicate ExchangesRest(s: EnvState, op: EnvOp, rest: seq<EnvOp>, e: nat, recvs: int, sends: int)
    requires FreeListOk(s) && Enabled(s, op) && FreeListOk(Step(s, op))
  {
    recvs >= 0 && sends >= 0 && Exchanges(Step(s, op), rest, e, recvs, sends)
  }

  lemma FirstExchange(s: EnvState, ops: seq<EnvOp>, e: nat, recvs: nat, sends: nat)
    requires FreeListOk(s) && ops != [] && Exchanges(s, ops, e, recvs, sends)
    ensures e !in s.free && Enabled(s, ops[0]) && Protocol(s, ops[0]) && FreeListOk(Step(s, ops[0]))
    ensures ExchangesRest(s, ops[0], ops[1..], e, recvs - Recvs(s, ops[0], e), sends - Deliveries(s, ops[0], e))
  {
    StepKeepsFreeList(s, ops[0]);
  }

  /**
   Every receive is matched by exactly one delivery: starting from a closed mailbox, after any
   protocol run the deliveries number the receives, less the one still waiting.
   */
  lemma {:induction false} DeliveriesMatchReceives(s: EnvState, issued: seq<nat>, ops: seq<EnvOp>, s': EnvState,
                                                   issued': seq<nat>,
                                                   e: nat, recvs: nat, sends: nat)
    requires FreeListOk(s) && Runs(s, issued, ops, s', issued') && ReceiversWait(s) && e < NENV
    requires Exchanges(s, ops, e, recvs, sends)
    ensures e < |s'.envs| && Flag(s, e) + recvs == sends + Flag(s', e)
    decreases |ops|
  {
    if ops != [] {
      FirstExchange(s, ops, e, recvs, sends);
      StepKeepsReceiversWaiting(s, ops[0]);
      StepBalance(s, ops[0], e);
      DeliveriesMatchReceives(Step(s, ops[0]), issued + NewIds(s, ops[0]), ops[1..], s', issued', e,
                              recvs - Recvs(s, ops[0], e), sends - Deliveries(s, ops[0], e));
    }
  }
}
