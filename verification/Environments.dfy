/**
 The environment table of the kernel, updated in place: `env.c`, `sched.c` and the mailbox
 system calls.  Every method is tied to the transition of `EnvTable` it carries out.
 */
module Environments {
  import opened Options
  import opened Lists
  import opened EnvTable
  import opened EnvRuns

  class EnvironmentTable {
    const envs: array<Env>
    const free: IntrusiveList
    var cur: Option<nat>
    var made: nat
    var pick: nat
    var stack: Trapframe
    var ttbr0: nat

    ghost const Repr: set<object>

    ghost predicate Shaped()
      reads this, Repr
    {
      && {this, envs, free, free.next, free.prev} == Repr
      && envs.Length == NENV && free.next.Length == NENV
      && free.Valid()
    }

    ghost function State(): EnvState
      reads this, Repr
      requires Shaped()
    {
      EnvState(envs[..], free.contents, cur, made, pick, stack, ttbr0)
    }

    ghost predicate Valid()
      reads this, Repr
    {
      Shaped() && FreeListOk(State())
    }

    /** `env_init`: every slot free, in order, and no current environment. */
    constructor (blank: Env)
      ensures Valid() && fresh(Repr)
      ensures AtBoot(State())
      ensures free.contents == seq(NENV, i => i)
      ensures forall i :: 0 <= i < NENV ==> State().envs[i] == blank.(id := i, status := ENV_FREE)
    {
      envs := new Env[NENV](_ => blank);
      var list := new IntrusiveList(NENV);
      free := list;
      cur, made, pick, stack, ttbr0 := None, 0, 0, blank.tf, 0;
      Repr := {this, envs, list, list.next, list.prev};
      new;
      InitSlots(blank);
      forall e: nat | e < NENV
        ensures e in State().free
      {
        assert State().free[e] == e;
      }
    }

    method InitSlots(blank: Env)
      requires Shaped() && free.contents == [] && forall i :: 0 <= i < NENV ==> envs[i] == blank
      modifies envs, free, free.next, free.prev
      ensures Shaped() && free.contents == seq(NENV, i => i)
      ensures forall i :: 0 <= i < NENV ==> envs[i] == blank.(id := i, status := ENV_FREE)
    {
      var i := NENV;
      while i > 0
        invariant 0 <= i <= NENV && Shaped()
        invariant free.contents == seq(NENV - i, k requires 0 <= k => i + k)
        invariant forall k :: 0 <= k < i ==> envs[k] == blank
        invariant forall k :: i <= k < NENV ==> envs[k] == blank.(id := k, status := ENV_FREE)
      {
        i := i - 1;
        envs[i] := envs[i].(id := i, status := ENV_FREE);
        free.InsertHead(i);
      }
    }

    /** `mkenvid`. */
    method MakeEnvId(e: nat) returns (id: nat)
      requires Shaped() && e < NENV
      modifies this`made
      ensures Shaped() && State() == old(State()).(made := old(made) + 1) && id == MakeId(made, e)
    {
      made := made + 1;
      id := MakeId(made, e);
    }

    /** `envid2env`. */
    method Envid2EnvAt(id: nat, checkPerm: bool) returns (e: Option<nat>)
      requires Valid() && cur.Some?
      ensures e == Envid2Env(State(), id, checkPerm)
    {
      if id == 0 {
        return cur;
      }
      var i := id % NENV;
      if envs[i].status == ENV_FREE || envs[i].id != id {
        return None;
      }
      if checkPerm && i != cur.value && envs[i].parent != envs[cur.value].id {
        return None;
      }
      e := Some(i);
    }

    /** `env_alloc`, given the page directory of `env_setup_vm`. */
    method Alloc(parent: nat, pgdir: nat) returns (e: nat)
      requires Valid() && State().free != []
      modifies this`made, envs, free, free.next, free.prev
      ensures Valid() && State() == EnvAlloc(old(State()), parent, pgdir) && e == old(State()).free[0]
    {
      ghost var s := State();
      StepKeepsFreeList(s, Create(pgdir));
      e := free.first.value;
      var id := MakeEnvId(e);
      envs[e] := envs[e].(id := id, parent := parent, status := ENV_RUNNABLE, pgdir := pgdir,
                          tf := envs[e].tf.(spsr := 0, sp := USTACKTOP));
      free.Remove(e);
      WithoutHead(s.free, free.contents, e);
    }

    /** The part of `sys_env_alloc` after `env_alloc`: `bcopy` the trapframe and reset the fields. */
    method Inherit(e: nat)
      requires Shaped() && e < NENV && |stack.regs| == 31
      modifies envs
      ensures Shaped()
      ensures State() == old(State()).(envs := old(State()).envs[e := Inheriting(old(State()).envs[e], stack)])
    {
      envs[e] := envs[e].(tf := stack);
      envs[e] := envs[e].(status := ENV_NOT_RUNNABLE);
      envs[e] := envs[e].(tf := envs[e].tf.(regs := envs[e].tf.regs[0 := 0]));
      envs[e] := envs[e].(ipcRecving := false);
    }

    /** One store to `env_status`. */
    method StoreStatus(e: nat, status: Status)
      requires Shaped() && e < NENV
      modifies envs
      ensures Shaped()
      ensures State() == old(State()).(envs := old(State()).envs[e := old(State()).envs[e].(status := status)])
    {
      envs[e] := envs[e].(status := status);
    }

    /** `env_free`. */
    method Free(e: nat)
      requires Shaped() && e < NENV && e !in free.contents
      modifies envs, free, free.next, free.prev
      ensures Shaped() && State() == EnvFree(old(State()), e)
    {
      StoreStatus(e, ENV_FREE);
      free.InsertHead(e);
    }

    /** `env_run`: `bcopy` the time stack out, switch, `bcopy` the next trapframe in. */
    method Run(e: nat)
      requires Shaped() && e < NENV && (cur.Some? ==> cur.value < NENV)
      modifies this`cur, this`stack, this`ttbr0, envs
      ensures Shaped() && State() == EnvRun(old(State()), e)
    {
      if cur.Some? {
        envs[cur.value] := envs[cur.value].(tf := stack);
      }
      cur := Some(e);
      stack := envs[e].tf;
      ttbr0 := envs[e].pgdir;
    }

    /** The loop of `sched_yield`; it terminates because some environment is runnable. */
    method AdvancePick()
      requires Shaped() && pick < NENV && SomeRunnable(State().envs)
      modifies this`pick
      ensures Shaped() && State() == old(State()).(pick := NextPick(old(State()).envs, old(pick)))
    {
      ghost var i, table := pick, envs[..];
      while true
        invariant pick < NENV && NextPick(table, pick) == NextPick(table, i)
        decreases StepsToPick(table, pick)
      {
        PickTurn(table, pick);
        pick := (pick + 1) % NENV;
        if envs[pick].status == ENV_RUNNABLE {
          return;
        }
      }
    }

    /** `sched_yield`. */
    method Yield()
      requires Valid() && SomeRunnable(State().envs)
      modifies this`cur, this`stack, this`ttbr0, this`pick, envs
      ensures Valid() && State() == SchedYield(old(State()))
    {
      YieldKeepsFreeList(State());
      AdvancePick();
      Run(pick);
    }

    /** `env_destroy`. */
    method Destroy(e: nat)
      requires Valid() && e < NENV && e !in State().free
      requires cur == Some(e) ==> SomeRunnable(Released(State(), e).envs)
      modifies this`cur, this`stack, this`ttbr0, this`pick, envs, free, free.next, free.prev
      ensures Valid() && State() == EnvDestroy(old(State()), e)
    {
      DestroyKeepsFreeList(State(), e);
      PushDistinct(e, free.contents);
      Free(e);
      if cur == Some(e) {
        cur := None;
        Yield();
      }
    }

    /** `sys_ipc_recv`. */
    method SysIpcRecv(dstva: nat)
      requires Valid() && cur.Some? && SomeRunnable(RecvOpened(State(), dstva).envs)
      modifies this`cur, this`stack, this`ttbr0, this`pick, envs
      ensures Valid() && State() == IpcRecv(old(State()), dstva)
    {
      ghost var s := State();
      envs[cur.value] := envs[cur.value].(ipcDstva := dstva);
      envs[cur.value] := envs[cur.value].(ipcRecving := true);
      envs[cur.value] := envs[cur.value].(status := ENV_NOT_RUNNABLE);
      assert State() == RecvOpened(s, dstva);
      Yield();
    }

    /** The mailbox half of `sys_ipc_can_send`. */
    method SysIpcCanSend(id: nat, value: nat, srcva: nat, perm: nat) returns (r: SendResult)
      requires Valid() && cur.Some?
      modifies envs
      ensures Valid() && State() == IpcCanSend(old(State()), id, value, srcva, perm)
      ensures r == CanSendTo(old(State()), id)
    {
      ghost var s := State();
      StepKeepsFreeList(s, Send(id, value, srcva, perm));
      var e := Envid2EnvAt(id, false);
      if e.None? {
        return BadEnv;
      }
      var i := e.value;
      if !envs[i].ipcRecving {
        return NotReceiving;
      }
      if srcva != 0 && envs[i].ipcDstva != 0 {
        envs[i] := envs[i].(ipcPerm := perm);
      }
      var from := envs[cur.value].id;
      envs[i] := envs[i].(ipcRecving := false, ipcFrom := from, ipcValue := value, status := ENV_RUNNABLE);
      assert State().envs == s.envs[i := Delivered(s.envs[i], from, value, srcva, perm)];
      r := Sent;
    }

    /** `sys_set_env_status`. */
    method SysSetEnvStatus(id: nat, code: nat) returns (r: StatusResult)
      requires Valid() && cur.Some?
      modifies envs
      ensures Valid()
      ensures r.StatusInvalid? <==> StatusOf(code).None?
      ensures r.UnknownEnv? <==> StatusOf(code).Some? && Envid2Env(old(State()), id, false).None?
      ensures State() == if r.StatusSet? then SetStatus(old(State()), id, StatusOf(code).value) else old(State())
    {
      var status := StatusOf(code);
      if status.None? {
        return StatusInvalid;
      }
      StepKeepsFreeList(State(), ChangeStatus(id, status.value));
      var e := Envid2EnvAt(id, false);
      if e.None? {
        return UnknownEnv;
      }
      StoreStatus(e.value, status.value);
      r := StatusSet;
    }

    /** `sys_env_destroy`; false is -E_BAD_ENV. */
    method SysEnvDestroy(id: nat) returns (ok: bool)
      requires Valid() && cur.Some? && Enabled(State(), EnvOp.Destroy(id))
      modifies this`cur, this`stack, this`ttbr0, this`pick, envs, free, free.next, free.prev
      ensures Valid() && State() == Step(old(State()), EnvOp.Destroy(id))
      ensures ok <==> Envid2Env(old(State()), id, true).Some?
    {
      var e := Envid2EnvAt(id, true);
      if e.None? {
        return false;
      }
      Destroy(e.value);
      ok := true;
    }
  }

  /** How far `sched_yield` advances from slot `i`. */
  ghost function StepsToPick(table: seq<Env>, i: nat): (k: nat)
    requires |table| == NENV && i < NENV && SomeRunnable(table)
    ensures 1 <= k <= NENV && RunnableAhead(table, i, k) && NextPick(table, i) == (i + k) % NENV
    ensures forall j: nat :: 1 <= j < k ==> !RunnableAhead(table, i, j)
  {
    SomeRunnableAhead(table, i);
    Advance(table, i, 1)
  }

  lemma SameSlot(i: nat, k: nat)
    ensures ((i + 1) % NENV + k) % NENV == (i + (k + 1)) % NENV
  {
  }

  lemma AheadShifts(table: seq<Env>, i: nat, k: nat)
    requires |table| == NENV
    ensures RunnableAhead(table, (i + 1) % NENV, k) <==> RunnableAhead(table, i, k + 1)
  {
    SameSlot(i, k);
  }

  lemma StepsShift(table: seq<Env>, i: nat, n: nat)
    requires |table| == NENV && i < NENV && n == (i + 1) % NENV && SomeRunnable(table) && !RunnableAhead(table, i, 1)
    ensures StepsToPick(table, i) == StepsToPick(table, n) + 1
  {
    AheadShifts(table, i, StepsToPick(table, i) - 1);
    AheadShifts(table, i, StepsToPick(table, n));
  }

  /** The slot after `i` is the pick if it is runnable, and otherwise one step closer to the same pick. */
  lemma PickTurn(table: seq<Env>, i: nat)
    requires |table| == NENV && i < NENV && SomeRunnable(table)
    ensures var n := (i + 1) % NENV;
      if table[n].status == ENV_RUNNABLE then NextPick(table, i) == n
      else NextPick(table, n) == NextPick(table, i) && StepsToPick(table, n) < StepsToPick(table, i)
  {
    var n := (i + 1) % NENV;
    if !RunnableAhead(table, i, 1) {
      StepsShift(table, i, n);
      SamePick(table, i, n, StepsToPick(table, n));
    }
  }

  lemma SamePick(table: seq<Env>, i: nat, n: nat, k: nat)
    requires |table| == NENV && i < NENV && n == (i + 1) % NENV && SomeRunnable(table)
    requires StepsToPick(table, n) == k && StepsToPick(table, i) == k + 1
    ensures NextPick(table, n) == NextPick(table, i)
  {
    SameSlot(i, k);
  }
}
