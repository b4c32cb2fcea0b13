/**
 The environment table, scheduler and mailboxes as a transition system on values: `env.c`,
 `sched.c` and the IPC half of `syscall_all.c`.
 */
module EnvTable {
  import opened Options
  import opened Lists

  const NENV: nat := 1024
  const USTACKTOP: nat := 0x0100_0000

  datatype Trapframe = Trapframe(spsr: nat, elr: nat, esr: nat, sp: nat, regs: seq<nat>)

  datatype Status = ENV_FREE | ENV_RUNNABLE | ENV_NOT_RUNNABLE

  /** The status with this code, if there is one. */
  function StatusOf(code: nat): Option<Status> {
    match code
    case 0 => Some(ENV_FREE)
    case 1 => Some(ENV_RUNNABLE)
    case 2 => Some(ENV_NOT_RUNNABLE)
    case _ => None
  }

  /** What `sys_set_env_status` returns: 0, -E_INVAL or -E_BAD_ENV. */
  datatype StatusResult = StatusSet | StatusInvalid | UnknownEnv

  /** The fields of `struct Env` that the modelled code reads; `pgdir` is a frame number. */
  datatype Env = Env(
    tf: Trapframe, id: nat, parent: nat, status: Status, pgdir: nat,
    ipcValue: nat, ipcFrom: nat, ipcRecving: bool, ipcDstva: nat, ipcPerm: nat)

  /**
   `free` is the free list, `made` the static counter of `mkenvid`, `pick` the static index of
   `sched_yield`, `stack` the trapframe on the time stack, `ttbr0` the installed page directory.
   */
  datatype EnvState = EnvState(
    envs: seq<Env>, free: seq<nat>, cur: Option<nat>, made: nat, pick: nat, stack: Trapframe, ttbr0: nat)

  ghost predicate WellFormed(s: EnvState) {
    && |s.envs| == NENV
    && Distinct(s.free) && (forall e :: e in s.free ==> e < NENV)
    && (s.cur.Some? ==> s.cur.value < NENV)
    && s.pick < NENV
  }

  // ---- identifiers ----

  /** `mkenvid`: 21 bits of generation above 11 bits of slot, truncated to 32 bits. */
  function MakeId(generation: nat, slot: nat): nat {
    (generation * 2048 + slot) % 0x1_0000_0000
  }

  /** `envid2env`, called with a current environment; `None` is -E_BAD_ENV. */
  function Envid2Env(s: EnvState, id: nat, checkPerm: bool): (e: Option<nat>)
    requires |s.envs| == NENV && s.cur.Some? && s.cur.value < NENV
    ensures e.Some? ==> e.value < NENV
  {
    var e := id % NENV;
    if id == 0 then s.cur
    else if s.envs[e].status == ENV_FREE || s.envs[e].id != id then None
    else if checkPerm && e != s.cur.value && s.envs[e].parent != s.envs[s.cur.value].id then None
    else Some(e)
  }

  // ---- allocation and release ----

  /** `env_alloc` on the head of the free list, with the page directory `env_setup_vm` made. */
  function EnvAlloc(s: EnvState, parent: nat, pgdir: nat): EnvState
    requires |s.envs| == NENV && s.free != [] && s.free[0] < NENV
  {
    var e := s.free[0];
    var was := s.envs[e];
    var env := was.(id := MakeId(s.made + 1, e), parent := parent, status := ENV_RUNNABLE, pgdir := pgdir,
                    tf := was.tf.(spsr := 0, sp := USTACKTOP));
    s.(envs := s.envs[e := env], free := s.free[1..], made := s.made + 1)
  }

  /** `sys_env_alloc`: a child of the current environment that starts with its trapframe, except `regs[0]`. */
  function SysEnvAlloc(s: EnvState, pgdir: nat): EnvState
    requires |s.envs| == NENV && s.free != [] && s.free[0] < NENV && s.cur.Some? && s.cur.value < NENV
    requires |s.stack.regs| == 31
  {
    var e := s.free[0];
    var a := EnvAlloc(s, s.envs[s.cur.value].id, pgdir);
    a.(envs := a.envs[e := Inheriting(a.envs[e], s.stack)])
  }

  /** A new environment set to resume where the current one is, with 0 as its system call's result. */
  function Inheriting(env: Env, stack: Trapframe): Env
    requires |stack.regs| == 31
  {
    env.(tf := stack.(regs := stack.regs[0 := 0]), status := ENV_NOT_RUNNABLE, ipcRecving := false)
  }

  /** `env_free`. */
  function EnvFree(s: EnvState, e: nat): EnvState
    requires |s.envs| == NENV && e < NENV
  {
    s.(envs := s.envs[e := s.envs[e].(status := ENV_FREE)], free := [e] + s.free)
  }

  // ---- context switch and scheduling ----

  /** `env_run`: save the time stack to the outgoing environment, load the incoming one. */
  function EnvRun(s: EnvState, e: nat): EnvState
    requires |s.envs| == NENV && e < NENV && (s.cur.Some? ==> s.cur.value < NENV)
  {
    var envs := if s.cur.Some? then s.envs[s.cur.value := s.envs[s.cur.value].(tf := s.stack)] else s.envs;
    s.(envs := envs, cur := Some(e), stack := envs[e].tf, ttbr0 := envs[e].pgdir)
  }

  predicate Runnable(envs: seq<Env>, e: nat)
    requires e < |envs|
  {
    envs[e].status == ENV_RUNNABLE
  }

  /** The slot `k` steps after `i` in cyclic order is runnable. */
  predicate RunnableAhead(envs: seq<Env>, i: nat, k: nat)
    requires |envs| == NENV
  {
    Runnable(envs, (i + k) % NENV)
  }

  /** The number of slots `sched_yield` advances from `i` before it stops, having already passed `d - 1`. */
  function Advance(envs: seq<Env>, i: nat, d: nat): (r: nat)
    requires |envs| == NENV && 1 <= d <= NENV
    requires exists k: nat :: d <= k <= NENV && RunnableAhead(envs, i, k)
    ensures d <= r <= NENV && RunnableAhead(envs, i, r)
    ensures forall k: nat :: d <= k < r ==> !RunnableAhead(envs, i, k)
    decreases NENV - d
  {
    if RunnableAhead(envs, i, d) then d else Advance(envs, i, d + 1)
  }

  ghost predicate SomeRunnable(envs: seq<Env>) {
    exists e: nat :: e < |envs| && Runnable(envs, e)
  }

  /** Slot `e` is this many steps, from 1 to NENV, after slot `i` in cyclic order. */
  function CyclicDistance(i: nat, e: nat): (k: nat)
    requires i < NENV && e < NENV
    ensures 1 <= k <= NENV && (i + k) % NENV == e
  {
    if e > i then e - i else e + NENV - i
  }

  lemma SomeRunnableAhead(envs: seq<Env>, i: nat)
    requires |envs| == NENV && i < NENV && SomeRunnable(envs)
    ensures exists k: nat :: 1 <= k <= NENV && RunnableAhead(envs, i, k)
  {
    var e: nat :| e < |envs| && Runnable(envs, e);
    assert RunnableAhead(envs, i, CyclicDistance(i, e));
  }

  ghost function NextPick(envs: seq<Env>, i: nat): (e: nat)
    requires |envs| == NENV && i < NENV && SomeRunnable(envs)
    ensures e < NENV && Runnable(envs, e)
  {
    SomeRunnableAhead(envs, i);
    (i + Advance(envs, i, 1)) % NENV
  }

  /** `sched_yield`, which returns only when some environment is runnable. */
  ghost function SchedYield(s: EnvState): EnvState
    requires WellFormed(s) && SomeRunnable(s.envs)
  {
    var e := NextPick(s.envs, s.pick);
    EnvRun(s.(pick := e), e)
  }

  /** `env_destroy` up to the reschedule. */
  function Released(s: EnvState, e: nat): EnvState
    requires |s.envs| == NENV && e < NENV
  {
    var a := EnvFree(s, e);
    if s.cur == Some(e) then a.(cur := None) else a
  }

  ghost function EnvDestroy(s: EnvState, e: nat): EnvState
    requires WellFormed(s) && e < NENV && e !in s.free
    requires s.cur == Some(e) ==> SomeRunnable(Released(s, e).envs)
  {
    var a := Released(s, e);
    PushDistinct(e, s.free);
    if s.cur == Some(e) then SchedYield(a) else a
  }

  // ---- mailboxes ----

  /** The mailbox of a receiver once `sys_ipc_recv` has opened it. */
  function Opened(env: Env, dstva: nat): Env {
    env.(ipcDstva := dstva, ipcRecving := true, status := ENV_NOT_RUNNABLE)
  }

  /** The mailbox after a delivery; the permission is recorded only with a page. */
  function Delivered(env: Env, from: nat, value: nat, srcva: nat, perm: nat): Env {
    env.(ipcPerm := if srcva != 0 && env.ipcDstva != 0 then perm else env.ipcPerm,
         ipcRecving := false, ipcFrom := from, ipcValue := value, status := ENV_RUNNABLE)
  }

  function RecvOpened(s: EnvState, dstva: nat): EnvState
    requires |s.envs| == NENV && s.cur.Some? && s.cur.value < NENV
  {
    s.(envs := s.envs[s.cur.value := Opened(s.envs[s.cur.value], dstva)])
  }

  /** `sys_ipc_recv`. */
  ghost function IpcRecv(s: EnvState, dstva: nat): EnvState
    requires WellFormed(s) && s.cur.Some? && SomeRunnable(RecvOpened(s, dstva).envs)
  {
    SchedYield(RecvOpened(s, dstva))
  }

  datatype SendResult = Sent | BadEnv | NotReceiving

  function CanSendTo(s: EnvState, id: nat): SendResult
    requires |s.envs| == NENV && s.cur.Some? && s.cur.value < NENV
  {
    var e := Envid2Env(s, id, false);
    if e.None? then BadEnv
    else if !s.envs[e.value].ipcRecving then NotReceiving
    else Sent
  }

  /** `sys_ipc_can_send`, leaving the page transfer to the page tables. */
  function IpcCanSend(s: EnvState, id: nat, value: nat, srcva: nat, perm: nat): EnvState
    requires |s.envs| == NENV && s.cur.Some? && s.cur.value < NENV
  {
    if CanSendTo(s, id) != Sent then s
    else
      var e := Envid2Env(s, id, false).value;
      s.(envs := s.envs[e := Delivered(s.envs[e], s.envs[s.cur.value].id, value, srcva, perm)])
  }

  /** `sys_set_env_status`. */
  function SetStatus(s: EnvState, id: nat, status: Status): EnvState
    requires |s.envs| == NENV && s.cur.Some? && s.cur.value < NENV
  {
    var e := Envid2Env(s, id, false);
    if e.None? then s else s.(envs := s.envs[e.value := s.envs[e.value].(status := status)])
  }
}
