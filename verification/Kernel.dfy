/**
 Operations that span page tables and environments: `env_setup_vm`, `env_alloc`, `sys_fork`
 and the memory system calls.
 */
module Kernel {
  import opened Options
  import opened Mmu
  import opened PageTable
  import opened FrameState
  import opened PageMap
  import opened Spaces
  import opened Pmap
  import opened EnvTable
  import opened EnvRuns
  import opened Environments
  import opened EnvSetup
  import opened Fork

  /** Environments off the free list own pairwise different page directories. */
  ghost predicate Directories(p: PmState, e: EnvState) {
    && |e.envs| == NENV
    && (forall x: nat :: x < NENV && x !in e.free ==> IsRoot(p.own, e.envs[x].pgdir))
    && (forall x: nat, y: nat :: x < y < NENV && x !in e.free && y !in e.free ==> e.envs[x].pgdir != e.envs[y].pgdir)
  }

  /** The frames below KTOP are counted once more than they are mapped, so they are never freed. */
  ghost predicate KernelImage(p: PmState) {
    forall f: nat :: f < USED_FRAMES ==> Overcounted(p, f)
  }

  /** The frames of the environment table from page `k` on can be mapped once more without wrapping their count. */
  ghost predicate WindowCountsFit(p: PmState, k: nat)
    requires Sized(p)
  {
    forall f: nat :: KERNEL_ENVS_FRAME + k <= f < KERNEL_ENVS_FRAME + ENVS_WINDOW_PAGES ==> p.refs[f] < 0xFFFF
  }

  ghost predicate NewSpaceSoFar(s0: PmState, s: PmState, root: nat, k: nat) {
    && Beside(s0, s, root) && KernelImage(s)
    && IsRoot(s.own, root) && !IsRoot(s0.own, root)
    && AddressSpace(s.mem, root) == EnvsWindow(k)
    && WindowCountsFit(s, k)
  }

  /** From `s0` to `s`, a directory appeared that maps the environment table and nothing else. */
  ghost predicate NewSpace(s0: PmState, s: PmState, root: nat) {
    NewSpaceSoFar(s0, s, root, ENVS_WINDOW_PAGES)
  }

  lemma NewSpaceStarts(s0: PmState)
    requires Inv(s0) && KernelImage(s0) && WindowCountsFit(s0, 0) && s0.free != []
    ensures var (s, root) := NewDirectory(s0).value; NewSpaceSoFar(s0, s, root, 0)
  {
    NewDirectoryIsEmpty(s0);
    var (s, root) := NewDirectory(s0).value;
    ExtendsBeside(s0, s, root);
    ImageKept(s0, s);
  }

  lemma ImageKept(s0: PmState, s: PmState)
    requires Sized(s0) && Sized(s) && KernelImage(s0) && SlackKept(s0, s) && DataKept(s0, s) && WindowCountsFit(s0, 0)
    ensures KernelImage(s) && WindowCountsFit(s, 0)
  {
    forall f: nat | f < USED_FRAMES
      ensures Overcounted(s, f) && s.refs[f] == s0.refs[f]
    {
      assert Overcounted(s0, f);
    }
  }

  /** One turn of the loop that maps the window. */
  lemma NewSpaceStep(s0: PmState, s: PmState, s': PmState, root: nat, k: nat, pp: nat, va: nat)
    requires NewSpaceSoFar(s0, s, root, k) && k < ENVS_WINDOW_PAGES && pp == KERNEL_ENVS_FRAME + k &&
      va == UENVS + k * BY2PG
    requires Insert(s, root, pp, va, ATTRIB_AP_RO_ALL) == Some(s')
    ensures NewSpaceSoFar(s0, s', root, k + 1)
  {
    assert Overcounted(s, pp);
    EnvsWindowStep(s, root, k);
    BesideTransitive(s0, s, s', root);
    ImageAfterMapping(s, s', k);
  }

  /** The frames a new address space takes at most: its directory, and three tables for each page of the window. */
  const NEW_SPACE_FRAMES: nat := 1 + 3 * ENVS_WINDOW_PAGES

  /** What `k` pages of the window took, or that there was not enough for all of them. */
  ghost predicate WindowSpent(s1: PmState, s: PmState, panicked: bool, k: nat) {
    if panicked then |s1.free| < 3 * ENVS_WINDOW_PAGES else Spent(s1, s, 3 * k)
  }

  lemma WindowPageTakes(s1: PmState, s: PmState, s': PmState, root: nat, k: nat, pp: nat, va: nat, panicked: bool)
    requires Inv(s) && IsRoot(s.own, root) && pp < NPAGE && k < ENVS_WINDOW_PAGES && WindowSpent(s1, s, false, k)
    requires var r := Insert(s, root, pp, va, ATTRIB_AP_RO_ALL); if panicked then r.None? else r == Some(s')
    ensures WindowSpent(s1, s', panicked, k + 1)
  {
    InsertTakesMore(s1, s, 3 * k, root, pp, va, ATTRIB_AP_RO_ALL);
  }

  lemma WindowFrameFits(s: PmState, k: nat)
    requires Sized(s) && KernelImage(s) && WindowCountsFit(s, k) && k < ENVS_WINDOW_PAGES
    ensures Mappable(s, KERNEL_ENVS_FRAME + k, ATTRIB_AP_RO_ALL)
  {
    assert Overcounted(s, KERNEL_ENVS_FRAME + k);
  }

  lemma ImageAfterMapping(s: PmState, s': PmState, k: nat)
    requires Sized(s) && Sized(s') && KernelImage(s) && SlackKept(s, s')
    requires WindowCountsFit(s, k) && CountsKept(s, s', KERNEL_ENVS_FRAME + k)
    ensures KernelImage(s') && WindowCountsFit(s', k + 1)
  {
    forall f: nat | f < USED_FRAMES
      ensures Overcounted(s', f) && (f != KERNEL_ENVS_FRAME + k ==> s'.refs[f] == s.refs[f])
    {
      assert Overcounted(s, f);
    }
  }

  /**
   The first turn of the loop over UPAGES, for the first environment after boot: the frame it maps is
   free, so the frame invariant is broken.
   */
  lemma PagesWindowBreaksInv(s0: PmState, s: PmState, root: nat)
    requires s0.free == FreeAtBoot(NPAGE) && NewSpace(s0, s, root) && Spent(s0, s, NEW_SPACE_FRAMES)
    ensures PagesWindowFrame(0) in s.free && PagesWindowFrame(0) < NPAGE
    ensures var r := Insert(s, root, PagesWindowFrame(0), UPAGES, ATTRIB_AP_RO_ALL);
      r.Some? && !Inv(r.value)
  {
    PagesWindowFramesFree(s0, s, NEW_SPACE_FRAMES, 0);
    InsertTakes(s, root, PagesWindowFrame(0), UPAGES, ATTRIB_AP_RO_ALL);
    SpecialFrameBreaksInv(s, root, PagesWindowFrame(0), UPAGES, ATTRIB_AP_RO_ALL);
  }

  // ---- what a fork leaves behind ----

  /**
   Below USTACKTOP the new directory `child` maps exactly what `parent` mapped before, every page
   with the same contents in a frame of its own that was free; from there up it maps the window on
   the environment table; nothing else changed.
   */
  ghost predicate Forked(s0: PmState, s: PmState, parent: nat, child: nat) {
    && Beside(s0, s, child)
    && !IsRoot(s0.own, child) && IsRoot(s.own, child) && IsRoot(s0.own, parent)
    && (forall n :: 0 <= n < USTACKTOP_PAGES ==>
          PageCopied(AddressSpace(s0.mem, parent), s0.mem, s0.free, AddressSpace(s.mem, child), s.mem, n))
    && OwnFrames(AddressSpace(s.mem, child), USTACKTOP_PAGES)
    && (forall n :: USTACKTOP_PAGES <= n < VPNS ==>
          SamePage(EnvsWindow(ENVS_WINDOW_PAGES), AddressSpace(s.mem, child), n))
  }

  /** The directory maps nothing below USTACKTOP. */
  lemma NewSpaceIsHigh(s0: PmState, s: PmState, root: nat, n: nat)
    requires NewSpace(s0, s, root) && n < USTACKTOP_PAGES
    ensures n !in AddressSpace(s.mem, root)
  {
    EnvsWindowIsHigh(ENVS_WINDOW_PAGES, n);
  }

  /** A new space, then the copy loop over it, is a fork. */
  lemma CopyMakesFork(s0: PmState, s1: PmState, s: PmState, parent: nat, child: nat)
    requires IsRoot(s0.own, parent) && NewSpace(s0, s1, child)
    requires CopiedUpTo(s1, s, parent, child, USTACKTOP_PAGES)
    ensures Forked(s0, s, parent, child)
  {
    BesideTransitive(s0, s1, s, child);
    var pm, cm := AddressSpace(s0.mem, parent), AddressSpace(s.mem, child);
    assert AddressSpace(s1.mem, parent) == pm;
    forall n | 0 <= n < USTACKTOP_PAGES
      ensures PageCopied(pm, s0.mem, s0.free, cm, s.mem, n)
    {
      assert PageCopied(pm, s1.mem, s1.free, cm, s.mem, n);
      if n in pm {
        MappedFrameIsData(s0, parent, n);
      }
    }
  }

  /**
   The child's copied frames appear in no other address space and nowhere else in the child: above
   USTACKTOP it names frames of the kernel image only, which were not free.
   */
  lemma ForkIsPrivate(s0: PmState, s: PmState, parent: nat, child: nat, i: nat, r: nat, j: nat)
    requires Forked(s0, s, parent, child) && KernelImage(s0)
    requires i < USTACKTOP_PAGES && i in AddressSpace(s.mem, child)
    requires (IsRoot(s0.own, r) || r == child) && (r != child || j != i) && j in AddressSpace(s.mem, r)
    ensures FrameOf(AddressSpace(s.mem, r)[j]) != FrameOf(AddressSpace(s.mem, child)[i])
  {
    assert PageCopied(AddressSpace(s0.mem, parent), s0.mem, s0.free, AddressSpace(s.mem, child), s.mem, i);
    if r != child {
      assert AddressSpace(s.mem, r) == AddressSpace(s0.mem, r);
      MappedFrameIsData(s0, r, j);
    } else if j >= USTACKTOP_PAGES {
      assert SamePage(EnvsWindow(ENVS_WINDOW_PAGES), AddressSpace(s.mem, child), j);
      EnvsWindowFrames(ENVS_WINDOW_PAGES, j);
      assert Overcounted(s0, FrameOf(AddressSpace(s.mem, child)[j]));
    }
  }

  /** `env_alloc` gave slot `x`, the head of the free list, a new address space. */
  ghost predicate Allocated(p0: PmState, e0: EnvState, p: PmState, e: EnvState, x: nat, parent: nat) {
    && FreeListOk(e0) && e0.free != [] && x == e0.free[0] && x < NENV && x < |e.envs|
    && NewSpace(p0, p, e.envs[x].pgdir)
    && e == EnvAlloc(e0, parent, e.envs[x].pgdir)
  }

  /** `env_alloc` panics only without a free environment or without the frames of an address space. */
  ghost predicate SpaceSpent(p0: PmState, e0: EnvState, p: PmState, panicked: bool) {
    if panicked then e0.free == [] || |p0.free| < NEW_SPACE_FRAMES else Spent(p0, p, NEW_SPACE_FRAMES)
  }

  /** `sys_fork` panics only without a free environment or without the frames of the new space and its copies. */
  ghost predicate TooFewToFork(p0: PmState, e0: EnvState) {
    e0.free == [] ||
    (e0.cur.Some? && e0.cur.value < |e0.envs| &&
     |p0.free| < NEW_SPACE_FRAMES + 4 * MappedBelow(AddressSpace(p0.mem, e0.envs[e0.cur.value].pgdir), USTACKTOP_PAGES))
  }

  /** A copy loop that fails after the new space was made. */
  lemma CopyFails(p0: PmState, p1: PmState, e0: EnvState, parent: nat, child: nat)
    requires NewSpace(p0, p1, child) && IsRoot(p0.own, parent) && parent != child && Spent(p0, p1, NEW_SPACE_FRAMES)
    requires e0.cur.Some? && e0.cur.value < |e0.envs| && parent == e0.envs[e0.cur.value].pgdir
    requires TooFewToCopy(p1, parent)
    ensures TooFewToFork(p0, e0)
  {
    assert AddressSpace(p1.mem, parent) == AddressSpace(p0.mem, parent);
  }

  /** `sys_env_alloc` gave it also the current environment's trapframe. */
  ghost predicate Spawned(p0: PmState, e0: EnvState, p: PmState, e: EnvState, x: nat) {
    match e0.cur
    case None => false
    case Some(_) =>
      && FreeListOk(e0) && e0.free != [] && x == e0.free[0] && x < NENV && x < |e.envs| && |e0.stack.regs| == 31
      && NewSpace(p0, p, e.envs[x].pgdir)
      && e == SysEnvAlloc(e0, e.envs[x].pgdir)
  }

  /** The environment table after `sys_fork` made child `x`. */
  ghost predicate ChildMade(e0: EnvState, e: EnvState, x: nat) {
    && FreeListOk(e0) && e0.free != [] && e0.cur.Some? && |e0.stack.regs| == 31
    && x == e0.free[0] && x < NENV && |e.envs| == NENV
    && ChildEntry(e0, e.envs[x], x)
    && e == e0.(envs := e0.envs[x := e.envs[x]], free := e0.free[1..], made := e0.made + 1)
  }

  /** The child `x` that `sys_fork` made, seen from the state before it. */
  ghost predicate ChildOf(p0: PmState, e0: EnvState, p: PmState, e: EnvState, x: nat) {
    ChildMade(e0, e, x) && Forked(p0, p, e0.envs[e0.cur.value].pgdir, e.envs[x].pgdir)
  }

  ghost predicate ForkReturned(p0: PmState, e0: EnvState, p: PmState, e: EnvState, id: nat) {
    && e0.free != []
    && ChildOf(p0, e0, p, e, e0.free[0])
    && id == MakeId(e0.made + 1, e0.free[0])
  }

  lemma ReturnedId(p0: PmState, e0: EnvState, p: PmState, e: EnvState, x: nat)
    requires ChildOf(p0, e0, p, e, x)
    ensures ForkReturned(p0, e0, p, e, e.envs[x].id)
  {
  }

  ghost predicate ChildEntry(e0: EnvState, child: Env, x: nat)
    requires |e0.envs| == NENV && e0.cur.Some? && e0.cur.value < NENV && |e0.stack.regs| == 31
  {
    && child.id == MakeId(e0.made + 1, x) && child.parent == e0.envs[e0.cur.value].id
    && child.status == ENV_RUNNABLE && !child.ipcRecving
    && child.tf == e0.stack.(regs := e0.stack.regs[0 := 0])
  }

  // ---- the memory system calls ----

  datatype SysResult = Done | Failed | Halted

  function RoundDown(va: nat): (r: nat)
    ensures r <= va < r + BY2PG && r % BY2PG == 0
  {
    va / BY2PG * BY2PG
  }

  /** The count of the frame that `root` names at `va`, if any, is not about to wrap. */
  ghost predicate CountFits(p: PmState, root: nat, va: nat) {
    var f := Lookup(p, root, va);
    f.Some? && f.value < |p.refs| ==> p.refs[f.value] < 0xFFFF
  }

  /** So is the count of the frame that `sys_mem_map` finds. */
  ghost predicate SourceCountFits(p: PmState, e: EnvState, id: nat, va: nat)
    requires FreeListOk(e) && e.cur.Some?
  {
    var x := Envid2Env(e, id, true);
    x.Some? ==> CountFits(p, e.envs[x.value].pgdir, RoundDown(va))
  }

  /** The frame `src` names at `srcva` is now also the frame `dst` names at `dstva`, and nothing else moved. */
  ghost predicate Shared(p0: PmState, p: PmState, src: nat, srcva: nat, dst: nat, dstva: nat, perm: nat) {
    && Beside(p0, p, dst)
    && Lookup(p0, src, srcva).Some?
    && Lookup(p, dst, dstva) == Lookup(p0, src, srcva) == Lookup(p, src, srcva)
    && AddressSpace(p.mem, dst) ==
       AddressSpace(p0.mem, dst)[VPN(dstva) := LeafEntry(Lookup(p0, src, srcva).value, perm)]
  }

  /** The outcomes of sharing a page: done, nothing mapped at the source, or too few frames for tables. */
  ghost predicate ShareResult(p0: PmState, p: PmState, src: nat, srcva: nat, dst: nat, dstva: nat, perm: nat,
                              r: SysResult) {
    && (r == Failed <==> Lookup(p0, src, srcva).None?)
    && (r == Failed ==> p == p0)
    && (r == Halted ==> |p0.free| < 3)
    && (r == Done ==> Shared(p0, p, src, srcva, dst, dstva, perm))
  }

  lemma SharingDone(p0: PmState, p: PmState, src: nat, srcva: nat, dst: nat, dstva: nat, perm: nat)
    requires Inv(p0) && IsRoot(p0.own, src) && IsRoot(p0.own, dst)
    requires Lookup(p0, src, srcva).Some? && Mappable(p0, Lookup(p0, src, srcva).value, perm)
    requires Insert(p0, dst, Lookup(p0, src, srcva).value, dstva, perm) == Some(p)
    ensures Shared(p0, p, src, srcva, dst, dstva, perm)
  {
    SharedByLowFlags(p0, src, srcva, dst, dstva, perm);
    InsertEntersLeaf(p0, dst, Lookup(p0, src, srcva).value, dstva, perm);
    InsertBeside(p0, dst, Lookup(p0, src, srcva).value, dstva, perm);
  }

  method ShareFrame(pm: PhysicalMemory, src: nat, srcva: nat, dst: nat, dstva: nat, perm: nat) returns (r: SysResult)
    requires pm.Valid() && IsRoot(pm.own, src) && IsRoot(pm.own, dst)
    requires perm < BY2PG && CountFits(pm.State(), src, srcva)
    modifies pm.Repr
    ensures pm.Valid() && ShareResult(old(pm.State()), pm.State(), src, srcva, dst, dstva, perm, r)
  {
    ghost var p0 := pm.State();
    var page, _ := pm.PageLookup(src, srcva);
    if page.None? {
      return Failed;
    }
    MappedFrameIsMappable(p0, src, srcva, perm);
    InsertTakes(p0, dst, page.value, dstva, perm);
    var panicked := pm.PageInsert(dst, page.value, dstva, perm);
    if panicked {
      return Halted;
    }
    SharingDone(p0, pm.State(), src, srcva, dst, dstva, perm);
    r := Done;
  }

  ghost predicate MemMapResult(p0: PmState, e: EnvState, p: PmState, r: SysResult,
                               srcId: nat, srcva: nat, dstId: nat, dstva: nat, perm: nat)
    requires FreeListOk(e) && e.cur.Some?
  {
    var src, dst := Envid2Env(e, srcId, true), Envid2Env(e, dstId, true);
    && (r == Failed <==> src.None? || dst.None? || Lookup(p0, e.envs[src.value].pgdir, RoundDown(srcva)).None?)
    && (r == Failed ==> p == p0)
    && (r == Halted ==> |p0.free| < 3)
    && (r == Done ==>
          && src.Some? && dst.Some?
          && Shared(p0, p, e.envs[src.value].pgdir, RoundDown(srcva), e.envs[dst.value].pgdir, RoundDown(dstva), perm))
  }

  /** The page left the address space of the environment, and its frame lost a count; a bad id changes nothing. */
  ghost predicate MemUnmapResult(p0: PmState, e: EnvState, p: PmState, ok: bool, id: nat, va: nat)
    requires FreeListOk(e) && e.cur.Some? && Sized(p0)
  {
    match Envid2Env(e, id, true)
    case None => !ok && p == p0
    case Some(x) =>
      var root := e.envs[x].pgdir;
      && ok && AddressSpace(p.mem, root) == AddressSpace(p0.mem, root) - {VPN(va)}
      && OthersKept(p0, p, root) && GivenBack(p0, p, root, va)
  }

  lemma UnmappedBy(p0: PmState, root: nat, va: nat)
    requires Inv(p0) && IsRoot(p0.own, root)
    ensures var p := Remove(p0, root, va);
      && AddressSpace(p.mem, root) == AddressSpace(p0.mem, root) - {VPN(va)}
      && OthersKept(p0, p, root) && GivenBack(p0, p, root, va)
  {
    RemoveRefinesFlatMap(p0, root, va);
    RemoveGivesBack(p0, root, va);
  }

  function CurrentDirectory(e: EnvState): nat
    requires |e.envs| == NENV && e.cur.Some? && e.cur.value < NENV
  {
    e.envs[e.cur.value].pgdir
  }

  /** What a send does to the page tables: it shares the sender's page when both sides name one. */
  ghost predicate PageSent(p0: PmState, e0: EnvState, p: PmState, id: nat, srcva: nat, perm: nat)
    requires FreeListOk(e0) && e0.cur.Some?
  {
    var x := Envid2Env(e0, id, false);
    if CanSendTo(e0, id) == Sent && srcva != 0 && e0.envs[x.value].ipcDstva != 0 then
      Shared(p0, p, CurrentDirectory(e0), srcva, e0.envs[x.value].pgdir, e0.envs[x.value].ipcDstva, perm)
    else p == p0
  }

  lemma LiveDirectory(p: PmState, e: EnvState, id: nat, checkPerm: bool)
    requires FreeListOk(e) && e.cur.Some? && Directories(p, e)
    ensures IsRoot(p.own, CurrentDirectory(e))
    ensures Envid2Env(e, id, checkPerm).Some? ==> IsRoot(p.own, e.envs[Envid2Env(e, id, checkPerm).value].pgdir)
  {
  }

  lemma CurrentIsLive(p: PmState, e: EnvState)
    requires FreeListOk(e) && e.cur.Some? && Directories(p, e)
    ensures IsRoot(p.own, CurrentDirectory(e))
  {
  }

  lemma MachineKept(p0: PmState, p: PmState, e: EnvState, root: nat)
    requires Beside(p0, p, root) && Directories(p0, e) && KernelImage(p0)
    ensures Directories(p, e) && KernelImage(p)
  {
  }

  lemma RemoveKeepsMachine(p0: PmState, e: EnvState, root: nat, va: nat)
    requires Inv(p0) && IsRoot(p0.own, root) && Directories(p0, e) && KernelImage(p0)
    ensures var p := Remove(p0, root, va); Directories(p, e) && KernelImage(p)
  {
    var p := Remove(p0, root, va);
    forall f: nat | f < USED_FRAMES
      ensures Overcounted(p, f)
    {
      OvercountedUnmap(p0, root, va, f);
    }
  }

  lemma SendKeepsDirectories(p: PmState, e: EnvState, id: nat, value: nat, srcva: nat, perm: nat)
    requires FreeListOk(e) && e.cur.Some? && Directories(p, e)
    ensures Directories(p, IpcCanSend(e, id, value, srcva, perm))
  {
  }

  /** One turn of the copy loop of `sys_fork`. */
  method ForkPage(pm: PhysicalMemory, parent: nat, child: nat, va: nat) returns (panicked: bool)
    requires pm.Valid() && IsRoot(pm.own, parent) && IsRoot(pm.own, child)
    modifies pm.Repr
    ensures pm.Valid()
    ensures CopyPage(old(pm.State()), parent, child, va) == if panicked then None else Some(pm.State())
  {
    ghost var s := pm.State();
    var p, _ := pm.PageLookup(parent, va);
    if p.None? {
      return false;
    }
    var pp := pm.PageAlloc();
    if pp.None? {
      return true;
    }
    CopyReady(s, parent, va);
    pm.CopyFrame(p.value, pp.value);
    panicked := pm.PageInsert(child, pp.value, va, ATTRIB_AP_RW_ALL);
  }

  /** The turn for page `n`, seen from the state `s1` before the loop. */
  method ForkTurn(pm: PhysicalMemory, parent: nat, child: nat, n: nat, ghost s1: PmState) returns (panicked: bool)
    requires pm.Valid() && n < USTACKTOP_PAGES && LowPagesFree(s1, child)
    requires CopyOutcome(s1, Some(pm.State()), parent, child, n)
    modifies pm.Repr
    ensures pm.Valid()
    ensures CopyOutcome(s1, if panicked then None else Some(pm.State()), parent, child, n + 1)
  {
    RootsStay(s1, pm.State(), parent, child, n);
    CopyTurn(s1, pm.State(), parent, child, n);
    panicked := ForkPage(pm, parent, child, n * BY2PG);
  }

  /** The copy loop of `sys_fork`. */
  method CopyUserPages(pm: PhysicalMemory, parent: nat, child: nat) returns (panicked: bool)
    requires pm.Valid() && IsRoot(pm.own, parent) && IsRoot(pm.own, child) && parent != child
    requires LowPagesFree(pm.State(), child)
    modifies pm.Repr
    ensures pm.Valid()
    ensures CopyOutcome(old(pm.State()), if panicked then None else Some(pm.State()), parent, child, USTACKTOP_PAGES)
  {
    ghost var s1 := pm.State();
    CopyStart(s1, parent, child);
    var n := 0;
    panicked := false;
    while n != USTACKTOP_PAGES
      invariant n <= USTACKTOP_PAGES && !panicked
      invariant pm.Valid() && CopyOutcome(s1, Some(pm.State()), parent, child, n)
      decreases USTACKTOP_PAGES - n
    {
      panicked := ForkTurn(pm, parent, child, n, s1);
      if panicked {
        return;
      }
      n := n + 1;
    }
  }

  class Machine {
    const pm: PhysicalMemory
    const env: EnvironmentTable

    ghost predicate Apart()
      reads this, pm, env
    {
      this !in pm.Repr && this !in env.Repr && pm.Repr !! env.Repr
    }

    ghost predicate Valid()
      reads this, pm, pm.Repr, env, env.Repr
    {
      && Apart() && pm.Valid() && env.Valid()
      && Directories(pm.State(), env.State())
      && KernelImage(pm.State())
    }

    /** The boot sequence `page_init`, `env_init`. */
    constructor (blank: Env)
      ensures Valid() && fresh(pm.Repr) && fresh(env.Repr)
      ensures pm.State().free == FreeAtBoot(NPAGE) && AtBoot(env.State())
    {
      pm := new PhysicalMemory();
      env := new EnvironmentTable(blank);
    }

    /** `env_setup_vm` without its loop over UPAGES: a new directory with the window on `envs`. */
    method EnvSetupVm() returns (root: Option<nat>)
      requires Apart() && pm.Valid() && KernelImage(pm.State()) && WindowCountsFit(pm.State(), 0)
      modifies pm.Repr
      ensures pm.Valid()
      ensures root.Some? ==> NewSpace(old(pm.State()), pm.State(), root.value)
      ensures if root.None? then |old(pm.State()).free| < NEW_SPACE_FRAMES
        else Spent(old(pm.State()), pm.State(), NEW_SPACE_FRAMES)
    {
      ghost var s0 := pm.State();
      root := pm.PageAlloc();
      if root.None? {
        return;
      }
      NewSpaceStarts(s0);
      pm.SetRef(root.value, Incremented(pm.refs[root.value]));
      pm.own := pm.own[root.value := Directory(root.value)];
      assert NewDirectory(s0) == Some((pm.State(), root.value));
      ghost var s1 := pm.State();
      var panicked := MapEnvsWindow(root.value, s0);
      if panicked {
        root := None;
      } else {
        SpentMore(s0, s1, pm.State(), 1, 3 * ENVS_WINDOW_PAGES);
      }
    }

    method MapEnvsWindow(root: nat, ghost s0: PmState) returns (panicked: bool)
      requires pm.Valid() && NewSpaceSoFar(s0, pm.State(), root, 0)
      modifies pm.Repr
      ensures pm.Valid()
      ensures !panicked ==> NewSpace(s0, pm.State(), root)
      ensures WindowSpent(old(pm.State()), pm.State(), panicked, ENVS_WINDOW_PAGES)
    {
      ghost var s1 := pm.State();
      for k := 0 to ENVS_WINDOW_PAGES
        invariant pm.Valid() && NewSpaceSoFar(s0, pm.State(), root, k) && WindowSpent(s1, pm.State(), false, k)
      {
        panicked := MapEnvsPage(root, k, s0, s1);
        if panicked {
          return;
        }
      }
      panicked := false;
    }

    method MapEnvsPage(root: nat, k: nat, ghost s0: PmState, ghost s1: PmState) returns (panicked: bool)
      requires pm.Valid() && k < ENVS_WINDOW_PAGES && NewSpaceSoFar(s0, pm.State(), root, k)
      requires WindowSpent(s1, pm.State(), false, k)
      modifies pm.Repr
      ensures pm.Valid()
      ensures !panicked ==> NewSpaceSoFar(s0, pm.State(), root, k + 1)
      ensures WindowSpent(s1, pm.State(), panicked, k + 1)
    {
      ghost var s := pm.State();
      var pp, va := KERNEL_ENVS_FRAME + k, UENVS + k * BY2PG;
      WindowFrameFits(s, k);
      panicked := pm.PageInsert(root, pp, va, ATTRIB_AP_RO_ALL);
      WindowPageTakes(s1, s, pm.State(), root, k, pp, va, panicked);
      if !panicked {
        NewSpaceStep(s0, s, pm.State(), root, k, pp, va);
      }
    }

    /** `env_alloc`; `None` is a panic, of the frame allocator or for want of a free environment. */
    method EnvAllocate(parent: nat) returns (e: Option<nat>)
      requires Valid() && WindowCountsFit(pm.State(), 0)
      modifies pm.Repr, env.Repr
      ensures pm.Valid() && env.Valid()
      ensures e.Some? ==>
        Valid() && Allocated(old(pm.State()), old(env.State()), pm.State(), env.State(), e.value, parent)
      ensures SpaceSpent(old(pm.State()), old(env.State()), pm.State(), e.None?)
    {
      if env.free.first.None? {
        return None;
      }
      ghost var p0, e0 := pm.State(), env.State();
      var root := EnvSetupVm();
      if root.None? {
        return None;
      }
      var x := Register(parent, root.value, p0);
      e := Some(x);
    }

    /** `env_alloc` after `env_setup_vm`. */
    method Register(parent: nat, root: nat, ghost p0: PmState) returns (x: nat)
      requires Apart() && pm.Valid() && env.Valid() && env.State().free != []
      requires Directories(p0, env.State()) && NewSpace(p0, pm.State(), root) && KernelImage(pm.State())
      modifies env.Repr
      ensures Valid() && Allocated(p0, old(env.State()), pm.State(), env.State(), x, parent)
      ensures pm.State() == old(pm.State())
    {
      ghost var e0 := env.State();
      x := env.Alloc(parent, root);
      NewDirectoryFits(p0, pm.State(), e0, env.State(), parent, root);
    }

    /** `sys_env_alloc`. */
    method SysEnvAllocate() returns (e: Option<nat>)
      requires Valid() && WindowCountsFit(pm.State(), 0) && env.cur.Some? && |env.stack.regs| == 31
      modifies pm.Repr, env.Repr
      ensures pm.Valid() && env.Valid()
      ensures e.Some? ==>
        Valid() && Spawned(old(pm.State()), old(env.State()), pm.State(), env.State(), e.value)
      ensures SpaceSpent(old(pm.State()), old(env.State()), pm.State(), e.None?)
    {
      ghost var e0, p0 := env.State(), pm.State();
      e := EnvAllocate(env.envs[env.cur.value].id);
      if e.Some? {
        InheritInto(e.value, p0, e0);
      }
    }

    method InheritInto(x: nat, ghost p0: PmState, ghost e0: EnvState)
      requires Valid() && FreeListOk(e0) && e0.cur.Some? && |e0.stack.regs| == 31
      requires Allocated(p0, e0, pm.State(), env.State(), x, e0.envs[e0.cur.value].id)
      modifies env.envs
      ensures Valid() && Spawned(p0, e0, pm.State(), env.State(), x) && pm.State() == old(pm.State())
    {
      ghost var p1, e1 := pm.State(), env.State();
      env.Inherit(x);
      assert pm.State() == p1;
      SpawnFits(p0, p1, e0, e1, env.State(), x);
    }

    /**
     `sys_fork`: on success the child's identifier; `None` is a panic.  The child resumes where the
     parent is with 0 in `regs[0]`, and owns a private copy of the parent's pages below USTACKTOP.
     */
    method SysFork() returns (id: Option<nat>)
      requires Valid() && WindowCountsFit(pm.State(), 0)
      requires env.cur.Some? && |env.stack.regs| == 31 && env.made + 1 < GENERATIONS
      modifies pm.Repr, env.Repr
      ensures pm.Valid() && env.Valid()
      ensures id.Some? ==>
        Valid() && ForkReturned(old(pm.State()), old(env.State()), pm.State(), env.State(), id.value)
      ensures id.None? ==> TooFewToFork(old(pm.State()), old(env.State()))
    {
      ghost var p0, e0 := pm.State(), env.State();
      var parent := env.envs[env.cur.value].pgdir;
      var x := SysEnvAllocate();
      if x.None? {
        return None;
      }
      var e := ChildSlot(x.value, p0, e0);
      id := ForkInto(parent, e, p0, e0);
    }

    /** `sys_fork` after `sys_env_alloc`. */
    method ForkInto(parent: nat, x: nat, ghost p0: PmState, ghost e0: EnvState) returns (id: Option<nat>)
      requires Valid() && Spawned(p0, e0, pm.State(), env.State(), x) && e0.made + 1 < GENERATIONS
      requires parent == e0.envs[e0.cur.value].pgdir && IsRoot(p0.own, parent) &&
        Spent(p0, pm.State(), NEW_SPACE_FRAMES)
      modifies pm.Repr, env.envs
      ensures pm.Valid() && env.Valid()
      ensures id.Some? ==> Valid() && ForkReturned(p0, e0, pm.State(), env.State(), id.value)
      ensures id.None? ==> TooFewToFork(p0, e0)
    {
      var panicked := CopyToChild(parent, x, p0, e0);
      if panicked {
        return None;
      }
      ReturnedId(p0, e0, pm.State(), env.State(), x);
      id := Some(env.envs[x].id);
    }

    /** `envid2env` on the new identifier leads to the new slot. */
    method ChildSlot(x: nat, ghost p0: PmState, ghost e0: EnvState) returns (e: nat)
      requires Valid() && Spawned(p0, e0, pm.State(), env.State(), x) && e0.made + 1 < GENERATIONS
      ensures Valid() && Spawned(p0, e0, pm.State(), env.State(), e) && pm.State() == old(pm.State())
    {
      SpawnedIdResolves(e0, env.State(), x);
      var r := env.Envid2EnvAt(env.envs[x].id, false);
      e := r.value;
    }

    /** The loop of `sys_fork`, and the child made runnable. */
    method CopyToChild(parent: nat, x: nat, ghost p0: PmState, ghost e0: EnvState) returns (panicked: bool)
      requires Valid() && Spawned(p0, e0, pm.State(), env.State(), x)
      requires parent == e0.envs[e0.cur.value].pgdir && IsRoot(p0.own, parent) &&
        Spent(p0, pm.State(), NEW_SPACE_FRAMES)
      modifies pm.Repr, env.envs
      ensures pm.Valid() && env.Valid()
      ensures !panicked ==> Valid() && ChildOf(p0, e0, pm.State(), env.State(), x)
      ensures panicked ==> TooFewToFork(p0, e0)
    {
      ghost var p1 := pm.State();
      var child := env.envs[x].pgdir;
      SpawnedChildIsLow(p0, e0, p1, env.State(), x, parent);
      panicked := CopyUserPages(pm, parent, child);
      ForkOutcome(p0, p1, pm.State(), e0, env.State(), parent, x, panicked);
      if !panicked {
        WakeChild(x, p0, e0);
      }
    }

    method WakeChild(x: nat, ghost p0: PmState, ghost e0: EnvState)
      requires Apart() && pm.Valid() && env.Valid() && x < NENV
      requires ChildReady(p0, e0, pm.State(), Woken(env.State(), x), x)
      modifies env.envs
      ensures Valid() && ChildOf(p0, e0, pm.State(), env.State(), x)
    {
      env.StoreStatus(x, ENV_RUNNABLE);
    }

    /** `page_lookup` at one address, then `page_insert` of the frame found at another. */
    method SharePage(src: nat, srcva: nat, dst: nat, dstva: nat, perm: nat) returns (r: SysResult)
      requires Valid() && IsRoot(pm.own, src) && IsRoot(pm.own, dst)
      requires perm < BY2PG && CountFits(pm.State(), src, srcva)
      modifies pm.Repr
      ensures Apart() && pm.Valid() && env.Valid() && env.State() == old(env.State())
      ensures r != Halted ==> Valid()
      ensures ShareResult(old(pm.State()), pm.State(), src, srcva, dst, dstva, perm, r)
    {
      ghost var p0 := pm.State();
      r := ShareFrame(pm, src, srcva, dst, dstva, perm);
      if r == Done {
        MachineKept(p0, pm.State(), env.State(), dst);
      }
    }

    /** `sys_mem_map`. */
    method SysMemMap(srcId: nat, srcva: nat, dstId: nat, dstva: nat, perm: nat) returns (r: SysResult)
      requires Valid() && env.cur.Some? && perm < BY2PG && SourceCountFits(pm.State(), env.State(), srcId, srcva)
      modifies pm.Repr
      ensures Apart() && pm.Valid() && env.Valid()
      ensures r != Halted ==> Valid()
      ensures MemMapResult(old(pm.State()), env.State(), pm.State(), r, srcId, srcva, dstId, dstva, perm)
    {
      var src := env.Envid2EnvAt(srcId, true);
      if src.None? {
        return Failed;
      }
      var dst := env.Envid2EnvAt(dstId, true);
      if dst.None? {
        return Failed;
      }
      LiveDirectory(pm.State(), env.State(), srcId, true);
      LiveDirectory(pm.State(), env.State(), dstId, true);
      r := SharePage(env.envs[src.value].pgdir, RoundDown(srcva), env.envs[dst.value].pgdir, RoundDown(dstva), perm);
    }

    /** `sys_mem_unmap`; false is -E_BAD_ENV. */
    method SysMemUnmap(id: nat, va: nat) returns (ok: bool)
      requires Valid() && env.cur.Some?
      modifies pm.Repr
      ensures Valid() && env.State() == old(env.State())
      ensures MemUnmapResult(old(pm.State()), env.State(), pm.State(), ok, id, va)
    {
      var e := env.Envid2EnvAt(id, true);
      if e.None? {
        return false;
      }
      ghost var p0, root := pm.State(), env.envs[e.value].pgdir;
      LiveDirectory(p0, env.State(), id, true);
      pm.PageRemove(env.envs[e.value].pgdir, va);
      RemoveKeepsMachine(p0, env.State(), root, va);
      UnmappedBy(p0, root, va);
      ok := true;
    }

    /**
     `sys_ipc_can_send`: a page, when both sides name one, is shared before the message is left.
     The sender's page must be mapped.
     */
    method SysIpcSend(id: nat, value: nat, srcva: nat, perm: nat) returns (r: SendResult, halted: bool)
      requires Valid() && env.cur.Some? && perm < BY2PG
      requires srcva != 0 ==> CountFits(pm.State(), CurrentDirectory(env.State()), srcva)
      requires srcva != 0 ==> Lookup(pm.State(), CurrentDirectory(env.State()), srcva).Some?
      modifies pm.Repr, env.envs
      ensures pm.Valid() && env.Valid()
      ensures !halted ==> Valid() && env.State() == IpcCanSend(old(env.State()), id, value, srcva, perm)
      ensures !halted ==> r == CanSendTo(old(env.State()), id)
      ensures !halted ==> PageSent(old(pm.State()), old(env.State()), pm.State(), id, srcva, perm)
      ensures halted ==> |old(pm.State()).free| < 3
    {
      halted := TransferPage(id, srcva, perm);
      if halted {
        return NotReceiving, true;
      }
      r := LeaveMessage(id, value, srcva, perm);
    }

    method TransferPage(id: nat, srcva: nat, perm: nat) returns (halted: bool)
      requires Valid() && env.cur.Some? && perm < BY2PG
      requires srcva != 0 ==> CountFits(pm.State(), CurrentDirectory(env.State()), srcva)
      requires srcva != 0 ==> Lookup(pm.State(), CurrentDirectory(env.State()), srcva).Some?
      modifies pm.Repr
      ensures Apart() && pm.Valid() && env.Valid() && env.State() == old(env.State())
      ensures !halted ==> Valid() && PageSent(old(pm.State()), env.State(), pm.State(), id, srcva, perm)
      ensures halted ==> |old(pm.State()).free| < 3
    {
      halted := false;
      var e := env.Envid2EnvAt(id, false);
      if e.Some? && env.envs[e.value].ipcRecving && srcva != 0 && env.envs[e.value].ipcDstva != 0 {
        halted := ShareWith(e.value, srcva, perm);
      }
    }

    /** The current environment's page is shared with receiver `x`. */
    method ShareWith(x: nat, srcva: nat, perm: nat) returns (halted: bool)
      requires Valid() && env.cur.Some? && perm < BY2PG && CountFits(pm.State(), CurrentDirectory(env.State()), srcva)
      requires x < NENV && x !in env.State().free
      requires Lookup(pm.State(), CurrentDirectory(env.State()), srcva).Some?
      modifies pm.Repr
      ensures Apart() && pm.Valid() && env.Valid() && env.State() == old(env.State())
      ensures !halted ==> Valid() && Shared(old(pm.State()), pm.State(), CurrentDirectory(env.State()), srcva,
                                            env.envs[x].pgdir, env.envs[x].ipcDstva, perm)
      ensures halted ==> |old(pm.State()).free| < 3
    {
      CurrentIsLive(pm.State(), env.State());
      var shared := SharePage(env.envs[env.cur.value].pgdir, srcva, env.envs[x].pgdir, env.envs[x].ipcDstva, perm);
      halted := shared == Halted;
    }

    method LeaveMessage(id: nat, value: nat, srcva: nat, perm: nat) returns (r: SendResult)
      requires Valid() && env.cur.Some?
      modifies env.envs
      ensures Valid() && env.State() == IpcCanSend(old(env.State()), id, value, srcva, perm)
      ensures r == CanSendTo(old(env.State()), id) && pm.State() == old(pm.State())
    {
      SendKeepsDirectories(pm.State(), env.State(), id, value, srcva, perm);
      r := env.SysIpcCanSend(id, value, srcva, perm);
    }
  }

  lemma NewDirectoryFits(p0: PmState, p: PmState, e0: EnvState, e: EnvState, parent: nat, root: nat)
    requires FreeListOk(e0) && e0.free != [] && e0.free[0] in e0.free
    requires Directories(p0, e0) && NewSpace(p0, p, root) && e == EnvAlloc(e0, parent, root)
    ensures Directories(p, e)
  {
    assert forall x :: x in e.free <==> x in e0.free && x != e0.free[0];
    OneDirectoryMore(p0, p, e0, e, e0.free[0], root);
  }

  lemma OneDirectoryMore(p0: PmState, p: PmState, e0: EnvState, e: EnvState, n: nat, root: nat)
    requires Directories(p0, e0) && OwnGrows(p0, p) && IsRoot(p.own, root) && !IsRoot(p0.own, root)
    requires |e.envs| == NENV && n < NENV && e.envs[n].pgdir == root
    requires forall x: nat :: x < NENV && x != n ==> e.envs[x].pgdir == e0.envs[x].pgdir
    requires forall x: nat :: x < NENV && x != n ==> (x in e.free <==> x in e0.free)
    ensures Directories(p, e)
  {
  }

  lemma SpawnFits(p0: PmState, p: PmState, e0: EnvState, e1: EnvState, e2: EnvState, x: nat)
    requires e0.cur.Some? && |e0.stack.regs| == 31 && FreeListOk(e0)
    requires Allocated(p0, e0, p, e1, x, e0.envs[e0.cur.value].id) && Directories(p, e1)
    requires e2 == e1.(envs := e1.envs[x := Inheriting(e1.envs[x], e0.stack)])
    ensures Spawned(p0, e0, p, e2, x) && FreeListOk(e2) && Directories(p, e2)
  {
    assert x in e0.free;
    StepKeepsFreeList(e0, Spawn(e1.envs[x].pgdir));
    SameDirectories(p, e1, e2);
  }

  /** Only the free list and the `env_pgdir` fields matter to who owns which directory. */
  lemma SameDirectories(p: PmState, e: EnvState, e': EnvState)
    requires Directories(p, e) && |e'.envs| == NENV && e'.free == e.free
    requires forall x: nat :: x < NENV ==> e'.envs[x].pgdir == e.envs[x].pgdir
    ensures Directories(p, e')
  {
  }

  lemma SpawnedIdResolves(e0: EnvState, e: EnvState, x: nat)
    requires FreeListOk(e0) && e0.free != [] && x == e0.free[0] && x < NENV && x < |e.envs|
    requires e0.cur.Some? && |e0.stack.regs| == 31 && e == SysEnvAlloc(e0, e.envs[x].pgdir) && e0.made + 1 < GENERATIONS
    ensures Envid2Env(e, e.envs[x].id, false) == Some(x)
  {
    NewIdFits(e0.made, x);
  }

  function Woken(e: EnvState, x: nat): EnvState
    requires x < |e.envs|
  {
    e.(envs := e.envs[x := e.envs[x].(status := ENV_RUNNABLE)])
  }

  ghost predicate ChildReady(p0: PmState, e0: EnvState, p: PmState, e: EnvState, x: nat) {
    ChildOf(p0, e0, p, e, x) && FreeListOk(e) && Directories(p, e) && KernelImage(p)
  }

  lemma SpawnedChild(p0: PmState, e0: EnvState, p1: PmState, e1: EnvState, x: nat)
    requires Spawned(p0, e0, p1, e1, x)
    ensures ChildMade(e0, Woken(e1, x), x)
  {
  }

  lemma WokenFits(p1: PmState, e1: EnvState, p: PmState, x: nat)
    requires FreeListOk(e1) && Directories(p1, e1) && KernelImage(p1) && x < NENV && x !in e1.free
    requires Beside(p1, p, e1.envs[x].pgdir)
    ensures FreeListOk(Woken(e1, x)) && Directories(p, Woken(e1, x)) && KernelImage(p)
  {
    SameDirectories(p1, e1, Woken(e1, x));
  }

  lemma ForkFits(p0: PmState, e0: EnvState, p1: PmState, e1: EnvState, p: PmState, x: nat)
    requires Spawned(p0, e0, p1, e1, x) && FreeListOk(e1) && Directories(p1, e1) && KernelImage(p1)
    requires IsRoot(p0.own, e0.envs[e0.cur.value].pgdir)
    requires CopiedUpTo(p1, p, e0.envs[e0.cur.value].pgdir, e1.envs[x].pgdir, USTACKTOP_PAGES)
    ensures ChildReady(p0, e0, p, Woken(e1, x), x)
  {
    CopyMakesFork(p0, p1, p, e0.envs[e0.cur.value].pgdir, e1.envs[x].pgdir);
    SpawnedChild(p0, e0, p1, e1, x);
    SpawnedNotFree(e0, e1, x);
    WokenFits(p1, e1, p, x);
  }

  /** What the copy loop of `sys_fork` means for the fork as a whole. */
  lemma ForkOutcome(p0: PmState, p1: PmState, p: PmState, e0: EnvState, e1: EnvState, parent: nat, x: nat,
                    panicked: bool)
    requires Spawned(p0, e0, p1, e1, x) && FreeListOk(e1) && Directories(p1, e1) && KernelImage(p1)
    requires parent == e0.envs[e0.cur.value].pgdir && IsRoot(p0.own, parent) && Spent(p0, p1, NEW_SPACE_FRAMES)
    requires CopyOutcome(p1, if panicked then None else Some(p), parent, e1.envs[x].pgdir, USTACKTOP_PAGES)
    ensures if panicked then TooFewToFork(p0, e0) else ChildReady(p0, e0, p, Woken(e1, x), x)
  {
    SpawnedChildIsLow(p0, e0, p1, e1, x, parent);
    if panicked {
      CopyFails(p0, p1, e0, parent, e1.envs[x].pgdir);
    } else {
      ForkFits(p0, e0, p1, e1, p, x);
    }
  }

  lemma SpawnedNotFree(e0: EnvState, e1: EnvState, x: nat)
    requires FreeListOk(e0) && e0.free != [] && x == e0.free[0] && e1.free == e0.free[1..]
    ensures x !in e1.free
  {
  }

  lemma SpawnedChildIsLow(p0: PmState, e0: EnvState, p: PmState, e: EnvState, x: nat, parent: nat)
    requires Spawned(p0, e0, p, e, x) && IsRoot(p0.own, parent)
    ensures e.envs[x].pgdir != parent && IsRoot(p.own, parent)
    ensures LowPagesFree(p, e.envs[x].pgdir)
  {
    forall n: nat | n < USTACKTOP_PAGES
      ensures n !in AddressSpace(p.mem, e.envs[x].pgdir)
    {
      NewSpaceIsHigh(p0, p, e.envs[x].pgdir, n);
    }
  }
}
