/** `sys_mem_alloc`: a fresh page of zeros in one address space. */
module MemAlloc {
  import opened Options
  import opened Mmu
  import opened PageTable
  import opened FrameState
  import opened PageMap
  import opened Spaces
  import opened Pmap
  import opened EnvTable
  import opened EnvRuns
  import opened Kernel

  const UTOP: nat := 0xFFFF_FFFF

  /** `perm | PTE_V | ATTRIB_AP_RW_ALL`. */
  function AllocFlags(perm: nat): nat {
    BitOr(BitOr(perm, PTE_V), ATTRIB_AP_RW_ALL)
  }

  /** The entry of an allocated page: the frame, and `perm` with 0x743. */
  lemma AllocatedEntry(f: nat, perm: nat)
    requires f < NPAGE && perm < BY2PG
    ensures LeafEntry(f, AllocFlags(perm)) == f * BY2PG + BitOr(perm, 0x743)
  {
    LowFlagOver(perm, PTE_V);
    LowFlagOver(BitOr(perm, PTE_V), ATTRIB_AP_RW_ALL);
    LowEntryFields(f, AllocFlags(perm));
    AllocFlagsAdd(perm);
  }

  lemma AllocFlagsAdd(perm: nat)
    ensures BitOr(AllocFlags(perm), 0x703) == BitOr(perm, 0x743)
  {
    AccessFlags();
    BitOrAssoc(BitOr(perm, PTE_V), ATTRIB_AP_RW_ALL, 0x703);
    BitOrAssoc(perm, PTE_V, 0x743);
    assert BitOr(PTE_V, 0x743) == 0x743;
  }

  /** From `s` to `s'`, page `va` of `root` came to name a frame of zeros that was free; all else is as it was. */
  ghost predicate PageGiven(s: PmState, s': PmState, root: nat, va: nat, perm: nat) {
    && s.free != [] && Beside(s, s', root) && IsRoot(s'.own, root)
    && var f := s.free[0];
       && f < NPAGE && IsData(s', f) && s'.mem[f] == ZeroFrame()
       && FrameOf(LeafEntry(f, perm)) == f
       && AddressSpace(s'.mem, root) == AddressSpace(s.mem, root)[VPN(va) := LeafEntry(f, perm)]
  }

  /** The frame `page_alloc` hands out can be mapped, and clearing it again changes nothing. */
  lemma TakenPageFits(s: PmState, root: nat, perm: nat)
    requires Inv(s) && IsRoot(s.own, root) && s.free != [] && perm < BY2PG
    ensures Alloc(s).Some?
    ensures var (a, f) := Alloc(s).value;
      && f == s.free[0] && IsData(a, f) && Inv(a) && IsRoot(a.own, root) && Mappable(a, f, perm)
      && a.(mem := a.mem[f := ZeroFrame()]) == a && Beside(s, a, root)
  {
    AllocInv(s);
    var (a, f) := Alloc(s).value;
    assert a.mem[f := ZeroFrame()] == a.mem;
    ExtendsBeside(s, a, root);
  }

  /** What mapping it does, and when that fails. */
  lemma TakenPageMapped(s: PmState, a: PmState, f: nat, s': PmState, root: nat, va: nat, perm: nat, panicked: bool)
    requires Inv(s) && IsRoot(s.own, root) && s.free != [] && perm < BY2PG && Alloc(s) == Some((a, f)) && f < NPAGE
    requires Inv(a) && IsRoot(a.own, root)
    requires var r := Insert(a, root, f, va, perm); if panicked then r.None? else r == Some(s')
    ensures if panicked then |s.free| < 4 else PageGiven(s, s', root, va, perm)
  {
    TakenPageFits(s, root, perm);
    InsertTakes(a, root, f, va, perm);
    if !panicked {
      AllocInv(s);
      ExtendsBeside(s, a, root);
      InsertEntersLeaf(a, root, f, va, perm);
      InsertBeside(a, root, f, va, perm);
      BesideTransitive(s, a, s', root);
    }
  }

  /** Nobody else sees the page: no address space names its frame at any other page. */
  lemma GivenPageIsPrivate(s: PmState, s': PmState, root: nat, va: nat, perm: nat, r: nat, j: nat)
    requires PageGiven(s, s', root, va, perm) && IsRoot(s.own, root) && IsRoot(s.own, r) && j in AddressSpace(s'.mem, r)
    requires FrameOf(AddressSpace(s'.mem, r)[j]) == s.free[0]
    ensures r == root && j == VPN(va)
  {
    assert s.free[0] in s.free;
    if r != root || j != VPN(va) {
      assert j in AddressSpace(s.mem, r) && AddressSpace(s.mem, r)[j] == AddressSpace(s'.mem, r)[j];
      MappedFrameIsData(s, r, j);
    }
  }

  ghost predicate MemAllocResult(p0: PmState, e: EnvState, p: PmState, r: SysResult, id: nat, va: nat, perm: nat)
    requires FreeListOk(e) && e.cur.Some?
  {
    var x := Envid2Env(e, id, false);
    && (r == Failed <==> va > UTOP || x.None?)
    && (r == Failed ==> p == p0)
    && (r == Halted ==> |p0.free| < 4)
    && (r == Done ==> x.Some? && PageGiven(p0, p, e.envs[x.value].pgdir, va, AllocFlags(perm)))
  }

  /** `sys_mem_alloc`. */
  method SysMemAlloc(m: Machine, id: nat, va: nat, perm: nat) returns (r: SysResult)
    requires m.Valid() && m.env.cur.Some? && perm < BY2PG
    modifies m.pm.Repr
    ensures m.Apart() && m.pm.Valid() && m.env.Valid()
    ensures r != Halted ==> m.Valid()
    ensures MemAllocResult(old(m.pm.State()), m.env.State(), m.pm.State(), r, id, va, perm)
  {
    if va > UTOP {
      return Failed;
    }
    var e := m.env.Envid2EnvAt(id, false);
    if e.None? {
      return Failed;
    }
    LiveDirectory(m.pm.State(), m.env.State(), id, false);
    LowFlagOver(perm, PTE_V);
    LowFlagOver(BitOr(perm, PTE_V), ATTRIB_AP_RW_ALL);
    var ok := GivePage(m, m.env.envs[e.value].pgdir, va, AllocFlags(perm));
    r := if ok then Done else Halted;
  }

  method GivePage(m: Machine, root: nat, va: nat, perm: nat) returns (ok: bool)
    requires m.Valid() && IsRoot(m.pm.own, root) && perm < BY2PG
    modifies m.pm.Repr
    ensures m.Apart() && m.pm.Valid() && m.env.Valid()
    ensures ok ==> m.Valid() && PageGiven(old(m.pm.State()), m.pm.State(), root, va, perm)
    ensures !ok ==> |old(m.pm.State()).free| < 4
  {
    ghost var s := m.pm.State();
    ok := GiveFrame(m.pm, root, va, perm);
    if ok {
      MachineKept(s, m.pm.State(), m.env.State(), root);
    }
  }

  /** `page_alloc`, `bzero` and `page_insert`; false is a panic. */
  method GiveFrame(pm: PhysicalMemory, root: nat, va: nat, perm: nat) returns (ok: bool)
    requires pm.Valid() && IsRoot(pm.own, root) && perm < BY2PG
    modifies pm.Repr
    ensures pm.Valid()
    ensures if ok then PageGiven(old(pm.State()), pm.State(), root, va, perm) else |old(pm.State()).free| < 4
  {
    ghost var s := pm.State();
    var f := pm.PageAlloc();
    if f.None? {
      return false;
    }
    ghost var a := pm.State();
    TakenPageFits(s, root, perm);
    pm.ZeroPage(f.value);
    var panicked := pm.PageInsert(root, f.value, va, perm);
    TakenPageMapped(s, a, f.value, pm.State(), root, va, perm, panicked);
    ok := !panicked;
  }
}
