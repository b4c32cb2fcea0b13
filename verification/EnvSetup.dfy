/** The address space `env_setup_vm` gives a new environment, and the loop of it that must not run. */
module EnvSetup {
  import opened Options
  import opened Mmu
  import opened PageTable
  import opened FrameState
  import opened PageMap
  import opened Spaces
  import opened Pmap

  const UENVS: nat := 0x9000_0000
  const UPAGES: nat := 0xA000_0000
  const KERNEL_ENVS_FRAME: nat := 0x1700
  const KERNEL_PAGES_FRAME: nat := 0x1400
  const ENVS_WINDOW_PAGES: nat := 96    // ROUND(NENV * sizeof(struct Env), BY2PG) / BY2PG
  const PAGES_WINDOW_PAGES: nat := 768  // ROUND(NPAGE * sizeof(struct Page), BY2PG) / BY2PG

  /** The first `k` pages of the read-only window on the environment table: 0x7C3 is the flags of such a page. */
  ghost function EnvsWindow(k: nat): map<nat, nat>
  {
    if k == 0 then map[]
    else EnvsWindow(k - 1)[0x9_0000 + (k - 1) := (KERNEL_ENVS_FRAME + (k - 1)) * BY2PG + 0x7C3]
  }

  lemma WindowVpn(k: nat)
    requires k < ENVS_WINDOW_PAGES
    ensures VPN(UENVS + k * BY2PG) == 0x9_0000 + k
  {
  }

  /** The window holds nothing below UENVS. */
  lemma {:induction false} EnvsWindowIsHigh(k: nat, n: nat)
    requires k <= ENVS_WINDOW_PAGES && n < 0x9_0000
    ensures n !in EnvsWindow(k)
  {
    if k > 0 {
      EnvsWindowIsHigh(k - 1, n);
      WindowVpn(k - 1);
    }
  }

  /** The window names only the frames of the environment table. */
  lemma {:induction false} EnvsWindowFrames(k: nat, n: nat)
    requires k <= ENVS_WINDOW_PAGES && n in EnvsWindow(k)
    ensures KERNEL_ENVS_FRAME <= FrameOf(EnvsWindow(k)[n]) < KERNEL_ENVS_FRAME + ENVS_WINDOW_PAGES
  {
    LeafEntryNamesFrame(KERNEL_ENVS_FRAME + (k - 1), ATTRIB_AP_RO_ALL);
    UserEntries(KERNEL_ENVS_FRAME + (k - 1));
    if n in EnvsWindow(k - 1) {
      EnvsWindowFrames(k - 1, n);
    }
  }

  /** One turn of the loop that maps the environment table. */
  lemma EnvsWindowStep(s: PmState, root: nat, k: nat)
    requires Inv(s) && IsRoot(s.own, root) && k < ENVS_WINDOW_PAGES
    requires IsData(s, KERNEL_ENVS_FRAME + k) && s.refs[KERNEL_ENVS_FRAME + k] < 0xFFFF
    requires AddressSpace(s.mem, root) == EnvsWindow(k)
    requires Insert(s, root, KERNEL_ENVS_FRAME + k, UENVS + k * BY2PG, ATTRIB_AP_RO_ALL).Some?
    ensures var s' := Insert(s, root, KERNEL_ENVS_FRAME + k, UENVS + k * BY2PG, ATTRIB_AP_RO_ALL).value;
      && Beside(s, s', root) && IsRoot(s'.own, root)
      && AddressSpace(s'.mem, root) == EnvsWindow(k + 1)
      && CountsKept(s, s', KERNEL_ENVS_FRAME + k)
  {
    var pp, va := KERNEL_ENVS_FRAME + k, UENVS + k * BY2PG;
    InsertEntersLeaf(s, root, pp, va, ATTRIB_AP_RO_ALL);
    InsertBeside(s, root, pp, va, ATTRIB_AP_RO_ALL);
    InsertCounts(s, root, pp, va, ATTRIB_AP_RO_ALL);
    EnvsWindowGrows(k);
  }

  lemma EnvsWindowGrows(k: nat)
    requires k < ENVS_WINDOW_PAGES
    ensures EnvsWindow(k + 1) ==
      EnvsWindow(k)[VPN(UENVS + k * BY2PG) := LeafEntry(KERNEL_ENVS_FRAME + k, ATTRIB_AP_RO_ALL)]
  {
    WindowVpn(k);
    UserEntries(KERNEL_ENVS_FRAME + k);
  }

  /** Every data frame but `pp` keeps its count. */
  ghost predicate CountsKept(s: PmState, s': PmState, pp: nat)
    requires Sized(s) && Sized(s')
  {
    forall f: nat :: IsData(s, f) && f != pp ==> s'.refs[f] == s.refs[f]
  }

  lemma LeafStoreCounts(s: PmState, a: PmState, t: nat, i: nat, w: nat, pp: nat)
    requires Inv(s) && Extends(s, a) && Mappable(s, pp, 0) && t < NPAGE && i < ENTRIES
    ensures var s' := SetLeaf(a, t, i, w, pp, Incremented(a.refs[pp]));
      Sized(s') && CountsKept(s, s', pp) && s'.refs[pp] == s.refs[pp] + 1
  {
    MappableAfterWalk(s, a, pp);
  }

  lemma InsertCounts(s: PmState, root: nat, pp: nat, va: nat, perm: nat)
    requires Inv(s) && IsRoot(s.own, root) && Mappable(s, pp, perm)
    requires Insert(s, root, pp, va, perm).Some?
    ensures Sized(Insert(s, root, pp, va, perm).value)
    ensures CountsKept(s, Insert(s, root, pp, va, perm).value, pp)
    ensures Insert(s, root, pp, va, perm).value.refs[pp] == s.refs[pp] + 1
  {
    WalkInv(s, root, PathOf(va));
    var (a, t) := Walk(s, root, PathOf(va)).value;
    LeafStoreCounts(s, a, t, PTX(va), LeafEntry(pp, perm), pp);
  }

  // ---- the second loop ----

  /** The frame the loop over UPAGES maps for its `k`-th page: its base is taken from UENVS. */
  function PagesWindowFrame(k: nat): nat {
    (KERNEL_PAGES_FRAME * BY2PG + (UPAGES + k * BY2PG) - UENVS) / BY2PG
  }

  /** What is left of the boot list after frames were taken from its front is the boot list of a smaller memory. */
  lemma {:induction false} FreeAtBootRest(n: nat, f: seq<nat>)
    requires USED_FRAMES <= n && FromFront(FreeAtBoot(n), f)
    ensures f == FreeAtBoot(USED_FRAMES + |f|) && USED_FRAMES + |f| <= n
    decreases n
  {
    BootListCountsDown(n);
    if f != FreeAtBoot(n) {
      assert FreeAtBoot(n)[1..] == FreeAtBoot(n - 1);
      FreeAtBootRest(n - 1, f);
    }
  }

  /** None of the frames it maps is the page array: every one is still free when the loop starts. */
  lemma PagesWindowFramesFree(s0: PmState, s: PmState, taken: nat, k: nat)
    requires s0.free == FreeAtBoot(NPAGE) && Spent(s0, s, taken) && taken <= 0xE000 && k < PAGES_WINDOW_PAGES
    ensures |s.free| >= 3 && PagesWindowFrame(k) in s.free
    ensures PagesWindowFrame(k) != KERNEL_PAGES_FRAME + k
  {
    BootListCountsDown(NPAGE);
    FreeAtBootRest(NPAGE, s.free);
    PagesWindowFrameIs(k);
  }

  lemma PagesWindowFrameIs(k: nat)
    ensures PagesWindowFrame(k) == 0x1_1400 + k
  {
  }

  lemma SpecialLeafBreaksInv(a: PmState, t: nat, i: nat, w: nat, pp: nat, c: nat)
    requires Sized(a) && t < NPAGE && IsLeafSlot(a.own, t, i) && i < ENTRIES && pp < NPAGE &&
      (pp in a.own || pp in a.free)
    requires Present(w) && FrameOf(w) == pp
    ensures !Inv(SetLeaf(a, t, i, w, pp, c))
  {
    var s := SetLeaf(a, t, i, w, pp, c);
    assert IsLeafSlot(s.own, t, i) && Next(s.mem, t, i) == Some(pp);
  }

  /** Inserting a frame that is free or a table breaks the frame invariant. */
  lemma SpecialFrameBreaksInv(s: PmState, root: nat, pp: nat, va: nat, perm: nat)
    requires Inv(s) && IsRoot(s.own, root) && pp < NPAGE && perm < BY2PG && (pp in s.own || pp in s.free)
    requires Insert(s, root, pp, va, perm).Some?
    ensures !Inv(Insert(s, root, pp, va, perm).value)
  {
    WalkInv(s, root, PathOf(va));
    LeafEntryNamesFrame(pp, perm);
    var (a, t) := Walk(s, root, PathOf(va)).value;
    NamedFrameStaysSpecial(s, a, pp, root, PathOf(va), t);
    SpecialLeafBreaksInv(a, t, PTX(va), LeafEntry(pp, perm), pp, Incremented(a.refs[pp]));
  }

  /** A count of 0xFFFF wraps to 0, although an entry then names the frame. */
  lemma WrappedCountBreaksInv(s: PmState, root: nat, pp: nat, va: nat, perm: nat)
    requires Inv(s) && IsRoot(s.own, root) && pp < NPAGE && perm < BY2PG && pp !in s.own && pp !in s.free
    requires s.refs[pp] == 0xFFFF && Insert(s, root, pp, va, perm).Some?
    ensures !Inv(Insert(s, root, pp, va, perm).value)
  {
    WalkInv(s, root, PathOf(va));
    LeafEntryNamesFrame(pp, perm);
    var (a, t) := Walk(s, root, PathOf(va)).value;
    WalkFindsSlot(s, a, root, PathOf(va), t);
    FreshStaysOut(s, a);
    WrappedLeafBreaksInv(a, t, PTX(va), LeafEntry(pp, perm), pp);
  }

  lemma WrappedLeafBreaksInv(a: PmState, t: nat, i: nat, w: nat, pp: nat)
    requires Inv(a) && t < NPAGE && IsLeafSlot(a.own, t, i) && pp < NPAGE && pp !in a.free && a.refs[pp] == 0xFFFF
    requires Present(w) && FrameOf(w) == pp
    ensures !Inv(SetLeaf(a, t, i, w, pp, Incremented(a.refs[pp])))
  {
    var s := SetLeaf(a, t, i, w, pp, 0);
    assert (t, i) in References(s.mem, s.own, pp);
    assert |References(s.mem, s.own, pp)| >= 1;
  }

  /**
   `page_insert` keeps the frame invariant exactly when the frame is neither free nor a table and its count
   does not wrap.
   */
  lemma InsertKeepsInvIff(s: PmState, root: nat, pp: nat, va: nat, perm: nat)
    requires Inv(s) && IsRoot(s.own, root) && pp < NPAGE && perm < BY2PG
    requires Insert(s, root, pp, va, perm).Some?
    ensures Inv(Insert(s, root, pp, va, perm).value) <==> pp !in s.own && pp !in s.free && s.refs[pp] < 0xFFFF
  {
    if pp in s.own || pp in s.free {
      SpecialFrameBreaksInv(s, root, pp, va, perm);
    } else if s.refs[pp] < 0xFFFF {
      InsertEntersLeaf(s, root, pp, va, perm);
    } else {
      WrappedCountBreaksInv(s, root, pp, va, perm);
    }
  }

  lemma NamedFrameStaysSpecial(s: PmState, a: PmState, pp: nat, root: nat, p: Path, t: nat)
    requires Inv(s) && InRange(p) && WalkReached(s, a, root, p, t) && pp < NPAGE && (pp in s.own || pp in s.free)
    ensures pp in a.own || pp in a.free
  {
  }
}
