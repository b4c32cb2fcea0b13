/** `load_icode`: the stack page of a new environment, then its program. */
module Icode {
  import opened Mmu
  import opened PageTable
  import opened FrameState
  import opened PageMap
  import opened Spaces
  import opened Pmap
  import opened Bytes
  import opened EnvTable
  import opened Elf
  import opened MemAlloc

  const STACK_VA: nat := USTACKTOP - BY2PG
  const STACK_PAGE: nat := 0xFFF

  lemma StackPageGiven(s: PmState, s': PmState, root: nat)
    requires PageGiven(s, s', root, STACK_VA, ATTRIB_AP_RW_ALL)
    ensures PageHolds(s', root, STACK_PAGE, ZeroFrame())
  {
    assert VPN(STACK_VA) == STACK_PAGE;
  }

  /** `page_alloc` and `page_insert` of the stack page. */
  method MapStackPage(pm: PhysicalMemory, root: nat) returns (panicked: bool)
    requires pm.Valid() && IsRoot(pm.own, root)
    modifies pm.Repr
    ensures pm.Valid()
    ensures panicked ==> |old(pm.State()).free| < 4
    ensures !panicked ==> PageGiven(old(pm.State()), pm.State(), root, STACK_VA, ATTRIB_AP_RW_ALL)
    ensures !panicked ==> |old(pm.State()).free| <= |pm.State().free| + 4
  {
    ghost var s := pm.State();
    var f := pm.PageAlloc();
    if f.None? {
      return true;
    }
    ghost var a := pm.State();
    TakenPageFits(s, root, ATTRIB_AP_RW_ALL);
    InsertTakes(a, root, f.value, STACK_VA, ATTRIB_AP_RW_ALL);
    panicked := pm.PageInsert(root, f.value, STACK_VA, ATTRIB_AP_RW_ALL);
    TakenPageMapped(s, a, f.value, pm.State(), root, STACK_VA, ATTRIB_AP_RW_ALL, panicked);
  }

  /** What a program needs of frames at most: four for its stack page and for each page of its image. */
  function FramesFor(file: seq<byte>): nat
    requires IsElf(file) ==> Complete(file)
  {
    4 + if IsElf(file) then 4 * ImagePages(file, HeaderCount(file)) else 0
  }

  /** After `load_icode` the segments are loaded, and the stack page holds zeros unless a segment covers it. */
  ghost predicate ProgramReady(s: PmState, root: nat, file: seq<byte>)
    requires Complete(file) && WellLaidOut(file)
  {
    && Image(s, root, file, HeaderCount(file))
    && (OutsideImage(file, STACK_PAGE, HeaderCount(file)) ==> PageHolds(s, root, STACK_PAGE, ZeroFrame()))
  }

  lemma StackSurvives(s0: PmState, s1: PmState, s: PmState, root: nat, file: seq<byte>)
    requires PageGiven(s0, s1, root, STACK_VA, ATTRIB_AP_RW_ALL) && Complete(file) && WellLaidOut(file)
    requires Beside(s1, s, root) && Image(s, root, file, HeaderCount(file))
    requires KeptOutsideImage(s1, s, root, file, HeaderCount(file))
    ensures Beside(s0, s, root) && ProgramReady(s, root, file)
  {
    BesideTransitive(s0, s1, s, root);
    StackPageGiven(s0, s1, root);
    if OutsideImage(file, STACK_PAGE, HeaderCount(file)) {
      KeptPageHolds(s1, s, root, STACK_PAGE, ZeroFrame());
    }
  }

  /** `load_icode`. */
  method LoadIcode(pm: PhysicalMemory, root: nat, file: seq<byte>) returns (r: LoadResult)
    requires pm.Valid() && IsRoot(pm.own, root)
    requires IsElf(file) ==> Complete(file) && WellLaidOut(file)
    modifies pm.Repr
    ensures pm.Valid()
    ensures r.Panicked? ==> |old(pm.State()).free| < FramesFor(file)
    ensures r.NotElf? ==> !IsElf(file) && Beside(old(pm.State()), pm.State(), root)
    ensures r.NotElf? ==> PageHolds(pm.State(), root, STACK_PAGE, ZeroFrame())
    ensures r.Loaded? ==> IsElf(file) && r.entry == Field(file, 24, 8)
    ensures r.Loaded? ==> Beside(old(pm.State()), pm.State(), root) && ProgramReady(pm.State(), root, file)
  {
    ghost var s0 := pm.State();
    var panicked := MapStackPage(pm, root);
    if panicked {
      return LoadResult.Panicked;
    }
    ghost var s1 := pm.State();
    StackPageGiven(s0, s1, root);
    r := LoadElf(pm, root, file);
    if r.Loaded? {
      StackSurvives(s0, s1, pm.State(), root, file);
    }
  }
}
