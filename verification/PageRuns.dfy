/** Whole runs of the memory manager: frame safety, and what overwriting a mapping costs. */
module PageRuns {
  import opened Options
  import opened Lists
  import opened Mmu
  import opened PageTable
  import opened FrameState
  import opened PageMap
  import opened Pmap
  import opened Spaces

  datatype PmOp =
    | TakePage
    | TakeDirectory
    | MapPage(root: nat, pp: nat, va: nat, perm: nat)
    | UnmapPage(root: nat, va: nat)
    | CountPage(pp: nat)
    | FillPage(pp: nat, content: Frame)

  /** What the callers of the operation owe: real directories, frames fit to be mapped. */
  ghost predicate Allowed(s: PmState, op: PmOp)
    requires Sized(s)
  {
    match op
    case TakePage => true
    case TakeDirectory => true
    case MapPage(root, pp, va, perm) => IsRoot(s.own, root) && Mappable(s, pp, perm)
    case UnmapPage(root, va) => IsRoot(s.own, root)
    case CountPage(pp) => Mappable(s, pp, 0)
    case FillPage(pp, _) => IsData(s, pp)
  }

  /** One operation; `None` is the allocator's panic. */
  ghost function Step(s: PmState, op: PmOp): Option<PmState>
    requires Inv(s) && Allowed(s, op)
  {
    match op
    case TakePage => (match Alloc(s) case None => None case Some((a, _)) => Some(a))
    case TakeDirectory => (match NewDirectory(s) case None => None case Some((a, _)) => Some(a))
    case MapPage(root, pp, va, perm) => Insert(s, root, pp, va, perm)
    case UnmapPage(root, va) => Some(Remove(s, root, va))
    case CountPage(pp) => Some(CountUp(s, pp))
    case FillPage(pp, content) => Some(Fill(s, pp, content))
  }

  lemma StepInv(s: PmState, op: PmOp)
    requires Inv(s) && Allowed(s, op)
    ensures Step(s, op).Some? ==> Inv(Step(s, op).value)
  {
    match op
    case TakePage => if s.free != [] { AllocInv(s); }
    case TakeDirectory => if s.free != [] { NewDirectoryIsEmpty(s); }
    case MapPage(root, pp, va, perm) => InsertEntersLeaf(s, root, pp, va, perm);
    case UnmapPage(root, va) => RemoveRefinesFlatMap(s, root, va);
    case CountPage(pp) => CountUpInv(s, pp);
    case FillPage(pp, content) => FillInv(s, pp, content);
  }

  /** `s'` is reached from `s` by the operations `ops`, each allowed where it is made. */
  ghost predicate Runs(s: PmState, ops: seq<PmOp>, s': PmState)
    requires Inv(s)
    decreases |ops|
  {
    if ops == [] then s' == s
    else
      Allowed(s, ops[0]) && Step(s, ops[0]).Some? &&
      (StepInv(s, ops[0]); Runs(Step(s, ops[0]).value, ops[1..], s'))
  }

  ghost predicate StepsTo(s: PmState, op: PmOp, s': PmState) {
    Inv(s) && Allowed(s, op) && Step(s, op) == Some(s')
  }

  lemma TakeStep(s: PmState, a: PmState, f: nat)
    requires Inv(s) && Alloc(s) == Some((a, f))
    ensures StepsTo(s, TakePage, a)
  {
  }

  lemma CountStep(s: PmState, f: nat)
    requires Inv(s) && Mappable(s, f, 0)
    ensures StepsTo(s, CountPage(f), CountUp(s, f))
  {
  }

  lemma MapStep(s: PmState, root: nat, f: nat, va: nat, perm: nat, t: PmState)
    requires Inv(s) && IsRoot(s.own, root) && Mappable(s, f, perm) && Insert(s, root, f, va, perm) == Some(t)
    ensures StepsTo(s, MapPage(root, f, va, perm), t)
  {
  }

  lemma FillStep(s: PmState, f: nat, content: Frame)
    requires Inv(s) && IsData(s, f)
    ensures StepsTo(s, FillPage(f, content), Fill(s, f, content))
  {
  }

  lemma RunFrom(s: PmState, op: PmOp, t: PmState, rest: seq<PmOp>, s': PmState)
    requires StepsTo(s, op, t) && (StepInv(s, op); Runs(t, rest, s'))
    ensures Runs(s, [op] + rest, s')
  {
    assert ([op] + rest)[1..] == rest;
  }

  /** In every state of every run from boot, free frames, tables and mapped frames are apart. */
  lemma {:induction false} FrameSafety(s: PmState, ops: seq<PmOp>, s': PmState)
    requires Inv(s) && Runs(s, ops, s')
    ensures Distinct(s'.free)
    ensures forall p :: p in s'.free ==> p < NPAGE && p !in s'.own
    ensures forall f: nat, i: nat :: IsLeafSlot(s'.own, f, i) && Next(s'.mem, f, i).Some? ==>
      var p := Next(s'.mem, f, i).value; p !in s'.free && p !in s'.own
    ensures forall p: nat :: p < NPAGE && p !in s'.free ==>
      p < |s'.refs| && |References(s'.mem, s'.own, p)| <= s'.refs[p]
    decreases |ops|
  {
    if ops != [] {
      StepInv(s, ops[0]);
      FrameSafety(Step(s, ops[0]).value, ops[1..], s');
    }
  }

  // ---- the leak of an overwritten frame is permanent ----

  /** An over-counted frame stays over-counted, so `page_remove` never returns it to the free list. */
  lemma OvercountedStep(s: PmState, op: PmOp, q: nat)
    requires Inv(s) && Allowed(s, op) && Step(s, op).Some? && Overcounted(s, q)
    ensures Overcounted(Step(s, op).value, q)
  {
    match op
    case TakePage => AllocInv(s);
    case TakeDirectory => NewDirectoryIsEmpty(s);
    case MapPage(root, pp, va, perm) => OvercountedMap(s, root, pp, va, perm, q);
    case UnmapPage(root, va) => OvercountedUnmap(s, root, va, q);
    case CountPage(pp) => OvercountedCountUp(s, pp, q);
    case FillPage(pp, content) => FillInv(s, pp, content);
  }

  lemma {:induction false} OvercountedForever(s: PmState, ops: seq<PmOp>, s': PmState, q: nat)
    requires Inv(s) && Runs(s, ops, s') && Overcounted(s, q)
    ensures q !in s'.free && Overcounted(s', q)
    decreases |ops|
  {
    if ops != [] {
      StepInv(s, ops[0]);
      OvercountedStep(s, ops[0], q);
      OvercountedForever(Step(s, ops[0]).value, ops[1..], s', q);
    }
  }

  /** The leak is permanent: after a mapping over frame `q`, no later state of any run has `q` free. */
  lemma OverwrittenFrameNeverFreed(s: PmState, root: nat, pp: nat, va: nat, perm: nat, q: nat, ops: seq<PmOp>,
                                   s': PmState)
    requires Inv(s) && Runs(s, [MapPage(root, pp, va, perm)] + ops, s') && Lookup(s, root, va) == Some(q)
    ensures q !in s'.free && Overcounted(s', q)
  {
    var all := [MapPage(root, pp, va, perm)] + ops;
    assert all[0] == MapPage(root, pp, va, perm) && all[1..] == ops;
    OverwriteOvercounts(s, root, pp, va, perm, q);
    StepInv(s, all[0]);
    OvercountedForever(Step(s, all[0]).value, ops, s', q);
  }

  // ---- when counts are exact ----

  /**
   The operation gives a frame above the kernel image a count too many: it maps over a page that names
   one, or counts one without mapping it.
   */
  ghost predicate Miscounts(s: PmState, op: PmOp) {
    match op
    case MapPage(root, _, va, _) => MapsUserFrame(s, root, va)
    case CountPage(pp) => pp >= USED_FRAMES
    case _ => false
  }

  ghost predicate NeverMiscounts(s: PmState, ops: seq<PmOp>, s': PmState)
    requires Inv(s) && Runs(s, ops, s')
    decreases |ops|
  {
    ops == [] || (!Miscounts(s, ops[0]) && (StepInv(s, ops[0]); NeverMiscounts(Step(s, ops[0]).value, ops[1..], s')))
  }

  lemma ExactAfterTake(s: PmState)
    requires Inv(s) && s.free != [] && Exact(s)
    ensures Alloc(s).Some? && Sized(Alloc(s).value.0) && Exact(Alloc(s).value.0)
    ensures Sized(NewDirectory(s).value.0) && Exact(NewDirectory(s).value.0)
  {
    AllocInv(s);
    NewDirectoryIsEmpty(s);
    var (a, r) := Alloc(s).value;
    assert forall q :: q in s.free ==> q == r || q in a.free;
    assert Exact(a);
  }

  lemma ExactAfterFill(s: PmState, pp: nat, content: Frame)
    requires Inv(s) && IsData(s, pp) && Exact(s)
    ensures Sized(Fill(s, pp, content)) && Exact(Fill(s, pp, content))
  {
    FillInv(s, pp, content);
  }

  lemma ExactStep(s: PmState, op: PmOp)
    requires Inv(s) && Allowed(s, op) && Step(s, op).Some? && Exact(s)
    ensures Sized(Step(s, op).value) && (Exact(Step(s, op).value) <==> !Miscounts(s, op))
  {
    match op
    case TakePage => ExactAfterTake(s);
    case TakeDirectory => ExactAfterTake(s);
    case MapPage(root, pp, va, perm) => ExactAfterInsertIff(s, root, pp, va, perm);
    case UnmapPage(root, va) => ExactAfterRemove(s, root, va);
    case CountPage(pp) => ExactAfterCountUpIff(s, pp);
    case FillPage(pp, content) => ExactAfterFill(s, pp, content);
  }

  lemma InexactForever(s: PmState, ops: seq<PmOp>, s': PmState)
    requires Inv(s) && Runs(s, ops, s') && !Exact(s)
    ensures Sized(s') && !Exact(s')
  {
    var q: nat :|
      USED_FRAMES <= q < NPAGE && q !in s.free && q !in s.own && s.refs[q] != |References(s.mem, s.own, q)|;
    assert Overcounted(s, q);
    OvercountedForever(s, ops, s', q);
    RunKeepsInv(s, ops, s');
  }

  lemma {:induction false} RunKeepsInv(s: PmState, ops: seq<PmOp>, s': PmState)
    requires Inv(s) && Runs(s, ops, s')
    ensures Inv(s')
    decreases |ops|
  {
    if ops != [] {
      StepInv(s, ops[0]);
      RunKeepsInv(Step(s, ops[0]).value, ops[1..], s');
    }
  }

  /** The state `page_init` builds. */
  ghost predicate AtPageInit(s: PmState) {
    && Sized(s) && s.own == map[] && s.free == FreeAtBoot(NPAGE)
    && forall f :: 0 <= f < USED_FRAMES ==> s.refs[f] == 1
  }

  /** There the counts are exact, but for the kernel image, whose frames nothing names. */
  lemma BootExact(s: PmState)
    requires AtPageInit(s)
    ensures Inv(s) && Exact(s)
    ensures forall f: nat :: f < USED_FRAMES ==> Overcounted(s, f)
  {
    InitInv(s);
    forall f: nat | f < USED_FRAMES
      ensures References(s.mem, s.own, f) == {}
    {
    }
  }

  /** Exact counts stay exact over a run if and only if no operation of the run miscounts. */
  lemma {:induction false} ExactIffNeverMiscounts(s: PmState, ops: seq<PmOp>, s': PmState)
    requires Inv(s) && Runs(s, ops, s') && Exact(s)
    ensures Sized(s') && (Exact(s') <==> NeverMiscounts(s, ops, s'))
    decreases |ops|
  {
    if ops != [] {
      StepInv(s, ops[0]);
      ExactStep(s, ops[0]);
      var t := Step(s, ops[0]).value;
      if Miscounts(s, ops[0]) {
        InexactForever(t, ops[1..], s');
      } else {
        ExactIffNeverMiscounts(t, ops[1..], s');
      }
    }
  }

  /**
   In every run from boot, the count of every frame above the kernel image that holds data is the number
   of entries that name it if and only if the run never mapped over such a frame, and never counted one
   without mapping it.
   */
  lemma CountsExactIff(s: PmState, ops: seq<PmOp>, s': PmState)
    requires AtPageInit(s) && (BootExact(s); Runs(s, ops, s'))
    ensures Inv(s) && Sized(s') && (Exact(s') <==> NeverMiscounts(s, ops, s'))
  {
    BootExact(s);
    ExactIffNeverMiscounts(s, ops, s');
  }

  // ---- the counts of tables ----

  /** Every table, directories included, is counted once. */
  ghost predicate TablesOnce(s: PmState) {
    forall f :: f in s.own ==> f < |s.refs| && s.refs[f] == 1
  }

  lemma EnsureTableOnce(s: PmState, f: nat, i: nat)
    requires Inv(s) && TablesOnce(s) && f in s.own && !s.own[f].PteTable? && i < ENTRIES && EnsureTable(s, f, i).Some?
    ensures TablesOnce(EnsureTable(s, f, i).value.0)
  {
    if Next(s.mem, f, i).None? {
      assert s.free[0] in s.free;
    }
  }

  lemma WalkUpperOnce(s: PmState, root: nat, g: nat, d: nat)
    requires Inv(s) && TablesOnce(s) && IsRoot(s.own, root) && g < ENTRIES && d < ENTRIES
    requires WalkUpper(s, root, g, d).Some?
    ensures TablesOnce(WalkUpper(s, root, g, d).value.0)
  {
    EnsureTableInv(s, root, g);
    EnsureTableOnce(s, root, g);
    var (a, t) := EnsureTable(s, root, g).value;
    EnsureTableInv(a, t, d);
    EnsureTableOnce(a, t, d);
  }

  lemma WalkOnce(s: PmState, root: nat, p: Path)
    requires Inv(s) && TablesOnce(s) && IsRoot(s.own, root) && InRange(p) && Walk(s, root, p).Some?
    ensures TablesOnce(Walk(s, root, p).value.0)
  {
    WalkUpperInv(s, root, p.g, p.d);
    WalkUpperOnce(s, root, p.g, p.d);
    var (b, t) := WalkUpper(s, root, p.g, p.d).value;
    EnsureTableOnce(b, t, p.m);
  }

  lemma InsertOnce(s: PmState, root: nat, pp: nat, va: nat, perm: nat)
    requires Inv(s) && TablesOnce(s) && IsRoot(s.own, root) && Mappable(s, pp, perm)
    requires Insert(s, root, pp, va, perm).Some?
    ensures TablesOnce(Insert(s, root, pp, va, perm).value)
  {
    WalkInv(s, root, PathOf(va));
    WalkOnce(s, root, PathOf(va));
    var (a, t) := Walk(s, root, PathOf(va)).value;
    MappableAfterWalk(s, a, pp);
    SetLeafOnce(a, t, PTX(va), LeafEntry(pp, perm), pp);
  }

  lemma SetLeafOnce(a: PmState, t: nat, i: nat, w: nat, pp: nat)
    requires Sized(a) && TablesOnce(a) && t < NPAGE && i < ENTRIES && pp < NPAGE && pp !in a.own
    ensures TablesOnce(SetLeaf(a, t, i, w, pp, Incremented(a.refs[pp])))
  {
  }

  lemma StepOnce(s: PmState, op: PmOp)
    requires Inv(s) && Allowed(s, op) && Step(s, op).Some? && TablesOnce(s)
    ensures TablesOnce(Step(s, op).value)
  {
    match op
    case TakePage => assert s.free[0] in s.free;
    case TakeDirectory => assert s.free[0] in s.free;
    case MapPage(root, pp, va, perm) => InsertOnce(s, root, pp, va, perm);
    case UnmapPage(root, va) => UnmapOnce(s, root, va);
    case CountPage(pp) =>
    case FillPage(pp, content) =>
  }

  lemma UnmapOnce(s: PmState, root: nat, va: nat)
    requires Inv(s) && IsRoot(s.own, root) && TablesOnce(s)
    ensures TablesOnce(Remove(s, root, va))
  {
    RemoveGivesBack(s, root, va);
    if Lookup(s, root, va).Some? {
      LookedUpIsData(s, root, va, Lookup(s, root, va).value);
    }
  }

  /** In every run from boot each table is counted once. */
  lemma {:induction false} RunsKeepTablesOnce(s: PmState, ops: seq<PmOp>, s': PmState)
    requires Inv(s) && Runs(s, ops, s') && TablesOnce(s)
    ensures TablesOnce(s')
    decreases |ops|
  {
    if ops != [] {
      StepInv(s, ops[0]);
      StepOnce(s, ops[0]);
      RunsKeepTablesOnce(Step(s, ops[0]).value, ops[1..], s');
    }
  }

  lemma TablesCountedOnce(s: PmState, ops: seq<PmOp>, s': PmState)
    requires AtPageInit(s) && (BootExact(s); Runs(s, ops, s'))
    ensures TablesOnce(s')
  {
    BootExact(s);
    RunsKeepTablesOnce(s, ops, s');
  }
}
