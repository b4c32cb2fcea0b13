/**
 The state of the physical-memory manager and its invariant: the free list, the tables and
 the data frames are disjoint, and the reference count of a frame in use is at least the
 number of valid leaf entries that name it.
 */
module FrameState {
  import opened Options
  import opened Lists
  import opened Mmu
  import opened PageTable

  /** Frame contents, `pp_ref` of each frame, the free list, and the table each frame plays. */
  datatype PmState = PmState(mem: Memory, refs: seq<nat>, free: seq<nat>, own: Owners)

  ghost predicate Sized(s: PmState) {
    && |s.mem| == NPAGE && |s.refs| == NPAGE
    && forall p :: 0 <= p < NPAGE ==> s.refs[p] < 0x10000
  }

  ghost predicate Tables(s: PmState) {
    OwnedInside(s.mem, s.own) && Linked(s.mem, s.own)
  }

  /** Nothing on the free list is a table. */
  ghost predicate FreeApart(s: PmState) {
    && Distinct(s.free)
    && forall p :: p in s.free ==> p < NPAGE && p !in s.own
  }

  ghost predicate IsLeafSlot(own: Owners, f: nat, i: nat) {
    f in own && own[f].PteTable? && i < ENTRIES
  }

  /** Every valid leaf entry names a frame that is neither free nor a table. */
  ghost predicate LeavesApart(s: PmState) {
    forall f, i :: IsLeafSlot(s.own, f, i) && Next(s.mem, f, i).Some? ==>
      var p := Next(s.mem, f, i).value;
      p < NPAGE && p !in s.own && p !in s.free
  }

  /** The leaf slots that hold a valid entry for frame `p`. */
  ghost function References(mem: Memory, own: Owners, p: nat): set<(nat, nat)> {
    set f, i | f in own && 0 <= i < ENTRIES && IsLeafSlot(own, f, i) && Next(mem, f, i) == Some(p) :: (f, i)
  }

  ghost predicate Counted(s: PmState)
    requires Sized(s)
  {
    forall p :: 0 <= p < NPAGE && p !in s.free ==> |References(s.mem, s.own, p)| <= s.refs[p]
  }

  ghost predicate Inv(s: PmState) {
    Sized(s) && Tables(s) && FreeApart(s) && LeavesApart(s) && Counted(s)
  }

  // ---- what an operation that only builds tables changes ----

  ghost predicate OwnGrows(s: PmState, s': PmState) {
    && (forall f :: f in s.own ==> f in s'.own && s'.own[f] == s.own[f])
    && (forall f :: f in s'.own ==> f in s.own || f in s.free)
  }

  ghost predicate FreeShrinks(s: PmState, s': PmState) {
    forall p :: p in s'.free ==> p in s.free
  }

  /** Frames that were neither free nor tables keep contents and count; so do leaf tables. */
  ghost predicate DataKept(s: PmState, s': PmState)
    requires Sized(s) && Sized(s')
  {
    forall f :: 0 <= f < NPAGE && f !in s.free ==>
      && s'.refs[f] == s.refs[f]
      && ((f in s.own && !s.own[f].PteTable?) || s'.mem[f] == s.mem[f])
  }

  ghost predicate LeavesKept(s: PmState, s': PmState) {
    forall r, q :: IsRoot(s.own, r) && InRange(q) ==> Leaf(s'.mem, r, q) == Leaf(s.mem, r, q)
  }

  /** No entry of a table is lost or redirected. */
  ghost predicate LinksKept(s: PmState, s': PmState) {
    forall f, i :: f in s.own && 0 <= i < ENTRIES && Next(s.mem, f, i).Some? ==> Next(s'.mem, f, i) == Next(s.mem, f, i)
  }

  ghost predicate ReferencesKept(s: PmState, s': PmState) {
    forall p :: 0 <= p < NPAGE ==> References(s'.mem, s'.own, p) == References(s.mem, s.own, p)
  }

  /** From `s` to `s'`, free frames became tables and no address space changed. */
  ghost predicate Extends(s: PmState, s': PmState) {
    && Sized(s) && Sized(s')
    && OwnGrows(s, s') && FreeShrinks(s, s') && DataKept(s, s') && LinksKept(s, s') && LeavesKept(s, s') &&
         ReferencesKept(s, s')
  }

  /** Every frame taken from the free list became a table. */
  ghost predicate FreeBecameTables(s: PmState, s': PmState) {
    forall p :: p in s.free ==> p in s'.free || p in s'.own
  }

  lemma ExtendsTransitive(a: PmState, b: PmState, c: PmState)
    requires Inv(b) && Extends(a, b) && Extends(b, c)
    ensures Extends(a, c)
  {
    forall r, q | IsRoot(a.own, r) && InRange(q)
      ensures Leaf(c.mem, r, q) == Leaf(a.mem, r, q)
    {
      assert IsRoot(b.own, r);
    }
  }

  // ---- page_alloc ----

  /** `page_alloc`: the head of the free list, zeroed, with count 0; `None` is the panic. */
  ghost function Alloc(s: PmState): Option<(PmState, nat)> {
    if s.free == [] then None
    else
      var p := s.free[0];
      if p < |s.mem| && p < |s.refs| then
        Some((s.(mem := s.mem[p := ZeroFrame()], refs := s.refs[p := 0], free := s.free[1..]), p))
      else None
  }

  lemma AllocInv(s: PmState)
    requires Inv(s) && s.free != []
    ensures Alloc(s).Some?
    ensures var (s1, p) := Alloc(s).value;
            && Inv(s1) && Extends(s, s1)
            && p < NPAGE && p in s.free && p !in s1.free && p !in s1.own && s1.mem[p] == ZeroFrame()
            && s1.own == s.own && References(s1.mem, s1.own, p) == {}
  {
    assert s.free[0] in s.free;
    var (s1, p) := Alloc(s).value;
    assert forall q :: q in s1.free ==> q in s.free;
    assert p !in s1.free;
    forall r, q | IsRoot(s.own, r) && InRange(q)
      ensures Leaf(s1.mem, r, q) == Leaf(s.mem, r, q)
    {
      ZeroKeepsWalks(s.mem, s.own, p, ZeroFrame(), r, q);
    }
    assert forall f, i :: f in s.own && 0 <= i < ENTRIES ==> Next(s1.mem, f, i) == Next(s.mem, f, i);
    assert forall f, i :: IsLeafSlot(s1.own, f, i) <==> IsLeafSlot(s.own, f, i);
    forall q | 0 <= q < NPAGE
      ensures References(s1.mem, s1.own, q) == References(s.mem, s.own, q)
    {
    }
    assert References(s.mem, s.own, p) == {};
  }

  // ---- pgdir_walk ----

  /** One level of `pgdir_walk` with `create`: follow the entry, or hang a fresh table below it. */
  ghost function EnsureTable(s: PmState, f: nat, i: nat): Option<(PmState, nat)>
    requires f in s.own && !s.own[f].PteTable? && f < |s.mem| && i < ENTRIES
  {
    if Next(s.mem, f, i).Some? then Some((s, Next(s.mem, f, i).value))
    else if Alloc(s).None? then None
    else
      var (a, t) := Alloc(s).value;
      if t < |a.refs| then
        Some((WithTable(a, f, i, t), t))
      else None
  }

  ghost predicate TableReached(s: PmState, s': PmState, f: nat, i: nat, t: nat)
    requires f in s.own && !s.own[f].PteTable? && i < ENTRIES
  {
    && Inv(s') && Extends(s, s')
    && t in s'.own && s'.own[t] == Child(s.own[f], i) && t < NPAGE
    && Next(s'.mem, f, i) == Some(t)
    && |s.free| <= |s'.free| + 1 && FreeBecameTables(s, s')
  }

  lemma EnsureTableInv(s: PmState, f: nat, i: nat)
    requires Inv(s) && f in s.own && !s.own[f].PteTable? && i < ENTRIES
    ensures EnsureTable(s, f, i).None? ==> s.free == []
    ensures EnsureTable(s, f, i).Some? ==>
      TableReached(s, EnsureTable(s, f, i).value.0, f, i, EnsureTable(s, f, i).value.1)
  {
    if Next(s.mem, f, i).None? && s.free != [] {
      AllocInv(s);
      var (a, t) := Alloc(s).value;
      LinkInv(a, f, i, t);
      LinkExtends(s, a, f, i, t);
    }
  }

  lemma LinkExtends(s: PmState, a: PmState, f: nat, i: nat, t: nat)
    requires Inv(s) && Inv(a) && Extends(s, a) && a.own == s.own
    requires f in s.own && !s.own[f].PteTable? && i < ENTRIES && Next(s.mem, f, i).None? && Next(a.mem, f, i).None?
    requires t < NPAGE && t in s.free
    requires LeavesKept(a, WithTable(a, f, i, t)) && ReferencesKept(a, WithTable(a, f, i, t))
    ensures Extends(s, WithTable(a, f, i, t))
  {
    var s' := WithTable(a, f, i, t);
    assert t !in s.own;
    assert LeavesKept(s, s') by {
      assert forall r :: IsRoot(s.own, r) ==> IsRoot(a.own, r);
    }
  }

  /** `a` with the zeroed frame `t` hung below entry `i` of table `f`. */
  ghost function WithTable(a: PmState, f: nat, i: nat, t: nat): PmState
    requires f in a.own && !a.own[f].PteTable? && f < |a.mem| && i < ENTRIES && t < |a.refs|
  {
    PmState(Store(a.mem, f, i, TableEntry(t)), a.refs[t := 1], a.free, a.own[t := Child(a.own[f], i)])
  }

  /** Frame `t` can be hung below entry `i` of table `f`: it is zeroed and unused, and the entry is empty. */
  ghost predicate CanLink(a: PmState, f: nat, i: nat, t: nat) {
    && Inv(a) && f in a.own && !a.own[f].PteTable? && i < ENTRIES && Next(a.mem, f, i).None?
    && t < NPAGE && t !in a.own && t !in a.free && a.mem[t] == ZeroFrame() && References(a.mem, a.own, t) == {}
  }

  lemma LinkTree(a: PmState, f: nat, i: nat, t: nat)
    requires CanLink(a, f, i, t)
    ensures var s := WithTable(a, f, i, t);
            && Sized(s) && Tables(s) && FreeApart(s) && Next(s.mem, f, i) == Some(t)
            && (forall h, j :: IsLeafSlot(a.own, h, j) ==>
                IsLeafSlot(s.own, h, j) && Next(s.mem, h, j) == Next(a.mem, h, j))
            && (forall h, j :: IsLeafSlot(s.own, h, j) && Next(s.mem, h, j).Some? ==> IsLeafSlot(a.own, h, j))
  {
    TableEntryNamesTable(t);
    LinkKeepsTree(a.mem, a.own, f, i, t, TableEntry(t));
  }

  lemma LinkReferences(a: PmState, f: nat, i: nat, t: nat)
    requires CanLink(a, f, i, t)
    ensures ReferencesKept(a, WithTable(a, f, i, t)) && LeavesApart(WithTable(a, f, i, t))
  {
    var s := WithTable(a, f, i, t);
    LinkTree(a, f, i, t);
    forall q | 0 <= q < NPAGE
      ensures References(s.mem, s.own, q) == References(a.mem, a.own, q)
    {
    }
    forall h: nat, j: nat | IsLeafSlot(s.own, h, j) && Next(s.mem, h, j).Some?
      ensures var p := Next(s.mem, h, j).value; p < NPAGE && p !in s.own && p !in s.free
    {
      assert (h, j) in References(a.mem, a.own, Next(s.mem, h, j).value);
    }
  }

  lemma LinkLeaves(a: PmState, f: nat, i: nat, t: nat)
    requires CanLink(a, f, i, t)
    ensures LeavesKept(a, WithTable(a, f, i, t))
  {
    var s := WithTable(a, f, i, t);
    TableEntryNamesTable(t);
    forall r, q | IsRoot(a.own, r) && InRange(q)
      ensures Leaf(s.mem, r, q) == Leaf(a.mem, r, q)
    {
      LinkKeepsLeaves(a.mem, a.own, f, i, t, TableEntry(t), r, q);
    }
  }

  /** Hanging an unused zeroed frame below an empty table entry keeps the invariant. */
  lemma LinkInv(a: PmState, f: nat, i: nat, t: nat)
    requires CanLink(a, f, i, t)
    ensures var s := WithTable(a, f, i, t);
            Inv(s) && LeavesKept(a, s) && ReferencesKept(a, s) && Next(s.mem, f, i) == Some(t)
  {
    LinkTree(a, f, i, t);
    LinkReferences(a, f, i, t);
    LinkLeaves(a, f, i, t);
  }

  /** The first two levels of a creating walk: the table that holds the entry `PMX(va)` indexes. */
  ghost function WalkUpper(s: PmState, root: nat, g: nat, d: nat): Option<(PmState, nat)>
    requires Inv(s) && IsRoot(s.own, root) && g < ENTRIES && d < ENTRIES
  {
    EnsureTableInv(s, root, g);
    var a := EnsureTable(s, root, g);
    if a.None? then None
    else
      EnsureTableInv(a.value.0, a.value.1, d);
      EnsureTable(a.value.0, a.value.1, d)
  }

  ghost predicate UpperReached(s: PmState, s': PmState, root: nat, g: nat, d: nat, t: nat)
    requires g < ENTRIES && d < ENTRIES
  {
    && Inv(s') && Extends(s, s')
    && t in s'.own && s'.own[t] == PmeTable(root, g, d)
    && |s.free| <= |s'.free| + 2 && FreeBecameTables(s, s')
    && Next(s'.mem, root, g).Some? && Next(s'.mem, Next(s'.mem, root, g).value, d) == Some(t)
  }

  lemma WalkUpperInv(s: PmState, root: nat, g: nat, d: nat)
    requires Inv(s) && IsRoot(s.own, root) && g < ENTRIES && d < ENTRIES
    ensures WalkUpper(s, root, g, d).None? ==> |s.free| < 2
    ensures WalkUpper(s, root, g, d).Some? ==>
      UpperReached(s, WalkUpper(s, root, g, d).value.0, root, g, d, WalkUpper(s, root, g, d).value.1)
  {
    EnsureTableInv(s, root, g);
    if EnsureTable(s, root, g).Some? {
      var (a, t1) := EnsureTable(s, root, g).value;
      EnsureTableInv(a, t1, d);
      if EnsureTable(a, t1, d).Some? {
        var (b, t2) := EnsureTable(a, t1, d).value;
        ExtendsTransitive(s, a, b);
        assert Next(b.mem, root, g) == Some(t1);
      }
    }
  }

  /** `pgdir_walk` with `create`: the state after it and the last-level table it ends in. */
  ghost function Walk(s: PmState, root: nat, p: Path): Option<(PmState, nat)>
    requires Inv(s) && IsRoot(s.own, root) && InRange(p)
  {
    WalkUpperInv(s, root, p.g, p.d);
    var b := WalkUpper(s, root, p.g, p.d);
    if b.None? then None else EnsureTable(b.value.0, b.value.1, p.m)
  }

  ghost predicate WalkReached(s: PmState, s': PmState, root: nat, p: Path, t: nat)
    requires InRange(p)
  {
    && Inv(s') && Extends(s, s')
    && |s.free| <= |s'.free| + 3 && FreeBecameTables(s, s')
    && LeafTable(s'.mem, root, p) == Some(t)
    && t in s'.own && s'.own[t] == PteTable(root, p.g, p.d, p.m)
  }

  /** A walk that creates ends in the table of its path and disturbs no address space. */
  lemma WalkInv(s: PmState, root: nat, p: Path)
    requires Inv(s) && IsRoot(s.own, root) && InRange(p)
    ensures Walk(s, root, p).None? ==> |s.free| < 3
    ensures Walk(s, root, p).Some? ==>
      WalkReached(s, Walk(s, root, p).value.0, root, p, Walk(s, root, p).value.1)
  {
    WalkUpperInv(s, root, p.g, p.d);
    if WalkUpper(s, root, p.g, p.d).Some? {
      var (b, t2) := WalkUpper(s, root, p.g, p.d).value;
      EnsureTableInv(b, t2, p.m);
      if EnsureTable(b, t2, p.m).Some? {
        var (c, t3) := EnsureTable(b, t2, p.m).value;
        LastLevel(s, b, c, root, p, t2, t3);
      }
    }
  }

  lemma LastLevel(s: PmState, b: PmState, c: PmState, root: nat, p: Path, t2: nat, t3: nat)
    requires Inv(s) && IsRoot(s.own, root) && InRange(p)
    requires UpperReached(s, b, root, p.g, p.d, t2) && TableReached(b, c, t2, p.m, t3)
    ensures WalkReached(s, c, root, p, t3)
  {
    ExtendsTransitive(s, b, c);
    LastTable(b, c, root, p, Next(b.mem, root, p.g).value, t2, t3);
  }

  lemma LastTable(b: PmState, c: PmState, root: nat, p: Path, t1: nat, t2: nat, t3: nat)
    requires InRange(p) && LinksKept(b, c) && root in b.own && t1 in b.own
    requires Next(b.mem, root, p.g) == Some(t1) && Next(b.mem, t1, p.d) == Some(t2) && Next(c.mem, t2, p.m) == Some(t3)
    ensures LeafTable(c.mem, root, p) == Some(t3)
  {
    assert Next(c.mem, root, p.g) == Some(t1);
    assert Next(c.mem, t1, p.d) == Some(t2);
  }

  // ---- in which order frames are taken ----

  /** What was taken from the free list `f` to leave `g` was taken from its front. */
  ghost predicate FromFront(f: seq<nat>, g: seq<nat>) {
    f == g || (f != [] && FromFront(f[1..], g))
  }

  lemma {:induction false} FromFrontTransitive(f: seq<nat>, g: seq<nat>, h: seq<nat>)
    requires FromFront(f, g) && FromFront(g, h)
    ensures FromFront(f, h)
    decreases |f|
  {
    if f != g {
      FromFrontTransitive(f[1..], g, h);
    }
  }

  lemma HeadFromFront(f: seq<nat>)
    requires f != []
    ensures FromFront(f, f[1..])
  {
    assert FromFront(f[1..], f[1..]);
  }

  /** From `s` to `s'` at most `k` frames were taken, from the front of the free list. */
  ghost predicate Spent(s: PmState, s': PmState, k: nat) {
    |s.free| <= |s'.free| + k && FromFront(s.free, s'.free)
  }

  lemma SpentMore(a: PmState, b: PmState, c: PmState, j: nat, k: nat)
    requires Spent(a, b, j) && Spent(b, c, k)
    ensures Spent(a, c, j + k)
  {
    FromFrontTransitive(a.free, b.free, c.free);
  }

  lemma EnsureTableFromFront(s: PmState, f: nat, i: nat)
    requires f in s.own && !s.own[f].PteTable? && f < |s.mem| && i < ENTRIES && EnsureTable(s, f, i).Some?
    ensures FromFront(s.free, EnsureTable(s, f, i).value.0.free)
  {
    if s.free != [] {
      HeadFromFront(s.free);
    }
  }

  lemma WalkUpperFromFront(s: PmState, root: nat, g: nat, d: nat)
    requires Inv(s) && IsRoot(s.own, root) && g < ENTRIES && d < ENTRIES && WalkUpper(s, root, g, d).Some?
    ensures FromFront(s.free, WalkUpper(s, root, g, d).value.0.free)
  {
    EnsureTableInv(s, root, g);
    var (a, t1) := EnsureTable(s, root, g).value;
    EnsureTableFromFront(s, root, g);
    EnsureTableInv(a, t1, d);
    EnsureTableFromFront(a, t1, d);
    FromFrontTransitive(s.free, a.free, EnsureTable(a, t1, d).value.0.free);
  }

  lemma WalkFromFront(s: PmState, root: nat, p: Path)
    requires Inv(s) && IsRoot(s.own, root) && InRange(p) && Walk(s, root, p).Some?
    ensures FromFront(s.free, Walk(s, root, p).value.0.free)
  {
    WalkUpperInv(s, root, p.g, p.d);
    var (b, t2) := WalkUpper(s, root, p.g, p.d).value;
    WalkUpperFromFront(s, root, p.g, p.d);
    EnsureTableFromFront(b, t2, p.m);
    FromFrontTransitive(s.free, b.free, EnsureTable(b, t2, p.m).value.0.free);
  }
}
