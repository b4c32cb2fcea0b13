/**
 `page_insert`, `page_lookup` and `page_remove` as transitions of the memory manager, and
 the theorem that they refine one flat map for each page directory.
 */
module PageMap {
  import opened Options
  import opened Mmu
  import opened PageTable
  import opened FrameState
  import opened Sets

  const USED_FRAMES: nat := 0x2000  // VPN(KTOP): frames below it belong to the kernel image

  // ---- the two halves of an update of a leaf slot ----

  /** Put entry `w` in slot `i` of leaf table `t` and give frame `p` the count `c`. */
  ghost function SetLeaf(s: PmState, t: nat, i: nat, w: nat, p: nat, c: nat): PmState
    requires Sized(s) && t < NPAGE && i < ENTRIES && p < NPAGE
  {
    s.(mem := Store(s.mem, t, i, w), refs := s.refs[p := c])
  }

  lemma ReferencesAfterStore(mem: Memory, own: Owners, t: nat, i: nat, w: nat, q: nat)
    requires OwnedInside(mem, own) && IsLeafSlot(own, t, i)
    ensures var m := Store(mem, t, i, w);
            References(m, own, q) ==
              if Next(m, t, i) == Some(q) then References(mem, own, q) + {(t, i)}
                else References(mem, own, q) - {(t, i)}
  {
    var m := Store(mem, t, i, w);
    OtherSlotsKept(mem, own, t, i, w);
  }

  lemma OtherSlotsKept(mem: Memory, own: Owners, t: nat, i: nat, w: nat)
    requires OwnedInside(mem, own) && t in own && i < ENTRIES
    ensures forall f: nat, j: nat :: f in own && j < ENTRIES && (f != t || j != i) ==>
      Next(Store(mem, t, i, w), f, j) == Next(mem, f, j)
  {
  }

  lemma StoreLeafKeepsTables(mem: Memory, own: Owners, t: nat, i: nat, w: nat)
    requires OwnedInside(mem, own) && Linked(mem, own) && IsLeafSlot(own, t, i)
    ensures OwnedInside(Store(mem, t, i, w), own) && Linked(Store(mem, t, i, w), own)
  {
    OtherSlotsKept(mem, own, t, i, w);
  }

  lemma StoreReferenceCount(mem: Memory, own: Owners, t: nat, i: nat, w: nat, q: nat)
    requires OwnedInside(mem, own) && IsLeafSlot(own, t, i)
    ensures var n, n' := |References(mem, own, q)|, |References(Store(mem, t, i, w), own, q)|;
            n' == n + (if Next(Store(mem, t, i, w), t, i) == Some(q) then 1 else 0)
                    - (if Next(mem, t, i) == Some(q) then 1 else 0)
  {
    var m := Store(mem, t, i, w);
    ReferencesAfterStore(mem, own, t, i, w, q);
    ToggleSize(References(mem, own, q), References(m, own, q), (t, i), Next(m, t, i) == Some(q));
  }

  lemma StoreLeavesApart(s: PmState, s': PmState, t: nat, i: nat, w: nat)
    requires Sized(s) && Tables(s) && LeavesApart(s) && IsLeafSlot(s.own, t, i)
    requires s'.mem == Store(s.mem, t, i, w) && s'.own == s.own
    requires Next(s'.mem, t, i).Some? ==>
      var p := Next(s'.mem, t, i).value; p < NPAGE && p !in s.own && p !in s'.free
    requires forall f: nat, j: nat :: IsLeafSlot(s.own, f, j) && (f != t || j != i) && Next(s.mem, f, j).Some? ==>
      Next(s.mem, f, j).value !in s'.free
    ensures LeavesApart(s')
  {
    OtherSlotsKept(s.mem, s.own, t, i, w);
  }

  /** Entering a frame that is neither free nor a table keeps the invariant, if its count goes up. */
  lemma EnterLeafInv(s: PmState, t: nat, i: nat, w: nat, pp: nat)
    requires Inv(s) && IsLeafSlot(s.own, t, i)
    requires pp < NPAGE && pp !in s.own && pp !in s.free && Present(w) && FrameOf(w) == pp && s.refs[pp] < 0xFFFF
    ensures Inv(SetLeaf(s, t, i, w, pp, s.refs[pp] + 1))
  {
    var s' := SetLeaf(s, t, i, w, pp, s.refs[pp] + 1);
    StoreLeafKeepsTables(s.mem, s.own, t, i, w);
    StoreLeavesApart(s, s', t, i, w);
    forall q | 0 <= q < NPAGE && q !in s'.free
      ensures |References(s'.mem, s'.own, q)| <= s'.refs[q]
    {
      StoreReferenceCount(s.mem, s.own, t, i, w, q);
    }
  }

  /** What `page_remove` does to the slot of a mapped page: drop one count, freeing at zero, and clear it. */
  ghost function ClearLeaf(s: PmState, t: nat, i: nat): PmState
    requires Sized(s) && t < NPAGE && i < ENTRIES && Next(s.mem, t, i).Some? && Next(s.mem, t, i).value < NPAGE
  {
    var q := Next(s.mem, t, i).value;
    var c := Decremented(s.refs[q]);
    PmState(Store(s.mem, t, i, 0), s.refs[q := c], if c == 0 then [q] + s.free else s.free, s.own)
  }

  /** `pp_ref--` on an unsigned 16-bit field. */
  function Decremented(c: nat): nat {
    (c + 0xFFFF) % 0x10000
  }

  /** `pp_ref++` on an unsigned 16-bit field. */
  function Incremented(c: nat): nat {
    (c + 1) % 0x10000
  }

  lemma ClearLeafInv(s: PmState, t: nat, i: nat)
    requires Inv(s) && IsLeafSlot(s.own, t, i) && Next(s.mem, t, i).Some?
    ensures Inv(ClearLeaf(s, t, i))
  {
    var q := Next(s.mem, t, i).value;
    var s' := ClearLeaf(s, t, i);
    assert 1 <= s.refs[q] by {
      assert (t, i) in References(s.mem, s.own, q);
    }
    assert s'.refs[q] == s.refs[q] - 1;
    StoreLeafKeepsTables(s.mem, s.own, t, i, 0);
    ClearCounted(s, t, i);
    if s.refs[q] == 1 {
      ClearFreesUnreferenced(s, t, i);
    }
    StoreLeavesApart(s, s', t, i, 0);
  }

  lemma ClearCounted(s: PmState, t: nat, i: nat)
    requires Inv(s) && IsLeafSlot(s.own, t, i) && Next(s.mem, t, i).Some?
    requires 1 <= s.refs[Next(s.mem, t, i).value]
    ensures Counted(ClearLeaf(s, t, i))
  {
    var s' := ClearLeaf(s, t, i);
    forall p | 0 <= p < NPAGE && p !in s'.free
      ensures |References(s'.mem, s'.own, p)| <= s'.refs[p]
    {
      StoreReferenceCount(s.mem, s.own, t, i, 0, p);
      assert p !in s.free;
    }
  }

  /** A frame whose count drops to zero is named by no other leaf entry. */
  lemma ClearFreesUnreferenced(s: PmState, t: nat, i: nat)
    requires Inv(s) && IsLeafSlot(s.own, t, i) && Next(s.mem, t, i).Some?
    requires s.refs[Next(s.mem, t, i).value] <= 1
    ensures forall f: nat, j: nat :: IsLeafSlot(s.own, f, j) && Next(s.mem, f, j) == Next(s.mem, t, i) ==>
      f == t && j == i
  {
    var q := Next(s.mem, t, i).value;
    forall f: nat, j: nat | IsLeafSlot(s.own, f, j) && Next(s.mem, f, j) == Some(q)
      ensures f == t && j == i
    {
      assert {(t, i), (f, j)} <= References(s.mem, s.own, q);
      SubsetSize({(t, i), (f, j)}, References(s.mem, s.own, q));
    }
  }

  // ---- the three operations ----

  /** `page_insert`; `None` is the panic of an exhausted allocator. */
  ghost function Insert(s: PmState, root: nat, pp: nat, va: nat, perm: nat): Option<PmState>
    requires Inv(s) && IsRoot(s.own, root) && pp < NPAGE
  {
    WalkInv(s, root, PathOf(va));
    match Walk(s, root, PathOf(va))
    case None => None
    case Some((a, t)) => Some(SetLeaf(a, t, PTX(va), LeafEntry(pp, perm), pp, Incremented(a.refs[pp])))
  }

  /** `page_lookup`: the frame mapped at `va`. */
  ghost function Lookup(s: PmState, root: nat, va: nat): Option<nat> {
    var e := Leaf(s.mem, root, PathOf(va));
    if e.Some? then Some(FrameOf(e.value)) else None
  }

  /** `page_remove`. */
  ghost function Remove(s: PmState, root: nat, va: nat): PmState
    requires Inv(s) && IsRoot(s.own, root)
  {
    WalkStaysInTree(s.mem, s.own, root, PathOf(va));
    if Leaf(s.mem, root, PathOf(va)).None? then s
    else ClearLeaf(s, LeafTable(s.mem, root, PathOf(va)).value, PTX(va))
  }

  // ---- refinement of flat maps ----

  /** If only the leaf of `va` changes, to `e`, then the flat map changes at its page number only. */
  lemma LeafUpdateIsMapUpdate(m: Memory, m': Memory, r: nat, va: nat, e: Option<nat>)
    requires forall q :: InRange(q) ==> Leaf(m', r, q) == if q == PathOf(va) then e else Leaf(m, r, q)
    ensures AddressSpace(m', r) == if e.Some? then AddressSpace(m, r)[VPN(va) := e.value]
      else AddressSpace(m, r) - {VPN(va)}
  {
    forall n: nat | n < VPNS
      ensures PageLeaf(m', r, n) == if n == VPN(va) then e else PageLeaf(m, r, n)
    {
      SamePathIffSamePage(n * BY2PG, va);
      VpnOfPage(n);
    }
    FlatMapIs(if e.Some? then AddressSpace(m, r)[VPN(va) := e.value] else AddressSpace(m, r) - {VPN(va)}, m', r);
  }

  lemma SameLeavesSameMap(m: Memory, m': Memory, r: nat)
    requires forall q :: InRange(q) ==> Leaf(m', r, q) == Leaf(m, r, q)
    ensures AddressSpace(m', r) == AddressSpace(m, r)
  {
    assert forall n: nat :: n < VPNS ==> PageLeaf(m', r, n) == PageLeaf(m, r, n);
    FlatMapIs(AddressSpace(m, r), m', r);
  }

  /** Every directory but `root` keeps its address space. */
  ghost predicate OthersKept(s: PmState, s': PmState, root: nat) {
    forall r :: IsRoot(s.own, r) && r != root ==> AddressSpace(s'.mem, r) == AddressSpace(s.mem, r)
  }

  /** The frames a caller may hand to `page_insert`, and the flags it may ask for. */
  ghost predicate Mappable(s: PmState, pp: nat, perm: nat)
    requires Sized(s)
  {
    pp < NPAGE && pp !in s.own && pp !in s.free && perm < BY2PG && s.refs[pp] < 0xFFFF
  }

  /** From `s` to `m`, the leaf of path `p` of `root` became `e`, and no other leaf changed. */
  ghost predicate LeafSet(s: PmState, m: Memory, root: nat, p: Path, e: Option<nat>) {
    forall r, q :: IsRoot(s.own, r) && InRange(q) ==>
      Leaf(m, r, q) == if r == root && q == p then e else Leaf(s.mem, r, q)
  }

  lemma LeafSetIsMapUpdate(s: PmState, s': PmState, root: nat, va: nat, e: Option<nat>)
    requires IsRoot(s.own, root) && LeafSet(s, s'.mem, root, PathOf(va), e)
    ensures AddressSpace(s'.mem, root) ==
      if e.Some? then AddressSpace(s.mem, root)[VPN(va) := e.value] else AddressSpace(s.mem, root) - {VPN(va)}
    ensures OthersKept(s, s', root)
  {
    LeafUpdateIsMapUpdate(s.mem, s'.mem, root, va, e);
    forall r | IsRoot(s.own, r) && r != root
      ensures AddressSpace(s'.mem, r) == AddressSpace(s.mem, r)
    {
      SameLeavesSameMap(s.mem, s'.mem, r);
    }
  }

  lemma StoreSetsLeaf(s: PmState, a: PmState, root: nat, p: Path, t: nat, w: nat)
    requires Tables(a) && IsRoot(s.own, root) && OwnGrows(s, a) && LeavesKept(s, a) && InRange(p)
    requires LeafTable(a.mem, root, p) == Some(t) && t < |a.mem|
    ensures LeafSet(s, Store(a.mem, t, p.t, w), root, p, if Present(w) then Some(w) else None)
  {
    forall r, q | IsRoot(s.own, r) && InRange(q)
      ensures Leaf(Store(a.mem, t, p.t, w), r, q) ==
        if r == root && q == p then (if Present(w) then Some(w) else None) else Leaf(s.mem, r, q)
    {
      assert IsRoot(a.own, root) && IsRoot(a.own, r);
      StoreLeaf(a.mem, a.own, root, p, w, r, q);
    }
  }

  /**
   Whatever frame and flags it is given, `page_insert` sets exactly the page of `va` in exactly one
   address space, to the frame and the flags or'ed together and with 0x703; the page then names that
   frame exactly when the flags do not reach beyond it.
   */
  lemma InsertRefinesFlatMap(s: PmState, root: nat, pp: nat, va: nat, perm: nat)
    requires Inv(s) && IsRoot(s.own, root) && pp < NPAGE && perm < 0x1_0000_0000
    requires Insert(s, root, pp, va, perm).Some?
    ensures var s' := Insert(s, root, pp, va, perm).value;
      && AddressSpace(s'.mem, root) ==
           AddressSpace(s.mem, root)[VPN(va) := BitOr(pp, perm / BY2PG) * BY2PG + BitOr(perm % BY2PG, 0x703)]
      && OthersKept(s, s', root)
      && (Lookup(s', root, va) == Some(pp) <==> BitOr(pp, perm / BY2PG) == pp)
  {
    InsertSetsEntry(s, root, pp, va, perm);
    LeafEntryFields(pp, perm);
  }

  lemma InsertSetsEntry(s: PmState, root: nat, pp: nat, va: nat, perm: nat)
    requires Inv(s) && IsRoot(s.own, root) && pp < NPAGE && perm < 0x1_0000_0000
    requires Insert(s, root, pp, va, perm).Some?
    ensures var s' := Insert(s, root, pp, va, perm).value;
      && AddressSpace(s'.mem, root) == AddressSpace(s.mem, root)[VPN(va) := LeafEntry(pp, perm)]
      && OthersKept(s, s', root)
      && (Lookup(s', root, va) == Some(pp) <==> BitOr(pp, perm / BY2PG) == pp)
  {
    WalkInv(s, root, PathOf(va));
    LeafEntryNamesFrame(pp, perm);
    var (a, t) := Walk(s, root, PathOf(va)).value;
    var s' := Insert(s, root, pp, va, perm).value;
    StoreSetsLeaf(s, a, root, PathOf(va), t, LeafEntry(pp, perm));
    LeafSetIsMapUpdate(s, s', root, va, Some(LeafEntry(pp, perm)));
    LookupReadsFlatMap(s', root, va);
  }

  lemma InsertEntersLeaf(s: PmState, root: nat, pp: nat, va: nat, perm: nat)
    requires Inv(s) && IsRoot(s.own, root) && Mappable(s, pp, perm)
    ensures Insert(s, root, pp, va, perm).None? ==> |s.free| < 3
    ensures Insert(s, root, pp, va, perm).Some? ==>
      var s' := Insert(s, root, pp, va, perm).value;
      && Inv(s')
      && AddressSpace(s'.mem, root) == AddressSpace(s.mem, root)[VPN(va) := LeafEntry(pp, perm)]
      && OthersKept(s, s', root)
      && FrameOf(LeafEntry(pp, perm)) == pp
  {
    WalkInv(s, root, PathOf(va));
    LeafEntryNamesFrame(pp, perm);
    if Walk(s, root, PathOf(va)).Some? {
      var (a, t) := Walk(s, root, PathOf(va)).value;
      var w := LeafEntry(pp, perm);
      EnterAfterWalk(s, a, t, root, pp, PathOf(va), w);
      LeafSetIsMapUpdate(s, SetLeaf(a, t, PTX(va), w, pp, Incremented(a.refs[pp])), root, va, Some(w));
    }
  }

  /** For a frame fit to be mapped the frame invariant is kept as well, and the page names the frame. */
  lemma InsertMapsFrame(s: PmState, root: nat, pp: nat, va: nat, perm: nat)
    requires Inv(s) && IsRoot(s.own, root) && Mappable(s, pp, perm)
    ensures Insert(s, root, pp, va, perm).None? ==> |s.free| < 3
    ensures Insert(s, root, pp, va, perm).Some? ==>
      var s' := Insert(s, root, pp, va, perm).value;
      && Inv(s') && OthersKept(s, s', root) && Lookup(s', root, va) == Some(pp)
      && AddressSpace(s'.mem, root) == AddressSpace(s.mem, root)[VPN(va) := pp * BY2PG + BitOr(perm, 0x703)]
  {
    InsertEntersLeaf(s, root, pp, va, perm);
    if Insert(s, root, pp, va, perm).Some? {
      MapsFrameAt(s, Insert(s, root, pp, va, perm).value, root, pp, va, perm);
    }
  }

  lemma MapsFrameAt(s: PmState, s': PmState, root: nat, pp: nat, va: nat, perm: nat)
    requires Inv(s) && IsRoot(s.own, root) && pp < NPAGE && perm < BY2PG && Insert(s, root, pp, va, perm) == Some(s')
    ensures Lookup(s', root, va) == Some(pp)
    ensures AddressSpace(s'.mem, root) == AddressSpace(s.mem, root)[VPN(va) := pp * BY2PG + BitOr(perm, 0x703)]
  {
    InsertSetsEntry(s, root, pp, va, perm);
    LowEntryFields(pp, perm);
    NoHighBits(pp, perm);
  }

  /** An insertion takes at most three frames, from the front of the free list, and fails only for want of them. */
  lemma InsertTakes(s: PmState, root: nat, pp: nat, va: nat, perm: nat)
    requires Inv(s) && IsRoot(s.own, root) && pp < NPAGE
    ensures Insert(s, root, pp, va, perm).None? ==> |s.free| < 3
    ensures Insert(s, root, pp, va, perm).Some? ==>
      Spent(s, Insert(s, root, pp, va, perm).value, 3) && |Insert(s, root, pp, va, perm).value.mem| == NPAGE
  {
    WalkInv(s, root, PathOf(va));
    if Walk(s, root, PathOf(va)).Some? {
      WalkFromFront(s, root, PathOf(va));
    }
  }

  lemma InsertTakesMore(s0: PmState, s: PmState, j: nat, root: nat, pp: nat, va: nat, perm: nat)
    requires Inv(s) && IsRoot(s.own, root) && pp < NPAGE && Spent(s0, s, j)
    ensures Insert(s, root, pp, va, perm).None? ==> |s0.free| < j + 3
    ensures Insert(s, root, pp, va, perm).Some? ==> Spent(s0, Insert(s, root, pp, va, perm).value, j + 3)
  {
    InsertTakes(s, root, pp, va, perm);
    if Insert(s, root, pp, va, perm).Some? {
      SpentMore(s0, s, Insert(s, root, pp, va, perm).value, j, 3);
    }
  }

  lemma EnterAfterWalk(s: PmState, a: PmState, t: nat, root: nat, pp: nat, p: Path, w: nat)
    requires Inv(s) && IsRoot(s.own, root) && InRange(p) && WalkReached(s, a, root, p, t)
    requires Mappable(s, pp, 0) && Present(w) && FrameOf(w) == pp
    ensures var s' := SetLeaf(a, t, p.t, w, pp, Incremented(a.refs[pp]));
      Inv(s') && LeafSet(s, s'.mem, root, p, Some(w))
  {
    MappableAfterWalk(s, a, pp);
    assert IsLeafSlot(a.own, t, p.t);
    assert Inv(SetLeaf(a, t, p.t, w, pp, Incremented(a.refs[pp]))) by {
      EnterLeafInv(a, t, p.t, w, pp);
    }
    StoreSetsLeaf(s, a, root, p, t, w);
  }

  lemma MappableAfterWalk(s: PmState, a: PmState, pp: nat)
    requires Inv(s) && Extends(s, a) && Mappable(s, pp, 0)
    ensures Mappable(a, pp, 0) && a.refs[pp] == s.refs[pp] && Incremented(a.refs[pp]) == a.refs[pp] + 1
  {
  }

  /** `page_lookup` returns the frame the flat map holds, and null exactly where it holds nothing. */
  lemma LookupReadsFlatMap(s: PmState, root: nat, va: nat)
    ensures Lookup(s, root, va) ==
      if VPN(va) in AddressSpace(s.mem, root) then Some(FrameOf(AddressSpace(s.mem, root)[VPN(va)])) else None
  {
    AddressSpaceAt(s.mem, root, va);
  }

  /** `page_remove` deletes exactly the page of `va` from exactly one address space. */
  lemma RemoveRefinesFlatMap(s: PmState, root: nat, va: nat)
    requires Inv(s) && IsRoot(s.own, root)
    ensures var s' := Remove(s, root, va);
      && Inv(s')
      && AddressSpace(s'.mem, root) == AddressSpace(s.mem, root) - {VPN(va)}
      && OthersKept(s, s', root)
  {
    var p := PathOf(va);
    RemoveInv(s, root, va);
    LeafSetIsMapUpdate(s, Remove(s, root, va), root, va, None);
  }

  lemma RemoveInv(s: PmState, root: nat, va: nat)
    requires Inv(s) && IsRoot(s.own, root)
    ensures Inv(Remove(s, root, va)) && LeafSet(s, Remove(s, root, va).mem, root, PathOf(va), None)
  {
    var p := PathOf(va);
    WalkStaysInTree(s.mem, s.own, root, p);
    if Leaf(s.mem, root, p).Some? {
      var t := LeafTable(s.mem, root, p).value;
      ClearLeafInv(s, t, p.t);
      StoreSetsLeaf(s, s, root, p, t, 0);
    }
  }

  /**
   The frame mapped at `va` lost one count, and went to the head of the free list if that was its last;
   if nothing was mapped nothing happened.
   */
  ghost predicate GivenBack(s: PmState, s': PmState, root: nat, va: nat)
    requires Sized(s)
  {
    match Lookup(s, root, va)
    case None => s' == s
    case Some(q) =>
      && q < NPAGE && q !in s.free && s.refs[q] >= 1
      && s'.refs == s.refs[q := s.refs[q] - 1]
      && s'.free == (if s.refs[q] == 1 then [q] else []) + s.free
      && s'.own == s.own && DataFramesKept(s, s')
  }

  /** What `page_remove` does to the counts and the free list. */
  lemma RemoveGivesBack(s: PmState, root: nat, va: nat)
    requires Inv(s) && IsRoot(s.own, root)
    ensures GivenBack(s, Remove(s, root, va), root, va)
  {
    WalkStaysInTree(s.mem, s.own, root, PathOf(va));
    if Leaf(s.mem, root, PathOf(va)).Some? {
      ClearGivesBack(s, LeafTable(s.mem, root, PathOf(va)).value, PTX(va));
    }
  }

  /** No frame but the tables changed its content. */
  ghost predicate DataFramesKept(s: PmState, s': PmState) {
    |s'.mem| == |s.mem| && forall f: nat :: f < |s.mem| && f !in s.own ==> s'.mem[f] == s.mem[f]
  }

  lemma ClearGivesBack(s: PmState, t: nat, i: nat)
    requires Inv(s) && IsLeafSlot(s.own, t, i) && Next(s.mem, t, i).Some?
    ensures var s', q := ClearLeaf(s, t, i), Next(s.mem, t, i).value;
      && q < NPAGE && q !in s.free && s.refs[q] >= 1
      && s'.refs == s.refs[q := s.refs[q] - 1]
      && s'.free == (if s.refs[q] == 1 then [q] else []) + s.free
      && s'.own == s.own && DataFramesKept(s, s')
  {
    ClearedCount(s, t, i);
    var none: seq<nat> := [];
    assert none + s.free == s.free;
  }

  /**
   While counts are exact, unmapping a frame above the kernel image frees it exactly when no entry names
   it any more.
   */
  lemma FreedIffUnnamed(s: PmState, root: nat, va: nat, q: nat)
    requires Inv(s) && IsRoot(s.own, root) && Exact(s) && Lookup(s, root, va) == Some(q) && q >= USED_FRAMES
    ensures var s' := Remove(s, root, va);
      q in s'.free <==> References(s'.mem, s'.own, q) == {}
  {
    WalkStaysInTree(s.mem, s.own, root, PathOf(va));
    var t := LeafTable(s.mem, root, PathOf(va)).value;
    ClearGivesBack(s, t, PTX(va));
    ClearedReferences(s, t, PTX(va), q);
  }

  lemma ClearedReferences(s: PmState, t: nat, i: nat, q: nat)
    requires Inv(s) && IsLeafSlot(s.own, t, i) && Next(s.mem, t, i) == Some(q)
    ensures |References(s.mem, s.own, q)| == |References(ClearLeaf(s, t, i).mem, s.own, q)| + 1
  {
    assert Next(Store(s.mem, t, i, 0), t, i).None?;
    StoreReferenceCount(s.mem, s.own, t, i, 0, q);
  }

  // ---- a fresh page directory ----

  /** Frame `r` made the root of an address space, counted once. */
  ghost function WithRoot(a: PmState, r: nat): PmState
    requires r < |a.refs|
  {
    a.(refs := a.refs[r := 1], own := a.own[r := Directory(r)])
  }

  /** The root `env_setup_vm` takes: a zeroed frame with count 1. */
  ghost function NewDirectory(s: PmState): Option<(PmState, nat)>
    requires Inv(s)
  {
    if s.free == [] then None
    else
      AllocInv(s);
      var (a, r) := Alloc(s).value;
      Some((WithRoot(a, r), r))
  }

  /** A frame fit to become a root: zeroed, named by nothing, and in no other role. */
  ghost predicate Unused(a: PmState, r: nat) {
    && r < NPAGE && r < |a.mem| && r < |a.refs| && r !in a.free && r !in a.own
    && a.mem[r] == ZeroFrame() && References(a.mem, a.own, r) == {}
  }

  lemma EmptyRoot(mem: Memory, r: nat)
    requires r < |mem| && mem[r] == ZeroFrame()
    ensures AddressSpace(mem, r) == map[]
  {
    assert forall i :: 0 <= i < ENTRIES ==> Next(mem, r, i).None?;
    assert forall n: nat :: n < VPNS ==> PageLeaf(mem, r, n).None?;
    FlatMapIs(map[], mem, r);
  }

  lemma RootReferences(a: PmState, r: nat)
    requires Sized(a) && Unused(a, r)
    ensures ReferencesKept(a, WithRoot(a, r))
  {
    forall p | 0 <= p < NPAGE
      ensures References(a.mem, WithRoot(a, r).own, p) == References(a.mem, a.own, p)
    {
      assert forall f, i :: IsLeafSlot(WithRoot(a, r).own, f, i) <==> IsLeafSlot(a.own, f, i);
    }
  }

  lemma RootTables(a: PmState, r: nat)
    requires Inv(a) && Unused(a, r)
    ensures Tables(WithRoot(a, r)) && FreeApart(WithRoot(a, r))
  {
    assert forall i :: 0 <= i < ENTRIES ==> Next(a.mem, r, i).None?;
  }

  lemma RootLeavesApart(a: PmState, r: nat)
    requires Inv(a) && Unused(a, r)
    ensures LeavesApart(WithRoot(a, r))
  {
    forall f: nat, i: nat | IsLeafSlot(WithRoot(a, r).own, f, i) && Next(a.mem, f, i).Some?
      ensures IsLeafSlot(a.own, f, i) && Next(a.mem, f, i).value != r
    {
      assert (f, i) in References(a.mem, a.own, Next(a.mem, f, i).value);
    }
  }

  lemma WithRootInv(a: PmState, r: nat)
    requires Inv(a) && Unused(a, r)
    ensures Inv(WithRoot(a, r))
  {
    RootReferences(a, r);
    RootTables(a, r);
    RootLeavesApart(a, r);
  }

  lemma WithRootExtends(s: PmState, a: PmState, r: nat)
    requires Extends(s, a) && Unused(a, r) && r in s.free && a.own == s.own
    ensures Extends(s, WithRoot(a, r))
  {
    RootReferences(a, r);
  }

  lemma NewDirectoryIsEmpty(s: PmState)
    requires Inv(s) && s.free != []
    ensures var (s', r) := NewDirectory(s).value;
      && Inv(s') && Extends(s, s')
      && IsRoot(s'.own, r) && !IsRoot(s.own, r) && r in s.free
      && AddressSpace(s'.mem, r) == map[]
      && OthersKept(s, s', r)
      && s'.free == s.free[1..] && r == s.free[0] && s'.refs == s.refs[r := 1]
  {
    AllocInv(s);
    var (a, r) := Alloc(s).value;
    var s' := WithRoot(a, r);
    EmptyRoot(a.mem, r);
    WithRootInv(a, r);
    WithRootExtends(s, a, r);
    forall q | IsRoot(s.own, q) && q != r
      ensures AddressSpace(s'.mem, q) == AddressSpace(s.mem, q)
    {
      SameLeavesSameMap(s.mem, s'.mem, q);
    }
  }

  // ---- why the count is only a bound ----

  /** Frame `q` is in use and its count exceeds the entries that name it. */
  ghost predicate Overcounted(s: PmState, q: nat) {
    q < NPAGE && q < |s.refs| && q !in s.free && q !in s.own && |References(s.mem, s.own, q)| < s.refs[q]
  }

  /**
   The count of every frame above the kernel image that holds data is the number of entries that name it.
   The frames of the image itself are counted once more from the start.
   */
  ghost predicate Exact(s: PmState)
    requires Sized(s)
  {
    forall q: nat :: USED_FRAMES <= q < NPAGE && q !in s.free && q !in s.own ==>
      s.refs[q] == |References(s.mem, s.own, q)|
  }

  /** At `va` a frame above the kernel image is mapped. */
  ghost predicate MapsUserFrame(s: PmState, root: nat, va: nat) {
    Lookup(s, root, va).Some? && Lookup(s, root, va).value >= USED_FRAMES
  }

  /** What an insertion does to the entries that name a frame, and to its count. */
  lemma InsertedCount(s: PmState, root: nat, pp: nat, va: nat, perm: nat, q: nat)
    requires Inv(s) && IsRoot(s.own, root) && Mappable(s, pp, perm) && Insert(s, root, pp, va, perm).Some?
    requires q < NPAGE && q !in s.free && q !in s.own
    ensures var s' := Insert(s, root, pp, va, perm).value;
      && |s'.refs| == NPAGE && q !in s'.free && q !in s'.own
      && s'.refs[q] == s.refs[q] + (if q == pp then 1 else 0)
      && |References(s'.mem, s'.own, q)| ==
           |References(s.mem, s.own, q)|
           + (if q == pp then 1 else 0) - (if Lookup(s, root, va) == Some(q) then 1 else 0)
  {
    var p := PathOf(va);
    WalkInv(s, root, p);
    var (a, t) := Walk(s, root, p).value;
    WalkFindsSlot(s, a, root, p, t);
    LeafStoreCount(s, a, t, p.t, pp, perm, q);
  }

  lemma LeafStoreCount(s: PmState, a: PmState, t: nat, i: nat, pp: nat, perm: nat, q: nat)
    requires Inv(s) && Inv(a) && Extends(s, a) && Mappable(s, pp, perm) && IsLeafSlot(a.own, t, i)
    requires q < NPAGE && q !in s.free && q !in s.own
    ensures var s' := SetLeaf(a, t, i, LeafEntry(pp, perm), pp, Incremented(a.refs[pp]));
      && |s'.refs| == NPAGE && q !in s'.free && q !in s'.own
      && s'.refs[q] == s.refs[q] + (if q == pp then 1 else 0)
      && |References(s'.mem, s'.own, q)| ==
           |References(s.mem, s.own, q)| + (if q == pp then 1 else 0) - (if Next(a.mem, t, i) == Some(q) then 1 else 0)
  {
    MappableAfterWalk(s, a, pp);
    LeafEntryNamesFrame(pp, perm);
    StoreReferenceCount(a.mem, a.own, t, i, LeafEntry(pp, perm), q);
  }

  lemma WalkFindsSlot(s: PmState, a: PmState, root: nat, p: Path, t: nat)
    requires Inv(s) && IsRoot(s.own, root) && InRange(p) && WalkReached(s, a, root, p, t)
    ensures IsLeafSlot(a.own, t, p.t)
    ensures Leaf(s.mem, root, p).Some? ==> Next(a.mem, t, p.t) == Some(FrameOf(Leaf(s.mem, root, p).value))
    ensures Leaf(s.mem, root, p).None? ==> Next(a.mem, t, p.t).None?
  {
    assert Leaf(a.mem, root, p) == Leaf(s.mem, root, p);
  }

  /** Mapping over a page that is mapped, to whatever frame, leaves its old frame over-counted. */
  lemma OverwriteOvercounts(s: PmState, root: nat, pp: nat, va: nat, perm: nat, q: nat)
    requires Inv(s) && IsRoot(s.own, root) && Mappable(s, pp, perm)
    requires Lookup(s, root, va) == Some(q)
    requires Insert(s, root, pp, va, perm).Some?
    ensures Overcounted(Insert(s, root, pp, va, perm).value, q)
  {
    LookedUpIsData(s, root, va, q);
    InsertedCount(s, root, pp, va, perm, q);
    InsertEntersLeaf(s, root, pp, va, perm);
  }

  lemma LookedUpIsData(s: PmState, root: nat, va: nat, q: nat)
    requires Inv(s) && IsRoot(s.own, root) && Lookup(s, root, va) == Some(q)
    ensures q < NPAGE && q !in s.free && q !in s.own && |References(s.mem, s.own, q)| <= s.refs[q]
  {
    WalkStaysInTree(s.mem, s.own, root, PathOf(va));
    var t := LeafTable(s.mem, root, PathOf(va)).value;
    assert IsLeafSlot(s.own, t, PTX(va)) && Next(s.mem, t, PTX(va)) == Some(q);
  }

  /** `page_insert` keeps exact counts exact if and only if no frame above the kernel image was mapped at `va`. */
  lemma ExactAfterInsertIff(s: PmState, root: nat, pp: nat, va: nat, perm: nat)
    requires Inv(s) && IsRoot(s.own, root) && Mappable(s, pp, perm) && Insert(s, root, pp, va, perm).Some? && Exact(s)
    ensures Sized(Insert(s, root, pp, va, perm).value)
    ensures Exact(Insert(s, root, pp, va, perm).value) <==> !MapsUserFrame(s, root, va)
  {
    var s' := Insert(s, root, pp, va, perm).value;
    InsertEntersLeaf(s, root, pp, va, perm);
    if MapsUserFrame(s, root, va) {
      var q := Lookup(s, root, va).value;
      OverwriteOvercounts(s, root, pp, va, perm, q);
    } else {
      UsedStaysUsed(s, root, pp, va, perm);
      forall q: nat | USED_FRAMES <= q < NPAGE && q !in s'.free && q !in s'.own
        ensures s'.refs[q] == |References(s'.mem, s'.own, q)|
      {
        InsertedCount(s, root, pp, va, perm, q);
      }
    }
  }

  /** `page_remove` keeps exact counts exact. */
  lemma ExactAfterRemove(s: PmState, root: nat, va: nat)
    requires Inv(s) && IsRoot(s.own, root) && Exact(s)
    ensures Sized(Remove(s, root, va)) && Exact(Remove(s, root, va))
  {
    RemoveRefinesFlatMap(s, root, va);
    WalkStaysInTree(s.mem, s.own, root, PathOf(va));
    if Leaf(s.mem, root, PathOf(va)).Some? {
      ExactAfterClear(s, LeafTable(s.mem, root, PathOf(va)).value, PTX(va));
    }
  }

  lemma ExactAfterClear(s: PmState, t: nat, i: nat)
    requires Inv(s) && IsLeafSlot(s.own, t, i) && Next(s.mem, t, i).Some? && Exact(s) && Sized(ClearLeaf(s, t, i))
    ensures Exact(ClearLeaf(s, t, i))
  {
    var s' := ClearLeaf(s, t, i);
    ClearedCount(s, t, i);
    assert Next(Store(s.mem, t, i, 0), t, i).None?;
    forall q: nat | USED_FRAMES <= q < NPAGE && q !in s'.free && q !in s'.own
      ensures s'.refs[q] == |References(s'.mem, s'.own, q)|
    {
      assert q !in s.free;
      StoreReferenceCount(s.mem, s.own, t, i, 0, q);
    }
  }

  /** An insertion turns free frames into tables only. */
  lemma UsedStaysUsed(s: PmState, root: nat, pp: nat, va: nat, perm: nat)
    requires Inv(s) && IsRoot(s.own, root) && pp < NPAGE && Insert(s, root, pp, va, perm).Some?
    ensures var s' := Insert(s, root, pp, va, perm).value;
      forall q: nat :: q !in s'.free && q !in s'.own ==> q !in s.free && q !in s.own
  {
    WalkInv(s, root, PathOf(va));
  }

  // ---- counting a frame without mapping it ----

  /** `pp_ref++` on its own. */
  ghost function CountUp(s: PmState, pp: nat): PmState
    requires Sized(s) && pp < NPAGE
  {
    s.(refs := s.refs[pp := Incremented(s.refs[pp])])
  }

  /** It keeps the invariant, and leaves the frame counted above the entries that name it. */
  lemma CountUpInv(s: PmState, pp: nat)
    requires Inv(s) && Mappable(s, pp, 0)
    ensures Inv(CountUp(s, pp)) && Overcounted(CountUp(s, pp), pp)
  {
  }

  lemma OvercountedCountUp(s: PmState, pp: nat, q: nat)
    requires Inv(s) && Mappable(s, pp, 0) && Overcounted(s, q)
    ensures Overcounted(CountUp(s, pp), q)
  {
  }

  lemma ExactAfterCountUpIff(s: PmState, pp: nat)
    requires Inv(s) && Mappable(s, pp, 0) && Exact(s)
    ensures Sized(CountUp(s, pp)) && (Exact(CountUp(s, pp)) <==> pp < USED_FRAMES)
  {
    CountUpInv(s, pp);
    assert CountUp(s, pp).own == s.own && CountUp(s, pp).mem == s.mem && CountUp(s, pp).free == s.free;
    if pp < USED_FRAMES {
      forall q: nat | USED_FRAMES <= q < NPAGE && q !in s.free && q !in s.own
        ensures CountUp(s, pp).refs[q] == |References(s.mem, s.own, q)|
      {
        assert q != pp;
      }
    }
  }

  lemma OvercountedUnmap(s: PmState, root: nat, va: nat, q: nat)
    requires Inv(s) && IsRoot(s.own, root) && Overcounted(s, q)
    ensures Overcounted(Remove(s, root, va), q)
  {
    WalkStaysInTree(s.mem, s.own, root, PathOf(va));
    if Leaf(s.mem, root, PathOf(va)).Some? {
      OvercountedClear(s, LeafTable(s.mem, root, PathOf(va)).value, PTX(va), q);
    }
  }

  lemma OvercountedClear(s: PmState, t: nat, i: nat, q: nat)
    requires Inv(s) && IsLeafSlot(s.own, t, i) && Next(s.mem, t, i).Some? && Overcounted(s, q)
    ensures Overcounted(ClearLeaf(s, t, i), q)
  {
    var p := Next(s.mem, t, i).value;
    ClearedCount(s, t, i);
    assert Next(Store(s.mem, t, i, 0), t, i).None?;
    StoreReferenceCount(s.mem, s.own, t, i, 0, q);
    assert q == p ==> s.refs[q] >= 2;
  }

  lemma ClearedCount(s: PmState, t: nat, i: nat)
    requires Inv(s) && IsLeafSlot(s.own, t, i) && Next(s.mem, t, i).Some?
    ensures var p := Next(s.mem, t, i).value;
      1 <= |References(s.mem, s.own, p)| <= s.refs[p] && Decremented(s.refs[p]) == s.refs[p] - 1
  {
    var p := Next(s.mem, t, i).value;
    assert (t, i) in References(s.mem, s.own, p);
    assert |References(s.mem, s.own, p)| >= 1;
  }

  lemma OvercountedMap(s: PmState, root: nat, pp: nat, va: nat, perm: nat, q: nat)
    requires Inv(s) && IsRoot(s.own, root) && Mappable(s, pp, perm) && Overcounted(s, q)
    requires Insert(s, root, pp, va, perm).Some?
    ensures Overcounted(Insert(s, root, pp, va, perm).value, q)
  {
    InsertedCount(s, root, pp, va, perm, q);
  }
}
