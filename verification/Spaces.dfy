/**
 Building an address space beside others: the relation that says everything outside one page
 directory is left alone, and the operations that satisfy it.
 */
module Spaces {
  import opened Options
  import opened Mmu
  import opened PageTable
  import opened FrameState
  import opened PageMap

  /** Two flat maps agree on page `i`. */
  ghost predicate SamePage(cm0: map<nat, nat>, cm: map<nat, nat>, i: nat) {
    (i in cm <==> i in cm0) && (i in cm ==> cm[i] == cm0[i])
  }

  /** Frames that hold data: neither free nor a table. */
  ghost predicate IsData(s: PmState, f: nat) {
    f < NPAGE && f !in s.free && f !in s.own
  }

  ghost predicate DataUntouched(s: PmState, s': PmState)
    requires Sized(s) && Sized(s')
  {
    forall f: nat :: IsData(s, f) ==> IsData(s', f) && s'.mem[f] == s.mem[f]
  }

  /** A frame counted more often than it is named stays so. */
  ghost predicate SlackKept(s: PmState, s': PmState) {
    forall f: nat :: Overcounted(s, f) ==> Overcounted(s', f)
  }

  /** From `s` to `s'`, every address space but that of `root`, and every data frame, is as it was. */
  ghost predicate Beside(s: PmState, s': PmState, root: nat) {
    && Inv(s) && Inv(s')
    && OwnGrows(s, s') && FreeShrinks(s, s')
    && OthersKept(s, s', root)
    && DataUntouched(s, s')
    && SlackKept(s, s')
  }

  lemma BesideTransitive(a: PmState, b: PmState, c: PmState, root: nat)
    requires Beside(a, b, root) && Beside(b, c, root)
    ensures Beside(a, c, root)
  {
    forall r | IsRoot(a.own, r) && r != root
      ensures AddressSpace(c.mem, r) == AddressSpace(a.mem, r)
    {
      assert IsRoot(b.own, r);
    }
  }

  /** A frame an address space names holds data. */
  lemma MappedFrameIsData(s: PmState, root: nat, n: nat)
    requires Inv(s) && IsRoot(s.own, root) && n in AddressSpace(s.mem, root)
    ensures IsData(s, FrameOf(AddressSpace(s.mem, root)[n]))
  {
    var p := PathOf(n * BY2PG);
    assert PageLeaf(s.mem, root, n) == Leaf(s.mem, root, p);
    WalkStaysInTree(s.mem, s.own, root, p);
    var t := LeafTable(s.mem, root, p).value;
    assert IsLeafSlot(s.own, t, p.t);
    assert Next(s.mem, t, p.t) == Some(FrameOf(AddressSpace(s.mem, root)[n]));
  }

  lemma ExtendsBeside(s: PmState, s': PmState, root: nat)
    requires Inv(s) && Inv(s') && Extends(s, s')
    ensures Beside(s, s', root)
    ensures IsRoot(s.own, root) ==> AddressSpace(s'.mem, root) == AddressSpace(s.mem, root)
  {
    forall r | IsRoot(s.own, r)
      ensures AddressSpace(s'.mem, r) == AddressSpace(s.mem, r)
    {
      SameLeavesSameMap(s.mem, s'.mem, r);
    }
    FreshStaysOut(s, s');
    assert SlackKept(s, s');
  }

  lemma FreshStaysOut(s: PmState, s': PmState)
    requires Sized(s) && Sized(s') && OwnGrows(s, s') && FreeShrinks(s, s') && DataKept(s, s')
    ensures DataUntouched(s, s')
  {
  }

  lemma LeafStoreUntouched(s: PmState, a: PmState, t: nat, i: nat, w: nat, p: nat, n: nat)
    requires Sized(s) && Sized(a) && i < ENTRIES && p < NPAGE && n < 0x10000
    requires OwnGrows(s, a) && FreeShrinks(s, a) && DataKept(s, a) && IsLeafSlot(a.own, t, i) && t < NPAGE
    ensures var s' := SetLeaf(a, t, i, w, p, n);
      Sized(s') && OwnGrows(s, s') && FreeShrinks(s, s') && DataUntouched(s, s')
  {
    FreshStaysOut(s, a);
  }

  lemma InsertSlack(s: PmState, root: nat, pp: nat, va: nat, perm: nat)
    requires Inv(s) && IsRoot(s.own, root) && Mappable(s, pp, perm)
    requires Insert(s, root, pp, va, perm).Some?
    ensures SlackKept(s, Insert(s, root, pp, va, perm).value)
  {
    forall f: nat | Overcounted(s, f)
      ensures Overcounted(Insert(s, root, pp, va, perm).value, f)
    {
      OvercountedMap(s, root, pp, va, perm, f);
    }
  }

  lemma InsertBeside(s: PmState, root: nat, pp: nat, va: nat, perm: nat)
    requires Inv(s) && IsRoot(s.own, root) && Mappable(s, pp, perm)
    requires Insert(s, root, pp, va, perm).Some?
    ensures Beside(s, Insert(s, root, pp, va, perm).value, root)
    ensures IsRoot(Insert(s, root, pp, va, perm).value.own, root)
  {
    InsertEntersLeaf(s, root, pp, va, perm);
    InsertSlack(s, root, pp, va, perm);
    WalkInv(s, root, PathOf(va));
    var (a, t) := Walk(s, root, PathOf(va)).value;
    LeafStoreUntouched(s, a, t, PTX(va), LeafEntry(pp, perm), pp, Incremented(a.refs[pp]));
  }

  /** Filling a frame that is neither free nor a table changes no address space. */
  ghost function Fill(s: PmState, f: nat, content: Frame): PmState
    requires Sized(s) && f < NPAGE
  {
    s.(mem := s.mem[f := content])
  }

  lemma FillInv(s: PmState, f: nat, content: Frame)
    requires Inv(s) && IsData(s, f)
    ensures Inv(Fill(s, f, content)) && SlackKept(s, Fill(s, f, content)) && ReferencesKept(s, Fill(s, f, content))
    ensures forall r :: IsRoot(s.own, r) ==> AddressSpace(Fill(s, f, content).mem, r) == AddressSpace(s.mem, r)
  {
    var s' := Fill(s, f, content);
    assert forall g, i :: g in s.own && 0 <= i < ENTRIES ==> Next(s'.mem, g, i) == Next(s.mem, g, i);
    forall p: nat | p < NPAGE
      ensures References(s'.mem, s'.own, p) == References(s.mem, s.own, p)
    {
    }
    forall r | IsRoot(s.own, r)
      ensures AddressSpace(s'.mem, r) == AddressSpace(s.mem, r)
    {
      forall q | InRange(q)
        ensures Leaf(s'.mem, r, q) == Leaf(s.mem, r, q)
      {
        ZeroKeepsWalks(s.mem, s.own, f, content, r, q);
      }
      SameLeavesSameMap(s.mem, s'.mem, r);
    }
  }

  /** A frame just allocated may be filled: it was free, so nobody sees it. */
  lemma FillBeside(s: PmState, a: PmState, f: nat, content: Frame, root: nat)
    requires Beside(s, a, root) && IsData(a, f) && f in s.free
    ensures Beside(s, Fill(a, f, content), root)
  {
    FillInv(a, f, content);
    assert forall r :: IsRoot(s.own, r) ==> IsRoot(a.own, r);
  }

  // ---- sharing a frame ----

  /** The frame `va` of `root` names can be mapped again while its count has room. */
  lemma MappedFrameIsMappable(s: PmState, root: nat, va: nat, perm: nat)
    requires Inv(s) && IsRoot(s.own, root) && Lookup(s, root, va).Some? && perm < BY2PG
    ensures IsData(s, Lookup(s, root, va).value)
    ensures s.refs[Lookup(s, root, va).value] < 0xFFFF ==> Mappable(s, Lookup(s, root, va).value, perm)
  {
    LookupReadsFlatMap(s, root, va);
    MappedFrameIsData(s, root, VPN(va));
  }

  /**
   Mapping the frame of `srcva` at `dstva` makes both addresses name the same frame exactly when the
   flags do not reach beyond its number; the source page stays as it is unless it is the target.
   */
  lemma SharedFrame(s: PmState, src: nat, srcva: nat, dst: nat, dstva: nat, perm: nat)
    requires Inv(s) && IsRoot(s.own, src) && IsRoot(s.own, dst) && perm < 0x1_0000_0000
    requires Lookup(s, src, srcva).Some? && Lookup(s, src, srcva).value < NPAGE
    requires Insert(s, dst, Lookup(s, src, srcva).value, dstva, perm).Some?
    ensures var f := Lookup(s, src, srcva).value;
      var s' := Insert(s, dst, f, dstva, perm).value;
      && (Lookup(s', dst, dstva) == Some(f) <==> BitOr(f, perm / BY2PG) == f)
      && (src != dst || VPN(srcva) != VPN(dstva) ==> Lookup(s', src, srcva) == Some(f))
  {
    var f := Lookup(s, src, srcva).value;
    var s' := Insert(s, dst, f, dstva, perm).value;
    InsertSetsEntry(s, dst, f, dstva, perm);
    LookupReadsFlatMap(s, src, srcva);
    LookupReadsFlatMap(s', src, srcva);
  }

  /** With flags below bit 12 the frame is shared, whatever the two addresses are. */
  lemma SharedByLowFlags(s: PmState, src: nat, srcva: nat, dst: nat, dstva: nat, perm: nat)
    requires Inv(s) && IsRoot(s.own, src) && IsRoot(s.own, dst) && perm < BY2PG
    requires Lookup(s, src, srcva).Some? && Lookup(s, src, srcva).value < NPAGE
    requires Insert(s, dst, Lookup(s, src, srcva).value, dstva, perm).Some?
    ensures var s' := Insert(s, dst, Lookup(s, src, srcva).value, dstva, perm).value;
      Lookup(s', dst, dstva) == Lookup(s, src, srcva) == Lookup(s', src, srcva)
  {
    var f := Lookup(s, src, srcva).value;
    var s' := Insert(s, dst, f, dstva, perm).value;
    LeafEntryNamesFrame(f, perm);
    SharedFrame(s, src, srcva, dst, dstva, perm);
    if src == dst && VPN(srcva) == VPN(dstva) {
      LookupReadsFlatMap(s', src, srcva);
      LookupReadsFlatMap(s', dst, dstva);
    }
  }
}
