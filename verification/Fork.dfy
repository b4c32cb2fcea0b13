/** The address-space copy of `sys_fork`: one page a step, and what holds after any number of steps. */
module Fork {
  import opened Options
  import opened Mmu
  import opened PageTable
  import opened FrameState
  import opened PageMap
  import opened Spaces

  const USTACKTOP_PAGES: nat := 0x1000  // USTACKTOP / BY2PG

  /** The page at `va` copied from `parent` to `child` through a frame of its own; `None` is the panic. */
  ghost function CopyPage(s: PmState, parent: nat, child: nat, va: nat): Option<PmState>
    requires Inv(s) && IsRoot(s.own, parent) && IsRoot(s.own, child)
  {
    var p := Lookup(s, parent, va);
    if p.None? then Some(s)
    else if s.free == [] then None
    else
      CopyReady(s, parent, va);
      var (a, pp) := Alloc(s).value;
      var b := Fill(a, pp, a.mem[p.value]);
      Insert(b, child, pp, va, ATTRIB_AP_RW_ALL)
  }

  /** The frame taken for the copy can be filled and mapped. */
  lemma CopyReady(s: PmState, parent: nat, va: nat)
    requires Inv(s) && IsRoot(s.own, parent) && Lookup(s, parent, va).Some? && s.free != []
    ensures Alloc(s).Some?
    ensures var (a, pp) := Alloc(s).value; var p := Lookup(s, parent, va).value;
      && pp in s.free && IsData(a, pp) && IsData(s, p) && p < |a.mem| && a.mem[p] == s.mem[p]
      && Inv(Fill(a, pp, a.mem[p])) && Mappable(Fill(a, pp, a.mem[p]), pp, ATTRIB_AP_RW_ALL)
      && Fill(a, pp, a.mem[p]).own == s.own
      && Beside(s, a, 0)
  {
    AllocInv(s);
    LookupReadsFlatMap(s, parent, va);
    MappedFrameIsData(s, parent, VPN(va));
    var (a, pp) := Alloc(s).value;
    ExtendsBeside(s, a, 0);
    FilledIsMappable(a, pp, a.mem[Lookup(s, parent, va).value]);
  }

  lemma FilledIsMappable(a: PmState, pp: nat, content: Frame)
    requires Inv(a) && IsData(a, pp) && a.refs[pp] == 0
    ensures var b := Fill(a, pp, content); Inv(b) && Mappable(b, pp, ATTRIB_AP_RW_ALL) && b.own == a.own
  {
    FillInv(a, pp, content);
  }

  // ---- the loop ----

  /** Page `n` of the child map is a copy of page `n` of the parent map, in a frame of `unused`. */
  ghost predicate PageCopied(pm: map<nat, nat>, m0: Memory, unused: seq<nat>, cm: map<nat, nat>, m: Memory, n: nat) {
    && (n in cm <==> n in pm)
    && (n in cm ==>
          var c, p := FrameOf(cm[n]), FrameOf(pm[n]);
          c in unused && c < |m| && p < |m0| && m[c] == m0[p])
  }

  /** No two of the first `n` pages share a frame. */
  ghost predicate OwnFrames(cm: map<nat, nat>, n: nat) {
    forall i, j :: 0 <= i < n && 0 <= j < n && i != j && i in cm && j in cm ==> FrameOf(cm[i]) != FrameOf(cm[j])
  }

  /** `cm` is `cm0` with the first `n` pages copied from `pm`. */
  ghost predicate MapCopied(pm: map<nat, nat>, cm0: map<nat, nat>, m0: Memory, unused: seq<nat>,
                            cm: map<nat, nat>, m: Memory, n: nat) {
    && (forall i :: 0 <= i < n ==> PageCopied(pm, m0, unused, cm, m, i))
    && OwnFrames(cm, n)
    && (forall i :: n <= i < VPNS ==> SamePage(cm0, cm, i))
  }

  lemma MapCopyStep(pm: map<nat, nat>, cm0: map<nat, nat>, m0: Memory, unused: seq<nat>,
                    cm: map<nat, nat>, m: Memory, cm': map<nat, nat>, m': Memory, n: nat, e: nat)
    requires MapCopied(pm, cm0, m0, unused, cm, m, n) && n in pm
    requires cm' == cm[n := e] && |m'| == |m|
    requires var c, p := FrameOf(e), FrameOf(pm[n]); c in unused && c < |m'| && p < |m0| && m'[c] == m0[p]
    requires forall i :: 0 <= i < n && i in cm && FrameOf(cm[i]) < |m| ==>
      FrameOf(cm[i]) != FrameOf(e) && m'[FrameOf(cm[i])] == m[FrameOf(cm[i])]
    ensures MapCopied(pm, cm0, m0, unused, cm', m', n + 1)
  {
    forall i | 0 <= i < n
      ensures PageCopied(pm, m0, unused, cm', m', i)
      ensures i in cm ==> FrameOf(cm[i]) != FrameOf(e)
    {
      assert PageCopied(pm, m0, unused, cm, m, i);
    }
    forall i | n + 1 <= i < VPNS
      ensures SamePage(cm0, cm', i)
    {
      assert SamePage(cm0, cm, i);
    }
  }

  /** The first `n` pages have been copied; the rest of the child and everything else is as it was. */
  ghost predicate CopiedUpTo(s0: PmState, s: PmState, parent: nat, child: nat, n: nat) {
    && Beside(s0, s, child)
    && IsRoot(s0.own, parent) && IsRoot(s0.own, child) && parent != child
    && MapCopied(AddressSpace(s0.mem, parent), AddressSpace(s0.mem, child), s0.mem, s0.free,
                 AddressSpace(s.mem, child), s.mem, n)
  }

  lemma CopyStart(s: PmState, parent: nat, child: nat)
    requires Inv(s) && IsRoot(s.own, parent) && IsRoot(s.own, child) && parent != child
    ensures CopiedUpTo(s, s, parent, child, 0) && CopySpent(s, s, parent, 0)
    ensures CopyUnderway(s, s, parent, child, 0)
  {
    assert Spent(s, s, 0);
  }

  lemma CopyPageEnters(s: PmState, parent: nat, child: nat, n: nat)
    requires Inv(s) && IsRoot(s.own, parent) && IsRoot(s.own, child) && n < VPNS
    requires n in AddressSpace(s.mem, parent)
    ensures CopyPage(s, parent, child, n * BY2PG).None? ==> |s.free| <= 3
    ensures CopyPage(s, parent, child, n * BY2PG).Some? ==>
      var s' := CopyPage(s, parent, child, n * BY2PG).value;
      && Beside(s, s', child) && IsRoot(s'.own, child)
      && s.free != []
      && var c, p := s.free[0], FrameOf(AddressSpace(s.mem, parent)[n]);
         && c < NPAGE && p < NPAGE && IsData(s', c) && s'.mem[c] == s.mem[p]
         && AddressSpace(s'.mem, child) == AddressSpace(s.mem, child)[n := LeafEntry(c, ATTRIB_AP_RW_ALL)]
         && FrameOf(LeafEntry(c, ATTRIB_AP_RW_ALL)) == c
  {
    var va := n * BY2PG;
    VpnOfPage(n);
    LookupReadsFlatMap(s, parent, va);
    if s.free != [] {
      CopyReady(s, parent, va);
      var (a, c) := Alloc(s).value;
      var p := Lookup(s, parent, va).value;
      AllocInv(s);
      ExtendsBeside(s, a, child);
      var b := Fill(a, c, a.mem[p]);
      FillInv(a, c, a.mem[p]);
      FillBeside(s, a, c, a.mem[p], child);
      InsertEntersLeaf(b, child, c, va, ATTRIB_AP_RW_ALL);
      if CopyPage(s, parent, child, va).Some? {
        var s' := CopyPage(s, parent, child, va).value;
        InsertBeside(b, child, c, va, ATTRIB_AP_RW_ALL);
        BesideTransitive(s, b, s', child);
        assert IsData(b, c);
      }
    }
  }

  /** What copying one page does to the flat maps and to the data. */
  lemma CopyPageEffect(s: PmState, parent: nat, child: nat, n: nat)
    requires Inv(s) && IsRoot(s.own, parent) && IsRoot(s.own, child) && n < VPNS
    requires n in AddressSpace(s.mem, parent)
    ensures CopyPage(s, parent, child, n * BY2PG).None? ==> |s.free| <= 3
    ensures CopyPage(s, parent, child, n * BY2PG).Some? ==>
      var s' := CopyPage(s, parent, child, n * BY2PG).value;
      && Beside(s, s', child) && IsRoot(s'.own, child)
      && s.free != []
      && var c, p := s.free[0], FrameOf(AddressSpace(s.mem, parent)[n]);
         && c < NPAGE && p < NPAGE && IsData(s', c) && s'.mem[c] == s.mem[p]
         && AddressSpace(s'.mem, child) == AddressSpace(s.mem, child)[n := c * BY2PG + 0x743]
         && FrameOf(c * BY2PG + 0x743) == c
  {
    CopyPageEnters(s, parent, child, n);
    if s.free != [] && s.free[0] < NPAGE {
      UserEntries(s.free[0]);
    }
  }

  /** Copying one more page keeps what was copied. */
  lemma CopyStep(s0: PmState, s: PmState, parent: nat, child: nat, n: nat)
    requires CopiedUpTo(s0, s, parent, child, n) && n < VPNS && IsRoot(s.own, parent) && IsRoot(s.own, child)
    requires n !in AddressSpace(s0.mem, child)
    requires CopyPage(s, parent, child, n * BY2PG).Some?
    ensures CopiedUpTo(s0, CopyPage(s, parent, child, n * BY2PG).value, parent, child, n + 1)
  {
    var s' := CopyPage(s, parent, child, n * BY2PG).value;
    VpnOfPage(n);
    LookupReadsFlatMap(s, parent, n * BY2PG);
    assert AddressSpace(s.mem, parent) == AddressSpace(s0.mem, parent);
    if n in AddressSpace(s.mem, parent) {
      CopyPageEffect(s, parent, child, n);
      MappedFrameIsData(s0, parent, n);
      BesideTransitive(s0, s, s', child);
      ChildFramesKept(s, s', child, n);
      assert s.free[0] in s.free;
      MapCopyStep(AddressSpace(s0.mem, parent), AddressSpace(s0.mem, child), s0.mem, s0.free,
                  AddressSpace(s.mem, child), s.mem, AddressSpace(s'.mem, child), s'.mem, n,
                  s.free[0] * BY2PG + 0x743);
    } else {
      SkipPage(AddressSpace(s0.mem, parent), AddressSpace(s0.mem, child), s0.mem, s0.free, AddressSpace(s.mem, child),
               s.mem, n);
    }
  }

  lemma SkipPage(pm: map<nat, nat>, cm0: map<nat, nat>, m0: Memory, unused: seq<nat>, cm: map<nat, nat>, m: Memory,
                 n: nat)
    requires MapCopied(pm, cm0, m0, unused, cm, m, n) && n < VPNS && n !in pm && n !in cm0
    ensures MapCopied(pm, cm0, m0, unused, cm, m, n + 1)
  {
    assert SamePage(cm0, cm, n);
  }

  lemma ChildFramesKept(s: PmState, s': PmState, child: nat, n: nat)
    requires Beside(s, s', child) && IsRoot(s.own, child) && s.free != []
    ensures forall i: nat :: i in AddressSpace(s.mem, child) ==>
      var f := FrameOf(AddressSpace(s.mem, child)[i]); f < NPAGE && f != s.free[0] && s'.mem[f] == s.mem[f]
  {
    assert s.free[0] in s.free;
    forall i: nat | i in AddressSpace(s.mem, child)
      ensures IsData(s, FrameOf(AddressSpace(s.mem, child)[i]))
    {
      MappedFrameIsData(s, child, i);
    }
  }

  // ---- what the copy costs ----

  /** The number of the first `n` pages that a flat map holds. */
  function MappedBelow(m: map<nat, nat>, n: nat): nat {
    if n == 0 then 0 else MappedBelow(m, n - 1) + (if n - 1 in m then 1 else 0)
  }

  /** It is the size of the set of these pages. */
  lemma {:induction false} MappedBelowCounts(m: map<nat, nat>, n: nat)
    ensures MappedBelow(m, n) == |set k: nat | k < n && k in m|
  {
    var s := set k: nat | k < n && k in m;
    if n == 0 {
      assert s == {};
    } else {
      MappedBelowCounts(m, n - 1);
      var rest := set k: nat | k < n - 1 && k in m;
      assert s == if n - 1 in m then rest + {n - 1} else rest;
    }
  }

  lemma {:induction false} MappedBelowGrows(m: map<nat, nat>, k: nat, n: nat)
    requires k <= n
    ensures MappedBelow(m, k) <= MappedBelow(m, n)
    decreases n
  {
    if k < n {
      MappedBelowGrows(m, k, n - 1);
    }
  }

  /** Each copied page takes at most four frames: its own and three tables. */
  lemma CopyPageTakes(s: PmState, parent: nat, child: nat, va: nat)
    requires Inv(s) && IsRoot(s.own, parent) && IsRoot(s.own, child)
    ensures CopyPage(s, parent, child, va).None? ==> Lookup(s, parent, va).Some? && |s.free| < 4
    ensures CopyPage(s, parent, child, va).Some? ==>
      Spent(s, CopyPage(s, parent, child, va).value, if Lookup(s, parent, va).Some? then 4 else 0)
  {
    if Lookup(s, parent, va).Some? && s.free != [] {
      CopyReady(s, parent, va);
      var (a, pp) := Alloc(s).value;
      var b := Fill(a, pp, a.mem[Lookup(s, parent, va).value]);
      InsertTakes(b, child, pp, va, ATTRIB_AP_RW_ALL);
      if Insert(b, child, pp, va, ATTRIB_AP_RW_ALL).Some? {
        HeadFromFront(s.free);
        SpentMore(s, b, Insert(b, child, pp, va, ATTRIB_AP_RW_ALL).value, 1, 3);
      }
    }
  }

  /** The first `n` pages are copied, at a price within their budget. */
  ghost predicate CopyUnderway(s0: PmState, s: PmState, parent: nat, child: nat, n: nat) {
    exists k: nat :: k <= 4 * MappedBelow(AddressSpace(s0.mem, parent), n) && Spent(s0, s, k)
                     && CopiedUpTo(s0, s, parent, child, n)
  }

  /** The first `n` pages were copied within their budget. */
  ghost predicate CopySpent(s0: PmState, s: PmState, parent: nat, n: nat) {
    Spent(s0, s, 4 * MappedBelow(AddressSpace(s0.mem, parent), n))
  }

  /** Too few frames are free to copy every page below USTACKTOP. */
  ghost predicate TooFewToCopy(s0: PmState, parent: nat) {
    |s0.free| < 4 * MappedBelow(AddressSpace(s0.mem, parent), USTACKTOP_PAGES)
  }

  lemma CopySpentStep(s0: PmState, s: PmState, parent: nat, child: nat, n: nat)
    requires CopiedUpTo(s0, s, parent, child, n) && n < USTACKTOP_PAGES && IsRoot(s.own, parent) && IsRoot(s.own, child)
    requires CopySpent(s0, s, parent, n)
    ensures CopyPage(s, parent, child, n * BY2PG).None? ==> TooFewToCopy(s0, parent)
    ensures CopyPage(s, parent, child, n * BY2PG).Some? ==>
      CopySpent(s0, CopyPage(s, parent, child, n * BY2PG).value, parent, n + 1)
  {
    var pm := AddressSpace(s0.mem, parent);
    VpnOfPage(n);
    LookupReadsFlatMap(s, parent, n * BY2PG);
    assert AddressSpace(s.mem, parent) == pm;
    CopyPageTakes(s, parent, child, n * BY2PG);
    BudgetStep(s0, s, CopyPage(s, parent, child, n * BY2PG), pm, n);
  }

  lemma BudgetStep(s0: PmState, s: PmState, r: Option<PmState>, pm: map<nat, nat>, n: nat)
    requires n < USTACKTOP_PAGES && Spent(s0, s, 4 * MappedBelow(pm, n))
    requires r.None? ==> n in pm && |s.free| < 4
    requires r.Some? ==> Spent(s, r.value, if n in pm then 4 else 0)
    ensures r.None? ==> |s0.free| < 4 * MappedBelow(pm, USTACKTOP_PAGES)
    ensures r.Some? ==> Spent(s0, r.value, 4 * MappedBelow(pm, n + 1))
  {
    MappedBelowGrows(pm, n + 1, USTACKTOP_PAGES);
    if r.Some? {
      SpentMore(s0, s, r.value, 4 * MappedBelow(pm, n), if n in pm then 4 else 0);
    }
  }

  // ---- the whole loop ----

  /** Nothing is mapped below USTACKTOP. */
  ghost predicate LowPagesFree(s: PmState, root: nat) {
    forall n: nat :: n < USTACKTOP_PAGES ==> n !in AddressSpace(s.mem, root)
  }

  /** Where `n` turns lead: the pages below `n` are copied, unless too few frames were free. */
  ghost predicate CopyOutcome(s: PmState, r: Option<PmState>, parent: nat, child: nat, n: nat) {
    match r
    case None => TooFewToCopy(s, parent)
    case Some(m) => CopyUnderway(s, m, parent, child, n)
  }

  lemma CopyTurn(s: PmState, m: PmState, parent: nat, child: nat, n: nat)
    requires CopyOutcome(s, Some(m), parent, child, n) && LowPagesFree(s, child) && n < USTACKTOP_PAGES
    requires IsRoot(m.own, parent) && IsRoot(m.own, child)
    ensures CopyOutcome(s, CopyPage(m, parent, child, n * BY2PG), parent, child, n + 1)
  {
    CopySpentStep(s, m, parent, child, n);
    if CopyPage(m, parent, child, n * BY2PG).Some? {
      CopyStep(s, m, parent, child, n);
    }
  }

  lemma RootsStay(s: PmState, m: PmState, parent: nat, child: nat, n: nat)
    requires CopyOutcome(s, Some(m), parent, child, n)
    ensures IsRoot(m.own, parent) && IsRoot(m.own, child)
  {
  }
}
