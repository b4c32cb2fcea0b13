/**
 The boot-time mapper of `vm.c`: a bump allocator hands out zeroed tables and
 `boot_map_segment` writes one leaf entry a page.  Same tables, same walks, no free list.
 */
module Boot {
  import opened Options
  import opened Mmu
  import opened PageTable
  import opened PageMap
  import opened Spaces

  const KSTACKTOP_FRAME: nat := 0x1000     // KSTACKTOP, where `freemem` starts
  const KERNEL_PAGES_START: nat := 0x1400  // KERNEL_PAGES, where the page array starts
  const KERNEL_BASE: nat := 0xFFFF_FF00_0000_0000
  const ATTRINDX_NORMAL: nat := 0
  const ATTRINDX_DEVICE: nat := 4

  /** `next` is the frame `freemem` points to. */
  datatype BootState = BootState(mem: Memory, next: nat, own: Owners)

  ghost predicate Inv(s: BootState) {
    && |s.mem| == NPAGE && s.next <= NPAGE
    && OwnedInside(s.mem, s.own) && Linked(s.mem, s.own)
    && (forall f :: f in s.own ==> f < s.next)
  }

  // ---- entries ----

  /** `(u_long) pde | PTE_V`: tables are addressed through the kernel base. */
  function BootTableEntry(f: nat): nat {
    BitOr(KERNEL_BASE + f * BY2PG, PTE_V)
  }

  /** The flags `boot_map_segment` adds to the caller's attribute. */
  function BootFlags(perm: nat): nat {
    BitOr(LeafFlags(perm), UXN)
  }

  function BootEntry(pa: nat, perm: nat): nat {
    BitOr(FrameOf(pa) * BY2PG, BootFlags(perm))
  }

  lemma BootTableEntryNamesTable(f: nat)
    requires f < NPAGE
    ensures BootTableEntry(f) == KERNEL_BASE + f * BY2PG + 3
    ensures Present(BootTableEntry(f)) && FrameOf(BootTableEntry(f)) == f
  {
    var w := KERNEL_BASE + f * BY2PG;
    KernelAddressOfFrame(f);
    LowFlagsKeepHigh(w, PTE_V);
    OrKeepsPresent(w, PTE_V);
    LowFlagsAdd(KERNEL_BASE / BY2PG + f, PTE_V);
  }

  lemma KernelAddressOfFrame(f: nat)
    requires f < NPAGE
    ensures FrameOf(KERNEL_BASE + f * BY2PG) == f
  {
    assert (KERNEL_BASE + f * BY2PG) / BY2PG == 0xFF_FFFF * VPNS + f;
  }

  /** The flags of a boot entry for `perm` below bit 12: 0x703 and the bit that forbids execution. */
  lemma BootFlagsFields(perm: nat)
    requires perm < BY2PG
    ensures BootFlags(perm) == UXN + BitOr(perm, 0x703)
  {
    var low := BitOr(perm, 0x703);
    LeafFlagsAdd(perm);
    LowFlagOver(perm, 0x703);
    HighFlagAdds(low, UXN);
  }

  lemma HighFlagAdds(low: nat, flag: nat)
    requires low < BY2PG && flag % BY2PG == 0
    ensures BitOr(low, flag) == flag + low
  {
    Pow2Values();
    BitOrOfFields(12, BY2PG, 0, low, flag / BY2PG, 0);
  }

  /** A boot entry is the page it was made for, the caller's attribute, 0x703 and UXN. */
  lemma BootEntryFields(pa: nat, perm: nat)
    requires perm < BY2PG
    ensures BootEntry(pa, perm) == UXN + FrameOf(pa) * BY2PG + BitOr(perm, 0x703)
  {
    var f, low := FrameOf(pa), BitOr(perm, 0x703);
    BootFlagsFields(perm);
    LowFlagOver(perm, 0x703);
    PageAndFlags(f, UXN / BY2PG, low);
  }

  lemma BootEntryNamesPage(pa: nat, perm: nat)
    requires perm < BY2PG
    ensures Present(BootEntry(pa, perm)) && FrameOf(BootEntry(pa, perm)) == FrameOf(pa)
  {
    var w, f, low := BootEntry(pa, perm), FrameOf(pa), BitOr(perm, 0x703);
    assert w == UXN + f * BY2PG + low by { BootEntryFields(pa, perm); }
    assert low < BY2PG by { LowFlagOver(perm, 0x703); }
    assert Present(low) by { OrKeepsPresent(perm, 0x703); }
    FieldsOfBootEntry(w, f, low);
  }

  /** The entries of the first gigabyte, as numbers: normal memory and device memory. */
  lemma GigabyteEntries(n: nat)
    requires n < VPNS
    ensures BootEntry(n * BY2PG, ATTRINDX_NORMAL) == UXN + n * BY2PG + 0x703
    ensures BootEntry(n * BY2PG, ATTRINDX_DEVICE) == UXN + n * BY2PG + 0x707
  {
    assert FrameOf(n * BY2PG) == n;
    BootEntryFields(n * BY2PG, ATTRINDX_NORMAL);
    BootEntryFields(n * BY2PG, ATTRINDX_DEVICE);
    DeviceFlags(ATTRINDX_DEVICE);
  }

  lemma DeviceFlags(perm: nat)
    requires perm == ATTRINDX_DEVICE
    ensures BitOr(perm, 0x703) == 0x707
  {
    assert Pow2(3) == 8 && BitOr(4, 3) == 7;
    BitOrOfFields(3, 8, 0, 4, 0xE0, 3);
  }

  /** A frame below bit 40, a flag above it and flags below bit 12 add up. */
  lemma PageAndFlags(f: nat, g: nat, low: nat)
    requires f < VPNS && g % VPNS == 0 && low < BY2PG
    ensures BitOr(f * BY2PG, g * BY2PG + low) == g * BY2PG + f * BY2PG + low
  {
    FrameAndHigh(f, g);
    Pow2Values();
    BitOrOfFields(12, BY2PG, f, 0, g, low);
  }

  lemma FrameAndHigh(f: nat, g: nat)
    requires f < VPNS && g % VPNS == 0
    ensures BitOr(f, g) == g + f
  {
    Pow2Of28();
    assert g == VPNS * (g / VPNS);
    BitOrOfFields(28, VPNS, 0, f, g / VPNS, 0);
  }

  lemma FieldsOfBootEntry(w: nat, f: nat, low: nat)
    requires w == UXN + f * BY2PG + low && f < VPNS && low < BY2PG && Present(low)
    ensures Present(w) && FrameOf(w) == f
  {
    DivModUnique(w, BY2PG, UXN / BY2PG + f, low);
    DivModUnique(UXN / BY2PG + f, VPNS, UXN / BY2PG / VPNS, f);
  }

  lemma Pow2Of28()
    ensures Pow2(28) == VPNS
  {
    Pow2Values();
    assert Pow2(24) == 16 * Pow2(20);
  }

  // ---- boot_pgdir_walk ----

  /** One level: follow the entry or `boot_alloc` a zeroed table; `None` when RAM runs out. */
  ghost function EnsureTable(s: BootState, f: nat, i: nat): Option<(BootState, nat)>
    requires f in s.own && !s.own[f].PteTable? && f < |s.mem| && i < ENTRIES
  {
    if Next(s.mem, f, i).Some? then Some((s, Next(s.mem, f, i).value))
    else if s.next >= |s.mem| || s.next == f then None
    else
      var t := s.next;
      var mem := Store(s.mem[t := ZeroFrame()], f, i, BootTableEntry(t));
      Some((BootState(mem, t + 1, s.own[t := Child(s.own[f], i)]), t))
  }

  ghost predicate Grows(s: BootState, s': BootState) {
    && (forall f :: f in s.own ==> f in s'.own && s'.own[f] == s.own[f])
    && (forall f, i :: f in s.own && 0 <= i < ENTRIES && Next(s.mem, f, i).Some? ==>
        Next(s'.mem, f, i) == Next(s.mem, f, i))
    && (forall r, q :: IsRoot(s.own, r) && InRange(q) ==> Leaf(s'.mem, r, q) == Leaf(s.mem, r, q))
  }

  lemma GrowsTransitive(a: BootState, b: BootState, c: BootState)
    requires Grows(a, b) && Grows(b, c)
    ensures Grows(a, c)
  {
    assert forall r :: IsRoot(a.own, r) ==> IsRoot(b.own, r);
  }

  ghost predicate Reached(s: BootState, s': BootState, f: nat, i: nat, t: nat)
    requires f in s.own && !s.own[f].PteTable? && i < ENTRIES
  {
    && Inv(s') && Grows(s, s')
    && t in s'.own && s'.own[t] == Child(s.own[f], i) && Next(s'.mem, f, i) == Some(t)
    && s'.next == s.next + (if Next(s.mem, f, i).Some? then 0 else 1)
    && (forall g: nat, j: nat :: g in s.own && j < ENTRIES && (g != f || j != i) ==>
        Next(s'.mem, g, j) == Next(s.mem, g, j))
    && (Next(s.mem, f, i).None? ==> t !in s.own && forall j: nat :: j < ENTRIES ==> Next(s'.mem, t, j).None?)
  }

  lemma EnsureTableInv(s: BootState, f: nat, i: nat)
    requires Inv(s) && f in s.own && !s.own[f].PteTable? && i < ENTRIES
    ensures EnsureTable(s, f, i).None? ==> s.next == NPAGE
    ensures EnsureTable(s, f, i).Some? ==>
      Reached(s, EnsureTable(s, f, i).value.0, f, i, EnsureTable(s, f, i).value.1)
  {
    if Next(s.mem, f, i).None? && s.next < NPAGE {
      var t := s.next;
      var m := s.mem[t := ZeroFrame()];
      assert forall g, j :: g in s.own && 0 <= j < ENTRIES ==> Next(m, g, j) == Next(s.mem, g, j);
      BootTableEntryNamesTable(t);
      LinkKeepsTree(m, s.own, f, i, t, BootTableEntry(t));
      FreshTableKeepsLeaves(s, f, i, t, BootTableEntry(t));
    }
  }

  lemma FreshTableKeepsLeaves(s: BootState, f: nat, i: nat, t: nat, w: nat)
    requires Inv(s) && f in s.own && !s.own[f].PteTable? && i < ENTRIES && Next(s.mem, f, i).None?
    requires t < NPAGE && t !in s.own && Present(w) && FrameOf(w) == t
    ensures forall r, q :: IsRoot(s.own, r) && InRange(q) ==>
      Leaf(Store(s.mem[t := ZeroFrame()], f, i, w), r, q) == Leaf(s.mem, r, q)
  {
    var m := s.mem[t := ZeroFrame()];
    assert forall g, j :: g in s.own && 0 <= j < ENTRIES ==> Next(m, g, j) == Next(s.mem, g, j);
    forall r, q | IsRoot(s.own, r) && InRange(q)
      ensures Leaf(Store(m, f, i, w), r, q) == Leaf(s.mem, r, q)
    {
      ZeroKeepsWalks(s.mem, s.own, t, ZeroFrame(), r, q);
      LinkKeepsLeaves(m, s.own, f, i, t, w, r, q);
    }
  }

  ghost function WalkUpper(s: BootState, root: nat, g: nat, d: nat): Option<(BootState, nat)>
    requires Inv(s) && IsRoot(s.own, root) && g < ENTRIES && d < ENTRIES
  {
    EnsureTableInv(s, root, g);
    var a := EnsureTable(s, root, g);
    if a.None? then None
    else
      EnsureTableInv(a.value.0, a.value.1, d);
      EnsureTable(a.value.0, a.value.1, d)
  }

  ghost predicate UpperReached(s: BootState, s': BootState, root: nat, g: nat, d: nat, t: nat)
    requires g < ENTRIES && d < ENTRIES
  {
    && Inv(s') && Grows(s, s')
    && t in s'.own && s'.own[t] == PmeTable(root, g, d)
    && Next(s'.mem, root, g).Some? && Next(s'.mem, Next(s'.mem, root, g).value, d) == Some(t)
  }

  lemma WalkUpperInv(s: BootState, root: nat, g: nat, d: nat)
    requires Inv(s) && IsRoot(s.own, root) && g < ENTRIES && d < ENTRIES
    ensures WalkUpper(s, root, g, d).Some? ==>
      UpperReached(s, WalkUpper(s, root, g, d).value.0, root, g, d, WalkUpper(s, root, g, d).value.1)
  {
    EnsureTableInv(s, root, g);
    if EnsureTable(s, root, g).Some? {
      var (a, t1) := EnsureTable(s, root, g).value;
      EnsureTableInv(a, t1, d);
      if EnsureTable(a, t1, d).Some? {
        var (b, t2) := EnsureTable(a, t1, d).value;
        GrowsTransitive(s, a, b);
        assert Next(b.mem, root, g) == Some(t1);
      }
    }
  }

  /** `boot_pgdir_walk`: the state after it and the last-level table of the address. */
  ghost function Walk(s: BootState, root: nat, p: Path): Option<(BootState, nat)>
    requires Inv(s) && IsRoot(s.own, root) && InRange(p)
  {
    WalkUpperInv(s, root, p.g, p.d);
    var b := WalkUpper(s, root, p.g, p.d);
    if b.None? then None else EnsureTable(b.value.0, b.value.1, p.m)
  }

  ghost predicate WalkReached(s: BootState, s': BootState, root: nat, p: Path, t: nat)
    requires InRange(p)
  {
    && Inv(s') && Grows(s, s')
    && LeafTable(s'.mem, root, p) == Some(t)
    && t in s'.own && s'.own[t] == PteTable(root, p.g, p.d, p.m)
  }

  lemma WalkInv(s: BootState, root: nat, p: Path)
    requires Inv(s) && IsRoot(s.own, root) && InRange(p)
    ensures Walk(s, root, p).Some? ==>
      WalkReached(s, Walk(s, root, p).value.0, root, p, Walk(s, root, p).value.1)
  {
    WalkUpperInv(s, root, p.g, p.d);
    if WalkUpper(s, root, p.g, p.d).Some? {
      var (b, t2) := WalkUpper(s, root, p.g, p.d).value;
      EnsureTableInv(b, t2, p.m);
      if EnsureTable(b, t2, p.m).Some? {
        var (c, t3) := EnsureTable(b, t2, p.m).value;
        LastLevel(s, b, c, root, p, t2, t3);
      }
    }
  }

  lemma LastLevel(s: BootState, b: BootState, c: BootState, root: nat, p: Path, t2: nat, t3: nat)
    requires InRange(p) && UpperReached(s, b, root, p.g, p.d, t2) && Reached(b, c, t2, p.m, t3)
    requires OwnedInside(b.mem, b.own) && Linked(b.mem, b.own) && IsRoot(b.own, root)
    ensures WalkReached(s, c, root, p, t3)
  {
    GrowsTransitive(s, b, c);
    var t1 := Next(b.mem, root, p.g).value;
    assert Next(c.mem, root, p.g) == Some(t1);
    assert Next(c.mem, t1, p.d) == Some(t2);
  }

  // ---- boot_map_segment ----

  /** One page of `boot_map_segment`. */
  ghost function MapPage(s: BootState, root: nat, p: Path, w: nat): Option<BootState>
    requires Inv(s) && IsRoot(s.own, root) && InRange(p)
  {
    WalkInv(s, root, p);
    match Walk(s, root, p)
    case None => None
    case Some((a, t)) => Some(a.(mem := Store(a.mem, t, p.t, w)))
  }

  /** Mapping a page takes at most three tables and fails only for want of them. */
  lemma MapPageTakes(s: BootState, root: nat, p: Path, w: nat)
    requires Inv(s) && IsRoot(s.own, root) && InRange(p)
    ensures MapPage(s, root, p, w).None? ==> s.next + 3 > NPAGE
    ensures MapPage(s, root, p, w).Some? ==> MapPage(s, root, p, w).value.next <= s.next + 3
  {
    EnsureTableInv(s, root, p.g);
    if EnsureTable(s, root, p.g).Some? {
      var (a, t1) := EnsureTable(s, root, p.g).value;
      EnsureTableInv(a, t1, p.d);
      if EnsureTable(a, t1, p.d).Some? {
        var (b, t2) := EnsureTable(a, t1, p.d).value;
        EnsureTableInv(b, t2, p.m);
      }
    }
  }

  lemma MapPageInv(s: BootState, root: nat, p: Path, w: nat)
    requires Inv(s) && IsRoot(s.own, root) && InRange(p) && Present(w) && MapPage(s, root, p, w).Some?
    ensures var s' := MapPage(s, root, p, w).value;
      && Inv(s') && (forall f :: f in s.own ==> f in s'.own && s'.own[f] == s.own[f])
      && (forall r, q :: IsRoot(s.own, r) && InRange(q) ==>
            Leaf(s'.mem, r, q) == if r == root && q == p then Some(w) else Leaf(s.mem, r, q))
  {
    WalkInv(s, root, p);
    var (a, t) := Walk(s, root, p).value;
    StoreLeafKeepsTables(a.mem, a.own, t, p.t, w);
    forall r, q | IsRoot(s.own, r) && InRange(q)
      ensures Leaf(Store(a.mem, t, p.t, w), r, q) == if r == root && q == p then Some(w) else Leaf(s.mem, r, q)
    {
      assert IsRoot(a.own, root) && IsRoot(a.own, r);
      StoreLeaf(a.mem, a.own, root, p, w, r, q);
    }
  }

  /** The flat map with `k` pages from `n` on replaced by the entries for `pa` on. */
  ghost predicate RangeMapped(m0: map<nat, nat>, m: map<nat, nat>, n: nat, pa: nat, perm: nat, k: nat) {
    && (forall j: nat :: j < k ==> PageOfRange(m, n, pa, perm, j))
    && (forall i: nat :: !(n <= i < n + k) ==> SamePage(m0, m, i))
  }

  /** Page `j` of the range that starts at page `n` and at physical address `pa`. */
  ghost predicate PageOfRange(m: map<nat, nat>, n: nat, pa: nat, perm: nat, j: nat) {
    PageMapped(m, n + j, pa + j * BY2PG, perm)
  }

  ghost predicate PageMapped(m: map<nat, nat>, i: nat, pa: nat, perm: nat) {
    i in m && m[i] == BootEntry(pa, perm)
  }

  lemma PageStep(a: BootState, b: BootState, root: nat, va: nat, w: nat)
    requires Inv(a) && IsRoot(a.own, root) && Present(w) && MapPage(a, root, PathOf(va), w) == Some(b)
    ensures AddressSpace(b.mem, root) == AddressSpace(a.mem, root)[VPN(va) := w]
    ensures forall r :: IsRoot(a.own, r) && r != root ==> AddressSpace(b.mem, r) == AddressSpace(a.mem, r)
    ensures Inv(b) && forall f :: f in a.own ==> f in b.own && b.own[f] == a.own[f]
  {
    MapPageInv(a, root, PathOf(va), w);
    LeafUpdateIsMapUpdate(a.mem, b.mem, root, va, Some(w));
    forall r | IsRoot(a.own, r) && r != root
      ensures AddressSpace(b.mem, r) == AddressSpace(a.mem, r)
    {
      SameLeavesSameMap(a.mem, b.mem, r);
    }
  }

  /** `boot_map_segment` after `k` pages: those pages map the range, and nothing else changed. */
  ghost predicate SegmentMapped(s: BootState, s': BootState, root: nat, va: nat, pa: nat, perm: nat, k: nat) {
    PagesMapped(s, s', root, VPN(va), pa, perm, k)
  }

  ghost predicate PagesMapped(s: BootState, s': BootState, root: nat, n: nat, pa: nat, perm: nat, k: nat) {
    && Inv(s') && IsRoot(s.own, root)
    && (forall f :: f in s.own ==> f in s'.own && s'.own[f] == s.own[f])
    && RangeMapped(AddressSpace(s.mem, root), AddressSpace(s'.mem, root), n, pa, perm, k)
    && (forall r :: IsRoot(s.own, r) && r != root ==> AddressSpace(s'.mem, r) == AddressSpace(s.mem, r))
  }

  lemma SegmentStep(s: BootState, a: BootState, b: BootState, root: nat, n: nat, pa: nat, perm: nat, k: nat, at: nat,
                    w: nat)
    requires Inv(a) && PagesMapped(s, a, root, n, pa, perm, k) && IsRoot(a.own, root)
    requires VPN(at) == n + k && w == BootEntry(pa + k * BY2PG, perm) && Present(w)
    requires MapPage(a, root, PathOf(at), w) == Some(b)
    ensures PagesMapped(s, b, root, n, pa, perm, k + 1)
  {
    PageStep(a, b, root, at, w);
    PagesGrow(s, a, b, root, n, pa, perm, k, w);
  }

  lemma PagesGrow(s: BootState, a: BootState, b: BootState, root: nat, n: nat, pa: nat, perm: nat, k: nat, w: nat)
    requires PagesMapped(s, a, root, n, pa, perm, k) && Inv(b) && w == BootEntry(pa + k * BY2PG, perm)
    requires AddressSpace(b.mem, root) == AddressSpace(a.mem, root)[n + k := w]
    requires forall r :: IsRoot(a.own, r) && r != root ==> AddressSpace(b.mem, r) == AddressSpace(a.mem, r)
    requires forall f :: f in a.own ==> f in b.own && b.own[f] == a.own[f]
    ensures PagesMapped(s, b, root, n, pa, perm, k + 1)
  {
    RangeGrows(AddressSpace(s.mem, root), AddressSpace(a.mem, root), AddressSpace(b.mem, root), n, pa, perm, k);
    OthersThrough(s, a, b, root);
  }

  /** Two steps that leave the other directories alone leave them alone together. */
  lemma OthersThrough(s: BootState, a: BootState, b: BootState, root: nat)
    requires forall f :: f in s.own ==> f in a.own && a.own[f] == s.own[f]
    requires forall r :: IsRoot(s.own, r) && r != root ==> AddressSpace(a.mem, r) == AddressSpace(s.mem, r)
    requires forall r :: IsRoot(a.own, r) && r != root ==> AddressSpace(b.mem, r) == AddressSpace(a.mem, r)
    ensures forall r :: IsRoot(s.own, r) && r != root ==> AddressSpace(b.mem, r) == AddressSpace(s.mem, r)
  {
    assert forall r :: IsRoot(s.own, r) ==> IsRoot(a.own, r);
  }

  lemma RangeGrows(m0: map<nat, nat>, m: map<nat, nat>, m': map<nat, nat>, n: nat, pa: nat, perm: nat, k: nat)
    requires RangeMapped(m0, m, n, pa, perm, k) && m' == m[n + k := BootEntry(pa + k * BY2PG, perm)]
    ensures RangeMapped(m0, m', n, pa, perm, k + 1)
  {
    forall j: nat | j < k + 1
      ensures PageOfRange(m', n, pa, perm, j)
    {
      assert j < k ==> PageOfRange(m, n, pa, perm, j);
    }
    forall i: nat | !(n <= i < n + k + 1)
      ensures SamePage(m0, m', i)
    {
      assert SamePage(m0, m, i);
    }
  }

  /** Advancing an address by whole pages advances its page number, and the frame it names. */
  lemma PageAfter(va: nat, j: nat)
    requires VPN(va) + j < VPNS
    ensures VPN(va + j * BY2PG) == VPN(va) + j
    ensures FrameOf(va + j * BY2PG) == VPN(va) + j
  {
    DivModSplit(va, BY2PG, VPNS);
    DivModSplit(va + j * BY2PG, BY2PG, VPNS);
    assert (va + j * BY2PG) / BY2PG == va / BY2PG + j;
    var q, n := va / BY2PG / VPNS, va / BY2PG % VPNS;
    DivModUnique(va / BY2PG + j, VPNS, q, n + j);
    assert VPN(va) == n by { VpnIsFrame(va); }
    VpnIsFrame(va + j * BY2PG);
  }

  lemma VpnIsFrame(va: nat)
    ensures VPN(va) == FrameOf(va)
  {
    DivModSplit(va, BY2PG, VPNS);
    DivModUnique(va % (BY2PG * VPNS), BY2PG, va / BY2PG % VPNS, va % BY2PG);
  }

  // ---- how many tables ----

  /**
   The tables that map the first `n` pages, besides the root: one of each upper level, one leaf table for 512
   pages.
   */
  function TablesFor(n: nat): nat {
    if n == 0 then 0 else 2 + (n + 511) / 512
  }

  const GIGABYTE_PAGES: nat := 0x4_0000

  ghost predicate Empty(s: BootState, t: nat) {
    forall j: nat :: j < ENTRIES ==> Next(s.mem, t, j).None?
  }

  /** Exactly the leaf tables of the first `n` pages hang below `t`. */
  ghost predicate Filled(s: BootState, t: nat, n: nat) {
    forall j: nat :: j < ENTRIES ==> (Next(s.mem, t, j).Some? <==> j * 512 < n)
  }

  /** The first `n` pages were mapped in order, and nothing else was allocated since `base`. */
  ghost predicate InOrder(s: BootState, root: nat, base: nat, n: nat) {
    && Inv(s) && IsRoot(s.own, root) && n <= GIGABYTE_PAGES
    && s.next == base + TablesFor(n)
    && if n == 0 then Empty(s, root)
       else
         && Next(s.mem, root, 0).Some?
         && var t1 := Next(s.mem, root, 0).value;
            && Next(s.mem, t1, 0).Some?
            && Filled(s, Next(s.mem, t1, 0).value, n)
  }

  lemma InOrderUpper(s: BootState, root: nat, base: nat, n: nat)
    requires InOrder(s, root, base, n) && WalkUpper(s, root, 0, 0).Some?
    ensures var (b, t2) := WalkUpper(s, root, 0, 0).value;
      && Filled(b, t2, n) && b.next == base + (if n == 0 then 2 else TablesFor(n))
  {
    EnsureTableInv(s, root, 0);
    var (a, t1) := EnsureTable(s, root, 0).value;
    EnsureTableInv(a, t1, 0);
    var (b, t2) := EnsureTable(a, t1, 0).value;
    if n == 0 {
      assert Next(a.mem, t1, 0).None?;
    } else {
      assert a == s && b == s;
    }
  }

  lemma InOrderWalk(s: BootState, root: nat, base: nat, n: nat, p: Path)
    requires InOrder(s, root, base, n) && n < GIGABYTE_PAGES && p == Path(0, 0, n / 512, n % 512)
    requires Walk(s, root, p).Some?
    ensures var (c, t3) := Walk(s, root, p).value;
      InOrder(c, root, base, n + 1) && t3 in c.own && c.own[t3].PteTable?
  {
    WalkUpperInv(s, root, 0, 0);
    InOrderUpper(s, root, base, n);
    var (b, t2) := WalkUpper(s, root, 0, 0).value;
    EnsureTableInv(b, t2, n / 512);
    var (c, t3) := EnsureTable(b, t2, n / 512).value;
    WalkInv(s, root, p);
    assert Filled(c, t2, n + 1) by {
      forall j: nat | j < ENTRIES
        ensures Next(c.mem, t2, j).Some? <==> j * 512 < n + 1
      {
        if j != n / 512 {
          assert Next(c.mem, t2, j) == Next(b.mem, t2, j);
        }
      }
    }
  }

  /** Storing a leaf entry changes no table above the last level. */
  lemma InOrderStore(c: BootState, root: nat, base: nat, n: nat, t: nat, i: nat, w: nat)
    requires InOrder(c, root, base, n) && n > 0 && t in c.own && c.own[t].PteTable? && i < ENTRIES
    ensures InOrder(c.(mem := Store(c.mem, t, i, w)), root, base, n)
  {
    var s := c.(mem := Store(c.mem, t, i, w));
    StoreLeafKeepsTables(c.mem, c.own, t, i, w);
    var t1 := Next(c.mem, root, 0).value;
    var t2 := Next(c.mem, t1, 0).value;
    assert c.own[t1] == PdeTable(root, 0) && c.own[t2] == PmeTable(root, 0, 0);
    assert forall g, j :: g in c.own && g != t && 0 <= j < ENTRIES ==> Next(s.mem, g, j) == Next(c.mem, g, j);
  }

  lemma InOrderStep(s: BootState, root: nat, base: nat, n: nat, w: nat)
    requires InOrder(s, root, base, n) && n < GIGABYTE_PAGES
    requires MapPage(s, root, PathOf(n * BY2PG), w).Some?
    ensures InOrder(MapPage(s, root, PathOf(n * BY2PG), w).value, root, base, n + 1)
  {
    PathInFirstGigabyte(n);
    var p := Path(0, 0, n / 512, n % 512);
    InOrderWalk(s, root, base, n, p);
    var (c, t3) := Walk(s, root, p).value;
    WalkInv(s, root, p);
    InOrderStore(c, root, base, n + 1, t3, p.t, w);
  }

  lemma PathInFirstGigabyte(n: nat)
    requires n < GIGABYTE_PAGES
    ensures PathOf(n * BY2PG) == Path(0, 0, n / 512, n % 512)
  {
  }

  /** Mapping the first gigabyte in order never runs out of room below `base + 514`. */
  lemma InOrderRoom(s: BootState, root: nat, base: nat, n: nat, w: nat)
    requires InOrder(s, root, base, n) && n < GIGABYTE_PAGES && base + 514 < NPAGE
    ensures MapPage(s, root, PathOf(n * BY2PG), w).Some?
  {
    PathInFirstGigabyte(n);
    EnsureTableInv(s, root, 0);
    var (a, t1) := EnsureTable(s, root, 0).value;
    EnsureTableInv(a, t1, 0);
    InOrderUpper(s, root, base, n);
    var (b, t2) := WalkUpper(s, root, 0, 0).value;
    WalkUpperInv(s, root, 0, 0);
    EnsureTableInv(b, t2, n / 512);
  }

  // ---- the code ----

  function PagesIn(size: nat): nat {
    (size + BY2PG - 1) / BY2PG
  }

  class BootMemory {
    const mem: array<Frame>
    var freemem: nat
    ghost var own: Owners

    ghost predicate Shaped()
      reads this, mem
    {
      mem.Length == NPAGE
    }

    ghost function State(): BootState
      reads this, mem
      requires Shaped()
    {
      BootState(mem[..], freemem, own)
    }

    ghost predicate Valid()
      reads this, mem
    {
      Shaped() && Inv(State())
    }

    constructor ()
      ensures Shaped() && fresh(mem)
    {
      mem := new Frame[NPAGE];
      freemem := 0;
      own := map[];
    }

    /** `boot_alloc` of one cleared page; `None` when `freemem` has left physical memory. */
    method BootAlloc() returns (t: Option<nat>)
      requires Shaped()
      modifies this`freemem, mem
      ensures Shaped()
      ensures t.None? <==> old(freemem) >= NPAGE
      ensures t.None? ==> State() == old(State())
      ensures t.Some? ==> t.value == old(freemem)
      ensures t.Some? ==> State() == BootState(old(State()).mem[t.value := ZeroFrame()], t.value + 1, old(own))
    {
      if freemem >= NPAGE {
        return None;
      }
      t := Some(freemem);
      freemem := freemem + 1;
      mem[t.value] := ZeroFrame();
    }

    /** One level of `boot_pgdir_walk`. */
    method NextTable(f: nat, i: nat) returns (next: Option<nat>)
      requires Valid() && f in own && !own[f].PteTable? && i < ENTRIES
      modifies this`freemem, this`own, mem
      ensures Valid()
      ensures next.None? ==> EnsureTable(old(State()), f, i).None?
      ensures next.Some? ==> EnsureTable(old(State()), f, i) == Some((State(), next.value))
    {
      ghost var s := State();
      EnsureTableInv(s, f, i);
      if Present(mem[f][i]) {
        return Some(FrameOf(mem[f][i]));
      }
      next := BootAlloc();
      if next.Some? {
        mem[f] := mem[f][i := BootTableEntry(next.value)];
        own := own[next.value := Child(own[f], i)];
      }
    }

    /** `boot_pgdir_walk`: the last-level table of `va`. */
    method BootPgdirWalk(pgdir: nat, va: nat) returns (table: Option<nat>)
      requires Valid() && IsRoot(own, pgdir)
      modifies this`freemem, this`own, mem
      ensures Valid()
      ensures table.None? ==> Walk(old(State()), pgdir, PathOf(va)).None?
      ensures table.Some? ==> Walk(old(State()), pgdir, PathOf(va)) == Some((State(), table.value))
    {
      ghost var s, p := State(), PathOf(va);
      table := NextTable(pgdir, PGX(va));
      EnsureTableInv(s, pgdir, p.g);
      if table.None? { return; }
      table := NextTable(table.value, PDX(va));
      WalkUpperInv(s, pgdir, p.g, p.d);
      if table.None? { return; }
      table := NextTable(table.value, PMX(va));
    }

    /** One turn of the loop of `boot_map_segment`. */
    method MapOnePage(pgdir: nat, va: nat, w: nat) returns (ok: bool)
      requires Valid() && IsRoot(own, pgdir) && Present(w)
      modifies this`freemem, this`own, mem
      ensures Valid() && (ok ==> IsRoot(own, pgdir))
      ensures !ok ==> MapPage(old(State()), pgdir, PathOf(va), w).None?
      ensures ok ==> MapPage(old(State()), pgdir, PathOf(va), w) == Some(State())
      ensures if ok then freemem <= old(freemem) + 3 else old(freemem) + 3 > NPAGE
    {
      ghost var s := State();
      MapPageTakes(s, pgdir, PathOf(va), w);
      WalkInv(s, pgdir, PathOf(va));
      var table := BootPgdirWalk(pgdir, va);
      if table.None? {
        return false;
      }
      mem[table.value] := mem[table.value][PTX(va) := w];
      MapPageInv(s, pgdir, PathOf(va), w);
      ok := true;
    }

    /**
     `boot_map_segment`; false when the tables do not fit in memory.  When `base` is given, the call
     continues an in-order mapping of the first gigabyte: it cannot fail, and it allocates only the
     tables that order needs.
     */
    method BootMapSegment(pgdir: nat, va: nat, size: nat, pa: nat, perm: nat, ghost base: Option<nat>)
      returns (ok: bool)
      requires Valid() && IsRoot(own, pgdir) && perm < BY2PG && VPN(va) + PagesIn(size) <= VPNS
      requires size <= 0x7FFF_F000  // beyond, the `int` counter of the loop overflows
      requires base.Some? ==> Continues(State(), pgdir, base.value, va, PagesIn(size))
      modifies this`freemem, this`own, mem
      ensures Valid()
      ensures ok ==> SegmentMapped(old(State()), State(), pgdir, va, pa, perm, PagesIn(size))
      ensures !ok ==> old(freemem) + 3 * PagesIn(size) > NPAGE
      ensures base.Some? ==> ok && InOrder(State(), pgdir, base.value, VPN(va) + PagesIn(size))
    {
      ghost var s, n := State(), VPN(va);
      var i, k := 0, 0;
      while i < size
        invariant i == k * BY2PG && k <= PagesIn(size) && freemem <= old(freemem) + 3 * k
        invariant Valid() && IsRoot(own, pgdir) && PagesMapped(s, State(), pgdir, n, pa, perm, k)
        invariant base.Some? ==> InOrder(State(), pgdir, base.value, n + k)
        decreases size - i
      {
        ok := MapSegmentPage(pgdir, va, pa, perm, k, n, s, base);
        if !ok {
          return;
        }
        i, k := i + BY2PG, k + 1;
      }
      ok := true;
    }

    /** Turn `k` for the segment that starts at page `n`. */
    method MapSegmentPage(pgdir: nat, va: nat, pa: nat, perm: nat, k: nat, ghost n: nat, ghost s: BootState,
                          ghost base: Option<nat>)
      returns (ok: bool)
      requires Valid() && IsRoot(own, pgdir) && PagesMapped(s, State(), pgdir, n, pa, perm, k)
      requires perm < BY2PG && n == VPN(va) && n + k < VPNS
      requires base.Some? ==> OrderedTurn(State(), pgdir, base.value, va, n, k)
      modifies this`freemem, this`own, mem
      ensures Valid() && (ok ==> IsRoot(own, pgdir))
      ensures ok ==> PagesMapped(s, State(), pgdir, n, pa, perm, k + 1)
      ensures if ok then freemem <= old(freemem) + 3 else old(freemem) + 3 > NPAGE
      ensures base.Some? ==> ok && InOrder(State(), pgdir, base.value, n + k + 1)
    {
      var at := TurnAddress(va, k, n);
      var w := TurnEntry(pa, perm, k);
      TurnPossible(State(), pgdir, va, n, k, at, w, base);
      ok := MapEntry(pgdir, at, w, n, k, pa, perm, s, base);
    }

    method MapEntry(pgdir: nat, at: nat, w: nat, ghost n: nat, ghost k: nat, ghost pa: nat, ghost perm: nat,
                    ghost s: BootState, ghost base: Option<nat>)
      returns (ok: bool)
      requires Valid() && IsRoot(own, pgdir) && PagesMapped(s, State(), pgdir, n, pa, perm, k)
      requires VPN(at) == n + k && w == BootEntry(pa + k * BY2PG, perm) && Present(w)
      requires base.Some? ==> MapsInOrder(State(), pgdir, base.value, n + k, at, w)
      modifies this`freemem, this`own, mem
      ensures Valid() && (ok ==> IsRoot(own, pgdir))
      ensures ok ==> PagesMapped(s, State(), pgdir, n, pa, perm, k + 1)
      ensures if ok then freemem <= old(freemem) + 3 else old(freemem) + 3 > NPAGE
      ensures base.Some? ==> ok && InOrder(State(), pgdir, base.value, n + k + 1)
    {
      ghost var a := State();
      ok := MapOnePage(pgdir, at, w);
      if ok {
        SegmentStep(s, a, State(), pgdir, n, pa, perm, k, at, w);
      }
    }

    /** `vm_init`: memory below 0x20000000 mapped as normal, the next half gigabyte as device memory. */
    method VmInit() returns (pgdir: nat)
      requires Shaped()
      modifies this`freemem, this`own, mem
      ensures Valid() && FirstGigabyte(AddressSpace(State().mem, pgdir))
      ensures pgdir == KSTACKTOP_FRAME && freemem == KSTACKTOP_FRAME + 515 <= KERNEL_PAGES_START
    {
      freemem := KSTACKTOP_FRAME;
      var root := BootAlloc();
      pgdir := root.value;
      own := map[pgdir := Directory(pgdir)];
      ghost var s0 := State();
      FreshRoot(s0, pgdir);
      MapHalves(pgdir);
    }

    /** The two `boot_map_segment` calls of `vm_init`. */
    method MapHalves(pgdir: nat)
      requires Valid() && InOrder(State(), pgdir, KSTACKTOP_FRAME + 1, 0) && AddressSpace(State().mem, pgdir) == map[]
      modifies this`freemem, this`own, mem
      ensures Valid() && InOrder(State(), pgdir, KSTACKTOP_FRAME + 1, GIGABYTE_PAGES)
      ensures FirstGigabyte(AddressSpace(State().mem, pgdir))
    {
      var n := 0x2000_0000;
      ghost var s0 := State();
      ghost var base := Some(KSTACKTOP_FRAME + 1);
      var ok := BootMapSegment(pgdir, 0, n, 0, ATTRINDX_NORMAL, base);
      ghost var s1 := State();
      ok := BootMapSegment(pgdir, n, n, n, ATTRINDX_DEVICE, base);
      TwoHalves(AddressSpace(s0.mem, pgdir), AddressSpace(s1.mem, pgdir), AddressSpace(State().mem, pgdir));
    }
  }

  ghost predicate Continues(s: BootState, root: nat, base: nat, va: nat, pages: nat) {
    && InOrder(s, root, base, VPN(va)) && va == VPN(va) * BY2PG
    && VPN(va) + pages <= GIGABYTE_PAGES && base + 514 < NPAGE
  }

  ghost predicate OrderedTurn(s: BootState, root: nat, base: nat, va: nat, n: nat, k: nat) {
    InOrder(s, root, base, n + k) && va == n * BY2PG && n + k < GIGABYTE_PAGES && base + 514 < NPAGE
  }

  /** Mapping page `i` is possible and leaves the first `i + 1` pages mapped in order. */
  ghost predicate MapsInOrder(s: BootState, root: nat, base: nat, i: nat, at: nat, w: nat)
    requires Inv(s) && IsRoot(s.own, root)
  {
    var r := MapPage(s, root, PathOf(at), w);
    r.Some? && InOrder(r.value, root, base, i + 1)
  }

  /** In the order of the first gigabyte a turn cannot fail. */
  lemma TurnPossible(s: BootState, root: nat, va: nat, n: nat, k: nat, at: nat, w: nat, base: Option<nat>)
    requires Inv(s) && IsRoot(s.own, root) && at == va + k * BY2PG
    requires base.Some? ==> OrderedTurn(s, root, base.value, va, n, k)
    ensures base.Some? ==> MapsInOrder(s, root, base.value, n + k, at, w)
  {
    if base.Some? {
      OrderedStepAt(s, root, base.value, n + k, at, w);
    }
  }

  /** Where turn `k` of a segment maps. */
  method TurnAddress(va: nat, k: nat, ghost n: nat) returns (at: nat)
    requires n == VPN(va) && n + k < VPNS
    ensures at == va + k * BY2PG && VPN(at) == n + k
  {
    at := va + k * BY2PG;
    PageAfter(va, k);
  }

  /** The entry a turn stores for the page at `pa`. */
  method EntryFor(pa: nat, perm: nat) returns (w: nat)
    requires perm < BY2PG
    ensures w == BootEntry(pa, perm) && Present(w)
  {
    w := BootEntry(pa, perm);
    BootEntryNamesPage(pa, perm);
  }

  /** What turn `k` of a segment stores. */
  method TurnEntry(pa: nat, perm: nat, k: nat) returns (w: nat)
    requires perm < BY2PG
    ensures w == BootEntry(pa + k * BY2PG, perm) && Present(w)
  {
    w := EntryFor(pa + k * BY2PG, perm);
  }

  lemma OrderedStepAt(s: BootState, root: nat, base: nat, n: nat, at: nat, w: nat)
    requires InOrder(s, root, base, n) && n < GIGABYTE_PAGES && base + 514 < NPAGE && at == n * BY2PG
    ensures MapPage(s, root, PathOf(at), w).Some?
    ensures InOrder(MapPage(s, root, PathOf(at), w).value, root, base, n + 1)
  {
    InOrderRoom(s, root, base, n, w);
    InOrderStep(s, root, base, n, w);
  }

  lemma FreshRoot(s: BootState, root: nat)
    requires |s.mem| == NPAGE && root < NPAGE && s.next == root + 1
    requires s.own == map[root := Directory(root)] && s.mem[root] == ZeroFrame()
    ensures InOrder(s, root, root + 1, 0) && AddressSpace(s.mem, root) == map[]
  {
    assert forall j: nat :: j < ENTRIES ==> Next(s.mem, root, j).None?;
    assert forall n: nat :: n < VPNS ==> PageLeaf(s.mem, root, n).None?;
    FlatMapIs(map[], s.mem, root);
  }

  /**
   Page `n` of the first gigabyte maps to physical page `n`, with the attribute of its half; no other page is
   mapped.
   */
  ghost predicate FirstGigabyte(m: map<nat, nat>) {
    && (forall n: nat :: n < 0x2_0000 ==> PageMapped(m, n, n * BY2PG, ATTRINDX_NORMAL))
    && (forall n: nat :: 0x2_0000 <= n < GIGABYTE_PAGES ==> PageMapped(m, n, n * BY2PG, ATTRINDX_DEVICE))
    && (forall n: nat :: n in m ==> n < GIGABYTE_PAGES)
  }

  lemma TwoHalves(m0: map<nat, nat>, m1: map<nat, nat>, m2: map<nat, nat>)
    requires m0 == map[]
    requires RangeMapped(m0, m1, 0, 0, ATTRINDX_NORMAL, 0x2_0000)
    requires RangeMapped(m1, m2, 0x2_0000, 0x2000_0000, ATTRINDX_DEVICE, 0x2_0000)
    ensures FirstGigabyte(m2)
  {
    HalvesJoin(m0, m1, m2, ATTRINDX_NORMAL, ATTRINDX_DEVICE);
  }

  lemma HalvesJoin(m0: map<nat, nat>, m1: map<nat, nat>, m2: map<nat, nat>, low: nat, high: nat)
    requires m0 == map[]
    requires RangeMapped(m0, m1, 0, 0, low, 0x2_0000)
    requires RangeMapped(m1, m2, 0x2_0000, 0x2000_0000, high, 0x2_0000)
    ensures forall n: nat :: n < GIGABYTE_PAGES ==> PageMapped(m2, n, n * BY2PG, if n < 0x2_0000 then low else high)
    ensures forall n: nat :: n in m2 ==> n < GIGABYTE_PAGES
  {
    forall n: nat | n < GIGABYTE_PAGES
      ensures PageMapped(m2, n, n * BY2PG, if n < 0x2_0000 then low else high)
    {
      if n < 0x2_0000 {
        assert PageOfRange(m1, 0, 0, low, n);
        assert SamePage(m1, m2, n);
      } else {
        var j: nat := n - 0x2_0000;
        assert PageOfRange(m2, 0x2_0000, 0x2000_0000, high, j);
        assert 0x2000_0000 + j * BY2PG == n * BY2PG;
      }
    }
    forall n: nat | n >= GIGABYTE_PAGES
      ensures n !in m2
    {
      assert SamePage(m1, m2, n) && SamePage(m0, m1, n);
    }
    assert forall n: nat :: n in m2 ==> n < GIGABYTE_PAGES;
  }
}
