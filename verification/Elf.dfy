/**
 Loading a program: `load_elf` walks the program headers and `load_icode_mapper` builds each
 loadable segment page by page.  The claim is the memory image the ELF specification asks for
 (System V ABI, chapter 5, "Program Header").
 */
module Elf {
  import opened Options
  import opened Mmu
  import opened PageTable
  import opened FrameState
  import opened PageMap
  import opened Spaces
  import opened Pmap
  import opened PageRuns
  import opened Bytes

  const SHT_PROGBITS: nat := 1

  /** The fields of a program header that the loader reads. */
  datatype Phdr = Phdr(ptype: nat, offset: nat, vaddr: nat, filesz: nat, memsz: nat)

  // ---- what a loaded page holds ----

  /** Page `n` of the address space of `root` is mapped and holds `content`. */
  ghost predicate PageHolds(s: PmState, root: nat, n: nat, content: Frame) {
    && n in AddressSpace(s.mem, root)
    && var f := FrameOf(AddressSpace(s.mem, root)[n]);
       f < |s.mem| && s.mem[f] == content
  }

  /** Page `n` was added with the given content; everything else is as it was. */
  ghost predicate PageAdded(s: PmState, s': PmState, root: nat, n: nat, content: Frame) {
    && Beside(s, s', root) && IsRoot(s.own, root) && IsRoot(s'.own, root)
    && PageHolds(s', root, n, content)
    && (forall m: nat :: m != n ==> SamePage(AddressSpace(s.mem, root), AddressSpace(s'.mem, root), m))
  }

  /** Page `n` is mapped as it was, and holds what it held. */
  ghost predicate PageKept(s: PmState, s': PmState, root: nat, n: nat) {
    && SamePage(AddressSpace(s.mem, root), AddressSpace(s'.mem, root), n)
    && (n in AddressSpace(s.mem, root) ==>
          var f := FrameOf(AddressSpace(s.mem, root)[n]);
          f < |s.mem| && f < |s'.mem| && s'.mem[f] == s.mem[f])
  }

  lemma KeptPageHolds(s: PmState, s': PmState, root: nat, n: nat, content: Frame)
    requires PageKept(s, s', root, n) && PageHolds(s, root, n, content)
    ensures PageHolds(s', root, n, content)
  {
  }

  lemma AllKept(s: PmState, root: nat)
    requires Inv(s) && IsRoot(s.own, root)
    ensures forall n: nat :: PageKept(s, s, root, n)
  {
    forall n: nat
      ensures PageKept(s, s, root, n)
    {
      if n in AddressSpace(s.mem, root) {
        MappedFrameIsData(s, root, n);
      }
    }
  }

  /** Adding one page keeps every other page. */
  lemma AddingKeepsPages(s: PmState, s': PmState, root: nat, n: nat, content: Frame)
    requires PageAdded(s, s', root, n, content)
    ensures forall m: nat :: m != n ==> PageKept(s, s', root, m)
  {
    forall m: nat | m != n
      ensures PageKept(s, s', root, m)
    {
      assert SamePage(AddressSpace(s.mem, root), AddressSpace(s'.mem, root), m);
      if m in AddressSpace(s.mem, root) {
        MappedFrameIsData(s, root, m);
      }
    }
  }

  /** `page_insert`, then the copy into the page. */
  ghost function InsertFilled(b: PmState, root: nat, f: nat, va: nat, content: Frame): Option<PmState>
    requires Inv(b) && IsRoot(b.own, root) && f < NPAGE
  {
    InsertTakes(b, root, f, va, ATTRIB_AP_RW_ALL);
    match Insert(b, root, f, va, ATTRIB_AP_RW_ALL)
    case None => None
    case Some(c) => Some(c.(mem := c.mem[f := content]))
  }

  /** `page_alloc` and `pp_ref++` before that. */
  ghost function AddPage(s: PmState, root: nat, va: nat, content: Frame): Option<PmState>
    requires Inv(s) && IsRoot(s.own, root)
  {
    if s.free == [] then None
    else
      AddReady(s, root);
      var (a, f) := Alloc(s).value;
      InsertFilled(CountUp(a, f), root, f, va, content)
  }

  lemma AddReady(s: PmState, root: nat)
    requires Inv(s) && IsRoot(s.own, root) && s.free != []
    ensures Alloc(s).Some?
    ensures var (a, f) := Alloc(s).value; var b := CountUp(a, f);
      && f in s.free && Inv(b) && IsRoot(b.own, root) && Mappable(b, f, ATTRIB_AP_RW_ALL) && IsData(b, f)
      && Beside(s, b, root) && AddressSpace(b.mem, root) == AddressSpace(s.mem, root)
      && Inv(a) && Mappable(a, f, 0) && Overcounted(b, f)
  {
    AllocInv(s);
    var (a, f) := Alloc(s).value;
    ExtendsBeside(s, a, root);
    CountUpInv(a, f);
    CountUpBeside(s, a, root, f);
  }

  lemma CountUpBeside(s: PmState, a: PmState, root: nat, f: nat)
    requires Beside(s, a, root) && Mappable(a, f, 0)
    ensures Beside(s, CountUp(a, f), root)
  {
    CountUpInv(a, f);
    forall q: nat | Overcounted(s, q)
      ensures Overcounted(CountUp(a, f), q)
    {
      OvercountedCountUp(a, f, q);
    }
  }

  /** A page takes at most four frames: its own and three tables. */
  lemma AddPageTakes(s: PmState, root: nat, va: nat, content: Frame)
    requires Inv(s) && IsRoot(s.own, root)
    ensures var r := AddPage(s, root, va, content);
      if r.None? then |s.free| < 4 else Spent(s, r.value, 4)
  {
    if s.free != [] {
      AddReady(s, root);
      var (a, f) := Alloc(s).value;
      var b := CountUp(a, f);
      InsertTakes(b, root, f, va, ATTRIB_AP_RW_ALL);
      if Insert(b, root, f, va, ATTRIB_AP_RW_ALL).Some? {
        HeadFromFront(s.free);
        SpentMore(s, b, Insert(b, root, f, va, ATTRIB_AP_RW_ALL).value, 1, 3);
      }
    }
  }

  lemma AddPageEffect(s: PmState, root: nat, va: nat, content: Frame)
    requires Inv(s) && IsRoot(s.own, root) && AddPage(s, root, va, content).Some?
    ensures PageAdded(s, AddPage(s, root, va, content).value, root, VPN(va), content)
  {
    AddReady(s, root);
    var (a, f) := Alloc(s).value;
    var b := CountUp(a, f);
    var c := Insert(b, root, f, va, ATTRIB_AP_RW_ALL).value;
    InsertEntersLeaf(b, root, f, va, ATTRIB_AP_RW_ALL);
    InsertBeside(b, root, f, va, ATTRIB_AP_RW_ALL);
    BesideTransitive(s, b, c, root);
    FillBeside(s, c, f, content, root);
    FillInv(c, f, content);
    FillAdds(s, c, root, VPN(va), f, LeafEntry(f, ATTRIB_AP_RW_ALL), content);
  }

  lemma FillAdds(s: PmState, c: PmState, root: nat, n: nat, f: nat, w: nat, content: Frame)
    requires Sized(c) && f < NPAGE && IsRoot(s.own, root) && IsRoot(c.own, root) && Beside(s, Fill(c, f, content), root)
    requires AddressSpace(Fill(c, f, content).mem, root) == AddressSpace(c.mem, root)
    requires AddressSpace(c.mem, root) == AddressSpace(s.mem, root)[n := w] && FrameOf(w) == f
    ensures PageAdded(s, Fill(c, f, content), root, n, content)
  {
    var s' := Fill(c, f, content);
    assert s'.mem[f] == content;
    UpdateKeepsOthers(AddressSpace(s.mem, root), AddressSpace(s'.mem, root), n, w);
  }

  lemma UpdateKeepsOthers(m: map<nat, nat>, m': map<nat, nat>, n: nat, w: nat)
    requires m' == m[n := w]
    ensures forall i: nat :: i != n ==> SamePage(m, m', i)
    ensures n in m' && m'[n] == w
  {
  }

  /** Mapping a page that was counted before leaves it counted twice. */
  lemma CountedThenMapped(b: PmState, root: nat, f: nat, va: nat)
    requires Inv(b) && IsRoot(b.own, root) && Mappable(b, f, ATTRIB_AP_RW_ALL) && Overcounted(b, f)
    requires Insert(b, root, f, va, ATTRIB_AP_RW_ALL).Some?
    ensures var c := Insert(b, root, f, va, ATTRIB_AP_RW_ALL).value;
      Inv(c) && Overcounted(c, f) && Lookup(c, root, va) == Some(f)
  {
    InsertEntersLeaf(b, root, f, va, ATTRIB_AP_RW_ALL);
    OvercountedMap(b, root, f, va, ATTRIB_AP_RW_ALL, f);
    LookupReadsFlatMap(Insert(b, root, f, va, ATTRIB_AP_RW_ALL).value, root, va);
  }

  lemma FilledStaysMapped(c: PmState, root: nat, f: nat, va: nat, content: Frame)
    requires Inv(c) && Overcounted(c, f) && IsRoot(c.own, root) && Lookup(c, root, va) == Some(f)
    ensures var t := Fill(c, f, content); Inv(t) && Overcounted(t, f) && Lookup(t, root, va) == Some(f)
  {
    FillInv(c, f, content);
    LookupReadsFlatMap(c, root, va);
    LookupReadsFlatMap(Fill(c, f, content), root, va);
  }

  /** The operations that load a page into frame `f`. */
  function PageLoad(root: nat, f: nat, va: nat, content: Frame): seq<PmOp> {
    [TakePage] + ([CountPage(f)] + ([MapPage(root, f, va, ATTRIB_AP_RW_ALL)] + ([FillPage(f, content)] + [])))
  }

  lemma PageLoadRuns(s: PmState, a: PmState, b: PmState, c: PmState, t: PmState, root: nat, f: nat, va: nat,
                     content: Frame)
    requires StepsTo(s, TakePage, a) && StepsTo(a, CountPage(f), b)
    requires StepsTo(b, MapPage(root, f, va, ATTRIB_AP_RW_ALL), c) && StepsTo(c, FillPage(f, content), t) && Inv(t)
    ensures Runs(s, PageLoad(root, f, va, content), t)
  {
    RunFrom(c, FillPage(f, content), t, [], t);
    RunFrom(b, MapPage(root, f, va, ATTRIB_AP_RW_ALL), c, [FillPage(f, content)] + [], t);
    RunFrom(a, CountPage(f), b, [MapPage(root, f, va, ATTRIB_AP_RW_ALL)] + ([FillPage(f, content)] + []), t);
    RunFrom(s, TakePage, a, [CountPage(f)] + ([MapPage(root, f, va,
                                                       ATTRIB_AP_RW_ALL)] + ([FillPage(f, content)] + [])), t);
  }

  lemma CountedPageRuns(s: PmState, a: PmState, b: PmState, c: PmState, root: nat, f: nat, va: nat, content: Frame)
    requires Inv(s) && Alloc(s) == Some((a, f)) && Inv(a) && Mappable(a, f, 0) && b == CountUp(a, f)
    requires Inv(b) && IsRoot(b.own, root) && Mappable(b, f, ATTRIB_AP_RW_ALL) && Overcounted(b, f)
    requires Insert(b, root, f, va, ATTRIB_AP_RW_ALL) == Some(c) && Inv(c) && IsRoot(c.own, root)
    ensures var t := Fill(c, f, content);
      Runs(s, PageLoad(root, f, va, content), t) && Inv(t) && Overcounted(t, f) && Lookup(t, root, va) == Some(f)
  {
    CountedThenMapped(b, root, f, va);
    FilledStaysMapped(c, root, f, va, content);
    TakeStep(s, a, f);
    CountStep(a, f);
    MapStep(b, root, f, va, ATTRIB_AP_RW_ALL, c);
    FillStep(c, f, content);
    PageLoadRuns(s, a, b, c, Fill(c, f, content), root, f, va, content);
  }

  lemma AddPageRuns(s: PmState, root: nat, va: nat, content: Frame)
    requires Inv(s) && IsRoot(s.own, root) && AddPage(s, root, va, content).Some?
    ensures s.free != []
    ensures var f, t := s.free[0], AddPage(s, root, va, content).value;
      && Runs(s, PageLoad(root, f, va, content), t)
      && Inv(t) && Overcounted(t, f) && Lookup(t, root, va) == Some(f)
  {
    AddReady(s, root);
    var (a, f) := Alloc(s).value;
    var b := CountUp(a, f);
    InsertBeside(b, root, f, va, ATTRIB_AP_RW_ALL);
    CountedPageRuns(s, a, b, Insert(b, root, f, va, ATTRIB_AP_RW_ALL).value, root, f, va, content);
  }

  /** A loaded page is counted twice for its one entry, so its frame is free in no later state of any run. */
  lemma LoadedPageNeverFreed(s: PmState, root: nat, va: nat, content: Frame, later: seq<PmOp>, s': PmState)
    requires Inv(s) && IsRoot(s.own, root) && AddPage(s, root, va, content).Some?
    requires (AddPageRuns(s, root, va, content); Runs(AddPage(s, root, va, content).value, later, s'))
    ensures s.free != []
    ensures s.free[0] !in s'.free && Overcounted(s', s.free[0])
  {
    AddPageRuns(s, root, va, content);
    OvercountedForever(AddPage(s, root, va, content).value, later, s', s.free[0]);
  }

  // ---- segments ----

  /** The sizes reach the mapper through 32-bit parameters. */
  function FileSize(ph: Phdr): nat {
    ph.filesz % 0x1_0000_0000
  }

  function MemSize(ph: Phdr): nat {
    ph.memsz % 0x1_0000_0000
  }

  function Max(a: nat, b: nat): nat {
    if a < b then b else a
  }

  /** The number of pages the mapper creates for a segment. */
  function PageCount(ph: Phdr): nat {
    (Max(FileSize(ph), MemSize(ph)) + BY2PG - 1) / BY2PG
  }

  /** What the segment's data in the file must satisfy for the loader to read it. */
  predicate InFile(file: seq<byte>, ph: Phdr) {
    ph.offset + FileSize(ph) <= |file|
  }

  /** The segment starts on a page and ends inside the 40-bit address space. */
  predicate PageAligned(ph: Phdr) {
    ph.vaddr % BY2PG == 0 && ph.vaddr / BY2PG + PageCount(ph) <= VPNS
  }

  /** The bytes of the file that belong to page `j` of a segment. */
  function PageBytes(file: seq<byte>, ph: Phdr, j: nat): seq<byte>
    requires InFile(file, ph)
  {
    if j * BY2PG >= FileSize(ph) then []
    else if (j + 1) * BY2PG <= FileSize(ph) then file[ph.offset + j * BY2PG..ph.offset + (j + 1) * BY2PG]
    else file[ph.offset + j * BY2PG..ph.offset + FileSize(ph)]
  }

  ghost predicate SegmentLoaded(s: PmState, root: nat, file: seq<byte>, ph: Phdr, n: nat)
    requires InFile(file, ph)
  {
    forall j: nat :: j < n ==> PageHolds(s, root, ph.vaddr / BY2PG + j, PageOf(PageBytes(file, ph, j)))
  }

  ghost predicate PagesOf(ph: Phdr, n: nat) {
    ph.vaddr / BY2PG <= n < ph.vaddr / BY2PG + PageCount(ph)
  }

  /** Pages outside the segment are mapped as they were and hold what they held. */
  ghost predicate KeptOutside(s: PmState, s': PmState, root: nat, ph: Phdr) {
    forall n: nat :: !PagesOf(ph, n) ==> PageKept(s, s', root, n)
  }

  lemma PageNumberOf(ph: Phdr, j: nat)
    requires PageAligned(ph) && j < PageCount(ph)
    ensures VPN(ph.vaddr + j * BY2PG) == ph.vaddr / BY2PG + j
  {
    assert ph.vaddr + j * BY2PG == (ph.vaddr / BY2PG + j) * BY2PG;
    VpnOfPage(ph.vaddr / BY2PG + j);
  }

  ghost predicate Progress(s0: PmState, s: PmState, root: nat, file: seq<byte>, ph: Phdr, n: nat)
    requires InFile(file, ph)
  {
    && Beside(s0, s, root) && IsRoot(s0.own, root) && IsRoot(s.own, root)
    && SegmentLoaded(s, root, file, ph, n) && KeptOutside(s0, s, root, ph)
  }

  lemma ProgressLoaded(s0: PmState, s: PmState, s': PmState, root: nat, file: seq<byte>, ph: Phdr, n: nat, at: nat)
    requires InFile(file, ph) && n < PageCount(ph) && Progress(s0, s, root, file, ph, n) && at == ph.vaddr / BY2PG + n
    requires PageAdded(s, s', root, at, PageOf(PageBytes(file, ph, n)))
    ensures SegmentLoaded(s', root, file, ph, n + 1)
  {
    AddingKeepsPages(s, s', root, at, PageOf(PageBytes(file, ph, n)));
    LoadedStep(s, s', root, file, ph, n, at);
  }

  lemma ProgressKept(s0: PmState, s: PmState, s': PmState, root: nat, file: seq<byte>, ph: Phdr, n: nat, at: nat)
    requires InFile(file, ph) && n < PageCount(ph) && Progress(s0, s, root, file, ph, n) && at == ph.vaddr / BY2PG + n
    requires PageAdded(s, s', root, at, PageOf(PageBytes(file, ph, n)))
    ensures KeptOutside(s0, s', root, ph)
  {
    AddingKeepsPages(s, s', root, at, PageOf(PageBytes(file, ph, n)));
    KeptStep(s0, s, s', root, ph, n, at);
  }

  lemma ProgressStep(s0: PmState, s: PmState, s': PmState, root: nat, file: seq<byte>, ph: Phdr, n: nat, at: nat)
    requires InFile(file, ph) && n < PageCount(ph) && Progress(s0, s, root, file, ph, n) && at == ph.vaddr / BY2PG + n
    requires PageAdded(s, s', root, at, PageOf(PageBytes(file, ph, n)))
    ensures Progress(s0, s', root, file, ph, n + 1)
  {
    BesideTransitive(s0, s, s', root);
    ProgressLoaded(s0, s, s', root, file, ph, n, at);
    ProgressKept(s0, s, s', root, file, ph, n, at);
  }

  lemma LoadedStep(s: PmState, s': PmState, root: nat, file: seq<byte>, ph: Phdr, n: nat, at: nat)
    requires InFile(file, ph) && SegmentLoaded(s, root, file, ph, n) && at == ph.vaddr / BY2PG + n
    requires PageHolds(s', root, at, PageOf(PageBytes(file, ph, n)))
    requires forall m: nat :: m != at ==> PageKept(s, s', root, m)
    ensures SegmentLoaded(s', root, file, ph, n + 1)
  {
    forall j: nat | j < n + 1
      ensures PageHolds(s', root, ph.vaddr / BY2PG + j, PageOf(PageBytes(file, ph, j)))
    {
      if j < n {
        KeptPageHolds(s, s', root, ph.vaddr / BY2PG + j, PageOf(PageBytes(file, ph, j)));
      }
    }
  }

  lemma KeptTwice(s0: PmState, s: PmState, s': PmState, root: nat, n: nat)
    requires PageKept(s0, s, root, n) && PageKept(s, s', root, n)
    ensures PageKept(s0, s', root, n)
  {
  }

  lemma KeptStep(s0: PmState, s: PmState, s': PmState, root: nat, ph: Phdr, n: nat, at: nat)
    requires KeptOutside(s0, s, root, ph) && n < PageCount(ph) && at == ph.vaddr / BY2PG + n
    requires forall m: nat :: m != at ==> PageKept(s, s', root, m)
    ensures KeptOutside(s0, s', root, ph)
  {
    forall m: nat | !PagesOf(ph, m)
      ensures PageKept(s0, s', root, m)
    {
      KeptTwice(s0, s, s', root, m);
    }
  }

  // ---- the image ----

  /** The byte a program reads at `va`. */
  ghost function MemoryByte(s: PmState, root: nat, va: nat): Option<byte> {
    var f := Lookup(s, root, va);
    if f.Some? && f.value < |s.mem| then Some(PageByte(s.mem[f.value], va % BY2PG)) else None
  }

  /** A loaded segment is its bytes in the file followed by zeros. */
  lemma SegmentImage(s: PmState, root: nat, file: seq<byte>, ph: Phdr, k: nat)
    requires InFile(file, ph) && PageAligned(ph) && SegmentLoaded(s, root, file, ph, PageCount(ph))
    requires k < Max(FileSize(ph), MemSize(ph))
    ensures MemoryByte(s, root, ph.vaddr + k) == Some(if k < FileSize(ph) then file[ph.offset + k] else 0)
  {
    var j := k / BY2PG;
    PlaceInSegment(ph, k);
    assert PageHolds(s, root, ph.vaddr / BY2PG + j, PageOf(PageBytes(file, ph, j)));
    LookupReadsFlatMap(s, root, ph.vaddr + k);
    PageOfBytes(PageBytes(file, ph, j), k % BY2PG);
    PageBytesAt(file, ph, k);
  }

  /** Byte `k` belongs to the segment, in memory or in the file, and lies in page `n`. */
  predicate ByteInPage(ph: Phdr, k: nat, n: nat) {
    (k < ph.filesz || k < ph.memsz) && (ph.vaddr + k) / BY2PG == n
  }

  /** The pages the mapper makes for a segment are the ones that its bytes lie in, and no more. */
  lemma PagesOfIff(ph: Phdr, n: nat)
    requires PageAligned(ph) && ph.filesz < 0x1_0000_0000 && ph.memsz < 0x1_0000_0000
    ensures PagesOf(ph, n) <==> exists k: nat :: ByteInPage(ph, k, n)
  {
    var v := ph.vaddr / BY2PG;
    assert ph.vaddr == v * BY2PG;
    if PagesOf(ph, n) {
      var k := (n - v) * BY2PG;
      assert k < Max(ph.filesz, ph.memsz);
      assert (ph.vaddr + k) / BY2PG == n;
      assert ByteInPage(ph, k, n);
    }
    if k: nat :| ByteInPage(ph, k, n) {
      assert k < Max(ph.filesz, ph.memsz) && (ph.vaddr + k) / BY2PG == v + k / BY2PG;
      assert k / BY2PG < PageCount(ph);
    }
  }

  /** The page and the offset in it of byte `k` of a segment. */
  lemma PlaceInSegment(ph: Phdr, k: nat)
    requires PageAligned(ph) && k < Max(FileSize(ph), MemSize(ph))
    ensures k / BY2PG < PageCount(ph)
    ensures VPN(ph.vaddr + k) == ph.vaddr / BY2PG + k / BY2PG && (ph.vaddr + k) % BY2PG == k % BY2PG
  {
    var j, o := k / BY2PG, k % BY2PG;
    assert ph.vaddr + k == ph.vaddr + j * BY2PG + o;
    SamePageNumber(ph, j, o);
    PageNumberOf(ph, j);
  }

  lemma SamePageNumber(ph: Phdr, j: nat, o: nat)
    requires PageAligned(ph) && o < BY2PG
    ensures VPN(ph.vaddr + j * BY2PG + o) == VPN(ph.vaddr + j * BY2PG)
    ensures (ph.vaddr + j * BY2PG + o) % BY2PG == o
  {
    var q := ph.vaddr / BY2PG + j;
    assert ph.vaddr + j * BY2PG == q * BY2PG;
    PageAndOffset(q, o);
    PageAndOffset(q, 0);
  }

  lemma PageAndOffset(q: nat, o: nat)
    requires o < BY2PG
    ensures VPN(q * BY2PG + o) == q % VPNS && (q * BY2PG + o) % BY2PG == o
  {
    DivModSplit(q * BY2PG + o, BY2PG, VPNS);
    DivModUnique(q * BY2PG + o, BY2PG, q, o);
    DivModUnique(BY2PG * (q % VPNS) + o, BY2PG, q % VPNS, o);
  }

  lemma PageBytesAt(file: seq<byte>, ph: Phdr, k: nat)
    requires InFile(file, ph)
    ensures Padded(PageBytes(file, ph, k / BY2PG), k % BY2PG) == if k < FileSize(ph) then file[ph.offset + k] else 0
  {
    var j, o := k / BY2PG, k % BY2PG;
    assert k == j * BY2PG + o;
    assert (j + 1) * BY2PG == j * BY2PG + BY2PG;
  }

  // ---- the loader ----

  /** `bcopy` of file bytes onto a page that `page_alloc` has zeroed, a word at a time. */
  method CopyIn(pm: PhysicalMemory, f: nat, bytes: seq<byte>)
    requires pm.Shaped() && f < NPAGE && |bytes| <= BY2PG && pm.mem[f] == ZeroFrame()
    modifies pm.mem
    ensures pm.Shaped()
    ensures pm.State() == old(pm.State()).(mem := old(pm.State()).mem[f := PageOf(bytes)])
  {
    ghost var before := pm.mem[..];
    var i := 0;
    while i < ENTRIES && 8 * i < |bytes|
      invariant i <= ENTRIES
      invariant forall j :: 0 <= j < i ==> pm.mem[f][j] == PaddedWord(bytes, j)
      invariant forall j :: i <= j < ENTRIES ==> pm.mem[f][j] == 0
      invariant pm.mem[..] == before[f := pm.mem[f]]
    {
      pm.mem[f] := pm.mem[f][i := PaddedWord(bytes, i)];
      i := i + 1;
    }
    forall j | i <= j < ENTRIES
      ensures PaddedWord(bytes, j) == 0
    {
      PaddedWordBeyond(bytes, j);
    }
    assert pm.mem[f] == PageOf(bytes);
  }

  /** What `k` of `n` pages took, or that there was not enough for all of them. */
  ghost predicate PagesSpent(s0: PmState, s: PmState, panicked: bool, k: nat, n: nat) {
    if panicked then |s0.free| < 4 * n else Spent(s0, s, 4 * k)
  }

  lemma OnePageMore(s0: PmState, s: PmState, s': PmState, panicked: bool, k: nat, n: nat)
    requires k < n && PagesSpent(s0, s, false, k, n) && PagesSpent(s, s', panicked, 1, 1)
    ensures PagesSpent(s0, s', panicked, k + 1, n)
  {
    if !panicked {
      SpentMore(s0, s, s', 4 * k, 4);
    }
  }

  /** One page of `load_icode_mapper`, and what it means. */
  method LoadPage(pm: PhysicalMemory, root: nat, va: nat, bytes: seq<byte>) returns (panicked: bool)
    requires pm.Valid() && IsRoot(pm.own, root) && |bytes| <= BY2PG
    modifies pm.Repr
    ensures pm.Valid()
    ensures !panicked ==> PageAdded(old(pm.State()), pm.State(), root, VPN(va), PageOf(bytes))
    ensures PagesSpent(old(pm.State()), pm.State(), panicked, 1, 1)
  {
    ghost var s := pm.State();
    panicked := AllocateAndCopy(pm, root, va, bytes);
    AddPageMeans(s, if panicked then None else Some(pm.State()), root, va, PageOf(bytes));
  }

  lemma AddPageMeans(s: PmState, r: Option<PmState>, root: nat, va: nat, content: Frame)
    requires Inv(s) && IsRoot(s.own, root) && r == AddPage(s, root, va, content)
    ensures match r
      case None => |s.free| < 4
      case Some(t) => PageAdded(s, t, root, VPN(va), content) && Spent(s, t, 4)
  {
    AddPageTakes(s, root, va, content);
    if r.Some? {
      AddPageEffect(s, root, va, content);
    }
  }

  /** Allocate, count, insert, copy. */
  method AllocateAndCopy(pm: PhysicalMemory, root: nat, va: nat, bytes: seq<byte>) returns (panicked: bool)
    requires pm.Valid() && IsRoot(pm.own, root) && |bytes| <= BY2PG
    modifies pm.Repr
    ensures pm.Valid()
    ensures AddPage(old(pm.State()), root, va, PageOf(bytes)) == if panicked then None else Some(pm.State())
  {
    ghost var s := pm.State();
    var page := pm.PageAlloc();
    if page.None? {
      return true;
    }
    AddReady(s, root);
    pm.SetRef(page.value, Incremented(pm.refs[page.value]));
    panicked := InsertAndCopy(pm, root, page.value, va, bytes);
  }

  /** `page_insert` of a zeroed page, and the copy into it. */
  method InsertAndCopy(pm: PhysicalMemory, root: nat, f: nat, va: nat, bytes: seq<byte>) returns (panicked: bool)
    requires pm.Valid() && IsRoot(pm.own, root) && Mappable(pm.State(), f, ATTRIB_AP_RW_ALL) && |bytes| <= BY2PG
    requires pm.mem[f] == ZeroFrame()
    modifies pm.Repr
    ensures pm.Valid()
    ensures InsertFilled(old(pm.State()), root, f, va, PageOf(bytes)) == if panicked then None else Some(pm.State())
  {
    ghost var b := pm.State();
    panicked := pm.PageInsert(root, f, va, ATTRIB_AP_RW_ALL);
    if panicked {
      return;
    }
    InsertBeside(b, root, f, va, ATTRIB_AP_RW_ALL);
    FillInv(pm.State(), f, PageOf(bytes));
    CopyIn(pm, f, bytes);
  }

  /** `load_icode_mapper` on a page-aligned segment: pages with file data, then zero pages. */
  method LoadIcodeMapper(pm: PhysicalMemory, root: nat, file: seq<byte>, ph: Phdr) returns (panicked: bool)
    requires pm.Valid() && IsRoot(pm.own, root) && InFile(file, ph) && PageAligned(ph)
    modifies pm.Repr
    ensures pm.Valid()
    ensures !panicked ==> Progress(old(pm.State()), pm.State(), root, file, ph, PageCount(ph))
    ensures PagesSpent(old(pm.State()), pm.State(), panicked, PageCount(ph), PageCount(ph))
  {
    ghost var s0 := pm.State();
    var binSize, sgSize := FileSize(ph), MemSize(ph);
    AllKept(s0, root);
    var n := 0;
    while n * BY2PG < binSize
      invariant n <= PageCount(ph) && pm.Valid() && Progress(s0, pm.State(), root, file, ph, n)
      invariant PagesSpent(s0, pm.State(), false, n, PageCount(ph))
      invariant (n - 1) * BY2PG < binSize || n == 0
      decreases binSize - n * BY2PG
    {
      panicked := LoadSegmentPage(pm, root, file, ph, n, s0);
      if panicked {
        return;
      }
      n := n + 1;
    }
    while n * BY2PG < sgSize
      invariant n <= PageCount(ph) && binSize <= n * BY2PG && pm.Valid() && Progress(s0, pm.State(), root, file, ph, n)
      invariant PagesSpent(s0, pm.State(), false, n, PageCount(ph))
      invariant (n - 1) * BY2PG < Max(binSize, sgSize) || n == 0
      decreases sgSize - n * BY2PG
    {
      panicked := LoadSegmentPage(pm, root, file, ph, n, s0);
      if panicked {
        return;
      }
      n := n + 1;
    }
    assert n == PageCount(ph);
    panicked := false;
  }

  method LoadSegmentPage(pm: PhysicalMemory, root: nat, file: seq<byte>, ph: Phdr, n: nat, ghost s0: PmState)
      returns (panicked: bool)
    requires pm.Valid() && InFile(file, ph) && PageAligned(ph) && n < PageCount(ph)
    requires Progress(s0, pm.State(), root, file, ph, n) && PagesSpent(s0, pm.State(), false, n, PageCount(ph))
    modifies pm.Repr
    ensures pm.Valid()
    ensures !panicked ==> Progress(s0, pm.State(), root, file, ph, n + 1)
    ensures PagesSpent(s0, pm.State(), panicked, n + 1, PageCount(ph))
  {
    ghost var s := pm.State();
    panicked := LoadPage(pm, root, ph.vaddr + n * BY2PG, PageBytes(file, ph, n));
    SegmentTurn(s0, s, pm.State(), root, file, ph, n, panicked);
  }

  lemma SegmentTurn(s0: PmState, s: PmState, s': PmState, root: nat, file: seq<byte>, ph: Phdr, n: nat, panicked: bool)
    requires InFile(file, ph) && PageAligned(ph) && n < PageCount(ph)
    requires Progress(s0, s, root, file, ph, n) && PagesSpent(s0, s, false, n, PageCount(ph))
    requires PagesSpent(s, s', panicked, 1, 1)
    requires !panicked ==> PageAdded(s, s', root, VPN(ph.vaddr + n * BY2PG), PageOf(PageBytes(file, ph, n)))
    ensures !panicked ==> Progress(s0, s', root, file, ph, n + 1)
    ensures PagesSpent(s0, s', panicked, n + 1, PageCount(ph))
  {
    OnePageMore(s0, s, s', panicked, n, PageCount(ph));
    if !panicked {
      PageNumberOf(ph, n);
      ProgressStep(s0, s, s', root, file, ph, n, VPN(ph.vaddr + n * BY2PG));
    }
  }

  // ---- the file ----

  const EHDR_SIZE: nat := 64
  const PHDR_SIZE: nat := 56

  /** The little-endian field of `size` bytes at offset `at`. */
  function Field(file: seq<byte>, at: nat, size: nat): nat
    requires at + size <= |file|
    decreases |file| - at
  {
    if size == 0 then 0 else file[at] + 256 * Field(file, at + 1, size - 1)
  }

  /** `is_elf_format`, after the size check of `load_elf`. */
  predicate IsElf(file: seq<byte>) {
    |file| >= 4 && file[0] == 0x7f && file[1] == 'E' as int && file[2] == 'L' as int && file[3] == 'F' as int
  }

  function HeaderCount(file: seq<byte>): nat
    requires |file| >= EHDR_SIZE
  {
    Field(file, 56, 2)
  }

  /** The offset of program header `k`: `e_phoff`, then on by `e_phentsize` each time. */
  function HeaderAt(file: seq<byte>, k: nat): nat
    requires |file| >= EHDR_SIZE
  {
    if k == 0 then Field(file, 32, 8) else HeaderAt(file, k - 1) + Field(file, 54, 2)
  }

  /** The program headers lie in the file, and so does the data of the loadable ones. */
  predicate Complete(file: seq<byte>) {
    && |file| >= EHDR_SIZE
    && forall k: nat :: k < HeaderCount(file) ==> HeaderAt(file, k) + PHDR_SIZE <= |file|
  }

  function Header(file: seq<byte>, k: nat): Phdr
    requires Complete(file) && k < HeaderCount(file)
  {
    var at := HeaderAt(file, k);
    Phdr(Field(file, at, 4), Field(file, at + 8, 8), Field(file, at + 16, 8), Field(file, at + 32, 8),
         Field(file, at + 40, 8))
  }

  predicate Loadable(file: seq<byte>, k: nat)
    requires Complete(file) && k < HeaderCount(file)
  {
    Header(file, k).ptype == SHT_PROGBITS
  }

  ghost predicate PagesDisjoint(a: Phdr, b: Phdr) {
    forall n: nat :: !(PagesOf(a, n) && PagesOf(b, n))
  }

  /** Loadable segments are page-aligned, have their data in the file, and share no page. */
  ghost predicate WellLaidOut(file: seq<byte>)
    requires Complete(file)
  {
    && (forall k: nat :: k < HeaderCount(file) && Loadable(file, k) ==>
          InFile(file, Header(file, k)) && PageAligned(Header(file, k)))
    && (forall j: nat, k: nat :: j < k < HeaderCount(file) && Loadable(file, j) && Loadable(file, k) ==>
          PagesDisjoint(Header(file, j), Header(file, k)))
  }

  /** The first `n` program headers have been loaded. */
  ghost predicate Image(s: PmState, root: nat, file: seq<byte>, n: nat)
    requires Complete(file) && WellLaidOut(file) && n <= HeaderCount(file)
  {
    forall k: nat :: k < n && Loadable(file, k) ==>
      SegmentLoaded(s, root, file, Header(file, k), PageCount(Header(file, k)))
  }

  lemma ImageSurvives(s0: PmState, s: PmState, root: nat, file: seq<byte>, n: nat)
    requires Complete(file) && WellLaidOut(file) && n < HeaderCount(file) && Loadable(file, n)
    requires Image(s0, root, file, n) && KeptOutside(s0, s, root, Header(file, n))
    ensures Image(s, root, file, n)
  {
    forall k: nat | k < n && Loadable(file, k)
      ensures SegmentLoaded(s, root, file, Header(file, k), PageCount(Header(file, k)))
    {
      EarlierSegmentSurvives(s0, s, root, file, k, n);
    }
  }

  lemma ImageStep(s0: PmState, s: PmState, root: nat, file: seq<byte>, n: nat)
    requires Complete(file) && WellLaidOut(file) && n < HeaderCount(file) && Loadable(file, n)
    requires Image(s0, root, file, n) && KeptOutside(s0, s, root, Header(file, n))
    requires SegmentLoaded(s, root, file, Header(file, n), PageCount(Header(file, n)))
    ensures Image(s, root, file, n + 1)
  {
    ImageSurvives(s0, s, root, file, n);
  }

  lemma EarlierSegmentSurvives(s0: PmState, s: PmState, root: nat, file: seq<byte>, k: nat, n: nat)
    requires Complete(file) && WellLaidOut(file) && k < n < HeaderCount(file) && Loadable(file, k) && Loadable(file, n)
    requires Image(s0, root, file, n) && KeptOutside(s0, s, root, Header(file, n))
    ensures SegmentLoaded(s, root, file, Header(file, k), PageCount(Header(file, k)))
  {
    SegmentSurvives(s0, s, root, file, Header(file, k), Header(file, n));
  }

  lemma SegmentSurvives(s0: PmState, s: PmState, root: nat, file: seq<byte>, a: Phdr, b: Phdr)
    requires InFile(file, a) && SegmentLoaded(s0, root, file, a, PageCount(a))
    requires KeptOutside(s0, s, root, b) && PagesDisjoint(a, b)
    ensures SegmentLoaded(s, root, file, a, PageCount(a))
  {
    forall j: nat | j < PageCount(a)
      ensures PageHolds(s, root, a.vaddr / BY2PG + j, PageOf(PageBytes(file, a, j)))
    {
      assert PagesOf(a, a.vaddr / BY2PG + j);
      KeptPageHolds(s0, s, root, a.vaddr / BY2PG + j, PageOf(PageBytes(file, a, j)));
    }
  }

  /** Page `n` belongs to none of the first `k` loadable segments. */
  ghost predicate OutsideImage(file: seq<byte>, n: nat, k: nat)
    requires Complete(file) && k <= HeaderCount(file)
  {
    forall h: nat :: h < k && Loadable(file, h) ==> !PagesOf(Header(file, h), n)
  }

  ghost predicate KeptOutsideImage(s0: PmState, s: PmState, root: nat, file: seq<byte>, k: nat)
    requires Complete(file) && k <= HeaderCount(file)
  {
    forall n: nat :: OutsideImage(file, n, k) ==> PageKept(s0, s, root, n)
  }

  lemma KeptImageStep(s0: PmState, s: PmState, s': PmState, root: nat, file: seq<byte>, k: nat)
    requires Complete(file) && k < HeaderCount(file) && KeptOutsideImage(s0, s, root, file, k)
    requires if Loadable(file, k) then KeptOutside(s, s', root, Header(file, k)) else s' == s
    ensures KeptOutsideImage(s0, s', root, file, k + 1)
  {
    forall n: nat | OutsideImage(file, n, k + 1)
      ensures PageKept(s0, s', root, n)
    {
      assert OutsideImage(file, n, k);
      if Loadable(file, k) {
        KeptTwice(s0, s, s', root, n);
      }
    }
  }

  /** The number of pages program header `k` asks for. */
  function SegmentPages(file: seq<byte>, k: nat): nat
    requires Complete(file) && k < HeaderCount(file)
  {
    if Loadable(file, k) then PageCount(Header(file, k)) else 0
  }

  /** The number of pages the first `n` program headers ask for. */
  function ImagePages(file: seq<byte>, n: nat): nat
    requires Complete(file) && n <= HeaderCount(file)
  {
    if n == 0 then 0
    else ImagePages(file, n - 1) + SegmentPages(file, n - 1)
  }

  /** The pages of the loadable segments among the first `n`, each with the number of its header. */
  ghost function PagesUpTo(file: seq<byte>, n: nat): set<(nat, nat)>
    requires Complete(file) && n <= HeaderCount(file)
  {
    set k: nat, j: nat | k < n && j < SegmentPages(file, k) :: (k, j)
  }

  /** The pairs of `k` with the first `n` numbers. */
  ghost function Row(k: nat, n: nat): (s: set<(nat, nat)>)
    ensures |s| == n && forall x :: x in s <==> x.0 == k && x.1 < n
  {
    if n == 0 then {} else Row(k, n - 1) + {(k, n - 1)}
  }

  /** The price of an image counts each page of each loadable segment once. */
  lemma {:induction false} ImagePagesCount(file: seq<byte>, n: nat)
    requires Complete(file) && n <= HeaderCount(file)
    ensures ImagePages(file, n) == |PagesUpTo(file, n)|
  {
    if n > 0 {
      var m: nat := n - 1;
      ImagePagesCount(file, m);
      PagesJoined(file, m);
      ImagePagesStep(file, m);
    }
  }

  lemma ImagePagesStep(file: seq<byte>, k: nat)
    requires Complete(file) && k < HeaderCount(file)
    ensures ImagePages(file, k + 1) == ImagePages(file, k) + SegmentPages(file, k)
  {
  }

  lemma PagesJoined(file: seq<byte>, k: nat)
    requires Complete(file) && k < HeaderCount(file)
    ensures |PagesUpTo(file, k + 1)| == |PagesUpTo(file, k)| + SegmentPages(file, k)
  {
    var a, b := PagesUpTo(file, k), Row(k, SegmentPages(file, k));
    forall x: (nat, nat)
      ensures x in PagesUpTo(file, k + 1) <==> x in a || x in b
    {
      assert x == (x.0, x.1);
    }
    assert PagesUpTo(file, k + 1) == a + b;
    assert a !! b;
  }

  lemma {:induction false} ImagePagesGrow(file: seq<byte>, k: nat, n: nat)
    requires Complete(file) && k <= n <= HeaderCount(file)
    ensures ImagePages(file, k) <= ImagePages(file, n)
    decreases n
  {
    if k < n {
      ImagePagesGrow(file, k, n - 1);
    }
  }

  lemma SegmentSpent(s0: PmState, s: PmState, s': PmState, panicked: bool, file: seq<byte>, k: nat)
    requires Complete(file) && k < HeaderCount(file) && Loadable(file, k)
    requires PagesSpent(s0, s, false, ImagePages(file, k), ImagePages(file, HeaderCount(file)))
    requires PagesSpent(s, s', panicked, PageCount(Header(file, k)), PageCount(Header(file, k)))
    ensures PagesSpent(s0, s', panicked, ImagePages(file, k + 1), ImagePages(file, HeaderCount(file)))
  {
    ImagePagesGrow(file, k + 1, HeaderCount(file));
    if !panicked {
      SpentMore(s0, s, s', 4 * ImagePages(file, k), 4 * PageCount(Header(file, k)));
    }
  }

  datatype LoadResult = Loaded(entry: nat) | NotElf | Panicked

  /** `load_elf` with `load_icode_mapper` as its mapper. */
  method LoadElf(pm: PhysicalMemory, root: nat, file: seq<byte>) returns (r: LoadResult)
    requires pm.Valid() && IsRoot(pm.own, root)
    requires IsElf(file) ==> Complete(file) && WellLaidOut(file)
    modifies pm.Repr
    ensures pm.Valid()
    ensures r.NotElf? <==> !IsElf(file)
    ensures r.NotElf? ==> pm.State() == old(pm.State())
    ensures r.Panicked? ==> Complete(file) && |old(pm.State()).free| < 4 * ImagePages(file, HeaderCount(file))
    ensures r.Loaded? ==> r.entry == Field(file, 24, 8)
    ensures r.Loaded? ==> Beside(old(pm.State()), pm.State(), root) && Image(pm.State(), root, file, HeaderCount(file))
    ensures r.Loaded? ==> KeptOutsideImage(old(pm.State()), pm.State(), root, file, HeaderCount(file))
  {
    if !IsElf(file) {
      return NotElf;
    }
    var panicked := LoadHeaders(pm, root, file);
    r := if panicked then LoadResult.Panicked else Loaded(Field(file, 24, 8));
  }

  /** Where the first `k` turns of the loop of `load_elf` lead; `None` is the panic. */
  ghost predicate HeadersLoaded(s0: PmState, r: Option<PmState>, root: nat, file: seq<byte>, k: nat)
    requires Complete(file) && WellLaidOut(file) && k <= HeaderCount(file)
  {
    match r
    case None => |s0.free| < 4 * ImagePages(file, HeaderCount(file))
    case Some(s) =>
      && Beside(s0, s, root) && IsRoot(s.own, root) && Image(s, root, file, k) && KeptOutsideImage(s0, s, root, file, k)
      && PagesSpent(s0, s, false, ImagePages(file, k), ImagePages(file, HeaderCount(file)))
  }

  /** What `load_icode_mapper` does for a segment; `None` is the panic. */
  ghost predicate LoadedBy(s: PmState, r: Option<PmState>, root: nat, file: seq<byte>, ph: Phdr)
    requires InFile(file, ph)
  {
    match r
    case None => |s.free| < 4 * PageCount(ph)
    case Some(s') =>
      Progress(s, s', root, file, ph, PageCount(ph)) && PagesSpent(s, s', false, PageCount(ph), PageCount(ph))
  }

  lemma NoHeaderLoaded(s: PmState, root: nat, file: seq<byte>)
    requires Inv(s) && IsRoot(s.own, root) && Complete(file) && WellLaidOut(file)
    ensures HeadersLoaded(s, Some(s), root, file, 0)
  {
    AllKept(s, root);
  }

  lemma HeaderStep(s0: PmState, s: PmState, r: Option<PmState>, root: nat, file: seq<byte>, k: nat)
    requires Complete(file) && WellLaidOut(file) && k < HeaderCount(file) && HeadersLoaded(s0, Some(s), root, file, k)
    requires if Loadable(file, k) then LoadedBy(s, r, root, file, Header(file, k)) else r == Some(s)
    ensures HeadersLoaded(s0, r, root, file, k + 1)
  {
    if Loadable(file, k) {
      match r
      case None =>
        SegmentSpent(s0, s, s, true, file, k);
      case Some(s') =>
        SegmentSpent(s0, s, s', false, file, k);
        BesideTransitive(s0, s, s', root);
        ImageStep(s, s', root, file, k);
        KeptImageStep(s0, s, s', root, file, k);
    } else {
      ImagePagesGrow(file, k, k + 1);
      KeptImageStep(s0, s, s, root, file, k);
    }
  }

  /** The loop of `load_elf`. */
  method LoadHeaders(pm: PhysicalMemory, root: nat, file: seq<byte>) returns (panicked: bool)
    requires pm.Valid() && IsRoot(pm.own, root) && Complete(file) && WellLaidOut(file)
    modifies pm.Repr
    ensures pm.Valid()
    ensures HeadersLoaded(old(pm.State()), if panicked then None else Some(pm.State()), root, file, HeaderCount(file))
  {
    ghost var s0 := pm.State();
    NoHeaderLoaded(s0, root, file);
    var k, count := 0, HeaderCount(file);
    panicked := false;
    while k != count
      invariant k <= count && !panicked
      invariant pm.Valid() && HeadersLoaded(s0, Some(pm.State()), root, file, k)
      decreases count - k
    {
      panicked := LoadHeader(pm, root, file, k, s0);
      if panicked {
        return;
      }
      k := k + 1;
    }
  }

  /** The turn of `load_elf` for program header `k`. */
  method LoadHeader(pm: PhysicalMemory, root: nat, file: seq<byte>, k: nat, ghost s0: PmState) returns (panicked: bool)
    requires pm.Valid() && Complete(file) && WellLaidOut(file) && k < HeaderCount(file)
    requires HeadersLoaded(s0, Some(pm.State()), root, file, k)
    modifies pm.Repr
    ensures pm.Valid()
    ensures HeadersLoaded(s0, if panicked then None else Some(pm.State()), root, file, k + 1)
  {
    ghost var s := pm.State();
    panicked := false;
    if Loadable(file, k) {
      panicked := LoadIcodeMapper(pm, root, file, Header(file, k));
    }
    HeaderStep(s0, s, if panicked then None else Some(pm.State()), root, file, k);
  }

  /**
   The memory image: after a load, byte `k` of every loadable segment is the file's byte for
   `k < p_filesz` and zero from there to `p_memsz`.
   */
  lemma MemoryImage(s: PmState, root: nat, file: seq<byte>, h: nat, ph: Phdr, k: nat)
    requires Complete(file) && WellLaidOut(file) && Image(s, root, file, HeaderCount(file))
    requires h < HeaderCount(file) && ph == Header(file, h) && ph.ptype == 1
    requires ph.filesz < 0x1_0000_0000 && ph.memsz < 0x1_0000_0000
    ensures k < ph.filesz ==> ph.offset + k < |file| && MemoryByte(s, root, ph.vaddr + k) == Some(file[ph.offset + k])
    ensures ph.filesz <= k < ph.memsz ==> MemoryByte(s, root, ph.vaddr + k) == Some(0)
  {
    SegmentMemory(s, root, file, ph, k);
  }

  lemma SegmentMemory(s: PmState, root: nat, file: seq<byte>, ph: Phdr, k: nat)
    requires InFile(file, ph) && PageAligned(ph) && SegmentLoaded(s, root, file, ph, PageCount(ph))
    requires ph.filesz < 0x1_0000_0000 && ph.memsz < 0x1_0000_0000
    ensures k < ph.filesz ==> ph.offset + k < |file| && MemoryByte(s, root, ph.vaddr + k) == Some(file[ph.offset + k])
    ensures ph.filesz <= k < ph.memsz ==> MemoryByte(s, root, ph.vaddr + k) == Some(0)
  {
    assert FileSize(ph) == ph.filesz && MemSize(ph) == ph.memsz;
    if k < Max(FileSize(ph), MemSize(ph)) {
      SegmentImage(s, root, file, ph, k);
    }
  }
}
