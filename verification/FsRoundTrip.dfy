/** Creating and removing files: what every path leads to afterwards. */
module FsRoundTrip {
  import opened Options
  import opened FsBlocks
  import opened FsDir
  import opened FsPath
  import opened FsTree

  // ---- the code: file_open, file_create, file_remove ----

  /** `file_open`. */
  function Open(d: Disk, p: string): Result<FileRef> {
    Resolve(d, RootFile, None, Names(p)).file
  }

  function WithName(d: Disk, s: FileRef, name: string): Disk
    requires s in d.files
  {
    d.(files := d.files[s := d.files[s].(name := name)])
  }

  /** `file_create`, which answers NOT_FOUND when it finds no room. */
  function Create(d: Disk, p: string): (Disk, Result<FileRef>) {
    var w := Resolve(d, RootFile, None, Names(p));
    if w.file.Good? then (w.disk, FileExists)
    else if !w.file.NotFound? || w.pdir.None? || w.last.None? then (w.disk, w.file)
    else if !WellFormed(w.disk) || w.pdir.value !in w.disk.files then (w.disk, Panic)
    else
      var (a, r) := DirAllocFile(w.disk, w.pdir.value);
      if r.Panic? then (a, Panic)
      else if !r.Good? then (a, NotFound)
      else if r.value !in a.files then (a, Panic)
      else (WithName(a, r.value, w.last.value), r)
  }

  /** `file_remove`. */
  function Remove(d: Disk, p: string): (Disk, Result<()>) {
    var w := Resolve(d, RootFile, None, Names(p));
    match w.file
    case Good(s) =>
      if !WellFormed(w.disk) || s !in w.disk.files then (w.disk, Panic)
      else
        var t := Truncate(w.disk, s, 0);
        if t.Some? && s in t.value.files then (WithName(t.value, s, ""), Good(())) else (w.disk, Panic)
    case NotFound => (w.disk, NotFound)
    case Invalid => (w.disk, Invalid)
    case NoDisk => (w.disk, NoDisk)
    case BadPath => (w.disk, BadPath)
    case FileExists => (w.disk, FileExists)
    case Panic => (w.disk, Panic)
  }

  // ---- growing a directory by a block of empty slots ----

  /** If the directory has to grow, the place for its next block is empty and what is allocated arrives zeroed. */
  ghost predicate GrowthFresh(d: Disk, dir: FileRef)
    requires WellFormed(d) && dir in d.files
  {
    var n := DirBlocks(d, dir);
    && At(d, PlaceOf(dir, n)) == 0 && NextBlockFresh(d)
    && (NDIRECT <= n && d.files[dir].indirect == 0 && AllocBlock(d).Good? ==> NextBlockFresh(AllocBlock(d).value.0))
  }

  lemma {:induction false} FirstFreeSame(d: Disk, e: Disk, b: nat)
    requires e.free == d.free && e.nblocks == d.nblocks
    ensures FirstFree(e, b) == FirstFree(d, b)
    decreases d.nblocks - b
  {
    if b < d.nblocks && b !in d.free {
      FirstFreeSame(d, e, b + 1);
    }
  }

  /** The block of a file that had none there is a page that was not mapped. */
  lemma MapBlockFresh(d: Disk, dir: FileRef, n: nat)
    requires Owned(d) && dir in d.files && At(d, PlaceOf(dir, n)) == 0 && NextBlockFresh(d)
    requires NDIRECT <= n && d.files[dir].indirect == 0 && AllocBlock(d).Good? ==> NextBlockFresh(AllocBlock(d).value.0)
    requires MapBlock(d, dir, n, true).Good?
    ensures MapBlock(d, dir, n, true).value.1 !in d.mapped
  {
    BlockWalkOwned(d, dir, n, true);
    var (e, p) := BlockWalk(d, dir, n, true).value;
    assert At(e, p) == 0;
    if n < NDIRECT {
      assert e == d;
    } else if d.files[dir].indirect != 0 {
      FirstFreeSame(d, e, FIRST_DATA_BLOCK);
    } else {
      FirstFreeSame(AllocBlock(d).value.0, e, FIRST_DATA_BLOCK);
    }
  }

  /** State `g` is `d` with block `b` as one more block of directory `dir`. */
  ghost predicate OneBlockMore(d: Disk, g: Disk, dir: FileRef, b: nat)
    requires WellFormed(d) && WellFormed(g) && dir in d.files
  {
    var n := DirBlocks(d, dir);
    && n < NINDIRECT && b != 0 && At(d, PlaceOf(dir, n)) == 0 && At(g, PlaceOf(dir, n)) == b
    && (forall q: Place :: !q.TableAt? && q != PlaceOf(dir, n) ==> At(g, q) == At(d, q))
    && g.files.Keys == d.files.Keys && DirBlocks(g, dir) == n + 1
    && (forall f :: f in d.files ==> g.files[f].name == d.files[f].name && g.files[f].ftype == d.files[f].ftype)
    && (forall f :: f in d.files && f != dir ==> DirBlocks(g, f) == DirBlocks(d, f))
  }

  /** With its size raised first, mapping the block at the old end adds just that block. */
  lemma MapAddsBlock(d: Disk, dir: FileRef)
    requires Owned(d) && dir in d.files && GrowthFresh(d, dir) && Owned(Longer(d, dir)) &&
      SamePointers(d, Longer(d, dir))
    requires MapBlock(Longer(d, dir), dir, DirBlocks(d, dir), true).Good?
    ensures var (m, b) := MapBlock(Longer(d, dir), dir, DirBlocks(d, dir), true).value;
      && Owned(m) && OneBlockMore(d, m, dir, b) && 0 < b < m.nblocks && b !in m.free
  {
    var h := Longer(d, dir);
    FirstFreeSame(d, h, FIRST_DATA_BLOCK);
    MapBlockOwned(h, dir, DirBlocks(d, dir), true);
  }

  lemma MappedKeepsBlock(d: Disk, m: Disk, dir: FileRef, b: nat)
    requires Owned(m) && WellFormed(d) && dir in d.files && OneBlockMore(d, m, dir, b)
    ensures var g := m.(mapped := m.mapped + {b});
      Owned(g) && OneBlockMore(d, g, dir, b)
  {
    var g := m.(mapped := m.mapped + {b});
    assert forall q :: At(g, q) == At(m, q);
  }

  lemma LongerFresh(d: Disk, dir: FileRef)
    requires Owned(d) && dir in d.files && GrowthFresh(d, dir) && Owned(Longer(d, dir)) &&
      SamePointers(d, Longer(d, dir))
    ensures var n, h := DirBlocks(d, dir), Longer(d, dir);
      && TableArrivesEmpty(h, dir, n, true)
      && (MapBlock(h, dir, n, true).Good? ==> MapBlock(h, dir, n, true).value.1 !in h.mapped)
  {
    var n, h := DirBlocks(d, dir), Longer(d, dir);
    FirstFreeSame(d, h, FIRST_DATA_BLOCK);
    if AllocBlock(d).Good? {
      FirstFreeSame(AllocBlock(d).value.0, AllocBlock(h).value.0, FIRST_DATA_BLOCK);
    }
    if MapBlock(h, dir, n, true).Good? {
      MapBlockFresh(h, dir, n);
    }
  }

  /** The disk after the block at the end of directory `dir` was mapped and read. */
  ghost predicate GrownBy(d: Disk, g: Disk, dir: FileRef, b: nat, a: Disk)
    requires WellFormed(d) && dir in d.files
  {
    Owned(g) && OneBlockMore(d, g, dir, b) && a == AsSlots(g, b)
  }

  lemma GrowthSucceeds(d: Disk, dir: FileRef)
    requires Owned(d) && dir in d.files && GrowthFresh(d, dir) && Owned(Longer(d, dir)) &&
      SamePointers(d, Longer(d, dir))
    requires MapBlock(Longer(d, dir), dir, DirBlocks(d, dir), true).Good?
    ensures var h, n := Longer(d, dir), DirBlocks(d, dir);
      var (m, b) := MapBlock(h, dir, n, true).value;
      && GetBlock(h, dir, n) == Good((AsSlots(m.(mapped := m.mapped + {b}), b), b))
      && GrownBy(d, m.(mapped := m.mapped + {b}), dir, b, AsSlots(m.(mapped := m.mapped + {b}), b))
  {
    MapAddsBlock(d, dir);
    LongerFresh(d, dir);
    var (m, b) := MapBlock(Longer(d, dir), dir, DirBlocks(d, dir), true).value;
    MappedKeepsBlock(d, m, dir, b);
    MappedIsRead(Longer(d, dir), dir, DirBlocks(d, dir));
  }

  lemma GrowDirectory(d: Disk, dir: FileRef)
    requires Owned(d) && dir in d.files && GrowthFresh(d, dir)
    ensures WellFormed(Longer(d, dir))
    ensures var r := GetBlock(Longer(d, dir), dir, DirBlocks(d, dir));
      !r.Panic? && (r.Good? ==> exists g :: GrownBy(d, g, dir, r.value.1, r.value.0))
  {
    var n, h := DirBlocks(d, dir), Longer(d, dir);
    ResizeKeepsPointers(d, dir, d.files[dir].size + BY2BLK);
    LongerFresh(d, dir);
    MapBlockOwned(h, dir, n, true);
    if MapBlock(h, dir, n, true).Good? {
      GrowthSucceeds(d, dir);
    } else {
      RefusalIsPassedOn(h, dir, n);
    }
  }

  lemma RefusalIsPassedOn(h: Disk, dir: FileRef, n: nat)
    requires WellFormed(h) && dir in h.files && !MapBlock(h, dir, n, true).Good? && !MapBlock(h, dir, n, true).Panic?
    ensures !GetBlock(h, dir, n).Good? && !GetBlock(h, dir, n).Panic?
  {
  }

  /** `file_get_block` on a block that arrives fresh: it is mapped, and seen as slots. */
  lemma MappedIsRead(h: Disk, dir: FileRef, n: nat)
    requires WellFormed(h) && dir in h.files && MapBlock(h, dir, n, true).Good?
    requires var (m, b) := MapBlock(h, dir, n, true).value; b !in h.mapped && 0 < b < m.nblocks && b !in m.free
    ensures var (m, b) := MapBlock(h, dir, n, true).value;
      GetBlock(h, dir, n) == Good((AsSlots(m.(mapped := m.mapped + {b}), b), b))
  {
  }

  /** The new block held no slots before: it belonged to nobody. */
  lemma NewBlockHasNoSlots(d: Disk, g: Disk, dir: FileRef, b: nat, j: nat)
    requires FsOk(d) && Owned(g) && IsDir(d, dir) && OneBlockMore(d, g, dir, b)
    ensures Slot(b, j) !in d.files
  {
    if Slot(b, j) in d.files {
      var x, i: nat :| IsBlockOf(d, x, i, b);
      assert false;
    }
  }

  lemma AsSlotsKeeps(g: Disk, b: nat)
    requires Owned(g) && forall j: nat :: Slot(b, j) !in g.files
    ensures var a := AsSlots(g, b);
      && Owned(a) && HasSlots(a, b) && (forall p :: At(a, p) == At(g, p))
      && (forall f :: f in g.files ==> f in a.files && a.files[f] == g.files[f])
      && (forall f :: f in a.files && f !in g.files ==>
          f.Slot? && f.block == b && f.index < FILE2BLK && a.files[f] == EmptyFile())
  {
    var a := AsSlots(g, b);
    assert Slot(b, 0) !in g.files;
    forall j: nat | j < FILE2BLK
      ensures Slot(b, j) in a.files
    {
    }
    forall p
      ensures At(a, p) == At(g, p)
    {
      if p.f in g.files {
        assert At(g, TableAt(p.f)) == g.files[p.f].indirect;
      }
    }
  }

  /** The directories after growth: one more block of empty slots, and the same named entries. */
  ghost predicate SlotsAdded(d: Disk, a: Disk, dir: FileRef, b: nat)
    requires WellFormed(d) && WellFormed(a) && IsDir(d, dir)
  {
    && (forall f :: IsDir(a, f) <==> IsDir(d, f))
    && (forall f :: f in d.files ==> f in a.files && a.files[f].name == d.files[f].name)
    && (forall f :: f in a.files && f !in d.files ==>
        f.Slot? && f.block == b && f.index < FILE2BLK && a.files[f].name == "")
    && (forall x, i: nat :: IsDir(d, x) && i < DirBlocks(d, x) ==> DirBlock(a, x, i) == DirBlock(d, x, i))
    && (forall x :: IsDir(d, x) && x != dir ==> DirBlocks(a, x) == DirBlocks(d, x))
    && DirBlocks(a, dir) == DirBlocks(d, dir) + 1 && DirBlock(a, dir, DirBlocks(d, dir)) == b
    && DirBlocks(d, dir) < NINDIRECT && b != 0 && HasSlots(a, b) && forall j: nat :: Slot(b, j) !in d.files
  }

  lemma OldBlocksStay(d: Disk, g: Disk, a: Disk, dir: FileRef, b: nat, x: FileRef, i: nat)
    requires WellFormed(d) && WellFormed(g) && WellFormed(a) && dir in d.files && OneBlockMore(d, g, dir, b)
    requires At(a, PlaceOf(x, i)) == At(g, PlaceOf(x, i)) && x in d.files && i < DirBlocks(d, x)
    ensures DirBlock(a, x, i) == DirBlock(d, x, i)
  {
    assert PlaceOf(x, i) != PlaceOf(dir, DirBlocks(d, dir));
  }

  lemma GrownIsSlotsAdded(d: Disk, g: Disk, dir: FileRef, b: nat)
    requires FsOk(d) && Owned(g) && IsDir(d, dir) && OneBlockMore(d, g, dir, b)
    ensures Owned(AsSlots(g, b)) && SlotsAdded(d, AsSlots(g, b), dir, b)
  {
    forall j: nat
      ensures Slot(b, j) !in d.files && Slot(b, j) !in g.files
    {
      NewBlockHasNoSlots(d, g, dir, b, j);
    }
    AsSlotsKeeps(g, b);
    AddedFrom(d, g, AsSlots(g, b), dir, b);
  }

  lemma AddedFrom(d: Disk, g: Disk, a: Disk, dir: FileRef, b: nat)
    requires WellFormed(d) && WellFormed(g) && WellFormed(a) && IsDir(d, dir) && OneBlockMore(d, g, dir, b)
    requires HasSlots(a, b) && (forall j: nat :: Slot(b, j) !in d.files) && (forall p :: At(a, p) == At(g, p))
    requires forall f :: f in g.files ==> f in a.files && a.files[f] == g.files[f]
    requires forall f :: f in a.files && f !in g.files ==>
      f.Slot? && f.block == b && f.index < FILE2BLK && a.files[f] == EmptyFile()
    ensures SlotsAdded(d, a, dir, b)
  {
    BlocksStay(d, g, a, dir, b);
    DirectoriesStay(d, g, a, dir, b);
    OnlyOneLonger(d, g, a, dir, b);
  }

  lemma OnlyOneLonger(d: Disk, g: Disk, a: Disk, dir: FileRef, b: nat)
    requires WellFormed(d) && WellFormed(g) && WellFormed(a) && IsDir(d, dir) && OneBlockMore(d, g, dir, b)
    requires forall p :: At(a, p) == At(g, p)
    requires forall f :: f in g.files ==> f in a.files && a.files[f] == g.files[f]
    ensures forall x :: IsDir(d, x) && x != dir ==> DirBlocks(a, x) == DirBlocks(d, x)
    ensures DirBlocks(a, dir) == DirBlocks(d, dir) + 1 && DirBlock(a, dir, DirBlocks(d, dir)) == b
  {
  }

  lemma DirectoriesStay(d: Disk, g: Disk, a: Disk, dir: FileRef, b: nat)
    requires WellFormed(d) && WellFormed(g) && IsDir(d, dir) && OneBlockMore(d, g, dir, b)
    requires forall f :: f in g.files ==> f in a.files && a.files[f] == g.files[f]
    requires forall f :: f in a.files && f !in g.files ==> a.files[f] == EmptyFile()
    ensures forall f :: IsDir(a, f) <==> IsDir(d, f)
  {
  }

  lemma BlocksStay(d: Disk, g: Disk, a: Disk, dir: FileRef, b: nat)
    requires WellFormed(d) && WellFormed(g) && WellFormed(a) && IsDir(d, dir) && OneBlockMore(d, g, dir, b)
    requires forall p :: At(a, p) == At(g, p)
    ensures forall x, i: nat :: IsDir(d, x) && i < DirBlocks(d, x) ==> DirBlock(a, x, i) == DirBlock(d, x, i)
  {
    forall x, i: nat | IsDir(d, x) && i < DirBlocks(d, x)
      ensures DirBlock(a, x, i) == DirBlock(d, x, i)
    {
      OldBlocksStay(d, g, a, dir, b, x, i);
    }
  }

  lemma SameEntries(d: Disk, a: Disk, dir: FileRef, b: nat, x: FileRef, s: FileRef)
    requires WellFormed(d) && WellFormed(a) && IsDir(d, dir) && SlotsAdded(d, a, dir, b) && IsDir(d, x)
    ensures EntryOf(d, x, s) ==> EntryOf(a, x, s)
    ensures EntryOf(a, x, s) ==> EntryOf(d, x, s) || (x == dir && s.block == b)
  {
    if EntryOf(d, x, s) {
      var i: nat :| i < DirBlocks(d, x) && s.block == DirBlock(d, x, i);
      assert s.block == DirBlock(a, x, i);
    }
    if EntryOf(a, x, s) {
      var i: nat :| i < DirBlocks(a, x) && s.block == DirBlock(a, x, i);
      if i < DirBlocks(d, x) {
        assert s.block == DirBlock(d, x, i);
      }
    }
  }

  lemma SlotsAddedHolds(d: Disk, a: Disk, dir: FileRef, b: nat, x: FileRef, name: string, s: FileRef)
    requires WellFormed(d) && WellFormed(a) && IsDir(d, dir) && SlotsAdded(d, a, dir, b) && name != ""
    ensures Holds(a, x, name, s) <==> Holds(d, x, name, s)
  {
    if IsDir(d, x) {
      SameEntries(d, a, dir, b, x, s);
    }
  }

  lemma SlotsAddedDirOk(d: Disk, a: Disk, dir: FileRef, b: nat, x: FileRef)
    requires WellFormed(d) && WellFormed(a) && IsDir(d, dir) && SlotsAdded(d, a, dir, b) && IsDir(d, x) && DirOk(d, x)
    ensures DirOk(a, x)
  {
    forall i: nat | i < DirBlocks(a, x)
      ensures DirBlock(a, x, i) != 0 && HasSlots(a, DirBlock(a, x, i))
    {
      if i < DirBlocks(d, x) {
        assert HasSlots(d, DirBlock(d, x, i));
      }
    }
  }

  lemma SlotsAddedPlaced(d: Disk, a: Disk, dir: FileRef, b: nat)
    requires WellFormed(d) && WellFormed(a) && IsDir(d, dir) && SlotsAdded(d, a, dir, b) && SlotsPlaced(d)
    ensures SlotsPlaced(a)
  {
    forall c: nat, j: nat | Slot(c, j) in a.files
      ensures j < FILE2BLK && exists x, i: nat :: IsBlockOf(a, x, i, c)
    {
      if Slot(c, j) in d.files {
        var x, i: nat :| IsBlockOf(d, x, i, c);
        assert IsBlockOf(a, x, i, c);
      } else {
        assert IsBlockOf(a, dir, DirBlocks(d, dir), b);
      }
    }
  }

  lemma SlotsAddedOk(d: Disk, a: Disk, dir: FileRef, b: nat)
    requires FsOk(d) && IsDir(d, dir) && Owned(a) && SlotsAdded(d, a, dir, b)
    ensures FsOk(a) && forall x, name: string, s :: name != "" ==> (Holds(a, x, name, s) <==> Holds(d, x, name, s))
  {
    forall x, name: string, s | name != ""
      ensures Holds(a, x, name, s) <==> Holds(d, x, name, s)
    {
      SlotsAddedHolds(d, a, dir, b, x, name, s);
    }
    forall x | IsDir(a, x)
      ensures DirOk(a, x)
    {
      SlotsAddedDirOk(d, a, dir, b, x);
    }
    SlotsAddedPlaced(d, a, dir, b);
  }

  // ---- dir_alloc_file ----

  /** `s` is an unused entry of `dir`, and everything that has a name is as in `d`. */
  ghost predicate FoundRoom(d: Disk, a: Disk, dir: FileRef, s: FileRef)
    requires WellFormed(d)
  {
    && FsOk(a) && Holds(a, dir, "", s) && !IsDir(a, s)
    && (forall f :: IsDir(a, f) <==> IsDir(d, f))
    && (forall x, name: string, t :: name != "" ==> (Holds(a, x, name, t) <==> Holds(d, x, name, t)))
  }

  lemma GrowthFreshSame(d: Disk, e: Disk, dir: FileRef)
    requires FsOk(d) && FsOk(e) && SameButMapped(d, e) && IsDir(d, dir) && GrowthFresh(d, dir)
    ensures GrowthFresh(e, dir)
  {
    SameButMappedKeeps(d, e);
    FirstFreeSame(d, e, FIRST_DATA_BLOCK);
    if AllocBlock(d).Good? {
      FirstFreeSame(AllocBlock(d).value.0, AllocBlock(e).value.0, FIRST_DATA_BLOCK);
    }
  }

  lemma NewSlotIsRoom(d: Disk, e: Disk, g: Disk, dir: FileRef, b: nat)
    requires FsOk(d) && FsOk(e) && SameButMapped(d, e) && IsDir(e, dir) && Owned(g) && OneBlockMore(e, g, dir, b)
    ensures FoundRoom(d, AsSlots(g, b), dir, Slot(b, 0))
  {
    FsOkSame(d, e);
    GrownIsSlotsAdded(e, g, dir, b);
    var a := AsSlots(g, b);
    SlotsAddedOk(e, a, dir, b);
    assert IsBlockOf(a, dir, DirBlocks(e, dir), b);
    assert Slot(b, 0) in a.files;
  }

  /** The growing half of `dir_alloc_file`. */
  lemma GrownFindsRoom(d: Disk, e: Disk, dir: FileRef)
    requires FsOk(d) && FsOk(e) && SameButMapped(d, e) && IsDir(d, dir) && GrowthFresh(d, dir)
    ensures WellFormed(Longer(e, dir))
    ensures var r := GetBlock(Longer(e, dir), dir, DirBlocks(e, dir));
      !r.Panic? && (r.Good? ==> FoundRoom(d, r.value.0, dir, Slot(r.value.1, 0)))
  {
    GrowthFreshSame(d, e, dir);
    GrowDirectory(e, dir);
    var r := GetBlock(Longer(e, dir), dir, DirBlocks(e, dir));
    if r.Good? {
      var g :| GrownBy(e, g, dir, r.value.1, r.value.0);
      NewSlotIsRoom(d, e, g, dir, r.value.1);
    }
  }

  lemma EmptySlotIsRoom(d: Disk, e: Disk, dir: FileRef, s: FileRef)
    requires FsOk(d) && FsOk(e) && SameButMapped(d, e) && IsDir(d, dir) && Find(d, dir, "") == Some(s)
    ensures FoundRoom(d, e, dir, s)
  {
    FsOkSame(d, e);
    FindMeans(d, dir, "");
    assert Holds(d, dir, "", s);
  }

  lemma DirAllocGrows(d: Disk, dir: FileRef, e: Disk)
    requires WellFormed(d) && dir in d.files && DirLookup(d, dir, "") == (e, NotFound)
    requires WellFormed(e) && dir in e.files && WellFormed(Longer(e, dir))
    ensures var g := GetBlock(Longer(e, dir), dir, DirBlocks(e, dir));
      && (g.Good? ==> DirAllocFile(d, dir) == (g.value.0, Good(Slot(g.value.1, 0))))
      && (!g.Good? ==> DirAllocFile(d, dir) == (Longer(e, dir), Lift(g)))
  {
  }

  /** The half of `dir_alloc_file` that found no empty slot. */
  lemma GrowingFindsRoom(d: Disk, dir: FileRef, e: Disk)
    requires FsOk(d) && FsOk(e) && SameButMapped(d, e) && IsDir(d, dir) && GrowthFresh(d, dir)
    requires DirLookup(d, dir, "") == (e, NotFound) && dir in e.files
    ensures var (a, r) := DirAllocFile(d, dir);
      !r.Panic? && (r.Good? ==> FoundRoom(d, a, dir, r.value))
  {
    GrownFindsRoom(d, e, dir);
    DirAllocGrows(d, dir, e);
  }

  /** `dir_alloc_file` returns an unused entry and disturbs no named one. */
  lemma DirAllocFindsRoom(d: Disk, dir: FileRef)
    requires FsOk(d) && IsDir(d, dir) && (Find(d, dir, "").None? ==> GrowthFresh(d, dir))
    ensures var (a, r) := DirAllocFile(d, dir);
      !r.Panic? && (r.Good? ==> FoundRoom(d, a, dir, r.value))
  {
    DirLookupFinds(d, dir, "");
    var (e, r) := DirLookup(d, dir, "");
    FsOkSame(d, e);
    if r.Good? {
      EmptySlotIsRoom(d, e, dir, r.value);
    } else {
      GrowingFindsRoom(d, dir, e);
    }
  }

  // ---- giving a slot a name, taking it away ----

  lemma OneParent(d: Disk, x: FileRef, y: FileRef, s: FileRef)
    requires FsOk(d) && IsDir(d, x) && IsDir(d, y) && EntryOf(d, x, s) && EntryOf(d, y, s)
    ensures x == y
  {
    var i: nat :| i < DirBlocks(d, x) && s.block == DirBlock(d, x, i);
    var j: nat :| j < DirBlocks(d, y) && s.block == DirBlock(d, y, j);
    assert DirBlock(d, x, i) != 0;
    assert PlaceOf(x, i) == PlaceOf(y, j);
  }

  /** State `e` has the directories and entries of `d`; only the name of `s` differs. */
  ghost predicate Renamed(d: Disk, e: Disk, s: FileRef, name: string)
    requires WellFormed(d) && WellFormed(e)
  {
    && (forall f :: IsDir(e, f) <==> IsDir(d, f)) && e.files.Keys == d.files.Keys
    && (forall x :: IsDir(d, x) ==> DirBlocks(e, x) == DirBlocks(d, x))
    && (forall x, i: nat :: IsDir(d, x) ==> DirBlock(e, x, i) == DirBlock(d, x, i))
    && (forall t :: t in d.files && t != s ==> e.files[t].name == d.files[t].name)
    && s in e.files && e.files[s].name == name && !IsDir(d, s)
  }

  lemma RenamedHolds(d: Disk, e: Disk, s: FileRef, name: string, x: FileRef, nm: string, t: FileRef)
    requires WellFormed(d) && WellFormed(e) && Renamed(d, e, s, name)
    ensures Holds(e, x, nm, t) <==>
      IsDir(d, x) && EntryOf(d, x, t) && t in d.files && nm == if t == s then name else d.files[t].name
  {
    if IsDir(d, x) {
      assert EntryOf(e, x, t) == EntryOf(d, x, t);
    }
  }

  lemma RenamedPlaces(d: Disk, e: Disk, s: FileRef, name: string)
    requires FsOk(d) && Owned(e) && Renamed(d, e, s, name)
    ensures (forall x :: IsDir(e, x) ==> DirOk(e, x)) && SlotsPlaced(e) && EmptySlotsRegular(e)
  {
    forall x | IsDir(e, x)
      ensures DirOk(e, x)
    {
      assert DirOk(d, x);
      assert forall i: nat :: i < DirBlocks(d, x) ==> HasSlots(d, DirBlock(d, x, i));
    }
    forall b: nat, j: nat | Slot(b, j) in e.files
      ensures j < FILE2BLK && exists x, i: nat :: IsBlockOf(e, x, i, b)
    {
      var x, i: nat :| IsBlockOf(d, x, i, b);
      assert IsBlockOf(e, x, i, b);
    }
  }

  /** Clearing the name of a slot takes it out of its directory. */
  lemma Unnamed(d: Disk, e: Disk, s: FileRef)
    requires FsOk(d) && Owned(e) && Renamed(d, e, s, "")
    ensures FsOk(e) && Without(d, e, s)
  {
    RenamedPlaces(d, e, s, "");
    forall x, nm: string, t | nm != ""
      ensures Holds(e, x, nm, t) <==> Holds(d, x, nm, t) && t != s
    {
      RenamedHolds(d, e, s, "", x, nm, t);
    }
  }

  /** Naming an unused slot puts it into its directory and nowhere else. */
  lemma Named(d: Disk, e: Disk, dir: FileRef, s: FileRef, name: string)
    requires FsOk(d) && Owned(e) && Holds(d, dir, "", s) && name != "" && Renamed(d, e, s, name)
    requires forall t :: !Holds(d, dir, name, t)
    ensures FsOk(e) && Without(e, d, s) && Holds(e, dir, name, s)
  {
    RenamedPlaces(d, e, s, name);
    RenamedHolds(d, e, s, name, dir, name, s);
    forall x, nm: string, t | nm != ""
      ensures Holds(d, x, nm, t) <==> Holds(e, x, nm, t) && t != s
    {
      RenamedHolds(d, e, s, name, x, nm, t);
    }
    forall x, nm: string, t, u | Holds(e, x, nm, t) && Holds(e, x, nm, u) && nm != ""
      ensures t == u
    {
      RenamedHolds(d, e, s, name, x, nm, t);
      RenamedHolds(d, e, s, name, x, nm, u);
      if t == s || u == s {
        OneParent(d, x, dir, s);
      }
    }
  }

  lemma WithNameIsRenamed(d: Disk, s: FileRef, name: string)
    requires Owned(d) && s in d.files && !IsDir(d, s)
    ensures Owned(WithName(d, s, name)) && Renamed(d, WithName(d, s, name), s, name)
  {
    var e := WithName(d, s, name);
    assert forall p :: At(e, p) == At(d, p);
  }

  // ---- the round trips ----

  /** Paths with other names than `names` lead to the same files in both states. */
  ghost predicate OtherPathsSame(d: Disk, e: Disk, names: seq<string>) {
    forall q: string, f :: Names(q) != names ==> (Open(e, q) == Good(f) <==> Open(d, q) == Good(f))
  }

  /** The last name of a path stands in the directory that the names before it lead to. */
  lemma {:induction false} LocateEnds(d: Disk, file: FileRef, front: seq<string>, last: string, s: FileRef)
    requires FsOk(d) && RealNames(front) && last != "" && Locate(d, file, front + [last]) == Good(s)
    ensures Locate(d, file, front).Good? && Holds(d, Locate(d, file, front).value, last, s)
    decreases |front|
  {
    var names := front + [last];
    if front == [] {
      assert names == [last] && names[1..] == [];
      FindHolds(d, file, last, s);
    } else {
      assert names[0] == front[0] && names[1..] == front[1..] + [last];
      LocateEnds(d, Find(d, file, front[0]).value, front[1..], last, s);
    }
  }

  /** The directory before the last name, and the last name, are what the slot says. */
  lemma SlotTells(d: Disk, a: seq<string>, m: string, b: seq<string>, n: string, s: FileRef)
    requires FsOk(d) && RealNames(a) && RealNames(b) && m != "" && n != ""
    requires Locate(d, RootFile, a + [m]) == Good(s) && Locate(d, RootFile, b + [n]) == Good(s)
    ensures m == n && Locate(d, RootFile, a).Good? && Locate(d, RootFile, a) == Locate(d, RootFile, b)
  {
    LocateEnds(d, RootFile, a, m, s);
    LocateEnds(d, RootFile, b, n, s);
    OneParent(d, Locate(d, RootFile, a).value, Locate(d, RootFile, b).value, s);
  }

  lemma RootHasNoName(d: Disk, front: seq<string>, last: string)
    requires FsOk(d) && RealNames(front) && last != ""
    ensures Locate(d, RootFile, front + [last]) != Good(RootFile)
  {
    if Locate(d, RootFile, front + [last]) == Good(RootFile) {
      LocateEnds(d, RootFile, front, last, RootFile);
    }
  }

  lemma SplitLast(a: seq<string>)
    requires a != [] && RealNames(a)
    ensures var n := |a| - 1; a == a[..n] + [a[n]] && RealNames(a[..n]) && a[n] != ""
  {
  }

  /** In a well-kept file system a file has one path: two lists of names that lead to it are equal. */
  lemma {:induction false} PathUnique(d: Disk, a: seq<string>, b: seq<string>, s: FileRef)
    requires FsOk(d) && RealNames(a) && RealNames(b)
    requires Locate(d, RootFile, a) == Good(s) && Locate(d, RootFile, b) == Good(s)
    ensures a == b
    decreases |a|
  {
    if a != [] && b != [] {
      SplitLast(a);
      SplitLast(b);
      var x, y := a[..|a| - 1], b[..|b| - 1];
      SlotTells(d, x, a[|a| - 1], y, b[|b| - 1], s);
      PathUnique(d, x, y, Locate(d, RootFile, x).value);
    } else if a != [] {
      SplitLast(a);
      RootHasNoName(d, a[..|a| - 1], a[|a| - 1]);
    } else if b != [] {
      SplitLast(b);
      RootHasNoName(d, b[..|b| - 1], b[|b| - 1]);
    }
  }

  lemma OpenLocates(d: Disk, p: string)
    requires FsOk(d)
    ensures Open(d, p) == Locate(d, RootFile, Names(p)) && RealNames(Names(p))
  {
    ResolveLocates(d, RootFile, None, Names(p));
    NonEmptyReal(Split(p));
  }

  /** With slot `s`, to which `names` lead, and without it, the paths with other names lead to the same files. */
  lemma WithoutMeansOthersSame(d: Disk, e: Disk, s: FileRef, names: seq<string>)
    requires FsOk(d) && FsOk(e) && Without(d, e, s) && !IsDir(d, s)
    requires RealNames(names) && Locate(d, RootFile, names) == Good(s)
    ensures OtherPathsSame(d, e, names) && OtherPathsSame(e, d, names)
    ensures forall q: string :: Names(q) == names ==> Open(d, q) == Good(s) && Open(e, q) == NotFound
  {
    forall q: string, f
      ensures Names(q) != names ==> (Open(e, q) == Good(f) <==> Open(d, q) == Good(f))
      ensures Names(q) == names ==> Open(d, q) == Good(s) && Open(e, q) == NotFound
    {
      OpenLocates(d, q);
      OpenLocates(e, q);
      LocateWithout(d, e, s, RootFile, Names(q));
      if f == s && Open(d, q) == Good(f) {
        PathUnique(d, Names(q), names, s);
      }
    }
  }

  /** Where the walk of `file_create` ends has room for zeroed growth. */
  ghost predicate RoomIsFresh(d: Disk, p: string) {
    var w := Resolve(d, RootFile, None, Names(p));
    w.pdir.Some? && WellFormed(w.disk) && w.pdir.value in w.disk.files && Find(w.disk, w.pdir.value, "").None? ==>
      GrowthFresh(w.disk, w.pdir.value)
  }

  lemma CreateFilledIn(d: Disk, p: string)
    requires Create(d, p).1.Good?
    ensures Resolve(d, RootFile, None, Names(p)).last.Some?
  {
  }

  lemma NameThere(d: Disk, a: Disk, dir: FileRef, s: FileRef, name: string)
    requires FsOk(d) && IsDir(d, dir) && name != "" && Find(d, dir, name).None? && FoundRoom(d, a, dir, s)
    ensures var e := WithName(a, s, name);
      FsOk(e) && Without(e, a, s) && !IsDir(e, s) && Holds(e, dir, name, s)
  {
    WithNameIsRenamed(a, s, name);
    forall t
      ensures !Holds(a, dir, name, t)
    {
      FindHolds(d, dir, name, t);
    }
    Named(a, WithName(a, s, name), dir, s, name);
  }

  lemma WithoutFound(d: Disk, a: Disk, e: Disk, dir: FileRef, s: FileRef)
    requires WellFormed(d) && FoundRoom(d, a, dir, s) && WellFormed(e) && Without(e, a, s)
    ensures Without(e, d, s)
  {
  }

  lemma FoundThenNamed(d: Disk, a: Disk, names: seq<string>, dir: FileRef, s: FileRef)
    requires FsOk(d) && names != [] && RealNames(names) && IsDir(d, dir)
    requires Locate(d, RootFile, names[..|names| - 1]) == Good(dir)
    requires |names[|names| - 1]| < MAXNAMELEN && Find(d, dir, names[|names| - 1]).None?
    requires FoundRoom(d, a, dir, s)
    ensures var e := WithName(a, s, names[|names| - 1]);
      FsOk(e) && Without(e, d, s) && !IsDir(e, s) && Locate(e, RootFile, names) == Good(s)
  {
    var n := |names| - 1;
    var e := WithName(a, s, names[n]);
    NameThere(d, a, dir, s, names[n]);
    WithoutFound(d, a, e, dir, s);
    LocateNamed(d, e, names, dir, s);
  }

  lemma LocateNamed(d: Disk, e: Disk, names: seq<string>, dir: FileRef, s: FileRef)
    requires FsOk(d) && FsOk(e) && Without(e, d, s) && names != [] && RealNames(names) && !IsDir(e, s)
    requires Locate(d, RootFile, names[..|names| - 1]) == Good(dir) && IsDir(d, dir)
    requires |names[|names| - 1]| < MAXNAMELEN && Holds(e, dir, names[|names| - 1], s)
    ensures Locate(e, RootFile, names) == Good(s)
  {
    LocateWithout(e, d, s, RootFile, names[..|names| - 1]);
    LocateSnoc(e, RootFile, names);
    LocateOne(e, dir, names[|names| - 1], s);
  }

  lemma LocateOne(e: Disk, dir: FileRef, name: string, s: FileRef)
    requires FsOk(e) && name != "" && |name| < MAXNAMELEN && Holds(e, dir, name, s)
    ensures Locate(e, dir, [name]) == Good(s)
  {
    FindHolds(e, dir, name, s);
    assert [name][1..] == [];
  }

  /** `file_create` puts one slot into the tree, where the path leads. */
  lemma CreateAddsSlot(d: Disk, p: string)
    requires FsOk(d) && RoomIsFresh(d, p) && Create(d, p).1.Good?
    ensures var (e, r) := Create(d, p);
      && FsOk(e) && Without(e, d, r.value) && !IsDir(e, r.value) && r.value != RootFile
      && Locate(e, RootFile, Names(p)) == r
  {
    var w := Resolve(d, RootFile, None, Names(p));
    NonEmptyReal(Split(p));
    CreateFilledIn(d, p);
    ResolveMissing(d, Names(p));
    FsOkSame(d, w.disk);
    DirAllocFindsRoom(w.disk, w.pdir.value);
    var (a, r) := DirAllocFile(w.disk, w.pdir.value);
    FoundRoomSame(d, w.disk, a, w.pdir.value, r.value);
    FoundThenNamed(d, a, Names(p), w.pdir.value, r.value);
  }

  lemma FoundRoomSame(d: Disk, e: Disk, a: Disk, dir: FileRef, s: FileRef)
    requires FsOk(d) && FsOk(e) && SameButMapped(d, e) && FoundRoom(e, a, dir, s)
    ensures FoundRoom(d, a, dir, s)
  {
    FsOkSame(d, e);
  }

  /**
   After a successful `file_create(path)`, the paths that open the new slot are exactly those with the
   names of `path`, which opened nothing before; every other path opens what it did, and the names of
   every directory are still unique.
   */
  lemma CreateThenOpen(d: Disk, p: string)
    requires FsOk(d) && RoomIsFresh(d, p) && Create(d, p).1.Good?
    ensures var (e, r) := Create(d, p);
      && FsOk(e) && Open(e, p) == r
      && (forall q: string :: Open(e, q) == r <==> Names(q) == Names(p))
      && (forall q: string :: Names(q) == Names(p) ==> Open(d, q) == NotFound)
      && OtherPathsSame(d, e, Names(p))
  {
    var (e, r) := Create(d, p);
    CreateAddsSlot(d, p);
    OpenLocates(e, p);
    WithoutMeansOthersSame(e, d, r.value, Names(p));
    forall q: string
      ensures Open(e, q) == r <==> Names(q) == Names(p)
    {
      OpenLocates(e, q);
      if Open(e, q) == r {
        PathUnique(e, Names(q), Names(p), r.value);
      }
    }
  }

  /**
   After `file_remove(path)` of a file that is neither a directory nor the root, every path with the
   names of `path` is NOT_FOUND, and every other path opens what it did, which is never the removed slot.
   */
  lemma RemoveThenOpen(d: Disk, p: string, s: FileRef)
    requires FsOk(d) && Open(d, p) == Good(s) && s != RootFile && s in d.files && !IsDir(d, s)
    ensures var (e, r) := Remove(d, p);
      && r == Good(()) && FsOk(e)
      && (forall q: string :: Names(q) == Names(p) ==> Open(e, q) == NotFound)
      && OtherPathsSame(d, e, Names(p))
      && (forall q: string :: Open(e, q) != Good(s))
  {
    ResolveLocates(d, RootFile, None, Names(p));
    var w := Resolve(d, RootFile, None, Names(p));
    FsOkSame(d, w.disk);
    RemovedSlot(d, w.disk, s);
    var e := Remove(d, p).0;
    OpenLocates(d, p);
    WithoutMeansOthersSame(d, e, s, Names(p));
    forall q: string
      ensures Open(e, q) != Good(s)
    {
      OpenLocates(e, q);
      LocateWithout(d, e, s, RootFile, Names(q));
    }
  }

  lemma TruncateRenames(c: Disk, s: FileRef)
    requires FsOk(c) && s in c.files && !IsDir(c, s)
    ensures Truncate(c, s, 0).Some?
    ensures var t := Truncate(c, s, 0).value;
      Owned(t) && Renamed(c, t, s, c.files[s].name)
  {
    TruncateOwned(c, s, 0);
    TypesStay(c, Truncate(c, s, 0).value, s);
  }

  lemma TypesStay(c: Disk, t: Disk, s: FileRef)
    requires WellFormed(c) && WellFormed(t) && !IsDir(c, s) && s in c.files && t.files.Keys == c.files.Keys
    requires forall p: Place :: p.f != s ==> At(t, p) == At(c, p)
    requires forall g :: g in c.files ==>
      t.files[g].name == c.files[g].name && t.files[g].ftype == c.files[g].ftype && (g != s ==>
        t.files[g].size == c.files[g].size)
    ensures Renamed(c, t, s, c.files[s].name)
  {
    OtherBlocksStay(c, t, s);
  }

  lemma OtherBlocksStay(c: Disk, t: Disk, s: FileRef)
    requires WellFormed(c) && WellFormed(t) && !IsDir(c, s) && forall p: Place :: p.f != s ==> At(t, p) == At(c, p)
    ensures forall x, i: nat :: IsDir(c, x) ==> DirBlock(t, x, i) == DirBlock(c, x, i)
  {
    forall x, i: nat | IsDir(c, x)
      ensures DirBlock(t, x, i) == DirBlock(c, x, i)
    {
      assert PlaceOf(x, i).f == x;
    }
  }

  lemma RenamedTwice(c: Disk, t: Disk, e: Disk, s: FileRef, first: string, second: string)
    requires WellFormed(c) && WellFormed(t) && WellFormed(e) && Renamed(c, t, s, first) && Renamed(t, e, s, second)
    ensures Renamed(c, e, s, second)
  {
  }

  lemma TruncatedRenamed(c: Disk, s: FileRef)
    requires FsOk(c) && s in c.files && !IsDir(c, s)
    ensures Truncate(c, s, 0).Some? && s in Truncate(c, s, 0).value.files
    ensures var e := WithName(Truncate(c, s, 0).value, s, "");
      Owned(e) && Renamed(c, e, s, "")
  {
    TruncateRenames(c, s);
    var t := Truncate(c, s, 0).value;
    WithNameIsRenamed(t, s, "");
    RenamedTwice(c, t, WithName(t, s, ""), s, c.files[s].name, "");
  }

  lemma RemovedSlot(d: Disk, c: Disk, s: FileRef)
    requires FsOk(d) && FsOk(c) && SameButMapped(d, c) && s in d.files && !IsDir(d, s)
    ensures Truncate(c, s, 0).Some? && s in Truncate(c, s, 0).value.files
    ensures var e := WithName(Truncate(c, s, 0).value, s, "");
      FsOk(e) && Without(d, e, s)
  {
    FsOkSame(d, c);
    TruncatedRenamed(c, s);
    Unnamed(c, WithName(Truncate(c, s, 0).value, s, ""), s);
  }

  // ---- the calls that fail ----

  /** The block that would extend the directory is not to be had. */
  ghost predicate CannotGrow(d: Disk, dir: FileRef)
    requires WellFormed(d) && dir in d.files
  {
    var e := DirLookup(d, dir, "").0;
    && WellFormed(e) && dir in e.files && WellFormed(Longer(e, dir))
    && !MapBlock(Longer(e, dir), dir, DirBlocks(e, dir), true).Good?
  }

  /** Only the last name of the path is missing, its directory is full, and it cannot grow. */
  ghost predicate NoRoom(d: Disk, p: string) {
    var w := Resolve(d, RootFile, None, Names(p));
    && w.last.Some? && w.pdir.Some? && WellFormed(w.disk) && w.pdir.value in w.disk.files
    && Find(w.disk, w.pdir.value, "").None? && CannotGrow(w.disk, w.pdir.value)
  }

  lemma EarlyFailure(d: Disk, p: string)
    requires FsOk(d) && Resolve(d, RootFile, None, Names(p)).last.None?
    ensures var (e, r) := Create(d, p);
      && FsOk(e) && SameButMapped(d, e)
      && r == if Open(d, p).Good? then FileExists else Open(d, p)
  {
    ResolveLocates(d, RootFile, None, Names(p));
    FsOkSame(d, Resolve(d, RootFile, None, Names(p)).disk);
  }

  /** A directory that was made longer without a block is not well kept. */
  lemma HoleIsNotOk(d: Disk, e: Disk, dir: FileRef)
    requires FsOk(d) && FsOk(e) && SameButMapped(d, e) && IsDir(d, dir) && GrowthFresh(d, dir)
    ensures !FsOk(Longer(e, dir))
  {
    var h, n := Longer(e, dir), DirBlocks(e, dir);
    SameButMappedKeeps(d, e);
    ResizeKeepsPointers(e, dir, e.files[dir].size + BY2BLK);
    assert IsDir(h, dir) && DirBlocks(h, dir) == n + 1;
    assert DirBlock(h, dir, n) == 0;
    assert !DirOk(h, dir);
  }

  /** `dir_alloc_file` fails exactly if it has to grow the directory and cannot, and leaves it longer all the same. */
  lemma AllocFailsIff(d: Disk, dir: FileRef)
    requires FsOk(d) && IsDir(d, dir) && (Find(d, dir, "").None? ==> GrowthFresh(d, dir))
    ensures var (a, r) := DirAllocFile(d, dir);
      && (r.Good? <==> Find(d, dir, "").Some? || !CannotGrow(d, dir)) && (!r.Good? ==> !FsOk(a))
  {
    DirLookupFinds(d, dir, "");
    var e := DirLookup(d, dir, "").0;
    if Find(d, dir, "").None? {
      FsOkSame(d, e);
      GrowthFreshSame(d, e, dir);
      GrowingFailsIff(d, e, dir);
      HoleIsNotOk(d, e, dir);
    }
  }

  lemma GrowingFailsIff(d: Disk, e: Disk, dir: FileRef)
    requires WellFormed(d) && dir in d.files && DirLookup(d, dir, "") == (e, NotFound)
    requires Owned(e) && dir in e.files && GrowthFresh(e, dir)
    ensures var (a, r) := DirAllocFile(d, dir);
      && (r.Good? <==> !CannotGrow(d, dir)) && (!r.Good? ==> a == Longer(e, dir))
  {
    GrowFailsIff(e, dir);
    DirAllocGrows(d, dir, e);
  }

  lemma GrowFailsIff(e: Disk, dir: FileRef)
    requires Owned(e) && dir in e.files && GrowthFresh(e, dir)
    ensures WellFormed(Longer(e, dir))
    ensures var n := DirBlocks(e, dir);
      GetBlock(Longer(e, dir), dir, n).Good? <==> MapBlock(Longer(e, dir), dir, n, true).Good?
  {
    var n, h := DirBlocks(e, dir), Longer(e, dir);
    ResizeKeepsPointers(e, dir, e.files[dir].size + BY2BLK);
    LongerFresh(e, dir);
    MapBlockOwned(h, dir, n, true);
    if MapBlock(h, dir, n, true).Good? {
      GrowthSucceeds(e, dir);
    } else {
      RefusalIsPassedOn(h, dir, n);
    }
  }

  /** What `file_create` makes of a directory that lacks the name. */
  lemma LateFailure(d: Disk, p: string)
    requires FsOk(d) && RoomIsFresh(d, p) && Resolve(d, RootFile, None, Names(p)).last.Some?
    ensures Open(d, p) == NotFound
    ensures var (e, r) := Create(d, p);
      && (r == NotFound || r.Good?) && (r.Good? <==> !NoRoom(d, p)) && (NoRoom(d, p) ==> !FsOk(e))
  {
    var w := Resolve(d, RootFile, None, Names(p));
    ResolveMissing(d, Names(p));
    FsOkSame(d, w.disk);
    DirAllocFindsRoom(w.disk, w.pdir.value);
    AllocFailsIff(w.disk, w.pdir.value);
  }

  /**
   The answers of `file_create`: FILE_EXISTS for a path that opens, the path's own error if more than its
   last name is missing or a name is too long, and NOT_FOUND if there is no room.  It leaves the file
   system well kept unless there is no room: then the directory has a hole at its end.
   */
  lemma CreateAnswers(d: Disk, p: string)
    requires FsOk(d) && RoomIsFresh(d, p)
    ensures var (e, r) := Create(d, p);
      && (r == FileExists <==> Open(d, p).Good?)
      && (r == BadPath <==> Open(d, p) == BadPath)
      && (r == NotFound <==>
            Open(d, p) == NotFound && (NoRoom(d, p) || Resolve(d, RootFile, None, Names(p)).last.None?))
      && (r.Good? || r == FileExists || r == BadPath || r == NotFound)
      && (FsOk(e) <==> !NoRoom(d, p))
  {
    OpenLocates(d, p);
    LocateBadIff(d, RootFile, Names(p));
    if Resolve(d, RootFile, None, Names(p)).last.None? {
      EarlyFailure(d, p);
    } else {
      LateFailure(d, p);
      if !NoRoom(d, p) {
        CreateThenOpen(d, p);
      }
    }
  }

  /** `file_remove` of a path that opens nothing answers with the path's error and changes nothing. */
  lemma RemoveFails(d: Disk, p: string)
    requires FsOk(d) && !Open(d, p).Good?
    ensures var (e, r) := Remove(d, p);
      && SameButMapped(d, e) && (r == NotFound || r == BadPath)
      && (r == NotFound <==> Open(d, p) == NotFound) && (r == BadPath <==> Open(d, p) == BadPath)
  {
    ResolveLocates(d, RootFile, None, Names(p));
    LocateBadIff(d, RootFile, Names(p));
  }
}
