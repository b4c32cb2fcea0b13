/** Directory search as the file server runs it: loops over blocks and slots of the state in place. */
module FsLookup {
  import opened Options
  import opened FsBlocks
  import opened FsServer
  import opened FsDir
  import opened FsTree
  import opened FsRoundTrip

  /** The inner loop of `dir_lookup` and `dir_alloc_file`: `strcmp` on sixteen slots. */
  method FindSlot(fs: FileServer, b: nat, name: string) returns (s: Option<FileRef>)
    requires fs.Shaped()
    ensures s == FindInBlock(fs.State().files, b, name, 0)
  {
    var j := 0;
    while j < FILE2BLK
      invariant j <= FILE2BLK && FindInBlock(fs.files, b, name, 0) == FindInBlock(fs.files, b, name, j)
    {
      if Slot(b, j) in fs.files && fs.files[Slot(b, j)].name == name {
        return Some(Slot(b, j));
      }
      j := j + 1;
    }
    s := None;
  }

  /** `file_get_block` on a block the directory has. */
  method GetDirBlock(fs: FileServer, dir: FileRef, i: nat) returns (b: nat)
    requires fs.Valid() && DirOk(fs.State(), dir) && i < DirBlocks(fs.State(), dir)
    modifies fs`mapped, fs`words, fs`files, fs.bitmap
    ensures fs.Valid() && GetBlock(old(fs.State()), dir, i) == Good((fs.State(), b))
    ensures SameButMapped(old(fs.State()), fs.State())
  {
    ghost var d := fs.State();
    GetBlockDense(d, dir, i);
    HasTable(d, dir, i);
    var r := fs.FileMapBlock(dir, i, true);
    GetIsMapThenRead(d, dir, i);
    b := r.value;
    var ok := fs.ReadBlockPage(b);
    SameButMappedKeeps(d, fs.State());
  }

  lemma HasTable(d: Disk, dir: FileRef, i: nat)
    requires Owned(d) && DirOk(d, dir) && i < DirBlocks(d, dir)
    ensures TableArrivesEmpty(d, dir, i, true) && (i >= NDIRECT ==> d.files[dir].indirect != 0)
  {
    assert DirBlock(d, dir, i) != 0;
  }

  lemma GetIsMapThenRead(d: Disk, dir: FileRef, i: nat)
    requires Owned(d) && DirOk(d, dir) && i < DirBlocks(d, dir)
    ensures MapBlock(d, dir, i, true).Good?
    ensures var (e, b) := MapBlock(d, dir, i, true).value;
      ReadBlock(e, b).Good? && GetBlock(d, dir, i) == Good((ReadBlock(e, b).value, b))
  {
    GetBlockDense(d, dir, i);
    HasTable(d, dir, i);
    MapBlockOwned(d, dir, i, true);
    BlockWalkOwned(d, dir, i, true);
    assert HasSlots(d, DirBlock(d, dir, i));
    assert Slot(DirBlock(d, dir, i), 0) in d.files;
  }

  /** The search of `d` has reached block `i` in state `e`. */
  ghost predicate Searching(d: Disk, e: Disk, dir: FileRef, name: string, i: nat) {
    && Owned(d) && Owned(e) && SameButMapped(d, e) && DirOk(d, dir) && DirOk(e, dir)
    && LookupFrom(e, dir, name, i, DirBlocks(e, dir)) == DirLookup(d, dir, name)
  }

  lemma SearchStep(d: Disk, e: Disk, g: Disk, dir: FileRef, name: string, i: nat, b: nat)
    requires Searching(d, e, dir, name, i) && i < DirBlocks(e, dir)
    requires GetBlock(e, dir, i) == Good((g, b)) && Owned(g) && SameButMapped(e, g)
    ensures var s := FindInBlock(g.files, b, name, 0);
      && (s.Some? ==> DirLookup(d, dir, name) == (g, Good(s.value)))
      && (s.None? ==> Searching(d, g, dir, name, i + 1))
  {
    SameButMappedKeeps(e, g);
  }

  lemma SearchEnd(d: Disk, e: Disk, dir: FileRef, name: string)
    requires dir in e.files && Searching(d, e, dir, name, DirBlocks(e, dir))
    ensures DirLookup(d, dir, name) == (e, NotFound)
  {
  }

  /** `dir_lookup`. */
  method LookupName(fs: FileServer, dir: FileRef, name: string) returns (s: Option<FileRef>)
    requires fs.Valid() && DirOk(fs.State(), dir)
    modifies fs`mapped, fs`words, fs`files, fs.bitmap
    ensures fs.Valid() && DirLookup(old(fs.State()), dir, name) == (fs.State(), AsResult(s))
    ensures SameButMapped(old(fs.State()), fs.State()) && s == Find(old(fs.State()), dir, name)
  {
    ghost var d := fs.State();
    DirLookupFinds(d, dir, name);
    var n := fs.files[dir].size / BY2BLK;
    var i := 0;
    while i < n
      invariant i <= n == DirBlocks(d, dir) && fs.Valid() && Searching(d, fs.State(), dir, name, i)
    {
      ghost var e := fs.State();
      var b := GetDirBlock(fs, dir, i);
      SearchStep(d, e, fs.State(), dir, name, i, b);
      s := FindSlot(fs, b, name);
      if s.Some? {
        return;
      }
      i := i + 1;
    }
    SearchEnd(d, fs.State(), dir, name);
    s := None;
  }

  /** After a search for an empty slot in vain the directory can be made longer. */
  lemma ReadyToGrow(d: Disk, e: Disk, dir: FileRef)
    requires FsOk(d) && IsDir(d, dir) && GrowthFresh(d, dir) && SameButMapped(d, e)
    ensures dir in e.files && Owned(e) && Owned(Longer(e, dir))
    ensures var n, h := DirBlocks(e, dir), Longer(e, dir);
      && TableArrivesEmpty(h, dir, n, true)
      && (MapBlock(h, dir, n, true).Good? ==> MapBlock(h, dir, n, true).value.1 !in h.mapped)
  {
    FsOkSame(d, e);
    GrowthFreshSame(d, e, dir);
    LongerIsReady(e, dir);
  }

  lemma LongerIsReady(e: Disk, dir: FileRef)
    requires Owned(e) && dir in e.files && GrowthFresh(e, dir)
    ensures Owned(Longer(e, dir))
    ensures var n, h := DirBlocks(e, dir), Longer(e, dir);
      && TableArrivesEmpty(h, dir, n, true)
      && (MapBlock(h, dir, n, true).Good? ==> MapBlock(h, dir, n, true).value.1 !in h.mapped)
  {
    ResizeKeepsPointers(e, dir, e.files[dir].size + BY2BLK);
    LongerFresh(e, dir);
  }

  lemma GrowsTheSame(d: Disk, e: Disk, dir: FileRef)
    requires WellFormed(d) && dir in d.files && SameButMapped(d, e) && DirLookup(d, dir, "") == (e, NotFound)
    requires Owned(e) && Owned(Longer(e, dir))
    ensures var g := GetBlock(Longer(e, dir), dir, DirBlocks(e, dir));
      && (g.Good? ==> DirAllocFile(d, dir) == (g.value.0, Good(Slot(g.value.1, 0))))
      && (!g.Good? ==> !DirAllocFile(d, dir).1.Good?)
  {
    DirAllocGrows(d, dir, e);
  }

  /** `dir_alloc_file`: an empty slot, or the first slot of one more block. */
  method AllocSlot(fs: FileServer, dir: FileRef) returns (r: Option<FileRef>)
    requires fs.Valid() && FsOk(fs.State()) && IsDir(fs.State(), dir)
    requires Find(fs.State(), dir, "").None? ==> GrowthFresh(fs.State(), dir)
    modifies fs`mapped, fs`words, fs`files, fs.bitmap
    ensures fs.Shaped()
    ensures r.Some? ==> DirAllocFile(old(fs.State()), dir) == (fs.State(), Good(r.value))
    ensures r.None? ==> !DirAllocFile(old(fs.State()), dir).1.Good?
  {
    ghost var d := fs.State();
    r := LookupName(fs, dir, "");
    if r.None? {
      ReadyToGrow(d, fs.State(), dir);
      GrowsTheSame(d, fs.State(), dir);
      r := GrowInto(fs, dir, fs.files[dir].size / BY2BLK);
    }
  }

  /** One block more: the size first. */
  method GrowInto(fs: FileServer, dir: FileRef, n: nat) returns (r: Option<FileRef>)
    requires fs.Valid() && dir in fs.files && Owned(Longer(fs.State(), dir)) &&
      TableArrivesEmpty(Longer(fs.State(), dir), dir, n, true)
    requires var m := MapBlock(Longer(fs.State(), dir), dir, n, true); m.Good? ==> m.value.1 !in fs.mapped
    modifies fs`mapped, fs`words, fs`files, fs.bitmap
    ensures fs.Shaped() && SlotOf(GetBlock(Longer(old(fs.State()), dir), dir, n), fs.State(), r)
  {
    fs.files := fs.files[dir := fs.files[dir].(size := fs.files[dir].size + BY2BLK)];
    r := NewBlock(fs, dir, n);
  }

  /** The first slot of the block that `file_get_block` returned, if it did. */
  ghost predicate SlotOf(g: Result<(Disk, nat)>, a: Disk, r: Option<FileRef>) {
    if r.Some? then r.value.Slot? && r.value.index == 0 && g == Good((a, r.value.block)) else !g.Good?
  }

  /** Then the mapping, and the page of zeros read as slots. */
  method NewBlock(fs: FileServer, dir: FileRef, n: nat) returns (r: Option<FileRef>)
    requires fs.Valid() && dir in fs.files && TableArrivesEmpty(fs.State(), dir, n, true)
    requires MapBlock(fs.State(), dir, n, true).Good? ==> MapBlock(fs.State(), dir, n, true).value.1 !in fs.mapped
    modifies fs`mapped, fs`words, fs`files, fs.bitmap
    ensures fs.Shaped() && SlotOf(GetBlock(old(fs.State()), dir, n), fs.State(), r)
  {
    MapBlockOwned(fs.State(), dir, n, true);
    var b := fs.FileMapBlock(dir, n, true);
    if !b.Good? {
      return None;
    }
    var ok := fs.ReadBlockPage(b.value);
    ReadAsSlots(fs, b.value);
    r := Some(Slot(b.value, 0));
  }

  method ReadAsSlots(fs: FileServer, b: nat)
    requires fs.Shaped()
    modifies fs`files
    ensures fs.Shaped() && fs.State() == AsSlots(old(fs.State()), b)
  {
    if Slot(b, 0) !in fs.files {
      fs.files := map f | f in fs.files.Keys + (set j: nat | 0 <= j < FILE2BLK :: Slot(b, j)) ::
          if f in fs.files then fs.files[f] else EmptyFile();
    }
  }
}
