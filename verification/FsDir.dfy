/** Directories: lookup by name over the blocks of a directory file, and making a new slot. */
module FsDir {
  import opened Options
  import opened FsBlocks

  function DirBlocks(d: Disk, dir: FileRef): nat
    requires dir in d.files
  {
    d.files[dir].size / BY2BLK
  }

  // ---- the code: dir_lookup and dir_alloc_file ----

  /** A page of zeros read as slots: sixteen empty ones. */
  function AsSlots(d: Disk, b: nat): Disk {
    if Slot(b, 0) in d.files then d
    else d.(files := map f | f in d.files.Keys + (set j: nat | 0 <= j < FILE2BLK :: Slot(b, j)) ::
                       if f in d.files then d.files[f] else EmptyFile())
  }

  /** `file_get_block` on a directory.  Only a page that was not mapped before is known to arrive zeroed. */
  function GetBlock(d: Disk, dir: FileRef, i: nat): Result<(Disk, nat)>
    requires WellFormed(d) && dir in d.files
  {
    match MapBlock(d, dir, i, true)
    case Good((e, b)) =>
      (match ReadBlock(e, b)
       case Good(g) => Good((if b in d.mapped then g else AsSlots(g, b), b))
       case _ => Panic)
    case NotFound => NotFound
    case Invalid => Invalid
    case NoDisk => NoDisk
    case _ => Panic
  }

  /** The first slot of block `b`, from `j` on, that carries `name`. */
  function FindInBlock(files: map<FileRef, File>, b: nat, name: string, j: nat): (r: Option<FileRef>)
    decreases FILE2BLK - j
  {
    if j >= FILE2BLK then None
    else if Slot(b, j) in files && files[Slot(b, j)].name == name then Some(Slot(b, j))
    else FindInBlock(files, b, name, j + 1)
  }

  function Lift<T>(r: Result<(Disk, nat)>): Result<T>
    requires !r.Good?
  {
    match r
    case NotFound => NotFound
    case Invalid => Invalid
    case NoDisk => NoDisk
    case BadPath => BadPath
    case FileExists => FileExists
    case Panic => Panic
  }

  /** The loop of `dir_lookup` over blocks `i` to `n - 1`. */
  function LookupFrom(d: Disk, dir: FileRef, name: string, i: nat, n: nat): (Disk, Result<FileRef>)
    requires WellFormed(d) && dir in d.files
    decreases n - i
  {
    if i >= n then (d, NotFound)
    else
      var r := GetBlock(d, dir, i);
      if !r.Good? then (d, Lift(r))
      else
        var (e, b) := r.value;
        var s := FindInBlock(e.files, b, name, 0);
        if s.Some? then (e, Good(s.value))
        else if WellFormed(e) && dir in e.files then LookupFrom(e, dir, name, i + 1, n)
        else (e, Panic)
  }

  /** `dir_lookup`. */
  function DirLookup(d: Disk, dir: FileRef, name: string): (Disk, Result<FileRef>)
    requires WellFormed(d) && dir in d.files
  {
    LookupFrom(d, dir, name, 0, DirBlocks(d, dir))
  }

  /** The directory with room for one more block. */
  function Longer(d: Disk, dir: FileRef): Disk
    requires dir in d.files
  {
    WithSize(d, dir, d.files[dir].size + BY2BLK)
  }

  /** `dir_alloc_file`: the first empty slot, or the first slot of one more block. */
  function DirAllocFile(d: Disk, dir: FileRef): (Disk, Result<FileRef>)
    requires WellFormed(d) && dir in d.files
  {
    var (e, r) := DirLookup(d, dir, "");
    if r != NotFound then (e, r)
    else if !WellFormed(e) || dir !in e.files || !WellFormed(Longer(e, dir)) then (e, Panic)
    else
      var g := GetBlock(Longer(e, dir), dir, DirBlocks(e, dir));
      if g.Good? then (g.value.0, Good(Slot(g.value.1, 0))) else (Longer(e, dir), Lift(g))
  }

  // ---- well-kept directories ----

  ghost function DirBlock(d: Disk, dir: FileRef, i: nat): nat
    requires WellFormed(d)
  {
    At(d, PlaceOf(dir, i))
  }

  /** Every block of the directory is mapped and seen as slots. */
  ghost predicate DirOk(d: Disk, dir: FileRef)
    requires WellFormed(d)
  {
    && dir in d.files && DirBlocks(d, dir) <= NINDIRECT
    && forall i: nat :: i < DirBlocks(d, dir) ==> DirBlock(d, dir, i) != 0 && HasSlots(d, DirBlock(d, dir, i))
  }

  ghost predicate HasSlots(d: Disk, b: nat) {
    forall j: nat :: j < FILE2BLK ==> Slot(b, j) in d.files
  }

  /** Slot `s` is one of the slots of directory `dir`. */
  ghost predicate EntryOf(d: Disk, dir: FileRef, s: FileRef)
    requires WellFormed(d) && dir in d.files
  {
    s.Slot? && s.index < FILE2BLK && exists i: nat :: i < DirBlocks(d, dir) && s.block == DirBlock(d, dir, i)
  }

  /** The first entry of the directory with this name, in slot order. */
  ghost function FindFrom(d: Disk, dir: FileRef, name: string, i: nat, n: nat): Option<FileRef>
    requires WellFormed(d)
    decreases n - i
  {
    if i >= n then None
    else
      var s := FindInBlock(d.files, DirBlock(d, dir, i), name, 0);
      if s.Some? then s else FindFrom(d, dir, name, i + 1, n)
  }

  ghost function Find(d: Disk, dir: FileRef, name: string): Option<FileRef>
    requires WellFormed(d) && dir in d.files
  {
    FindFrom(d, dir, name, 0, DirBlocks(d, dir))
  }

  lemma {:induction false} FindInBlockMeans(files: map<FileRef, File>, b: nat, name: string, j: nat)
    ensures var r := FindInBlock(files, b, name, j);
      && (r.Some? ==>
            && r.value.Slot? && r.value.block == b && j <= r.value.index < FILE2BLK
            && r.value in files && files[r.value].name == name
            && forall k: nat :: j <= k < r.value.index && Slot(b, k) in files ==> files[Slot(b, k)].name != name)
      && (r.None? ==> forall k: nat :: j <= k < FILE2BLK && Slot(b, k) in files ==> files[Slot(b, k)].name != name)
    decreases FILE2BLK - j
  {
    if j < FILE2BLK && !(Slot(b, j) in files && files[Slot(b, j)].name == name) {
      FindInBlockMeans(files, b, name, j + 1);
    }
  }

  /** No slot of the blocks from `i` on has the name. */
  ghost predicate NameAbsent(d: Disk, dir: FileRef, name: string, i: nat, n: nat)
    requires WellFormed(d)
  {
    forall k: nat, j: nat :: i <= k < n && j < FILE2BLK && Slot(DirBlock(d, dir, k), j) in d.files ==>
      d.files[Slot(DirBlock(d, dir, k), j)].name != name
  }

  lemma BlockSearched(d: Disk, dir: FileRef, name: string, i: nat)
    requires WellFormed(d) && dir in d.files && i < DirBlocks(d, dir)
    ensures var r := FindInBlock(d.files, DirBlock(d, dir, i), name, 0);
      && (r.Some? ==> EntryOf(d, dir, r.value) && r.value in d.files && d.files[r.value].name == name)
      && (r.None? ==> NameAbsent(d, dir, name, i, i + 1))
  {
    FindInBlockMeans(d.files, DirBlock(d, dir, i), name, 0);
  }

  lemma AbsentFrom(d: Disk, dir: FileRef, name: string, i: nat, n: nat)
    requires WellFormed(d) && NameAbsent(d, dir, name, i, i + 1) && NameAbsent(d, dir, name, i + 1, n)
    ensures NameAbsent(d, dir, name, i, n)
  {
  }

  lemma {:induction false} FindFromMeans(d: Disk, dir: FileRef, name: string, i: nat, n: nat)
    requires WellFormed(d) && dir in d.files && n == DirBlocks(d, dir)
    ensures var r := FindFrom(d, dir, name, i, n);
      && (r.Some? ==> EntryOf(d, dir, r.value) && r.value in d.files && d.files[r.value].name == name)
      && (r.None? ==> NameAbsent(d, dir, name, i, n))
    decreases n - i
  {
    if i < n {
      BlockSearched(d, dir, name, i);
      FindFromMeans(d, dir, name, i + 1, n);
      if FindFrom(d, dir, name, i, n).None? {
        AbsentFrom(d, dir, name, i, n);
      }
    }
  }

  /** Slot `s` is in block `i` of the directory, and no entry with the name comes before it. */
  ghost predicate FirstWith(d: Disk, dir: FileRef, name: string, s: FileRef, i: nat)
    requires WellFormed(d)
  {
    && s.Slot? && s.block == DirBlock(d, dir, i) && NameAbsent(d, dir, name, 0, i)
    && forall j: nat :: j < s.index && Slot(s.block, j) in d.files ==> d.files[Slot(s.block, j)].name != name
  }

  /** The search returns the first entry with the name, in the order of blocks and slots. */
  lemma FindIsFirst(d: Disk, dir: FileRef, name: string)
    requires WellFormed(d) && dir in d.files && Find(d, dir, name).Some?
    ensures exists i: nat :: i < DirBlocks(d, dir) && FirstWith(d, dir, name, Find(d, dir, name).value, i)
  {
    FindFromIsFirst(d, dir, name, 0, DirBlocks(d, dir));
  }

  lemma {:induction false} FindFromIsFirst(d: Disk, dir: FileRef, name: string, i: nat, n: nat)
    requires WellFormed(d) && NameAbsent(d, dir, name, 0, i) && FindFrom(d, dir, name, i, n).Some?
    ensures exists k: nat :: k < n && FirstWith(d, dir, name, FindFrom(d, dir, name, i, n).value, k)
    decreases n - i
  {
    var s := FindInBlock(d.files, DirBlock(d, dir, i), name, 0);
    FindInBlockMeans(d.files, DirBlock(d, dir, i), name, 0);
    if s.Some? {
      assert FirstWith(d, dir, name, s.value, i);
    } else {
      FindFromIsFirst(d, dir, name, i + 1, n);
    }
  }

  /** `Find` succeeds exactly when some entry has the name, and returns such an entry. */
  lemma FindMeans(d: Disk, dir: FileRef, name: string)
    requires WellFormed(d) && DirOk(d, dir)
    ensures var r := Find(d, dir, name);
      && (r.Some? ==> EntryOf(d, dir, r.value) && r.value in d.files && d.files[r.value].name == name)
      && (r.None? ==> forall s :: EntryOf(d, dir, s) && s in d.files ==> d.files[s].name != name)
  {
    FindFromMeans(d, dir, name, 0, DirBlocks(d, dir));
  }

  /** Only the set of mapped pages differs, and not on free blocks. */
  ghost predicate SameButMapped(d: Disk, e: Disk) {
    e == d.(mapped := e.mapped) && forall b :: b in d.free ==> (b in e.mapped <==> b in d.mapped)
  }

  lemma SameButMappedKeeps(d: Disk, e: Disk)
    requires SameButMapped(d, e) && WellFormed(d)
    ensures WellFormed(e) && (forall p :: At(e, p) == At(d, p))
    ensures Owned(d) ==> Owned(e)
    ensures forall dir :: DirOk(d, dir) ==> DirOk(e, dir)
  {
    assert forall p :: At(e, p) == At(d, p);
    assert forall dir, i: nat :: DirBlock(e, dir, i) == DirBlock(d, dir, i);
  }

  lemma GetBlockDense(d: Disk, dir: FileRef, i: nat)
    requires Owned(d) && DirOk(d, dir) && i < DirBlocks(d, dir)
    ensures GetBlock(d, dir, i).Good?
    ensures GetBlock(d, dir, i).value.1 == DirBlock(d, dir, i) && SameButMapped(d, GetBlock(d, dir, i).value.0)
  {
    assert DirBlock(d, dir, i) != 0 && HasSlots(d, DirBlock(d, dir, i));
    assert i >= NDIRECT ==> d.files[dir].indirect != 0;
    MapBlockOwned(d, dir, i, true);
    BlockWalkOwned(d, dir, i, true);
    assert At(d, TableAt(dir)) == d.files[dir].indirect;
    assert Slot(DirBlock(d, dir, i), 0) in d.files;
  }

  lemma {:induction false} FindFromSame(d: Disk, e: Disk, dir: FileRef, name: string, i: nat, n: nat)
    requires WellFormed(d) && SameButMapped(d, e)
    ensures WellFormed(e) && FindFrom(e, dir, name, i, n) == FindFrom(d, dir, name, i, n)
    decreases n - i
  {
    SameButMappedKeeps(d, e);
    if i < n {
      FindFromSame(d, e, dir, name, i + 1, n);
    }
  }

  ghost function AsResult(s: Option<FileRef>): Result<FileRef> {
    if s.Some? then Good(s.value) else NotFound
  }

  /** One turn of the loop of `dir_lookup` on a block the directory has. */
  lemma LookupTurn(d: Disk, dir: FileRef, name: string, i: nat, n: nat)
    requires Owned(d) && DirOk(d, dir) && i < n == DirBlocks(d, dir)
    ensures GetBlock(d, dir, i).Good? && Owned(GetBlock(d, dir, i).value.0) &&
      SameButMapped(d, GetBlock(d, dir, i).value.0)
    ensures var (e, s) := (GetBlock(d, dir, i).value.0, FindInBlock(d.files, DirBlock(d, dir, i), name, 0));
      && DirOk(e, dir)
      && LookupFrom(d, dir, name, i, n) == if s.Some? then (e, Good(s.value)) else LookupFrom(e, dir, name, i + 1, n)
  {
    GetBlockDense(d, dir, i);
    SameButMappedKeeps(d, GetBlock(d, dir, i).value.0);
  }

  lemma {:induction false} LookupDense(d: Disk, dir: FileRef, name: string, i: nat, n: nat)
    requires Owned(d) && DirOk(d, dir) && n == DirBlocks(d, dir)
    ensures SameButMapped(d, LookupFrom(d, dir, name, i, n).0)
    ensures LookupFrom(d, dir, name, i, n).1 == AsResult(FindFrom(d, dir, name, i, n))
    decreases n - i
  {
    if i < n {
      LookupTurn(d, dir, name, i, n);
      var e := GetBlock(d, dir, i).value.0;
      if FindInBlock(d.files, DirBlock(d, dir, i), name, 0).None? {
        LookupDense(e, dir, name, i + 1, n);
        FindFromSame(d, e, dir, name, i + 1, n);
      }
    }
  }

  /** On a well-kept directory `dir_lookup` finds exactly what the directory holds and changes nothing. */
  lemma DirLookupFinds(d: Disk, dir: FileRef, name: string)
    requires Owned(d) && DirOk(d, dir)
    ensures var (e, r) := DirLookup(d, dir, name);
      SameButMapped(d, e) && r == AsResult(Find(d, dir, name))
  {
    LookupDense(d, dir, name, 0, DirBlocks(d, dir));
  }
}
