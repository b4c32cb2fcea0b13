/**
 The block layer of the file system as values: the free-block bitmap, the direct and indirect
 pointers of files, and the invariant that no two pointers name the same block.
 */
module FsBlocks {
  import opened Options

  const NDIRECT: nat := 10
  const NINDIRECT: nat := 1024
  const BY2BLK: nat := 4096
  const FILE2BLK: nat := 16
  const FIRST_DATA_BLOCK: nat := 3  // where `alloc_block_num` starts looking

  /** Where a `struct File` lives: in the superblock, or in a slot of a directory block. */
  datatype FileRef = RootFile | Slot(block: nat, index: nat)

  datatype FileType = FTYPE_REG | FTYPE_DIR

  datatype File = File(name: string, size: nat, ftype: FileType, direct: seq<nat>, indirect: nat)

  function EmptyFile(): File {
    File("", 0, FTYPE_REG, seq(NDIRECT, _ => 0), 0)
  }

  /**
   `free` is the set of blocks whose bitmap bit is 1, `mapped` the blocks whose page is in the
   server's address space, `words` the content of blocks read as pointer tables, `files` every
   `struct File` there is.
   */
  datatype Disk = Disk(nblocks: nat, free: set<nat>, mapped: set<nat>, words: map<nat, seq<nat>>,
                       files: map<FileRef, File>)

  datatype Result<+T> = Good(value: T) | NotFound | Invalid | NoDisk | BadPath | FileExists | Panic

  predicate WellFormed(d: Disk) {
    && (forall f :: f in d.files ==> |d.files[f].direct| == NDIRECT)
    && (forall b: nat :: b < d.nblocks ==> b in d.words && |d.words[b]| == NINDIRECT)
  }

  // ---- pointers ----

  /** The places that hold a block number: a direct slot, the indirect-table slot, a slot of that table. */
  datatype Place = DirectAt(f: FileRef, i: nat) | TableAt(f: FileRef) | IndirectAt(f: FileRef, i: nat)

  /** The block number at a place, 0 where there is none. */
  function At(d: Disk, p: Place): nat
    requires WellFormed(d)
  {
    if p.f !in d.files then 0
    else
      var file := d.files[p.f];
      match p
      case DirectAt(_, i) => if i < NDIRECT then file.direct[i] else 0
      case TableAt(_) => file.indirect
      case IndirectAt(_, i) =>
        if file.indirect != 0 && file.indirect < d.nblocks && NDIRECT <= i < NINDIRECT then
          d.words[file.indirect][i]
        else 0
  }

  /** Every pointer names a block of the disk that the bitmap says is allocated. */
  ghost predicate PointersAllocated(d: Disk)
    requires WellFormed(d)
  {
    forall p :: At(d, p) != 0 ==> At(d, p) < d.nblocks && At(d, p) !in d.free
  }

  /** No two pointers name the same block. */
  ghost predicate PointersDistinct(d: Disk)
    requires WellFormed(d)
  {
    forall p, q :: At(d, p) != 0 && At(d, p) == At(d, q) ==> p == q
  }

  ghost predicate Owned(d: Disk) {
    WellFormed(d) && PointersAllocated(d) && PointersDistinct(d)
  }

  // ---- the bitmap ----

  /** `read_block`: it panics on a block outside the disk and on a free one, and maps the block. */
  function ReadBlock(d: Disk, b: nat): Result<Disk> {
    if b >= d.nblocks || b in d.free then Panic else Good(d.(mapped := d.mapped + {b}))
  }

  function FreeBlock(d: Disk, b: nat): Disk {
    d.(free := d.free + {b})
  }

  /** The first free block at or after `b`. */
  function FirstFree(d: Disk, b: nat): (r: Option<nat>)
    ensures r.Some? ==> b <= r.value < d.nblocks && r.value in d.free && forall k :: b <= k < r.value ==> k !in d.free
    ensures r.None? ==> forall k :: b <= k < d.nblocks ==> k !in d.free
    decreases d.nblocks - b
  {
    if b >= d.nblocks then None
    else if b in d.free then Some(b)
    else FirstFree(d, b + 1)
  }

  function Zeros(): (z: seq<nat>)
    ensures |z| == NINDIRECT && forall i :: 0 <= i < NINDIRECT ==> z[i] == 0
  {
    seq(NINDIRECT, _ => 0)
  }

  /** `alloc_block`: the first free block, given a zeroed page unless a page is already mapped there. */
  function AllocBlock(d: Disk): Result<(Disk, nat)> {
    match FirstFree(d, FIRST_DATA_BLOCK)
    case None => NoDisk
    case Some(b) =>
      Good((d.(free := d.free - {b}, mapped := d.mapped + {b},
               words := if b in d.mapped then d.words else d.words[b := Zeros()]), b))
  }

  /** The block `alloc_block` would return arrives zeroed: it is not mapped already. */
  ghost predicate NextBlockFresh(d: Disk) {
    FirstFree(d, FIRST_DATA_BLOCK).Some? ==> FirstFree(d, FIRST_DATA_BLOCK).value !in d.mapped
  }

  /** Read as a pointer table, the block is empty. */
  predicate EmptyTable(d: Disk, b: nat) {
    b in d.words && |d.words[b]| == NINDIRECT && forall i :: NDIRECT <= i < NINDIRECT ==> d.words[b][i] == 0
  }

  /** The block `alloc_block` would return is an empty table on arrival: not mapped already, or holding zeros there. */
  ghost predicate NextTableEmpty(d: Disk) {
    FirstFree(d, FIRST_DATA_BLOCK).Some? ==>
      FirstFree(d, FIRST_DATA_BLOCK).value !in d.mapped || EmptyTable(d, FirstFree(d, FIRST_DATA_BLOCK).value)
  }

  // ---- walking and mapping ----

  /** Store a block number at a place. */
  function Put(d: Disk, p: Place, b: nat): Disk
    requires p.f in d.files && |d.files[p.f].direct| == NDIRECT
  {
    var file := d.files[p.f];
    match p
    case DirectAt(f, i) => if i < NDIRECT then d.(files := d.files[f := file.(direct := file.direct[i := b])]) else d
    case TableAt(f) => d.(files := d.files[f := file.(indirect := b)])
    case IndirectAt(f, i) =>
      if file.indirect in d.words && i < |d.words[file.indirect]| then
        var table: seq<nat> := d.words[file.indirect][i := b];
        d.(words := d.words[file.indirect := table])
      else d
  }

  /** `file_block_walk`: the place of file block `n`, with its table made if asked to. */
  function BlockWalk(d: Disk, f: FileRef, n: nat, alloc: bool): Result<(Disk, Place)>
    requires WellFormed(d) && f in d.files
  {
    if n < NDIRECT then Good((d, DirectAt(f, n)))
    else if n < NINDIRECT then
      if d.files[f].indirect != 0 then
        match ReadBlock(d, d.files[f].indirect)
        case Good(e) => Good((e, IndirectAt(f, n)))
        case _ => Panic
      else if !alloc then NotFound
      else
        match AllocBlock(d)
        case Good((a, b)) =>
          (match ReadBlock(Put(a, TableAt(f), b), b)
           case Good(e) => Good((e, IndirectAt(f, n)))
           case _ => Panic)
        case _ => NoDisk
    else Invalid
  }

  /** `file_map_block`: the disk block of file block `n`, allocated if asked to. */
  function MapBlock(d: Disk, f: FileRef, n: nat, alloc: bool): Result<(Disk, nat)>
    requires WellFormed(d) && f in d.files
  {
    match BlockWalk(d, f, n, alloc)
    case Good((e, p)) =>
      if !WellFormed(e) then Panic
      else if At(e, p) != 0 then Good((e, At(e, p)))
      else if !alloc then NotFound
      else
        (match AllocBlock(e)
         case Good((a, b)) =>
           if p.f in a.files && |a.files[p.f].direct| == NDIRECT then Good((Put(a, p, b), b)) else Panic
         case _ => NoDisk)
    case NotFound => NotFound
    case Invalid => Invalid
    case NoDisk => NoDisk
    case BadPath => BadPath
    case FileExists => FileExists
    case Panic => Panic
  }

  // ---- what keeps ownership ----

  ghost predicate SamePointers(d: Disk, e: Disk)
    requires WellFormed(d) && WellFormed(e)
  {
    forall p :: At(e, p) == At(d, p)
  }

  /** Block `b` is allocated and nobody points to it. */
  ghost predicate Unclaimed(d: Disk, b: nat)
    requires WellFormed(d)
  {
    0 < b < d.nblocks && b !in d.free && forall p :: At(d, p) != b
  }

  /** Allocation hands out a block nobody points to and moves no pointer. */
  lemma AllocKeepsOwned(d: Disk)
    requires Owned(d) && AllocBlock(d).Good?
    ensures var (a, b) := AllocBlock(d).value;
      && Owned(a) && SamePointers(d, a) && Unclaimed(a, b) && a.files == d.files && a.nblocks == d.nblocks
      && (NextTableEmpty(d) ==> EmptyTable(a, b))
  {
    var (a, b) := AllocBlock(d).value;
    assert WellFormed(a);
    forall p
      ensures At(a, p) == At(d, p) && At(d, p) != b
    {
      if p.f in d.files {
        assert At(d, TableAt(p.f)) == d.files[p.f].indirect;
      }
    }
  }

  /** A place that `file_block_walk` can return: in an existing file, and if in a table, the table exists. */
  ghost predicate Real(d: Disk, p: Place) {
    && p.f in d.files
    && match p
       case DirectAt(_, i) => i < NDIRECT
       case TableAt(_) => true
       case IndirectAt(f, i) => d.files[f].indirect != 0 && NDIRECT <= i < NINDIRECT
  }

  ghost predicate OnlyChanged(d: Disk, e: Disk, p: Place, b: nat)
    requires WellFormed(d) && WellFormed(e)
  {
    forall q :: At(e, q) == if q == p then b else At(d, q)
  }

  /** Storing at a place changes what is at that place and nowhere else. */
  lemma PutChangesOnly(d: Disk, p: Place, b: nat)
    requires Owned(d) && Real(d, p)
    requires p.TableAt? ==> d.files[p.f].indirect == 0 && 0 < b < d.nblocks && EmptyTable(d, b)
    ensures WellFormed(Put(d, p, b)) && OnlyChanged(d, Put(d, p, b), p, b)
  {
    var e := Put(d, p, b);
    if p.IndirectAt? {
      assert At(d, TableAt(p.f)) == d.files[p.f].indirect;
    }
    forall q
      ensures At(e, q) == if q == p then b else At(d, q)
    {
      if q.f in d.files {
        assert At(d, TableAt(q.f)) == d.files[q.f].indirect;
      }
    }
  }

  lemma PutKeepsOwned(d: Disk, p: Place, b: nat)
    requires Owned(d) && Real(d, p) && At(d, p) == 0 && Unclaimed(d, b)
    requires p.TableAt? ==> EmptyTable(d, b)
    ensures Owned(Put(d, p, b)) && OnlyChanged(d, Put(d, p, b), p, b)
  {
    PutChangesOnly(d, p, b);
  }

  /** `file_clear_block` on a mapped place: free the block, then clear the pointer. */
  lemma ClearKeepsOwned(d: Disk, p: Place)
    requires Owned(d) && Real(d, p) && !p.TableAt? && At(d, p) != 0
    ensures var e := Put(FreeBlock(d, At(d, p)), p, 0);
      Owned(e) && OnlyChanged(d, e, p, 0)
  {
    var a := FreeBlock(d, At(d, p));
    PutChangesOnly(d, p, 0);
    var e := Put(a, p, 0);
    assert e == FreeBlock(Put(d, p, 0), At(d, p));
    assert forall q :: At(e, q) == At(Put(d, p, 0), q);
  }

  // ---- file_block_walk and file_map_block ----

  function PlaceOf(f: FileRef, n: nat): Place {
    if n < NDIRECT then DirectAt(f, n) else IndirectAt(f, n)
  }

  /** If a pointer table is allocated, it arrives empty. */
  ghost predicate TableArrivesEmpty(d: Disk, f: FileRef, n: nat, alloc: bool)
    requires f in d.files
  {
    alloc && NDIRECT <= n < NINDIRECT && d.files[f].indirect == 0 ==> NextTableEmpty(d)
  }

  /** Only pointers that were 0 have changed, and only to blocks nobody pointed to. */
  ghost predicate PointersKept(d: Disk, e: Disk)
    requires WellFormed(d) && WellFormed(e)
  {
    forall p :: At(d, p) != 0 ==> At(e, p) == At(d, p)
  }

  /** Data pointers (not tables) are exactly as before. */
  ghost predicate SameData(d: Disk, e: Disk)
    requires WellFormed(d) && WellFormed(e)
  {
    forall p: Place :: !p.TableAt? ==> At(e, p) == At(d, p)
  }

  ghost predicate SameNames(d: Disk, e: Disk) {
    && e.nblocks == d.nblocks && e.files.Keys == d.files.Keys
    && forall f :: f in d.files ==>
         e.files[f].name == d.files[f].name && e.files[f].size == d.files[f].size &&
           e.files[f].ftype == d.files[f].ftype
  }

  lemma BlockWalkOwned(d: Disk, f: FileRef, n: nat, alloc: bool)
    requires Owned(d) && f in d.files && TableArrivesEmpty(d, f, n, alloc)
    ensures BlockWalk(d, f, n, alloc) != Panic
    ensures BlockWalk(d, f, n, alloc).Good? ==>
      var (e, p) := BlockWalk(d, f, n, alloc).value;
      && Owned(e) && SameData(d, e) && PointersKept(d, e) && SameNames(d, e)
      && n < NINDIRECT && p == PlaceOf(f, n) && Real(e, p)
  {
    if NDIRECT <= n < NINDIRECT {
      assert At(d, TableAt(f)) == d.files[f].indirect;
      if d.files[f].indirect != 0 {
        var e := d.(mapped := d.mapped + {d.files[f].indirect});
        assert SamePointers(d, e);
      } else if alloc && AllocBlock(d).Good? {
        AllocKeepsOwned(d);
        var (a, b) := AllocBlock(d).value;
        PutKeepsOwned(a, TableAt(f), b);
        var t := Put(a, TableAt(f), b);
        var e := t.(mapped := t.mapped + {b});
        assert SamePointers(t, e);
      }
    }
  }

  /**
   `file_map_block` keeps the ownership of blocks, cannot reach the free-block panic of `read_block`,
   and changes no file block but the one asked for.
   */
  lemma MapBlockOwned(d: Disk, f: FileRef, n: nat, alloc: bool)
    requires Owned(d) && f in d.files && TableArrivesEmpty(d, f, n, alloc)
    ensures MapBlock(d, f, n, alloc) != Panic
    ensures MapBlock(d, f, n, alloc).Good? ==>
      var (e, b) := MapBlock(d, f, n, alloc).value;
      && Owned(e) && SameNames(d, e) && n < NINDIRECT
      && b == At(e, PlaceOf(f, n)) && 0 < b < e.nblocks && b !in e.free
      && (forall q: Place :: !q.TableAt? && q != PlaceOf(f, n) ==> At(e, q) == At(d, q))
      && (At(d, PlaceOf(f, n)) != 0 ==> b == At(d, PlaceOf(f, n)))
  {
    BlockWalkOwned(d, f, n, alloc);
    if BlockWalk(d, f, n, alloc).Good? {
      var (e, p) := BlockWalk(d, f, n, alloc).value;
      if At(e, p) == 0 && alloc && AllocBlock(e).Good? {
        BlockEntered(e, p);
      }
    }
  }

  /** A fresh block entered at an empty place belongs there, and nothing else moves. */
  lemma BlockEntered(e: Disk, p: Place)
    requires Owned(e) && Real(e, p) && !p.TableAt? && At(e, p) == 0 && AllocBlock(e).Good?
    ensures var (a, b) := AllocBlock(e).value;
      && p.f in a.files && |a.files[p.f].direct| == NDIRECT
      && var g := Put(a, p, b);
         Owned(g) && SameNames(e, g) && OnlyChanged(e, g, p, b) && 0 < b < g.nblocks && b !in g.free
  {
    AllocKeepsOwned(e);
    var (a, b) := AllocBlock(e).value;
    assert Real(a, p);
    PutKeepsOwned(a, p, b);
  }

  /** The block map of a file: what `file_map_block` without `alloc` answers. */
  ghost function BlockMap(d: Disk, f: FileRef, n: nat): Result<nat>
    requires WellFormed(d)
  {
    if n >= NINDIRECT then Invalid
    else if At(d, PlaceOf(f, n)) == 0 then NotFound
    else Good(At(d, PlaceOf(f, n)))
  }

  lemma MapBlockReads(d: Disk, f: FileRef, n: nat)
    requires Owned(d) && f in d.files
    ensures var r := MapBlock(d, f, n, false);
      && (r.Good? <==> BlockMap(d, f, n).Good?)
      && (r.NotFound? <==> BlockMap(d, f, n).NotFound?)
      && (r.Invalid? <==> BlockMap(d, f, n).Invalid?)
      && (r.Good? ==> BlockMap(d, f, n) == Good(r.value.1))
  {
    BlockWalkOwned(d, f, n, false);
    if NDIRECT <= n < NINDIRECT {
      assert At(d, TableAt(f)) == d.files[f].indirect;
    }
  }

  // ---- file_clear_block and file_truncate ----

  function ClearBlock(d: Disk, f: FileRef, n: nat): Result<Disk>
    requires WellFormed(d) && f in d.files
  {
    match BlockWalk(d, f, n, false)
    case Good((e, p)) =>
      if !WellFormed(e) || p.f !in e.files then Panic
      else if At(e, p) != 0 then Good(Put(FreeBlock(e, At(e, p)), p, 0))
      else Good(e)
    case NotFound => NotFound
    case Invalid => Invalid
    case NoDisk => NoDisk
    case BadPath => BadPath
    case FileExists => FileExists
    case Panic => Panic
  }

  /** `file_clear_block` unmaps its block, keeps ownership and leaves every other file block alone. */
  lemma ClearBlockOwned(d: Disk, f: FileRef, n: nat)
    requires Owned(d) && f in d.files
    ensures ClearBlock(d, f, n) != Panic
    ensures ClearBlock(d, f, n).Good? ==>
      var e := ClearBlock(d, f, n).value;
      && Owned(e) && SameNames(d, e) && n < NINDIRECT && OnlyChanged(d, e, PlaceOf(f, n), 0)
    ensures !ClearBlock(d, f, n).Good? && n < NINDIRECT ==> At(d, PlaceOf(f, n)) == 0
  {
    BlockWalkOwned(d, f, n, false);
    if BlockWalk(d, f, n, false).Good? {
      var (e, p) := BlockWalk(d, f, n, false).value;
      assert SamePointers(d, e) by {
        assert e == d || e == d.(mapped := d.mapped + {d.files[f].indirect});
      }
      if At(e, p) != 0 {
        ClearKeepsOwned(e, p);
      }
    }
  }

  /** The clearing loop of `file_truncate` over blocks `n` to `m - 1`; errors of single blocks are ignored. */
  function ClearRange(d: Disk, f: FileRef, n: nat, m: nat): Option<Disk>
    requires WellFormed(d) && f in d.files
    decreases m - n
  {
    if n >= m then Some(d)
    else
      match ClearBlock(d, f, n)
      case Panic => None
      case Good(e) => if WellFormed(e) && f in e.files then ClearRange(e, f, n + 1, m) else None
      case _ => ClearRange(d, f, n + 1, m)
  }

  /** Blocks `n` to `m - 1` of file `f` became unmapped; no other data pointer changed. */
  ghost predicate RangeCleared(d: Disk, e: Disk, f: FileRef, n: nat, m: nat)
    requires WellFormed(d) && WellFormed(e)
  {
    && (forall k: nat :: n <= k < m && k < NINDIRECT ==> At(e, PlaceOf(f, k)) == 0)
    && (forall k: nat :: k < NINDIRECT && !(n <= k < m) ==> At(e, PlaceOf(f, k)) == At(d, PlaceOf(f, k)))
    && (forall p: Place :: p.f != f ==> At(e, p) == At(d, p))
  }

  lemma {:induction false} ClearRangeOwned(d: Disk, f: FileRef, n: nat, m: nat)
    requires Owned(d) && f in d.files
    ensures ClearRange(d, f, n, m).Some?
    ensures var e := ClearRange(d, f, n, m).value;
      Owned(e) && SameNames(d, e) && RangeCleared(d, e, f, n, m)
    decreases m - n
  {
    if n < m {
      ClearBlockOwned(d, f, n);
      var c := if ClearBlock(d, f, n).Good? then ClearBlock(d, f, n).value else d;
      ClearRangeOwned(c, f, n + 1, m);
      RangeClearedOneMore(d, c, ClearRange(c, f, n + 1, m).value, f, n, m);
    }
  }

  lemma RangeClearedOneMore(d: Disk, c: Disk, e: Disk, f: FileRef, n: nat, m: nat)
    requires WellFormed(d) && WellFormed(c) && WellFormed(e) && n < m
    requires n < NINDIRECT ==> At(c, PlaceOf(f, n)) == 0
    requires forall p: Place :: (n >= NINDIRECT || p != PlaceOf(f, n)) ==> At(c, p) == At(d, p)
    requires RangeCleared(c, e, f, n + 1, m)
    ensures RangeCleared(d, e, f, n, m)
  {
    assert forall k: nat :: k < NINDIRECT && k != n ==> PlaceOf(f, k) != PlaceOf(f, n);
  }

  /** The number of blocks `file_truncate` takes a file of this size to have had. */
  function OldBlocks(size: nat): nat {
    size / BY2BLK + 1
  }

  function NewBlocks(size: nat): nat {
    if size == 0 then 0 else size / BY2BLK + 1
  }

  function WithSize(d: Disk, f: FileRef, size: nat): Disk
    requires f in d.files
  {
    d.(files := d.files[f := d.files[f].(size := size)])
  }

  /** `file_truncate` up to its loop and through it; `None` is the panic of `read_block`. */
  function Cleared(d: Disk, f: FileRef, newsize: nat): Option<Disk>
    requires WellFormed(d) && f in d.files
  {
    var old_, new_ := OldBlocks(d.files[f].size), NewBlocks(newsize);
    ClearRange(if new_ <= NDIRECT then Put(d, TableAt(f), 0) else d, f, new_, old_)
  }

  /** `file_truncate`. */
  function Truncate(d: Disk, f: FileRef, newsize: nat): (r: Option<Disk>)
    requires WellFormed(d) && f in d.files
  {
    match Cleared(d, f, newsize)
    case None => None
    case Some(e) => if f in e.files then Some(WithSize(e, f, newsize)) else None
  }

  /** Dropping the pointer table unmaps everything behind it and nothing else. */
  lemma DropTableOwned(d: Disk, f: FileRef)
    requires Owned(d) && f in d.files
    ensures var e := Put(d, TableAt(f), 0);
      && Owned(e) && SameNames(d, e)
      && (forall k: nat :: k < NINDIRECT ==> At(e, PlaceOf(f, k)) == if k < NDIRECT then At(d, PlaceOf(f, k)) else 0)
      && (forall p: Place :: p.f != f ==> At(e, p) == At(d, p))
  {
    var e := Put(d, TableAt(f), 0);
    assert forall p :: At(e, p) == if p.f == f && !p.DirectAt? then 0 else At(d, p);
  }

  /** Truncating to `newsize` bytes keeps block `k`: the new file is not empty and does not end before the block. */
  predicate KeptBlock(k: nat, newsize: nat) {
    newsize > 0 && k * BY2BLK <= newsize
  }

  /**
   Truncating from `oldsize` to `newsize` bytes reaches block `k`: the old file did not end before it, or
   it lies behind the pointer table and the new file does without one.
   */
  predicate ReachedBlock(k: nat, oldsize: nat, newsize: nat) {
    k * BY2BLK <= oldsize || (newsize < NDIRECT * BY2BLK && k >= NDIRECT)
  }

  /** What a file block holds after truncation: the blocks reached and not kept are unmapped, no other changes. */
  ghost predicate Truncated(d: Disk, e: Disk, f: FileRef, newsize: nat)
    requires WellFormed(d) && WellFormed(e) && f in d.files
  {
    && (forall k: nat :: k < NINDIRECT ==>
          At(e, PlaceOf(f, k)) ==
            if !KeptBlock(k, newsize) && ReachedBlock(k, d.files[f].size, newsize) then 0 else At(d, PlaceOf(f, k)))
    && (forall p: Place :: p.f != f ==> At(e, p) == At(d, p))
  }

  lemma ClearedOwned(d: Disk, f: FileRef, newsize: nat)
    requires Owned(d) && f in d.files
    ensures Cleared(d, f, newsize).Some?
    ensures var c := Cleared(d, f, newsize).value; Owned(c) && SameNames(d, c) && Truncated(d, c, f, newsize)
  {
    var old_, new_ := OldBlocks(d.files[f].size), NewBlocks(newsize);
    var start := if new_ <= NDIRECT then Put(d, TableAt(f), 0) else d;
    DropTableOwned(d, f);
    ClearRangeOwned(start, f, new_, old_);
    TruncatedBetween(d, start, ClearRange(start, f, new_, old_).value, f, newsize);
  }

  lemma TruncateOwned(d: Disk, f: FileRef, newsize: nat)
    requires Owned(d) && f in d.files
    ensures Truncate(d, f, newsize).Some?
    ensures var e := Truncate(d, f, newsize).value;
      && Owned(e) && Truncated(d, e, f, newsize)
      && f in e.files && e.files[f].size == newsize && e.files.Keys == d.files.Keys
      && e.files[f].name == d.files[f].name && e.files[f].ftype == d.files[f].ftype
      && (forall g :: g in d.files && g != f ==>
            e.files[g].name == d.files[g].name && e.files[g].size == d.files[g].size &&
              e.files[g].ftype == d.files[g].ftype)
  {
    ClearedOwned(d, f, newsize);
    Resized(d, Cleared(d, f, newsize).value, f, newsize);
  }

  lemma Resized(d: Disk, c: Disk, f: FileRef, newsize: nat)
    requires WellFormed(d) && f in d.files && Owned(c) && SameNames(d, c) && Truncated(d, c, f, newsize)
    ensures var e := WithSize(c, f, newsize);
      && Owned(e) && Truncated(d, e, f, newsize)
      && f in e.files && e.files[f].size == newsize && e.files.Keys == d.files.Keys
      && e.files[f].name == d.files[f].name && e.files[f].ftype == d.files[f].ftype
      && (forall g :: g in d.files && g != f ==>
            e.files[g].name == d.files[g].name && e.files[g].size == d.files[g].size &&
              e.files[g].ftype == d.files[g].ftype)
  {
    ResizeKeepsPointers(c, f, newsize);
  }

  /** The loop bounds of `file_truncate`, in bytes. */
  lemma BlocksInBytes(k: nat, size: nat)
    ensures k < OldBlocks(size) <==> k * BY2BLK <= size
    ensures k < NewBlocks(size) <==> KeptBlock(k, size)
    ensures NewBlocks(size) <= NDIRECT <==> size < NDIRECT * BY2BLK
  {
  }

  lemma TruncatedBetween(d: Disk, start: Disk, c: Disk, f: FileRef, newsize: nat)
    requires WellFormed(d) && WellFormed(start) && WellFormed(c) && f in d.files
    requires var old_, new_ := OldBlocks(d.files[f].size), NewBlocks(newsize);
      && RangeCleared(start, c, f, new_, old_)
      && (forall k: nat :: k < NINDIRECT ==>
            At(start, PlaceOf(f, k)) == if new_ <= NDIRECT && k >= NDIRECT then 0 else At(d, PlaceOf(f, k)))
      && (forall p: Place :: p.f != f ==> At(start, p) == At(d, p))
    ensures Truncated(d, c, f, newsize)
  {
    forall k: nat | k < NINDIRECT
      ensures At(c, PlaceOf(f, k)) ==
        if !KeptBlock(k, newsize) && ReachedBlock(k, d.files[f].size, newsize) then 0 else At(d, PlaceOf(f, k))
    {
      BlocksInBytes(k, d.files[f].size);
      BlocksInBytes(k, newsize);
    }
  }

  lemma ResizeKeepsPointers(c: Disk, f: FileRef, newsize: nat)
    requires Owned(c) && f in c.files
    ensures Owned(WithSize(c, f, newsize)) && SamePointers(c, WithSize(c, f, newsize))
  {
    var e := WithSize(c, f, newsize);
    assert forall p :: At(e, p) == At(c, p);
  }

  /** No file block is mapped that is neither kept nor reached. */
  ghost predicate NothingBeyond(d: Disk, f: FileRef, newsize: nat)
    requires WellFormed(d) && f in d.files
  {
    forall k: nat :: k < NINDIRECT && !KeptBlock(k, newsize) && !ReachedBlock(k, d.files[f].size, newsize) ==>
      BlockMap(d, f, k) == NotFound
  }

  /**
   Truncation is exact on the block map, in bytes.  Kept blocks stay mapped as they were; reached blocks
   that are not kept read NOT_FOUND; so after it no block but the kept ones is mapped if and only if
   none was mapped that the code does not reach.
   */
  lemma TruncateExact(d: Disk, f: FileRef, newsize: nat)
    requires Owned(d) && f in d.files
    ensures Truncate(d, f, newsize).Some? && Owned(Truncate(d, f, newsize).value)
    ensures var e, size := Truncate(d, f, newsize).value, d.files[f].size;
      && (forall k: nat ::
            BlockMap(e, f, k) ==
              if k >= NINDIRECT then Invalid
              else if newsize > 0 && k * BY2BLK <= newsize then BlockMap(d, f, k)
              else if k * BY2BLK <= size || (newsize < NDIRECT * BY2BLK && k >= NDIRECT) then NotFound
              else BlockMap(d, f, k))
      && ((forall k: nat :: k < NINDIRECT && !KeptBlock(k, newsize) ==> BlockMap(e, f, k) == NotFound) <==>
            NothingBeyond(d, f, newsize))
  {
    TruncateOwned(d, f, newsize);
    var e, size := Truncate(d, f, newsize).value, d.files[f].size;
    forall k: nat
      ensures BlockMap(e, f, k) ==
        if k >= NINDIRECT then Invalid
        else if !KeptBlock(k, newsize) && ReachedBlock(k, size, newsize) then NotFound
        else BlockMap(d, f, k)
    {
    }
    TruncatedEmptyIff(d, e, f, newsize);
  }

  lemma TruncatedEmptyIff(d: Disk, e: Disk, f: FileRef, newsize: nat)
    requires WellFormed(d) && WellFormed(e) && f in d.files && Truncated(d, e, f, newsize)
    ensures (forall k: nat :: k < NINDIRECT && !KeptBlock(k, newsize) ==> BlockMap(e, f, k) == NotFound) <==>
      NothingBeyond(d, f, newsize)
  {
    forall k: nat | k < NINDIRECT && !KeptBlock(k, newsize)
      ensures BlockMap(e, f, k) == NotFound <==>
        ReachedBlock(k, d.files[f].size, newsize) || BlockMap(d, f, k) == NotFound
    {
    }
  }

  /** Every byte below the new size is found in the block it was in. */
  lemma TruncateKeepsBytes(d: Disk, f: FileRef, newsize: nat, a: nat)
    requires Owned(d) && f in d.files && a < newsize
    ensures Truncate(d, f, newsize).Some? && Owned(Truncate(d, f, newsize).value)
    ensures BlockMap(Truncate(d, f, newsize).value, f, a / BY2BLK) == BlockMap(d, f, a / BY2BLK)
  {
    TruncateExact(d, f, newsize);
  }

  // ---- tables that do not arrive zeroed ----

  /**
   Making a pointer table maps no file block by accident exactly when the block it lands in was
   not mapped before, or holds zeros in all the slots a table uses.
   */
  lemma TableAllocSafeIff(d: Disk, f: FileRef, n: nat)
    requires Owned(d) && f in d.files && d.files[f].indirect == 0 && NDIRECT <= n < NINDIRECT
    requires FirstFree(d, FIRST_DATA_BLOCK).Some?
    ensures BlockWalk(d, f, n, true).Good? && WellFormed(BlockWalk(d, f, n, true).value.0)
    ensures var b := FirstFree(d, FIRST_DATA_BLOCK).value;
      SameData(d, BlockWalk(d, f, n, true).value.0) <==>
        b !in d.mapped || forall i :: NDIRECT <= i < NINDIRECT ==> d.words[b][i] == 0
  {
    AllocKeepsOwned(d);
    var (a, b) := AllocBlock(d).value;
    var e := BlockWalk(d, f, n, true).value.0;
    assert WellFormed(e);
    forall i: nat | NDIRECT <= i < NINDIRECT
      ensures At(e, IndirectAt(f, i)) == a.words[b][i] && At(d, IndirectAt(f, i)) == 0
    {
    }
    forall p: Place | !p.TableAt? && !(p.IndirectAt? && p.f == f)
      ensures At(e, p) == At(d, p)
    {
      assert At(a, p) == At(d, p);
    }
  }

  // ---- exactly when ownership is kept ----

  /** Word `i` of block `b`, read as a pointer, would be a proper one: in range, allocated, and nobody else's. */
  ghost predicate HarmlessWord(d: Disk, b: nat, i: nat)
    requires WellFormed(d) && b < d.nblocks && NDIRECT <= i < NINDIRECT
  {
    var w := d.words[b][i];
    w != 0 ==>
      && w < d.nblocks && w !in d.free && (forall p :: At(d, p) != w)
      && (forall j: nat :: NDIRECT <= j < NINDIRECT && j != i ==> d.words[b][j] != w)
  }

  /** A block that arrives with its old content can serve as a pointer table. */
  ghost predicate HarmlessTable(d: Disk, b: nat)
    requires WellFormed(d) && b < d.nblocks
  {
    b !in d.mapped || forall i: nat :: NDIRECT <= i < NINDIRECT ==> HarmlessWord(d, b, i)
  }

  /** The state after a pointer table for `f` was made in the first free block. */
  lemma TableMade(d: Disk, f: FileRef, n: nat)
    requires Owned(d) && f in d.files && d.files[f].indirect == 0 && NDIRECT <= n < NINDIRECT
    requires FirstFree(d, FIRST_DATA_BLOCK).Some?
    ensures BlockWalk(d, f, n, true).Good?
    ensures var (e, q) := BlockWalk(d, f, n, true).value;
      var b := FirstFree(d, FIRST_DATA_BLOCK).value;
      && q == IndirectAt(f, n) && WellFormed(e) && e.nblocks == d.nblocks && e.free == d.free - {b} && SameNames(d, e)
      && f in e.files && e.files[f].indirect == b && (forall p :: At(d, p) != b)
      && (forall i: nat :: NDIRECT <= i < NINDIRECT ==>
            At(e, IndirectAt(f, i)) == (if b in d.mapped then d.words[b][i] else 0) && At(d, IndirectAt(f, i)) == 0)
      && (forall p: Place :: !(p.IndirectAt? && p.f == f) ==> At(e, p) == if p == TableAt(f) then b else At(d, p))
  {
    AllocKeepsOwned(d);
    var (a, b) := AllocBlock(d).value;
    var e := Put(a, TableAt(f), b);
    assert a.mapped + {b} == a.mapped;
    assert BlockWalk(d, f, n, true) == Good((e, IndirectAt(f, n)));
    TableEntered(d, a, f, b);
  }

  /** Pointing `f` at block `b` brings that block's words into the file, and moves no other pointer. */
  lemma TableEntered(d: Disk, a: Disk, f: FileRef, b: nat)
    requires Owned(d) && f in d.files && d.files[f].indirect == 0 && WellFormed(a) && SamePointers(d, a)
    requires a.files == d.files && a.nblocks == d.nblocks && 0 < b < d.nblocks && (forall p :: At(d, p) != b)
    ensures var e := Put(a, TableAt(f), b);
      && WellFormed(e)
      && (forall i: nat :: NDIRECT <= i < NINDIRECT ==>
            At(e, IndirectAt(f, i)) == a.words[b][i] && At(d, IndirectAt(f, i)) == 0)
      && (forall p: Place :: !(p.IndirectAt? && p.f == f) ==> At(e, p) == if p == TableAt(f) then b else At(d, p))
  {
    var e := Put(a, TableAt(f), b);
    forall p: Place | !(p.IndirectAt? && p.f == f)
      ensures At(e, p) == if p == TableAt(f) then b else At(d, p)
    {
      assert At(a, p) == At(d, p);
    }
  }

  /** An owned disk stays owned when a table is made in it if and only if the table is harmless on arrival. */
  lemma TableMadeOwnedIff(d: Disk, f: FileRef, n: nat)
    requires Owned(d) && f in d.files && d.files[f].indirect == 0 && NDIRECT <= n < NINDIRECT
    requires FirstFree(d, FIRST_DATA_BLOCK).Some?
    ensures BlockWalk(d, f, n, true).Good?
    ensures Owned(BlockWalk(d, f, n, true).value.0) <==> HarmlessTable(d, FirstFree(d, FIRST_DATA_BLOCK).value)
  {
    TableMade(d, f, n);
    var e, b := BlockWalk(d, f, n, true).value.0, FirstFree(d, FIRST_DATA_BLOCK).value;
    if HarmlessTable(d, b) {
      HarmlessKeepsOwned(d, e, f, b);
    } else {
      var i: nat :| NDIRECT <= i < NINDIRECT && !HarmlessWord(d, b, i);
      HarmfulBreaksOwned(d, e, f, b, i);
    }
  }

  /** From `d` to `e`, block `b` became the pointer table of `f`, with the words it had if it was mapped. */
  ghost predicate TableHung(d: Disk, e: Disk, f: FileRef, b: nat)
    requires WellFormed(d) && WellFormed(e) && b < d.nblocks
  {
    && e.nblocks == d.nblocks && e.free == d.free - {b} && b in d.free && 0 < b && (forall p :: At(d, p) != b)
    && (forall i: nat :: NDIRECT <= i < NINDIRECT ==>
          At(e, IndirectAt(f, i)) == (if b in d.mapped then d.words[b][i] else 0) && At(d, IndirectAt(f, i)) == 0)
    && (forall p: Place :: !(p.IndirectAt? && p.f == f) ==> At(e, p) == if p == TableAt(f) then b else At(d, p))
    && At(d, TableAt(f)) == 0
  }

  lemma HarmlessKeepsOwned(d: Disk, e: Disk, f: FileRef, b: nat)
    requires Owned(d) && WellFormed(e) && b < d.nblocks && TableHung(d, e, f, b) && HarmlessTable(d, b)
    ensures Owned(e)
  {
    forall p | At(e, p) != 0
      ensures At(e, p) < e.nblocks && At(e, p) !in e.free
    {
      if p.IndirectAt? && p.f == f {
        assert HarmlessWord(d, b, p.i);
      }
    }
    forall p, q | At(e, p) != 0 && At(e, p) == At(e, q)
      ensures p == q
    {
      if p.IndirectAt? && p.f == f {
        assert HarmlessWord(d, b, p.i);
      }
      if q.IndirectAt? && q.f == f {
        assert HarmlessWord(d, b, q.i);
      }
    }
  }

  lemma HarmfulBreaksOwned(d: Disk, e: Disk, f: FileRef, b: nat, i: nat)
    requires Owned(d) && WellFormed(e) && b < d.nblocks && TableHung(d, e, f, b)
    requires b in d.mapped && NDIRECT <= i < NINDIRECT && !HarmlessWord(d, b, i)
    ensures !Owned(e)
  {
    var w := d.words[b][i];
    assert At(e, IndirectAt(f, i)) == w;
    if w < d.nblocks && w !in d.free {
      if p :| At(d, p) == w {
        assert At(e, p) == w && p != IndirectAt(f, i);
      } else {
        var j: nat :| NDIRECT <= j < NINDIRECT && j != i && d.words[b][j] == w;
        assert At(e, IndirectAt(f, j)) == w;
      }
    } else if w == b {
      assert At(e, TableAt(f)) == b;
    }
  }
  /** `file_map_block` has to make the pointer table first. */
  predicate MakesTable(d: Disk, f: FileRef, n: nat, alloc: bool)
    requires f in d.files
  {
    alloc && NDIRECT <= n < NINDIRECT && d.files[f].indirect == 0
  }

  /** The allocation of the data block, after a table was hung, moves no pointer but the new one. */
  lemma DataAfterTable(d: Disk, e: Disk, f: FileRef, b: nat, n: nat)
    requires Owned(d) && WellFormed(e) && b < d.nblocks && TableHung(d, e, f, b) && NDIRECT <= n < NINDIRECT
    requires f in e.files && e.files[f].indirect == b && AllocBlock(e).Good?
    ensures var (a, c) := AllocBlock(e).value;
      && f in a.files && |a.files[f].direct| == NDIRECT && WellFormed(Put(a, IndirectAt(f, n), c))
      && OnlyChanged(e, Put(a, IndirectAt(f, n), c), IndirectAt(f, n), c)
  {
    var (a, c) := AllocBlock(e).value;
    var g := Put(a, IndirectAt(f, n), c);
    forall q
      ensures At(g, q) == if q == IndirectAt(f, n) then c else At(e, q)
    {
      if q.f in e.files {
        assert At(e, TableAt(q.f)) == e.files[q.f].indirect;
        if q.f != f {
          assert At(e, TableAt(q.f)) == At(d, TableAt(q.f)) != b;
        }
      }
    }
  }

  /** Ownership that a stale table broke is not mended by the block that is allocated next. */
  lemma StaysBroken(d: Disk, e: Disk, f: FileRef, b: nat, n: nat)
    requires Owned(d) && WellFormed(e) && b < d.nblocks && TableHung(d, e, f, b) && NDIRECT <= n < NINDIRECT
    requires f in e.files && e.files[f].indirect == b && AllocBlock(e).Good?
    requires !Owned(e) && At(e, IndirectAt(f, n)) == 0
    ensures f in AllocBlock(e).value.0.files && |AllocBlock(e).value.0.files[f].direct| == NDIRECT
    ensures !Owned(Put(AllocBlock(e).value.0, IndirectAt(f, n), AllocBlock(e).value.1))
  {
    DataAfterTable(d, e, f, b, n);
    var (a, c) := AllocBlock(e).value;
    var g := Put(a, IndirectAt(f, n), c);
    assert At(g, IndirectAt(f, n)) == c;
    if !PointersAllocated(e) {
      var p :| At(e, p) != 0 && !(At(e, p) < e.nblocks && At(e, p) !in e.free);
      assert At(g, p) == At(e, p);
    } else {
      var p, q :| At(e, p) != 0 && At(e, p) == At(e, q) && p != q;
      assert At(g, p) == At(e, p) && At(g, q) == At(e, q);
    }
  }

  /**
   `file_map_block` keeps the ownership of blocks if and only if it has no pointer table to make, or
   the block it makes it in is harmless on arrival.
   */
  lemma MapBlockOwnedIff(d: Disk, f: FileRef, n: nat, alloc: bool)
    requires Owned(d) && f in d.files && MapBlock(d, f, n, alloc).Good?
    ensures MakesTable(d, f, n, alloc) ==> FirstFree(d, FIRST_DATA_BLOCK).Some?
    ensures Owned(MapBlock(d, f, n, alloc).value.0) <==>
      (MakesTable(d, f, n, alloc) ==> HarmlessTable(d, FirstFree(d, FIRST_DATA_BLOCK).value))
  {
    if !MakesTable(d, f, n, alloc) {
      MapBlockOwned(d, f, n, alloc);
    } else {
      var b := FirstFree(d, FIRST_DATA_BLOCK).value;
      TableMade(d, f, n);
      TableMadeOwnedIff(d, f, n);
      var (e, p) := BlockWalk(d, f, n, true).value;
      if At(e, p) == 0 {
        if Owned(e) {
          AllocKeepsOwned(e);
          PutKeepsOwned(AllocBlock(e).value.0, p, AllocBlock(e).value.1);
        } else {
          StaysBroken(d, e, f, b, n);
        }
      }
    }
  }

  // ---- a run of the server that breaks ownership ----

  /** The slots of block `b`, all unused. */
  function EmptySlots(b: nat): (m: map<FileRef, File>)
    ensures forall j: nat :: j < FILE2BLK ==> Slot(b, j) in m
    ensures forall f :: f in m ==> f.Slot? && f.block == b && f.index < FILE2BLK && m[f] == EmptyFile()
  {
    map j: nat | j < FILE2BLK :: Slot(b, j) := EmptyFile()
  }

  /**
   A disk with the superblock and the bitmap mapped and one file, whose only block of data, block 4,
   holds the number 5 in its word 11.  Block 3 is the root directory's.
   */
  function OneFileDisk(): Disk {
    Disk(6, {5}, {1, 2},
         map[0 := Zeros(), 1 := Zeros(), 2 := Zeros(), 3 := Zeros(), 4 := Zeros()[11 := 5], 5 := Zeros()],
         EmptySlots(3)[RootFile := File("", BY2BLK, FTYPE_DIR, seq(NDIRECT, i => if i == 0 then 3 else 0), 0)]
                      [Slot(3, 0) := File("a", 100, FTYPE_REG, seq(NDIRECT, i => if i == 0 then 4 else 0), 0)])
  }

  lemma OneFileDiskOwned()
    ensures Owned(OneFileDisk())
  {
    var d := OneFileDisk();
    forall p
      ensures At(d, p) == if p == DirectAt(RootFile, 0) then 3 else if p == DirectAt(Slot(3, 0), 0) then 4 else 0
    {
    }
  }

  /** After the file was read and truncated: block 4 is free, and still mapped with its data. */
  function FreedDisk(): Disk {
    var d := OneFileDisk();
    d.(free := {4, 5}, mapped := {1, 2, 4},
       files := d.files[Slot(3, 0) := File("a", 0, FTYPE_REG, seq(NDIRECT, _ => 0), 0)])
  }

  /** The same disk once block 4 has been read: its page is mapped. */
  function ReadDisk(): Disk {
    OneFileDisk().(mapped := {1, 2, 4})
  }

  lemma FileRead()
    ensures MapBlock(OneFileDisk(), Slot(3, 0), 0, true) == Good((OneFileDisk(), 4))
    ensures ReadBlock(OneFileDisk(), 4) == Good(ReadDisk())
  {
    assert OneFileDisk().mapped + {4} == {1, 2, 4};
  }

  /** The same disk once the file's block was cleared. */
  function ClearedDisk(): Disk {
    var d := ReadDisk();
    d.(free := {4, 5}, files := d.files[Slot(3, 0) := File("a", 100, FTYPE_REG, seq(NDIRECT, _ => 0), 0)])
  }

  lemma FirstPlace()
    ensures WellFormed(ReadDisk()) && Slot(3, 0) in ReadDisk().files
    ensures BlockWalk(ReadDisk(), Slot(3, 0), 0, false) == Good((ReadDisk(), DirectAt(Slot(3, 0), 0)))
    ensures At(ReadDisk(), DirectAt(Slot(3, 0), 0)) == 4
  {
  }

  lemma FirstBlockCleared()
    ensures WellFormed(ReadDisk()) && Slot(3, 0) in ReadDisk().files
    ensures ClearBlock(ReadDisk(), Slot(3, 0), 0) == Good(ClearedDisk())
  {
    var d, f := ReadDisk(), Slot(3, 0);
    FirstPlace();
    assert d.free + {4} == {4, 5};
    assert d.files[f].direct[0 := 0] == seq(NDIRECT, _ => 0);
  }

  lemma FileCleared()
    ensures WellFormed(ReadDisk()) && Slot(3, 0) in ReadDisk().files
    ensures Truncate(ReadDisk(), Slot(3, 0), 0) == Some(FreedDisk())
  {
    var d, f := ReadDisk(), Slot(3, 0);
    FirstBlockCleared();
    assert Put(d, TableAt(f), 0) == d;
    assert ClearRange(ClearedDisk(), f, 1, 1) == Some(ClearedDisk());
    assert Cleared(d, f, 0) == ClearRange(d, f, 0, 1) == Some(ClearedDisk());
    assert WithSize(ClearedDisk(), f, 0) == FreedDisk();
  }

  /** Growing the file again makes its table in the freed block, whose word 11 is a stale 5. */
  function StaleTableDisk(): Disk {
    var d := FreedDisk();
    d.(free := {5}, files := d.files[Slot(3, 0) := d.files[Slot(3, 0)].(indirect := 4)])
  }

  lemma TableInFreedBlock()
    ensures WellFormed(FreedDisk()) && Slot(3, 0) in FreedDisk().files
    ensures BlockWalk(FreedDisk(), Slot(3, 0), 10, true) == Good((StaleTableDisk(), IndirectAt(Slot(3, 0), 10)))
  {
    var d, f := FreedDisk(), Slot(3, 0);
    assert FirstFree(d, 3) == Some(4);
    var (a, b) := AllocBlock(d).value;
    assert d.free - {4} == {5} && d.mapped + {4} == d.mapped;
    assert Put(a, TableAt(f), 4).(mapped := a.mapped + {4}) == StaleTableDisk();
  }

  lemma LastBlockTaken()
    ensures WellFormed(StaleTableDisk())
    ensures AllocBlock(StaleTableDisk()) == Good((StaleTableDisk().(free := {}, mapped := {1, 2, 4, 5}), 5))
  {
    var s := StaleTableDisk();
    assert FirstFree(s, 3) == Some(5);
    assert s.free - {5} == {} && s.mapped + {5} == {1, 2, 4, 5};
    assert s.words[5 := Zeros()] == s.words;
  }

  /** The block allocated next is block 5, which the table then names in words 10 and 11. */
  function GrownDisk(): Disk {
    var s := StaleTableDisk();
    s.(free := {}, mapped := {1, 2, 4, 5}, words := s.words[4 := s.words[4][10 := 5]])
  }

  lemma TwoPointersToOneBlock()
    ensures WellFormed(GrownDisk())
    ensures At(GrownDisk(), IndirectAt(Slot(3, 0), 10)) == At(GrownDisk(), IndirectAt(Slot(3, 0), 11)) == 5
    ensures !Owned(GrownDisk())
  {
    assert IndirectAt(Slot(3, 0), 10) != IndirectAt(Slot(3, 0), 11);
  }

  lemma GrowAgain()
    ensures WellFormed(FreedDisk()) && Slot(3, 0) in FreedDisk().files
    ensures MapBlock(FreedDisk(), Slot(3, 0), 10, true) == Good((GrownDisk(), 5))
  {
    TableInFreedBlock();
    LastBlockTaken();
    assert At(StaleTableDisk(), IndirectAt(Slot(3, 0), 10)) == 0;
  }

  /** Reading a file, truncating it and growing it past its direct blocks takes an owned disk to one that is not. */
  lemma StaleTableBreaksOwnership()
    ensures Owned(OneFileDisk()) && ReadBlock(OneFileDisk(), 4).Good?
    ensures var r := ReadBlock(OneFileDisk(), 4).value;
      && WellFormed(r) && Slot(3, 0) in r.files && Truncate(r, Slot(3, 0), 0).Some?
      && var t := Truncate(r, Slot(3, 0), 0).value;
         && WellFormed(t) && Slot(3, 0) in t.files && MapBlock(t, Slot(3, 0), 10, true).Good?
         && !Owned(MapBlock(t, Slot(3, 0), 10, true).value.0)
  {
    OneFileDiskOwned();
    FileRead();
    FileCleared();
    GrowAgain();
    TwoPointersToOneBlock();
  }
}
