/** Free space: which blocks truncation gives back, which it loses, and what that means over whole runs. */
module FsSpace {
  import opened Options
  import opened FsBlocks
  import opened FsDir
  import opened FsPath
  import opened FsTree
  import Files = FsRoundTrip

  /** The data blocks that are not free are exactly the ones that pointers name. */
  ghost predicate Accounted(d: Disk)
    requires WellFormed(d)
  {
    && (forall p :: At(d, p) != 0 ==> At(d, p) >= FIRST_DATA_BLOCK)
    && (forall b: nat :: FIRST_DATA_BLOCK <= b < d.nblocks && b !in d.free ==> exists p :: At(d, p) == b)
  }

  /** A data block that is neither free nor named by a pointer. */
  ghost predicate Lost(d: Disk, b: nat)
    requires WellFormed(d)
  {
    FIRST_DATA_BLOCK <= b && Unclaimed(d, b)
  }

  // ---- allocation ----

  /** `alloc_block` takes the first free data block and no other, and fails exactly when there is none. */
  lemma AllocTakesFirst(d: Disk)
    ensures match AllocBlock(d)
      case Good((a, b)) =>
        && FIRST_DATA_BLOCK <= b < d.nblocks && b in d.free && a.free == d.free - {b}
        && a.mapped == d.mapped + {b} && a.files == d.files && a.nblocks == d.nblocks
        && (forall k: nat :: FIRST_DATA_BLOCK <= k < b ==> k !in d.free)
        && (forall k: nat :: k in d.words && (k != b || b in d.mapped) ==> k in a.words && a.words[k] == d.words[k])
      case r => r.NoDisk? && forall k: nat :: FIRST_DATA_BLOCK <= k < d.nblocks ==> k !in d.free
  {
  }

  /** From `d` to `e`, the free block `b` became the one at place `p`; no other pointer and no other bit changed. */
  ghost predicate Entered(d: Disk, e: Disk, p: Place, b: nat)
    requires WellFormed(d) && WellFormed(e)
  {
    && FIRST_DATA_BLOCK <= b < d.nblocks && b in d.free && e.free == d.free - {b} && e.nblocks == d.nblocks
    && At(d, p) == 0 && OnlyChanged(d, e, p, b)
  }

  /** Entering a free block at an empty place keeps the account. */
  lemma EnteredAccounted(d: Disk, e: Disk, p: Place, b: nat)
    requires WellFormed(d) && WellFormed(e) && Entered(d, e, p, b) && Accounted(d)
    ensures Accounted(e)
  {
    forall c: nat | FIRST_DATA_BLOCK <= c < e.nblocks && c !in e.free
      ensures exists q :: At(e, q) == c
    {
      if c == b {
        assert At(e, p) == c;
      } else {
        var q :| At(d, q) == c;
        assert At(e, q) == c;
      }
    }
  }

  lemma EnteredKeepsLost(d: Disk, e: Disk, p: Place, b: nat, c: nat)
    requires WellFormed(d) && WellFormed(e) && Entered(d, e, p, b) && Lost(d, c)
    ensures Lost(e, c)
  {
  }

  /** Pointers and free blocks are the same. */
  ghost predicate SameSpace(d: Disk, e: Disk)
    requires WellFormed(d) && WellFormed(e)
  {
    SamePointers(d, e) && e.free == d.free && e.nblocks == d.nblocks
  }

  /** A block allocated and stored at an empty place was entered there. */
  lemma AllocEnters(d: Disk, p: Place)
    requires Owned(d) && Real(d, p) && At(d, p) == 0 && AllocBlock(d).Good?
    requires p.TableAt? ==> NextTableEmpty(d)
    ensures var (a, b) := AllocBlock(d).value;
      && p.f in a.files && |a.files[p.f].direct| == NDIRECT
      && Owned(Put(a, p, b)) && Entered(d, Put(a, p, b), p, b)
  {
    AllocTakesFirst(d);
    AllocKeepsOwned(d);
    var (a, b) := AllocBlock(d).value;
    assert Real(a, p);
    PutKeepsOwned(a, p, b);
  }

  /** What `file_block_walk` does to the free space: nothing, or a table is entered. */
  lemma WalkSpace(d: Disk, f: FileRef, n: nat, e: Disk, p: Place)
    requires Owned(d) && f in d.files && TableArrivesEmpty(d, f, n, true)
    requires BlockWalk(d, f, n, true) == Good((e, p))
    ensures Owned(e) && Real(e, p) && p == PlaceOf(f, n)
    ensures if MakesTable(d, f, n, true) then exists t, b :: Owned(t) && Entered(d, t, TableAt(f), b) && SameSpace(t, e)
      else SameSpace(d, e)
  {
    BlockWalkOwned(d, f, n, true);
    if MakesTable(d, f, n, true) {
      AllocEnters(d, TableAt(f));
      var (a, b) := AllocBlock(d).value;
      var t := Put(a, TableAt(f), b);
      assert e == t.(mapped := t.mapped + {b});
      assert SamePointers(t, e);
      assert Owned(t) && Entered(d, t, TableAt(f), b) && SameSpace(t, e);
    } else if n >= NDIRECT {
      assert e == d.(mapped := d.mapped + {d.files[f].indirect});
    }
  }

  /** What a successful `file_map_block` does to the free space after the walk: nothing, or a block is entered. */
  lemma DataSpace(d: Disk, f: FileRef, n: nat, e: Disk, p: Place, g: Disk, b: nat)
    requires WellFormed(d) && f in d.files && BlockWalk(d, f, n, true) == Good((e, p))
    requires Owned(e) && Real(e, p) && !p.TableAt? && MapBlock(d, f, n, true) == Good((g, b))
    ensures Owned(g) && (g == e || Entered(e, g, p, b))
  {
    if At(e, p) == 0 {
      AllocEnters(e, p);
    }
  }

  lemma SameSpaceKeeps(d: Disk, e: Disk)
    requires WellFormed(d) && WellFormed(e) && SameSpace(d, e)
    ensures Accounted(d) ==> Accounted(e)
    ensures forall c :: Lost(d, c) ==> Lost(e, c)
  {
    forall b: nat | Accounted(d) && FIRST_DATA_BLOCK <= b < e.nblocks && b !in e.free
      ensures exists p :: At(e, p) == b
    {
      var p :| At(d, p) == b;
      assert At(e, p) == b;
    }
  }

  /** `file_map_block` keeps the account, and finds no lost block again. */
  lemma MapBlockSpace(d: Disk, f: FileRef, n: nat)
    requires Owned(d) && f in d.files && TableArrivesEmpty(d, f, n, true) && MapBlock(d, f, n, true).Good?
    ensures var g := MapBlock(d, f, n, true).value.0;
      && Owned(g) && (Accounted(d) ==> Accounted(g)) && forall c :: Lost(d, c) ==> Lost(g, c)
  {
    var (g, b) := MapBlock(d, f, n, true).value;
    var (e, p) := BlockWalk(d, f, n, true).value;
    WalkSpace(d, f, n, e, p);
    DataSpace(d, f, n, e, p, g, b);
    WalkKeeps(d, f, n, e, p);
    DataKeeps(e, g, p, b);
  }

  lemma WalkKeeps(d: Disk, f: FileRef, n: nat, e: Disk, p: Place)
    requires Owned(d) && f in d.files && TableArrivesEmpty(d, f, n, true)
    requires BlockWalk(d, f, n, true) == Good((e, p))
    ensures WellFormed(e) && (Accounted(d) ==> Accounted(e)) && forall c :: Lost(d, c) ==> Lost(e, c)
  {
    WalkSpace(d, f, n, e, p);
    if MakesTable(d, f, n, true) {
      var t, b :| Owned(t) && Entered(d, t, TableAt(f), b) && SameSpace(t, e);
      DataKeeps(d, t, TableAt(f), b);
      SameSpaceKeeps(t, e);
    } else {
      SameSpaceKeeps(d, e);
    }
  }

  lemma DataKeeps(d: Disk, e: Disk, p: Place, b: nat)
    requires WellFormed(d) && WellFormed(e) && (e == d || Entered(d, e, p, b))
    ensures (Accounted(d) ==> Accounted(e)) && forall c :: Lost(d, c) ==> Lost(e, c)
  {
    if e != d {
      if Accounted(d) {
        EnteredAccounted(d, e, p, b);
      }
      forall c | Lost(d, c)
        ensures Lost(e, c)
      {
        EnteredKeepsLost(d, e, p, b, c);
      }
    }
  }

  // ---- running out of room ----

  /** The free data blocks. */
  ghost function FreeData(d: Disk): (s: set<nat>)
    ensures forall b :: b in s <==> FIRST_DATA_BLOCK <= b < d.nblocks && b in d.free
  {
    set b: nat | FIRST_DATA_BLOCK <= b < d.nblocks && b in d.free
  }

  lemma AllocNeedsOne(d: Disk)
    ensures AllocBlock(d).Good? <==> |FreeData(d)| >= 1
    ensures AllocBlock(d).Good? ==> |FreeData(AllocBlock(d).value.0)| == |FreeData(d)| - 1
  {
    AllocTakesFirst(d);
    if AllocBlock(d).Good? {
      var (a, b) := AllocBlock(d).value;
      assert b in FreeData(d);
      assert FreeData(a) == FreeData(d) - {b};
    } else {
      assert FreeData(d) == {};
    }
  }

  /** How many blocks `file_map_block` has to allocate for file block `n`. */
  ghost function Needed(d: Disk, f: FileRef, n: nat): nat
    requires WellFormed(d) && f in d.files
  {
    if At(d, PlaceOf(f, n)) != 0 then 0 else if MakesTable(d, f, n, true) then 2 else 1
  }

  /**
   `file_map_block` answers INVAL for a block past the table, else NO_DISK if and only if fewer data blocks
   are free than it needs.
   */
  lemma MapBlockAnswers(d: Disk, f: FileRef, n: nat)
    requires Owned(d) && f in d.files && TableArrivesEmpty(d, f, n, true)
    ensures match MapBlock(d, f, n, true)
      case Good(_) => n < 1024 && |FreeData(d)| >= Needed(d, f, n)
      case NoDisk => n < 1024 && |FreeData(d)| < Needed(d, f, n)
      case Invalid => n >= 1024
      case _ => false
  {
    BlockWalkOwned(d, f, n, true);
    AllocNeedsOne(d);
    if BlockWalk(d, f, n, true).Good? {
      var (e, p) := BlockWalk(d, f, n, true).value;
      AllocNeedsOne(e);
      if MakesTable(d, f, n, true) {
        TableMade(d, f, n);
        FreeDataAfterTable(d, e, FirstFree(d, FIRST_DATA_BLOCK).value);
      } else {
        assert FreeData(e) == FreeData(d);
      }
    }
  }

  lemma FreeDataAfterTable(d: Disk, e: Disk, b: nat)
    requires e.free == d.free - {b} && e.nblocks == d.nblocks && FIRST_DATA_BLOCK <= b < d.nblocks && b in d.free
    ensures |FreeData(e)| == |FreeData(d)| - 1
  {
    assert FreeData(e) == FreeData(d) - {b};
  }

  // ---- truncation ----

  /** `file_clear_block` gives back the block it unmaps. */
  lemma ClearBlockFrees(d: Disk, f: FileRef, n: nat)
    requires Owned(d) && f in d.files
    ensures match ClearBlock(d, f, n)
      case Good(e) =>
        && e.nblocks == d.nblocks && WellFormed(e) && At(e, TableAt(f)) == At(d, TableAt(f))
        && e.free == if At(d, PlaceOf(f, n)) != 0 then d.free + {At(d, PlaceOf(f, n))} else d.free
      case _ => n < NINDIRECT ==> At(d, PlaceOf(f, n)) == 0
  {
    ClearBlockOwned(d, f, n);
    BlockWalkOwned(d, f, n, false);
  }

  /** Block `b` is mapped at one of the file blocks `n` to `m - 1`. */
  ghost predicate MappedIn(d: Disk, f: FileRef, n: nat, m: nat, b: nat)
    requires WellFormed(d)
  {
    b != 0 && exists k: nat :: n <= k < m && k < NINDIRECT && At(d, PlaceOf(f, k)) == b
  }

  lemma {:induction false} ClearRangeFrees(d: Disk, f: FileRef, n: nat, m: nat)
    requires Owned(d) && f in d.files
    ensures ClearRange(d, f, n, m).Some?
    ensures var e := ClearRange(d, f, n, m).value;
      && WellFormed(e) && e.nblocks == d.nblocks && At(e, TableAt(f)) == At(d, TableAt(f))
      && forall b: nat :: b in e.free <==> b in d.free || MappedIn(d, f, n, m, b)
    decreases m - n
  {
    ClearRangeOwned(d, f, n, m);
    if n < m {
      ClearBlockOwned(d, f, n);
      ClearBlockFrees(d, f, n);
      var c := if ClearBlock(d, f, n).Good? then ClearBlock(d, f, n).value else d;
      ClearRangeFrees(c, f, n + 1, m);
      forall b: nat
        ensures MappedIn(d, f, n, m, b) <==>
          MappedIn(c, f, n + 1, m, b) || (b == At(d, PlaceOf(f, n)) != 0 && n < NINDIRECT)
      {
        MappedInRest(d, c, f, n, m, b);
      }
    }
  }

  lemma MappedInRest(d: Disk, c: Disk, f: FileRef, n: nat, m: nat, b: nat)
    requires WellFormed(d) && WellFormed(c) && n < m
    requires forall k: nat :: k < NINDIRECT && k != n ==> At(c, PlaceOf(f, k)) == At(d, PlaceOf(f, k))
    ensures MappedIn(d, f, n, m, b) <==>
      MappedIn(c, f, n + 1, m, b) || (b == At(d, PlaceOf(f, n)) != 0 && n < NINDIRECT)
  {
    if b != 0 {
      if k: nat :| n <= k < m && k < NINDIRECT && At(d, PlaceOf(f, k)) == b {
        assert k != n ==> At(c, PlaceOf(f, k)) == b;
      }
      if k: nat :| n + 1 <= k < m && k < NINDIRECT && At(c, PlaceOf(f, k)) == b {
        assert At(d, PlaceOf(f, k)) == b;
      }
    }
  }

  /**
   Truncation gives block `b` back: it was mapped at a file block that is not kept, that the old file did
   not end before, and that lies behind no table the truncation drops.
   */
  ghost predicate GivenBack(d: Disk, f: FileRef, newsize: nat, b: nat)
    requires WellFormed(d) && f in d.files
  {
    b != 0 && exists k: nat ::
      k < NINDIRECT && At(d, PlaceOf(f, k)) == b && !KeptBlock(k, newsize) && k * BY2BLK <= d.files[f].size &&
        (k < NDIRECT || newsize >= NDIRECT * BY2BLK)
  }

  /** The disk on which the loop of `file_truncate` starts. */
  function LoopStart(d: Disk, f: FileRef, newsize: nat): Disk
    requires WellFormed(d) && f in d.files
  {
    if newsize < NDIRECT * BY2BLK then Put(d, TableAt(f), 0) else d
  }

  lemma LoopStartFacts(d: Disk, f: FileRef, newsize: nat)
    requires Owned(d) && f in d.files
    ensures var s := LoopStart(d, f, newsize);
      && Owned(s) && f in s.files && s.free == d.free && s.nblocks == d.nblocks
      && At(s, TableAt(f)) == (if newsize < NDIRECT * BY2BLK then 0 else At(d, TableAt(f)))
      && (forall k: nat :: k < NINDIRECT ==>
            At(s, PlaceOf(f, k)) == if newsize < NDIRECT * BY2BLK && k >= NDIRECT then 0 else At(d, PlaceOf(f, k)))
      && Cleared(d, f, newsize) == ClearRange(s, f, NewBlocks(newsize), OldBlocks(d.files[f].size))
  {
    DropTableOwned(d, f);
    BlocksInBytes(0, newsize);
  }

  lemma MappedInBytes(d: Disk, s: Disk, f: FileRef, newsize: nat, b: nat)
    requires WellFormed(d) && f in d.files && WellFormed(s)
    requires forall k: nat :: k < NINDIRECT ==>
      At(s, PlaceOf(f, k)) == if newsize < NDIRECT * BY2BLK && k >= NDIRECT then 0 else At(d, PlaceOf(f, k))
    ensures MappedIn(s, f, NewBlocks(newsize), OldBlocks(d.files[f].size), b) <==> GivenBack(d, f, newsize, b)
  {
    var size := d.files[f].size;
    if b != 0 {
      if k: nat :| NewBlocks(newsize) <= k < OldBlocks(size) && k < NINDIRECT && At(s, PlaceOf(f, k)) == b {
        BlocksInBytes(k, newsize);
        BlocksInBytes(k, size);
        assert At(d, PlaceOf(f, k)) == b;
      }
      if k: nat :| k < NINDIRECT && At(d, PlaceOf(f, k)) == b && !KeptBlock(k, newsize) && k * BY2BLK <= size &&
                   (k < NDIRECT || newsize >= NDIRECT * BY2BLK) {
        BlocksInBytes(k, newsize);
        BlocksInBytes(k, size);
        assert At(s, PlaceOf(f, k)) == b;
      }
    }
  }

  /** The blocks that `file_truncate` frees, and what becomes of the pointer to the table. */
  lemma TruncateFrees(d: Disk, f: FileRef, newsize: nat)
    requires Owned(d) && f in d.files
    ensures Truncate(d, f, newsize).Some?
    ensures var e := Truncate(d, f, newsize).value;
      && Owned(e) && e.nblocks == d.nblocks
      && At(e, TableAt(f)) == (if newsize < NDIRECT * BY2BLK then 0 else At(d, TableAt(f)))
      && forall b: nat :: b in e.free <==> b in d.free || GivenBack(d, f, newsize, b)
  {
    var s := LoopStart(d, f, newsize);
    LoopStartFacts(d, f, newsize);
    ClearRangeFrees(s, f, NewBlocks(newsize), OldBlocks(d.files[f].size));
    TruncateOwned(d, f, newsize);
    ClearedOwned(d, f, newsize);
    var c := Cleared(d, f, newsize).value;
    ResizeKeepsPointers(c, f, newsize);
    forall b: nat
      ensures b in c.free <==> b in d.free || GivenBack(d, f, newsize, b)
    {
      MappedInBytes(d, s, f, newsize, b);
    }
  }

  /** The truncation drops a pointer table, without freeing it or what it names. */
  ghost predicate DropsTable(d: Disk, f: FileRef, newsize: nat)
    requires f in d.files
  {
    newsize < NDIRECT * BY2BLK && d.files[f].indirect != 0
  }

  /** A pointer that truncation takes away named a block it gives back, unless a table was dropped. */
  lemma TakenIsGivenBack(d: Disk, e: Disk, f: FileRef, newsize: nat, p: Place)
    requires Owned(d) && WellFormed(e) && f in d.files && Truncated(d, e, f, newsize) && !DropsTable(d, f, newsize)
    requires At(e, TableAt(f)) == if newsize < NDIRECT * BY2BLK then 0 else At(d, TableAt(f))
    requires At(d, p) != 0
    ensures At(e, p) == At(d, p) || GivenBack(d, f, newsize, At(d, p))
  {
    if p.f == f && !p.TableAt? {
      assert p == PlaceOf(f, p.i) && p.i < NINDIRECT;
    }
  }

  /** A table that is dropped is lost, if it was a data block. */
  lemma DroppedIsLost(d: Disk, e: Disk, f: FileRef, newsize: nat)
    requires Owned(d) && Owned(e) && f in d.files && Truncated(d, e, f, newsize) && DropsTable(d, f, newsize)
    requires At(e, TableAt(f)) == 0 && e.nblocks == d.nblocks && At(d, TableAt(f)) >= FIRST_DATA_BLOCK
    requires forall b: nat :: b in e.free <==> b in d.free || GivenBack(d, f, newsize, b)
    ensures Lost(e, d.files[f].indirect)
  {
    var t := d.files[f].indirect;
    assert At(d, TableAt(f)) == t;
    forall p
      ensures At(e, p) != t
    {
      if p.f == f && !p.TableAt? {
        assert PlaceOf(f, p.i) != TableAt(f);
        assert At(e, p) != 0 ==> p == PlaceOf(f, p.i) && p.i < NINDIRECT;
      }
    }
    forall k: nat | k < NINDIRECT
      ensures At(d, PlaceOf(f, k)) != t
    {
    }
  }

  /**
   Truncation keeps the account exactly if it drops no pointer table: `file_truncate` forgets the table
   before it has freed the blocks behind it, and never frees the table.
   */
  lemma TruncateAccountedIff(d: Disk, f: FileRef, newsize: nat)
    requires Owned(d) && Accounted(d) && f in d.files
    ensures Truncate(d, f, newsize).Some? && Owned(Truncate(d, f, newsize).value)
    ensures Accounted(Truncate(d, f, newsize).value) <==> newsize >= NDIRECT * BY2BLK || d.files[f].indirect == 0
  {
    TruncateFrees(d, f, newsize);
    TruncateOwned(d, f, newsize);
    var e := Truncate(d, f, newsize).value;
    assert At(d, TableAt(f)) == d.files[f].indirect;
    if DropsTable(d, f, newsize) {
      DroppedIsLost(d, e, f, newsize);
    } else {
      TruncateKeepsAccount(d, e, f, newsize);
    }
  }

  lemma TruncateKeepsAccount(d: Disk, e: Disk, f: FileRef, newsize: nat)
    requires Owned(d) && Owned(e) && Accounted(d) && f in d.files && Truncated(d, e, f, newsize)
    requires !DropsTable(d, f, newsize) && e.nblocks == d.nblocks
    requires At(e, TableAt(f)) == if newsize < NDIRECT * BY2BLK then 0 else At(d, TableAt(f))
    requires forall b: nat :: b in e.free <==> b in d.free || GivenBack(d, f, newsize, b)
    ensures Accounted(e)
  {
    forall b: nat | FIRST_DATA_BLOCK <= b < e.nblocks && b !in e.free
      ensures exists p :: At(e, p) == b
    {
      var p :| At(d, p) == b;
      TakenIsGivenBack(d, e, f, newsize, p);
      assert At(e, p) == b;
    }
    forall p | At(e, p) != 0
      ensures At(e, p) >= FIRST_DATA_BLOCK
    {
      PointerStays(d, e, f, newsize, p);
    }
  }

  /** Truncation makes no pointer. */
  lemma PointerStays(d: Disk, e: Disk, f: FileRef, newsize: nat, p: Place)
    requires WellFormed(d) && WellFormed(e) && f in d.files && Truncated(d, e, f, newsize)
    requires At(e, TableAt(f)) == if newsize < NDIRECT * BY2BLK then 0 else At(d, TableAt(f))
    ensures At(e, p) == 0 || At(e, p) == At(d, p)
  {
    if p.f == f && !p.TableAt? && At(e, p) != 0 {
      assert p == PlaceOf(f, p.i) && p.i < NINDIRECT;
    }
  }

  lemma TruncateKeepsLost(d: Disk, f: FileRef, newsize: nat, c: nat)
    requires Owned(d) && f in d.files && Lost(d, c)
    ensures Truncate(d, f, newsize).Some? && Owned(Truncate(d, f, newsize).value)
    ensures Lost(Truncate(d, f, newsize).value, c)
  {
    TruncateFrees(d, f, newsize);
    TruncateOwned(d, f, newsize);
    var e := Truncate(d, f, newsize).value;
    forall p
      ensures At(e, p) != c
    {
      PointerStays(d, e, f, newsize, p);
    }
  }

  /** The disk with one file starts out accounted for. */
  lemma OneFileDiskAccounted()
    ensures Owned(OneFileDisk()) && Accounted(OneFileDisk())
  {
    var d := OneFileDisk();
    OneFileDiskOwned();
    assert At(d, DirectAt(RootFile, 0)) == 3 && At(d, DirectAt(Slot(3, 0), 0)) == 4;
    forall p
      ensures At(d, p) in {0, 3, 4}
    {
    }
  }

  /**
   `file_remove` gives back every block of the file if and only if the file has no pointer table: exactly
   then the account is kept.
   */
  lemma RemoveAccountedIff(d: Disk, p: string, s: FileRef)
    requires FsOk(d) && Accounted(d) && Files.Open(d, p) == Good(s) && s in d.files
    ensures var (e, r) := Files.Remove(d, p);
      r.Good? && Owned(e) && (Accounted(e) <==> d.files[s].indirect == 0)
  {
    ResolveLocates(d, RootFile, None, Names(p));
    var w := Resolve(d, RootFile, None, Names(p)).disk;
    SameButMappedKeeps(d, w);
    SameSpaceKeeps(d, w);
    TruncateAccountedIff(w, s, 0);
    TruncateOwned(w, s, 0);
    NamedSpace(Truncate(w, s, 0).value, s, "");
  }

  /** What `file_remove` leaves of the slot: no name and no bytes, and no block that a file of its size has. */
  lemma RemovedIsEmpty(d: Disk, p: string, s: FileRef)
    requires FsOk(d) && Files.Open(d, p) == Good(s) && s in d.files
    ensures var e := Files.Remove(d, p).0;
      && WellFormed(e) && s in e.files && e.files[s].name == "" && e.files[s].size == 0
      && forall k: nat :: k < NINDIRECT && (k * BY2BLK <= d.files[s].size || k >= NDIRECT) ==>
           BlockMap(e, s, k) == NotFound
  {
    ResolveLocates(d, RootFile, None, Names(p));
    var w := Resolve(d, RootFile, None, Names(p)).disk;
    SameButMappedKeeps(d, w);
    TruncateExact(w, s, 0);
    TruncateOwned(w, s, 0);
    UnnamedBlocks(Truncate(w, s, 0).value, s);
  }

  lemma UnnamedBlocks(t: Disk, s: FileRef)
    requires Owned(t) && s in t.files
    ensures var e := Files.WithName(t, s, "");
      WellFormed(e) && forall k: nat :: BlockMap(e, s, k) == BlockMap(t, s, k)
  {
    var e := Files.WithName(t, s, "");
    assert SamePointers(t, e);
  }

  /** A name has nothing to do with the blocks. */
  lemma NamedSpace(t: Disk, s: FileRef, name: string)
    requires Owned(t) && s in t.files
    ensures var e := Files.WithName(t, s, name); Owned(e) && (Accounted(e) <==> Accounted(t))
  {
    var e := Files.WithName(t, s, name);
    assert SamePointers(t, e) && SamePointers(e, t);
    SameSpaceKeeps(t, e);
    SameSpaceKeeps(e, t);
  }

  // ---- whole runs ----

  datatype FsOp = MapOp(f: FileRef, n: nat) | TruncateOp(f: FileRef, newsize: nat) | ReadOp(b: nat)

  /** The operation succeeds, and a pointer table it makes arrives empty. */
  ghost predicate Allowed(d: Disk, op: FsOp)
    requires WellFormed(d)
  {
    match op
    case MapOp(f, n) => f in d.files && TableArrivesEmpty(d, f, n, true) && MapBlock(d, f, n, true).Good?
    case TruncateOp(f, _) => f in d.files
    case ReadOp(b) => ReadBlock(d, b).Good?
  }

  ghost function Step(d: Disk, op: FsOp): Disk
    requires Owned(d) && Allowed(d, op)
  {
    match op
    case MapOp(f, n) => MapBlock(d, f, n, true).value.0
    case TruncateOp(f, newsize) => TruncateOwned(d, f, newsize); Truncate(d, f, newsize).value
    case ReadOp(b) => ReadBlock(d, b).value
  }

  /** The operation is a truncation that drops a pointer table. */
  ghost predicate Loses(d: Disk, op: FsOp)
    requires WellFormed(d) && Allowed(d, op)
  {
    op.TruncateOp? && DropsTable(d, op.f, op.newsize)
  }

  lemma StepSpace(d: Disk, op: FsOp)
    requires Owned(d) && Allowed(d, op)
    ensures var e := Step(d, op);
      && Owned(e) && (Accounted(d) ==> (Accounted(e) <==> !Loses(d, op))) && forall c :: Lost(d, c) ==> Lost(e, c)
  {
    match op
    case MapOp(f, n) => MapBlockSpace(d, f, n);
    case TruncateOp(f, newsize) =>
      TruncateOwned(d, f, newsize);
      if Accounted(d) {
        TruncateAccountedIff(d, f, newsize);
      }
      forall c | Lost(d, c)
        ensures Lost(Truncate(d, f, newsize).value, c)
      {
        TruncateKeepsLost(d, f, newsize, c);
      }
    case ReadOp(b) =>
      assert SamePointers(d, ReadBlock(d, b).value);
      SameSpaceKeeps(d, ReadBlock(d, b).value);
  }

  ghost predicate Runs(d: Disk, ops: seq<FsOp>, e: Disk)
    requires Owned(d)
    decreases |ops|
  {
    if ops == [] then e == d
    else Allowed(d, ops[0]) && (StepSpace(d, ops[0]); Runs(Step(d, ops[0]), ops[1..], e))
  }

  ghost predicate NeverLoses(d: Disk, ops: seq<FsOp>, e: Disk)
    requires Owned(d) && Runs(d, ops, e)
    decreases |ops|
  {
    ops == [] || (!Loses(d, ops[0]) && (StepSpace(d, ops[0]); NeverLoses(Step(d, ops[0]), ops[1..], e)))
  }

  /** A lost block stays lost: no run ever finds it again. */
  lemma {:induction false} LostForever(d: Disk, ops: seq<FsOp>, e: Disk, c: nat)
    requires Owned(d) && Runs(d, ops, e) && Lost(d, c)
    ensures Owned(e) && Lost(e, c) && !Accounted(e)
    decreases |ops|
  {
    if ops != [] {
      StepSpace(d, ops[0]);
      LostForever(Step(d, ops[0]), ops[1..], e, c);
    }
  }

  lemma LossMakesLost(d: Disk, op: FsOp)
    requires Owned(d) && Accounted(d) && Allowed(d, op) && Loses(d, op)
    ensures Owned(Step(d, op)) && Lost(Step(d, op), d.files[op.f].indirect)
  {
    TruncateFrees(d, op.f, op.newsize);
    TruncateOwned(d, op.f, op.newsize);
    assert At(d, TableAt(op.f)) == d.files[op.f].indirect;
    DroppedIsLost(d, Step(d, op), op.f, op.newsize);
  }

  /**
   In every run from a disk on which the blocks in use are the ones that pointers name, that is so at the
   end if and only if no truncation of the run dropped a pointer table.
   */
  lemma {:induction false} AccountedIffNeverLoses(d: Disk, ops: seq<FsOp>, e: Disk)
    requires Owned(d) && Accounted(d) && Runs(d, ops, e)
    ensures Owned(e) && (Accounted(e) <==> NeverLoses(d, ops, e))
    decreases |ops|
  {
    if ops != [] {
      StepSpace(d, ops[0]);
      if Loses(d, ops[0]) {
        LossMakesLost(d, ops[0]);
        LostForever(Step(d, ops[0]), ops[1..], e, d.files[ops[0].f].indirect);
      } else {
        AccountedIffNeverLoses(Step(d, ops[0]), ops[1..], e);
      }
    }
  }
}
