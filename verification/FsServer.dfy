/**
 The block layer as the file server runs it: bitmap words, pointer tables and file structures
 updated in place.  A bitmap word is the set of its one-bits.
 */
module FsServer {
  import opened Options
  import opened FsBlocks

  const WORD_BITS: nat := 32

  class FileServer {
    const nblocks: nat
    const bitmap: array<set<nat>>
    var mapped: set<nat>
    var words: map<nat, seq<nat>>
    var files: map<FileRef, File>

    ghost predicate Shaped()
      reads this, bitmap
    {
      nblocks <= WORD_BITS * bitmap.Length
    }

    ghost function State(): Disk
      reads this, bitmap
      requires Shaped()
    {
      Disk(nblocks, FreeSet(bitmap[..], nblocks), mapped, words, files)
    }

    ghost predicate Valid()
      reads this, bitmap
    {
      Shaped() && Owned(State())
    }

    constructor (nblocks: nat, words: map<nat, seq<nat>>, files: map<FileRef, File>, bits: seq<set<nat>>)
      requires nblocks <= WORD_BITS * |bits|
      ensures Shaped() && fresh(bitmap)
      ensures State() == Disk(nblocks, FreeSet(bits, nblocks), {}, words, files)
    {
      this.nblocks := nblocks;
      this.words := words;
      this.files := files;
      mapped := {};
      bitmap := new set<nat>[|bits|](i requires 0 <= i < |bits| => bits[i]);
      new;
      assert bitmap[..] == bits;
    }

    /** `block_is_free`. */
    method BlockIsFree(b: nat) returns (r: bool)
      requires Shaped()
      ensures r <==> b in State().free
    {
      if b >= nblocks {
        return false;
      }
      r := b % WORD_BITS in bitmap[b / WORD_BITS];
    }

    /** `free_block`, which panics on block 0. */
    method FreeBlockBit(b: nat)
      requires Shaped() && 0 < b < nblocks
      modifies bitmap
      ensures Shaped() && State() == FreeBlock(old(State()), b)
    {
      BitSet(bitmap[..], nblocks, b);
      bitmap[b / WORD_BITS] := bitmap[b / WORD_BITS] + {b % WORD_BITS};
    }

    /** `alloc_block_num`: the first one-bit from block 3 on, cleared. */
    method AllocBlockNum() returns (r: Option<nat>)
      requires Shaped()
      modifies bitmap
      ensures Shaped() && r == FirstFree(old(State()), FIRST_DATA_BLOCK)
      ensures State() == if r.Some? then old(State()).(free := old(State()).free - {r.value}) else old(State())
    {
      var b := FIRST_DATA_BLOCK;
      while b < nblocks
        invariant FirstFree(State(), FIRST_DATA_BLOCK) == FirstFree(State(), b)
        decreases nblocks - b
      {
        if b % WORD_BITS in bitmap[b / WORD_BITS] {
          BitClear(bitmap[..], nblocks, b);
          bitmap[b / WORD_BITS] := bitmap[b / WORD_BITS] - {b % WORD_BITS};
          return Some(b);
        }
        b := b + 1;
      }
      r := None;
    }

    /** `alloc_block`. */
    method AllocBlockPage() returns (r: Result<nat>)
      requires Shaped()
      modifies this`mapped, this`words, bitmap
      ensures Shaped()
      ensures r.Good? || r.NoDisk?
      ensures r.Good? ==> AllocBlock(old(State())) == Good((State(), r.value))
      ensures r.NoDisk? ==> State() == old(State()) && AllocBlock(State()).NoDisk?
    {
      var b := AllocBlockNum();
      if b.None? {
        return NoDisk;
      }
      if b.value !in mapped {
        mapped := mapped + {b.value};
        words := words[b.value := Zeros()];
      }
      assert mapped == old(mapped) + {b.value};
      r := Good(b.value);
    }

    /** `read_block`; false is its panic. */
    method ReadBlockPage(b: nat) returns (ok: bool)
      requires Shaped()
      modifies this`mapped
      ensures Shaped()
      ensures ok <==> b < nblocks && b !in old(State()).free
      ensures ok ==> ReadBlock(old(State()), b) == Good(State())
      ensures !ok ==> ReadBlock(old(State()), b).Panic?
    {
      var free := BlockIsFree(b);
      if b >= nblocks || free {
        return false;
      }
      mapped := mapped + {b};
      ok := true;
    }

    /** Store a block number at a place. */
    method StoreAt(p: Place, b: nat)
      requires Valid() && Real(State(), p)
      modifies this`files, this`words
      ensures Shaped() && State() == Put(old(State()), p, b)
    {
      var file := files[p.f];
      match p {
        case DirectAt(f, i) => files := files[f := file.(direct := file.direct[i := b])];
        case TableAt(f) => files := files[f := file.(indirect := b)];
        case IndirectAt(f, i) =>
          assert At(State(), TableAt(f)) == file.indirect;
          var table: seq<nat> := words[file.indirect][i := b];
          words := words[file.indirect := table];
      }
    }

    /** The block number at a place. */
    method LoadAt(p: Place) returns (b: nat)
      requires Valid() && Real(State(), p)
      ensures b == At(State(), p)
    {
      match p {
        case DirectAt(f, i) => b := files[f].direct[i];
        case TableAt(f) => b := files[f].indirect;
        case IndirectAt(f, i) =>
          assert At(State(), TableAt(f)) == files[f].indirect;
          b := words[files[f].indirect][i];
      }
    }

    /** `file_block_walk`. */
    method FileBlockWalk(f: FileRef, n: nat, alloc: bool) returns (r: Result<Place>)
      requires Valid() && f in files && TableArrivesEmpty(State(), f, n, alloc)
      modifies this`mapped, this`words, this`files, bitmap
      ensures Valid()
      ensures r.Good? ==> BlockWalk(old(State()), f, n, alloc) == Good((State(), r.value))
      ensures !r.Good? ==> State() == old(State()) && Failure(r) == Failure(BlockWalk(old(State()), f, n, alloc))
    {
      ghost var d := State();
      BlockWalkOwned(d, f, n, alloc);
      if n < NDIRECT {
        return Good(DirectAt(f, n));
      }
      if n >= NINDIRECT {
        return Invalid;
      }
      if files[f].indirect == 0 {
        if !alloc {
          return NotFound;
        }
        var b := AllocBlockPage();
        if !b.Good? {
          return NoDisk;
        }
        AllocKeepsOwned(d);
        StoreAt(TableAt(f), b.value);
      }
      var ok := ReadBlockPage(files[f].indirect);
      if !ok {
        return Panic;
      }
      r := Good(IndirectAt(f, n));
    }

    /** `file_map_block`. */
    method FileMapBlock(f: FileRef, n: nat, alloc: bool) returns (r: Result<nat>)
      requires Valid() && f in files && TableArrivesEmpty(State(), f, n, alloc)
      modifies this`mapped, this`words, this`files, bitmap
      ensures Valid() && !r.Panic?
      ensures r.Good? ==> MapBlock(old(State()), f, n, alloc) == Good((State(), r.value))
      ensures !r.Good? ==> Failure(r) == Failure(MapBlock(old(State()), f, n, alloc))
    {
      ghost var d := State();
      MapBlockOwned(d, f, n, alloc);
      BlockWalkOwned(d, f, n, alloc);
      var p := FileBlockWalk(f, n, alloc);
      match p {
        case Good(place) =>
          var b := LoadAt(place);
          if b != 0 {
            return Good(b);
          }
          if !alloc {
            return NotFound;
          }
          ghost var e := State();
          var fresh_ := AllocBlockPage();
          if !fresh_.Good? {
            return NoDisk;
          }
          AllocKeepsOwned(e);
          StoreAt(place, fresh_.value);
          r := Good(fresh_.value);
        case NotFound => r := NotFound;
        case Invalid => r := Invalid;
        case NoDisk => r := NoDisk;
        case BadPath => r := BadPath;
        case FileExists => r := FileExists;
        case Panic => r := Panic;
      }
    }

    /** `file_clear_block`, whose error codes its caller ignores. */
    method FileClearBlock(f: FileRef, n: nat) returns (ok: bool)
      requires Valid() && f in files
      modifies this`mapped, this`words, this`files, bitmap
      ensures Valid()
      ensures ok ==> ClearBlock(old(State()), f, n) == Good(State())
      ensures !ok ==> State() == old(State()) && !ClearBlock(old(State()), f, n).Good?
    {
      ghost var d := State();
      ClearBlockOwned(d, f, n);
      BlockWalkOwned(d, f, n, false);
      var p := FileBlockWalk(f, n, false);
      if !p.Good? {
        return false;
      }
      var b := LoadAt(p.value);
      if b != 0 {
        ReleaseAt(p.value, b);
      }
      ok := true;
    }

    /** `free_block`, and the pointer to the block cleared. */
    method ReleaseAt(p: Place, b: nat)
      requires Valid() && Real(State(), p) && !p.TableAt? && b == At(State(), p) != 0
      modifies this`words, this`files, bitmap
      ensures Valid() && State() == Put(FreeBlock(old(State()), b), p, 0)
    {
      ghost var e := State();
      ClearKeepsOwned(e, p);
      StoreAt(p, 0);
      FreeBlockBit(b);
      assert State() == Put(FreeBlock(e, b), p, 0);
    }

    /** `file_truncate`. */
    method FileTruncate(f: FileRef, newsize: nat)
      requires Valid() && f in files
      modifies this`mapped, this`words, this`files, bitmap
      ensures Valid() && Truncate(old(State()), f, newsize) == Some(State())
    {
      ghost var d := State();
      TruncateOwned(d, f, newsize);
      var oldBlocks, newBlocks := OldBlocks(files[f].size), NewBlocks(newsize);
      if newBlocks <= NDIRECT {
        DropTableOwned(d, f);
        StoreAt(TableAt(f), 0);
      }
      ClearLoop(f, newBlocks, oldBlocks);
      ResizeKeepsPointers(State(), f, newsize);
      files := files[f := files[f].(size := newsize)];
    }

    /** The loop of `file_truncate`. */
    method ClearLoop(f: FileRef, from: nat, to: nat)
      requires Valid() && f in files
      modifies this`mapped, this`words, this`files, bitmap
      ensures Valid() && f in files && ClearRange(old(State()), f, from, to) == Some(State())
    {
      ghost var d := State();
      ClearRangeOwned(d, f, from, to);
      var n := from;
      while n < to
        invariant from <= n && f in files
        invariant Valid()
        invariant ClearRange(State(), f, n, to) == ClearRange(d, f, from, to)
      {
        ClearBlockOwned(State(), f, n);
        var _ := FileClearBlock(f, n);
        n := n + 1;
      }
    }
  }

  /** The error code of a result. */
  function Failure<T>(r: Result<T>): (e: Result<()>)
    ensures (e.Good? <==> r.Good?) && (e.NotFound? <==> r.NotFound?) && (e.Invalid? <==> r.Invalid?)
    ensures (e.NoDisk? <==> r.NoDisk?) && (e.BadPath? <==> r.BadPath?) && (e.FileExists? <==> r.FileExists?)
  {
    match r
    case Good(_) => Good(())
    case NotFound => NotFound
    case Invalid => Invalid
    case NoDisk => NoDisk
    case BadPath => BadPath
    case FileExists => FileExists
    case Panic => Panic
  }

  /** The blocks whose bit is set. */
  ghost function FreeSet(bitmap: seq<set<nat>>, nblocks: nat): (s: set<nat>)
    requires nblocks <= WORD_BITS * |bitmap|
    ensures forall b: nat :: b in s <==> b < nblocks && b % WORD_BITS in bitmap[b / WORD_BITS]
  {
    set b: nat | 0 <= b < nblocks && b % WORD_BITS in bitmap[b / WORD_BITS]
  }

  lemma SameBit(a: nat, b: nat)
    ensures a / WORD_BITS == b / WORD_BITS && a % WORD_BITS == b % WORD_BITS ==> a == b
  {
  }

  lemma BitSet(bitmap: seq<set<nat>>, nblocks: nat, b: nat)
    requires nblocks <= WORD_BITS * |bitmap| && b < nblocks
    ensures FreeSet(bitmap[b / WORD_BITS := bitmap[b / WORD_BITS] + {b % WORD_BITS}], nblocks) ==
      FreeSet(bitmap, nblocks) + {b}
  {
    forall a: nat
      ensures a / WORD_BITS == b / WORD_BITS && a % WORD_BITS == b % WORD_BITS ==> a == b
    {
      SameBit(a, b);
    }
  }

  lemma BitClear(bitmap: seq<set<nat>>, nblocks: nat, b: nat)
    requires nblocks <= WORD_BITS * |bitmap| && b < nblocks
    ensures FreeSet(bitmap[b / WORD_BITS := bitmap[b / WORD_BITS] - {b % WORD_BITS}], nblocks) ==
      FreeSet(bitmap, nblocks) - {b}
  {
    forall a: nat
      ensures a / WORD_BITS == b / WORD_BITS && a % WORD_BITS == b % WORD_BITS ==> a == b
    {
      SameBit(a, b);
    }
  }
}
