/** The tree of names as a whole: well-kept file systems, and where a path leads in them. */
module FsTree {
  import opened Options
  import opened FsBlocks
  import opened FsDir
  import opened FsPath

  // ---- well-kept file systems ----

  ghost predicate IsDir(d: Disk, f: FileRef) {
    f in d.files && d.files[f].ftype == FTYPE_DIR
  }

  /** Directory `dir` holds `name` at slot `s`. */
  ghost predicate Holds(d: Disk, dir: FileRef, name: string, s: FileRef)
    requires WellFormed(d)
  {
    IsDir(d, dir) && EntryOf(d, dir, s) && s in d.files && d.files[s].name == name
  }

  /** No two entries of a directory carry the same name. */
  ghost predicate UniqueNames(d: Disk)
    requires WellFormed(d)
  {
    forall dir, name: string, s, t :: Holds(d, dir, name, s) && Holds(d, dir, name, t) && name != "" ==> s == t
  }

  /** Block `b` is block `i` of directory `dir`. */
  ghost predicate IsBlockOf(d: Disk, dir: FileRef, i: nat, b: nat)
    requires WellFormed(d)
  {
    IsDir(d, dir) && i < DirBlocks(d, dir) && b == DirBlock(d, dir, i)
  }

  /** Slots exist only in the blocks of directories. */
  ghost predicate SlotsPlaced(d: Disk)
    requires WellFormed(d)
  {
    forall b: nat, j: nat :: Slot(b, j) in d.files ==> j < FILE2BLK && exists dir, i: nat :: IsBlockOf(d, dir, i, b)
  }

  /** An empty slot is not a directory, as `file_create` does not set the type. */
  ghost predicate EmptySlotsRegular(d: Disk) {
    forall s :: IsDir(d, s) && s.Slot? ==> d.files[s].name != ""
  }

  ghost predicate FsOk(d: Disk) {
    && Owned(d) && IsDir(d, RootFile)
    && (forall dir :: IsDir(d, dir) ==> DirOk(d, dir))
    && UniqueNames(d) && SlotsPlaced(d) && EmptySlotsRegular(d)
  }

  /** In a well-kept file system `Find` is the directory relation read as a function. */
  lemma FindHolds(d: Disk, dir: FileRef, name: string, s: FileRef)
    requires FsOk(d) && IsDir(d, dir) && name != ""
    ensures Find(d, dir, name) == Some(s) <==> Holds(d, dir, name, s)
  {
    FindMeans(d, dir, name);
    if Find(d, dir, name).Some? {
      assert Holds(d, dir, name, Find(d, dir, name).value);
    }
  }

  // ---- where a list of names leads ----

  ghost function Locate(d: Disk, file: FileRef, names: seq<string>): Result<FileRef>
    requires WellFormed(d)
    decreases |names|
  {
    if names == [] then Good(file)
    else if |names[0]| >= MAXNAMELEN then BadPath
    else if !IsDir(d, file) then NotFound
    else
      match Find(d, file, names[0])
      case None => NotFound
      case Some(f) => Locate(d, f, names[1..])
  }

  /** The files on the way of `names`: each is a directory that holds the next name at the next file. */
  ghost predicate Trail(d: Disk, names: seq<string>, files: seq<FileRef>)
    requires WellFormed(d)
  {
    && |files| == |names| + 1
    && forall k: nat :: k < |names| ==> |names[k]| < 128 && Holds(d, files[k], names[k], files[k + 1])
  }

  lemma {:induction false} TrailFrom(d: Disk, file: FileRef, names: seq<string>) returns (files: seq<FileRef>)
    requires FsOk(d) && RealNames(names) && Locate(d, file, names).Good?
    ensures Trail(d, names, files) && files[0] == file && Good(files[|names|]) == Locate(d, file, names)
    decreases |names|
  {
    if names == [] {
      files := [file];
    } else {
      var f := Find(d, file, names[0]).value;
      FindHolds(d, file, names[0], f);
      var rest := TrailFrom(d, f, names[1..]);
      files := [file] + rest;
      forall k: nat | k < |names|
        ensures |names[k]| < 128 && Holds(d, files[k], names[k], files[k + 1])
      {
        if k > 0 {
          assert names[1..][k - 1] == names[k] && rest[k - 1] == files[k] && rest[k - 1 + 1] == files[k + 1];
        }
      }
    }
  }

  lemma {:induction false} TrailLeads(d: Disk, names: seq<string>, files: seq<FileRef>)
    requires FsOk(d) && RealNames(names) && Trail(d, names, files)
    ensures Locate(d, files[0], names) == Good(files[|names|])
    decreases |names|
  {
    if names != [] {
      var rest := files[1..];
      FindHolds(d, files[0], names[0], files[1]);
      forall k: nat | k < |names| - 1
        ensures |names[1..][k]| < 128 && Holds(d, rest[k], names[1..][k], rest[k + 1])
      {
        assert names[1..][k] == names[k + 1] && rest[k] == files[k + 1] && rest[k + 1] == files[k + 1 + 1];
      }
      TrailLeads(d, names[1..], rest);
    }
  }

  /** A name of the path is too long, and the names before it lead somewhere. */
  ghost predicate TooLongAt(d: Disk, file: FileRef, names: seq<string>, k: nat)
    requires WellFormed(d)
  {
    k < |names| && |names[k]| >= 128 && Locate(d, file, names[..k]).Good?
  }

  lemma TooLongLater(d: Disk, file: FileRef, names: seq<string>, k: nat)
    requires WellFormed(d) && names != [] && |names[0]| < 128 && IsDir(d, file) && Find(d, file, names[0]).Some?
    ensures TooLongAt(d, file, names, k + 1) <==> TooLongAt(d, Find(d, file, names[0]).value, names[1..], k)
  {
    if k < |names| - 1 {
      assert names[..k + 1][0] == names[0] && names[..k + 1][1..] == names[1..][..k];
    }
  }

  lemma {:induction false} LocateBadIff(d: Disk, file: FileRef, names: seq<string>)
    requires FsOk(d)
    ensures Locate(d, file, names) == BadPath <==> exists k: nat :: TooLongAt(d, file, names, k)
    ensures Locate(d, file, names).Good? || Locate(d, file, names) in {BadPath, NotFound}
    decreases |names|
  {
    if names != [] {
      assert names[..0] == [];
      if |names[0]| >= 128 {
        assert TooLongAt(d, file, names, 0);
      } else if IsDir(d, file) && Find(d, file, names[0]).Some? {
        var f, rest := Find(d, file, names[0]).value, names[1..];
        LocateBadIff(d, f, rest);
        forall k: nat
          ensures TooLongAt(d, file, names, k + 1) <==> TooLongAt(d, f, rest, k)
        {
          TooLongLater(d, file, names, k);
        }
        if k: nat :| TooLongAt(d, file, names, k) {
          assert k > 0;
          assert TooLongAt(d, f, rest, k - 1);
        }
        if k: nat :| TooLongAt(d, f, rest, k) {
          assert TooLongAt(d, file, names, k + 1);
        }
      } else {
        forall k: nat
          ensures !TooLongAt(d, file, names, k)
        {
          if 0 < k < |names| {
            assert names[..k][0] == names[0];
          }
        }
      }
    }
  }

  /**
   What `walk_path` returns for a list of names in a well-kept file system: the file at the end of their
   trail from the root, BAD_PATH where a trail meets a name of 128 characters or more, else NOT_FOUND.
   */
  lemma ResolveIff(d: Disk, names: seq<string>, f: FileRef)
    requires FsOk(d) && RealNames(names)
    ensures var r := Resolve(d, RootFile, None, names).file;
      && (r == Good(f) <==>
            exists files :: Trail(d, names, files) && files[0] == RootFile && files[|names|] == f)
      && (r == BadPath <==> exists k: nat :: TooLongAt(d, RootFile, names, k))
      && (r.Good? || r == BadPath || r == NotFound)
  {
    ResolveLocates(d, RootFile, None, names);
    LocateBadIff(d, RootFile, names);
    if Locate(d, RootFile, names) == Good(f) {
      var files := TrailFrom(d, RootFile, names);
      assert Trail(d, names, files) && files[0] == RootFile && files[|names|] == f;
    }
    if files :| Trail(d, names, files) && files[0] == RootFile && files[|names|] == f {
      TrailLeads(d, names, files);
    }
  }

  lemma {:induction false} LocateSame(d: Disk, e: Disk, file: FileRef, names: seq<string>)
    requires WellFormed(d) && SameButMapped(d, e)
    ensures WellFormed(e) && Locate(e, file, names) == Locate(d, file, names)
    decreases |names|
  {
    SameButMappedKeeps(d, e);
    if names != [] && IsDir(d, file) {
      FindFromSame(d, e, file, names[0], 0, DirBlocks(d, file));
      if Find(d, file, names[0]).Some? {
        LocateSame(d, e, Find(d, file, names[0]).value, names[1..]);
      }
    }
  }

  lemma FsOkSame(d: Disk, e: Disk)
    requires FsOk(d) && SameButMapped(d, e)
    ensures FsOk(e)
    ensures forall dir, name: string, s :: Holds(e, dir, name, s) == Holds(d, dir, name, s)
  {
    SameButMappedKeeps(d, e);
    assert forall dir, i: nat :: DirBlock(e, dir, i) == DirBlock(d, dir, i);
    forall dir, name: string, s
      ensures Holds(e, dir, name, s) == Holds(d, dir, name, s)
    {
      if IsDir(d, dir) {
        assert EntryOf(e, dir, s) == EntryOf(d, dir, s);
      }
    }
    forall b: nat, j: nat | Slot(b, j) in e.files
      ensures j < FILE2BLK && exists dir, i: nat :: IsBlockOf(e, dir, i, b)
    {
      var dir, i: nat :| IsBlockOf(d, dir, i, b);
      assert IsBlockOf(e, dir, i, b);
    }
  }

  // ---- walk_path in a well-kept file system ----

  /** `walk_path` changes nothing and leads where the directories say. */
  lemma {:induction false} ResolveLocates(d: Disk, file: FileRef, dir: Option<FileRef>, names: seq<string>)
    requires FsOk(d) && file in d.files
    ensures var w := Resolve(d, file, dir, names);
      SameButMapped(d, w.disk) && w.file == Locate(d, file, names)
    decreases |names|
  {
    if names != [] && |names[0]| < MAXNAMELEN && IsDir(d, file) {
      DirLookupFinds(d, file, names[0]);
      var (e, r) := DirLookup(d, file, names[0]);
      FsOkSame(d, e);
      FindMeans(d, file, names[0]);
      if r.Good? {
        ResolveLocates(e, r.value, Some(file), names[1..]);
        LocateSame(d, e, r.value, names[1..]);
      }
    }
  }

  /** When `walk_path` fills in `pdir` and `lastelem`, the directory is there and lacks the name. */
  lemma ResolveMissing(d: Disk, names: seq<string>)
    requires FsOk(d) && Resolve(d, RootFile, None, names).last.Some?
    ensures var w := Resolve(d, RootFile, None, names);
      && SameButMapped(d, w.disk) && w.file == NotFound && w.pdir.Some?
      && names != [] && w.last == Some(names[|names| - 1])
      && Locate(d, RootFile, names[..|names| - 1]) == Good(w.pdir.value)
      && IsDir(d, w.pdir.value) && |w.last.value| < MAXNAMELEN && Find(d, w.pdir.value, w.last.value).None?
  {
    var n, w := |names| - 1, Resolve(d, RootFile, None, names);
    FilledInIffOnlyLastMissing(d, RootFile, None, names);
    ResolveLocates(d, RootFile, None, names);
    ResolveLocates(d, RootFile, None, names[..n]);
    var front := Resolve(d, RootFile, None, names[..n]);
    MissingIn(d, front, names[n]);
  }

  lemma MissingIn(d: Disk, front: Walked, name: string)
    requires FsOk(d) && SameButMapped(d, front.disk) && OnlyLastMissing(front, name)
    ensures IsDir(d, front.file.value) && Find(d, front.file.value, name).None?
  {
    var e, dir := front.disk, front.file.value;
    FsOkSame(d, e);
    assert IsDir(e, dir);
    DirLookupFinds(e, dir, name);
    FindFromSame(d, e, dir, name, 0, DirBlocks(d, dir));
  }

  // ---- one slot more, one slot less ----

  /** The directories of `e` are those of `d`, with the same entries except for slot `s`. */
  ghost predicate Without(d: Disk, e: Disk, s: FileRef)
    requires WellFormed(d) && WellFormed(e)
  {
    && (forall f :: IsDir(e, f) <==> IsDir(d, f))
    && (forall dir, name: string, t :: name != "" ==> (Holds(e, dir, name, t) <==> Holds(d, dir, name, t) && t != s))
  }

  lemma FindWithout(d: Disk, e: Disk, s: FileRef, dir: FileRef, name: string)
    requires FsOk(d) && FsOk(e) && Without(d, e, s) && IsDir(d, dir) && name != ""
    ensures Find(e, dir, name) == if Find(d, dir, name) == Some(s) then None else Find(d, dir, name)
  {
    if Find(d, dir, name).Some? {
      FindHolds(d, dir, name, Find(d, dir, name).value);
      FindHolds(e, dir, name, Find(d, dir, name).value);
    }
    if Find(e, dir, name).Some? {
      FindHolds(e, dir, name, Find(e, dir, name).value);
      FindHolds(d, dir, name, Find(e, dir, name).value);
    }
  }

  predicate RealNames(names: seq<string>) {
    forall i :: 0 <= i < |names| ==> names[i] != ""
  }

  /** Taking away the slot of something that is not a directory makes its own paths NOT_FOUND and changes no other. */
  lemma {:induction false} LocateWithout(d: Disk, e: Disk, s: FileRef, file: FileRef, names: seq<string>)
    requires FsOk(d) && FsOk(e) && Without(d, e, s) && !IsDir(d, s) && file != s && RealNames(names)
    ensures Locate(d, file, names) == Good(s) ==> Locate(e, file, names) == NotFound
    ensures forall f :: f != s ==> (Locate(e, file, names) == Good(f) <==> Locate(d, file, names) == Good(f))
    ensures Locate(e, file, names) != Good(s)
    decreases |names|
  {
    if names != [] && |names[0]| < MAXNAMELEN && IsDir(d, file) {
      FindWithout(d, e, s, file, names[0]);
      if Find(d, file, names[0]).Some? {
        if Find(d, file, names[0]).value == s {
          assert names[1..] != [] ==> !Locate(d, s, names[1..]).Good?;
        } else {
          LocateWithout(d, e, s, Find(d, file, names[0]).value, names[1..]);
        }
      }
    }
  }

  /** One more name after a path. */
  lemma {:induction false} LocateSnoc(d: Disk, file: FileRef, names: seq<string>)
    requires WellFormed(d) && names != []
    requires Locate(d, file, names[..|names| - 1]).Good?
    ensures var n := |names| - 1;
      Locate(d, file, names) == Locate(d, Locate(d, file, names[..n]).value, [names[n]])
    decreases |names|
  {
    var n := |names| - 1;
    if n > 0 {
      assert names[..n][1..] == names[1..][..n - 1];
      LocateSnoc(d, Find(d, file, names[0]).value, names[1..]);
    } else {
      assert names[..n] == [] && names == [names[n]];
    }
  }

  lemma {:induction false} NonEmptyReal(pieces: seq<string>)
    ensures RealNames(NonEmpty(pieces))
  {
    if pieces != [] {
      NonEmptyReal(pieces[1..]);
    }
  }

  // ---- a well-kept disk ----

  /** The disk on which a reused block breaks ownership starts out well kept. */
  lemma OneFileDiskOk()
    ensures FsOk(OneFileDisk())
  {
    var d := OneFileDisk();
    OneFileDiskOwned();
    assert DirBlocks(d, RootFile) == 1 && DirBlock(d, RootFile, 0) == 3;
    assert forall f :: IsDir(d, f) <==> f == RootFile;
    forall b: nat, j: nat | Slot(b, j) in d.files
      ensures j < FILE2BLK && exists dir, i: nat :: IsBlockOf(d, dir, i, b)
    {
      assert IsBlockOf(d, RootFile, 0, b);
    }
    assert forall s :: s in d.files && d.files[s].name != "" ==> s == Slot(3, 0);
  }
}
