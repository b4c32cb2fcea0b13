/** Path walking: the pointer loop of `walk_path` against a specification on lists of names. */
module FsPath {
  import opened Options
  import opened FsBlocks
  import opened FsDir

  const MAXNAMELEN: nat := 128

  // ---- what a path means: split at every slash, drop the empty pieces ----

  function FirstSlash(p: string): (i: nat)
    ensures i <= |p|
    ensures i < |p| ==> p[i] == '/'
    ensures forall k :: 0 <= k < i ==> p[k] != '/'
  {
    if p == "" || p[0] == '/' then 0 else 1 + FirstSlash(p[1..])
  }

  function Split(p: string): seq<string>
    decreases |p|
  {
    var i := FirstSlash(p);
    if i == |p| then [p] else [p[..i]] + Split(p[i + 1..])
  }

  function NonEmpty(pieces: seq<string>): seq<string> {
    if pieces == [] then []
    else (if pieces[0] == "" then [] else [pieces[0]]) + NonEmpty(pieces[1..])
  }

  function Names(p: string): seq<string> {
    NonEmpty(Split(p))
  }

  // ---- slashes ----

  /** The first slash decides how a path splits. */
  lemma SplitHead(p: string, i: nat)
    requires i < |p| && p[i] == '/' && forall k :: 0 <= k < i ==> p[k] != '/'
    ensures Split(p) == [p[..i]] + Split(p[i + 1..])
  {
    FirstSlashIs(p, i);
  }

  lemma JoinedAfter(a: string, b: string, i: nat)
    requires i < |a|
    ensures var p := a + "/" + b; p[..i] == a[..i] && p[i + 1..] == a[i + 1..] + "/" + b
  {
  }

  lemma JoinedAtEnd(a: string, b: string)
    ensures var p := a + "/" + b; p[|a|] == '/' && p[..|a|] == a && p[|a| + 1..] == b
  {
  }

  lemma SplitWithoutSlash(a: string, b: string)
    requires FirstSlash(a) == |a|
    ensures Split(a + "/" + b) == [a] + Split(b) && Split(a) == [a]
  {
    JoinedAtEnd(a, b);
    SplitHead(a + "/" + b, |a|);
  }

  lemma {:induction false} SplitAtSlash(a: string, b: string)
    ensures Split(a + "/" + b) == Split(a) + Split(b)
    decreases |a|
  {
    var i := FirstSlash(a);
    if i == |a| {
      SplitWithoutSlash(a, b);
    } else {
      var rest := a[i + 1..];
      SplitHead(a, i);
      SplitHead(a + "/" + b, i);
      JoinedAfter(a, b, i);
      SplitAtSlash(rest, b);
      Associate([a[..i]], Split(rest), Split(b));
    }
  }

  lemma Associate(a: seq<string>, b: seq<string>, c: seq<string>)
    ensures (a + b) + c == a + (b + c)
  {
  }

  lemma {:induction false} FirstSlashIs(p: string, i: nat)
    requires i < |p| && p[i] == '/' && forall k :: 0 <= k < i ==> p[k] != '/'
    ensures FirstSlash(p) == i
  {
  }

  lemma {:induction false} NonEmptyConcat(a: seq<string>, b: seq<string>)
    ensures NonEmpty(a + b) == NonEmpty(a) + NonEmpty(b)
  {
    if a == [] {
      assert a + b == b;
    } else {
      var head := if a[0] == "" then [] else [a[0]];
      assert (a + b)[0] == a[0] && (a + b)[1..] == a[1..] + b;
      NonEmptyConcat(a[1..], b);
      Associate(head, NonEmpty(a[1..]), NonEmpty(b));
    }
  }

  /** A slash separates names and means nothing else. */
  lemma NamesAtSlash(a: string, b: string)
    ensures Names(a + "/" + b) == Names(a) + Names(b)
  {
    SplitAtSlash(a, b);
    NonEmptyConcat(Split(a), Split(b));
  }

  /** Extra slashes at the front, at the end or beside another slash never change the names. */
  lemma ExtraSlashes(a: string, b: string)
    ensures Names("/" + a) == Names(a)
    ensures Names(a + "/") == Names(a)
    ensures Names(a + "/" + "/" + b) == Names(a + "/" + b)
  {
    assert Names("") == [];
    NamesAtSlash("", a);
    assert "" + "/" + a == "/" + a;
    NamesAtSlash(a, "");
    assert a + "/" + "" == a + "/";
    NamesAtSlash(a, b);
    NamesAtSlash(a + "/", b);
    assert (a + "/") + "/" + b == a + "/" + "/" + b;
  }

  // ---- the specification of walk_path ----

  /** What `walk_path` returns: the server's state, the code and file, and `*pdir` and `lastelem` as it leaves them. */
  datatype Walked = Walked(disk: Disk, file: Result<FileRef>, pdir: Option<FileRef>, last: Option<string>)

  /** Resolve `names` from `file`, whose directory is `dir`, one lookup a name. */
  function Resolve(d: Disk, file: FileRef, dir: Option<FileRef>, names: seq<string>): Walked
    decreases |names|
  {
    if names == [] then Walked(d, Good(file), dir, None)
    else if |names[0]| >= MAXNAMELEN then Walked(d, BadPath, None, None)
    else if !WellFormed(d) || file !in d.files then Walked(d, Panic, None, None)
    else if d.files[file].ftype != FTYPE_DIR then Walked(d, NotFound, None, None)
    else
      var (e, r) := DirLookup(d, file, names[0]);
      match r
      case Good(f) => Resolve(e, f, Some(file), names[1..])
      case NotFound =>
        if |names| == 1 then Walked(e, NotFound, Some(file), Some(names[0])) else Walked(e, NotFound, None, None)
      case _ => Walked(e, r, None, None)
  }

  /** The walk over all names but the last ended in a directory, and `last` is not in it. */
  predicate OnlyLastMissing(front: Walked, last: string) {
    && front.file.Good? && |last| < MAXNAMELEN
    && WellFormed(front.disk) && front.file.value in front.disk.files
    && front.disk.files[front.file.value].ftype == FTYPE_DIR
    && DirLookup(front.disk, front.file.value, last).1 == NotFound
  }

  /** `pdir` and `lastelem` of the walk `w` against the walk `front` over all names but `last`. */
  predicate FilledIn(w: Walked, front: Walked, last: string) {
    && (w.last.Some? <==> OnlyLastMissing(front, last))
    && (w.last.Some? ==>
          w.file == NotFound && w.last == Some(last) && front.file.Good? && w.pdir == Some(front.file.value))
    && (!w.file.Good? && w.last.None? ==> w.pdir.None?)
  }

  lemma FilledInOneName(d: Disk, file: FileRef, dir: Option<FileRef>, name: string)
    ensures FilledIn(Resolve(d, file, dir, [name]), Resolve(d, file, dir, []), name)
  {
    assert [name][1..] == [];
  }

  /** The walk gets past this name. */
  predicate Leads(d: Disk, file: FileRef, name: string) {
    && |name| < MAXNAMELEN && WellFormed(d) && file in d.files && d.files[file].ftype == FTYPE_DIR
    && DirLookup(d, file, name).1.Good?
  }

  /** Names after the first are resolved from where the first leads. */
  lemma ResolveStep(d: Disk, file: FileRef, dir: Option<FileRef>, names: seq<string>)
    requires names != [] && Leads(d, file, names[0])
    ensures var (e, r) := DirLookup(d, file, names[0]);
      Resolve(d, file, dir, names) == Resolve(e, r.value, Some(file), names[1..])
  {
  }

  /** A walk that fails at a name which is not the last fills in nothing. */
  lemma ResolveStops(d: Disk, file: FileRef, dir: Option<FileRef>, names: seq<string>)
    requires |names| > 1 && !Leads(d, file, names[0])
    ensures !Resolve(d, file, dir, names).file.Good? && !Resolve(d, file, dir, names[..|names| - 1]).file.Good?
    ensures Resolve(d, file, dir, names).last.None? && Resolve(d, file, dir, names).pdir.None?
  {
    assert names[..|names| - 1][0] == names[0];
  }

  /**
   `pdir` and `lastelem` are filled in on failure exactly when only the final name is missing, with the right
   values.
   */
  lemma {:induction false} FilledInIffOnlyLastMissing(d: Disk, file: FileRef, dir: Option<FileRef>, names: seq<string>)
    requires names != []
    ensures FilledIn(Resolve(d, file, dir, names), Resolve(d, file, dir, names[..|names| - 1]), names[|names| - 1])
    decreases |names|
  {
    if |names| == 1 {
      assert names == [names[0]] && names[..0] == [];
      FilledInOneName(d, file, dir, names[0]);
    } else if Leads(d, file, names[0]) {
      var front, rest := names[..|names| - 1], names[1..];
      var (e, r) := DirLookup(d, file, names[0]);
      ResolveStep(d, file, dir, names);
      ResolveStep(d, file, dir, front);
      assert front[1..] == rest[..|rest| - 1];
      FilledInIffOnlyLastMissing(e, r.value, Some(file), rest);
    } else {
      ResolveStops(d, file, dir, names);
    }
  }

  // ---- the code ----

  lemma LeadingSlash(p: string, i: nat)
    requires i < |p| && p[i] == '/'
    ensures Names(p[i..]) == Names(p[i + 1..])
  {
    NamesAtSlash("", p[i + 1..]);
    assert p[i..] == "" + "/" + p[i + 1..];
  }

  /** `skip_slash`. */
  method SkipSlash(p: string, from: nat) returns (i: nat)
    requires from <= |p|
    ensures from <= i <= |p| && (i < |p| ==> p[i] != '/')
    ensures Names(p[i..]) == Names(p[from..])
  {
    i := from;
    while i < |p| && p[i] == '/'
      invariant from <= i <= |p| && Names(p[i..]) == Names(p[from..])
    {
      LeadingSlash(p, i);
      i := i + 1;
    }
  }

  /** The name at the front of a path that does not start with a slash. */
  lemma FrontName(p: string, i: nat, e: nat)
    requires i < e <= |p| && (forall k :: i <= k < e ==> p[k] != '/') && (e < |p| ==> p[e] == '/')
    ensures Names(p[i..]) == [p[i..e]] + Names(p[e..])
  {
    var name := p[i..e];
    assert FirstSlash(name) == |name|;
    assert Split(name) == [name] && NonEmpty([name]) == [name] + NonEmpty([]);
    if e < |p| {
      assert p[i..] == name + "/" + p[e + 1..];
      assert p[e..] == "" + "/" + p[e + 1..];
      NamesAtSlash(name, p[e + 1..]);
      NamesAtSlash("", p[e + 1..]);
    } else {
      assert p[i..] == name && p[e..] == "";
    }
  }

  /** `walk_path`, with the server's state as a local value. */
  method WalkPath(d: Disk, p: string) returns (w: Walked)
    ensures w == Resolve(d, RootFile, None, Names(p))
  {
    var disk, file, dir := d, RootFile, None;
    var i := SkipSlash(p, 0);
    assert p[0..] == p;
    while i < |p|
      invariant i <= |p| && (i < |p| ==> p[i] != '/')
      invariant Resolve(disk, file, dir, Names(p[i..])) == Resolve(d, RootFile, None, Names(p))
      decreases |p| - i
    {
      var start := i;
      while i < |p| && p[i] != '/'
        invariant start <= i <= |p| && forall k :: start <= k < i ==> p[k] != '/'
      {
        i := i + 1;
      }
      FrontName(p, start, i);
      var name := p[start..i];
      if i - start >= MAXNAMELEN {
        return Walked(disk, BadPath, None, None);
      }
      i := SkipSlash(p, i);
      EndMeansNoNames(p, i);
      if !WellFormed(disk) || file !in disk.files {
        return Walked(disk, Panic, None, None);
      }
      if disk.files[file].ftype != FTYPE_DIR {
        return Walked(disk, NotFound, None, None);
      }
      var (e, r) := DirLookup(disk, file, name);
      if !r.Good? {
        if r == NotFound && i == |p| {
          return Walked(e, NotFound, Some(file), Some(name));
        }
        return Walked(e, r, None, None);
      }
      disk, file, dir := e, r.value, Some(file);
    }
    EndMeansNoNames(p, i);
    w := Walked(disk, Good(file), dir, None);
  }

  lemma EndMeansNoNames(p: string, i: nat)
    requires i <= |p| && (i < |p| ==> p[i] != '/')
    ensures Names(p[i..]) == [] <==> i == |p|
  {
    if i < |p| {
      var e := NameEnd(p, i);
      FrontName(p, i, e);
    } else {
      assert p[i..] == "";
      assert Split("") == [""];
      assert NonEmpty([""]) == NonEmpty([""][1..]);
    }
  }

  function NameEnd(p: string, i: nat): (e: nat)
    requires i <= |p|
    ensures i <= e <= |p| && (e < |p| ==> p[e] == '/') && (i < |p| && p[i] != '/' ==> e > i)
    ensures forall k :: i <= k < e ==> p[k] != '/'
    decreases |p| - i
  {
    if i == |p| || p[i] == '/' then i else NameEnd(p, i + 1)
  }
}
