/**
 The client side of files: every open file has a window of the address space whose pages are the
 file's blocks, kept in step with the file size by open, ftruncate, write and close.
 */
module FileWindow {
  import opened Options
  import opened Bytes

  const BY2PG: nat := 4096
  const MAXFD: nat := 32
  const MAXFILESIZE: nat := 0x400000
  const WINDOW_PAGES: nat := 1024                      // PDMAP / BY2PG
  const FILE_PAGE: nat := 0x60000                      // FILEBASE / BY2PG
  const FDTABLE_PAGE: nat := FILE_PAGE - WINDOW_PAGES  // FDTABLE / BY2PG
  const UINT: nat := 0x1_0000_0000

  /** A `struct Filefd`: what the client knows of an open file. */
  datatype OpenFile = OpenFile(fileid: nat, size: nat)

  /** The client's page table, its open files by number, and the bytes of physical memory. */
  datatype Client = Client(table: map<nat, nat>, fds: map<nat, OpenFile>, mem: map<nat, byte>)

  datatype Code = Done | NoDisk | Invalid | MaxOpen | ServerError | Fault

  // ---- window arithmetic (fd.c) ----

  /** `INDEX2FD` and `INDEX2DATA` as page numbers. */
  function FdPage(i: nat): nat { FDTABLE_PAGE + i }

  function DataPage(i: nat, k: nat): nat { FILE_PAGE + i * WINDOW_PAGES + k }

  function DataVa(i: nat): nat { DataPage(i, 0) * BY2PG }

  /** `ROUND(size, BY2PG) / BY2PG`. */
  function PagesFor(size: nat): nat { (size + BY2PG - 1) / BY2PG }

  /** Pages of different windows, and pages of windows and file descriptors, never coincide. */
  lemma WindowsDisjoint(i: nat, k: nat, j: nat, l: nat)
    requires k < WINDOW_PAGES && l < WINDOW_PAGES
    ensures DataPage(i, k) == DataPage(j, l) ==> i == j && k == l
    ensures j < MAXFD ==> DataPage(i, k) != FdPage(j)
  {
  }

  /** A file's pages stay clear of the next window exactly when the file is no longer than `MAXFILESIZE`. */
  lemma StaysInWindowIff(i: nat, size: nat)
    ensures (forall k: nat :: k < PagesFor(size) ==> DataPage(i, k) < DataPage(i + 1, 0)) <==> size <= MAXFILESIZE
  {
    if size > MAXFILESIZE {
      assert !(DataPage(i, WINDOW_PAGES) < DataPage(i + 1, 0));
    }
  }

  // ---- mapping and unmapping a range of a window ----

  /** The mapping loops: page `k` on gets the frame that the server answers with, until it refuses. */
  function MapRange(table: map<nat, nat>, i: nat, k: nat, n: nat, answers: map<nat, nat>): (map<nat, nat>, bool)
    decreases n - k
  {
    if k >= n then (table, true)
    else if k !in answers then (table, false)
    else MapRange(table[DataPage(i, k) := answers[k]], i, k + 1, n, answers)
  }

  function UnmapRange(table: map<nat, nat>, i: nat, k: nat, n: nat): map<nat, nat>
    decreases n - k
  {
    if k >= n then table else UnmapRange(table - {DataPage(i, k)}, i, k + 1, n)
  }

  predicate InRange(p: nat, i: nat, k: nat, n: nat) {
    DataPage(i, k) <= p < DataPage(i, n)
  }

  lemma {:induction false} MapRangeMeans(table: map<nat, nat>, i: nat, k: nat, n: nat, answers: map<nat, nat>)
    ensures var (t, ok) := MapRange(table, i, k, n, answers);
      && (ok <==> forall j: nat :: k <= j < n ==> j in answers)
      && (forall p :: p in table && !InRange(p, i, k, n) ==> p in t && t[p] == table[p])
      && (forall p :: p in t && p !in table ==> InRange(p, i, k, n))
      && (ok ==> forall j: nat :: k <= j < n ==> DataPage(i, j) in t && t[DataPage(i, j)] == answers[j])
      && (!ok ==> exists j: nat :: k <= j < n && (DataPage(i, j) in t ==> DataPage(i, j) in table))
    decreases n - k
  {
    if k < n && k in answers {
      var one := table[DataPage(i, k) := answers[k]];
      MapRangeMeans(one, i, k + 1, n, answers);
    }
  }

  lemma {:induction false} UnmapRangeMeans(table: map<nat, nat>, i: nat, k: nat, n: nat)
    ensures var t := UnmapRange(table, i, k, n);
      && (forall p :: p in t <==> p in table && !InRange(p, i, k, n))
      && (forall p :: p in t ==> t[p] == table[p])
    decreases n - k
  {
    if k < n {
      var one := table - {DataPage(i, k)};
      UnmapRangeMeans(one, i, k + 1, n);
      assert forall p :: p in one <==> p in table && p != DataPage(i, k);
      assert forall p :: InRange(p, i, k, n) <==> p == DataPage(i, k) || InRange(p, i, k + 1, n);
    }
  }

  // ---- the operations as functions ----

  /** `fd_alloc`: the first descriptor page that is not mapped. */
  function FreeFd(table: map<nat, nat>, i: nat): (r: Option<nat>)
    ensures r.Some? ==> i <= r.value < MAXFD - 1 && FdPage(r.value) !in table
    ensures forall j: nat :: i <= j < (if r.Some? then r.value else MAXFD - 1) ==> FdPage(j) in table
    decreases MAXFD - i
  {
    if i >= MAXFD - 1 then None
    else if FdPage(i) !in table then Some(i)
    else FreeFd(table, i + 1)
  }

  /** What the server answers to `fsipc_open`: the frame of the descriptor page and what is in it. */
  datatype OpenReply = Opened(frame: nat, file: OpenFile) | Refused

  /** `open`, with the server's answers. */
  function Open(c: Client, reply: OpenReply, answers: map<nat, nat>): (Client, Code) {
    match FreeFd(c.table, 0)
    case None => (c, MaxOpen)
    case Some(i) =>
      if reply.Refused? then (c, ServerError)
      else
        var (t, ok) := MapRange(c.table[FdPage(i) := reply.frame], i, 0, PagesFor(reply.file.size), answers);
        (c.(table := t, fds := c.fds[i := reply.file]), if ok then Done else ServerError)
  }

  /** `ftruncate`.  The size is stored before the server is asked. */
  function Truncate(c: Client, i: nat, size: nat, setOk: bool, answers: map<nat, nat>): (Client, Code) {
    if size > MAXFILESIZE then (c, NoDisk)
    else if i !in c.fds then (c, Invalid)
    else
      var old_, new_ := PagesFor(c.fds[i].size), PagesFor(size);
      var e := c.(fds := c.fds[i := c.fds[i].(size := size)]);
      if !setOk then (e, ServerError)
      else
        var (t, ok) := MapRange(c.table, i, old_, new_, answers);
        if !ok then (e.(table := t), ServerError)
        else (e.(table := UnmapRange(t, i, new_, old_)), Done)
  }

  /** The page of byte `k` after `va` is mapped. */
  predicate ByteMapped(table: map<nat, nat>, va: nat, k: nat) {
    (va + k) / BY2PG in table
  }

  /** The physical byte behind it. */
  function Phys(table: map<nat, nat>, va: nat, k: nat): nat
    requires ByteMapped(table, va, k)
  {
    table[(va + k) / BY2PG] * BY2PG + (va + k) % BY2PG
  }

  predicate Mapped(table: map<nat, nat>, va: nat, n: nat) {
    forall k: nat :: k < n ==> ByteMapped(table, va, k)
  }

  /** `user_bcopy` into the window. */
  function CopyIn(mem: map<nat, byte>, table: map<nat, nat>, va: nat, data: seq<byte>): map<nat, byte>
    requires Mapped(table, va, |data|)
  {
    if data == [] then mem
    else
      var n := |data| - 1;
      CopyIn(mem, table, va, data[..n])[Phys(table, va, n) := data[n]]
  }

  function LoadByte(mem: map<nat, byte>, a: nat): byte {
    if a in mem then mem[a] else 0
  }

  /** `user_bcopy` out of the window. */
  function CopyOut(mem: map<nat, byte>, table: map<nat, nat>, va: nat, n: nat): (s: seq<byte>)
    requires Mapped(table, va, n)
    ensures |s| == n
  {
    seq<byte>(n, k requires 0 <= k < n => LoadByte(mem, Phys(table, va, k)))
  }

  /** `file_write`; sums are those of 32-bit unsigned integers. */
  function Write(c: Client, i: nat, data: seq<byte>, offset: nat, setOk: bool, answers: map<nat, nat>): (Client, Code) {
    var tot := (offset + |data|) % UINT;
    if tot > MAXFILESIZE then (c, NoDisk)
    else if i !in c.fds then (c, Invalid)
    else
      var (e, code) := if tot > c.fds[i].size then Truncate(c, i, tot, setOk, answers) else (c, Done);
      if code != Done then (e, code)
      else if !Mapped(e.table, DataVa(i) + offset, |data|) then (e, Fault)
      else (e.(mem := CopyIn(e.mem, e.table, DataVa(i) + offset, data)), Done)
  }

  /** `file_read`; `None` is a page fault. */
  function Read(c: Client, i: nat, n: nat, offset: nat): Option<seq<byte>>
    requires i in c.fds
  {
    var size := c.fds[i].size;
    if offset > size then Some([])
    else
      var len := if (offset + n) % UINT > size then size - offset else n;
      if !Mapped(c.table, DataVa(i) + offset, len) then None
      else Some(CopyOut(c.mem, c.table, DataVa(i) + offset, len))
  }

  /** `close`: the window goes only if the server agrees, the descriptor goes in any case. */
  function Close(c: Client, i: nat, closeOk: bool): (Client, Code) {
    if i !in c.fds then (c, Invalid)
    else
      var t := if closeOk then UnmapRange(c.table, i, 0, PagesFor(c.fds[i].size)) else c.table;
      (c.(table := t - {FdPage(i)}, fds := c.fds - {i}), if closeOk then Done else ServerError)
  }

  // ---- the invariants ----

  /** Of the window of descriptor `i` exactly the first `n` pages are mapped. */
  ghost predicate WindowIs(table: map<nat, nat>, i: nat, n: nat) {
    && n <= WINDOW_PAGES
    && (forall k: nat :: k < WINDOW_PAGES ==> (DataPage(i, k) in table <==> k < n))
  }

  ghost function WindowSize(c: Client, i: nat): nat {
    if i in c.fds then PagesFor(c.fds[i].size) else 0
  }

  /** Every window agrees with its file's size, and a descriptor page is mapped just for open files. */
  ghost predicate Agree(c: Client) {
    && (forall i :: i in c.fds ==> i < MAXFD)
    && (forall i: nat :: i < MAXFD ==> (FdPage(i) in c.table <==> i in c.fds) && WindowIs(c.table, i, WindowSize(c, i)))
  }

  /** No two of the first `n` pages of a window show the same frame. */
  ghost predicate FramesApart(table: map<nat, nat>, i: nat, n: nat) {
    forall k: nat, l: nat :: k < l < n && DataPage(i, k) in table && DataPage(i, l) in table ==>
      table[DataPage(i, k)] != table[DataPage(i, l)]
  }

  /** In every window different pages show different frames. */
  ghost predicate Apart(c: Client) {
    forall i :: i in c.fds ==> FramesApart(c.table, i, WindowSize(c, i))
  }

  /** The server answers with the pages of different blocks, and not with blocks the window shows already. */
  ghost predicate FreshAnswers(table: map<nat, nat>, i: nat, old_: nat, new_: nat, answers: map<nat, nat>) {
    && (forall k: nat, l: nat :: old_ <= k < l < new_ && k in answers && l in answers ==> answers[k] != answers[l])
    && (forall k: nat, l: nat :: k < old_ <= l < new_ && DataPage(i, k) in table && l in answers ==>
          table[DataPage(i, k)] != answers[l])
  }

  // ---- resizing one window ----

  /** Nothing outside the window of `i` changes. */
  ghost predicate OnlyWindow(t: map<nat, nat>, u: map<nat, nat>, i: nat) {
    forall p :: !InRange(p, i, 0, WINDOW_PAGES) ==> (p in u <==> p in t) && (p in t && p in u ==> u[p] == t[p])
  }

  lemma OtherWindows(t: map<nat, nat>, u: map<nat, nat>, i: nat, j: nat, n: nat)
    requires OnlyWindow(t, u, i) && i != j
    ensures WindowIs(t, j, n) ==> WindowIs(u, j, n)
    ensures n <= WINDOW_PAGES && FramesApart(t, j, n) ==> FramesApart(u, j, n)
  {
    forall k: nat | k < WINDOW_PAGES
      ensures !InRange(DataPage(j, k), i, 0, WINDOW_PAGES)
    {
    }
  }

  lemma FdPagesSame(t: map<nat, nat>, u: map<nat, nat>, i: nat)
    requires OnlyWindow(t, u, i)
    ensures forall j: nat :: j < MAXFD ==> (FdPage(j) in u <==> FdPage(j) in t)
  {
    forall j: nat | j < MAXFD
      ensures !InRange(FdPage(j), i, 0, WINDOW_PAGES)
    {
    }
  }

  lemma GrowWindow(t: map<nat, nat>, i: nat, old_: nat, new_: nat, answers: map<nat, nat>)
    requires WindowIs(t, i, old_) && old_ <= new_ <= WINDOW_PAGES
    ensures var (u, ok) := MapRange(t, i, old_, new_, answers);
      && OnlyWindow(t, u, i) && (ok ==> WindowIs(u, i, new_))
      && (forall k: nat :: k < old_ ==> DataPage(i, k) in u && u[DataPage(i, k)] == t[DataPage(i, k)])
  {
    MapRangeMeans(t, i, old_, new_, answers);
    var (u, ok) := MapRange(t, i, old_, new_, answers);
    forall k: nat | k < WINDOW_PAGES
      ensures InRange(DataPage(i, k), i, old_, new_) <==> old_ <= k < new_
    {
    }
  }

  lemma ShrinkWindow(t: map<nat, nat>, i: nat, old_: nat, new_: nat)
    requires WindowIs(t, i, old_) && new_ <= old_
    ensures var u := UnmapRange(t, i, new_, old_);
      && OnlyWindow(t, u, i) && WindowIs(u, i, new_)
      && (forall k: nat :: k < new_ ==> DataPage(i, k) in u && u[DataPage(i, k)] == t[DataPage(i, k)])
  {
    UnmapRangeMeans(t, i, new_, old_);
    forall k: nat | k < WINDOW_PAGES
      ensures InRange(DataPage(i, k), i, new_, old_) <==> new_ <= k < old_
    {
    }
  }

  /** The pages that both lengths have keep their frames. */
  ghost predicate FramesKept(t: map<nat, nat>, u: map<nat, nat>, i: nat, old_: nat, new_: nat) {
    forall k: nat :: k < old_ && k < new_ ==>
      DataPage(i, k) in t && DataPage(i, k) in u && u[DataPage(i, k)] == t[DataPage(i, k)]
  }

  /** The table after `ftruncate` has mapped and unmapped: the window has its new length. */
  lemma ResizeWindow(t: map<nat, nat>, i: nat, old_: nat, new_: nat, answers: map<nat, nat>)
    requires WindowIs(t, i, old_) && new_ <= WINDOW_PAGES
    ensures var (u, ok) := MapRange(t, i, old_, new_, answers);
      var v := UnmapRange(u, i, new_, old_);
      && OnlyWindow(t, u, i)
      && (ok ==> OnlyWindow(t, v, i) && WindowIs(v, i, new_) && FramesKept(t, v, i, old_, new_))
  {
    if old_ <= new_ {
      GrowWindow(t, i, old_, new_, answers);
    } else {
      ShrinkWindow(t, i, old_, new_);
    }
  }

  /** With fresh answers the frames of the resized window are apart. */
  lemma ResizeApart(t: map<nat, nat>, i: nat, old_: nat, new_: nat, answers: map<nat, nat>)
    requires WindowIs(t, i, old_) && new_ <= WINDOW_PAGES && MapRange(t, i, old_, new_, answers).1
    requires FramesApart(t, i, old_) && FreshAnswers(t, i, old_, new_, answers)
    ensures FramesApart(UnmapRange(MapRange(t, i, old_, new_, answers).0, i, new_, old_), i, new_)
  {
    ResizeWindow(t, i, old_, new_, answers);
    MapRangeMeans(t, i, old_, new_, answers);
    if old_ <= new_ {
      assert UnmapRange(MapRange(t, i, old_, new_, answers).0, i, new_, old_) == MapRange(t, i, old_, new_, answers).0;
    }
  }

  /** Changing one window and the size of its file together keeps the agreement. */
  lemma AgreeAfter(c: Client, e: Client, i: nat)
    requires Agree(c) && i in c.fds && e.fds.Keys == c.fds.Keys &&
      (forall j :: j in c.fds && j != i ==> e.fds[j] == c.fds[j])
    requires OnlyWindow(c.table, e.table, i)
    ensures Agree(e) <==> WindowIs(e.table, i, WindowSize(e, i))
    ensures Apart(c) && FramesApart(e.table, i, WindowSize(e, i)) ==> Apart(e)
  {
    FdPagesSame(c.table, e.table, i);
    forall j: nat | j < MAXFD && j != i
      ensures WindowIs(e.table, j, WindowSize(e, j))
      ensures FramesApart(c.table, j, WindowSize(c, j)) ==> FramesApart(e.table, j, WindowSize(e, j))
    {
      OtherWindows(c.table, e.table, i, j, WindowSize(c, j));
    }
  }

  // ---- ftruncate ----

  /**
   What `ftruncate` leaves when it succeeds: the window agrees with the new size, and kept pages keep their
   frames.
   */
  lemma TruncateAgrees(c: Client, i: nat, size: nat, setOk: bool, answers: map<nat, nat>)
    requires Agree(c) && i in c.fds && Truncate(c, i, size, setOk, answers).1.Done?
    ensures var e := Truncate(c, i, size, setOk, answers).0;
      && Agree(e) && e.fds == c.fds[i := c.fds[i].(size := size)] && e.mem == c.mem
      && FramesKept(c.table, e.table, i, PagesFor(c.fds[i].size), PagesFor(size))
  {
    var e := Truncate(c, i, size, setOk, answers).0;
    assert WindowIs(c.table, i, WindowSize(c, i));
    ResizeWindow(c.table, i, PagesFor(c.fds[i].size), PagesFor(size), answers);
    AgreeAfter(c, e, i);
  }

  /** Whatever comes of it, `ftruncate` changes no page outside its own window and no other file's entry. */
  lemma TruncateOnlyWindow(c: Client, i: nat, size: nat, setOk: bool, answers: map<nat, nat>)
    requires Agree(c) && i in c.fds
    ensures var e := Truncate(c, i, size, setOk, answers).0;
      && OnlyWindow(c.table, e.table, i) && e.mem == c.mem && i in e.fds && e.fds == c.fds[i := e.fds[i]]
  {
    assert WindowIs(c.table, i, WindowSize(c, i));
    if size <= MAXFILESIZE {
      ResizeWindow(c.table, i, PagesFor(c.fds[i].size), PagesFor(size), answers);
    }
  }

  lemma TruncateApart(c: Client, i: nat, size: nat, setOk: bool, answers: map<nat, nat>)
    requires Agree(c) && Apart(c) && i in c.fds && Truncate(c, i, size, setOk, answers).1.Done?
    requires FreshAnswers(c.table, i, PagesFor(c.fds[i].size), PagesFor(size), answers)
    ensures Apart(Truncate(c, i, size, setOk, answers).0)
  {
    var e := Truncate(c, i, size, setOk, answers).0;
    assert WindowIs(c.table, i, WindowSize(c, i)) && FramesApart(c.table, i, WindowSize(c, i));
    ResizeWindow(c.table, i, PagesFor(c.fds[i].size), PagesFor(size), answers);
    ResizeApart(c.table, i, PagesFor(c.fds[i].size), PagesFor(size), answers);
    AgreeAfter(c, e, i);
  }

  /**
   `ftruncate` stores the new size before it asks the server: after a refusal the window agrees with
   the stored size exactly when both sizes need the same number of pages.
   */
  lemma RefusedTruncateAgreesIff(c: Client, i: nat, size: nat, setOk: bool, answers: map<nat, nat>)
    requires Agree(c) && i in c.fds && size <= MAXFILESIZE && Truncate(c, i, size, setOk, answers).1.ServerError?
    ensures Agree(Truncate(c, i, size, setOk, answers).0) <==> PagesFor(size) == PagesFor(c.fds[i].size)
  {
    var old_, new_ := PagesFor(c.fds[i].size), PagesFor(size);
    var e := Truncate(c, i, size, setOk, answers).0;
    assert WindowIs(c.table, i, WindowSize(c, i));
    ResizeWindow(c.table, i, old_, new_, answers);
    assert OnlyWindow(c.table, c.table, i);
    AgreeAfter(c, e, i);
    if setOk {
      MapRangeMeans(c.table, i, old_, new_, answers);
      var j: nat :| old_ <= j < new_ && (DataPage(i, j) in e.table ==> DataPage(i, j) in c.table);
      assert DataPage(i, j) !in e.table;
    } else if new_ < old_ {
      assert DataPage(i, new_) in e.table;
    } else if old_ < new_ {
      assert DataPage(i, old_) !in e.table;
    }
  }

  // ---- open and close ----

  /** The client after a descriptor page for an empty file was installed. */
  function WithDescriptor(c: Client, i: nat, frame: nat, file: OpenFile): Client {
    c.(table := c.table[FdPage(i) := frame], fds := c.fds[i := file.(size := 0)])
  }

  /** Installing a descriptor page disturbs no window. */
  lemma DescriptorAgrees(c: Client, i: nat, frame: nat, file: OpenFile)
    requires Agree(c) && i < MAXFD && i !in c.fds
    ensures Agree(WithDescriptor(c, i, frame, file)) && (Apart(c) ==> Apart(WithDescriptor(c, i, frame, file)))
  {
    var d := WithDescriptor(c, i, frame, file);
    forall j: nat | j < MAXFD
      ensures (FdPage(j) in d.table <==> j in d.fds) && WindowIs(d.table, j, WindowSize(d, j))
      ensures FramesApart(c.table, j, WindowSize(c, j)) ==> FramesApart(d.table, j, WindowSize(d, j))
    {
      SameWindow(c.table, d.table, j, WindowSize(c, j), i);
    }
  }

  lemma SameWindow(t: map<nat, nat>, u: map<nat, nat>, j: nat, n: nat, i: nat)
    requires i < MAXFD && (forall p :: p != FdPage(i) ==> (p in u <==> p in t) && (p in t && p in u ==> u[p] == t[p]))
    ensures WindowIs(t, j, n) <==> WindowIs(u, j, n)
    ensures n <= WINDOW_PAGES && FramesApart(t, j, n) ==> FramesApart(u, j, n)
  {
    forall k: nat | k < WINDOW_PAGES
      ensures DataPage(j, k) != FdPage(i)
    {
      WindowsDisjoint(j, k, i, 0);
    }
  }

  /** What `open` makes of the client, once a descriptor is found and the server has opened the file. */
  lemma OpenUnfolds(c: Client, reply: OpenReply, answers: map<nat, nat>)
    requires Agree(c) && FreeFd(c.table, 0).Some? && reply.Opened?
    ensures var i, e := FreeFd(c.table, 0).value, Open(c, reply, answers).0;
      var d := WithDescriptor(c, i, reply.frame, reply.file);
      && i < MAXFD && i !in c.fds && Agree(d) && (Apart(c) ==> Apart(d)) && WindowIs(d.table, i, 0)
      && e.fds == d.fds[i := reply.file] == c.fds[i := reply.file] && e.mem == c.mem
      && (e.table, Open(c, reply, answers).1.Done?) == MapRange(d.table, i, 0, PagesFor(reply.file.size), answers)
  {
    var i := FreeFd(c.table, 0).value;
    DescriptorAgrees(c, i, reply.frame, reply.file);
    var d := WithDescriptor(c, i, reply.frame, reply.file);
    assert WindowIs(d.table, i, WindowSize(d, i));
  }

  /**
   After `open` the windows agree exactly when it changed nothing, for want of a descriptor or of the
   file, or when it succeeded on a file of legal size.  A mapping refused half way leaves the descriptor behind.
   */
  lemma OpenAgreesIff(c: Client, reply: OpenReply, answers: map<nat, nat>)
    requires Agree(c)
    ensures var (e, code) := Open(c, reply, answers);
      Agree(e) <==> code.MaxOpen? || reply.Refused? || (code.Done? && reply.file.size <= MAXFILESIZE)
  {
    if FreeFd(c.table, 0).Some? && reply.Opened? {
      OpenUnfolds(c, reply, answers);
      var i, n := FreeFd(c.table, 0).value, PagesFor(reply.file.size);
      OpenedWindow(c, WithDescriptor(c, i, reply.frame, reply.file), Open(c, reply, answers).0, i, n, answers);
    }
  }

  lemma OpenedWindow(c: Client, d: Client, e: Client, i: nat, n: nat, answers: map<nat, nat>)
    requires Agree(d) && i in d.fds && i in e.fds && n == PagesFor(e.fds[i].size) && WindowIs(d.table, i, 0)
    requires e.fds == d.fds[i := e.fds[i]] && e.table == MapRange(d.table, i, 0, n, answers).0
    ensures Agree(e) <==> MapRange(d.table, i, 0, n, answers).1 && e.fds[i].size <= MAXFILESIZE
  {
    if n <= WINDOW_PAGES {
      ResizeWindow(d.table, i, 0, n, answers);
      assert UnmapRange(e.table, i, n, 0) == e.table;
      AgreeAfter(d, e, i);
      if !MapRange(d.table, i, 0, n, answers).1 {
        MapRangeMeans(d.table, i, 0, n, answers);
        var j: nat :| j < n && (DataPage(i, j) in e.table ==> DataPage(i, j) in d.table);
        assert DataPage(i, j) !in e.table;
      }
    } else {
      assert WindowSize(e, i) == n && i < MAXFD;
      assert !WindowIs(e.table, i, WindowSize(e, i));
    }
  }

  /** A successful `open` takes an unused descriptor. */
  lemma OpenTakes(c: Client, reply: OpenReply, answers: map<nat, nat>)
    requires Agree(c) && Open(c, reply, answers).1.Done?
    ensures var e, i := Open(c, reply, answers).0, FreeFd(c.table, 0).value;
      i !in c.fds && e.fds == c.fds[i := reply.file] && e.mem == c.mem
  {
    OpenUnfolds(c, reply, answers);
  }

  lemma OpenApart(c: Client, reply: OpenReply, answers: map<nat, nat>)
    requires Agree(c) && Apart(c) && Open(c, reply, answers).1.Done? && reply.file.size <= MAXFILESIZE
    requires FreshAnswers(c.table, 0, 0, PagesFor(reply.file.size), answers)
    ensures Apart(Open(c, reply, answers).0)
  {
    OpenUnfolds(c, reply, answers);
    var i, n, e := FreeFd(c.table, 0).value, PagesFor(reply.file.size), Open(c, reply, answers).0;
    var d := WithDescriptor(c, i, reply.frame, reply.file);
    ResizeWindow(d.table, i, 0, n, answers);
    ResizeApart(d.table, i, 0, n, answers);
    AgreeAfter(d, e, i);
  }

  /** The client of `close` between the unmapping and the return of the descriptor. */
  function Emptied(c: Client, i: nat, closeOk: bool): Client
    requires i in c.fds
  {
    c.(table := if closeOk then UnmapRange(c.table, i, 0, PagesFor(c.fds[i].size)) else c.table,
       fds := c.fds[i := c.fds[i].(size := 0)])
  }

  lemma CloseUnfolds(c: Client, i: nat, closeOk: bool)
    requires i in c.fds
    ensures var d, e := Emptied(c, i, closeOk), Close(c, i, closeOk).0;
      e == d.(table := d.table - {FdPage(i)}, fds := d.fds - {i})
  {
  }

  /**
   `close` gives the descriptor page back whether or not the server agreed to close the file, so
   afterwards the windows agree exactly if it did or the file was empty.
   */
  lemma CloseAgreesIff(c: Client, i: nat, closeOk: bool)
    requires Agree(c) && i in c.fds
    ensures Agree(Close(c, i, closeOk).0) <==> closeOk || PagesFor(c.fds[i].size) == 0
    ensures closeOk ==> forall k: nat :: k < WINDOW_PAGES ==> DataPage(i, k) !in Close(c, i, closeOk).0.table
    ensures Apart(c) ==> Apart(Close(c, i, closeOk).0)
  {
    var d, e := Emptied(c, i, closeOk), Close(c, i, closeOk).0;
    CloseUnfolds(c, i, closeOk);
    assert WindowIs(c.table, i, WindowSize(c, i));
    EmptiedWindow(c, d, i, PagesFor(c.fds[i].size), closeOk);
    DescriptorGone(d, e, i);
    SameWindow(d.table, e.table, i, 0, i);
  }

  lemma EmptiedWindow(c: Client, d: Client, i: nat, n: nat, closeOk: bool)
    requires Agree(c) && i in c.fds && n == PagesFor(c.fds[i].size) && WindowIs(c.table, i, n)
    requires d.table == if closeOk then UnmapRange(c.table, i, 0, n) else c.table
    requires d.fds == c.fds[i := c.fds[i].(size := 0)]
    ensures Agree(d) <==> closeOk || n == 0
    ensures closeOk ==> WindowIs(d.table, i, 0)
    ensures forall j: nat :: j < MAXFD ==> (FdPage(j) in d.table <==> j in d.fds)
    ensures Apart(c) ==> Apart(d)
  {
    ShrinkWindow(c.table, i, n, 0);
    assert OnlyWindow(c.table, c.table, i);
    AgreeAfter(c, d, i);
    FdPagesSame(c.table, d.table, i);
    if !closeOk && n > 0 {
      assert DataPage(i, 0) in d.table;
    }
  }

  lemma DescriptorGone(d: Client, e: Client, i: nat)
    requires i in d.fds && i < MAXFD && d.fds[i].size == 0
    requires e == d.(table := d.table - {FdPage(i)}, fds := d.fds - {i})
    requires forall j: nat :: j < MAXFD ==> (FdPage(j) in d.table <==> j in d.fds)
    requires forall j :: j in d.fds ==> j < MAXFD
    ensures Agree(e) <==> Agree(d)
    ensures Agree(d) && Apart(d) ==> Apart(e)
  {
    forall j: nat | j < MAXFD
      ensures FdPage(j) in e.table <==> j in e.fds
      ensures WindowIs(e.table, j, WindowSize(e, j)) <==> WindowIs(d.table, j, WindowSize(d, j))
      ensures WindowSize(d, j) <= WINDOW_PAGES && FramesApart(d.table, j, WindowSize(d, j)) ==>
        FramesApart(e.table, j, WindowSize(e, j))
    {
      SameWindow(d.table, e.table, j, WindowSize(d, j), i);
    }
  }

  // ---- reading and writing ----

  /** The physical place of byte `a` of the file in window `i`. */
  function FileByte(table: map<nat, nat>, i: nat, a: nat): nat
    requires DataPage(i, a / BY2PG) in table
  {
    table[DataPage(i, a / BY2PG)] * BY2PG + a % BY2PG
  }

  lemma PhysIsFileByte(table: map<nat, nat>, i: nat, offset: nat, k: nat)
    ensures ByteMapped(table, DataVa(i) + offset, k) <==> DataPage(i, (offset + k) / BY2PG) in table
    ensures ByteMapped(table, DataVa(i) + offset, k) ==>
      Phys(table, DataVa(i) + offset, k) == FileByte(table, i, offset + k)
  {
    var p := DataPage(i, 0);
    assert (p * BY2PG + (offset + k)) / BY2PG == p + (offset + k) / BY2PG;
  }

  lemma FileBytesDistinct(table: map<nat, nat>, i: nat, n: nat, a: nat, b: nat)
    requires WindowIs(table, i, n) && FramesApart(table, i, n) && a < n * BY2PG && b < n * BY2PG && a != b
    ensures DataPage(i, a / BY2PG) in table && DataPage(i, b / BY2PG) in table
    ensures FileByte(table, i, a) != FileByte(table, i, b)
  {
    assert a / BY2PG < n && b / BY2PG < n;
  }

  lemma InsideIsMapped(table: map<nat, nat>, i: nat, n: nat, offset: nat, len: nat)
    requires WindowIs(table, i, n) && offset + len <= n * BY2PG
    ensures Mapped(table, DataVa(i) + offset, len)
  {
    var va := DataVa(i) + offset;
    forall k: nat | k < len
      ensures ByteMapped(table, va, k)
    {
      PhysIsFileByte(table, i, offset, k);
      assert (offset + k) / BY2PG < n;
    }
  }

  /** Copying into a window changes the addressed bytes of the file and no other. */
  lemma {:induction false} CopyInMeans(mem: map<nat, byte>, table: map<nat, nat>, i: nat, n: nat, offset: nat,
                                       data: seq<byte>, a: nat)
    requires WindowIs(table, i, n) && FramesApart(table, i, n) && offset + |data| <= n * BY2PG && a < n * BY2PG
    ensures Mapped(table, DataVa(i) + offset, |data|) && DataPage(i, a / BY2PG) in table
    ensures LoadByte(CopyIn(mem, table, DataVa(i) + offset, data), FileByte(table, i, a)) ==
      if offset <= a < offset + |data| then data[a - offset] else LoadByte(mem, FileByte(table, i, a))
  {
    InsideIsMapped(table, i, n, offset, |data|);
    InsideIsMapped(table, i, n, a, 1);
    PhysIsFileByte(table, i, a, 0);
    assert ByteMapped(table, DataVa(i) + a, 0);
    if data != [] {
      var m := |data| - 1;
      CopyInMeans(mem, table, i, n, offset, data[..m], a);
      PhysIsFileByte(table, i, offset, m);
      if a != offset + m {
        FileBytesDistinct(table, i, n, a, offset + m);
      }
    }
  }

  lemma PagesCover(size: nat)
    ensures size <= PagesFor(size) * BY2PG
  {
  }

  /** Reading inside the file returns the bytes of the window. */
  lemma ReadMeans(c: Client, i: nat, n: nat, offset: nat)
    requires Agree(c) && i in c.fds && offset + n <= c.fds[i].size
    ensures Read(c, i, n, offset).Some? && |Read(c, i, n, offset).value| == n
    ensures forall k: nat :: k < n ==>
      DataPage(i, (offset + k) / BY2PG) in c.table &&
        Read(c, i, n, offset).value[k] == LoadByte(c.mem, FileByte(c.table, i, offset + k))
  {
    PagesCover(c.fds[i].size);
    assert WindowIs(c.table, i, WindowSize(c, i));
    InsideIsMapped(c.table, i, WindowSize(c, i), offset, n);
    forall k: nat | k < n
      ensures DataPage(i, (offset + k) / BY2PG) in c.table
      ensures Read(c, i, n, offset).value[k] == LoadByte(c.mem, FileByte(c.table, i, offset + k))
    {
      PhysIsFileByte(c.table, i, offset, k);
    }
  }

  /** The byte at position `a` of the file that window `i` shows. */
  function ByteAt(c: Client, i: nat, a: nat): byte {
    if DataPage(i, a / BY2PG) in c.table then LoadByte(c.mem, FileByte(c.table, i, a)) else 0
  }

  /** How many of the `n` bytes at `offset` a file of this size has. */
  function Readable(size: nat, n: nat, offset: nat): nat {
    if offset >= size then 0 else if n < size - offset then n else size - offset
  }

  /** `file_read` returned the bytes of the file from `offset` on: `n` of them, or as many as there are. */
  ghost predicate ReadsFile(c: Client, i: nat, n: nat, offset: nat, r: Option<seq<byte>>)
    requires i in c.fds
  {
    match r
    case None => false
    case Some(s) =>
      && |s| == Readable(c.fds[i].size, n, offset)
      && forall k: nat :: k < |s| ==> s[k] == ByteAt(c, i, offset + k)
  }

  /**
   `file_read` returns the bytes of the file, cut at its end, if and only if it starts past the end or the
   end of the range does not wrap around 32 bits.
   */
  lemma ReadsFileIff(c: Client, i: nat, n: nat, offset: nat)
    requires Agree(c) && i in c.fds && offset < UINT && n < UINT
    ensures ReadsFile(c, i, n, offset, Read(c, i, n, offset)) <==> offset > c.fds[i].size || offset + n < UINT
  {
    var size := c.fds[i].size;
    SizeIsLegal(c, i);
    if offset <= size && offset + n < UINT {
      ReadClips(c, i, n, offset);
    }
  }

  lemma ReadClips(c: Client, i: nat, n: nat, offset: nat)
    requires Agree(c) && i in c.fds && offset + n < UINT && offset <= c.fds[i].size
    ensures ReadsFile(c, i, n, offset, Read(c, i, n, offset))
  {
    var len := if offset + n > c.fds[i].size then c.fds[i].size - offset else n;
    ReadMeans(c, i, len, offset);
  }

  /** The client once the file is long enough. */
  function Roomy(c: Client, i: nat, tot: nat, setOk: bool, answers: map<nat, nat>): (Client, Code)
    requires i in c.fds
  {
    if tot > c.fds[i].size then Truncate(c, i, tot, setOk, answers) else (c, Done)
  }

  /** The file is long enough and nothing in it has changed. */
  ghost predicate RoomMade(c: Client, e: Client, i: nat, tot: nat)
    requires i in c.fds
  {
    && i in e.fds && e.fds[i].size >= tot && e.fds[i].size >= c.fds[i].size
    && forall a: nat :: a < c.fds[i].size ==> ByteAt(e, i, a) == ByteAt(c, i, a)
  }

  lemma WriteMakesRoom(c: Client, e: Client, i: nat, tot: nat, setOk: bool, answers: map<nat, nat>)
    requires Agree(c) && i in c.fds && tot <= MAXFILESIZE && Roomy(c, i, tot, setOk, answers) == (e, Done)
    ensures Agree(e) && RoomMade(c, e, i, tot)
  {
    if tot > c.fds[i].size {
      TruncateAgrees(c, i, tot, setOk, answers);
      forall a: nat | a < c.fds[i].size
        ensures a / BY2PG < PagesFor(c.fds[i].size) && a / BY2PG < PagesFor(tot)
      {
      }
    }
  }

  lemma RoomApart(c: Client, e: Client, i: nat, tot: nat, setOk: bool, answers: map<nat, nat>)
    requires Agree(c) && Apart(c) && i in c.fds && tot <= MAXFILESIZE && Roomy(c, i, tot, setOk, answers) == (e, Done)
    requires FreshAnswers(c.table, i, PagesFor(c.fds[i].size), PagesFor(tot), answers)
    ensures Apart(e)
  {
    if tot > c.fds[i].size {
      TruncateApart(c, i, tot, setOk, answers);
    }
  }

  /** `file_write`: the size check on the 32-bit sum, then room, then the copy. */
  lemma WriteUnfolds(c: Client, i: nat, data: seq<byte>, offset: nat, setOk: bool, answers: map<nat, nat>)
    requires i in c.fds
    ensures var tot := (offset + |data|) % UINT;
      var (e, code) := Roomy(c, i, tot, setOk, answers);
      Write(c, i, data, offset, setOk, answers) ==
        if tot > MAXFILESIZE then (c, NoDisk)
        else if code != Done then (e, code)
        else if !Mapped(e.table, DataVa(i) + offset, |data|) then (e, Fault)
        else (e.(mem := CopyIn(e.mem, e.table, DataVa(i) + offset, data)), Done)
  {
  }

  /** A write whose end does not wrap around 32 bits never faults. */
  lemma WriteNeverFaults(c: Client, i: nat, data: seq<byte>, offset: nat, setOk: bool, answers: map<nat, nat>)
    requires Agree(c) && i in c.fds && offset + |data| < UINT
    ensures !Write(c, i, data, offset, setOk, answers).1.Fault?
  {
    WriteUnfolds(c, i, data, offset, setOk, answers);
    if offset + |data| <= MAXFILESIZE {
      RoomIsMapped(c, i, offset, |data|, setOk, answers);
    }
  }

  lemma RoomIsMapped(c: Client, i: nat, offset: nat, n: nat, setOk: bool, answers: map<nat, nat>)
    requires Agree(c) && i in c.fds && offset + n <= MAXFILESIZE
    ensures var (e, code) := Roomy(c, i, offset + n, setOk, answers);
      code.Done? ==> Mapped(e.table, DataVa(i) + offset, n)
  {
    var (e, code) := Roomy(c, i, offset + n, setOk, answers);
    if code.Done? {
      WriteMakesRoom(c, e, i, offset + n, setOk, answers);
      FileIsMapped(e, i, offset, n);
    }
  }

  /** Whatever it writes and wherever, a write that does not fail for the server keeps the agreement. */
  lemma WriteAgrees(c: Client, i: nat, data: seq<byte>, offset: nat, setOk: bool, answers: map<nat, nat>)
    requires Agree(c) && i in c.fds && !Write(c, i, data, offset, setOk, answers).1.ServerError?
    ensures Agree(Write(c, i, data, offset, setOk, answers).0)
  {
    var tot := (offset + |data|) % UINT;
    var (e, code) := Roomy(c, i, tot, setOk, answers);
    var (w, result) := Write(c, i, data, offset, setOk, answers);
    WriteUnfolds(c, i, data, offset, setOk, answers);
    if tot <= MAXFILESIZE && code.Done? {
      WriteMakesRoom(c, e, i, tot, setOk, answers);
      SameAgree(e, w);
    }
  }

  lemma WriteApart(c: Client, i: nat, data: seq<byte>, offset: nat, setOk: bool, answers: map<nat, nat>)
    requires Agree(c) && Apart(c) && i in c.fds && !Write(c, i, data, offset, setOk, answers).1.ServerError?
    requires FreshAnswers(c.table, i, PagesFor(c.fds[i].size), PagesFor((offset + |data|) % UINT), answers)
    ensures Apart(Write(c, i, data, offset, setOk, answers).0)
  {
    var tot := (offset + |data|) % UINT;
    var (e, code) := Roomy(c, i, tot, setOk, answers);
    WriteUnfolds(c, i, data, offset, setOk, answers);
    if tot <= MAXFILESIZE && code.Done? {
      RoomApart(c, e, i, tot, setOk, answers);
      SameApart(e, Write(c, i, data, offset, setOk, answers).0);
    }
  }

  lemma FileIsMapped(e: Client, i: nat, offset: nat, n: nat)
    requires Agree(e) && i in e.fds && offset + n <= e.fds[i].size
    ensures Mapped(e.table, DataVa(i) + offset, n)
  {
    PagesCover(e.fds[i].size);
    assert WindowIs(e.table, i, WindowSize(e, i));
    InsideIsMapped(e.table, i, WindowSize(e, i), offset, n);
  }

  /** The copy of `file_write` once there is room. */
  lemma CopyIntoFile(e: Client, i: nat, data: seq<byte>, offset: nat, a: nat)
    requires Agree(e) && Apart(e) && i in e.fds && offset + |data| <= e.fds[i].size && a < e.fds[i].size
    requires Mapped(e.table, DataVa(i) + offset, |data|)
    ensures var w := e.(mem := CopyIn(e.mem, e.table, DataVa(i) + offset, data));
      ByteAt(w, i, a) == if offset <= a < offset + |data| then data[a - offset] else ByteAt(e, i, a)
  {
    PagesCover(e.fds[i].size);
    assert WindowIs(e.table, i, WindowSize(e, i)) && FramesApart(e.table, i, WindowSize(e, i));
    CopyInMeans(e.mem, e.table, i, WindowSize(e, i), offset, data, a);
  }

  /**
   Of the file in window `i`, the bytes of `data` at `offset` are set and the bytes that `c` had elsewhere are
   kept.
   */
  ghost predicate Overlaid(c: Client, w: Client, i: nat, data: seq<byte>, offset: nat)
    requires i in c.fds
  {
    && i in w.fds && w.fds[i].size >= c.fds[i].size && offset + |data| <= w.fds[i].size
    && (forall a: nat :: offset <= a < offset + |data| ==> ByteAt(w, i, a) == data[a - offset])
    && (forall a: nat :: a < c.fds[i].size && !(offset <= a < offset + |data|) ==> ByteAt(w, i, a) == ByteAt(c, i, a))
  }

  lemma CopyOverlays(e: Client, i: nat, data: seq<byte>, offset: nat)
    requires Agree(e) && Apart(e) && i in e.fds && offset + |data| <= e.fds[i].size
    requires Mapped(e.table, DataVa(i) + offset, |data|)
    ensures var w := e.(mem := CopyIn(e.mem, e.table, DataVa(i) + offset, data));
      Overlaid(e, w, i, data, offset)
  {
    var w := e.(mem := CopyIn(e.mem, e.table, DataVa(i) + offset, data));
    forall a: nat | a < e.fds[i].size
      ensures ByteAt(w, i, a) == if offset <= a < offset + |data| then data[a - offset] else ByteAt(e, i, a)
    {
      CopyIntoFile(e, i, data, offset, a);
    }
  }

  ghost predicate Copied(e: Client, w: Client, i: nat, data: seq<byte>, offset: nat) {
    Mapped(e.table, DataVa(i) + offset, |data|) && w == e.(mem := CopyIn(e.mem, e.table, DataVa(i) + offset, data))
  }

  lemma WriteIsCopy(c: Client, i: nat, data: seq<byte>, offset: nat, setOk: bool, answers: map<nat, nat>)
    requires i in c.fds && offset + |data| < UINT && Write(c, i, data, offset, setOk, answers).1.Done?
    ensures var (e, code) := Roomy(c, i, offset + |data|, setOk, answers);
      code.Done? && offset + |data| <= MAXFILESIZE &&
        Copied(e, Write(c, i, data, offset, setOk, answers).0, i, data, offset)
  {
    NoWrap(offset + |data|);
    WriteUnfolds(c, i, data, offset, setOk, answers);
  }

  lemma NoWrap(x: nat)
    requires x < UINT
    ensures x % UINT == x
  {
  }

  /** A successful write sets exactly the bytes it was given. */
  lemma WriteMeans(c: Client, i: nat, data: seq<byte>, offset: nat, setOk: bool, answers: map<nat, nat>)
    requires Agree(c) && Apart(c) && i in c.fds && offset + |data| < UINT
    requires Write(c, i, data, offset, setOk, answers).1.Done?
    requires FreshAnswers(c.table, i, PagesFor(c.fds[i].size), PagesFor(offset + |data|), answers)
    ensures Overlaid(c, Write(c, i, data, offset, setOk, answers).0, i, data, offset)
  {
    var e := Roomy(c, i, offset + |data|, setOk, answers).0;
    WriteIsCopy(c, i, data, offset, setOk, answers);
    RoomThenCopy(c, e, Write(c, i, data, offset, setOk, answers).0, i, data, offset, setOk, answers);
  }

  lemma RoomThenCopy(c: Client, e: Client, w: Client, i: nat, data: seq<byte>, offset: nat, setOk: bool,
                     answers: map<nat, nat>)
    requires Agree(c) && Apart(c) && i in c.fds && offset + |data| <= MAXFILESIZE
    requires Roomy(c, i, offset + |data|, setOk, answers) == (e, Done) && Copied(e, w, i, data, offset)
    requires FreshAnswers(c.table, i, PagesFor(c.fds[i].size), PagesFor(offset + |data|), answers)
    ensures Overlaid(c, w, i, data, offset)
  {
    WriteMakesRoom(c, e, i, offset + |data|, setOk, answers);
    RoomApart(c, e, i, offset + |data|, setOk, answers);
    CopyAfterRoom(c, e, w, i, data, offset);
  }

  lemma CopyAfterRoom(c: Client, e: Client, w: Client, i: nat, data: seq<byte>, offset: nat)
    requires i in c.fds && Agree(e) && Apart(e) && RoomMade(c, e, i, offset + |data|) && Copied(e, w, i, data, offset)
    ensures Overlaid(c, w, i, data, offset)
  {
    CopyOverlays(e, i, data, offset);
    OverlaidAfterRoom(c, e, w, i, data, offset);
  }

  lemma OverlaidAfterRoom(c: Client, e: Client, w: Client, i: nat, data: seq<byte>, offset: nat)
    requires i in c.fds && RoomMade(c, e, i, offset + |data|) && Overlaid(e, w, i, data, offset)
    ensures Overlaid(c, w, i, data, offset)
  {
  }

  lemma SameAgree(e: Client, w: Client)
    requires w.table == e.table && w.fds == e.fds && Agree(e)
    ensures Agree(w)
  {
    assert forall i: nat :: WindowSize(w, i) == WindowSize(e, i);
  }

  lemma SameApart(e: Client, w: Client)
    requires w.table == e.table && w.fds == e.fds && Apart(e)
    ensures Apart(w)
  {
    assert forall i: nat :: WindowSize(w, i) == WindowSize(e, i);
  }

  // ---- the other files ----

  /** Windows `i` and `j` show no frame in common. */
  ghost predicate NoSharedFrame(table: map<nat, nat>, i: nat, j: nat) {
    forall k: nat, l: nat :: k < WINDOW_PAGES && l < WINDOW_PAGES ==>
      DataPage(i, k) in table && DataPage(j, l) in table ==> table[DataPage(i, k)] != table[DataPage(j, l)]
  }

  /** The server answers with no frame that window `j` shows. */
  ghost predicate NewToWindow(table: map<nat, nat>, j: nat, answers: map<nat, nat>) {
    forall k: nat, l: nat :: k in answers && l < WINDOW_PAGES && DataPage(j, l) in table ==>
      answers[k] != table[DataPage(j, l)]
  }

  /** Window `j` shows the same file with the same bytes. */
  ghost predicate FileKept(c: Client, w: Client, j: nat) {
    && (j in w.fds <==> j in c.fds) && (j in c.fds ==> w.fds[j] == c.fds[j])
    && forall a: nat :: a < MAXFILESIZE ==> ByteAt(w, j, a) == ByteAt(c, j, a)
  }

  lemma OtherPageSame(t: map<nat, nat>, u: map<nat, nat>, i: nat, j: nat, k: nat)
    requires OnlyWindow(t, u, i) && i != j && k < WINDOW_PAGES
    ensures (DataPage(j, k) in u <==> DataPage(j, k) in t) &&
      (DataPage(j, k) in t ==> u[DataPage(j, k)] == t[DataPage(j, k)])
  {
    assert !InRange(DataPage(j, k), i, 0, WINDOW_PAGES);
  }

  /** `ftruncate` leaves every other file as it was. */
  lemma TruncateKeepsFiles(c: Client, i: nat, size: nat, setOk: bool, answers: map<nat, nat>, j: nat)
    requires Agree(c) && i in c.fds && j != i
    ensures FileKept(c, Truncate(c, i, size, setOk, answers).0, j)
  {
    var e := Truncate(c, i, size, setOk, answers).0;
    TruncateOnlyWindow(c, i, size, setOk, answers);
    forall a: nat | a < MAXFILESIZE
      ensures ByteAt(e, j, a) == ByteAt(c, j, a)
    {
      OtherPageSame(c.table, e.table, i, j, a / BY2PG);
    }
  }

  /** The window after new pages were mapped still shares no frame with `j`. */
  lemma RoomShares(c: Client, e: Client, i: nat, tot: nat, setOk: bool, answers: map<nat, nat>, j: nat)
    requires Agree(c) && i in c.fds && j != i && tot <= MAXFILESIZE && Roomy(c, i, tot, setOk, answers) == (e, Done)
    requires NoSharedFrame(c.table, i, j) && NewToWindow(c.table, j, answers)
    ensures NoSharedFrame(e.table, i, j)
  {
    if tot > c.fds[i].size {
      var old_, new_ := PagesFor(c.fds[i].size), PagesFor(tot);
      TruncateOnlyWindow(c, i, tot, setOk, answers);
      MapRangeMeans(c.table, i, old_, new_, answers);
      assert e.table == MapRange(c.table, i, old_, new_, answers).0;
      forall k: nat, l: nat | k < WINDOW_PAGES && l < WINDOW_PAGES && DataPage(i, k) in e.table &&
        DataPage(j, l) in e.table
        ensures e.table[DataPage(i, k)] != e.table[DataPage(j, l)]
      {
        OtherPageSame(c.table, e.table, i, j, l);
        assert InRange(DataPage(i, k), i, old_, new_) <==> old_ <= k < new_;
      }
    }
  }

  /** Copying into window `i` changes no byte that window `j` shows. */
  lemma {:induction false} CopyKeepsOther(mem: map<nat, byte>, table: map<nat, nat>, i: nat, n: nat, offset: nat,
                                          data: seq<byte>, j: nat, a: nat)
    requires WindowIs(table, i, n) && offset + |data| <= n * BY2PG && NoSharedFrame(table, i, j)
    requires a < MAXFILESIZE && DataPage(j, a / BY2PG) in table
    ensures Mapped(table, DataVa(i) + offset, |data|)
    ensures LoadByte(CopyIn(mem, table, DataVa(i) + offset, data), FileByte(table, j, a)) ==
      LoadByte(mem, FileByte(table, j, a))
  {
    InsideIsMapped(table, i, n, offset, |data|);
    if data != [] {
      var m := |data| - 1;
      CopyKeepsOther(mem, table, i, n, offset, data[..m], j, a);
      PhysIsFileByte(table, i, offset, m);
      OtherByte(table, i, n, offset + m, j, a);
    }
  }

  lemma OtherByte(table: map<nat, nat>, i: nat, n: nat, x: nat, j: nat, a: nat)
    requires WindowIs(table, i, n) && x < n * BY2PG && NoSharedFrame(table, i, j)
    requires a < MAXFILESIZE && DataPage(j, a / BY2PG) in table
    ensures DataPage(i, x / BY2PG) in table && FileByte(table, i, x) != FileByte(table, j, a)
  {
    assert x / BY2PG < n && a / BY2PG < WINDOW_PAGES;
  }

  lemma CopyKeepsFile(e: Client, w: Client, i: nat, data: seq<byte>, offset: nat, j: nat)
    requires Agree(e) && i in e.fds && j != i && offset + |data| <= e.fds[i].size && Copied(e, w, i, data, offset)
    requires NoSharedFrame(e.table, i, j)
    ensures FileKept(e, w, j)
  {
    PagesCover(e.fds[i].size);
    assert WindowIs(e.table, i, WindowSize(e, i));
    forall a: nat | a < MAXFILESIZE
      ensures ByteAt(w, j, a) == ByteAt(e, j, a)
    {
      if DataPage(j, a / BY2PG) in e.table {
        CopyKeepsOther(e.mem, e.table, i, WindowSize(e, i), offset, data, j, a);
      }
    }
  }

  /**
   A successful write leaves every other file as it was, if its window shows no frame in common with the
   window written to, neither before nor through the server's answers.
   */
  lemma WriteKeepsFiles(c: Client, i: nat, data: seq<byte>, offset: nat, setOk: bool, answers: map<nat, nat>, j: nat)
    requires Agree(c) && i in c.fds && j != i && offset + |data| < UINT
    requires Write(c, i, data, offset, setOk, answers).1.Done?
    requires NoSharedFrame(c.table, i, j) && NewToWindow(c.table, j, answers)
    ensures FileKept(c, Write(c, i, data, offset, setOk, answers).0, j)
  {
    var e := Roomy(c, i, offset + |data|, setOk, answers).0;
    WriteIsCopy(c, i, data, offset, setOk, answers);
    RoomThenCopyKeeps(c, e, Write(c, i, data, offset, setOk, answers).0, i, data, offset, setOk, answers, j);
  }

  lemma RoomThenCopyKeeps(c: Client, e: Client, w: Client, i: nat, data: seq<byte>, offset: nat, setOk: bool,
                          answers: map<nat, nat>, j: nat)
    requires Agree(c) && i in c.fds && j != i && offset + |data| <= MAXFILESIZE
    requires Roomy(c, i, offset + |data|, setOk, answers) == (e, Done) && Copied(e, w, i, data, offset)
    requires NoSharedFrame(c.table, i, j) && NewToWindow(c.table, j, answers)
    ensures FileKept(c, w, j)
  {
    RoomMadeBeside(c, e, i, offset + |data|, setOk, answers, j);
    CopyKeepsFile(e, w, i, data, offset, j);
    KeptTwice(c, e, w, j);
  }

  lemma RoomMadeBeside(c: Client, e: Client, i: nat, tot: nat, setOk: bool, answers: map<nat, nat>, j: nat)
    requires Agree(c) && i in c.fds && j != i && tot <= MAXFILESIZE && Roomy(c, i, tot, setOk, answers) == (e, Done)
    requires NoSharedFrame(c.table, i, j) && NewToWindow(c.table, j, answers)
    ensures Agree(e) && i in e.fds && tot <= e.fds[i].size && NoSharedFrame(e.table, i, j) && FileKept(c, e, j)
  {
    WriteMakesRoom(c, e, i, tot, setOk, answers);
    RoomShares(c, e, i, tot, setOk, answers, j);
    RoomKeepsFile(c, i, tot, setOk, answers, j);
  }

  lemma RoomKeepsFile(c: Client, i: nat, tot: nat, setOk: bool, answers: map<nat, nat>, j: nat)
    requires Agree(c) && i in c.fds && j != i
    ensures FileKept(c, Roomy(c, i, tot, setOk, answers).0, j)
  {
    if tot > c.fds[i].size {
      TruncateKeepsFiles(c, i, tot, setOk, answers, j);
    }
  }

  lemma KeptTwice(c: Client, e: Client, w: Client, j: nat)
    requires FileKept(c, e, j) && FileKept(e, w, j)
    ensures FileKept(c, w, j)
  {
  }

  /** Opening a file of legal size leaves the files that are open as they were, whatever comes of it. */
  lemma OpenKeepsFiles(c: Client, reply: OpenReply, answers: map<nat, nat>, j: nat)
    requires Agree(c) && j in c.fds && (reply.Opened? ==> reply.file.size <= MAXFILESIZE)
    ensures FileKept(c, Open(c, reply, answers).0, j)
  {
    if FreeFd(c.table, 0).Some? && reply.Opened? {
      var i, e := FreeFd(c.table, 0).value, Open(c, reply, answers).0;
      OpenUnfolds(c, reply, answers);
      var d := WithDescriptor(c, i, reply.frame, reply.file);
      ResizeWindow(d.table, i, 0, PagesFor(reply.file.size), answers);
      forall a: nat | a < MAXFILESIZE
        ensures ByteAt(e, j, a) == ByteAt(c, j, a)
      {
        OtherPageSame(d.table, e.table, i, j, a / BY2PG);
        WindowsDisjoint(j, a / BY2PG, i, 0);
      }
    }
  }

  /** Closing a file leaves every other file as it was, whether the server agreed or not. */
  lemma CloseKeepsFiles(c: Client, i: nat, closeOk: bool, j: nat)
    requires Agree(c) && i in c.fds && j != i
    ensures FileKept(c, Close(c, i, closeOk).0, j)
  {
    var d, e := Emptied(c, i, closeOk), Close(c, i, closeOk).0;
    CloseUnfolds(c, i, closeOk);
    assert WindowIs(c.table, i, WindowSize(c, i));
    ShrinkWindow(c.table, i, PagesFor(c.fds[i].size), 0);
    forall a: nat | a < MAXFILESIZE
      ensures ByteAt(e, j, a) == ByteAt(c, j, a)
    {
      if closeOk {
        OtherPageSame(c.table, d.table, i, j, a / BY2PG);
      }
      WindowsDisjoint(j, a / BY2PG, i, 0);
    }
  }

  // ---- answers ----

  /** The server answers for every page from `old_` to `new_ - 1`. */
  predicate AnswersAll(answers: map<nat, nat>, old_: nat, new_: nat) {
    forall k: nat :: old_ <= k < new_ ==> k in answers
  }

  /** The code `ftruncate` returns, and that nothing happens when it is refused before the server is asked. */
  lemma TruncateCode(c: Client, i: nat, size: nat, setOk: bool, answers: map<nat, nat>)
    ensures var (e, code) := Truncate(c, i, size, setOk, answers);
      && (code.NoDisk? <==> size > 0x40_0000)
      && (code.Invalid? <==> size <= 0x40_0000 && i !in c.fds)
      && (code.Done? <==>
            size <= 0x40_0000 && i in c.fds && setOk && AnswersAll(answers, PagesFor(c.fds[i].size), PagesFor(size)))
      && (code.ServerError? <==> size <= 0x40_0000 && i in c.fds && !code.Done?)
      && (code.NoDisk? || code.Invalid? ==> e == c)
  {
    if i in c.fds {
      MapRangeMeans(c.table, i, PagesFor(c.fds[i].size), PagesFor(size), answers);
    }
  }

  /** The pages that a successful `ftruncate` adds show the frames the server answered with. */
  lemma TruncateShowsAnswers(c: Client, i: nat, size: nat, setOk: bool, answers: map<nat, nat>, k: nat)
    requires Agree(c) && i in c.fds && Truncate(c, i, size, setOk, answers).1.Done?
    requires PagesFor(c.fds[i].size) <= k < PagesFor(size)
    ensures var t := Truncate(c, i, size, setOk, answers).0.table;
      k in answers && DataPage(i, k) in t && t[DataPage(i, k)] == answers[k]
  {
    var old_, new_ := PagesFor(c.fds[i].size), PagesFor(size);
    MapRangeMeans(c.table, i, old_, new_, answers);
    assert Truncate(c, i, size, setOk, answers).0.table == MapRange(c.table, i, old_, new_, answers).0;
  }

  /** The code `file_write` returns when the end of the range does not wrap. */
  lemma WriteCode(c: Client, i: nat, data: seq<byte>, offset: nat, setOk: bool, answers: map<nat, nat>)
    requires Agree(c) && offset + |data| < UINT
    ensures var (e, code) := Write(c, i, data, offset, setOk, answers);
      && (code.NoDisk? <==> offset + |data| > 0x40_0000)
      && (code.Invalid? <==> offset + |data| <= 0x40_0000 && i !in c.fds)
      && (code.Done? <==>
            && offset + |data| <= 0x40_0000 && i in c.fds
            && (offset + |data| <= c.fds[i].size ||
                (setOk && AnswersAll(answers, PagesFor(c.fds[i].size), PagesFor(offset + |data|)))))
      && (code.ServerError? <==> offset + |data| <= 0x40_0000 && i in c.fds && !code.Done?)
      && (code.NoDisk? || code.Invalid? ==> e == c)
  {
    if i in c.fds {
      TruncateCode(c, i, offset + |data|, setOk, answers);
      WriteNeverFaults(c, i, data, offset, setOk, answers);
      WriteUnfolds(c, i, data, offset, setOk, answers);
    }
  }

  /** The code `open` returns, and what it leaves of a success: the descriptor page and the file's pages. */
  lemma OpenCode(c: Client, reply: OpenReply, answers: map<nat, nat>)
    requires Agree(c)
    ensures var (e, code) := Open(c, reply, answers);
      && (code.MaxOpen? <==> forall j: nat :: j < 31 ==> j in c.fds)
      && (code.Done? <==> !code.MaxOpen? && reply.Opened? && AnswersAll(answers, 0, PagesFor(reply.file.size)))
      && (code.ServerError? <==> !code.MaxOpen? && !code.Done?)
      && (code.MaxOpen? || reply.Refused? ==> e == c)
  {
    if FreeFd(c.table, 0).Some? && reply.Opened? {
      var i := FreeFd(c.table, 0).value;
      MapRangeMeans(c.table[FdPage(i) := reply.frame], i, 0, PagesFor(reply.file.size), answers);
    }
  }

  // ---- exactly when a write does what it says ----

  /**
   A write that reaches its copy succeeds and sets exactly the bytes it was given if and only if its
   end does not wrap around 32 bits.
   */
  lemma WriteMeansIff(c: Client, i: nat, data: seq<byte>, offset: nat, setOk: bool, answers: map<nat, nat>)
    requires Agree(c) && Apart(c) && i in c.fds && offset < UINT && |data| < UINT
    requires FreshAnswers(c.table, i, PagesFor(c.fds[i].size), PagesFor((offset + |data|) % UINT), answers)
    requires Write(c, i, data, offset, setOk, answers).1 in {Done, Fault}
    ensures var (w, code) := Write(c, i, data, offset, setOk, answers);
      code.Done? && Overlaid(c, w, i, data, offset) <==> offset + |data| < UINT
  {
    var w := Write(c, i, data, offset, setOk, answers).0;
    if offset + |data| < UINT {
      WriteNeverFaults(c, i, data, offset, setOk, answers);
      WriteMeans(c, i, data, offset, setOk, answers);
    } else {
      WriteAgrees(c, i, data, offset, setOk, answers);
      WrappedIsNotOverlaid(c, w, i, data, offset);
    }
  }

  lemma WrappedIsNotOverlaid(c: Client, w: Client, i: nat, data: seq<byte>, offset: nat)
    requires Agree(w) && i in c.fds && offset + |data| >= UINT
    ensures !Overlaid(c, w, i, data, offset)
  {
    if i in w.fds {
      SizeIsLegal(w, i);
    }
  }

  lemma SizeIsLegal(c: Client, i: nat)
    requires Agree(c) && i in c.fds
    ensures c.fds[i].size <= MAXFILESIZE
  {
    assert WindowIs(c.table, i, WindowSize(c, i));
  }

  /** A client with a file of one byte open. */
  function OneByteClient(): Client {
    Client(map[FdPage(0) := 9, DataPage(0, 0) := 10], map[0 := OpenFile(1, 1)], map[])
  }

  /** Writing two bytes just below 4 GB passes the size check, as the sum is 1, and then faults. */
  lemma WrappingWriteFaults()
    ensures Agree(OneByteClient()) && Apart(OneByteClient())
    ensures Write(OneByteClient(), 0, [7, 7], UINT - 1, true, map[]).1.Fault?
  {
    var c := OneByteClient();
    var va := DataVa(0) + (UINT - 1);
    assert !ByteMapped(c.table, va, 0);
    assert !Mapped(c.table, va, 2);
    OneByteAgrees();
  }

  lemma OneByteAgrees()
    ensures Agree(OneByteClient()) && Apart(OneByteClient())
  {
    var c := OneByteClient();
    assert PagesFor(1) == 1;
    forall j: nat | j < MAXFD
      ensures (FdPage(j) in c.table <==> j in c.fds) && WindowIs(c.table, j, WindowSize(c, j))
    {
      forall k: nat | k < WINDOW_PAGES
        ensures DataPage(j, k) in c.table <==> j == 0 && k == 0
      {
        WindowsDisjoint(j, k, 0, 0);
      }
    }
  }

  /** `file_read` after `file_write` at the same offset returns the written bytes. */
  lemma WriteThenRead(c: Client, i: nat, data: seq<byte>, offset: nat, setOk: bool, answers: map<nat, nat>)
    requires Agree(c) && Apart(c) && i in c.fds && offset + |data| < UINT
    requires Write(c, i, data, offset, setOk, answers).1.Done?
    requires FreshAnswers(c.table, i, PagesFor(c.fds[i].size), PagesFor(offset + |data|), answers)
    ensures var w := Write(c, i, data, offset, setOk, answers).0;
      i in w.fds && Read(w, i, |data|, offset) == Some(data)
  {
    WriteMeans(c, i, data, offset, setOk, answers);
    WriteAgrees(c, i, data, offset, setOk, answers);
    ReadsOverlay(c, Write(c, i, data, offset, setOk, answers).0, i, data, offset);
  }

  lemma ReadsOverlay(c: Client, w: Client, i: nat, data: seq<byte>, offset: nat)
    requires Agree(w) && i in c.fds && Overlaid(c, w, i, data, offset)
    ensures Read(w, i, |data|, offset) == Some(data)
  {
    ReadMeans(w, i, |data|, offset);
    var got := Read(w, i, |data|, offset).value;
    forall k: nat | k < |data|
      ensures got[k] == data[k]
    {
      assert ByteAt(w, i, offset + k) == data[offset + k - offset];
    }
    assert got == data;
  }

  // ---- whole runs ----

  datatype Call =
    | OpenCall(reply: OpenReply, answers: map<nat, nat>)
    | TruncateCall(i: nat, size: nat, setOk: bool, answers: map<nat, nat>)
    | WriteCall(i: nat, data: seq<byte>, offset: nat, setOk: bool, answers: map<nat, nat>)
    | CloseCall(i: nat, closeOk: bool)

  function Apply(c: Client, call: Call): (Client, Code) {
    match call
    case OpenCall(reply, answers) => Open(c, reply, answers)
    case TruncateCall(i, size, setOk, answers) => Truncate(c, i, size, setOk, answers)
    case WriteCall(i, data, offset, setOk, answers) => Write(c, i, data, offset, setOk, answers)
    case CloseCall(i, closeOk) => Close(c, i, closeOk)
  }

  /** The server opens only files of legal size. */
  predicate Legal(call: Call) {
    call.OpenCall? && call.reply.Opened? ==> call.reply.file.size <= MAXFILESIZE
  }

  /** The server answers with the pages of different blocks. */
  ghost predicate Trusted(c: Client, call: Call) {
    match call
    case OpenCall(reply, answers) => reply.Opened? ==> FreshAnswers(c.table, 0, 0, PagesFor(reply.file.size), answers)
    case TruncateCall(i, size, _, answers) =>
      i in c.fds ==> FreshAnswers(c.table, i, PagesFor(c.fds[i].size), PagesFor(size), answers)
    case WriteCall(i, data, offset, _, answers) =>
      i in c.fds ==> FreshAnswers(c.table, i, PagesFor(c.fds[i].size), PagesFor((offset + |data|) % UINT), answers)
    case CloseCall(_, _) => true
  }

  /** Every call of the run succeeds. */
  ghost predicate Succeeds(c: Client, calls: seq<Call>)
    decreases |calls|
  {
    calls == [] || (Legal(calls[0]) && Apply(c, calls[0]).1.Done? && Succeeds(Apply(c, calls[0]).0, calls[1..]))
  }

  ghost predicate AllTrusted(c: Client, calls: seq<Call>)
    decreases |calls|
  {
    calls == [] || (Trusted(c, calls[0]) && AllTrusted(Apply(c, calls[0]).0, calls[1..]))
  }

  function Run(c: Client, calls: seq<Call>): Client
    decreases |calls|
  {
    if calls == [] then c else Run(Apply(c, calls[0]).0, calls[1..])
  }

  lemma ApplyAgrees(c: Client, call: Call)
    requires Agree(c) && Legal(call) && Apply(c, call).1.Done?
    ensures Agree(Apply(c, call).0)
  {
    match call {
      case OpenCall(reply, answers) => OpenAgreesIff(c, reply, answers);
      case TruncateCall(i, size, setOk, answers) => TruncateAgrees(c, i, size, setOk, answers);
      case WriteCall(i, data, offset, setOk, answers) => WriteAgrees(c, i, data, offset, setOk, answers);
      case CloseCall(i, closeOk) => CloseAgreesIff(c, i, closeOk);
    }
  }

  lemma ApplyApart(c: Client, call: Call)
    requires Agree(c) && Apart(c) && Legal(call) && Trusted(c, call) && Apply(c, call).1.Done?
    ensures Apart(Apply(c, call).0)
  {
    match call {
      case OpenCall(reply, answers) => OpenApart(c, reply, answers);
      case TruncateCall(i, size, setOk, answers) => TruncateApart(c, i, size, setOk, answers);
      case WriteCall(i, data, offset, setOk, answers) => WriteApart(c, i, data, offset, setOk, answers);
      case CloseCall(i, closeOk) => CloseAgreesIff(c, i, closeOk);
    }
  }

  /** After any run of successful calls every window agrees with the size of its file. */
  lemma {:induction false} RunAgrees(c: Client, calls: seq<Call>)
    requires Agree(c) && Succeeds(c, calls)
    ensures Agree(Run(c, calls))
    decreases |calls|
  {
    if calls != [] {
      ApplyAgrees(c, calls[0]);
      RunAgrees(Apply(c, calls[0]).0, calls[1..]);
    }
  }

  /** If the server answers with the pages of different blocks, the pages of a window stay different frames. */
  lemma {:induction false} RunApart(c: Client, calls: seq<Call>)
    requires Agree(c) && Apart(c) && Succeeds(c, calls) && AllTrusted(c, calls)
    ensures Apart(Run(c, calls))
    decreases |calls|
  {
    if calls != [] {
      ApplyAgrees(c, calls[0]);
      ApplyApart(c, calls[0]);
      RunApart(Apply(c, calls[0]).0, calls[1..]);
    }
  }

  /** A client that has nothing open and nothing mapped starts in agreement. */
  lemma EmptyAgrees(mem: map<nat, byte>)
    ensures Agree(Client(map[], map[], mem)) && Apart(Client(map[], map[], mem))
  {
  }
}
