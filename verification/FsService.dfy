/** `serve_open` as a handler of the protocol, built from the table of open files and the file system. */
module FsService {
  import opened Options
  import opened FsBlocks
  import opened FsDir
  import opened FsPath
  import opened FsTree
  import opened OpenTable
  import opened Rpc
  import Files = FsRoundTrip

  const FSREQ_OPEN: nat := 1
  const MAXPATHLEN: nat := 1024
  const E_MAX_OPEN: nat := 8

  type Counts = refs: seq<nat> | |refs| == MAXOPEN witness seq(MAXOPEN, _ => 0)
  type OpenTab = t: Table | |t.ids| == MAXOPEN witness Table(seq(MAXOPEN, i => i), [])

  /** The file server: its disk, its table of open files, and how many requests to open it has handled. */
  datatype Service = Service(disk: Disk, table: OpenTab, opens: nat)

  /**
   What the code of the server does not decide: the page counts it finds at each request, whether
   address 0 can be read, what a use of the uninitialised table pointer leads to, and the other handlers.
   */
  datatype World = World(
    counts: nat -> Counts, nullReadable: bool,
    wild: Service -> (Service, seq<nat>, bool), others: Handler<Service>)

  /** The path in a request: the bytes before the first NUL, at most MAXPATHLEN - 1 of them. */
  function PathIn(args: seq<nat>, k: nat): string
    decreases MAXPATHLEN - k
  {
    if k >= MAXPATHLEN - 1 || k >= |args| || args[k] % 256 == 0 then ""
    else [(args[k] % 256) as char] + PathIn(args, k + 1)
  }

  /** Character `j` of the path is byte `k + j` of the request, which is not NUL. */
  predicate IsByte(args: seq<nat>, p: string, k: nat, j: nat) {
    j < |p| && k + j < |args| && args[k + j] % 256 != 0 && p[j] == (args[k + j] % 256) as char
  }

  /** The path ends at 1023 characters, at the end of the request, or at its first NUL. */
  lemma {:induction false} PathInMeans(args: seq<nat>, k: nat)
    requires k <= 1023
    ensures var p := PathIn(args, k);
      && k + |p| <= 1023
      && (forall j: nat :: j < |p| ==> IsByte(args, p, k, j))
      && (k + |p| == 1023 || k + |p| >= |args| || args[k + |p|] % 256 == 0)
    decreases 1023 - k
  {
    if k < 1023 && k < |args| && args[k] % 256 != 0 {
      PathInMeans(args, k + 1);
      var p, rest := PathIn(args, k), PathIn(args, k + 1);
      forall j: nat | j < |p|
        ensures IsByte(args, p, k, j)
      {
        if j > 0 {
          assert IsByte(args, rest, k + 1, j - 1);
        }
      }
    }
  }

  /** The error code of a failed call. */
  function ErrorCode<T>(r: Result<T>): (e: nat)
    requires !r.Good? && !r.Panic?
    ensures 0 < e <= 12
  {
    match r
    case Invalid => 3
    case NoDisk => 7
    case NotFound => 9
    case BadPath => 10
    case FileExists => 11
  }

  /** Its negation as the value of a reply, an unsigned 64-bit number. */
  function Negated(e: nat): nat
    requires 0 < e <= 12
  {
    0x1_0000_0000_0000_0000 - e
  }

  /** `open_alloc` in the page counts of this request. */
  function Allocated(w: World, s: Service): (Table, Option<nat>) {
    Alloc(s.table, w.counts(s.opens))
  }

  function PathOf(r: Request): string {
    PathIn(r.args, 0)
  }

  /** Both calls of `serve_open` succeed. */
  predicate Opened(w: World, s: Service, r: Request) {
    Allocated(w, s).1.Some? && Files.Open(s.disk, PathOf(r)).Good?
  }

  /** `open_alloc` fails and `file_open` does not, so `serve_open` goes on with a pointer that was never set. */
  predicate Undefined(w: World, s: Service, r: Request) {
    Allocated(w, s).1.None? && Files.Open(s.disk, PathOf(r)).Good?
  }

  /** The state after the two calls. */
  function AfterCalls(w: World, s: Service, r: Request): Service {
    Service(Resolve(s.disk, RootFile, None, Names(PathOf(r))).disk, Allocated(w, s).0, s.opens + 1)
  }

  /**
   `serve_open`.  Each failed call is reported and control falls through: after `file_open` failed the
   file is read through a null pointer, which stops the machine or leads to one more reply; a failed
   `open_alloc` leaves the table pointer uninitialised.
   */
  function ServeOpen(w: World, s: Service, r: Request): (Service, seq<nat>, bool) {
    var next := AfterCalls(w, s, r);
    var f := Files.Open(s.disk, PathOf(r));
    var first := if Allocated(w, s).1.Some? then [] else [Negated(E_MAX_OPEN)];
    if f.Panic? then (next, first, false)
    else
      var errors := first + if f.Good? then [] else [Negated(ErrorCode(f))];
      if Allocated(w, s).1.None? then
        var (after, more, returns_) := w.wild(next);
        (after, errors + more, returns_)
      else if f.Good? || w.nullReadable then (next, errors + [0], true)
      else (next, errors, false)
  }

  /** The server's switch on the request code. */
  function Serve(w: World): Handler<Service> {
    (s: Service, c: nat, r: Request) => if r.kind == FSREQ_OPEN then ServeOpen(w, s, r) else w.others(s, c, r)
  }

  /** `serve_open` sends one reply and returns exactly when the file was opened. */
  lemma AnswersOnceIffOpened(w: World, s: Service, r: Request)
    requires !Undefined(w, s, r)
    ensures var (_, answers, returns_) := ServeOpen(w, s, r);
      |answers| == 1 && returns_ <==> Opened(w, s, r)
  {
  }

  /** On a well-kept disk a request to open changes nothing but the set of mapped pages. */
  lemma OpenKeepsDisk(w: World, s: Service, r: Request)
    requires FsOk(s.disk)
    ensures SameButMapped(s.disk, AfterCalls(w, s, r).disk)
  {
    ResolveLocates(s.disk, RootFile, None, Names(PathOf(r)));
  }

  /** When it was opened the reply is 0 and one identifier was issued. */
  lemma OpenedReply(w: World, s: Service, r: Request)
    requires Opened(w, s, r)
    ensures ServeOpen(w, s, r) == (AfterCalls(w, s, r), [0], true)
    ensures AfterCalls(w, s, r).table.issued == s.table.issued + [Allocated(w, s).1.value]
    ensures AfterCalls(w, s, r).opens == s.opens + 1
  {
    OpenedAnswer(w, s, r);
    OpenedIssues(w, s, r);
  }

  lemma OpenedAnswer(w: World, s: Service, r: Request)
    requires Opened(w, s, r)
    ensures ServeOpen(w, s, r) == (AfterCalls(w, s, r), [0], true)
  {
    var none: seq<nat> := [];
    assert none + none == none && none + [0] == [0];
  }

  lemma OpenedIssues(w: World, s: Service, r: Request)
    requires Allocated(w, s).1.Some?
    ensures AfterCalls(w, s, r).table.issued == s.table.issued + [Allocated(w, s).1.value]
  {
  }

  /** The value that tells a client of a failed `file_open`. */
  ghost predicate Reports<T>(f: Result<T>, value: nat) {
    match f
    case Invalid => value == 0xFFFF_FFFF_FFFF_FFFD
    case NoDisk => value == 0xFFFF_FFFF_FFFF_FFF9
    case NotFound => value == 0xFFFF_FFFF_FFFF_FFF7
    case BadPath => value == 0xFFFF_FFFF_FFFF_FFF6
    case FileExists => value == 0xFFFF_FFFF_FFFF_FFF5
    case _ => false
  }

  /**
   When the file was not opened its error goes out as an unsigned 64-bit number, after that of a full
   table if it was full.  If a slot was there, one more reply, 0, follows where address 0 can be read, and
   the handler does not return where it cannot.
   */
  lemma FailedOpenReply(w: World, s: Service, r: Request)
    requires var f := Files.Open(s.disk, PathOf(r)); !f.Good? && !f.Panic?
    ensures var (_, answers, returns_) := ServeOpen(w, s, r);
      if Allocated(w, s).1.Some? then
        && |answers| == (if w.nullReadable then 2 else 1) && Reports(Files.Open(s.disk, PathOf(r)), answers[0])
        && (w.nullReadable ==> answers[1] == 0) && (returns_ <==> w.nullReadable)
      else
        |answers| >= 2 && answers[0] == 0xFFFF_FFFF_FFFF_FFF8 && Reports(Files.Open(s.disk, PathOf(r)), answers[1])
  {
  }

  /** The entry whose replies are going out is the last of the log, and what it holds is its handler's outcome. */
  lemma LastOutcome<S(!new)>(h: Handler<S>, s0: System<S>, steps: seq<Step>, s: System<S>)
    requires AtStart(s0) && (StartIsOk(s0); Rpc.Runs(h, s0, steps, s)) && s.server.Replying?
    ensures Rpc.Ok(s) && s.log != []
    ensures var n := |s.log| - 1;
      IsOutcome(s.log[n], h(StateAfter(h, s0.state, s.log[..n]), s.log[n].client, s.log[n].request))
    ensures s.server.answers == s.log[|s.log| - 1].answers && s.server.returns_ == s.log[|s.log| - 1].returns_
  {
    StartIsOk(s0);
    RunsKeepOk(h, s0.state, s0, steps, s);
  }

  /**
   In every run, once the first reply to a request to open has gone out, the server can return to
   receive if and only if the file was opened; unless the table was full and the file was there, when
   the code goes on with an uninitialised pointer.
   */
  lemma ServerReturnsIffOpened(w: World, s0: System<Service>, steps: seq<Step>, s: System<Service>)
    requires AtStart(s0) && (StartIsOk(s0); Rpc.Runs(Serve(w), s0, steps, s))
    requires s.server.Replying? && s.server.done == 1 && s.log != [] && s.log[|s.log| - 1].request.kind == FSREQ_OPEN
    ensures Rpc.Ok(s)
    ensures var e := s.log[|s.log| - 1];
      var before := StateAfter(Serve(w), s0.state, s.log[..|s.log| - 1]);
      !Undefined(w, before, e.request) ==> (ListensAgain(Serve(w), s) <==> Opened(w, before, e.request))
  {
    LastOutcome(Serve(w), s0, steps, s);
    var e := s.log[|s.log| - 1];
    var before := StateAfter(Serve(w), s0.state, s.log[..|s.log| - 1]);
    ReturnsToReceiveIffOneReply(Serve(w), s);
    if !Undefined(w, before, e.request) {
      AnswersOnceIffOpened(w, before, e.request);
    }
  }

  /** And whenever the file was not there, whatever the table was, the server never receives again. */
  lemma MissingFileStopsServer(w: World, s0: System<Service>, steps: seq<Step>, s: System<Service>)
    requires AtStart(s0) && (StartIsOk(s0); Rpc.Runs(Serve(w), s0, steps, s))
    requires s.server.Replying? && s.server.done == 1 && s.log != [] && s.log[|s.log| - 1].request.kind == FSREQ_OPEN
    requires var e := s.log[|s.log| - 1];
      !Files.Open(StateAfter(Serve(w), s0.state, s.log[..|s.log| - 1]).disk, PathOf(e.request)).Good?
    ensures Rpc.Ok(s) && !ListensAgain(Serve(w), s)
  {
    ServerReturnsIffOpened(w, s0, steps, s);
  }
}
