/**
 The file-server protocol over the kernel's mailboxes: any number of clients that send a
 request and then receive, one server that receives and then replies, both spinning while the
 other's mailbox is closed, interleaved in any order.  A request's arguments stay in the
 client's buffer page, which the server reads when it handles the request.
 */
module Rpc {
  import opened Options
  import opened EnvTable

  const SERVER: nat := 1      // slot of the file server, `ipc_envs[1]`
  const REQVA: nat := 0x0FFF_F000
  const FSIPC_PERM: nat := 0x43  // PTE_V | ATTRIB_AP_RW_ALL
  const FSIPCBUF: nat := 0x40_0000  // any non-zero address of the client's buffer page

  datatype Request = Request(kind: nat, args: seq<nat>)

  /** Where a client is: between calls, in the retry loop of `ipc_send`, about to receive, or in `ipc_recv`. */
  datatype ClientPc = Idle | Sending | Opening | Waiting

  /**
   Where the server is: about to receive, in `ipc_recv`, or with answer `done` of a handler next to send,
   after the last of which the handler returns or, for a fault or a panic, does not.
   */
  datatype ServerPc = Listening | Blocked | Replying(client: nat, answers: seq<nat>, done: nat, returns_: bool)

  /** One handled request. */
  datatype Entry = Entry(client: nat, request: Request, answers: seq<nat>, returns_: bool)

  /**
   A handler: from the server's state, the client and its request, to the new state, the replies it
   sends, and whether it returns after them.
   */
  type Handler<!S> = (S, nat, Request) -> (S, seq<nat>, bool)

  /**
   A client: where it is, the request in its `fsipcbuf` page, and, as history, everything it has
   asked and every reply it has consumed.
   */
  datatype Client = Client(pc: ClientPc, asked: Request, sent: seq<Request>, consumed: seq<nat>)

  /** `log` is the history of what the server has handled. */
  datatype System<S> = System(
    envs: seq<Env>, clients: map<nat, Client>, server: ServerPc, state: S, log: seq<Entry>)

  datatype Step =
    | Begin(client: nat, request: Request)
    | TrySend(client: nat)
    | OpenBox(client: nat)
    | Consume(client: nat)
    | ServerOpen
    | ServerTake
    | ServerReply

  /** The slots are live and their identifiers resolve to them, so sends by identifier reach them. */
  ghost predicate Wired<S>(s: System<S>) {
    && |s.envs| == NENV && SERVER !in s.clients
    && (forall c :: c in s.clients ==> c < NENV && s.envs[c].id % NENV == c && s.envs[c].id != 0)
    && s.envs[SERVER].id % NENV == SERVER
  }

  ghost predicate Enabled<S>(s: System<S>, step: Step)
    requires Wired(s)
  {
    match step
    case Begin(c, _) => c in s.clients && s.clients[c].pc == Idle
    case TrySend(c) => c in s.clients && s.clients[c].pc == Sending
    case OpenBox(c) => c in s.clients && s.clients[c].pc == Opening
    case Consume(c) => c in s.clients && s.clients[c].pc == Waiting && !s.envs[c].ipcRecving
    case ServerOpen => s.server == Listening
    case ServerTake => s.server == Blocked && !s.envs[SERVER].ipcRecving && s.envs[SERVER].ipcFrom % NENV in s.clients
    case ServerReply => s.server.Replying? && s.server.client in s.clients && s.server.done <= |s.server.answers|
  }

  // ---- client steps ----

  ghost function AfterBegin<S>(s: System<S>, c: nat, r: Request): System<S>
    requires Wired(s) && Enabled(s, Begin(c, r))
  {
    var k := s.clients[c];
    s.(clients := s.clients[c := k.(pc := Sending, asked := r, sent := k.sent + [r])])
  }

  /** One try of `ipc_send` to the server: delivered if its mailbox is open, else yield and stay. */
  ghost function AfterSend<S>(s: System<S>, c: nat): System<S>
    requires Wired(s) && Enabled(s, TrySend(c))
  {
    if !s.envs[SERVER].ipcRecving then s
    else
      var k := s.clients[c];
      s.(envs := s.envs[SERVER := Delivered(s.envs[SERVER], s.envs[c].id, k.asked.kind, FSIPCBUF, FSIPC_PERM)],
         clients := s.clients[c := k.(pc := Opening)])
  }

  ghost function AfterOpen<S>(s: System<S>, c: nat): System<S>
    requires Wired(s) && Enabled(s, OpenBox(c))
  {
    s.(envs := s.envs[c := Opened(s.envs[c], 0)], clients := s.clients[c := s.clients[c].(pc := Waiting)])
  }

  ghost function AfterConsume<S>(s: System<S>, c: nat): System<S>
    requires Wired(s) && Enabled(s, Consume(c))
  {
    var k := s.clients[c];
    s.(clients := s.clients[c := k.(pc := Idle, consumed := k.consumed + [s.envs[c].ipcValue])])
  }

  // ---- server steps ----

  ghost function AfterListen<S>(s: System<S>): System<S>
    requires Wired(s) && Enabled(s, ServerOpen)
  {
    s.(envs := s.envs[SERVER := Opened(s.envs[SERVER], REQVA)], server := Blocked)
  }

  /** The request the server finds: the code in its mailbox, the arguments in the sender's page. */
  ghost function Taken<S>(s: System<S>): Entry
    requires Wired(s) && Enabled(s, ServerTake)
  {
    var c := s.envs[SERVER].ipcFrom % NENV;
    Entry(c, Request(s.envs[SERVER].ipcValue, s.clients[c].asked.args), [], true)
  }

  ghost function AfterTake<S>(h: Handler<S>, s: System<S>): System<S>
    requires Wired(s) && Enabled(s, ServerTake)
  {
    var e := Taken(s);
    var (state, answers, returns_) := h(s.state, e.client, e.request);
    s.(state := state, log := s.log + [e.(answers := answers, returns_ := returns_)],
       server := Replying(e.client, answers, 0, returns_))
  }

  /** One try of `ipc_send` to the client; when no reply is left the server goes back to receive, if it can. */
  ghost function AfterReply<S>(s: System<S>): System<S>
    requires Wired(s) && Enabled(s, ServerReply)
  {
    var c, answers, done := s.server.client, s.server.answers, s.server.done;
    if done == |answers| then if s.server.returns_ then s.(server := Listening) else s
    else if !s.envs[c].ipcRecving then s
    else
      s.(envs := s.envs[c := Delivered(s.envs[c], s.envs[SERVER].id, answers[done], 0, 0)],
         server := s.server.(done := done + 1))
  }

  ghost function Next<S>(h: Handler<S>, s: System<S>, step: Step): System<S>
    requires Wired(s) && Enabled(s, step)
  {
    match step
    case Begin(c, r) => AfterBegin(s, c, r)
    case TrySend(c) => AfterSend(s, c)
    case OpenBox(c) => AfterOpen(s, c)
    case Consume(c) => AfterConsume(s, c)
    case ServerOpen => AfterListen(s)
    case ServerTake => AfterTake(h, s)
    case ServerReply => AfterReply(s)
  }

  // ---- the invariant ----

  /** The entries of the log that are about client `c`. */
  ghost function About(log: seq<Entry>, c: nat): seq<Entry> {
    if log == [] then []
    else
      var last := log[|log| - 1];
      About(log[..|log| - 1], c) + if last.client == c then [last] else []
  }

  lemma AboutAppend(log: seq<Entry>, e: Entry, c: nat)
    ensures About(log + [e], c) == About(log, c) + if e.client == c then [e] else []
  {
    assert (log + [e])[..|log|] == log;
  }

  /** The replies `c` has consumed answer its requests in order. */
  ghost predicate Matched(mine: seq<Entry>, sent: seq<Request>, consumed: seq<nat>) {
    && |consumed| <= |mine| <= |sent|
    && (forall k :: 0 <= k < |mine| ==> mine[k].request == sent[k])
    && (forall k :: 0 <= k < |consumed| ==> mine[k].answers != [] && consumed[k] == mine[k].answers[0])
  }

  /**
   Everything about the system that concerns one client.  `boxed` is the code of its request if
   that lies unhandled in the server's mailbox, `due` the replies to it of which none is sent yet.
   */
  datatype View = View(client: Client, open: bool, value: nat, mine: seq<Entry>, boxed: Option<nat>,
                       due: Option<seq<nat>>)

  ghost function ViewOf<S>(s: System<S>, c: nat): View
    requires Wired(s) && c in s.clients
  {
    View(
      s.clients[c], s.envs[c].ipcRecving, s.envs[c].ipcValue, About(s.log, c),
      if s.server == Blocked && !s.envs[SERVER].ipcRecving && s.envs[SERVER].ipcFrom % NENV == c then
        Some(s.envs[SERVER].ipcValue)
      else None,
      if s.server.Replying? && s.server.client == c && s.server.done == 0 && s.server.answers != [] then
        Some(s.server.answers)
      else None)
  }

  /** The last request is in the server's mailbox, or handled with no reply sent yet. */
  ghost predicate Unanswered(v: View) {
    var n := |v.client.consumed|;
    || (|v.mine| == n && v.boxed == Some(v.client.asked.kind) && v.due == None)
    || (|v.mine| == n + 1 && v.boxed == None &&
        (if v.mine[n].answers == [] then v.due == None else v.due == Some(v.mine[n].answers)))
  }

  ghost predicate Quiet(v: View) {
    !v.open && v.boxed == None && v.due == None
  }

  /** The client's arguments are still what it last asked. */
  ghost predicate Asking(v: View) {
    |v.client.sent| == |v.client.consumed| + 1 && v.client.sent[|v.client.consumed|] == v.client.asked
  }

  ghost predicate ClientOk(v: View) {
    var n := |v.client.consumed|;
    && Matched(v.mine, v.client.sent, v.client.consumed)
    && match v.client.pc
       case Idle => |v.client.sent| == |v.mine| == n && Quiet(v)
       case Sending => |v.mine| == n && Asking(v) && Quiet(v)
       case Opening => Asking(v) && !v.open && Unanswered(v)
       case Waiting =>
         Asking(v) &&
         if v.open then Unanswered(v)
         else |v.mine| == n + 1 && v.mine[n].answers != [] && v.value == v.mine[n].answers[0] && Quiet(v)
  }

  /** While a handler's replies are going out, its entry is the last of the log. */
  ghost predicate ServerOk<S>(s: System<S>)
    requires Wired(s)
  {
    && (s.server != Blocked ==> !s.envs[SERVER].ipcRecving)
    && (s.server == Blocked && !s.envs[SERVER].ipcRecving ==> s.envs[SERVER].ipcFrom % NENV in s.clients)
    && match s.server
       case Replying(c, answers, done, returns_) =>
         && c in s.clients && done <= |answers|
         && s.log != [] && s.log[|s.log| - 1].client == c
         && s.log[|s.log| - 1].answers == answers && s.log[|s.log| - 1].returns_ == returns_
         && (done > 0 ==> s.clients[c].pc != Opening && !s.envs[c].ipcRecving)
       case _ => true
  }

  ghost predicate Ok<S>(s: System<S>) {
    Wired(s) && ServerOk(s) && forall c :: c in s.clients ==> ClientOk(ViewOf(s, c))
  }

  // ---- every step keeps it ----

  /** Every client but `c` sees the same system. */
  ghost predicate OthersUnmoved<S>(s: System<S>, s': System<S>, c: nat)
    requires Wired(s) && Wired(s')
  {
    s'.clients.Keys == s.clients.Keys && forall x :: x in s.clients && x != c ==> ViewOf(s', x) == ViewOf(s, x)
  }

  lemma OthersStayOk<S>(s: System<S>, s': System<S>, c: nat)
    requires Ok(s) && Wired(s') && OthersUnmoved(s, s', c) && ServerOk(s')
    requires c in s.clients ==> ClientOk(ViewOf(s', c))
    ensures Ok(s')
  {
  }

  // The effect of each step on the view of the client that takes it.

  lemma BeginView(v: View, r: Request)
    requires ClientOk(v) && v.client.pc == Idle
    ensures ClientOk(v.(client := v.client.(pc := Sending, asked := r, sent := v.client.sent + [r])))
  {
  }

  lemma SendView(v: View)
    requires ClientOk(v) && v.client.pc == Sending
    ensures ClientOk(v.(client := v.client.(pc := Opening), boxed := Some(v.client.asked.kind)))
  {
  }

  lemma OpenView(v: View)
    requires ClientOk(v) && v.client.pc == Opening
    ensures ClientOk(v.(client := v.client.(pc := Waiting), open := true))
  {
  }

  lemma ConsumeView(v: View)
    requires ClientOk(v) && v.client.pc == Waiting && !v.open
    ensures ClientOk(v.(client := v.client.(pc := Idle, consumed := v.client.consumed + [v.value])))
  {
  }

  lemma TakeView(v: View, e: Entry)
    requires ClientOk(v) && v.boxed.Some? && e.request == Request(v.boxed.value, v.client.asked.args)
    ensures ClientOk(v.(mine := v.mine + [e], boxed := None, due := if e.answers != [] then Some(e.answers) else None))
  {
  }

  lemma ReplyView(v: View)
    requires ClientOk(v) && v.open && v.due.Some? && v.due.value != []
    ensures v.client.pc == Waiting && ClientOk(v.(open := false, value := v.due.value[0], due := None))
  {
  }

  lemma BeginMoves<S>(s: System<S>, c: nat, r: Request)
    requires Wired(s) && Enabled(s, Begin(c, r))
    ensures var s' := AfterBegin(s, c, r);
      && Wired(s') && OthersUnmoved(s, s', c) && (ServerOk(s) ==> ServerOk(s'))
      && ViewOf(s', c) == var v := ViewOf(s, c);
           v.(client := v.client.(pc := Sending, asked := r, sent := v.client.sent + [r]))
  {
  }

  lemma SendMoves<S>(s: System<S>, c: nat)
    requires Wired(s) && Enabled(s, TrySend(c)) && ServerOk(s) && s.envs[SERVER].ipcRecving
    ensures var s' := AfterSend(s, c);
      && Wired(s') && OthersUnmoved(s, s', c) && ServerOk(s')
      && ViewOf(s', c) == var v := ViewOf(s, c);
           v.(client := v.client.(pc := Opening), boxed := Some(v.client.asked.kind))
  {
  }

  lemma OpenKeepsOthers<S>(s: System<S>, c: nat)
    requires Wired(s) && Enabled(s, OpenBox(c))
    ensures Wired(AfterOpen(s, c)) && OthersUnmoved(s, AfterOpen(s, c), c)
  {
  }

  lemma OpenMoves<S>(s: System<S>, c: nat)
    requires Wired(s) && Enabled(s, OpenBox(c)) && ServerOk(s)
    ensures var s' := AfterOpen(s, c);
      && Wired(s') && OthersUnmoved(s, s', c) && ServerOk(s')
      && ViewOf(s', c) == var v := ViewOf(s, c); v.(client := v.client.(pc := Waiting), open := true)
  {
    OpenKeepsOthers(s, c);
  }

  lemma ConsumeMoves<S>(s: System<S>, c: nat)
    requires Wired(s) && Enabled(s, Consume(c)) && ServerOk(s)
    ensures var s' := AfterConsume(s, c);
      && Wired(s') && OthersUnmoved(s, s', c) && ServerOk(s')
      && ViewOf(s', c) == var v := ViewOf(s, c);
           v.(client := v.client.(pc := Idle, consumed := v.client.consumed + [v.value]))
  {
  }

  lemma BeginKeeps<S>(s: System<S>, c: nat, r: Request)
    requires Ok(s) && Enabled(s, Begin(c, r))
    ensures Ok(AfterBegin(s, c, r))
  {
    BeginMoves(s, c, r);
    BeginView(ViewOf(s, c), r);
    OthersStayOk(s, AfterBegin(s, c, r), c);
  }

  lemma SendKeeps<S>(s: System<S>, c: nat)
    requires Ok(s) && Enabled(s, TrySend(c))
    ensures Ok(AfterSend(s, c))
  {
    if s.envs[SERVER].ipcRecving {
      SendMoves(s, c);
      SendView(ViewOf(s, c));
      OthersStayOk(s, AfterSend(s, c), c);
    }
  }

  lemma OpenKeeps<S>(s: System<S>, c: nat)
    requires Ok(s) && Enabled(s, OpenBox(c))
    ensures Ok(AfterOpen(s, c))
  {
    OpenMoves(s, c);
    OpenView(ViewOf(s, c));
    OthersStayOk(s, AfterOpen(s, c), c);
  }

  lemma ConsumeKeeps<S>(s: System<S>, c: nat)
    requires Ok(s) && Enabled(s, Consume(c))
    ensures Ok(AfterConsume(s, c))
  {
    ConsumeMoves(s, c);
    ConsumeView(ViewOf(s, c));
    OthersStayOk(s, AfterConsume(s, c), c);
  }

  lemma ListenKeeps<S>(s: System<S>)
    requires Ok(s) && Enabled(s, ServerOpen)
    ensures Ok(AfterListen(s))
  {
    OthersStayOk(s, AfterListen(s), SERVER);
  }

  lemma TakeKeeps<S>(h: Handler<S>, s: System<S>)
    requires Ok(s) && Enabled(s, ServerTake)
    ensures Ok(AfterTake(h, s))
  {
    var s', c := AfterTake(h, s), Taken(s).client;
    var e := s'.log[|s.log|];
    var v := ViewOf(s, c);
    AboutAppend(s.log, e, c);
    TakeView(v, e);
    assert ViewOf(s', c) == v.(mine := v.mine + [e], boxed := None,
                               due := if e.answers != [] then Some(e.answers) else None);
    forall x | x in s.clients && x != c
      ensures ViewOf(s', x) == ViewOf(s, x)
    {
      AboutAppend(s.log, e, x);
    }
    OthersStayOk(s, s', c);
  }

  /** A reply that goes out is the first one: the client's mailbox is open for no other. */
  lemma DeliveredReplyIsFirst<S>(s: System<S>)
    requires Ok(s) && Enabled(s, ServerReply) && s.server.done < |s.server.answers| &&
      s.envs[s.server.client].ipcRecving
    ensures s.server.done == 0 && ViewOf(s, s.server.client).due == Some(s.server.answers)
  {
  }

  lemma ReplyMoves<S>(s: System<S>)
    requires Wired(s) && Enabled(s, ServerReply) && ServerOk(s)
    requires s.server.done < |s.server.answers| && s.envs[s.server.client].ipcRecving &&
      s.clients[s.server.client].pc == Waiting
    ensures var s', c := AfterReply(s), s.server.client;
      && Wired(s') && OthersUnmoved(s, s', c) && ServerOk(s')
      && ViewOf(s', c) == ViewOf(s, c).(open := false, value := s.server.answers[s.server.done], due := None)
  {
  }

  lemma ListenAgainMoves<S>(s: System<S>)
    requires Wired(s) && Enabled(s, ServerReply) && ServerOk(s) && s.server.done == |s.server.answers|
    ensures var s', c := AfterReply(s), s.server.client;
      && Wired(s') && OthersUnmoved(s, s', c) && ServerOk(s') && ViewOf(s', c) == ViewOf(s, c)
  {
  }

  lemma ReplyKeeps<S>(s: System<S>)
    requires Ok(s) && Enabled(s, ServerReply)
    ensures Ok(AfterReply(s))
  {
    var c := s.server.client;
    if s.server.done == |s.server.answers| {
      ListenAgainMoves(s);
      OthersStayOk(s, AfterReply(s), c);
    } else if s.envs[c].ipcRecving {
      DeliveredReplyIsFirst(s);
      ReplyView(ViewOf(s, c));
      ReplyMoves(s);
      OthersStayOk(s, AfterReply(s), c);
    }
  }

  // ---- runs ----

  ghost predicate AtStart<S>(s: System<S>) {
    && Wired(s) && s.server == Listening && s.log == [] && !s.envs[SERVER].ipcRecving
    && (forall c :: c in s.clients ==>
          s.clients[c].pc == Idle && s.clients[c].sent == [] && s.clients[c].consumed == [] && !s.envs[c].ipcRecving)
  }

  lemma StartIsOk<S>(s: System<S>)
    requires AtStart(s)
    ensures Ok(s)
  {
  }

  lemma StepKeepsOk<S>(h: Handler<S>, s: System<S>, step: Step)
    requires Ok(s) && Enabled(s, step)
    ensures Ok(Next(h, s, step))
  {
    match step
    case Begin(c, r) => BeginKeeps(s, c, r);
    case TrySend(c) => SendKeeps(s, c);
    case OpenBox(c) => OpenKeeps(s, c);
    case Consume(c) => ConsumeKeeps(s, c);
    case ServerOpen => ListenKeeps(s);
    case ServerTake => TakeKeeps(h, s);
    case ServerReply => ReplyKeeps(s);
  }

  /** `s'` is reached from `s` by interleaving the steps in this order. */
  ghost predicate Runs<S(!new)>(h: Handler<S>, s: System<S>, steps: seq<Step>, s': System<S>)
    requires Ok(s)
    decreases |steps|
  {
    if steps == [] then s' == s
    else Enabled(s, steps[0]) && (StepKeepsOk(h, s, steps[0]); Runs(h, Next(h, s, steps[0]), steps[1..], s'))
  }

  /** The server's state after handling `log`, in order, from `s0`. */
  ghost function StateAfter<S>(h: Handler<S>, s0: S, log: seq<Entry>): S {
    if log == [] then s0
    else
      var e := log[|log| - 1];
      h(StateAfter(h, s0, log[..|log| - 1]), e.client, e.request).0
  }

  predicate IsOutcome<S>(e: Entry, outcome: (S, seq<nat>, bool)) {
    e.answers == outcome.1 && e.returns_ == outcome.2
  }

  /** Every entry's answers are what the handler gives in the state its predecessors left. */
  ghost predicate Genuine<S>(h: Handler<S>, s0: S, log: seq<Entry>) {
    forall i :: 0 <= i < |log| ==> IsOutcome(log[i], h(StateAfter(h, s0, log[..i]), log[i].client, log[i].request))
  }

  lemma StepKeepsGenuine<S>(h: Handler<S>, s0: S, s: System<S>, step: Step)
    requires Wired(s) && Enabled(s, step) && Genuine(h, s0, s.log) && s.state == StateAfter(h, s0, s.log)
    ensures var s' := Next(h, s, step); Genuine(h, s0, s'.log) && s'.state == StateAfter(h, s0, s'.log)
  {
    if step.ServerTake? {
      var s' := AfterTake(h, s);
      assert s'.log[..|s.log|] == s.log;
      assert forall i :: 0 <= i < |s.log| ==> s'.log[..i] == s.log[..i] && s'.log[i] == s.log[i];
    }
  }

  lemma {:induction false} RunsKeepOk<S(!new)>(h: Handler<S>, s0: S, s: System<S>, steps: seq<Step>, s': System<S>)
    requires Ok(s) && Runs(h, s, steps, s') && Genuine(h, s0, s.log) && s.state == StateAfter(h, s0, s.log)
    ensures Ok(s') && Genuine(h, s0, s'.log) && s'.state == StateAfter(h, s0, s'.log)
    decreases |steps|
  {
    if steps != [] {
      StepKeepsOk(h, s, steps[0]);
      StepKeepsGenuine(h, s0, s, steps[0]);
      RunsKeepOk(h, s0, Next(h, s, steps[0]), steps[1..], s');
    }
  }

  lemma {:induction false} AboutIsInLog(log: seq<Entry>, c: nat, k: nat) returns (i: nat)
    requires k < |About(log, c)|
    ensures i < |log| && log[i] == About(log, c)[k] && log[i].client == c
  {
    var rest := log[..|log| - 1];
    if k < |About(rest, c)| {
      i := AboutIsInLog(rest, c, k);
    } else {
      i := |log| - 1;
    }
  }

  /**
   Request and reply pairing over every interleaving: the k-th reply a client consumes is the first
   answer the handler gave to that client's k-th request, at a point where everything handled
   before is in the server's state; no client consumes a reply to another's request.
   */
  lemma ReplyMatching<S(!new)>(h: Handler<S>, s: System<S>, steps: seq<Step>, s': System<S>, c: nat, k: nat)
    returns (i: nat)
    requires AtStart(s) && (StartIsOk(s); Runs(h, s, steps, s'))
    requires c in s'.clients && k < |s'.clients[c].consumed|
    ensures Ok(s') && i < |s'.log| && s'.log[i].client == c && s'.log[i] == About(s'.log, c)[k]
    ensures k < |s'.clients[c].sent|
    ensures var answers := h(StateAfter(h, s.state, s'.log[..i]), c, s'.clients[c].sent[k]).1;
      answers != [] && s'.clients[c].consumed[k] == answers[0]
  {
    StartIsOk(s);
    RunsKeepOk(h, s.state, s, steps, s');
    assert ClientOk(ViewOf(s', c));
    i := AboutIsInLog(s'.log, c, k);
  }

  // ---- handlers that answer more than once or do not return ----

  /** The server has sent one reply and has another to send, or will not return. */
  ghost predicate Stuck<S>(s: System<S>) {
    s.server.Replying? &&
    (1 <= s.server.done < |s.server.answers| || (s.server.done == |s.server.answers| && !s.server.returns_))
  }

  lemma StuckStep<S>(h: Handler<S>, s: System<S>, step: Step)
    requires Ok(s) && Enabled(s, step) && Stuck(s)
    ensures Next(h, s, step).server == s.server && Next(h, s, step).log == s.log
  {
  }

  /** A second reply is never delivered: the server spins on it for ever and handles nothing more. */
  lemma {:induction false} StuckForever<S(!new)>(h: Handler<S>, s: System<S>, steps: seq<Step>, s': System<S>)
    requires Ok(s) && Runs(h, s, steps, s') && Stuck(s)
    ensures s'.server == s.server && s'.log == s.log
    decreases |steps|
  {
    if steps != [] {
      StepKeepsOk(h, s, steps[0]);
      StuckStep(h, s, steps[0]);
      StuckForever(h, Next(h, s, steps[0]), steps[1..], s');
    }
  }

  ghost predicate ListensAgain<S(!new)>(h: Handler<S>, s: System<S>)
    requires Ok(s)
  {
    exists steps: seq<Step>, s': System<S> :: Runs(h, s, steps, s') && s'.server == Listening
  }

  /**
   After the first reply has gone out, the server returns to receive if and only if that was the only
   one and the handler returns.
   */
  lemma ReturnsToReceiveIffOneReply<S(!new)>(h: Handler<S>, s: System<S>)
    requires Ok(s) && s.server.Replying? && s.server.done == 1
    ensures ListensAgain(h, s) <==> |s.server.answers| == 1 && s.server.returns_
  {
    if |s.server.answers| == 1 && s.server.returns_ {
      var s' := AfterReply(s);
      assert Next(h, s, ServerReply) == s';
      StepKeepsOk(h, s, ServerReply);
      assert Runs(h, s', [], s');
      assert [ServerReply][1..] == [];
      var steps := [ServerReply];
      assert Runs(h, s, steps, s') && s'.server == Listening;
    } else {
      forall steps, s' | Runs(h, s, steps, s')
        ensures s'.server != Listening
      {
        StuckForever(h, s, steps, s');
      }
    }
  }

  // ---- the steps are the kernel's ----

  /** The slots of the clients and the server are in use. */
  ghost predicate AllLive<S>(s: System<S>)
    requires Wired(s)
  {
    s.envs[SERVER].status != ENV_FREE && forall c :: c in s.clients ==> s.envs[c].status != ENV_FREE
  }

  /**
   Each step does to the environments what the system call behind it does: `sys_ipc_can_send` and
   `sys_ipc_recv`, before it yields, made by the environment that takes the step.
   */
  lemma StepIsSystemCall<S>(h: Handler<S>, s: System<S>, step: Step, t: EnvState)
    requires Wired(s) && AllLive(s) && Enabled(s, step) && t.envs == s.envs
    ensures var s' := Next(h, s, step);
      match step
      case Begin(_, _) => s'.envs == t.envs
      case TrySend(c) =>
        (t.cur == Some(c) ==>
           && s'.envs == IpcCanSend(t, s.envs[SERVER].id, s.clients[c].asked.kind, FSIPCBUF, FSIPC_PERM).envs
           && (s'.clients[c].pc == Opening <==> CanSendTo(t, s.envs[SERVER].id) == Sent))
      case OpenBox(c) => (t.cur == Some(c) ==> s'.envs == RecvOpened(t, 0).envs)
      case Consume(_) => s'.envs == t.envs
      case ServerOpen => (t.cur == Some(SERVER) ==> s'.envs == RecvOpened(t, REQVA).envs)
      case ServerTake => s'.envs == t.envs
      case ServerReply =>
        (t.cur == Some(SERVER) && s.server.done < |s.server.answers| ==>
           && s'.envs == IpcCanSend(t, s.envs[s.server.client].id, s.server.answers[s.server.done], 0, 0).envs
           && (s'.server != s.server <==> CanSendTo(t, s.envs[s.server.client].id) == Sent))
  {
  }
}
