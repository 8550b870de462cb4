/** The connection servers as interleaved steps: workers that poll one shared shutdown
    channel and accept connections, and a task for every connection.

    The asynchronous server is the case of one worker that is bound from the start, with or
    without TLS; the fiber server has any number of workers, each of which binds first. */
module Server {
  import opened Bytes
  import opened Sessions

  datatype Config = Config(fiber: bool, tls: bool, websocket: bool, workers: nat)

  predicate ValidConfig(cfg: Config) {
    if cfg.fiber then !cfg.tls else cfg.workers == 1
  }

  function SessionKind(cfg: Config): Kind {
    if cfg.fiber then FiberNative else if cfg.websocket then Websocket else Native
  }

  // ---------------------------------------------------------------- one connection

  datatype Cause = TlsFailed | Rejected | TimeoutsNotSet | HandshakeFailed | CloseFrameNotSent | TaskPanicked

  datatype Pc = Spawned | Admitted | Accepted | Talking | Leaving | Finished | Closed | Dead(cause: Cause)

  datatype Conn = Conn(pc: Pc, session: Session)

  /** The callbacks, and what the workers do. */
  datatype Note =
    | Accept(id: nat, ok: bool)
    | Message(id: nat, ok: bool, left: nat)
    | Close(id: nat, ok: bool)
    | Spawn(id: nat, worker: nat)
    | ShutDown(worker: nat)

  datatype ConnAct =
    | TlsHandshake(ok: bool)
    | AcceptCallback(ok: bool)
    | SetTimeouts(ok: bool)
    | WsHandshake(ok: bool)
    | Round(e: Event)
    | SendCloseFrame(ok: bool)
    | CloseCallback(ok: bool)

  predicate ConnEnabled(cfg: Config, c: Conn, a: ConnAct) {
    match a
    case TlsHandshake(_) => cfg.tls && c.pc == Spawned
    case AcceptCallback(_) => c.pc == if cfg.tls then Admitted else Spawned
    case SetTimeouts(_) => cfg.fiber && c.pc == Accepted
    case WsHandshake(_) => !cfg.fiber && c.pc == Accepted
    case Round(e) => c.pc == Talking && Fits(SessionKind(cfg), e)
    case SendCloseFrame(_) => c.pc == Leaving
    case CloseCallback(_) => c.pc == Finished
  }

  /** Whether a round of a session called the message callback. */
  predicate CalledBack(s: Session, s': Session) {
    |s'.acts| > |s.acts| && s'.acts[|s.acts|].Called?
  }

  function ConnNext(cfg: Config, c: Conn, a: ConnAct): Conn
    requires ConnEnabled(cfg, c, a)
  {
    match a
    case TlsHandshake(ok) => c.(pc := if ok then Admitted else Dead(TlsFailed))
    case AcceptCallback(ok) =>
      c.(pc := if !ok then Dead(Rejected) else if cfg.fiber || cfg.websocket then Accepted else Talking)
    case SetTimeouts(ok) =>
      c.(pc := if !ok then Dead(TimeoutsNotSet) else if cfg.websocket then Finished else Talking)
    case WsHandshake(ok) => c.(pc := if ok then Talking else Dead(HandshakeFailed))
    case Round(e) =>
      var s := Step(SessionKind(cfg), c.session, e);
      var pc := match s.phase
        case Open => Talking
        case Panicked => Dead(TaskPanicked)
        case Ended(_) => if SessionKind(cfg) == Websocket then Leaving else Finished;
      Conn(pc, s)
    case SendCloseFrame(ok) => c.(pc := if ok then Finished else Dead(CloseFrameNotSent))
    case CloseCallback(_) => c.(pc := Closed)
  }

  /** The note of a message callback: its result and the size it left. */
  function MessageOf(id: nat, a: Act): Note
    requires a.Called?
  {
    Message(id, a.ok, a.left.size)
  }

  function ConnNotes(cfg: Config, id: nat, c: Conn, a: ConnAct): seq<Note>
    requires ConnEnabled(cfg, c, a)
  {
    match a
    case AcceptCallback(ok) => [Accept(id, ok)]
    case CloseCallback(ok) => [Close(id, ok)]
    case Round(e) =>
      var s := Step(SessionKind(cfg), c.session, e);
      if CalledBack(c.session, s) then [MessageOf(id, s.acts[|c.session.acts|])] else []
    case _ => []
  }

  // ---------------------------------------------------------------- the whole server

  datatype Holder = Sender | Worker(w: nat)

  datatype Place = Starting | Polling | Holding | Accepting | Stopped | BindFailed

  datatype State = State(
    sent: seq<bool>,          // every message ever sent to the channel
    queue: seq<bool>,
    consumed: seq<bool>,
    lock: Option<Holder>,
    workers: seq<Place>,
    conns: map<nat, Conn>,
    trace: seq<Note>)

  datatype Action =
    | Send(b: bool)
    | SenderLocks
    | SenderUnlocks
    | Bind(w: nat, ok: bool)
    | TryLock(w: nat)
    | TryRecv(w: nat)
    | Accepts(w: nat, incoming: Option<nat>)
    | OnConn(id: nat, act: ConnAct)

  function Init(cfg: Config): State {
    State([], [], [], None, seq(cfg.workers, _ => if cfg.fiber then Starting else Polling), map[], [])
  }

  predicate Enabled(cfg: Config, s: State, a: Action) {
    match a
    case Send(_) => true
    case SenderLocks => s.lock == None
    case SenderUnlocks => s.lock == Some(Sender)
    case Bind(w, _) => w < |s.workers| && s.workers[w] == Starting
    case TryLock(w) => w < |s.workers| && s.workers[w] == Polling
    case TryRecv(w) => w < |s.workers| && s.workers[w] == Holding
    case Accepts(w, incoming) =>
      w < |s.workers| && s.workers[w] == Accepting && (incoming.Some? ==> incoming.value !in s.conns)
    case OnConn(id, act) => id in s.conns && ConnEnabled(cfg, s.conns[id], act)
  }

  function Next(cfg: Config, s: State, a: Action): State
    requires Enabled(cfg, s, a)
  {
    match a
    case Send(b) => s.(sent := s.sent + [b], queue := s.queue + [b])
    case SenderLocks => s.(lock := Some(Sender))
    case SenderUnlocks => s.(lock := None)
    case Bind(w, ok) => s.(workers := s.workers[w := if ok then Polling else BindFailed])
    case TryLock(w) =>
      if s.lock == None then s.(lock := Some(Worker(w)), workers := s.workers[w := Holding])
      else s.(workers := s.workers[w := Accepting])
    case TryRecv(w) =>
      var free := s.(lock := None);
      if s.queue == [] then free.(workers := s.workers[w := Accepting])
      else
        var taken := free.(queue := s.queue[1..], consumed := s.consumed + [s.queue[0]]);
        if s.queue[0] then taken.(workers := s.workers[w := Stopped], trace := s.trace + [ShutDown(w)])
        else taken.(workers := s.workers[w := Accepting])
    case Accepts(w, incoming) =>
      var polling := s.(workers := s.workers[w := Polling]);
      (match incoming
       case None => polling
       case Some(id) =>
         polling.(conns := s.conns[id := Conn(Spawned, Start(SessionKind(cfg)))],
                  trace := s.trace + [Spawn(id, w)]))
    case OnConn(id, act) =>
      var c := s.conns[id];
      s.(conns := s.conns[id := ConnNext(cfg, c, act)], trace := s.trace + ConnNotes(cfg, id, c, act))
  }

  /** Every state some interleaving leads to. */
  ghost predicate Reachable(cfg: Config, s: State, actions: seq<Action>)
    decreases |actions|
  {
    if actions == [] then s == Init(cfg)
    else
      var n := |actions| - 1;
      exists before :: Reachable(cfg, before, actions[..n]) && Enabled(cfg, before, actions[n]) &&
                       s == Next(cfg, before, actions[n])
  }

  // ---------------------------------------------------------------- the shutdown channel

  function Trues(s: seq<bool>): nat {
    if s == [] then 0 else Trues(s[..|s| - 1]) + (if s[|s| - 1] then 1 else 0)
  }

  function StoppedCount(workers: seq<Place>): nat {
    if workers == [] then 0
    else StoppedCount(workers[..|workers| - 1]) + (if workers[|workers| - 1] == Stopped then 1 else 0)
  }

  lemma {:induction false} TruesAppend(a: seq<bool>, b: seq<bool>)
    ensures Trues(a + b) == Trues(a) + Trues(b)
    decreases |b|
  {
    if b == [] {
      assert a + b == a;
    } else {
      var n := |b| - 1;
      assert (a + b)[..|a| + n] == a + b[..n];
      TruesAppend(a, b[..n]);
    }
  }

  lemma {:induction false} StoppedAfterUpdate(workers: seq<Place>, w: nat, p: Place)
    requires w < |workers| && workers[w] != Stopped
    ensures StoppedCount(workers[w := p]) == StoppedCount(workers) + (if p == Stopped then 1 else 0)
  {
    var n := |workers| - 1;
    if w == n {
      assert workers[w := p][..n] == workers[..n];
    } else {
      assert workers[w := p][..n] == workers[..n][w := p];
      StoppedAfterUpdate(workers[..n], w, p);
    }
  }

  lemma {:induction false} StoppedOnlyOnce(workers: seq<Place>)
    ensures StoppedCount(workers) <= |workers|
    ensures (forall w :: 0 <= w < |workers| ==> workers[w] == Stopped) ==> StoppedCount(workers) == |workers|
  {
    if workers != [] {
      StoppedOnlyOnce(workers[..|workers| - 1]);
    }
  }

  /** No message is lost, reordered or taken twice; the lock has one holder; and every
      worker that was stopped by a signal used up one `true` of its own. */
  ghost predicate ChannelInv(s: State) {
    s.consumed + s.queue == s.sent &&
    (forall w :: 0 <= w < |s.workers| ==> (s.workers[w] == Holding <==> s.lock == Some(Worker(w)))) &&
    StoppedCount(s.workers) == Trues(s.consumed)
  }

  lemma ChannelInvKept(cfg: Config, s: State, a: Action)
    requires ChannelInv(s) && Enabled(cfg, s, a)
    ensures ChannelInv(Next(cfg, s, a)) && |Next(cfg, s, a).workers| == |s.workers|
  {
    hide ConnNext, ConnNotes, Trues, StoppedCount;
    var s' := Next(cfg, s, a);
    match a
    case Bind(w, _) => StoppedAfterUpdate(s.workers, w, s'.workers[w]);
    case TryLock(w) => StoppedAfterUpdate(s.workers, w, s'.workers[w]);
    case Accepts(w, _) => StoppedAfterUpdate(s.workers, w, s'.workers[w]);
    case TryRecv(w) => ChannelInvKeptByRecv(cfg, s, w);
    case Send(b) => assert s.consumed + (s.queue + [b]) == s.consumed + s.queue + [b];
    case _ =>
  }

  lemma ChannelInvKeptByRecv(cfg: Config, s: State, w: nat)
    requires ChannelInv(s) && Enabled(cfg, s, TryRecv(w))
    ensures ChannelInv(Next(cfg, s, TryRecv(w)))
  {
    hide StoppedCount, Trues;
    StoppedAfterUpdate(s.workers, w, Next(cfg, s, TryRecv(w)).workers[w]);
    if s.queue != [] {
      assert s.queue == [s.queue[0]] + s.queue[1..];
      TruesAppend(s.consumed, [s.queue[0]]);
      OneTrue(s.queue[0]);
    }
  }

  lemma OneTrue(b: bool)
    ensures Trues([b]) == if b then 1 else 0
  {
    assert [b][..0] == [];
  }

  lemma {:induction false} InitiallyNoneStopped(n: nat, p: Place)
    requires p != Stopped
    ensures StoppedCount(seq(n, _ => p)) == 0
  {
    if n > 0 {
      assert seq(n, _ => p)[..n - 1] == seq(n - 1, _ => p);
      InitiallyNoneStopped(n - 1, p);
    }
  }

  lemma {:induction false} ChannelIsConserved(cfg: Config, s: State, actions: seq<Action>)
    requires Reachable(cfg, s, actions)
    ensures ChannelInv(s) && |s.workers| == cfg.workers
    decreases |actions|
  {
    if actions == [] {
      InitiallyNoneStopped(cfg.workers, if cfg.fiber then Starting else Polling);
      assert s.workers == seq(cfg.workers, _ => if cfg.fiber then Starting else Polling);
    } else {
      var n := |actions| - 1;
      var before :| Reachable(cfg, before, actions[..n]) && Enabled(cfg, before, actions[n]) &&
                    s == Next(cfg, before, actions[n]);
      ChannelIsConserved(cfg, before, actions[..n]);
      ChannelInvKept(cfg, before, actions[n]);
    }
  }

  /** In every interleaving: sent messages are consumed in order, `k` signals stop at most
      `k` workers, and stopping all of them this way takes a signal for each. */
  lemma ShutdownTakesOneSignalEach(cfg: Config, s: State, actions: seq<Action>)
    requires Reachable(cfg, s, actions)
    ensures s.consumed <= s.sent && |s.sent| == |s.queue| + |s.consumed|
    ensures StoppedCount(s.workers) == Trues(s.consumed) <= Trues(s.sent)
    ensures (forall w :: 0 <= w < |s.workers| ==> s.workers[w] == Stopped) ==> Trues(s.sent) >= cfg.workers
  {
    ChannelIsConserved(cfg, s, actions);
    TruesAppend(s.consumed, s.queue);
    StoppedOnlyOnce(s.workers);
  }

  /** The messages that the steps sent. */
  function SentIn(actions: seq<Action>): seq<bool> {
    if actions == [] then []
    else
      var a := actions[|actions| - 1];
      SentIn(actions[..|actions| - 1]) + (if a.Send? then [a.b] else [])
  }

  /** How many messages the steps received: each `TryRecv` takes one if there is one left. */
  function ReceivedIn(actions: seq<Action>): nat {
    if actions == [] then 0
    else
      var before := ReceivedIn(actions[..|actions| - 1]);
      if actions[|actions| - 1].TryRecv? && before < |SentIn(actions[..|actions| - 1])| then before + 1 else before
  }

  /** The channel is a queue: what was sent and received is told by the steps alone. */
  lemma {:induction false} ChannelIsAQueue(cfg: Config, s: State, actions: seq<Action>)
    requires Reachable(cfg, s, actions)
    ensures s.sent == SentIn(actions) && |s.consumed| == ReceivedIn(actions) <= |s.sent|
    ensures s.consumed == SentIn(actions)[..ReceivedIn(actions)] && s.queue == SentIn(actions)[ReceivedIn(actions)..]
    decreases |actions|
  {
    ChannelIsConserved(cfg, s, actions);
    hide ConnNext, ConnNotes, ConnEnabled, Trues, StoppedCount;
    if actions != [] {
      var n := |actions| - 1;
      var before :| Reachable(cfg, before, actions[..n]) && Enabled(cfg, before, actions[n]) &&
                    s == Next(cfg, before, actions[n]);
      ChannelIsAQueue(cfg, before, actions[..n]);
      ChannelStep(cfg, before, actions[n]);
    }
  }

  lemma ChannelStep(cfg: Config, s: State, a: Action)
    requires Enabled(cfg, s, a)
    ensures var s' := Next(cfg, s, a);
            s'.sent == s.sent + (if a.Send? then [a.b] else []) &&
            |s'.consumed| == |s.consumed| + (if a.TryRecv? && s.queue != [] then 1 else 0)
  {
    hide ConnNext, ConnNotes, ConnEnabled;
  }

  // ---------------------------------------------------------------- no task after shutdown

  ghost predicate TraceInv(s: State) {
    (forall p :: 0 <= p < |s.trace| && ByWorker(s.trace[p]) ==> s.trace[p].worker < |s.workers|) &&
    (forall p :: 0 <= p < |s.trace| && s.trace[p].ShutDown? ==> s.workers[s.trace[p].worker] == Stopped) &&
    (forall p, q :: 0 <= p < q < |s.trace| && s.trace[p].ShutDown? && ByWorker(s.trace[q]) ==>
      s.trace[q].worker != s.trace[p].worker)
  }

  predicate ByWorker(n: Note) {
    n.ShutDown? || n.Spawn?
  }

  lemma TraceInvKept(cfg: Config, s: State, a: Action)
    requires TraceInv(s) && Enabled(cfg, s, a)
    ensures TraceInv(Next(cfg, s, a))
  {
    hide ConnNext;
    match a
    case OnConn(id, act) =>
      assert forall n :: n in ConnNotes(cfg, id, s.conns[id], act) ==> !ByWorker(n);
    case TryRecv(w) => TraceInvKeptByRecv(cfg, s, w);
    case _ =>
  }

  lemma TraceInvKeptByRecv(cfg: Config, s: State, w: nat)
    requires TraceInv(s) && Enabled(cfg, s, TryRecv(w))
    ensures TraceInv(Next(cfg, s, TryRecv(w)))
  {
  }

  /** Once a worker has taken the shutdown signal it spawns no task and takes no other. */
  lemma {:induction false} NoTaskAfterShutdown(cfg: Config, s: State, actions: seq<Action>)
    requires Reachable(cfg, s, actions)
    ensures TraceInv(s)
    decreases |actions|
  {
    if actions != [] {
      var n := |actions| - 1;
      var before :| Reachable(cfg, before, actions[..n]) && Enabled(cfg, before, actions[n]) &&
                    s == Next(cfg, before, actions[n]);
      NoTaskAfterShutdown(cfg, before, actions[..n]);
      TraceInvKept(cfg, before, actions[n]);
    }
  }

  /** The asynchronous server has one worker: after its shutdown signal is taken no task is
      spawned at all. */
  lemma NoSpawnAfterShutdown(cfg: Config, s: State, actions: seq<Action>)
    requires ValidConfig(cfg) && !cfg.fiber && Reachable(cfg, s, actions)
    ensures forall p, q :: 0 <= p < q < |s.trace| && s.trace[p].ShutDown? ==> !s.trace[q].Spawn?
  {
    NoTaskAfterShutdown(cfg, s, actions);
    ChannelIsConserved(cfg, s, actions);
    assert forall p :: 0 <= p < |s.trace| && ByWorker(s.trace[p]) ==> s.trace[p].worker == 0;
  }

  // ---------------------------------------------------------------- every stream gets a task

  /** The tasks the trace says were spawned, in order. */
  function SpawnsIn(trace: seq<Note>): seq<Note> {
    if trace == [] then []
    else
      var n := trace[|trace| - 1];
      SpawnsIn(trace[..|trace| - 1]) + (if n.Spawn? then [n] else [])
  }

  lemma {:induction false} SpawnsAppend(trace: seq<Note>, notes: seq<Note>)
    requires |notes| <= 1
    ensures SpawnsIn(trace + notes) == SpawnsIn(trace) + (if notes != [] && notes[0].Spawn? then notes else [])
  {
    if notes == [] {
      assert trace + notes == trace;
    } else {
      assert (trace + notes)[..|trace|] == trace;
    }
  }

  /** A task for every stream that a worker accepted, in order. */
  function AcceptedIn(actions: seq<Action>): seq<Note> {
    if actions == [] then []
    else
      var a := actions[|actions| - 1];
      AcceptedIn(actions[..|actions| - 1]) +
      (if a.Accepts? && a.incoming.Some? then [Spawn(a.incoming.value, a.w)] else [])
  }

  /** In every interleaving: one task is spawned for each stream accepted, by the worker that
      accepted it, in that order, and for no other; and a connection exists exactly if its
      stream was accepted. */
  lemma {:induction false} EveryStreamGetsATask(cfg: Config, s: State, actions: seq<Action>)
    requires Reachable(cfg, s, actions)
    ensures SpawnsIn(s.trace) == AcceptedIn(actions)
    ensures forall id :: id in s.conns <==> Mentioned(AcceptedIn(actions), id)
    ensures AllDifferent(AcceptedIn(actions))
    decreases |actions|
  {
    hide Next, Enabled, SpawnsIn, Mentioned, AllDifferent;
    NobodyMentioned();
    if actions != [] {
      var n := |actions| - 1;
      var before :| Reachable(cfg, before, actions[..n]) && Enabled(cfg, before, actions[n]) &&
                    s == Next(cfg, before, actions[n]);
      EveryStreamGetsATask(cfg, before, actions[..n]);
      SpawnStep(cfg, before, actions[n]);
      var earlier, a := AcceptedIn(actions[..n]), actions[n];
      if a.Accepts? && a.incoming.Some? {
        MentionedSnoc(earlier, Spawn(a.incoming.value, a.w));
      } else {
        assert AcceptedIn(actions) == earlier;
      }
    }
  }

  /** Some task in the list is for `id`. */
  predicate Mentioned(spawns: seq<Note>, id: nat) {
    exists k :: 0 <= k < |spawns| && spawns[k].Spawn? && spawns[k].id == id
  }

  /** No stream is given two tasks. */
  predicate AllDifferent(spawns: seq<Note>) {
    forall i, k :: 0 <= i < k < |spawns| && spawns[i].Spawn? && spawns[k].Spawn? ==> spawns[i].id != spawns[k].id
  }

  lemma NobodyMentioned()
    ensures SpawnsIn([]) == [] && AllDifferent([]) && forall id :: !Mentioned([], id)
  {
  }

  lemma MentionedSnoc(spawns: seq<Note>, n: Note)
    requires n.Spawn?
    ensures forall id :: Mentioned(spawns + [n], id) <==> Mentioned(spawns, id) || id == n.id
    ensures AllDifferent(spawns) && !Mentioned(spawns, n.id) ==> AllDifferent(spawns + [n])
  {
    forall id
      ensures Mentioned(spawns + [n], id) <==> Mentioned(spawns, id) || id == n.id
    {
      if Mentioned(spawns, id) {
        var k :| 0 <= k < |spawns| && spawns[k].Spawn? && spawns[k].id == id;
        assert (spawns + [n])[k] == spawns[k];
      }
      assert (spawns + [n])[|spawns|] == n;
    }
  }

  lemma SpawnStep(cfg: Config, s: State, a: Action)
    requires Enabled(cfg, s, a)
    ensures var s' := Next(cfg, s, a);
            var arrives := a.Accepts? && a.incoming.Some?;
            SpawnsIn(s'.trace) == SpawnsIn(s.trace) + (if arrives then [Spawn(a.incoming.value, a.w)] else []) &&
            (forall id :: id in s'.conns <==> id in s.conns || (arrives && id == a.incoming.value)) &&
            (arrives ==>
              a.incoming.value !in s.conns && s'.conns[a.incoming.value] == Conn(Spawned, Start(SessionKind(cfg))))
  {
    hide ConnNext;
    match a
    case OnConn(id, act) =>
      var notes := ConnNotes(cfg, id, s.conns[id], act);
      assert |notes| <= 1 && (notes != [] ==> !notes[0].Spawn?);
      SpawnsAppend(s.trace, notes);
    case TryRecv(w) => SpawnsAppend(s.trace, [ShutDown(w)]);
    case Accepts(w, incoming) =>
      if incoming.Some? {
        SpawnsAppend(s.trace, [Spawn(incoming.value, w)]);
      }
    case _ =>
  }

  // ---------------------------------------------------------------- callback lifecycles

  predicate Concerns(n: Note, id: nat) {
    (n.Accept? || n.Message? || n.Close?) && n.id == id
  }

  /** The callbacks of one connection, in the order they happened. */
  function Project(trace: seq<Note>, id: nat): seq<Note> {
    if trace == [] then []
    else
      var n := trace[|trace| - 1];
      Project(trace[..|trace| - 1], id) + (if Concerns(n, id) then [n] else [])
  }

  lemma ProjectSnoc(trace: seq<Note>, n: Note, id: nat)
    ensures Project(trace + [n], id) == Project(trace, id) + (if Concerns(n, id) then [n] else [])
  {
    assert (trace + [n])[..|trace|] == trace;
  }

  /** The message callbacks of a session. */
  function Told(id: nat, acts: seq<Act>): seq<Note> {
    if acts == [] then []
    else
      var a := acts[|acts| - 1];
      Told(id, acts[..|acts| - 1]) + (if a.Called? then [MessageOf(id, a)] else [])
  }

  /** What a connection's callbacks must look like when its task has got this far. */
  ghost predicate Shape(id: nat, c: Conn, p: seq<Note>) {
    match c.pc
    case Spawned => p == []
    case Admitted => p == []
    case Dead(TlsFailed) => p == []
    case Dead(Rejected) => p == [Accept(id, false)]
    case Closed => exists ok :: p == [Accept(id, true)] + Told(id, c.session.acts) + [Close(id, ok)]
    case _ => p == [Accept(id, true)] + Told(id, c.session.acts)
  }

  ghost predicate ConnInv(cfg: Config, c: Conn) {
    Orderly(c.session) &&
    (c.pc in {Spawned, Admitted, Accepted, Dead(TimeoutsNotSet), Dead(HandshakeFailed)} ==> c.session.acts == []) &&
    (c.pc in {Spawned, Admitted, Accepted, Talking} ==> c.session.phase == Open) &&
    (c.pc.Dead? ==> Possible(cfg, c.pc.cause)) &&
    (c.pc == Dead(TaskPanicked) <==> c.session.phase == Panicked) &&
    PanicTold(SessionKind(cfg), c.session) &&
    (c.pc == Admitted ==> cfg.tls) &&
    (c.pc == Accepted ==> cfg.fiber || cfg.websocket) &&
    (c.pc == Talking ==> !(cfg.fiber && cfg.websocket)) &&
    (c.pc == Leaving ==> !cfg.fiber && cfg.websocket)
  }

  /** The ways a task can die without a close callback, by configuration. */
  predicate Possible(cfg: Config, cause: Cause) {
    match cause
    case TlsFailed => cfg.tls
    case Rejected => true
    case TimeoutsNotSet => cfg.fiber
    case HandshakeFailed => !cfg.fiber && cfg.websocket
    case CloseFrameNotSent => !cfg.fiber && cfg.websocket
    case TaskPanicked => !cfg.fiber && !cfg.websocket
  }

  ghost predicate Lifecycles(cfg: Config, s: State) {
    (forall id :: id in s.conns ==> ConnInv(cfg, s.conns[id]) && Shape(id, s.conns[id], Project(s.trace, id))) &&
    (forall id :: id !in s.conns ==> Project(s.trace, id) == [])
  }

  lemma ConnInvKept(cfg: Config, c: Conn, a: ConnAct)
    requires ValidConfig(cfg) && ConnInv(cfg, c) && ConnEnabled(cfg, c, a)
    ensures ConnInv(cfg, ConnNext(cfg, c, a))
  {
    if a.Round? {
      StepOrderly(SessionKind(cfg), c.session, a.e);
      PanicsIff(SessionKind(cfg), c.session, a.e);
      StepPanicTold(SessionKind(cfg), c.session, a.e);
    }
  }

  /** A round adds at most one callback to the session. */
  lemma ToldAfterRound(kind: Kind, id: nat, s: Session, e: Event)
    requires Fits(kind, e)
    ensures var s' := Step(kind, s, e);
            Told(id, s'.acts) == Told(id, s.acts) +
              (if CalledBack(s, s') then [MessageOf(id, s'.acts[|s.acts|])] else [])
  {
    var acts, acts' := s.acts, Step(kind, s, e).acts;
    RoundActs(kind, s, e);
    hide Step;
    if |acts'| == |acts| {
      assert acts' == acts;
    } else if |acts'| == |acts| + 1 {
    } else {
      assert acts'[..|acts| + 1][..|acts|] == acts;
    }
  }

  lemma RoundActs(kind: Kind, s: Session, e: Event)
    requires Fits(kind, e)
    ensures var acts' := Step(kind, s, e).acts;
            |s.acts| <= |acts'| <= |s.acts| + 2 && acts'[..|s.acts|] == s.acts &&
            (|acts'| == |s.acts| + 2 ==> !acts'[|s.acts| + 1].Called?)
  {
    hide ValidUtf8;
  }

  lemma ConnShapeKept(cfg: Config, id: nat, c: Conn, a: ConnAct, p: seq<Note>)
    requires ConnInv(cfg, c) && ConnEnabled(cfg, c, a) && Shape(id, c, p)
    ensures Shape(id, ConnNext(cfg, c, a), p + ConnNotes(cfg, id, c, a))
  {
    hide Orderly, PanicTold, Step;
    if a.Round? {
      ToldAfterRound(SessionKind(cfg), id, c.session, a.e);
    }
  }

  lemma LifecyclesKept(cfg: Config, s: State, a: Action)
    requires ValidConfig(cfg) && Lifecycles(cfg, s) && Enabled(cfg, s, a)
    ensures Lifecycles(cfg, Next(cfg, s, a))
  {
    hide ConnInv, Shape, Project, ConnNext, ConnNotes, ConnEnabled;
    match a
    case OnConn(id, act) => LifecyclesKeptByConn(cfg, s, id, act);
    case Accepts(w, incoming) =>
      if incoming.Some? {
        NobodysNote(s.trace, Spawn(incoming.value, w));
        FreshConn(cfg, incoming.value);
      }
    case TryRecv(w) => NobodysNote(s.trace, ShutDown(w));
    case _ =>
  }

  lemma FreshConn(cfg: Config, id: nat)
    ensures var c := Conn(Spawned, Start(SessionKind(cfg))); ConnInv(cfg, c) && Shape(id, c, [])
  {
  }

  lemma LifecyclesKeptByConn(cfg: Config, s: State, id: nat, act: ConnAct)
    requires ValidConfig(cfg) && Lifecycles(cfg, s) && Enabled(cfg, s, OnConn(id, act))
    ensures Lifecycles(cfg, Next(cfg, s, OnConn(id, act)))
  {
    hide ConnInv, Shape, Project, ConnNext, ConnNotes, ConnEnabled;
    ConnInvKept(cfg, s.conns[id], act);
    ConnShapeKept(cfg, id, s.conns[id], act, Project(s.trace, id));
    NotesOfOne(cfg, s, id, act);
    OneConnChanges(cfg, s, Next(cfg, s, OnConn(id, act)), id, ConnNext(cfg, s.conns[id], act));
  }

  lemma OneConnChanges(cfg: Config, s: State, s': State, id: nat, c: Conn)
    requires Lifecycles(cfg, s) && id in s.conns && s'.conns == s.conns[id := c]
    requires ConnInv(cfg, c) && Shape(id, c, Project(s'.trace, id))
    requires forall other :: other != id ==> Project(s'.trace, other) == Project(s.trace, other)
    ensures Lifecycles(cfg, s')
  {
    hide ConnInv, Shape, Project;
  }

  lemma NobodysNote(trace: seq<Note>, n: Note)
    requires ByWorker(n)
    ensures forall id :: Project(trace + [n], id) == Project(trace, id)
  {
    forall id
      ensures Project(trace + [n], id) == Project(trace, id)
    {
      ProjectSnoc(trace, n, id);
    }
  }

  lemma NotesOfOne(cfg: Config, s: State, id: nat, act: ConnAct)
    requires id in s.conns && ConnEnabled(cfg, s.conns[id], act)
    ensures var notes := ConnNotes(cfg, id, s.conns[id], act);
            Project(s.trace + notes, id) == Project(s.trace, id) + notes &&
            forall other :: other != id ==> Project(s.trace + notes, other) == Project(s.trace, other)
  {
    var notes := ConnNotes(cfg, id, s.conns[id], act);
    if notes == [] {
      assert s.trace + notes == s.trace;
    } else {
      assert |notes| == 1 && Concerns(notes[0], id) && notes == [notes[0]];
      forall other ensures Project(s.trace + notes, other) ==
                           Project(s.trace, other) + (if Concerns(notes[0], other) then [notes[0]] else []) {
        ProjectSnoc(s.trace, notes[0], other);
      }
    }
  }

  lemma {:induction false} LifecyclesHold(cfg: Config, s: State, actions: seq<Action>)
    requires ValidConfig(cfg) && Reachable(cfg, s, actions)
    ensures Lifecycles(cfg, s)
    decreases |actions|
  {
    if actions != [] {
      var n := |actions| - 1;
      var before :| Reachable(cfg, before, actions[..n]) && Enabled(cfg, before, actions[n]) &&
                    s == Next(cfg, before, actions[n]);
      LifecyclesHold(cfg, before, actions[..n]);
      LifecyclesKept(cfg, before, actions[n]);
    }
  }

  /** A prefix of: one accept, messages, one close; nothing follows a rejected accept, and no
      message follows a refused one. */
  ghost predicate Proper(p: seq<Note>) {
    (|p| > 0 ==> p[0].Accept?) &&
    (|p| > 0 && !p[0].ok ==> |p| == 1) &&
    (forall i :: 1 <= i < |p| ==> p[i].Message? || (p[i].Close? && i == |p| - 1)) &&
    (forall i, j :: 1 <= i < j < |p| && p[i].Message? && !p[i].ok ==> !p[j].Message?)
  }

  lemma {:induction false} ToldIsOrderly(id: nat, acts: seq<Act>)
    ensures forall i :: 0 <= i < |Told(id, acts)| ==> Told(id, acts)[i].Message?
    ensures (forall i :: 0 <= i < |acts| && acts[i].Called? ==> acts[i].ok) ==>
              forall i :: 0 <= i < |Told(id, acts)| ==> Told(id, acts)[i].Message? && Told(id, acts)[i].ok
  {
    if acts != [] {
      ToldIsOrderly(id, acts[..|acts| - 1]);
    }
  }

  lemma {:induction false} RefusalIsLast(id: nat, acts: seq<Act>, last: nat)
    requires last < |acts| && acts[last].Called?
    requires forall i :: 0 <= i < |acts| && i != last && acts[i].Called? ==> acts[i].ok && i < last
    ensures var t := Told(id, acts);
            |t| > 0 && forall i :: 0 <= i < |t| - 1 ==> t[i].Message? && t[i].ok
  {
    var n := |acts| - 1;
    ToldIsOrderly(id, acts[..n]);
    if last < n {
      RefusalIsLast(id, acts[..n], last);
    }
  }

  /** Every connection, in every interleaving. */
  lemma EveryConnectionIsProper(cfg: Config, s: State, actions: seq<Action>, id: nat)
    requires ValidConfig(cfg) && Reachable(cfg, s, actions)
    ensures Proper(Project(s.trace, id))
  {
    LifecyclesHold(cfg, s, actions);
    if id in s.conns {
      ShapeIsProper(cfg, id, s.conns[id], Project(s.trace, id));
    }
  }

  lemma ShapeIsProper(cfg: Config, id: nat, c: Conn, p: seq<Note>)
    requires Orderly(c.session) && Shape(id, c, p)
    ensures Proper(p)
  {
    var acts := c.session.acts;
    ToldIsOrderly(id, acts);
    if c.session.phase == Ended(Refused) {
      var last :| 0 <= last < |acts| && acts[last].Called? && !acts[last].ok &&
        (forall i :: 0 <= i < |acts| && i != last && acts[i].Called? ==> acts[i].ok && i < last);
      RefusalIsLast(id, acts, last);
    }
  }

  // ---------------------------------------------------------------- what a task does

  /** The steps of one connection's task. */
  function TaskIn(actions: seq<Action>, id: nat): seq<ConnAct> {
    if actions == [] then []
    else
      var a := actions[|actions| - 1];
      TaskIn(actions[..|actions| - 1], id) + (if a.OnConn? && a.id == id then [a.act] else [])
  }

  /** Up to an accepted connection. */
  function Admission(cfg: Config): seq<ConnAct> {
    (if cfg.tls then [TlsHandshake(true)] else []) + [AcceptCallback(true)]
  }

  /** Up to the session. */
  function Opening(cfg: Config): seq<ConnAct> {
    Admission(cfg) + (if cfg.fiber then [SetTimeouts(true)] else if cfg.websocket then [WsHandshake(true)] else [])
  }

  function AsRounds(events: seq<Event>): seq<ConnAct> {
    seq(|events|, i requires 0 <= i < |events| => Round(events[i]))
  }

  /** Whether the task holds a session at all: a fiber server has none for WebSocket. */
  predicate HasSession(cfg: Config) {
    !(cfg.fiber && cfg.websocket)
  }

  /** The session of a task, which has run over `events`. */
  ghost predicate Held(cfg: Config, c: Conn, events: seq<Event>) {
    AllFit(SessionKind(cfg), events) && c.session == After(SessionKind(cfg), events, |events|) &&
    (!HasSession(cfg) ==> events == [])
  }

  /** What a task has done when it has got to where it is. */
  ghost predicate Done(cfg: Config, c: Conn, own: seq<ConnAct>, events: seq<Event>) {
    Held(cfg, c, events) &&
    var tls := if cfg.tls then [TlsHandshake(true)] else [];
    var talked := Opening(cfg) + AsRounds(events);
    var framed := talked + (if SessionKind(cfg) == Websocket then [SendCloseFrame(true)] else []);
    match c.pc
    case Spawned => own == [] && events == []
    case Admitted => own == [TlsHandshake(true)] && events == []
    case Accepted => own == Admission(cfg) && events == []
    case Talking => own == talked && c.session.phase == Open && HasSession(cfg)
    case Leaving => own == talked && c.session.phase.Ended? && SessionKind(cfg) == Websocket
    case Finished => own == framed && (HasSession(cfg) ==> c.session.phase.Ended?)
    case Closed => (HasSession(cfg) ==> c.session.phase.Ended?) && exists ok :: own == framed + [CloseCallback(ok)]
    case Dead(TlsFailed) => own == [TlsHandshake(false)] && events == []
    case Dead(Rejected) => own == tls + [AcceptCallback(false)] && events == []
    case Dead(TimeoutsNotSet) => own == Admission(cfg) + [SetTimeouts(false)] && events == []
    case Dead(HandshakeFailed) => own == Admission(cfg) + [WsHandshake(false)] && events == []
    case Dead(CloseFrameNotSent) => own == talked + [SendCloseFrame(false)] && c.session.phase.Ended?
    case Dead(TaskPanicked) => own == talked && c.session.phase == Panicked
  }

  lemma AfterSnoc(kind: Kind, events: seq<Event>, e: Event)
    requires AllFit(kind, events) && Fits(kind, e)
    ensures AllFit(kind, events + [e])
    ensures var s := After(kind, events, |events|);
            After(kind, events + [e], |events| + 1) == if s.phase == Open then Step(kind, s, e) else s
  {
    hide Step;
    AfterPrefix(kind, events, events + [e], |events|);
    assert (events + [e])[|events|] == e;
  }

  lemma {:induction false} AfterPrefix(kind: Kind, events: seq<Event>, more: seq<Event>, n: nat)
    requires AllFit(kind, events) && AllFit(kind, more) && events <= more && n <= |events|
    ensures After(kind, more, n) == After(kind, events, n)
  {
    if n > 0 {
      AfterPrefix(kind, events, more, n - 1);
    }
  }

  lemma TaskStep(cfg: Config, c: Conn, own: seq<ConnAct>, events: seq<Event>, a: ConnAct) returns (events': seq<Event>)
    requires ValidConfig(cfg) && ConnInv(cfg, c) && ConnEnabled(cfg, c, a) && Done(cfg, c, own, events)
    ensures Done(cfg, ConnNext(cfg, c, a), own + [a], events')
  {
    hide Orderly, PanicTold, Step, After;
    events' := events;
    if a.Round? {
      AfterSnoc(SessionKind(cfg), events, a.e);
      events' := events + [a.e];
      assert AsRounds(events') == AsRounds(events) + [a];
    } else {
      assert AsRounds([]) == [];
    }
  }

  /** In every interleaving each task has taken exactly the steps of its protocol up to where
      it is, in order: the handshakes and callbacks of the configured server, and in between
      the rounds of one session, which is the one its events lead to. */
  lemma {:induction false} TasksFollowTheProtocol(cfg: Config, s: State, actions: seq<Action>, id: nat)
    returns (events: seq<Event>)
    requires ValidConfig(cfg) && Reachable(cfg, s, actions)
    ensures id in s.conns ==> Done(cfg, s.conns[id], TaskIn(actions, id), events)
    ensures id !in s.conns ==> TaskIn(actions, id) == []
    decreases |actions|
  {
    hide Done, Next, ConnNext, ConnNotes, ConnEnabled, ConnInv, Shape, Project;
    events := [];
    if actions != [] {
      var n := |actions| - 1;
      var before :| Reachable(cfg, before, actions[..n]) && Enabled(cfg, before, actions[n]) &&
                    s == Next(cfg, before, actions[n]);
      events := TasksFollowTheProtocol(cfg, before, actions[..n], id);
      var a := actions[n];
      OneTaskMoves(cfg, before, a, id);
      if a.OnConn? && a.id == id {
        LifecyclesHold(cfg, before, actions[..n]);
        events := TaskStep(cfg, before.conns[id], TaskIn(actions[..n], id), events, a.act);
      } else {
        assert TaskIn(actions, id) == TaskIn(actions[..n], id);
        if id in s.conns && id !in before.conns {
          NewTask(cfg);
          events := [];
        }
      }
    }
  }

  lemma NewTask(cfg: Config)
    ensures Done(cfg, Conn(Spawned, Start(SessionKind(cfg))), [], [])
  {
  }

  lemma OneTaskMoves(cfg: Config, s: State, a: Action, id: nat)
    requires Enabled(cfg, s, a)
    ensures var s' := Next(cfg, s, a);
            if a.OnConn? && a.id == id
            then id in s.conns && ConnEnabled(cfg, s.conns[id], a.act) && id in s'.conns &&
                 s'.conns[id] == ConnNext(cfg, s.conns[id], a.act)
            else if id in s.conns then id in s'.conns && s'.conns[id] == s.conns[id]
            else id in s'.conns ==> s'.conns[id] == Conn(Spawned, Start(SessionKind(cfg)))
  {
    hide ConnNext, ConnNotes, ConnEnabled;
  }

  predicate Over(pc: Pc) {
    pc == Closed || pc.Dead?
  }

  /** The steps that end a task without a close callback, and the cause each leaves. */
  predicate Fails(act: ConnAct) {
    (act.TlsHandshake? || act.AcceptCallback? || act.SetTimeouts? || act.WsHandshake? || act.SendCloseFrame?) &&
    !act.ok
  }

  function CauseOf(act: ConnAct): Cause
    requires Fails(act)
  {
    match act
    case TlsHandshake(_) => TlsFailed
    case AcceptCallback(_) => Rejected
    case SetTimeouts(_) => TimeoutsNotSet
    case WsHandshake(_) => HandshakeFailed
    case SendCloseFrame(_) => CloseFrameNotSent
  }

  /** A task has died of a failed step exactly when that step is among the steps taken. */
  ghost predicate Remembers(s: State, actions: seq<Action>) {
    forall id, act :: Fails(act) ==>
      (OnConn(id, act) in actions <==> id in s.conns && s.conns[id].pc == Dead(CauseOf(act)))
  }

  lemma {:induction false} FailuresAreRemembered(cfg: Config, s: State, actions: seq<Action>)
    requires Reachable(cfg, s, actions)
    ensures Remembers(s, actions)
    decreases |actions|
  {
    if actions != [] {
      var n := |actions| - 1;
      var before :| Reachable(cfg, before, actions[..n]) && Enabled(cfg, before, actions[n]) &&
                    s == Next(cfg, before, actions[n]);
      FailuresAreRemembered(cfg, before, actions[..n]);
      RemembersKept(cfg, before, actions[..n], actions[n]);
      assert actions == actions[..n] + [actions[n]];
    }
  }

  lemma RemembersKept(cfg: Config, s: State, actions: seq<Action>, a: Action)
    requires Remembers(s, actions) && Enabled(cfg, s, a)
    ensures Remembers(Next(cfg, s, a), actions + [a])
  {
    hide Step;
    forall id, act | Fails(act)
      ensures OnConn(id, act) in actions + [a] <==>
              id in Next(cfg, s, a).conns && Next(cfg, s, a).conns[id].pc == Dead(CauseOf(act))
    {
      assert OnConn(id, act) in actions <==> id in s.conns && s.conns[id].pc == Dead(CauseOf(act));
    }
  }

  /** A task that is over has called the close callback exactly once if it closed, and not at
      all if it died.  An accepted connection of the asynchronous native server, with or
      without TLS, closes unless a message callback accepted and left a size larger than the
      buffer; one of the WebSocket server unless
      the handshake or the close frame failed; one of the fiber server unless its timeouts
      could not be set. */
  lemma FinishedConnections(cfg: Config, s: State, actions: seq<Action>, id: nat)
    requires ValidConfig(cfg) && Reachable(cfg, s, actions)
    requires id in s.conns && Over(s.conns[id].pc)
    ensures var p := Project(s.trace, id);
            (s.conns[id].pc == Closed <==> |p| > 1 && p[|p| - 1].Close?) &&
            (forall i :: 0 <= i < |p| - 1 ==> !p[i].Close?) &&
            (|p| > 0 && p[0] == Accept(id, true) ==>
              (s.conns[id].pc == Closed <==>
                if cfg.fiber then OnConn(id, SetTimeouts(false)) !in actions
                else if cfg.websocket then
                  OnConn(id, WsHandshake(false)) !in actions && OnConn(id, SendCloseFrame(false)) !in actions
                else forall i :: 0 <= i < |p| ==> !Overfilled(p[i])))
  {
    hide ConnInv, Shape, Project, Reachable;
    LifecyclesHold(cfg, s, actions);
    FailuresAreRemembered(cfg, s, actions);
    assert Fails(SetTimeouts(false)) && Fails(WsHandshake(false)) && Fails(SendCloseFrame(false));
    hide Remembers;
    ShapeWhenOver(cfg, id, s.conns[id], Project(s.trace, id));
  }

  lemma ShapeWhenOver(cfg: Config, id: nat, c: Conn, p: seq<Note>)
    requires ConnInv(cfg, c) && Shape(id, c, p) && Over(c.pc)
    ensures c.pc == Closed <==> |p| > 1 && p[|p| - 1].Close?
    ensures forall i :: 0 <= i < |p| - 1 ==> !p[i].Close?
    ensures |p| > 0 && p[0] == Accept(id, true) ==>
              (c.pc == Closed <==>
                if cfg.fiber then c.pc != Dead(TimeoutsNotSet)
                else if cfg.websocket then c.pc != Dead(HandshakeFailed) && c.pc != Dead(CloseFrameNotSent)
                else forall i :: 0 <= i < |p| ==> !Overfilled(p[i]))
  {
    ToldIsOrderly(id, c.session.acts);
    ToldOverfull(id, c.session.acts);
    hide Orderly, Told;
    var told, acts := Told(id, c.session.acts), c.session.acts;
    if p != [] && p[0] == Accept(id, true) {
      assert p[1..|told| + 1] == told;
      assert (exists i :: 0 <= i < |p| && Overfilled(p[i])) <==> exists i :: 0 <= i < |told| && Overfilled(told[i]) by {
        if i :| 0 <= i < |told| && Overfilled(told[i]) {
          assert p[i + 1] == told[i];
        }
        if i :| 0 <= i < |p| && Overfilled(p[i]) {
          assert told[i - 1] == p[i];
        }
      }
    }
  }

  /** A message callback that accepted and left a size larger than the buffer. */
  predicate Overfilled(n: Note) {
    n.Message? && n.ok && n.left > MAX_MSG_SIZE
  }

  lemma {:induction false} ToldOverfull(id: nat, acts: seq<Act>)
    ensures (exists i :: 0 <= i < |acts| && Overfull(acts[i])) <==>
            (exists i :: 0 <= i < |Told(id, acts)| && Overfilled(Told(id, acts)[i]))
  {
    if acts != [] {
      var init, a := acts[..|acts| - 1], acts[|acts| - 1];
      ToldOverfull(id, init);
      var told, more := Told(id, init), if a.Called? then [MessageOf(id, a)] else [];
      assert Told(id, acts) == told + more && acts == init + [a];
      hide Told;
      if i :| 0 <= i < |told + more| && Overfilled((told + more)[i]) {
        if i < |told| {
          assert Overfilled(told[i]);
          var k :| 0 <= k < |init| && Overfull(init[k]);
          assert Overfull(acts[k]);
        } else {
          assert Overfull(acts[|init|]);
        }
      }
      if i :| 0 <= i < |acts| && Overfull(acts[i]) {
        if i < |init| {
          assert Overfull(init[i]);
          var k :| 0 <= k < |told| && Overfilled(told[k]);
          assert Overfilled((told + more)[k]);
        } else {
          assert Overfilled((told + more)[|told|]);
        }
      }
    }
  }

  /** A step that brings a task nearer to its end. */
  function Onward(cfg: Config, pc: Pc): ConnAct
    requires !Over(pc)
  {
    match pc
    case Spawned => if cfg.tls then TlsHandshake(true) else AcceptCallback(true)
    case Admitted => AcceptCallback(true)
    case Accepted => if cfg.fiber then SetTimeouts(true) else WsHandshake(true)
    case Talking =>
      Round(Event(if SessionKind(cfg) == Websocket then CloseFrame else ReadError, c => Answer(true, c), true))
    case Leaving => SendCloseFrame(true)
    case _ => CloseCallback(true)
  }

  function StepsLeft(pc: Pc): nat {
    match pc
    case Spawned => 6
    case Admitted => 5
    case Accepted => 4
    case Talking => 3
    case Leaving => 2
    case Finished => 1
    case _ => 0
  }

  lemma GoesOnward(cfg: Config, c: Conn)
    requires ValidConfig(cfg) && ConnInv(cfg, c) && !Over(c.pc)
    ensures ConnEnabled(cfg, c, Onward(cfg, c.pc))
    ensures var pc := ConnNext(cfg, c, Onward(cfg, c.pc)).pc; !pc.Dead? && StepsLeft(pc) < StepsLeft(c.pc)
  {
    hide Orderly, PanicTold;
  }

  /** In every state any interleaving leads to, every task that is not over can still be
      brought to its close callback, by at most six steps of its own. */
  lemma {:induction false} CanStillClose(cfg: Config, s: State, actions: seq<Action>, id: nat)
    returns (own: seq<Action>, s': State)
    requires ValidConfig(cfg) && Reachable(cfg, s, actions)
    requires id in s.conns && !s.conns[id].pc.Dead?
    ensures |own| <= StepsLeft(s.conns[id].pc) <= 6 && forall a :: a in own ==> a.OnConn? && a.id == id
    ensures Reachable(cfg, s', actions + own) && id in s'.conns && s'.conns[id].pc == Closed
    decreases StepsLeft(s.conns[id].pc)
  {
    hide ConnNext, ConnNotes, ConnEnabled, ConnInv, Shape, Project, Reachable;
    own, s' := [], s;
    assert actions + own == actions;
    if s.conns[id].pc != Closed {
      LifecyclesHold(cfg, s, actions);
      GoesOnward(cfg, s.conns[id]);
      var a := OnConn(id, Onward(cfg, s.conns[id].pc));
      ReachableSnoc(cfg, s, actions, a);
      own, s' := CanStillClose(cfg, Next(cfg, s, a), actions + [a], id);
      assert actions + [a] + own == actions + ([a] + own);
      own := [a] + own;
    }
  }

  lemma ReachableSnoc(cfg: Config, s: State, actions: seq<Action>, a: Action)
    requires Reachable(cfg, s, actions) && Enabled(cfg, s, a)
    ensures Reachable(cfg, Next(cfg, s, a), actions + [a])
  {
    assert (actions + [a])[..|actions|] == actions;
  }

  // ---------------------------------------------------------------- the connection task

  /** The session loop of the configured kind, and the message callbacks it makes. */
  method Talk(kind: Kind, id: nat, events: seq<Event>) returns (phase: Phase, notes: seq<Note>)
    requires AllFit(kind, events)
    ensures phase == After(kind, events, |events|).phase
    ensures notes == Told(id, After(kind, events, |events|).acts)
  {
    hide After, Told;
    var acts := [];
    match kind {
      case Native => phase, acts := HandleTcpConnection(events);
      case FiberNative => phase, acts := FiberHandleTcpConnection(events);
      case Websocket => phase, acts := HandleWsConnection(events);
    }
    ToldOfClosing(id, After(kind, events, |events|).acts, acts);
    notes := Told(id, acts);
  }

  /** What a task's stream needs before the session starts, when there is a session. */
  predicate Prepares(cfg: Config) {
    cfg.fiber || cfg.websocket
  }

  /** The whole task of one connection, once a stream is there: `ready` is the outcome of
      setting the timeouts or of the WebSocket handshake, where there is one.  It calls back
      as the state machine allows, and closes exactly when its session has ended and every
      step on the way succeeded. */
  method AcceptConnection(cfg: Config, id: nat, accept: bool, ready: bool, events: seq<Event>,
                          closeFrame: bool, close: bool)
    returns (pc: Pc, notes: seq<Note>)
    requires ValidConfig(cfg) && AllFit(SessionKind(cfg), events)
    ensures var kind := SessionKind(cfg);
            var talks := accept && (Prepares(cfg) ==> ready) && !(cfg.fiber && cfg.websocket);
            var session := if talks then After(kind, events, |events|) else Start(kind);
            var ended := talks ==> session.phase.Ended? && (kind == Websocket ==> closeFrame);
            Shape(id, Conn(pc, session), notes) &&
            (pc == Closed <==> (accept && (Prepares(cfg) ==> ready) && ended)) &&
            (pc == Talking <==> talks && session.phase == Open)
  {
    hide After;
    var kind := SessionKind(cfg);
    if !accept {
      return Dead(Rejected), [Accept(id, false)];
    }
    notes := [Accept(id, true)];
    if Prepares(cfg) && !ready {
      return Dead(if cfg.fiber then TimeoutsNotSet else HandshakeFailed), notes;
    }
    if cfg.fiber && cfg.websocket {
      return Closed, notes + [Close(id, close)];
    }
    var phase, told := Talk(kind, id, events);
    notes := notes + told;
    if phase == Open {
      return Talking, notes;
    }
    if phase == Panicked {
      return Dead(TaskPanicked), notes;
    }
    if kind == Websocket && !closeFrame {
      return Dead(CloseFrameNotSent), notes;
    }
    return Closed, notes + [Close(id, close)];
  }

  lemma ToldOfClosing(id: nat, acts: seq<Act>, sent: seq<Act>)
    requires sent == acts || (exists code :: sent == acts + [SentClose(code)])
    ensures Told(id, sent) == Told(id, acts)
  {
    if sent != acts {
      assert sent[..|sent| - 1] == acts;
    }
  }

  // ---------------------------------------------------------------- the accept loop

  /** What a worker meets in one turn of its loop: the steps that everybody else takes before
      it polls, between locking and receiving, and while it waits for a connection; and the
      connection that arrives, if one does. */
  datatype Turn = Turn(before: seq<Action>, locked: seq<Action>, waiting: seq<Action>, incoming: Option<nat>)

  predicate TakenBy(a: Action, w: nat) {
    (a.Bind? || a.TryLock? || a.TryRecv? || a.Accepts?) && a.w == w
  }

  /** The steps that worker `w` itself took. */
  function Own(actions: seq<Action>, w: nat): seq<Action> {
    if actions == [] then []
    else
      var a := actions[|actions| - 1];
      Own(actions[..|actions| - 1], w) + (if TakenBy(a, w) then [a] else [])
  }

  /** Where a worker stands, by the last step it took itself. */
  predicate PlaceTold(cfg: Config, place: Place, own: seq<Action>) {
    if own == [] then place == if cfg.fiber then Starting else Polling
    else
      match own[|own| - 1]
      case Bind(_, ok) => place == if ok then Polling else BindFailed
      case TryLock(_) => place == Holding || place == Accepting
      case TryRecv(_) => place == Stopped || place == Accepting
      case Accepts(_, _) => place == Polling
      case _ => false
  }

  lemma {:induction false} WorkersStandWhereTheyWent(cfg: Config, s: State, actions: seq<Action>, w: nat)
    requires Reachable(cfg, s, actions) && w < cfg.workers
    ensures w < |s.workers| && PlaceTold(cfg, s.workers[w], Own(actions, w))
    decreases |actions|
  {
    hide Next, Enabled, PlaceTold;
    if actions == [] {
      PlaceAtFirst(cfg, w);
    } else {
      var n := |actions| - 1;
      var before :| Reachable(cfg, before, actions[..n]) && Enabled(cfg, before, actions[n]) &&
                    s == Next(cfg, before, actions[n]);
      WorkersStandWhereTheyWent(cfg, before, actions[..n], w);
      PlaceStep(cfg, before, actions[n], w, Own(actions[..n], w));
    }
  }

  lemma PlaceAtFirst(cfg: Config, w: nat)
    requires w < cfg.workers
    ensures w < |Init(cfg).workers| && PlaceTold(cfg, Init(cfg).workers[w], [])
  {
  }

  lemma PlaceStep(cfg: Config, s: State, a: Action, w: nat, own: seq<Action>)
    requires w < |s.workers| && Enabled(cfg, s, a) && PlaceTold(cfg, s.workers[w], own)
    ensures var s' := Next(cfg, s, a);
            w < |s'.workers| && PlaceTold(cfg, s'.workers[w], own + (if TakenBy(a, w) then [a] else []))
  {
    hide ConnNext, ConnNotes, ConnEnabled;
    if !TakenBy(a, w) {
      assert own + [] == own;
    }
  }

  lemma OwnSnoc(actions: seq<Action>, a: Action, w: nat)
    ensures Own(actions + [a], w) == Own(actions, w) + (if TakenBy(a, w) then [a] else [])
  {
    assert (actions + [a])[..|actions|] == actions;
  }

  /** Whole turns of a worker's loop: each tries the lock, receives if it got it, and then
      accepts. */
  predicate WholeTurns(own: seq<Action>, turns: nat) {
    var n := |own|;
    if turns == 0 then own == []
    else
      (n >= 2 && own[n - 2].TryLock? && own[n - 1].Accepts? && WholeTurns(own[..n - 2], turns - 1)) ||
      (n >= 3 && own[n - 3].TryLock? && own[n - 2].TryRecv? && own[n - 1].Accepts? &&
       WholeTurns(own[..n - 3], turns - 1))
  }

  lemma OneMoreTurn(own: seq<Action>, turns: nat, poll: seq<Action>, a: Action)
    requires WholeTurns(own, turns) && a.Accepts? && Polls(poll)
    ensures WholeTurns(own + poll + [a], turns + 1)
  {
    assert (own + poll + [a])[..|own|] == own;
  }

  predicate Polls(poll: seq<Action>) {
    (|poll| == 1 && poll[0].TryLock?) || (|poll| == 2 && poll[0].TryLock? && poll[1].TryRecv?)
  }

  class Running {
    const cfg: Config
    var state: State
    ghost var actions: seq<Action>

    ghost predicate Valid()
      reads this
    {
      ValidConfig(cfg) && Reachable(cfg, state, actions)
    }

    constructor (cfg: Config)
      requires ValidConfig(cfg)
      ensures Valid() && this.cfg == cfg && state == Init(cfg) && actions == []
    {
      this.cfg, state, actions := cfg, Init(cfg), [];
    }

    method Perform(a: Action)
      requires Valid() && Enabled(cfg, state, a)
      modifies this
      ensures Valid() && state == Next(cfg, old(state), a) && actions == old(actions) + [a]
    {
      actions := actions + [a];
      assert actions[..|actions| - 1] == old(actions);
      state := Next(cfg, state, a);
    }

    /** Whatever the others do, worker `w` stays where it is, and no connection goes away; while
        it holds the lock, nobody else receives. */
    method Others(w: nat, acts: seq<Action>)
      requires Valid() && w < |state.workers|
      modifies this
      ensures Valid() && Undisturbed(old(state), state, w)
      ensures old(actions) <= actions && Own(actions, w) == Own(old(actions), w)
    {
      hide Own, Undisturbed, Reachable;
      UndisturbedAtFirst(state, w);
      for i := 0 to |acts|
        invariant Valid() && w < |state.workers| && Undisturbed(old(state), state, w)
        invariant old(actions) <= actions && Own(actions, w) == Own(old(actions), w)
      {
        if Enabled(cfg, state, acts[i]) && !TakenBy(acts[i], w) {
          OwnSnoc(actions, acts[i], w);
          ChannelIsConserved(cfg, state, actions);
          OthersKeepPlace(cfg, old(state), state, acts[i], w);
          Perform(acts[i]);
        }
      }
    }

    /** The loop of one worker, amid any steps of the others, is a run of the state machine in
        which this worker's own steps are whole turns.  It is left exactly when the worker has
        taken a shutdown signal, in the middle of a turn and before accepting again. */
    method ServerMainLoop(w: nat, turns: seq<Turn>) returns (stopped: bool, ghost own: seq<Action>, ghost done: nat)
      requires Valid() && w < |state.workers| && state.workers[w] == Polling
      modifies this
      ensures Valid() && old(actions) <= actions && |state.workers| == |old(state).workers|
      ensures state.workers[w] == if stopped then Stopped else Polling
      ensures Own(actions, w) == Own(old(actions), w) + own
      ensures !stopped ==> WholeTurns(own, done) && done == |turns|
      ensures stopped ==> done < |turns| && |own| >= 2 && WholeTurns(own[..|own| - 2], done) &&
                          own[|own| - 2..] == [TryLock(w), TryRecv(w)]
      ensures stopped ==> |state.trace| > 0 && state.trace[|state.trace| - 1] == ShutDown(w) &&
                          |state.consumed| > 0 && state.consumed[|state.consumed| - 1]
      ensures forall t :: 0 <= t < done && turns[t].incoming.Some? ==> turns[t].incoming.value in state.conns
      ensures SpawnsIn(state.trace) == AcceptedIn(actions)
    {
      hide ConnNext, ConnNotes, ConnEnabled, Reachable, Own, WholeTurns, Next, SpawnsIn, AcceptedIn;
      own, done := [], 0;
      NoTurns();
      for t := 0 to |turns|
        invariant Valid() && old(actions) <= actions && |state.workers| == |old(state).workers|
        invariant state.workers[w] == Polling
        invariant Own(actions, w) == Own(old(actions), w) + own && WholeTurns(own, done) && done == t
        invariant forall k :: 0 <= k < t && turns[k].incoming.Some? ==> turns[k].incoming.value in state.conns
      {
        Others(w, turns[t].before);
        ghost var poll;
        stopped, poll := PollShutdown(w, turns[t].locked);
        if stopped {
          assert (own + poll)[..|own|] == own && (own + poll)[|own|..] == poll;
          own := own + poll;
          EveryStreamGetsATask(cfg, state, actions);
          return;
        }
        Others(w, turns[t].waiting);
        ghost var a := AcceptNext(w, turns[t].incoming);
        OneMoreTurn(own, done, poll, a);
        assert Own(old(actions), w) + own + poll + [a] == Own(old(actions), w) + (own + poll + [a]);
        own, done := own + poll + [a], done + 1;
      }
      stopped := false;
      EveryStreamGetsATask(cfg, state, actions);
    }

    /** One attempt to lock the channel and to take a message from it. */
    method PollShutdown(w: nat, locked: seq<Action>) returns (stopped: bool, ghost poll: seq<Action>)
      requires Valid() && w < |state.workers| && state.workers[w] == Polling
      modifies this
      ensures Valid() && old(actions) <= actions && |state.workers| == |old(state).workers|
      ensures state.workers[w] == if stopped then Stopped else Accepting
      ensures Own(actions, w) == Own(old(actions), w) + poll && Polls(poll)
      ensures stopped ==> poll == [TryLock(w), TryRecv(w)]
      ensures stopped ==> |state.trace| > 0 && state.trace[|state.trace| - 1] == ShutDown(w) &&
                          |state.consumed| > 0 && state.consumed[|state.consumed| - 1]
      ensures old(state).conns.Keys <= state.conns.Keys
      ensures if old(state).lock != None then !stopped && poll == [TryLock(w)] && state.consumed == old(state).consumed
              else poll == [TryLock(w), TryRecv(w)] &&
                   (state.consumed == old(state).consumed || state.consumed == old(state).consumed + [stopped])
      ensures old(state).lock == None && old(state).queue != [] ==>
                stopped == old(state).queue[0] && state.consumed == old(state).consumed + [stopped]
    {
      hide ConnNext, ConnNotes, ConnEnabled, Reachable, Own;
      OwnSnoc(actions, TryLock(w), w);
      Perform(TryLock(w));
      poll := [TryLock(w)];
      if state.workers[w] == Holding {
        Others(w, locked);
        OwnSnoc(actions, TryRecv(w), w);
        Perform(TryRecv(w));
        poll := [TryLock(w), TryRecv(w)];
      }
      stopped := state.workers[w] == Stopped;
    }

    /** Accepting a connection, if one arrives. */
    method AcceptNext(w: nat, incoming: Option<nat>) returns (ghost a: Action)
      requires Valid() && w < |state.workers| && state.workers[w] == Accepting
      modifies this
      ensures Valid() && old(actions) <= actions && |state.workers| == |old(state).workers|
      ensures state.workers[w] == Polling && a.Accepts?
      ensures Own(actions, w) == Own(old(actions), w) + [a]
      ensures if incoming.Some? && incoming.value !in old(state).conns
              then state.conns == old(state).conns[incoming.value := Conn(Spawned, Start(SessionKind(cfg)))] &&
                   state.trace == old(state).trace + [Spawn(incoming.value, w)]
              else state.conns == old(state).conns && state.trace == old(state).trace
    {
      hide ConnNext, ConnNotes, ConnEnabled, Reachable, Own;
      a := Accepts(w, if incoming.Some? && incoming.value in state.conns then None else incoming);
      OwnSnoc(actions, a, w);
      if incoming.Some? && incoming.value in state.conns {
        Perform(Accepts(w, None));
      } else {
        Perform(Accepts(w, incoming));
      }
    }
  }

  lemma NoTurns()
    ensures WholeTurns([], 0)
  {
  }

  /** From `s` to `s'` worker `w` did nothing. */
  ghost predicate Undisturbed(s: State, s': State, w: nat)
    requires w < |s.workers|
  {
    |s'.workers| == |s.workers| && s'.workers[w] == s.workers[w] && s.conns.Keys <= s'.conns.Keys &&
    (s.workers[w] == Holding ==> s'.consumed == s.consumed && s.queue <= s'.queue)
  }

  lemma UndisturbedAtFirst(s: State, w: nat)
    requires w < |s.workers|
    ensures Undisturbed(s, s, w)
  {
  }

  lemma OthersKeepPlace(cfg: Config, s0: State, s: State, a: Action, w: nat)
    requires w < |s0.workers| && Undisturbed(s0, s, w) && ChannelInv(s)
    requires Enabled(cfg, s, a) && !TakenBy(a, w)
    ensures Undisturbed(s0, Next(cfg, s, a), w) && |Next(cfg, s, a).workers| == |s.workers|
  {
    hide ConnNext, ConnNotes, ConnEnabled, StoppedCount, Trues;
  }
}
