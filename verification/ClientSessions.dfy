/** The client's requests as sessions that share a pool of connections, over every interleaving of their handlers. */
module ClientSessions {
  import opened Text
  import opened ClientHandlers
  import Channels
  import Chunked
  import ClientRead
  import HttpHeader

  type ConnectionId = nat
  type SessionId = nat

  /** `wire` is what the peer has sent on the connection and the session that gave it back has not read. */
  datatype Connection = Connection(inUse: bool, attemptReconnect: bool, wire: string)

  /** Nothing looked up yet. */
  const NOTHING := ClientRead.Found(None, None, None)

  /** A session at its start on a connection, with what its stream buffer already holds. */
  function Started(c: ConnectionId, phase: Phase, reconnects: nat, buffer: string, stream: string): Session
  {
    Session(c, phase, reconnects, buffer, stream, buffer + stream, NOTHING, false)
  }

  /**
   * What can happen next. `stream` is what the peer will deliver on the connection, beginning with what is still on the
   * wire of a live one; `created` names the connection object that is created if one is; `kept` is the idle connection
   * the erase loop meets first; `alive` tells whether the connection's socket is still open.
   */
  datatype Action =
    | Request(s: SessionId, c: ConnectionId, alive: bool, stream: string)
    | Complete(s: SessionId, completion: Completion, created: ConnectionId, kept: Option<ConnectionId>, stream: string)
    | StopClient
    | StopScope

  /** The client: pool, connection objects, sessions, the scope lock, and the history of callbacks. */
  datatype Client = Client(
    pool: set<ConnectionId>, conns: map<ConnectionId, Connection>, sessions: map<SessionId, Session>,
    stopped: bool, calls: seq<(SessionId, bool)>, failed: set<ConnectionId>)
  {
    predicate Idle(c: ConnectionId)
    {
      c in pool && c in conns && !conns[c].inUse
    }

    /** Idle connections that survive when the session on `c` ends. */
    predicate Candidate(d: ConnectionId, c: ConnectionId, error: bool)
    {
      d in pool && d in conns && (d == c || !conns[d].inUse) && !(error && d == c)
    }

    predicate Enabled(action: Action)
    {
      match action
      case Request(s, c, alive, stream) =>
        && s !in sessions
        && (Idle(c) || (c !in conns && !alive && forall d :: d in pool ==> !Idle(d)))
        && (alive ==> conns[c].wire <= stream)
      case Complete(s, completion, created, kept, _) =>
        && CanComplete(s, completion) && created !in conns
        && (!stopped && EndsWith(s, completion).Some? ==>
            var c, error := sessions[s].connection, EndsWith(s, completion).value;
            if kept.Some? then Candidate(kept.value, c, error)
            else forall d :: d in pool ==> !Candidate(d, c, error))
      case StopClient => true
      case StopScope => true
    }

    predicate CanComplete(s: SessionId, completion: Completion)
    {
      && s in sessions && sessions[s].connection in conns
      && sessions[s].phase.Pending() && sessions[s].Possible(completion)
    }

    predicate Reconnects(s: SessionId, completion: Completion)
      requires CanComplete(s, completion)
    {
      && sessions[s].phase.ReadingHead? && completion.Failed? && !completion.cause.Aborted?
      && conns[sessions[s].connection].attemptReconnect && sessions[s].connection in pool
    }

    /** Whether the handler runs the callback, and with an error or not. */
    function EndsWith(s: SessionId, completion: Completion): Option<bool>
      requires CanComplete(s, completion)
    {
      if Reconnects(s, completion) then None
      else if sessions[s].Handle(completion).CallBack? then Some(sessions[s].Handle(completion).error)
      else None
    }

    function Next(action: Action): Client
      requires Enabled(action)
    {
      match action
      case Request(s, c, alive, stream) =>
        this.(pool := pool + {c}, conns := conns[c := Taken(c)],
              sessions := sessions[s := Started(c, if alive then Writing else Resolving, 0, "", stream)])
      case Complete(s, completion, created, kept, stream) =>
        if stopped then this.(sessions := sessions[s := sessions[s].(phase := Abandoned)])
        else if Reconnects(s, completion) then AfterReconnect(s, completion, created, stream)
        else
          var client := Marked(s, completion).(sessions := sessions[s := sessions[s].After(completion)]);
          if EndsWith(s, completion).None? then client
          else client.AfterCallback(s, EndsWith(s, completion).value, kept)
      case StopClient => this.(pool := {})
      case StopScope => this.(stopped := true)
    }

    /** A connection as a session takes it. */
    function Taken(c: ConnectionId): Connection
    {
      Connection(true, true, if c in conns then conns[c].wire else "")
    }

    /** Once a head has been read the connection may be reconnected again. */
    function Marked(s: SessionId, completion: Completion): Client
      requires CanComplete(s, completion)
    {
      var c := sessions[s].connection;
      if sessions[s].phase.ReadingHead? && completion.Done? then
        this.(conns := conns[c := conns[c].(attemptReconnect := true)])
      else this
    }

    /** The failed connection leaves the pool and a new one takes its place; the stream buffer stays as it is. */
    function AfterReconnect(s: SessionId, completion: Completion, created: ConnectionId, stream: string): Client
      requires CanComplete(s, completion)
    {
      var session := sessions[s];
      this.(
        pool := pool - {session.connection} + {created}, conns := conns[created := Connection(true, false, "")],
        sessions := sessions[s := Started(created, Resolving, session.reconnects + 1,
                                          session.Arrived(completion.received), stream)])
    }

    /** The session's connection is given back; at most one idle connection is kept. */
    function AfterCallback(s: SessionId, error: bool, kept: Option<ConnectionId>): Client
      requires s in sessions && sessions[s].connection in conns
    {
      var c := sessions[s].connection;
      this.(
        conns := conns[c := conns[c].(inUse := false, wire := sessions[s].incoming)],
        pool := PoolAfter(c, kept),
        calls := calls + [(s, error)],
        failed := if error then failed + {c} else failed)
    }

    function PoolAfter(c: ConnectionId, kept: Option<ConnectionId>): set<ConnectionId>
    {
      (set d | d in pool && d != c && d in conns && conns[d].inUse) + (if kept.Some? then {kept.value} else {})
    }
  }

  const INITIAL := Client({}, map[], map[], false, [], {})

  /** The session has not given the connection back. */
  predicate Owns(client: Client, s: SessionId, c: ConnectionId)
  {
    s in client.sessions && !client.sessions[s].phase.Finished? && client.sessions[s].connection == c
  }

  /** Sessions own pairwise distinct connections, and these are marked in use. */
  ghost predicate OwnersDistinct(client: Client)
  {
    && (forall s, c :: Owns(client, s, c) ==> c in client.conns && client.conns[c].inUse)
    && (forall s, t, c :: Owns(client, s, c) && Owns(client, t, c) ==> s == t)
  }

  /** A pooled connection in use belongs to such a session: none is lost. */
  ghost predicate PoolOwned(client: Client)
  {
    forall c :: c in client.pool ==>
      c in client.conns && (client.conns[c].inUse ==> exists s :: Owns(client, s, c))
  }

  ghost predicate AtMostOneIdle(client: Client)
  {
    forall c, d :: client.Idle(c) && client.Idle(d) ==> c == d
  }

  /** No pooled connection comes from a session that ended in error. */
  ghost predicate PoolClean(client: Client)
  {
    client.pool !! client.failed && forall c :: c in client.failed ==> c in client.conns
  }

  /** A session's callback has run exactly when the session is finished, and then with its error, once. */
  ghost predicate CallsMatch(client: Client)
  {
    && (forall s, e ::
          (s, e) in client.calls <==> s in client.sessions && client.sessions[s].phase == Finished(e))
    && (forall i, j :: 0 <= i < j < |client.calls| ==> client.calls[i].0 != client.calls[j].0)
  }

  /** At most one reconnect; until the head has been read the connection remembers whether it is used up. */
  ghost predicate ReconnectOnce(client: Client)
  {
    forall s :: s in client.sessions ==> ReconnectsOnce(client, s)
  }

  predicate ReconnectsOnce(client: Client, s: SessionId)
    requires s in client.sessions
  {
    var session := client.sessions[s];
    && session.reconnects <= 1
    && (session.phase.BeforeHead() && session.connection in client.conns ==>
        (client.conns[session.connection].attemptReconnect <==> session.reconnects == 0))
  }

  ghost predicate AbandonedOnlyStopped(client: Client)
  {
    forall s :: s in client.sessions && client.sessions[s].phase.Abandoned? ==> client.stopped
  }

  ghost predicate PoolInv(client: Client)
  {
    && OwnersDistinct(client) && PoolOwned(client) && AtMostOneIdle(client) && PoolClean(client)
    && CallsMatch(client) && ReconnectOnce(client) && AbandonedOnlyStopped(client)
  }

  /** Every session stands where the bytes it has read have put it. */
  ghost predicate AllOnTrack(client: Client)
  {
    forall s :: s in client.sessions ==> client.sessions[s].OnTrack()
  }

  ghost predicate Inv(client: Client)
  {
    PoolInv(client) && AllOnTrack(client)
  }

  lemma InitialInv()
    ensures Inv(INITIAL)
  {}

  /** What one handler leaves behind, apart from the bytes. */
  ghost predicate Handled(session: Session, next: Session, end: Option<bool>)
  {
    && next.connection == session.connection && next.reconnects == session.reconnects
    && (next.phase.BeforeHead() ==> session.phase.BeforeHead() && !session.phase.ReadingHead?)
    && !next.phase.Abandoned?
    && if end.Some? then next.phase == Finished(end.value) else !next.phase.Finished?
  }

  lemma HandledBy(client: Client, s: SessionId, completion: Completion)
    requires client.CanComplete(s, completion) && !client.Reconnects(s, completion)
    ensures Handled(client.sessions[s], client.sessions[s].After(completion), client.EndsWith(s, completion))
  {
    AfterFacts(client.sessions[s], completion);
    hide Session.After, Session.Handle, Session.CanBeDone, Session.CanEnd;
  }

  /** The same for every step that is a handler's and neither abandons nor reconnects. */
  lemma HandledIn(client: Client, action: Action)
    requires client.Enabled(action)
    ensures action.Complete? && !client.stopped && !client.Reconnects(action.s, action.completion) ==>
              Handled(client.sessions[action.s], client.sessions[action.s].After(action.completion),
                      client.EndsWith(action.s, action.completion))
  {
    if action.Complete? && !client.stopped && !client.Reconnects(action.s, action.completion) {
      HandledBy(client, action.s, action.completion);
    }
  }

  /** A session comes to own a connection only by taking an idle one or one just created. */
  lemma OwnsBefore(client: Client, action: Action, u: SessionId, c: ConnectionId)
    requires PoolInv(client) && client.Enabled(action) && Owns(client.Next(action), u, c)
    ensures || Owns(client, u, c)
            || (action.Request? && u == action.s && c == action.c)
            || (action.Complete? && u == action.s && c == action.created)
  {
    hide Session.After, Session.Handle, Session.CanBeDone, Session.CanEnd, Session.Arrived;
    HandledIn(client, action);
  }

  lemma NewIsUnowned(client: Client, action: Action, t: SessionId)
    requires PoolInv(client) && client.Enabled(action)
    ensures action.Request? ==> !Owns(client, t, action.c)
    ensures action.Complete? ==> !Owns(client, t, action.created)
  {
    hide Session.After, Session.Handle, Session.CanBeDone, Session.CanEnd, Session.Arrived;
  }

  lemma OwnersKept(client: Client, action: Action)
    requires PoolInv(client) && client.Enabled(action)
    ensures OwnersDistinct(client.Next(action))
  {
    hide Session.After, Session.Handle, Session.CanBeDone, Session.CanEnd, Session.Arrived;
    HandledIn(client, action);
    var next := client.Next(action);
    forall s, t, c | Owns(next, s, c) && Owns(next, t, c) ensures s == t {
      OwnsBefore(client, action, s, c);
      OwnsBefore(client, action, t, c);
      NewIsUnowned(client, action, s);
      NewIsUnowned(client, action, t);
    }
    forall s, c | Owns(next, s, c) ensures c in next.conns && next.conns[c].inUse {
      OwnsBefore(client, action, s, c);
      if action.Complete? {
        assert Owns(client, action.s, client.sessions[action.s].connection);
      }
    }
  }

  lemma PoolKept(client: Client, action: Action)
    requires PoolInv(client) && client.Enabled(action)
    ensures PoolOwned(client.Next(action))
  {
    hide Session.After, Session.Handle, Session.CanBeDone, Session.CanEnd, Session.Arrived;
    HandledIn(client, action);
    var next := client.Next(action);
    forall c | c in next.pool ensures c in next.conns && (next.conns[c].inUse ==> exists s :: Owns(next, s, c)) {
      if next.conns[c].inUse {
        if c in client.pool && client.conns[c].inUse {
          var s :| Owns(client, s, c);
          assert Owns(next, s, c);
        } else {
          assert Owns(next, action.s, c);
        }
      }
    }
  }

  lemma IdleBefore(client: Client, action: Action, d: ConnectionId)
    requires PoolInv(client) && client.Enabled(action) && client.Next(action).Idle(d)
    ensures if action.Complete? && !client.stopped && client.EndsWith(action.s, action.completion).Some?
            then action.kept == Some(d) else client.Idle(d)
  {
    hide Session.After, Session.Handle, Session.CanBeDone, Session.CanEnd, Session.Arrived;
  }

  lemma IdleKept(client: Client, action: Action)
    requires PoolInv(client) && client.Enabled(action)
    ensures AtMostOneIdle(client.Next(action))
  {
    hide Session.After, Session.Handle, Session.CanBeDone, Session.CanEnd, Session.Arrived;
    var next := client.Next(action);
    forall c, d | next.Idle(c) && next.Idle(d) ensures c == d {
      IdleBefore(client, action, c);
      IdleBefore(client, action, d);
    }
  }

  lemma CleanKept(client: Client, action: Action)
    requires PoolInv(client) && client.Enabled(action)
    ensures PoolClean(client.Next(action))
  {
    hide Session.After, Session.Handle, Session.CanBeDone, Session.CanEnd, Session.Arrived;
    HandledIn(client, action);
  }

  lemma CalledIsFinished(client: Client, k: nat)
    requires CallsMatch(client) && k < |client.calls|
    ensures client.calls[k].0 in client.sessions && client.sessions[client.calls[k].0].phase.Finished?
  {
    var (s, e) := client.calls[k];
    assert client.calls[k] == (s, e);
    assert (s, e) in client.calls;
  }

  lemma CallsKept(client: Client, action: Action)
    requires PoolInv(client) && client.Enabled(action)
    ensures CallsMatch(client.Next(action))
  {
    hide Session.After, Session.Handle, Session.CanBeDone, Session.CanEnd, Session.Arrived;
    HandledIn(client, action);
    var next := client.Next(action);
    if next.calls != client.calls {
      var call := next.calls[|client.calls|];
      assert next.calls == client.calls + [call];
      forall k | 0 <= k < |client.calls| ensures client.calls[k].0 != call.0 {
        CalledIsFinished(client, k);
      }
      assert forall k :: 0 <= k < |client.calls| ==> next.calls[k] == client.calls[k];
      forall s, e ensures (s, e) in next.calls <==> s in next.sessions && next.sessions[s].phase == Finished(e) {
        assert (s, e) in next.calls <==> (s, e) in client.calls || (s, e) == call;
      }
    }
  }

  lemma ReconnectKept(client: Client, action: Action)
    requires PoolInv(client) && client.Enabled(action)
    ensures ReconnectOnce(client.Next(action)) && AbandonedOnlyStopped(client.Next(action))
  {
    hide Session.After, Session.Handle, Session.CanBeDone, Session.CanEnd, Session.Arrived;
    HandledIn(client, action);
    var next := client.Next(action);
    forall s | s in next.sessions ensures ReconnectsOnce(next, s) {
      if s in client.sessions {
        NewIsUnowned(client, action, s);
        assert !client.sessions[s].phase.Finished? ==> Owns(client, s, client.sessions[s].connection);
        if action.Complete? {
          assert Owns(client, action.s, client.sessions[action.s].connection);
        }
      }
    }
  }

  lemma StartedOnTrack(c: ConnectionId, phase: Phase, reconnects: nat, buffer: string, stream: string)
    requires phase.Resolving? || phase.Writing?
    ensures Started(c, phase, reconnects, buffer, stream).OnTrack()
  {}

  lemma AbandonedOnTrack(session: Session)
    ensures session.(phase := Abandoned).OnTrack()
  {}

  lemma TrackKept(client: Client, action: Action)
    requires AllOnTrack(client) && client.Enabled(action)
    ensures AllOnTrack(client.Next(action))
  {
    hide Session.After, Session.Handle, Session.CanBeDone, Session.CanEnd, Session.Arrived, Session.OnTrack, Started;
    match action {
      case Request(_, c, alive, stream) =>
        StartedOnTrack(c, if alive then Writing else Resolving, 0, "", stream);
      case Complete(s, completion, created, _, stream) =>
        var session := client.sessions[s];
        AbandonedOnTrack(session);
        AfterKeepsTrack(session, completion);
        StartedOnTrack(created, Resolving, session.reconnects + 1, session.Arrived(completion.received), stream);
      case _ =>
    }
  }

  /** Every step of every session keeps the pool in order and all sessions on track. */
  lemma StepKeepsInv(client: Client, action: Action)
    requires Inv(client) && client.Enabled(action)
    ensures Inv(client.Next(action))
  {
    hide Client.Next, Client.Enabled, AllOnTrack;
    OwnersKept(client, action);
    PoolKept(client, action);
    IdleKept(client, action);
    CleanKept(client, action);
    CallsKept(client, action);
    ReconnectKept(client, action);
    TrackKept(client, action);
  }

  predicate IsRun(client: Client, actions: seq<Action>)
    decreases |actions|
  {
    actions == [] || (client.Enabled(actions[0]) && IsRun(client.Next(actions[0]), actions[1..]))
  }

  function Run(client: Client, actions: seq<Action>): Client
    requires IsRun(client, actions)
    decreases |actions|
  {
    if actions == [] then client else Run(client.Next(actions[0]), actions[1..])
  }

  lemma {:induction false} RunsKeepInv(client: Client, actions: seq<Action>)
    requires Inv(client) && IsRun(client, actions)
    ensures Inv(Run(client, actions))
    decreases |actions|
  {
    hide Inv, Client.Next, Client.Enabled;
    if actions != [] {
      StepKeepsInv(client, actions[0]);
      RunsKeepInv(client.Next(actions[0]), actions[1..]);
    }
  }

  /** How often the callback of a session has run. */
  function Callbacks(calls: seq<(SessionId, bool)>, s: SessionId): nat
  {
    if calls == [] then 0 else (if calls[0].0 == s then 1 else 0) + Callbacks(calls[1..], s)
  }

  lemma {:induction false} CallbacksAtMostOnce(calls: seq<(SessionId, bool)>, s: SessionId)
    requires forall i, j :: 0 <= i < j < |calls| ==> calls[i].0 != calls[j].0
    ensures Callbacks(calls, s) <= 1
    ensures Callbacks(calls, s) == 1 <==> exists k :: 0 <= k < |calls| && calls[k].0 == s
  {
    if calls != [] {
      CallbacksAtMostOnce(calls[1..], s);
      assert forall k :: 0 < k < |calls| ==> calls[k] == calls[1..][k - 1];
    }
  }

  /** Callbacks are counted by the phase. */
  lemma CallbacksOfFinished(client: Client, s: SessionId)
    requires CallsMatch(client)
    ensures Callbacks(client.calls, s) <= 1
    ensures Callbacks(client.calls, s) == 1 <==> s in client.sessions && client.sessions[s].phase.Finished?
  {
    CallbacksAtMostOnce(client.calls, s);
    forall k | 0 <= k < |client.calls| && client.calls[k].0 == s
      ensures s in client.sessions && client.sessions[s].phase.Finished?
    {
      CalledIsFinished(client, k);
    }
    if s in client.sessions && client.sessions[s].phase.Finished? {
      assert (s, client.sessions[s].phase.error) in client.calls;
    }
  }

  lemma FinishedIff(session: Session)
    requires session.OnTrack() && !session.phase.Pending() && !session.phase.Abandoned?
    ensures session.phase.Finished? <==> session.interrupted || !Unanswerable(session.whole, session.found)
    ensures session.phase.Finished? ==>
              (session.phase.error <==> session.interrupted || Fate(session.whole, session.found) != Chunked.Delivered)
  {
    hide Fate, Unanswerable, ClientRead.FoundIn;
    BreaksIff(session.whole, session.found);
  }

  /**
   * In every run a session's callback runs at most once. Once nothing is pending and no stop has intervened it has run
   * exactly once, if and only if an operation failed or the stream is answerable: a numeric length, or chunks that lead
   * to no empty and no oversized size line; and its error says whether the content came through.
   */
  lemma CallbackOnce(actions: seq<Action>, s: SessionId)
    requires IsRun(INITIAL, actions)
    ensures var client := Run(INITIAL, actions);
            && Callbacks(client.calls, s) <= 1
            && (s in client.sessions && client.sessions[s].phase.Abandoned? ==> client.stopped)
    ensures var client := Run(INITIAL, actions);
            s in client.sessions && !client.sessions[s].phase.Pending() && !client.sessions[s].phase.Abandoned? ==>
              var session := client.sessions[s];
              && (Callbacks(client.calls, s) == 1 <==>
                  session.interrupted || !Unanswerable(session.whole, session.found))
              && (Answerable(session.whole) ==> Callbacks(client.calls, s) == 1)
              && (session.AfterReading() ==>
                  ClientRead.FoundIn(HttpHeader.HeaderFields(Channels.AfterLine(session.whole)), session.found))
              && forall e :: (s, e) in client.calls ==>
                   (e <==> session.interrupted || Fate(session.whole, session.found) != Chunked.Delivered)
  {
    hide Fate, Unanswerable, Answerable, ClientRead.FoundIn, Session.AfterReading, Run, IsRun;
    InitialInv();
    RunsKeepInv(INITIAL, actions);
    var client := Run(INITIAL, actions);
    CallbacksOfFinished(client, s);
    if s in client.sessions && !client.sessions[s].phase.Pending() && !client.sessions[s].phase.Abandoned? {
      FinishedIff(client.sessions[s]);
      if Answerable(client.sessions[s].whole) {
        AnswerableFinished(client.sessions[s]);
      }
    }
  }

  lemma AnswerableFinished(session: Session)
    requires session.OnTrack() && !session.phase.Pending() && !session.phase.Abandoned? && Answerable(session.whole)
    ensures session.interrupted || !Unanswerable(session.whole, session.found)
  {
    hide Answerable, ClientRead.FoundIn, Fate;
    if session.AfterReading() {
      AnswerableFound(session.whole, session.found);
    }
  }

  // How long a session can go on

  /** How many handlers of a session have run. */
  function Handlers(actions: seq<Action>, s: SessionId): nat
  {
    if actions == [] then 0
    else (if actions[0].Complete? && actions[0].s == s then 1 else 0) + Handlers(actions[1..], s)
  }

  /** Five handlers for each connection up to the head, and then no more than there are bytes. */
  predicate WithinBudget(client: Client, s: SessionId, handlers: nat)
  {
    if s !in client.sessions then handlers == 0
    else
      var session := client.sessions[s];
      handlers + session.Left() <= 5 * (session.reconnects + 1) + |session.whole|
  }

  /** Every handler of a session leaves fewer to come on its connection, unless it starts a new one. */
  lemma HandlersDescend(client: Client, action: Action)
    requires Inv(client) && client.Enabled(action) && action.Complete?
    ensures var before, after := client.sessions[action.s], client.Next(action).sessions[action.s];
            || (after.reconnects == before.reconnects && after.whole == before.whole && after.Left() < before.Left())
            || (before.reconnects == 0 && after.reconnects == 1 && before.phase.ReadingHead? && after.phase.Resolving?)
    ensures forall t :: t in client.sessions && t != action.s ==>
              t in client.Next(action).sessions && client.Next(action).sessions[t] == client.sessions[t]
  {
    var session := client.sessions[action.s];
    assert ReconnectsOnce(client, action.s);
    PendingLeft(session);
    HandlersUseUp(session, action.completion);
    AfterFacts(session, action.completion);
    hide Session.After, Session.Handle, Session.CanBeDone, Session.CanEnd, Session.Arrived;
    hide Session.OnTrack, Session.Left;
  }

  lemma PendingLeft(session: Session)
    requires session.phase.Pending()
    ensures session.(phase := Abandoned).Left() == 0 < session.Left()
  {}

  lemma StartedLeft(c: ConnectionId, phase: Phase, reconnects: nat, buffer: string, stream: string)
    requires phase.Resolving? || phase.Writing?
    ensures var session := Started(c, phase, reconnects, buffer, stream);
            session.Left() <= |session.whole| + 5 && session.reconnects == reconnects
  {}

  lemma HeadLeft(session: Session)
    requires session.OnTrack() && session.phase.ReadingHead?
    ensures session.Left() == |session.whole| + 2
  {}

  lemma BudgetKept(client: Client, action: Action, s: SessionId, handlers: nat)
    requires Inv(client) && client.Enabled(action) && WithinBudget(client, s, handlers)
    ensures WithinBudget(client.Next(action), s, handlers + if action.Complete? && action.s == s then 1 else 0)
  {
    hide Session.After, Session.Handle, Session.CanBeDone, Session.CanEnd, Session.Arrived;
    hide Session.OnTrack, Session.Left, Started;
    match action {
      case Request(t, c, alive, stream) =>
        StartedLeft(c, if alive then Writing else Resolving, 0, "", stream);
      case Complete(t, completion, created, _, stream) =>
        var session := client.sessions[t];
        HandlersDescend(client, action);
        HandledIn(client, action);
        if session.phase.ReadingHead? {
          HeadLeft(session);
        }
        StartedLeft(created, Resolving, session.reconnects + 1, session.Arrived(completion.received), stream);
      case _ =>
    }
  }

  lemma {:induction false} RunsKeepBudget(client: Client, actions: seq<Action>, s: SessionId, handlers: nat)
    requires Inv(client) && IsRun(client, actions) && WithinBudget(client, s, handlers)
    ensures WithinBudget(Run(client, actions), s, handlers + Handlers(actions, s))
    decreases |actions|
  {
    hide Inv, WithinBudget, Client.Next, Client.Enabled;
    if actions != [] {
      StepKeepsInv(client, actions[0]);
      BudgetKept(client, actions[0], s, handlers);
      RunsKeepBudget(client.Next(actions[0]), actions[1..], s,
                     handlers + if actions[0].Complete? && actions[0].s == s then 1 else 0);
    }
  }

  /**
   * In every run a session reconnects at most once, and has run at most ten handlers more than its last connection had
   * bytes for it, so none goes on for ever; as long as it is pending it has run fewer.
   */
  lemma HandlersBounded(actions: seq<Action>, s: SessionId)
    requires IsRun(INITIAL, actions)
    ensures var client := Run(INITIAL, actions);
            if s !in client.sessions then Handlers(actions, s) == 0
            else
              var session := client.sessions[s];
              && session.reconnects <= 1
              && Handlers(actions, s) <= 5 * (session.reconnects + 1) + |session.whole|
              && (session.phase.Pending() ==> Handlers(actions, s) < 5 * (session.reconnects + 1) + |session.whole|)
  {
    hide Session.Left, Run, IsRun;
    InitialInv();
    RunsKeepInv(INITIAL, actions);
    RunsKeepBudget(INITIAL, actions, s, 0);
    var client := Run(INITIAL, actions);
    if s in client.sessions {
      assert ReconnectsOnce(client, s);
      if client.sessions[s].phase.Pending() {
        PendingLeft(client.sessions[s]);
      }
    }
  }

  /** The client object: each method is one handler, or one critical section, of the source. */
  class ClientBase {
    var connections: set<ConnectionId>
    var conns: map<ConnectionId, Connection>
    var sessions: map<SessionId, Session>
    var stopped: bool
    var calls: seq<(SessionId, bool)>
    ghost var failed: set<ConnectionId>

    ghost function View(): Client
      reads this
    {
      Client(connections, conns, sessions, stopped, calls, failed)
    }

    constructor ()
      ensures View() == INITIAL && Inv(View())
    {
      connections, conns, sessions, stopped, calls, failed := {}, map[], map[], false, [], {};
    }

    /** get_connection: the first idle connection the iteration meets, else a new one. */
    method GetConnection(created: ConnectionId) returns (c: ConnectionId)
      requires (forall d :: d in connections ==> d in conns) && created !in conns
      modifies this`connections, this`conns
      ensures connections == old(connections) + {c} && conns == old(conns)[c := old(View()).Taken(c)]
      ensures if c == created then forall d :: d in old(connections) ==> old(conns[d].inUse)
              else c in old(connections) && !old(conns[c].inUse)
    {
      var todo := connections;
      c := created;
      while todo != {}
        invariant todo <= connections && c == created
        invariant forall d :: d in connections - todo ==> conns[d].inUse
        decreases |todo|
      {
        var it :| it in todo;
        todo := todo - {it};
        if !conns[it].inUse {
          c := it;
          break;
        }
      }
      var wire := if c in conns then conns[c].wire else "";
      connections, conns := connections + {c}, conns[c := Connection(true, true, wire)];
    }

    /** The callback's critical section: give the connection back and erase all but one idle connection. */
    method GiveBack(c: ConnectionId, error: bool) returns (kept: Option<ConnectionId>)
      requires (forall d :: d in connections ==> d in conns) && c in conns
      modifies this`connections, this`conns
      ensures conns == old(conns)[c := old(conns[c]).(inUse := false)]
      ensures forall d ::
                d in connections <==> (d in old(connections) && d != c && old(conns)[d].inUse) || kept == Some(d)
      ensures if kept.Some?
              then kept.value in old(connections) && !conns[kept.value].inUse && !(error && kept.value == c)
              else forall d :: d in old(connections) ==> conns[d].inUse || (error && d == c)
    {
      conns := conns[c := conns[c].(inUse := false)];
      kept := None;
      var unusedConnections := 0;
      var todo := connections;
      while todo != {}
        invariant conns == old(conns)[c := old(conns[c]).(inUse := false)]
        invariant todo <= connections <= old(connections)
        invariant unusedConnections == 0 <==> kept.None?
        invariant kept.Some? ==>
                    kept.value in connections - todo && !conns[kept.value].inUse && !(error && kept.value == c)
        invariant kept.None? ==> forall d :: d in old(connections) - todo ==> conns[d].inUse || (error && d == c)
        invariant forall d :: d in old(connections) - todo ==> (d in connections <==> conns[d].inUse || kept == Some(d))
        decreases |todo|
      {
        var it :| it in todo;
        todo := todo - {it};
        if error && it == c {
          connections := connections - {it};
        } else if !conns[it].inUse {
          unusedConnections := unusedConnections + 1;
          if unusedConnections > 1 {
            connections := connections - {it};
          } else {
            kept := Some(it);
          }
        }
      }
      assert old(connections) - todo == old(connections);
    }

    /** `request`, up to the first asynchronous operation. */
    method Request(s: SessionId, created: ConnectionId, socketOpen: bool, more: string) returns (ghost action: Action)
      requires Inv(View()) && s !in sessions && created !in conns
      modifies this
      ensures old(View()).Enabled(action) && action.Request? && action.s == s
      ensures action.stream == if action.alive then old(conns)[action.c].wire + more else more
      ensures View() == old(View()).Next(action) && Inv(View())
    {
      hide AllOnTrack, Session.OnTrack;
      var c := GetConnection(created);
      var alive := c != created && socketOpen;
      var stream := if alive then conns[c].wire + more else more;
      sessions := sessions[s := Started(c, if alive then Writing else Resolving, 0, "", stream)];
      action := Action.Request(s, c, alive, stream);
      StepKeepsInv(old(View()), action);
    }

    /** One handler: the lock is tried, then the bytes that have arrived decide. */
    method Complete(s: SessionId, completion: Completion, created: ConnectionId, stream: string)
      returns (ghost action: Action)
      requires Inv(View()) && s in sessions && sessions[s].phase.Pending() && sessions[s].Possible(completion)
      requires created !in conns
      modifies this
      ensures old(View()).Enabled(action) && action.Complete?
      ensures action.s == s && action.completion == completion && action.stream == stream
      ensures View() == old(View()).Next(action) && Inv(View())
    {
      hide Session.After, Session.Handle, Session.CanBeDone, Session.CanEnd, Session.Arrived;
      hide AllOnTrack, Session.OnTrack, Started;
      var session := sessions[s];
      var c := session.connection;
      assert Owns(View(), s, c);
      var kept: Option<ConnectionId> := None;
      if stopped {
        sessions := sessions[s := session.(phase := Abandoned)];
      } else if session.phase.ReadingHead? && completion.Failed? && conns[c].attemptReconnect
                && !completion.cause.Aborted? && c in connections {
        connections := connections - {c} + {created};
        conns := conns[created := Connection(true, false, "")];
        sessions := sessions[s := Started(created, Resolving, session.reconnects + 1,
                                          session.Arrived(completion.received), stream)];
      } else {
        if session.phase.ReadingHead? && completion.Done? {
          conns := conns[c := conns[c].(attemptReconnect := true)];
        }
        var verdict := session.Handle(completion);
        sessions := sessions[s := session.After(completion)];
        HandledBy(old(View()), s, completion);
        if verdict.CallBack? {
          kept := RunCallback(s, c, verdict.error);
        }
      }
      action := Action.Complete(s, completion, created, kept, stream);
      StepKeepsInv(old(View()), action);
    }

    /** session->callback. */
    method RunCallback(s: SessionId, c: ConnectionId, error: bool) returns (kept: Option<ConnectionId>)
      requires (forall d :: d in connections ==> d in conns) && c in conns
      requires s in sessions && sessions[s].connection == c
      modifies this
      ensures View() == old(View()).AfterCallback(s, error, kept)
      ensures if kept.Some? then old(View()).Candidate(kept.value, c, error)
              else forall d :: d in old(connections) ==> !old(View()).Candidate(d, c, error)
    {
      conns := conns[c := conns[c].(wire := sessions[s].incoming)];
      kept := GiveBack(c, error);
      calls := calls + [(s, error)];
      if error {
        failed := failed + {c};
      }
    }

    /** stop: every connection is cancelled and leaves the pool. */
    method Stop()
      requires Inv(View())
      modifies this`connections
      ensures View() == old(View()).Next(StopClient) && Inv(View())
    {
      while connections != {}
        decreases |connections|
      {
        var it :| it in connections;
        connections := connections - {it};
      }
      StepKeepsInv(old(View()), StopClient);
    }

    /** handler_runner->stop, as the destructor calls it. */
    method StopHandlers()
      requires Inv(View())
      modifies this`stopped
      ensures View() == old(View()).Next(StopScope) && Inv(View())
    {
      stopped := true;
      StepKeepsInv(old(View()), StopScope);
    }
  }
}
