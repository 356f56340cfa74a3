/** What a connection given back to the pool means for the next request on it. */
module ClientReuse {
  import opened Text
  import opened Messages
  import opened ClientHandlers
  import opened ClientSessions
  import opened ResponseRoundTrip
  import ClientRead
  import ClientRoundTrip

  /** The next session on a live connection starts with what the last one has left on the wire. */
  lemma LeftOnTheWire(client: Client, action: Action)
    requires client.Enabled(action) && action.Complete? && !client.stopped
    requires client.EndsWith(action.s, action.completion).Some?
    ensures var session := client.sessions[action.s];
            client.Next(action).conns[session.connection].wire == session.incoming[action.completion.received..]
  {
    AfterIncoming(client.sessions[action.s], action.completion);
    HandledIn(client, action);
    hide Session.After, Session.Handle, Session.CanBeDone, Session.CanEnd, Session.Arrived;
  }

  lemma AfterIncoming(session: Session, completion: Completion)
    requires session.phase.Pending() && session.Possible(completion)
    ensures session.After(completion).incoming == session.incoming[completion.received..]
  {
    hide Session.Handle, Session.CanBeDone, Session.CanEnd;
  }

  /** As long as no session has it, nothing changes on a connection's wire. */
  lemma IdleWireKept(client: Client, action: Action, c: ConnectionId)
    requires Inv(client) && client.Enabled(action) && client.Idle(c)
    ensures client.Next(action).conns[c].wire == client.conns[c].wire
  {
    hide Session.After, Session.Handle, Session.CanBeDone, Session.CanEnd, Session.Arrived, AllOnTrack;
    HandledIn(client, action);
    if action.Complete? {
      assert Owns(client, action.s, client.sessions[action.s].connection);
    }
  }

  /**
   * A response that is sent on a live pooled connection is read back by its session if and only if the sessions before
   * it have left nothing on the wire.
   */
  lemma ReuseRecoversIff(client: Client, action: Action, status: string, header: seq<Field>, content: string,
                         close: bool, rest: string)
    requires client.Enabled(action) && action.Request? && action.alive && ClientRoundTrip.Writable(status, header)
    requires action.stream == client.conns[action.c].wire + (ResponseText(status, header, content, close) + rest)
    ensures ClientRoundTrip.ReadsBack(client.Next(action).sessions[action.s].whole, status,
                                      SentFields(header, |content|, close), content + rest)
            <==> client.conns[action.c].wire == ""
  {
    hide ResponseText, SentFields, ClientRoundTrip.ReadsBack, ClientRoundTrip.Writable;
    assert client.Next(action).sessions[action.s].whole == action.stream by {
      assert "" + action.stream == action.stream;
    }
    ClientRoundTrip.ReconnectRecoversIff(client.conns[action.c].wire, status, header, content, close, rest);
  }

  /** A session gets the head and the first part of a page that only the closing connection delimits. */
  ghost predicate FirstPartArrives(session: Session, completion: Completion, status: string, header: seq<Field>,
                                   content: string, k: nat)
  {
    && ClientRoundTrip.Writable(status, header) && k <= |content|
    && Lookup(header, "Content-Length") == Lookup(header, "Transfer-Encoding") == Lookup(header, "Session") == []
    && session.phase.ReadingHead? && session.buffer == ""
    && session.incoming == ResponseText(status, header, content, true)
    && completion == Done(|ResponseText(status, header, content[..k], true)|, NOTHING)
  }

  /** Its callback runs, without an error. */
  lemma FirstPartFinishes(session: Session, completion: Completion, status: string, header: seq<Field>, content: string,
                          k: nat)
    requires FirstPartArrives(session, completion, status, header, content, k)
    ensures session.Possible(completion) && session.Handle(completion) == CallBack(false)
    ensures session.incoming[completion.received..] == content[k..]
  {
    var arrived := ResponseText(status, header, content[..k], true);
    ClientRoundTrip.FirstPartIsHandedOver(status, header, content, k);
    hide ResponseText, ClientRoundTrip.Writable, Lookup, AfterHead, ClientRead.FoundIn;
    assert session.incoming[..|arrived|] == arrived && session.incoming[|arrived|..] == content[k..];
    assert "" + arrived == arrived;
  }

  lemma FirstPartLeavesTheRest(client: Client, first: Action, status: string, header: seq<Field>, content: string,
                               k: nat)
    requires client.Enabled(first) && first.Complete? && !client.stopped
    requires FirstPartArrives(client.sessions[first.s], first.completion, status, header, content, k)
    ensures client.EndsWith(first.s, first.completion) == Some(false)
    ensures client.sessions[first.s].connection in client.Next(first).conns
    ensures client.Next(first).conns[client.sessions[first.s].connection].wire == content[k..]
  {
    FirstPartFinishes(client.sessions[first.s], first.completion, status, header, content, k);
    assert first.completion.Done?;
    hide FirstPartArrives, Session.After, Session.Handle, Session.CanBeDone, Session.CanEnd, Session.Arrived;
    LeftOnTheWire(client, first);
  }

  /**
   * Of a page that only the closing connection delimits, part has not arrived in time: the client takes the page for
   * complete and keeps the connection, and the response to the next request on it is not read back.
   */
  lemma LateContentSpoilsTheNextResponse(
      client: Client, first: Action, next: Action, status: string, header: seq<Field>, content: string, k: nat,
      laterStatus: string, laterHeader: seq<Field>, laterContent: string, close: bool, rest: string)
    requires client.Enabled(first) && first.Complete? && !client.stopped && k < |content|
    requires FirstPartArrives(client.sessions[first.s], first.completion, status, header, content, k)
    requires client.Next(first).Enabled(next) && next.Request? && next.alive
    requires next.c == client.sessions[first.s].connection && ClientRoundTrip.Writable(laterStatus, laterHeader)
    requires next.stream == content[k..] + (ResponseText(laterStatus, laterHeader, laterContent, close) + rest)
    ensures client.EndsWith(first.s, first.completion) == Some(false)
    ensures !ClientRoundTrip.ReadsBack(client.Next(first).Next(next).sessions[next.s].whole, laterStatus,
                                       SentFields(laterHeader, |laterContent|, close), laterContent + rest)
  {
    hide FirstPartArrives, ResponseText, SentFields, ClientRoundTrip.ReadsBack, ClientRoundTrip.Writable;
    hide Client.Enabled, Client.Next, Client.EndsWith;
    FirstPartLeavesTheRest(client, first, status, header, content, k);
    assert content[k..] != "";
    ReuseRecoversIff(client.Next(first), next, laterStatus, laterHeader, laterContent, close, rest);
  }
}
