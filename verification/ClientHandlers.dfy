/** The client's handlers for one session: each is decided by the bytes that have arrived. */
module ClientHandlers {
  import opened Text
  import opened Numbers
  import opened Channels
  import opened Messages
  import opened Chunked
  import opened ClientRead
  import ChunkedBreaks
  import ChunkedCoding
  import HttpHeader
  import ServerRead

  /** The asynchronous operation a session waits for, or how it ended. */
  datatype Phase =
    | Resolving | Connecting | Writing | ReadingHead
    | ReadingContent(missing: nat) | ReadingSizeLine | ReadingChunk(length: nat, missing: nat) | ReadingToEnd
    | Finished(error: bool)     // the callback has run
    | Abandoned                 // the scope lock was stopped when a handler started
    | Broken(outcome: Outcome)  // a handler was left by an exception or took the last character of an empty line
  {
    predicate Pending()
    {
      !Finished? && !Abandoned? && !Broken?
    }

    predicate BeforeHead()
    {
      Resolving? || Connecting? || Writing? || ReadingHead?
    }
  }

  datatype Cause = EndReached | Aborted | OtherCause

  /** How a pending operation turns out: so many bytes more have arrived, and `find` will land on these values. */
  datatype Completion = Done(received: nat, found: Found) | Failed(received: nat, cause: Cause)

  /** What a handler does: wait again, run the callback, or break. */
  datatype Verdict = Continue(phase: Phase, buffer: string) | CallBack(error: bool) | Break(outcome: Outcome)

  /** The head has arrived: the response is parsed, and the fields say what to read next. */
  function AfterHead(buffer: string, found: Found): Verdict
    requires FindText(buffer, ServerRead.HEAD_END).Some?
  {
    if !IsStatusLine(FirstLine(buffer)) then CallBack(true)
    else
      var additional := |buffer| - (FindText(buffer, ServerRead.HEAD_END).value + 4);
      AfterFields(StatusVersion(FirstLine(buffer)), HttpHeader.HeaderRest(AfterLine(buffer)), additional, found)
  }

  function AfterFields(version: string, buffer: string, additional: int, found: Found): Verdict
  {
    match found.length
    case Some(v) =>
      (match Unsigned(v, 10)
       case None => Break(Threw)
       case Some(n) => if n > additional then Continue(ReadingContent(n - additional), buffer) else CallBack(false))
    case None =>
      if found.coding == Some("chunked") then Continue(ReadingSizeLine, buffer)
      else if ReadsToEnd(version, found) then Continue(ReadingToEnd, buffer)
      else CallBack(false)
  }

  /** A size line has arrived. */
  function AfterSizeLine(buffer: string): Verdict
    requires FindText(buffer, CRLF).Some?
  {
    if IndexOf(buffer, '\n') == 0 then Break(Undefined)
    else if AnnouncedLength(buffer).None? then CallBack(true)
    else
      var length, rest, wanted := AnnouncedLength(buffer).value, AfterLine(buffer), Wanted(buffer);
      if |rest| < wanted then Continue(ReadingChunk(length, wanted - |rest|), rest) else AfterChunk(length, rest)
  }

  /** How many bytes behind the size line the reader waits for. */
  function Wanted(buffer: string): nat
    requires FindText(buffer, CRLF).Some? && IndexOf(buffer, '\n') > 0 && AnnouncedLength(buffer).Some?
  {
    Excess(buffer) + Needed(AnnouncedLength(buffer).value)
  }

  /** A chunk has arrived; extraction stops at the end of the buffer. */
  function AfterChunk(length: nat, buffer: string): Verdict
  {
    if length > MAX_ARRAY then Break(OutOfMemory)
    else if length == 0 then CallBack(false)
    else Continue(ReadingSizeLine, if length + 2 <= |buffer| then buffer[length + 2..] else "")
  }

  /** One request on its connection: what its stream buffer holds, and what the peer has still to deliver there. */
  datatype Session = Session(
    connection: nat, phase: Phase, reconnects: nat, buffer: string, incoming: string,
    whole: string,      // everything the reading started from on this connection
    found: Found,       // what `find` has landed on
    interrupted: bool)  // an operation has ended in an error other than the end of the stream
  {
    function Arrived(received: nat): string
      requires received <= |incoming|
    {
      buffer + incoming[..received]
    }

    /** Which completions the operation at hand can have. */
    predicate Possible(completion: Completion)
    {
      && completion.received <= |incoming|
      && match completion
         case Done(received, found) => CanBeDone(received, found)
         case Failed(received, cause) => cause.EndReached? ==> CanEnd(received)
    }

    predicate CanBeDone(received: nat, found: Found)
      requires received <= |incoming|
    {
      match phase
      case Resolving => received == 0
      case Connecting => received == 0
      case Writing => received == 0
      case ReadingHead =>
        && FindText(Arrived(received), ServerRead.HEAD_END).Some?
        && FoundIn(HttpHeader.HeaderFields(AfterLine(Arrived(received))), found)
      case ReadingContent(missing) => received == missing
      case ReadingSizeLine => FindText(Arrived(received), CRLF).Some?
      case ReadingChunk(_, missing) => received == missing
      case _ => false
    }

    /** The end of the stream is reported once all has arrived and is not enough. */
    predicate CanEnd(received: nat)
    {
      && received == |incoming|
      && match phase
         case ReadingHead => FindText(buffer + incoming, ServerRead.HEAD_END).None?
         case ReadingContent(missing) => |incoming| < missing
         case ReadingSizeLine => FindText(buffer + incoming, CRLF).None?
         case ReadingChunk(_, missing) => |incoming| < missing
         case ReadingToEnd => true
         case _ => false
    }

    /** The handler of the operation at hand, the reconnect branch apart. */
    function Handle(completion: Completion): Verdict
      requires phase.Pending() && Possible(completion)
    {
      match completion
      case Failed(_, cause) => CallBack(!(phase.ReadingToEnd? && cause.EndReached?))
      case Done(received, found) =>
        match phase
        case Resolving => Continue(Connecting, buffer)
        case Connecting => Continue(Writing, buffer)
        case Writing => Continue(ReadingHead, buffer)
        case ReadingHead => AfterHead(Arrived(received), found)
        case ReadingContent(_) => CallBack(false)
        case ReadingSizeLine => AfterSizeLine(Arrived(received))
        case ReadingChunk(length, _) => AfterChunk(length, Arrived(received))
        case _ => CallBack(false)
    }

    /** The session once the handler has run. */
    function After(completion: Completion): Session
      requires phase.Pending() && Possible(completion)
    {
      var next := this.(
        incoming := incoming[completion.received..],
        found := if phase.ReadingHead? && completion.Done? then completion.found else found,
        interrupted := completion.Failed? && !completion.cause.EndReached?);
      match Handle(completion)
      case Continue(phase, buffer) => next.(phase := phase, buffer := buffer)
      case CallBack(error) => next.(phase := Finished(error), buffer := Arrived(completion.received))
      case Break(outcome) => next.(phase := Broken(outcome), buffer := Arrived(completion.received))
    }

    /** Where the session stands, measured against what its whole stream means. */
    predicate OnTrack()
    {
      && (phase.Pending() ==> !interrupted)
      && (AfterReading() ==> FoundIn(HttpHeader.HeaderFields(AfterLine(whole)), found))
      && match phase
         case Resolving => whole == buffer + incoming
         case Connecting => whole == buffer + incoming
         case Writing => whole == buffer + incoming
         case ReadingHead => whole == buffer + incoming
         case ReadingContent(missing) => Fate(whole, found) == if |incoming| < missing then EndOfStream else Delivered
         case ReadingSizeLine => Fate(whole, found) == OutcomeOf(MeaningOf(buffer + incoming))
         case ReadingChunk(length, missing) =>
           && (length <= MAX_ARRAY ==> length + 2 <= |buffer| + missing)
           && Fate(whole, found) == if |incoming| < missing then EndOfStream
                                    else if length > MAX_ARRAY then OutOfMemory
                                    else OutcomeOf(ChunkThen(length, buffer + incoming))
         case ReadingToEnd => Fate(whole, found) == Delivered
         case Finished(error) =>
           && (interrupted ==> error)
           && (!interrupted ==> !Breaks(Fate(whole, found)) && (error <==> Fate(whole, found) != Delivered))
         case Broken(outcome) => !interrupted && outcome == Fate(whole, found) && Breaks(outcome)
         case Abandoned => true
    }

    /** The head has been read without an error. */
    predicate AfterReading()
    {
      !phase.BeforeHead() && !phase.Abandoned? && !interrupted && FindText(whole, ServerRead.HEAD_END).Some?
    }

    /** How many handlers can still run on this connection, at most. */
    function Left(): nat
    {
      var bytes := |buffer| + |incoming|;
      match phase
      case Resolving => bytes + 5
      case Connecting => bytes + 4
      case Writing => bytes + 3
      case ReadingHead => bytes + 2
      case ReadingContent(_) => 1
      case ReadingSizeLine => bytes + 1
      case ReadingChunk(_, _) => bytes + 1
      case ReadingToEnd => 1
      case _ => 0
    }
  }

  /** Outcomes without a callback. */
  predicate Breaks(outcome: Outcome)
  {
    outcome == Threw || outcome == OutOfMemory || outcome == Undefined
  }

  /** What a whole stream comes to, when no operation ends in an error other than the end of the stream. */
  function Fate(whole: string, found: Found): (outcome: Outcome)
    ensures outcome != Interrupted
  {
    match FindText(whole, ServerRead.HEAD_END)
    case None => EndOfStream
    case Some(h) =>
      if !IsStatusLine(FirstLine(whole)) then ProtocolError
      else BodyFate(|whole| - (h + 4), HttpHeader.HeaderRest(AfterLine(whole)), found)
  }

  function BodyFate(behindHead: int, tail: string, found: Found): (outcome: Outcome)
    ensures outcome != Interrupted
  {
    match found.length
    case Some(v) =>
      (match Unsigned(v, 10)
       case None => Threw
       case Some(n) => if behindHead < n then EndOfStream else Delivered)
    case None => if found.coding == Some("chunked") then OutcomeOf(MeaningOf(tail)) else Delivered
  }

  /**
   * The response announces a length that is no number; or it comes in chunks, and behind some of them there is an empty
   * size line, or a size that no array holds with all the bytes the reader waits for in spite of it.
   */
  ghost predicate Unanswerable(whole: string, found: Found)
  {
    && FindText(whole, ServerRead.HEAD_END).Some? && IsStatusLine(FirstLine(whole))
    && match found.length
       case Some(v) => Unsigned(v, 10).None?
       case None =>
         && found.coding == Some("chunked")
         && ChunksBreak(HttpHeader.HeaderRest(AfterLine(whole)))
  }

  ghost predicate ChunksBreak(tail: string)
  {
    ChunkedBreaks.ReachesEmptyLine(tail) || ChunkedBreaks.ReachesOversized(tail)
  }

  lemma ChunksBreakIff(tail: string)
    ensures Breaks(OutcomeOf(MeaningOf(tail))) <==> ChunksBreak(tail)
  {
    hide MeaningOf, ChunkedBreaks.ReachesEmptyLine, ChunkedBreaks.ReachesOversized;
    ChunkedBreaks.EmptyLineBreaksIff(tail);
    ChunkedBreaks.OversizedBreaksIff(tail);
  }

  /** A stream goes without a callback exactly for these reasons. */
  lemma BreaksIff(whole: string, found: Found)
    ensures Breaks(Fate(whole, found)) <==> Unanswerable(whole, found)
  {
    hide MeaningOf, Unsigned, FindText, IsStatusLine, HttpHeader.HeaderRest, ChunksBreak, OutcomeOf;
    ChunksBreakIff(HttpHeader.HeaderRest(AfterLine(whole)));
  }

  /** The same, read off the response alone: all lengths are numeric, and the chunks do not break the reader. */
  ghost predicate Answerable(whole: string)
  {
    FindText(whole, ServerRead.HEAD_END).Some? && IsStatusLine(FirstLine(whole)) ==>
      var fields, tail := HttpHeader.HeaderFields(AfterLine(whole)), HttpHeader.HeaderRest(AfterLine(whole));
      var lengths := Lookup(fields, "Content-Length");
      && (forall k :: 0 <= k < |lengths| ==> Unsigned(lengths[k], 10).Some?)
      && (lengths == [] && "chunked" in Lookup(fields, "Transfer-Encoding") ==>
          !ChunksBreak(tail))
  }

  /** Such responses, and only these, get their callback whatever `find` lands on. */
  lemma AnswerableIff(whole: string)
    ensures Answerable(whole) <==>
            forall found ::
              FoundIn(HttpHeader.HeaderFields(AfterLine(whole)), found) ==> !Unanswerable(whole, found)
  {
    hide ChunksBreak, Unsigned, IsStatusLine, FindText, FirstLine, AfterLine, HttpHeader.HeaderRest, Lookup;
    hide HttpHeader.HeaderFields;
    var fields := HttpHeader.HeaderFields(AfterLine(whole));
    var lengths, codings, sessions :=
      Lookup(fields, "Content-Length"), Lookup(fields, "Transfer-Encoding"), Lookup(fields, "Session");
    var first := Found(ServerRead.First(lengths), ServerRead.First(codings), ServerRead.First(sessions));
    assert FoundIn(fields, first);
    if !Answerable(whole) {
      if k :| 0 <= k < |lengths| && Unsigned(lengths[k], 10).None? {
        var bad := first.(length := Some(lengths[k]));
        assert FoundIn(fields, bad) && Unanswerable(whole, bad);
      } else {
        var bad := first.(coding := Some("chunked"));
        assert FoundIn(fields, bad) && Unanswerable(whole, bad);
      }
    } else {
      forall found | FoundIn(fields, found) ensures !Unanswerable(whole, found) {
        AnswerableFound(whole, found);
      }
    }
  }

  lemma AnswerableFound(whole: string, found: Found)
    requires Answerable(whole) && FoundIn(HttpHeader.HeaderFields(AfterLine(whole)), found)
    ensures !Unanswerable(whole, found)
  {
    hide ChunksBreak, Unsigned, IsStatusLine, FindText, FirstLine, AfterLine, HttpHeader.HeaderRest, Lookup;
    hide HttpHeader.HeaderFields;
  }

  lemma BodyHasFate(found: Found, behindHead: int, waiting: int, version: string, tail: string, ended: Ended)
    requires BodyEnds(found, behindHead, waiting, version, tail, ended)
    ensures ended.outcome == BodyFate(behindHead, tail, found)
  {
    hide MeaningOf, Unsigned, Less;
  }

  /** The handlers of `ClientRead`, run one after the other on a channel, come to the same outcome. */
  lemma ReadHasFate(session: ClientRead.Session, text: string, outcome: Outcome)
    requires session.ReadsAs(text, outcome) && !session.channel.failed
    ensures exists found ::
              && (FindText(text, ServerRead.HEAD_END).Some? && IsStatusLine(FirstLine(text)) ==>
                  FoundIn(HttpHeader.HeaderFields(AfterLine(text)), found))
              && outcome == Fate(text, found)
  {
    hide MeaningOf, Unsigned, IsStatusLine, HttpHeader.HeaderRest, HttpHeader.HeaderFields, FoundIn, BodyEnds, BodyFate;
    hide OccursAt, StatusVersion, StatusText, FirstLine, AfterLine, FindText;
    match FindText(text, ServerRead.HEAD_END) {
      case None =>
        assert outcome == Fate(text, Found(None, None, None));
      case Some(h) =>
        if IsStatusLine(FirstLine(text)) {
          var fields, tail := HttpHeader.HeaderFields(AfterLine(text)), HttpHeader.HeaderRest(AfterLine(text));
          var waiting, found :|
            0 <= waiting <= |text| - (h + 4) && FoundIn(fields, found)
            && BodyEnds(found, |text| - (h + 4), waiting, session.response.version, tail, session.Left(outcome));
          BodyHasFate(found, |text| - (h + 4), waiting, session.response.version, tail, session.Left(outcome));
          assert outcome == Fate(text, found);
        } else {
          assert outcome == Fate(text, Found(None, None, None));
        }
    }
  }

  // Every handler keeps the session on track

  lemma HeadKeepsTrack(session: Session, completion: Completion)
    requires session.OnTrack() && session.phase.ReadingHead? && session.Possible(completion) && completion.Done?
    ensures session.After(completion).OnTrack()
  {
    hide MeaningOf, Unsigned, IsStatusLine, HttpHeader.HeaderRest, HttpHeader.HeaderFields, FoundIn, Less, FindText;
    hide FirstLine, AfterLine, StatusVersion, OccursAt;
    var arrived, later := session.Arrived(completion.received), session.incoming[completion.received..];
    assert session.whole == arrived + later by {
      assert session.incoming == session.incoming[..completion.received] + later;
    }
    FindTextPrefix(arrived, later, ServerRead.HEAD_END);
    ServerRead.HeadComplete(arrived, later);
  }

  lemma SizeLineKeepsTrack(session: Session, completion: Completion)
    requires session.OnTrack() && session.phase.ReadingSizeLine? && session.Possible(completion) && completion.Done?
    ensures session.After(completion).OnTrack()
  {
    hide MeaningOf, AnnouncedLength, FoundIn, FindText, Excess, Needed, AfterLine, IndexOf, Fate, OccursAt, ChunkThen;
    var arrived, later := session.Arrived(completion.received), session.incoming[completion.received..];
    var text := session.buffer + session.incoming;
    assert text == arrived + later by {
      assert session.incoming == session.incoming[..completion.received] + later;
    }
    ChunkedCoding.SizeLineWithMore(arrived, later);
    MeaningWithoutLength(text);
    if IndexOf(arrived, '\n') > 0 && AnnouncedLength(arrived).Some? {
      MeaningOfChunk(text);
      ChunkMeaning(AnnouncedLength(arrived).value, AfterLine(arrived), later);
    }
  }

  /** One chunk further on in the stream. */
  lemma ChunkMeaning(length: nat, buffer: string, later: string)
    ensures length <= MAX_ARRAY && length + 2 <= |buffer| ==>
              OutcomeOf(ChunkThen(length, buffer + later)) ==
              if length == 0 then Delivered else OutcomeOf(MeaningOf(buffer[length + 2..] + later))
  {
    hide MeaningOf;
    if length + 2 <= |buffer| {
      assert (buffer + later)[length + 2..] == buffer[length + 2..] + later;
    }
  }

  lemma ChunkKeepsTrack(session: Session, completion: Completion)
    requires session.OnTrack() && session.phase.ReadingChunk? && session.Possible(completion) && completion.Done?
    ensures session.After(completion).OnTrack()
  {
    hide MeaningOf, FoundIn, FindText, Fate, ChunkThen, AfterLine;
    var arrived, later := session.Arrived(completion.received), session.incoming[completion.received..];
    assert session.buffer + session.incoming == arrived + later by {
      assert session.incoming == session.incoming[..completion.received] + later;
    }
    ChunkMeaning(session.phase.length, arrived, later);
  }

  lemma FailureKeepsTrack(session: Session, completion: Completion)
    requires session.OnTrack() && session.phase.Pending() && session.Possible(completion) && completion.Failed?
    ensures session.After(completion).OnTrack()
  {
    hide MeaningOf, FoundIn, FindText, ChunkThen, AfterLine, FirstLine, IsStatusLine, BodyFate;
    MeaningWithoutLength(session.buffer + session.incoming);
  }

  lemma AfterKeepsTrack(session: Session, completion: Completion)
    requires session.OnTrack() && session.phase.Pending() && session.Possible(completion)
    ensures session.After(completion).OnTrack()
  {
    hide MeaningOf, FoundIn, FindText, ChunkThen, AfterLine, FirstLine, IsStatusLine, Fate;
    if completion.Failed? {
      FailureKeepsTrack(session, completion);
    } else if session.phase.ReadingHead? {
      HeadKeepsTrack(session, completion);
    } else if session.phase.ReadingSizeLine? {
      SizeLineKeepsTrack(session, completion);
    } else if session.phase.ReadingChunk? {
      ChunkKeepsTrack(session, completion);
    }
  }

  // Every handler uses up some of what is left

  lemma {:induction false} ShorterHeader(text: string)
    ensures |HttpHeader.HeaderRest(text)| <= |text|
    decreases |text|
  {
    if ':' in FirstLine(text) {
      ShorterHeader(AfterLine(text));
    }
  }

  lemma ShorterLine(text: string)
    ensures |AfterLine(text)| <= |text|
    ensures IndexOf(text, '\n') > 0 && text != "" ==> |AfterLine(text)| < |text|
  {}

  /** Every handler leaves fewer handlers to come on its connection. */
  lemma HandlersUseUp(session: Session, completion: Completion)
    requires session.OnTrack() && session.phase.Pending() && session.Possible(completion)
    ensures session.After(completion).Left() < session.Left()
  {
    hide MeaningOf, FoundIn, FindText, AfterLine, FirstLine, IsStatusLine, HttpHeader.HeaderRest, Excess, Needed;
    hide AnnouncedLength, StatusVersion, Less, Unsigned, IndexOf, Fate, ChunkThen, OutcomeOf;
    var arrived := session.Arrived(completion.received);
    ShorterLine(arrived);
    ShorterHeader(AfterLine(arrived));
  }

  /** What stays the same for the owner of the connection. */
  lemma AfterFacts(session: Session, completion: Completion)
    requires session.phase.Pending() && session.Possible(completion)
    ensures var next := session.After(completion);
            && next.connection == session.connection && next.reconnects == session.reconnects
            && next.whole == session.whole
            && (next.phase.BeforeHead() ==> session.phase.BeforeHead() && !session.phase.ReadingHead?)
            && !next.phase.Abandoned?
            && (if session.Handle(completion).CallBack? then next.phase == Finished(session.Handle(completion).error)
                else !next.phase.Finished?)
  {
    hide FindText, FirstLine, AfterLine, IsStatusLine, HttpHeader.HeaderRest, HttpHeader.HeaderFields, FoundIn;
    hide StatusVersion, AnnouncedLength, Excess, Needed, IndexOf, Unsigned;
  }
}
