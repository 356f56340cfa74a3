/** The client's reading of one response, and when it recovers what the server has written. */
module ClientRead {
  import opened Text
  import opened Numbers
  import opened Channels
  import opened Messages
  import opened Chunked
  import HttpHeader
  import ServerRead

  /** std::string comparison. */
  predicate Less(a: string, b: string)
  {
    b != "" && (a == "" || a[0] < b[0] || (a[0] == b[0] && Less(a[1..], b[1..])))
  }

  /** What `find` has landed on among the fields that say where the body ends. */
  datatype Found = Found(length: Option<string>, coding: Option<string>, session: Option<string>)

  predicate FoundIn(fields: seq<Field>, found: Found)
  {
    && ServerRead.Finds(fields, "Content-Length", found.length)
    && ServerRead.Finds(fields, "Transfer-Encoding", found.coding)
    && ServerRead.Finds(fields, "Session", found.session)
  }

  /** Without length and chunks an old version, or a field named Session, makes the client read to the end. */
  predicate ReadsToEnd(version: string, found: Found)
  {
    Less(version, "1.1") || found.session == Some("close")
  }

  /**
   * How the body may end when `waiting` of the bytes behind the head have not arrived as it is about to be read. A
   * length wins over a transfer coding; a length that is no number leaves the handler as an exception.
   */
  ghost predicate BodyEnds(found: Found, behindHead: int, waiting: int, version: string, tail: string, ended: Ended)
  {
    match found.length
    case Some(v) => ServerRead.LengthEnds(Unsigned(v, 10), behindHead, waiting, tail, Threw, ended)
    case None =>
      if found.coding == Some("chunked") then Ends(ended, MeaningOf(tail), "")
      else
        && ended.outcome == Delivered
        && ServerRead.Buffered(ended.buffer, ended.incoming, tail, if ReadsToEnd(version, found) then 0 else waiting)
  }

  /** How reading what is behind the head may end, whatever part of it has already arrived. */
  ghost predicate TailEnds(behindHead: int, version: string, fields: seq<Field>, tail: string, ended: Ended)
  {
    exists waiting, found ::
      0 <= waiting <= behindHead && FoundIn(fields, found) && BodyEnds(found, behindHead, waiting, version, tail, ended)
  }

  class Session {
    const channel: Channel
    const response: Response

    constructor (buffer: string, incoming: string)
      ensures channel.buffer == buffer && channel.incoming == incoming && channel.good && !channel.failed
      ensures fresh(channel) && fresh(response)
    {
      channel := new Channel(buffer, incoming);
      response := new Response();
    }

    ghost function Left(outcome: Outcome): Ended
      reads channel
    {
      Ended(outcome, channel.buffer, channel.incoming)
    }

    /** What the whole byte stream means, independently of the pieces it came in. */
    ghost predicate ReadsAs(text: string, outcome: Outcome)
      reads channel, response
    {
      if channel.failed then outcome == Interrupted
      else
        match FindText(text, ServerRead.HEAD_END)
        case None => outcome == EndOfStream
        case Some(h) =>
          var line := FirstLine(text);
          if !IsStatusLine(line) then outcome == ProtocolError
          else
            && response.version == StatusVersion(line) && response.statusCode == StatusText(line)
            && response.header == HttpHeader.HeaderFields(AfterLine(text))
            && TailEnds(|text| - (h + 4), response.version, response.header,
                        HttpHeader.HeaderRest(AfterLine(text)), Left(outcome))
    }

    /** read: the outcome is the meaning of the stream for every way of cutting it up. */
    method Read() returns (outcome: Outcome)
      requires channel.good && !channel.failed && |channel.buffer + channel.incoming| < NPOS
      modifies channel, response
      ensures ReadsAs(old(channel.buffer + channel.incoming), outcome)
    {
      hide HttpHeader.StopsInside, HttpHeader.Stops, HttpHeader.HeaderFields, HttpHeader.HeaderRest;
      hide FirstLine, AfterLine, FindText, BodyEnds, IsStatusLine, StatusVersion, StatusText, FoundIn;
      ghost var text := channel.buffer + channel.incoming;
      var read := channel.ReadUntil(ServerRead.HEAD_END);
      if read.Failed? {
        return Interrupted;
      }
      if read.Eof? {
        return EndOfStream;
      }
      ghost var received, unread := channel.buffer, channel.incoming;
      var numAdditionalBytes: nat := |channel.buffer| - read.count;
      hide OccursAt;
      ServerRead.HeadComplete(received, unread);
      var ok := response.Parse(channel);
      if !ok {
        return ProtocolError;
      }
      assert channel.buffer + channel.incoming == HttpHeader.HeaderRest(AfterLine(text));
      ghost var found;
      outcome, found := ReadBody(numAdditionalBytes);
      assert 0 <= |unread| <= numAdditionalBytes + |unread| && FoundIn(response.header, found);
    }

    /** The continuation once the header is parsed. */
    method ReadBody(numAdditionalBytes: nat) returns (outcome: Outcome, ghost found: Found)
      requires channel.good && !channel.failed
      modifies channel
      ensures FoundIn(response.header, found)
      ensures if channel.failed then outcome == Interrupted
              else BodyEnds(found, numAdditionalBytes + old(|channel.incoming|), old(|channel.incoming|),
                            response.version, old(channel.buffer + channel.incoming), Left(outcome))
    {
      hide Unsigned, MeaningOf, Less, Lookup, ServerRead.LengthEnds;
      found := Found(ServerRead.First(Lookup(response.header, "Content-Length")),
                     ServerRead.First(Lookup(response.header, "Transfer-Encoding")),
                     ServerRead.First(Lookup(response.header, "Session")));
      var length := ServerRead.Find(response.header, "Content-Length");
      if length.Some? {
        found := found.(length := length);
        outcome := ReadContent(length.value, numAdditionalBytes);
        return;
      }
      var coding := ServerRead.Find(response.header, "Transfer-Encoding");
      found := found.(coding := coding);
      if coding.Some? && coding.value == "chunked" {
        var reader := new Reader(channel);
        outcome := reader.ReadLine();
        return;
      }
      var session := ServerRead.Find(response.header, "Session");
      found := found.(session := session);
      if Less(response.version, "1.1") || (session.Some? && session.value == "close") {
        var read := channel.ReadToEnd();
        outcome := if read.Failed? then Interrupted else Delivered;
        return;
      }
      outcome := Delivered;
    }

    /** Content of a given length. */
    method ReadContent(length: string, numAdditionalBytes: nat) returns (outcome: Outcome)
      requires !channel.failed
      modifies channel`buffer, channel`incoming, channel`failed
      ensures if channel.failed then outcome == Interrupted
              else ServerRead.LengthEnds(Unsigned(length, 10), numAdditionalBytes + old(|channel.incoming|),
                                         old(|channel.incoming|), old(channel.buffer + channel.incoming), Threw,
                                         Left(outcome))
    {
      hide Unsigned;
      var contentLength := Unsigned(length, 10);
      if contentLength.None? {
        return Threw;
      }
      if contentLength.value > numAdditionalBytes {
        var read := channel.ReadExactly(contentLength.value - numAdditionalBytes);
        if read.Failed? {
          return Interrupted;
        }
        if read.Eof? {
          return EndOfStream;
        }
      }
      return Delivered;
    }
  }
}
