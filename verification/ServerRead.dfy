/** The server's reading of one request from a socket that delivers bytes in pieces of any size. */
module ServerRead {
  import opened Text
  import opened Numbers
  import opened Channels
  import opened Messages
  import opened Chunked
  import HttpHeader

  const HEAD_END: string := "\r\n\r\n"

  /** A blank line in place: the delimiter of the head, character by character. */
  predicate BlankAt(s: string, j: nat)
  {
    j + 4 <= |s| && s[j] == '\r' && s[j + 1] == '\n' && s[j + 2] == '\r' && s[j + 3] == '\n'
  }

  lemma BlankAtIff(s: string, j: nat)
    ensures BlankAt(s, j) <==> OccursAt(s, HEAD_END, j)
  {
    if j + 4 <= |s| {
      var t := s[j..j + 4];
      assert t[0] == s[j] && t[1] == s[j + 1] && t[2] == s[j + 2] && t[3] == s[j + 3];
    }
  }

  /** A blank line stops the header loop, at the latest. */
  lemma {:induction false} BlankLineStops(text: string, j: nat)
    requires BlankAt(text, j)
    ensures '\n' in text && HttpHeader.StopsInside(AfterLine(text))
    decreases |text|
  {
    var i, rest := IndexOf(text, '\n'), AfterLine(text);
    if i == j + 1 {
      IndexOfUnique(rest, '\n', 1);
    } else {
      assert BlankAt(rest, j - i - 1);
      BlankLineStops(rest, j - i - 1);
    }
  }

  /** Once the blank line has arrived, nothing that arrives later changes the head. */
  lemma HeadComplete(received: string, unread: string)
    requires FindText(received, HEAD_END).Some?
    ensures '\n' in received && HttpHeader.StopsInside(AfterLine(received)) && HttpHeader.Stops(AfterLine(received))
    ensures FirstLine(received + unread) == FirstLine(received)
    ensures HttpHeader.HeaderFields(AfterLine(received + unread)) == HttpHeader.HeaderFields(AfterLine(received))
    ensures HttpHeader.HeaderRest(AfterLine(received + unread)) == HttpHeader.HeaderRest(AfterLine(received)) + unread
  {
    BlankAtIff(received, FindText(received, HEAD_END).value);
    BlankLineStops(received, FindText(received, HEAD_END).value);
    HttpHeader.HeaderPrefix(AfterLine(received), unread);
    FirstLinePrefix(received, unread);
  }

  /** header.find: any of the values filed under the name. */
  method Find(fields: seq<Field>, name: string) returns (value: Option<string>)
    ensures value.None? <==> Lookup(fields, name) == []
    ensures value.Some? ==> value.value in Lookup(fields, name)
  {
    var values := Lookup(fields, name);
    if values == [] {
      value := None;
    } else {
      var i :| 0 <= i < |values|;
      value := Some(values[i]);
    }
  }

  /** What is left of the stream behind the header, exactly so many bytes of it still on the wire. */
  predicate Buffered(buffer: string, incoming: string, tail: string, onTheWire: int)
  {
    buffer + incoming == tail && |incoming| == onTheWire
  }

  /** A possible result of `find`: any of the values filed under the name. */
  predicate Finds(fields: seq<Field>, name: string, value: Option<string>)
  {
    if value.None? then Lookup(fields, name) == [] else value.value in Lookup(fields, name)
  }

  function First(values: seq<string>): Option<string>
  {
    if values == [] then None else Some(values[0])
  }

  /** What `find` has landed on among the fields that say where the body ends. */
  datatype Found = Found(length: Option<string>, coding: Option<string>)

  predicate FoundIn(fields: seq<Field>, found: Found)
  {
    Finds(fields, "Content-Length", found.length) && Finds(fields, "Transfer-Encoding", found.coding)
  }

  /**
   * How a body of a given length may end when `waiting` of the bytes behind the head have not arrived as it is about to
   * be read: only the bytes missing of the content are taken off the wire. `refused` is the end without a number.
   */
  predicate LengthEnds(length: Option<nat>, behindHead: int, waiting: int, tail: string, refused: Outcome, ended: Ended)
  {
    match length
    case None => ended.outcome == refused
    case Some(n) =>
      if behindHead < n then ended.outcome == EndOfStream
      else
        && ended.outcome == Delivered
        && Buffered(ended.buffer, ended.incoming, tail, if waiting <= behindHead - n then waiting else behindHead - n)
  }

  /** A length wins over a transfer coding, and without either the body is whatever came along. */
  ghost predicate BodyEnds(found: Found, behindHead: int, waiting: int, tail: string, ended: Ended)
  {
    match found.length
    case Some(v) => LengthEnds(Unsigned(v, 10), behindHead, waiting, tail, ProtocolError, ended)
    case None =>
      if found.coding == Some("chunked") then Ends(ended, MeaningOf(tail), "")
      else ended.outcome == Delivered && Buffered(ended.buffer, ended.incoming, tail, waiting)
  }

  /** How reading what is behind the head may end, whatever part of it has already arrived. */
  ghost predicate TailEnds(behindHead: int, fields: seq<Field>, tail: string, ended: Ended)
  {
    exists waiting, found ::
      0 <= waiting <= behindHead && FoundIn(fields, found) && BodyEnds(found, behindHead, waiting, tail, ended)
  }

  class Session {
    const channel: Channel
    const request: Request

    constructor (buffer: string, incoming: string)
      ensures channel.buffer == buffer && channel.incoming == incoming && channel.good && !channel.failed
      ensures fresh(channel) && fresh(request)
      ensures request.queryString == ""
    {
      channel := new Channel(buffer, incoming);
      request := new Request();
    }

    ghost function Left(outcome: Outcome): Ended
      reads channel
    {
      Ended(outcome, channel.buffer, channel.incoming)
    }

    /** What the whole byte stream means, independently of the pieces it came in. */
    ghost predicate ReadsAs(text: string, outcome: Outcome)
      reads channel, request
    {
      if channel.failed then outcome == Interrupted
      else
        match FindText(text, HEAD_END)
        case None => outcome == EndOfStream
        case Some(h) =>
          match ReadRequestLine(FirstLine(text))
          case None => outcome == ProtocolError
          case Some(parts) =>
            && request.Holds(parts, "", HttpHeader.HeaderFields(AfterLine(text)))
            && TailEnds(|text| - (h + 4), HttpHeader.HeaderFields(AfterLine(text)),
                        HttpHeader.HeaderRest(AfterLine(text)), Left(outcome))
    }

    /** read: head, then body. The outcome is the meaning of the stream for every way of cutting it up. */
    method Read() returns (outcome: Outcome)
      requires channel.good && !channel.failed && |channel.buffer + channel.incoming| < NPOS
      requires request.queryString == ""
      modifies channel, request
      ensures ReadsAs(old(channel.buffer + channel.incoming), outcome)
    {
      hide HttpHeader.StopsInside, HttpHeader.Stops, HttpHeader.HeaderFields, HttpHeader.HeaderRest;
      hide ReadRequestLine, FirstLine, AfterLine, FindText, BodyEnds, FoundIn, Request.Holds;
      ghost var text := channel.buffer + channel.incoming;
      var read := channel.ReadUntil(HEAD_END);
      if read.Failed? {
        return Interrupted;
      }
      if read.Eof? {
        return EndOfStream;
      }
      ghost var received, unread := channel.buffer, channel.incoming;
      var numAdditionalBytes: nat := |channel.buffer| - read.count;
      hide OccursAt, IndexOf;
      HeadComplete(received, unread);
      var ok := request.Parse(channel);
      if !ok {
        return ProtocolError;
      }
      assert channel.buffer + channel.incoming == HttpHeader.HeaderRest(AfterLine(text));
      ghost var found;
      ghost var fields := HttpHeader.HeaderFields(AfterLine(text));
      assert request.header == fields by {
        HeldFields(request, ReadRequestLine(FirstLine(text)).value, fields);
      }
      outcome, found := ReadBody(numAdditionalBytes);
      assert 0 <= |unread| <= numAdditionalBytes + |unread| && FoundIn(fields, found);
    }

    lemma HeldFields(request: Request, parts: RequestLine, fields: seq<Field>)
      requires request.Holds(parts, "", fields)
      ensures request.header == fields
    {}

    /** The continuation once the header is parsed. */
    method ReadBody(numAdditionalBytes: nat) returns (outcome: Outcome, ghost found: Found)
      requires channel.good && !channel.failed
      modifies channel
      ensures FoundIn(request.header, found)
      ensures if channel.failed then outcome == Interrupted
              else BodyEnds(found, numAdditionalBytes + old(|channel.incoming|), old(|channel.incoming|),
                            old(channel.buffer + channel.incoming), Left(outcome))
    {
      hide Unsigned, MeaningOf, Lookup, LengthEnds;
      found := Found(First(Lookup(request.header, "Content-Length")),
                     First(Lookup(request.header, "Transfer-Encoding")));
      var length := Find(request.header, "Content-Length");
      if length.Some? {
        found := found.(length := length);
        outcome := ReadContent(length.value, numAdditionalBytes);
        return;
      }
      var coding := Find(request.header, "Transfer-Encoding");
      found := found.(coding := coding);
      if coding.Some? && coding.value == "chunked" {
        var reader := new Reader(channel);
        outcome := reader.ReadLine();
        return;
      }
      outcome := Delivered;
    }

    /** Content of a given length. */
    method ReadContent(length: string, numAdditionalBytes: nat) returns (outcome: Outcome)
      requires !channel.failed
      modifies channel`buffer, channel`incoming, channel`failed
      ensures if channel.failed then outcome == Interrupted
              else LengthEnds(Unsigned(length, 10), numAdditionalBytes + old(|channel.incoming|),
                              old(|channel.incoming|), old(channel.buffer + channel.incoming), ProtocolError,
                              Left(outcome))
    {
      hide Unsigned;
      var contentLength := Unsigned(length, 10);
      if contentLength.None? {
        return ProtocolError;
      }
      if contentLength.value > numAdditionalBytes {
        var read := channel.ReadExactly(contentLength.value - numAdditionalBytes);
        if read.Failed? {
          return Interrupted;
        }
        if read.Eof? {
          return EndOfStream;
        }
      }
      return Delivered;
    }
  }
}
