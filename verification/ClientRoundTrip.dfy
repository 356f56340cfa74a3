/** What the server writes, and when the client recovers exactly that. */
module ClientRoundTrip {
  import opened Text
  import opened Numbers
  import opened Channels
  import opened Messages
  import opened Chunked
  import opened HttpHeader
  import opened ClientRead
  import opened ResponseRoundTrip
  import ChunkedCoding
  import ClientHandlers
  import RequestRoundTrip
  import ServerRead

  /** What the server may be asked to write for the client to get past the head. */
  predicate Writable(status: string, header: seq<Field>)
  {
    '\n' !in status && forall f :: f in header ==> FieldSurvives(f)
  }

  /** What the client's parsers make of a text: status line, fields, and what is left behind them. */
  ghost predicate ReadsBack(text: string, status: string, fields: seq<Field>, tail: string)
  {
    var line := FirstLine(text);
    && IsStatusLine(line) && StatusVersion(line) == "1.1" && StatusText(line) == status
    && HeaderFields(AfterLine(text)) == fields && HeaderRest(AfterLine(text)) == tail
  }

  /** The same, with the blank line found where the fields end. */
  ghost predicate HeadIs(text: string, status: string, fields: seq<Field>, tail: string)
  {
    && ReadsBack(text, status, fields, tail)
    && FindText(text, ServerRead.HEAD_END).Some?
    && |text| - (FindText(text, ServerRead.HEAD_END).value + 4) == |tail|
  }

  lemma HeadParses(status: string, header: seq<Field>, content: string, close: bool, rest: string)
    requires Writable(status, header)
    ensures HeadIs(ResponseText(status, header, content, close) + rest, status,
                   SentFields(header, |content|, close), content + rest)
  {
    RequestRoundTrip.LengthFieldSurvives(|content|);
    NoNewlineInStatusLine(status);
    StatusLineRead(status);
    hide FindText, FirstLine, AfterLine, HeaderFields, HeaderRest, HeaderText, IsStatusLine, StatusVersion, StatusText;
    hide IndexOf, FieldSurvives, Digits, AddsLength;
    var line, fields := "HTTP/1.1 " + status, SentFields(header, |content|, close);
    RequestRoundTrip.SentTextParses(line, fields, content + rest);
    Associative(line + CRLF + HeaderText(fields) + CRLF, content, rest);
  }

  /** The response as the client's caller sees it, content apart. */
  ghost predicate HeadRecovered(session: Session, status: string, fields: seq<Field>)
    reads session.response
  {
    session.response.version == "1.1" && session.response.statusCode == status && session.response.header == fields
  }

  /** The client gets past the head of a written response. */
  lemma HeadRead(session: Session, outcome: Outcome, status: string, header: seq<Field>, content: string, close: bool,
                 rest: string)
    requires Writable(status, header)
    requires session.ReadsAs(ResponseText(status, header, content, close) + rest, outcome)
    requires !session.channel.failed
    ensures var fields := SentFields(header, |content|, close);
            && HeadRecovered(session, status, fields)
            && TailEnds(|content| + |rest|, "1.1", fields, content + rest, session.Left(outcome))
  {
    hide FindText, FirstLine, AfterLine, HeaderFields, HeaderRest, ResponseText, IsStatusLine, StatusVersion;
    hide StatusText, IndexOf, OccursAt, SentFields, TailEnds, Writable;
    HeadParses(status, header, content, close, rest);
  }

  // Which responses are recovered

  /** Reading ends where the content does: by its length, or because the client reads on until the peer closes. */
  predicate Delimits(fields: seq<Field>, size: nat)
  {
    if Lookup(fields, "Content-Length") != [] then RequestRoundTrip.LengthDelimits(fields, size)
    else
      var codings, sessions := Lookup(fields, "Transfer-Encoding"), Lookup(fields, "Session");
      && "chunked" !in codings
      && (size == 0 || (sessions != [] && forall k :: 0 <= k < |sessions| ==> sessions[k] == "close"))
  }

  lemma SameVersion()
    ensures !Less("1.1", "1.1")
  {
    assert "1.1"[1..] == ".1" && ".1"[1..] == "1" && "1"[1..] == "";
  }

  /** With what `find` has landed on, the content may be missed exactly when it is not delimited. */
  predicate FoundDelimits(found: Found, size: nat)
  {
    match found.length
    case Some(v) => Unsigned(v, 10) == Some(size)
    case None => found.coding != Some("chunked") && (size == 0 || found.session == Some("close"))
  }

  lemma FoundDelimitsIff(fields: seq<Field>, size: nat)
    ensures Delimits(fields, size) <==> forall found :: FoundIn(fields, found) ==> FoundDelimits(found, size)
  {
    hide Lookup, Unsigned;
    var lengths, codings, sessions :=
      Lookup(fields, "Content-Length"), Lookup(fields, "Transfer-Encoding"), Lookup(fields, "Session");
    var first := Found(ServerRead.First(lengths), ServerRead.First(codings), ServerRead.First(sessions));
    assert FoundIn(fields, first);
    if !Delimits(fields, size) {
      if k :| 0 <= k < |lengths| && Unsigned(lengths[k], 10) != Some(size) {
        assert FoundIn(fields, first.(length := Some(lengths[k])));
      } else if lengths == [] && "chunked" in codings {
        assert FoundIn(fields, first.(coding := Some("chunked")));
      } else if k :| 0 <= k < |sessions| && sessions[k] != "close" {
        assert FoundIn(fields, first.(session := Some(sessions[k])));
      }
    }
  }

  lemma DelimitedEnds(found: Found, content: string, waiting: int, ended: Ended)
    requires FoundDelimits(found, |content|) && 0 <= waiting <= |content|
    requires BodyEnds(found, |content|, waiting, "1.1", content, ended)
    ensures ended == Ended(Delivered, content, "")
  {
    hide Unsigned, Less, MeaningOf;
    SameVersion();
    assert ended.incoming == "";
    assert ended.buffer + "" == ended.buffer;
  }

  /** An end in which the content is not what is handed over. */
  lemma OtherEnd(found: Found, content: string) returns (waiting: int, ended: Ended)
    requires !FoundDelimits(found, |content|)
    ensures 0 <= waiting <= |content| && BodyEnds(found, |content|, waiting, "1.1", content, ended)
    ensures ended != Ended(Delivered, content, "")
  {
    hide Unsigned, Less, MeaningOf;
    SameVersion();
    waiting := |content|;
    match found.length {
      case Some(v) =>
        match Unsigned(v, 10) {
          case None => ended := Ended(Threw, "", "");
          case Some(n) =>
            if |content| < n {
              ended := Ended(EndOfStream, "", "");
            } else {
              ended := Ended(Delivered, content[..n], content[n..]);
              assert content[..n] + content[n..] == content;
            }
        }
      case None =>
        if found.coding == Some("chunked") {
          ended := ChunkedCoding.ChunksAreDecoded(content);
        } else {
          ended := Ended(Delivered, "", content);
          assert "" + content == content;
        }
    }
  }

  /**
   * The client is sure to hand over exactly the content the server has written, however it arrives, if and only if the
   * fields delimit it.
   */
  lemma RecoveryIff(fields: seq<Field>, content: string)
    ensures (forall ended ::
               TailEnds(|content|, "1.1", fields, content, ended) ==> ended == Ended(Delivered, content, ""))
            <==> Delimits(fields, |content|)
  {
    hide BodyEnds, FoundIn, FoundDelimits, Delimits;
    FoundDelimitsIff(fields, |content|);
    if Delimits(fields, |content|) {
      forall ended | TailEnds(|content|, "1.1", fields, content, ended) ensures ended == Ended(Delivered, content, "") {
        var waiting, found :| 0 <= waiting <= |content| && FoundIn(fields, found)
                              && BodyEnds(found, |content|, waiting, "1.1", content, ended);
        DelimitedEnds(found, content, waiting, ended);
      }
    } else {
      var found :| FoundIn(fields, found) && !FoundDelimits(found, |content|);
      var waiting, ended := OtherEnd(found, content);
      assert TailEnds(|content|, "1.1", fields, content, ended);
    }
  }

  /** A response whose end only the closing connection marks: any part of the content may be all that is handed over. */
  lemma CloseDelimitedEnds(fields: seq<Field>, content: string, ended: Ended)
    requires Lookup(fields, "Content-Length") == Lookup(fields, "Transfer-Encoding") == Lookup(fields, "Session") == []
    ensures TailEnds(|content|, "1.1", fields, content, ended) <==>
            exists k :: 0 <= k <= |content| && ended == Ended(Delivered, content[..k], content[k..])
  {
    hide Lookup, Unsigned, Less, MeaningOf;
    SameVersion();
    var found := Found(None, None, None);
    assert FoundIn(fields, found);
    if TailEnds(|content|, "1.1", fields, content, ended) {
      var k := |ended.buffer|;
      assert content[..k] == ended.buffer && content[k..] == ended.incoming;
    }
    if k :| 0 <= k <= |content| && ended == Ended(Delivered, content[..k], content[k..]) {
      assert content[..k] + content[k..] == content;
      assert BodyEnds(found, |content|, |content| - k, "1.1", content, ended);
    }
  }

  /** The handler does just that when the head arrives with the first part of such a content. */
  lemma FirstPartIsHandedOver(status: string, header: seq<Field>, content: string, k: nat)
    requires Writable(status, header) && k <= |content|
    requires Lookup(header, "Content-Length") == Lookup(header, "Transfer-Encoding") == Lookup(header, "Session") == []
    ensures var arrived := ResponseText(status, header, content[..k], true);
            && arrived + content[k..] == ResponseText(status, header, content, true)
            && HeadIs(arrived, status, header, content[..k])
            && FoundIn(header, Found(None, None, None))
            && ClientHandlers.AfterHead(arrived, Found(None, None, None)) == ClientHandlers.CallBack(false)
  {
    var arrived := ResponseText(status, header, content[..k], true);
    SplitContent(status, header, content, k);
    assert SentFields(header, k, true) == header && content[..k] + "" == content[..k] && arrived + "" == arrived;
    hide ResponseText, SentFields, HeadIs, Writable, Lookup, ClientHandlers.AfterHead;
    HeadParses(status, header, content[..k], true, "");
    HeadCallsBack(arrived, status, header, content[..k]);
  }

  lemma SplitContent(status: string, header: seq<Field>, content: string, k: nat)
    requires k <= |content|
    ensures ResponseText(status, header, content[..k], true) + content[k..] ==
            ResponseText(status, header, content, true)
  {
    hide HeaderText;
    assert header + [] == header && content[..k] + content[k..] == content;
    Associative("HTTP/1.1 " + status + CRLF + HeaderText(header) + CRLF, content[..k], content[k..]);
  }

  lemma HeadCallsBack(text: string, status: string, fields: seq<Field>, tail: string)
    requires HeadIs(text, status, fields, tail)
    ensures ClientHandlers.AfterHead(text, Found(None, None, None)) == ClientHandlers.CallBack(false)
  {
    hide Less, FindText, FirstLine, AfterLine, HeaderFields, HeaderRest, IsStatusLine, StatusVersion, StatusText;
    SameVersion();
  }

  /** For instance nothing at all, of a page closed by the server. */
  lemma TruncatedPage()
    ensures SentFields([], 5, true) == [] && !Delimits([], 5)
    ensures TailEnds(5, "1.1", [], "hello", Ended(Delivered, "", "hello"))
  {
    assert "hello"[..0] == "" && "hello"[0..] == "hello";
    CloseDelimitedEnds([], "hello", Ended(Delivered, "", "hello"));
  }

  /** The server takes any spelling of the coding for chunks and adds no length, but the client takes just one. */
  lemma SpellingOfChunked(coding: string, size: nat, close: bool)
    requires CaseInsensitiveEqual(coding, "chunked")
    ensures var header := [("Transfer-Encoding", coding)];
            && SentFields(header, size, close) == header
            && (coding != "chunked" ==> (Delimits(header, size) <==> size == 0))
  {
    var header := [("Transfer-Encoding", coding)];
    assert IsChunked(header[0]) by {
      SameLetters();
    }
    hide CaseInsensitiveEqual, Unsigned;
    assert header[1..] == [] && header + [] == header;
    OtherNames();
    LookupOne(header[0], "Content-Length");
    LookupOne(header[0], "Transfer-Encoding");
    LookupOne(header[0], "Session");
    hide Lookup;
  }

  /** For instance a page of five bytes under "Chunked", of which nothing is handed over. */
  lemma MisspeltPage()
    ensures SentFields([("Transfer-Encoding", "Chunked")], 5, false) == [("Transfer-Encoding", "Chunked")]
    ensures TailEnds(5, "1.1", [("Transfer-Encoding", "Chunked")], "hello", Ended(Delivered, "", "hello"))
  {
    var coding := "Chunked";
    assert coding[0] != "chunked"[0] && forall k :: 0 <= k < 7 ==> ToLower(coding[k]) == ToLower("chunked"[k]);
    SpellingOfChunked(coding, 5, false);
    OtherNames();
    var fields, found := [("Transfer-Encoding", coding)], Found(None, Some(coding), None);
    LookupOne(fields[0], "Content-Length");
    LookupOne(fields[0], "Transfer-Encoding");
    LookupOne(fields[0], "Session");
    SameVersion();
    hide Lookup, Less;
    assert "" + "hello" == "hello";
    assert FoundIn(fields, found) && BodyEnds(found, 5, 5, "1.1", "hello", Ended(Delivered, "", "hello"));
  }

  lemma SameLetters()
    ensures CaseInsensitiveEqual("Transfer-Encoding", "transfer-encoding")
  {}

  lemma OtherNames()
    ensures !CaseInsensitiveEqual("Transfer-Encoding", "Content-Length")
    ensures !CaseInsensitiveEqual("Transfer-Encoding", "Session")
    ensures CaseInsensitiveEqual("Transfer-Encoding", "Transfer-Encoding")
  {}

  lemma SameName(name: string)
    ensures CaseInsensitiveEqual(name, "content-length") <==> CaseInsensitiveEqual(name, "Content-Length")
  {
    var a, b := "content-length", "Content-Length";
    assert forall k :: 0 <= k < |a| ==> ToLower(a[k]) == ToLower(b[k]);
  }

  lemma {:induction false} NoOtherLength(header: seq<Field>)
    requires forall k :: 0 <= k < |header| ==> !IsLength(header[k])
    ensures Lookup(header, "Content-Length") == []
  {
    if header != [] {
      assert !IsLength(header[0]);
      SameName(header[0].0);
      assert forall k :: 0 <= k < |header[1..]| ==> header[1..][k] == header[k + 1];
      NoOtherLength(header[1..]);
    }
  }

  /** The length the server adds delimits the content. */
  lemma AddedLengthDelimits(header: seq<Field>, size: nat, close: bool)
    requires AddsLength(header, close) && size < UINT64
    ensures RequestRoundTrip.LengthDelimits(SentFields(header, size, close), size)
    ensures Delimits(SentFields(header, size, close), size)
  {
    var own := [("Content-Length", Digits(size, 10))];
    assert Lookup(header + own, "Content-Length") == [Digits(size, 10)] by {
      NoOtherLength(header);
      LookupConcat(header, own, "Content-Length");
      RequestRoundTrip.NamesDiffer();
      assert own[1..] == [];
    }
    RequestRoundTrip.LengthReadBack(size);
    hide Lookup, Digits, Unsigned, IsLength, IsChunked;
  }

  // Whole exchanges

  /**
   * A response with a length, the server's or the caller's own, is recovered by the client under every fragmentation:
   * version, status, fields and content; only bytes sent behind the response can follow the content in the buffer.
   */
  lemma ClientRecoversResponse(session: Session, outcome: Outcome, status: string, header: seq<Field>, content: string,
                               close: bool, rest: string)
    requires Writable(status, header)
    requires RequestRoundTrip.LengthDelimits(SentFields(header, |content|, close), |content|)
    requires session.ReadsAs(ResponseText(status, header, content, close) + rest, outcome)
    requires !session.channel.failed
    ensures outcome == Delivered && HeadRecovered(session, status, SentFields(header, |content|, close))
    ensures exists k ::
              && 0 <= k <= |rest|
              && session.channel.buffer == content + rest[..k] && session.channel.incoming == rest[k..]
  {
    hide ResponseText, Unsigned, Writable, SentFields, Lookup, Ends;
    HeadRead(session, outcome, status, header, content, close, rest);
    RequestRoundTrip.BufferedSplit(session.channel.buffer, session.channel.incoming, content, rest);
  }

  /** With nothing behind it, any response whose fields delimit the content is recovered. */
  lemma ClientRecoversDelimited(session: Session, outcome: Outcome, status: string, header: seq<Field>, content: string,
                                close: bool)
    requires Writable(status, header) && Delimits(SentFields(header, |content|, close), |content|)
    requires session.ReadsAs(ResponseText(status, header, content, close), outcome) && !session.channel.failed
    ensures outcome == Delivered && HeadRecovered(session, status, SentFields(header, |content|, close))
    ensures session.channel.buffer == content && session.channel.incoming == ""
  {
    hide ResponseText, SentFields, Writable, Delimits, TailEnds, Session.ReadsAs, HeadRecovered;
    var text, fields := ResponseText(status, header, content, close), SentFields(header, |content|, close);
    assert text + "" == text && content + "" == content;
    HeadRead(session, outcome, status, header, content, close, "");
    RecoveryIff(fields, content);
  }

  lemma ChunkedAddsNoLength(header: seq<Field>, close: bool)
    requires "chunked" in Lookup(header, "Transfer-Encoding")
    ensures !AddsLength(header, close)
  {
    var k := ValueAt(header, "Transfer-Encoding", "chunked");
    SameCoding(header[k].0);
  }

  /** Every value found is filed somewhere under the name. */
  lemma {:induction false} ValueAt(header: seq<Field>, name: string, value: string) returns (k: nat)
    requires value in Lookup(header, name)
    ensures k < |header| && CaseInsensitiveEqual(header[k].0, name) && header[k].1 == value
  {
    hide CaseInsensitiveEqual;
    if CaseInsensitiveEqual(header[0].0, name) && header[0].1 == value {
      k := 0;
    } else {
      var j := ValueAt(header[1..], name, value);
      k := j + 1;
    }
  }

  lemma SameCoding(name: string)
    ensures CaseInsensitiveEqual(name, "transfer-encoding") <==> CaseInsensitiveEqual(name, "Transfer-Encoding")
    ensures CaseInsensitiveEqual("chunked", "chunked")
  {
    var a, b := "transfer-encoding", "Transfer-Encoding";
    assert forall k :: 0 <= k < |a| ==> ToLower(a[k]) == ToLower(b[k]);
  }

  /** A response the caller has put in chunks: the client hands over the data behind any bytes read too much. */
  lemma ClientRecoversChunkedResponse(session: Session, outcome: Outcome, status: string, header: seq<Field>,
                                      chunks: seq<ChunkedCoding.Chunk>, last: ChunkedCoding.Chunk, close: bool,
                                      rest: string)
    requires Writable(status, header) && ChunkedCoding.WellFormedBody(chunks, last)
    requires Lookup(header, "Content-Length") == [] && Lookup(header, "Transfer-Encoding") == ["chunked"]
    requires var content := ChunkedCoding.EncodedBody(chunks, last);
             session.ReadsAs(ResponseText(status, header, content, close) + rest, outcome)
    requires !session.channel.failed
    ensures outcome == Delivered && HeadRecovered(session, status, header)
    ensures exists k ::
              && 0 <= k <= |rest|
              && session.channel.buffer == rest[..k] + ChunkedCoding.Data(chunks)
              && session.channel.incoming == rest[k..]
  {
    hide ResponseText, Writable, Lookup, MeaningOf, Unsigned, AddsLength;
    hide ChunkedCoding.EncodedBody, ChunkedCoding.Data, ChunkedCoding.WellFormedBody;
    var content := ChunkedCoding.EncodedBody(chunks, last);
    ChunkedAddsNoLength(header, close);
    HeadRead(session, outcome, status, header, content, close, rest);
    ChunkedCoding.BodyReadBack(chunks, last, rest);
    assert header + [] == header;
    assert "" + ChunkedCoding.Data(chunks) == ChunkedCoding.Data(chunks);
  }

  /**
   * From the server's call to the client's callback, however the text arrives: the head always comes through, and the
   * content whenever the fields delimit it.
   */
  method Exchange(status: string, header: seq<Field>, content: string, close: bool, rest: string, arrived: nat)
    returns (session: Session, outcome: Outcome)
    requires Writable(status, header) && |ResponseText(status, header, content, close) + rest| < NPOS
    ensures session.channel.failed <==> outcome == Interrupted
    ensures !session.channel.failed ==> HeadRecovered(session, status, SentFields(header, |content|, close))
    ensures !session.channel.failed
            && RequestRoundTrip.LengthDelimits(SentFields(header, |content|, close), |content|) ==>
              && outcome == Delivered
              && exists k ::
                   && 0 <= k <= |rest|
                   && session.channel.buffer == content + rest[..k] && session.channel.incoming == rest[k..]
    ensures !session.channel.failed && rest == "" && Delimits(SentFields(header, |content|, close), |content|) ==>
              outcome == Delivered && session.channel.buffer == content && session.channel.incoming == ""
  {
    hide ResponseText, SentFields, Writable, Delimits, RequestRoundTrip.LengthDelimits, HeadRecovered, TailEnds;
    var response := new ResponseRoundTrip.Response(close);
    response.Write(status, content, header);
    assert response.stream == ResponseText(status, header, content, close);
    var stream := response.stream + rest;
    var n := if arrived <= |stream| then arrived else |stream|;
    session := new Session(stream[..n], stream[n..]);
    assert stream[..n] + stream[n..] == stream;
    outcome := session.Read();
    ghost var fields := SentFields(header, |content|, close);
    if !session.channel.failed {
      HeadRead(session, outcome, status, header, content, close, rest);
      NeverInterrupted(|content| + |rest|, fields, content + rest, session.Left(outcome));
      if RequestRoundTrip.LengthDelimits(fields, |content|) {
        ClientRecoversResponse(session, outcome, status, header, content, close, rest);
      }
      if rest == "" && Delimits(fields, |content|) {
        assert stream == ResponseText(status, header, content, close);
        ClientRecoversDelimited(session, outcome, status, header, content, close);
      }
    }
  }

  lemma NeverInterrupted(behindHead: int, fields: seq<Field>, tail: string, ended: Ended)
    requires TailEnds(behindHead, "1.1", fields, tail, ended)
    ensures ended.outcome != Interrupted
  {
    hide Unsigned, MeaningOf, FoundIn, Less;
  }

  // After a reconnect

  lemma HeaderStep(text: string)
    ensures if ':' in FirstLine(text)
            then HeaderFields(text) == LineField(FirstLine(text)) + HeaderFields(AfterLine(text))
                 && HeaderRest(text) == HeaderRest(AfterLine(text))
            else HeaderFields(text) == [] && HeaderRest(text) == AfterLine(text)
  {}

  /** A text whose header stops only at the blank line behind these fields has at least one field more. */
  lemma {:induction false} OneFieldMore(leftover: string, line: string, fields: seq<Field>, tail: string)
    requires '\n' !in line && forall f :: f in fields ==> FieldSurvives(f)
    ensures var text := leftover + (line + CRLF + (HeaderText(fields) + CRLF + tail));
            HeaderRest(text) == tail ==> |HeaderFields(text)| > |fields|
    decreases |leftover|
  {
    hide HeaderText, HeaderFields, HeaderRest, FirstLine, AfterLine, FieldSurvives, LineField, IndexOf;
    var sent := line + CRLF + (HeaderText(fields) + CRLF + tail);
    if '\n' in leftover {
      HeaderStep(leftover + sent);
      FirstLinePrefix(leftover, sent);
      ShorterRest(leftover);
      OneFieldMore(AfterLine(leftover), line, fields, tail);
    } else {
      OneFieldHere(leftover, line, fields, tail);
    }
  }

  lemma ShorterRest(text: string)
    requires '\n' in text
    ensures |AfterLine(text)| < |text|
  {}

  lemma OneFieldHere(leftover: string, line: string, fields: seq<Field>, tail: string)
    requires '\n' !in leftover && '\n' !in line && forall f :: f in fields ==> FieldSurvives(f)
    ensures var text := leftover + (line + CRLF + (HeaderText(fields) + CRLF + tail));
            HeaderRest(text) == tail ==> |HeaderFields(text)| > |fields|
  {
    hide HeaderText, HeaderFields, HeaderRest, FirstLine, AfterLine, FieldSurvives, LineField, IndexOf;
    var behind := HeaderText(fields) + CRLF + tail;
    var joined, text := leftover + line + "\r", leftover + (line + CRLF + behind);
    assert text == joined + "\n" + behind;
    LineThenRest(joined, behind);
    HeaderStep(text);
    HeaderReadBack(fields, tail);
    if ':' in joined {
      OneField(leftover + line);
    }
  }

  lemma OneField(line: string)
    requires ':' in line
    ensures |LineField(line + "\r")| == 1
  {}

  /** A status line behind leftover text reads as another version or another status. */
  lemma OtherStatusLine(leftover: string, status: string)
    requires leftover != "" && '\n' !in leftover
    ensures var line := leftover + "HTTP/1.1 " + status + "\r";
            !(IsStatusLine(line) && StatusVersion(line) == "1.1" && StatusText(line) == status)
  {
    var line := leftover + "HTTP/1.1 " + status + "\r";
    var blank := IndexOf(leftover, ' ');
    if blank == |leftover| {
      assert line[|leftover| + 8] == ' ';
      assert forall k :: 0 <= k < |leftover| + 8 ==> line[k] == (leftover + "HTTP/1.1")[k];
      IndexOfUnique(line, ' ', |leftover| + 8);
      assert |StatusVersion(line)| == |leftover| + 3;
    } else {
      assert forall k :: 0 <= k < |leftover| ==> line[k] == leftover[k];
      IndexOfUnique(line, ' ', blank);
      assert |StatusText(line)| > |status|;
    }
  }

  /**
   * The reconnect branch keeps the stream buffer. A response read on the new connection is recovered if and only if
   * the failed connection had delivered nothing.
   */
  lemma ReconnectRecoversIff(leftover: string, status: string, header: seq<Field>, content: string, close: bool,
                             rest: string)
    requires Writable(status, header)
    ensures ReadsBack(leftover + (ResponseText(status, header, content, close) + rest), status,
                      SentFields(header, |content|, close), content + rest)
            <==> leftover == ""
  {
    hide ResponseText, SentFields, ReadsBack, Writable;
    var sent := ResponseText(status, header, content, close) + rest;
    if leftover == "" {
      assert leftover + sent == sent;
      HeadParses(status, header, content, close, rest);
    } else {
      LeftoverSpoils(leftover, status, header, content, close, rest);
    }
  }

  lemma LeftoverSpoils(leftover: string, status: string, header: seq<Field>, content: string, close: bool, rest: string)
    requires Writable(status, header) && leftover != ""
    ensures !ReadsBack(leftover + (ResponseText(status, header, content, close) + rest), status,
                       SentFields(header, |content|, close), content + rest)
  {
    hide FindText, FirstLine, AfterLine, HeaderFields, HeaderRest, HeaderText, IsStatusLine, StatusVersion, StatusText;
    hide IndexOf, SentFields, FieldSurvives;
    var fields, tail := SentFields(header, |content|, close), content + rest;
    var line := "HTTP/1.1 " + status;
    var behind := HeaderText(fields) + CRLF + tail;
    SentFieldsSurvive(header, |content|, close);
    NoNewlineInStatusLine(status);
    assert ResponseText(status, header, content, close) + rest == line + CRLF + behind;
    if '\n' in leftover {
      FirstLinePrefix(leftover, line + CRLF + behind);
      OneFieldMore(AfterLine(leftover), line, fields, tail);
    } else {
      var joined := leftover + "HTTP/1.1 " + status + "\r";
      assert leftover + (line + CRLF + behind) == joined + "\n" + behind;
      LineThenRest(joined, behind);
      OtherStatusLine(leftover, status);
    }
  }

  lemma SentFieldsSurvive(header: seq<Field>, size: nat, close: bool)
    requires forall f :: f in header ==> FieldSurvives(f)
    ensures forall f :: f in SentFields(header, size, close) ==> FieldSurvives(f)
  {
    hide AddsLength, Digits, FieldSurvives;
    RequestRoundTrip.LengthFieldSurvives(size);
  }
}
