/** What the client writes, and that the server reads exactly that. */
module RequestRoundTrip {
  import opened Text
  import opened Numbers
  import opened Channels
  import opened Messages
  import opened HttpHeader
  import Chunked
  import ChunkedCoding
  import ServerRead

  function Target(path: string): string
  {
    if path == "" then "/" else path
  }

  function FirstLineText(method_: string, path: string): string
  {
    method_ + " " + Target(path) + " HTTP/1.1"
  }

  /** The header lines of a request: Host, the caller's fields and, when the client adds it, the content's length. */
  function SentFields(host: string, header: seq<Field>, content: string, addLength: bool): seq<Field>
  {
    [("Host", host)] + header + if addLength then [("Content-Length", Digits(|content|, 10))] else []
  }

  function RequestText(host: string, method_: string, path: string, header: seq<Field>, content: string,
                       addLength: bool): string
  {
    FirstLineText(method_, path) + CRLF + HeaderText(SentFields(host, header, content, addLength)) + CRLF + content
  }

  /** Whether the length is added; `find` may land on any of several transfer codings. */
  ghost predicate AddsLength(header: seq<Field>, content: string, addLength: bool)
  {
    if content == "" || Lookup(header, "Content-Length") != [] then !addLength
    else if Lookup(header, "Transfer-Encoding") == [] then addLength
    else exists v :: v in Lookup(header, "Transfer-Encoding") && addLength == (v != "chunked")
  }

  /** Prints fields in the order the container lists them. */
  method WriteFields(fields: seq<Field>) returns (text: string)
    ensures text == HeaderText(fields)
  {
    hide FieldLine;
    text := "";
    for i := 0 to |fields|
      invariant text == HeaderText(fields[..i])
    {
      FlatMapNext(FieldLine, fields, i);
      text := text + FieldLine(fields[i]);
    }
    assert fields[..|fields|] == fields;
  }

  /** create_request_header followed by the rest of `request`. */
  method WriteRequest(host: string, method_: string, path: string, header: seq<Field>, content: string)
    returns (text: string)
    ensures exists addLength :: AddsLength(header, content, addLength)
                                && text == RequestText(host, method_, path, header, content, addLength)
  {
    hide FieldLine, HeaderText, Digits, CaseInsensitiveEqual;
    var correctedPath := path;
    if correctedPath == "" {
      correctedPath := "/";
    }
    var fieldText := WriteFields([("Host", host)] + header);
    var ownText := "";
    var addLength := false;
    if content != "" {
      var length := ServerRead.Find(header, "Content-Length");
      if length.None? {
        var coding := ServerRead.Find(header, "Transfer-Encoding");
        if coding.None? || coding.value != "chunked" {
          ownText := WriteFields([("Content-Length", Digits(|content|, 10))]);
          addLength := true;
        }
      }
    }
    SentText(host, header, content, addLength);
    text := method_ + " " + correctedPath + " HTTP/1.1" + CRLF + (fieldText + ownText) + CRLF + content;
    assert AddsLength(header, content, addLength);
    assert text == RequestText(host, method_, path, header, content, addLength);
  }

  lemma SentText(host: string, header: seq<Field>, content: string, addLength: bool)
    ensures HeaderText(SentFields(host, header, content, addLength)) ==
            HeaderText([("Host", host)] + header) +
            if addLength then HeaderText([("Content-Length", Digits(|content|, 10))]) else ""
  {
    hide FieldLine;
    var own := if addLength then [("Content-Length", Digits(|content|, 10))] else [];
    FlatMapConcat(FieldLine, [("Host", host)] + header, own);
  }

  ghost predicate FirstBlank(s: string, i: nat)
  {
    ServerRead.BlankAt(s, i) && forall j :: 0 <= j < i ==> !ServerRead.BlankAt(s, j)
  }

  lemma FirstBlankIsFound(s: string, i: nat)
    requires FirstBlank(s, i)
    ensures FindText(s, ServerRead.HEAD_END) == Some(i)
  {
    hide ServerRead.BlankAt, OccursAt;
    forall j: nat ensures ServerRead.BlankAt(s, j) <==> OccursAt(s, ServerRead.HEAD_END, j) {
      ServerRead.BlankAtIff(s, j);
    }
  }

  /** The blank line behind printed fields is the first one in the text. */
  lemma {:induction false} HeadEndFound(line: string, fields: seq<Field>, body: string)
    requires '\n' !in line && forall f :: f in fields ==> FieldSurvives(f)
    ensures var head := line + CRLF + HeaderText(fields) + CRLF; FirstBlank(head + body, |head| - 4)
    decreases |fields|
  {
    hide HeaderText, FieldSurvives, FirstBlank;
    var head := line + CRLF + HeaderText(fields) + CRLF;
    if fields == [] {
      assert HeaderText([]) == "" by { NoFields(); }
      assert head + body == line + CRLF + (CRLF + body);
      FirstBlankHere(line, body);
    } else {
      var next := fields[0].0 + ": " + fields[0].1;
      var rest := next + CRLF + HeaderText(fields[1..]) + CRLF;
      HeaderTextHead(fields);
      FieldHasNoNewline(fields[0]);
      HeadEndFound(next, fields[1..], body);
      NoBlankHere(line, rest + body, |rest| - 4);
      assert head + body == line + CRLF + (rest + body);
    }
  }

  lemma NoFields()
    ensures HeaderText([]) == ""
  {}

  lemma HeaderTextHead(fields: seq<Field>)
    requires fields != []
    ensures HeaderText(fields) == fields[0].0 + ": " + fields[0].1 + CRLF + HeaderText(fields[1..])
  {}

  lemma FieldHasNoNewline(field: Field)
    requires FieldSurvives(field)
    ensures var line := field.0 + ": " + field.1; '\n' !in line && |line| >= 2
  {}

  lemma FirstBlankHere(line: string, body: string)
    requires '\n' !in line
    ensures FirstBlank(line + CRLF + (CRLF + body), |line|)
  {
    var text := line + CRLF + (CRLF + body);
    assert forall k :: 0 <= k < |line| ==> text[k] == line[k];
    assert text[|line|] == '\r' && text[|line| + 1] == '\n' && text[|line| + 2] == '\r' && text[|line| + 3] == '\n';
  }

  lemma BlankShift(prefix: string, text: string, k: nat)
    ensures ServerRead.BlankAt(prefix + text, |prefix| + k) <==> ServerRead.BlankAt(text, k)
  {}

  /** A line that is followed by something other than a blank line only shifts the first blank line. */
  lemma NoBlankHere(line: string, text: string, i: nat)
    requires '\n' !in line && FirstBlank(text, i) && text[1] != '\n'
    ensures FirstBlank(line + CRLF + text, |line| + 2 + i)
  {
    var n, whole := |line| + 2, line + CRLF + text;
    BlankShift(line + CRLF, text, i);
    forall j: nat | j < n + i ensures !ServerRead.BlankAt(whole, j) {
      if j >= n {
        BlankShift(line + CRLF, text, j - n);
      } else {
        NoBlankInLine(line, text, j);
      }
    }
  }

  lemma NoBlankInLine(line: string, text: string, j: nat)
    requires '\n' !in line && |text| >= 2 && text[1] != '\n' && j < |line| + 2
    ensures !ServerRead.BlankAt(line + CRLF + text, j)
  {
    var whole := line + CRLF + text;
    assert whole[|line|] == '\r' && whole[|line| + 1] == '\n' && whole[|line| + 3] == text[1];
    assert j + 1 < |line| ==> whole[j + 1] == line[j + 1];
  }

  /** What the client may be asked to send for the server to recover it. */
  predicate Sendable(host: string, method_: string, path: string, header: seq<Field>)
  {
    && ' ' !in method_ && '\n' !in method_ && ' ' !in path && '\n' !in path && '\n' !in host
    && forall f :: f in header ==> FieldSurvives(f)
  }

  /** The request as the server's application sees it; where its target is split as the standard has it. */
  ghost predicate Recovered(request: Request, method_: string, path: string, fields: seq<Field>)
    reads request
  {
    && request.method_ == method_ && request.version == "1.1" && request.header == fields
    && request.path == TargetPath(Target(path)) && request.queryString == TargetQuery(Target(path), "")
    && (AtMostOneQuestionMark(Target(path)) <==>
        request.path == StandardPath(Target(path)) && request.queryString == StandardQuery(Target(path)))
  }

  /** Head and body of a sent request, as the parsers see them. */
  lemma SentTextParses(line: string, fields: seq<Field>, content: string)
    requires '\n' !in line && forall f :: f in fields ==> FieldSurvives(f)
    ensures var head := line + CRLF + HeaderText(fields) + CRLF; var text := head + content;
            && FirstLine(text) == line + "\r"
            && HeaderFields(AfterLine(text)) == fields && HeaderRest(AfterLine(text)) == content
            && FindText(text, ServerRead.HEAD_END) == Some(|head| - 4)
  {
    hide HeaderText, FieldSurvives, HeaderFields, HeaderRest, FindText, FirstLine, AfterLine, FirstBlank;
    var head := line + CRLF + HeaderText(fields) + CRLF;
    var behind := HeaderText(fields) + CRLF + content;
    assert head + content == (line + "\r") + "\n" + behind;
    LineThenRest(line + "\r", behind);
    HeaderReadBack(fields, content);
    HeadEndFound(line, fields, content);
    FirstBlankIsFound(head + content, |head| - 4);
  }

  lemma HeadParses(host: string, method_: string, path: string, header: seq<Field>, content: string,
                   addLength: bool, rest: string)
    requires Sendable(host, method_, path, header)
    ensures var text := RequestText(host, method_, path, header, content, addLength) + rest;
            && ReadRequestLine(FirstLine(text)) == Some(RequestLine(method_, Target(path), "1.1\r"))
            && HeaderFields(AfterLine(text)) == SentFields(host, header, content, addLength)
            && HeaderRest(AfterLine(text)) == content + rest
            && FindText(text, ServerRead.HEAD_END).Some?
            && |text| - (FindText(text, ServerRead.HEAD_END).value + 4) == |content| + |rest|
  {
    hide FindText, FirstLine, AfterLine, HeaderFields, HeaderRest, HeaderText, ReadRequestLine, IsRequestLine;
    hide SentFields, FirstLineText, FieldSurvives, Target, Sendable;
    var line, fields := FirstLineText(method_, path), SentFields(host, header, content, addLength);
    SentFieldsSurvive(host, method_, path, header, content, addLength);
    FirstLineHasNoNewline(host, method_, path, header);
    SentLineShape(host, method_, path, header);
    RequestLineIff(line + "\r", RequestLine(method_, Target(path), "1.1\r"));
    SentTextParses(line, fields, content + rest);
    Associative(line + CRLF + HeaderText(fields) + CRLF, content, rest);
  }

  /** The server gets past the head of a sent request. */
  lemma HeadRecovered(session: ServerRead.Session, outcome: Chunked.Outcome, host: string, method_: string,
                      path: string, header: seq<Field>, content: string, addLength: bool, rest: string)
    requires Sendable(host, method_, path, header)
    requires session.ReadsAs(RequestText(host, method_, path, header, content, addLength) + rest, outcome)
    requires !session.channel.failed
    ensures var fields := SentFields(host, header, content, addLength);
            && Recovered(session.request, method_, path, fields)
            && ServerRead.TailEnds(|content| + |rest|, fields, content + rest, session.Left(outcome))
  {
    hide FindText, FirstLine, AfterLine, HeaderFields, HeaderRest, ReadRequestLine, RequestText;
    hide SentFields, Target, TargetPath, TargetQuery, StandardPath, StandardQuery, AtMostOneQuestionMark;
    hide ServerRead.TailEnds;
    TargetSplitIff(Target(path));
    HeadParses(host, method_, path, header, content, addLength, rest);
    assert DropLast("1.1\r") == "1.1";
  }

  lemma FirstLineHasNoNewline(host: string, method_: string, path: string, header: seq<Field>)
    requires Sendable(host, method_, path, header)
    ensures '\n' !in FirstLineText(method_, path)
  {}

  lemma SentLineShape(host: string, method_: string, path: string, header: seq<Field>)
    requires Sendable(host, method_, path, header)
    ensures IsRequestLine(FirstLineText(method_, path) + "\r", RequestLine(method_, Target(path), "1.1\r"))
  {
    assert " HTTP/1.1" + "\r" == " " + ("HTTP/" + "1.1\r");
  }

  lemma SentFieldsSurvive(host: string, method_: string, path: string, header: seq<Field>, content: string,
                          addLength: bool)
    requires Sendable(host, method_, path, header)
    ensures forall f :: f in SentFields(host, header, content, addLength) ==> FieldSurvives(f)
  {
    LengthFieldSurvives(|content|);
    assert FieldSurvives(("Host", host));
  }

  lemma LengthFieldSurvives(n: nat)
    ensures FieldSurvives(("Content-Length", Digits(n, 10)))
  {
    DigitsReadBack(n, 10);
    assert DigitValue('\n') == 16;
  }

  lemma SentLookup(host: string, header: seq<Field>, content: string, addLength: bool)
    ensures var fields := SentFields(host, header, content, addLength);
            && Lookup(fields, "Content-Length") ==
               Lookup(header, "Content-Length") + (if addLength then [Digits(|content|, 10)] else [])
            && Lookup(fields, "Transfer-Encoding") == Lookup(header, "Transfer-Encoding")
  {
    var own := if addLength then [("Content-Length", Digits(|content|, 10))] else [];
    LookupConcat([("Host", host)] + header, own, "Content-Length");
    LookupConcat([("Host", host)], header, "Content-Length");
    LookupConcat([("Host", host)] + header, own, "Transfer-Encoding");
    LookupConcat([("Host", host)], header, "Transfer-Encoding");
    NamesDiffer();
    assert own != [] ==> own[1..] == [];
    assert [("Host", host)][1..] == [];
  }

  lemma NamesDiffer()
    ensures !CaseInsensitiveEqual("Host", "Content-Length") && !CaseInsensitiveEqual("Host", "Transfer-Encoding")
    ensures !CaseInsensitiveEqual("Content-Length", "Transfer-Encoding")
    ensures CaseInsensitiveEqual("Content-Length", "Content-Length")
  {}

  // Which requests are recovered

  /** The fields announce lengths, and all of them are the length of the content. */
  predicate LengthDelimits(fields: seq<Field>, size: nat)
  {
    var lengths := Lookup(fields, "Content-Length");
    lengths != [] && forall k :: 0 <= k < |lengths| ==> Unsigned(lengths[k], 10) == Some(size)
  }

  /** Reading ends where the content does: by its length, or because there is none. */
  predicate Delimits(fields: seq<Field>, size: nat)
  {
    if Lookup(fields, "Content-Length") != [] then LengthDelimits(fields, size)
    else "chunked" !in Lookup(fields, "Transfer-Encoding") && size == 0
  }

  /** With what `find` has landed on, the content is read and no more. */
  predicate FoundDelimits(found: ServerRead.Found, size: nat)
  {
    match found.length
    case Some(v) => Unsigned(v, 10) == Some(size)
    case None => found.coding != Some("chunked") && size == 0
  }

  lemma FoundDelimitsIff(fields: seq<Field>, size: nat)
    ensures Delimits(fields, size) <==>
            forall found :: ServerRead.FoundIn(fields, found) ==> FoundDelimits(found, size)
  {
    hide Lookup, Unsigned;
    var lengths, codings := Lookup(fields, "Content-Length"), Lookup(fields, "Transfer-Encoding");
    var first := ServerRead.Found(ServerRead.First(lengths), ServerRead.First(codings));
    assert ServerRead.FoundIn(fields, first);
    if !Delimits(fields, size) {
      if k :| 0 <= k < |lengths| && Unsigned(lengths[k], 10) != Some(size) {
        assert ServerRead.FoundIn(fields, first.(length := Some(lengths[k])));
      } else if lengths == [] && "chunked" in codings {
        assert ServerRead.FoundIn(fields, first.(coding := Some("chunked")));
      }
    }
  }

  /** An end in which the content is not what is handed over. */
  lemma OtherEnd(found: ServerRead.Found, content: string) returns (waiting: int, ended: Chunked.Ended)
    requires !FoundDelimits(found, |content|)
    ensures 0 <= waiting <= |content| && ServerRead.BodyEnds(found, |content|, waiting, content, ended)
    ensures ended != Chunked.Ended(Chunked.Delivered, content, "")
  {
    hide Unsigned, Chunked.MeaningOf;
    waiting := |content|;
    match found.length {
      case Some(v) =>
        match Unsigned(v, 10) {
          case None => ended := Chunked.Ended(Chunked.ProtocolError, "", "");
          case Some(n) =>
            if |content| < n {
              ended := Chunked.Ended(Chunked.EndOfStream, "", "");
            } else {
              ended := Chunked.Ended(Chunked.Delivered, content[..n], content[n..]);
              assert content[..n] + content[n..] == content;
            }
        }
      case None =>
        if found.coding == Some("chunked") {
          ended := ChunkedCoding.ChunksAreDecoded(content);
        } else {
          ended := Chunked.Ended(Chunked.Delivered, "", content);
          assert "" + content == content;
        }
    }
  }

  /** With delimiting fields the content comes first, and only bytes behind it can follow. */
  lemma DelimitedEnds(found: ServerRead.Found, content: string, rest: string, waiting: int, ended: Chunked.Ended)
    requires FoundDelimits(found, |content|) && 0 <= waiting <= |content| + |rest|
    requires ServerRead.BodyEnds(found, |content| + |rest|, waiting, content + rest, ended)
    ensures ended.outcome == Chunked.Delivered
    ensures exists k :: 0 <= k <= |rest| && ended.buffer == content + rest[..k] && ended.incoming == rest[k..]
  {
    hide Unsigned, Chunked.MeaningOf;
    BufferedSplit(ended.buffer, ended.incoming, content, rest);
  }

  /**
   * The server is sure to hand over exactly the content the client has written, however it arrives, if and only if the
   * fields delimit it.
   */
  lemma RecoveryIff(fields: seq<Field>, content: string)
    ensures (forall ended ::
               ServerRead.TailEnds(|content|, fields, content, ended) ==>
               ended == Chunked.Ended(Chunked.Delivered, content, ""))
            <==> Delimits(fields, |content|)
  {
    hide ServerRead.BodyEnds, ServerRead.FoundIn, FoundDelimits, Delimits;
    FoundDelimitsIff(fields, |content|);
    if Delimits(fields, |content|) {
      forall ended | ServerRead.TailEnds(|content|, fields, content, ended)
        ensures ended == Chunked.Ended(Chunked.Delivered, content, "")
      {
        var waiting, found :| 0 <= waiting <= |content| && ServerRead.FoundIn(fields, found)
                              && ServerRead.BodyEnds(found, |content|, waiting, content, ended);
        assert content + "" == content;
        DelimitedEnds(found, content, "", waiting, ended);
      }
    } else {
      var found :| ServerRead.FoundIn(fields, found) && !FoundDelimits(found, |content|);
      var waiting, ended := OtherEnd(found, content);
      assert ServerRead.TailEnds(|content|, fields, content, ended);
    }
  }

  /** In terms of what the caller has given: right lengths of its own, or the client's length, or nothing to send. */
  lemma SentDelimitsIff(host: string, header: seq<Field>, content: string, addLength: bool)
    requires AddsLength(header, content, addLength) && |content| < UINT64
    ensures Delimits(SentFields(host, header, content, addLength), |content|) <==>
            if Lookup(header, "Content-Length") != [] then LengthDelimits(header, |content|)
            else addLength || (content == "" && "chunked" !in Lookup(header, "Transfer-Encoding"))
  {
    hide Lookup, Unsigned, Digits, SentFields, CaseInsensitiveEqual;
    SentLookup(host, header, content, addLength);
    LengthReadBack(|content|);
    assert Lookup(header, "Content-Length") + [] == Lookup(header, "Content-Length");
    assert [] + [Digits(|content|, 10)] == [Digits(|content|, 10)];
  }

  /**
   * A request whose fields delimit its content is recovered by the server under every fragmentation: method, target
   * split at the last '?', version, fields and content. Only bytes sent behind the request can follow the content in
   * the buffer.
   */
  lemma ServerRecoversRequest(session: ServerRead.Session, outcome: Chunked.Outcome, host: string, method_: string,
                              path: string, header: seq<Field>, content: string, addLength: bool, rest: string)
    requires Sendable(host, method_, path, header)
    requires Delimits(SentFields(host, header, content, addLength), |content|)
    requires session.ReadsAs(RequestText(host, method_, path, header, content, addLength) + rest, outcome)
    requires !session.channel.failed
    ensures outcome == Chunked.Delivered
    ensures Recovered(session.request, method_, path, SentFields(host, header, content, addLength))
    ensures exists k ::
              && 0 <= k <= |rest|
              && session.channel.buffer == content + rest[..k] && session.channel.incoming == rest[k..]
  {
    hide RequestText, SentFields, Sendable, Recovered, Delimits, FoundDelimits, ServerRead.BodyEnds;
    hide ServerRead.FoundIn;
    var fields := SentFields(host, header, content, addLength);
    HeadRecovered(session, outcome, host, method_, path, header, content, addLength, rest);
    var ended := session.Left(outcome);
    var waiting, found :|
      0 <= waiting <= |content| + |rest| && ServerRead.FoundIn(fields, found)
      && ServerRead.BodyEnds(found, |content| + |rest|, waiting, content + rest, ended);
    FoundDelimitsIff(fields, |content|);
    DelimitedEnds(found, content, rest, waiting, ended);
  }

  lemma LengthReadBack(n: nat)
    requires n < UINT64
    ensures Unsigned(Digits(n, 10), 10) == Some(n)
  {
    DigitsReadBack(n, 10);
    UnsignedOfDigits(Digits(n, 10), "", 10);
    assert Digits(n, 10) + "" == Digits(n, 10);
  }

  lemma BufferedSplit(buffer: string, incoming: string, content: string, rest: string)
    requires ServerRead.Buffered(buffer, incoming, content + rest, |incoming|) && |incoming| <= |rest|
    ensures exists k :: 0 <= k <= |rest| && buffer == content + rest[..k] && incoming == rest[k..]
  {
    var k := |rest| - |incoming|;
    assert (buffer + incoming)[..|buffer|] == buffer && (buffer + incoming)[|buffer|..] == incoming;
    assert (content + rest)[..|content| + k] == content + rest[..k] && (content + rest)[|content| + k..] == rest[k..];
  }

  /** The same for content the caller has put in chunks: the data comes behind any bytes read too much. */
  lemma ServerRecoversChunkedRequest(session: ServerRead.Session, outcome: Chunked.Outcome, host: string,
                                     method_: string, path: string, header: seq<Field>,
                                     chunks: seq<ChunkedCoding.Chunk>, last: ChunkedCoding.Chunk, addLength: bool,
                                     rest: string)
    requires Sendable(host, method_, path, header)
    requires Lookup(header, "Content-Length") == [] && Lookup(header, "Transfer-Encoding") == ["chunked"]
    requires ChunkedCoding.WellFormedBody(chunks, last)
    requires var content := ChunkedCoding.EncodedBody(chunks, last);
             && AddsLength(header, content, addLength)
             && session.ReadsAs(RequestText(host, method_, path, header, content, addLength) + rest, outcome)
    requires !session.channel.failed
    ensures outcome == Chunked.Delivered && !addLength
    ensures Recovered(session.request, method_, path, [("Host", host)] + header)
    ensures exists k :: (
              && 0 <= k <= |rest|
              && session.channel.buffer == rest[..k] + ChunkedCoding.Data(chunks)
              && session.channel.incoming == rest[k..])
  {
    hide RequestText, Sendable, Recovered, CaseInsensitiveEqual;
    hide ChunkedCoding.EncodedBody, ChunkedCoding.Data, ChunkedCoding.WellFormedBody, Chunked.MeaningOf;
    var content := ChunkedCoding.EncodedBody(chunks, last);
    HeadRecovered(session, outcome, host, method_, path, header, content, addLength, rest);
    SentLookup(host, header, content, addLength);
    ChunkedCoding.BodyReadBack(chunks, last, rest);
    BodyNotEmpty(chunks, last);
    assert SentFields(host, header, content, false) == [("Host", host)] + header;
    assert "" + ChunkedCoding.Data(chunks) == ChunkedCoding.Data(chunks);
  }

  /**
   * From the client's call to the server's application: whatever part of the text has arrived when the server starts to
   * read, and however the rest arrives, unless a read fails the head is recovered, and the content whenever the fields
   * delimit it.
   */
  method Exchange(host: string, method_: string, path: string, header: seq<Field>, content: string, rest: string,
                  arrived: nat)
    returns (session: ServerRead.Session, outcome: Chunked.Outcome)
    requires Sendable(host, method_, path, header)
    requires forall addLength :: |RequestText(host, method_, path, header, content, addLength) + rest| < NPOS
    ensures session.channel.failed <==> outcome == Chunked.Interrupted
    ensures exists addLength :: AddsLength(header, content, addLength) &&
              var fields := SentFields(host, header, content, addLength);
              && (!session.channel.failed ==> Recovered(session.request, method_, path, fields))
              && (!session.channel.failed && Delimits(fields, |content|) ==>
                    && outcome == Chunked.Delivered
                    && exists k ::
                         && 0 <= k <= |rest|
                         && session.channel.buffer == content + rest[..k] && session.channel.incoming == rest[k..])
  {
    hide Sendable, RequestText, Recovered, SentFields, Delimits, AddsLength, ServerRead.TailEnds;
    var text := WriteRequest(host, method_, path, header, content);
    ghost var addLength :| AddsLength(header, content, addLength)
                           && text == RequestText(host, method_, path, header, content, addLength);
    var stream, n := text + rest, if arrived <= |text + rest| then arrived else |text + rest|;
    session := new ServerRead.Session(stream[..n], stream[n..]);
    assert stream[..n] + stream[n..] == stream;
    outcome := session.Read();
    ghost var fields := SentFields(host, header, content, addLength);
    if !session.channel.failed {
      HeadRecovered(session, outcome, host, method_, path, header, content, addLength, rest);
      NeverInterrupted(|content| + |rest|, fields, content + rest, session.Left(outcome));
      if Delimits(fields, |content|) {
        ServerRecoversRequest(session, outcome, host, method_, path, header, content, addLength, rest);
      }
    }
    assert AddsLength(header, content, addLength);
  }

  lemma NeverInterrupted(behindHead: int, fields: seq<Field>, tail: string, ended: Chunked.Ended)
    requires ServerRead.TailEnds(behindHead, fields, tail, ended)
    ensures ended.outcome != Chunked.Interrupted
  {
    hide Unsigned, Chunked.MeaningOf, ServerRead.FoundIn;
  }

  lemma BodyNotEmpty(chunks: seq<ChunkedCoding.Chunk>, last: ChunkedCoding.Chunk)
    ensures ChunkedCoding.EncodedBody(chunks, last) != ""
  {
    assert |ChunkedCoding.EncodedChunk(last)| >= 2;
  }
}
