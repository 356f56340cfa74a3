/** What the server writes, and that the client reads exactly that. */
module ResponseRoundTrip {
  import opened Text
  import opened Numbers
  import opened Channels
  import opened Messages
  import opened HttpHeader
  import RequestRoundTrip

  predicate IsLength(field: Field)
  {
    CaseInsensitiveEqual(field.0, "content-length")
  }

  predicate IsChunked(field: Field)
  {
    CaseInsensitiveEqual(field.0, "transfer-encoding") && CaseInsensitiveEqual(field.1, "chunked")
  }

  /** The length is added unless a field or the closing connection already delimits the content. */
  predicate AddsLength(header: seq<Field>, close: bool)
  {
    !close && forall k :: 0 <= k < |header| ==> !IsLength(header[k]) && !IsChunked(header[k])
  }

  function SentFields(header: seq<Field>, size: nat, close: bool): seq<Field>
  {
    header + if AddsLength(header, close) then [("Content-Length", Digits(size, 10))] else []
  }

  function ResponseText(status: string, header: seq<Field>, content: string, close: bool): string
  {
    "HTTP/1.1 " + status + CRLF + HeaderText(SentFields(header, |content|, close)) + CRLF + content
  }

  class Response {
    /** What has been put into the response's stream buffer. */
    var stream: string
    var closeConnectionAfterResponse: bool

    constructor (close: bool)
      ensures stream == "" && closeConnectionAfterResponse == close
    {
      stream, closeConnectionAfterResponse := "", close;
    }

    method WriteHeader(header: seq<Field>, size: nat)
      modifies this`stream
      ensures stream == old(stream) + HeaderText(SentFields(header, size, closeConnectionAfterResponse)) + CRLF
    {
      hide IsLength, IsChunked, Digits, FieldLine;
      var contentLengthWritten, chunkedTransferEncoding := false, false;
      for i := 0 to |header|
        invariant stream == old(stream) + HeaderText(header[..i])
        invariant contentLengthWritten || chunkedTransferEncoding <==>
                  exists k :: 0 <= k < i && (IsLength(header[k]) || IsChunked(header[k]))
      {
        if !contentLengthWritten && IsLength(header[i]) {
          contentLengthWritten := true;
        } else if !chunkedTransferEncoding && IsChunked(header[i]) {
          chunkedTransferEncoding := true;
        }
        FlatMapNext(FieldLine, header, i);
        Associative(old(stream), HeaderText(header[..i]), FieldLine(header[i]));
        stream := stream + FieldLine(header[i]);
      }
      assert header[..|header|] == header;
      if !contentLengthWritten && !chunkedTransferEncoding && !closeConnectionAfterResponse {
        ghost var own := ("Content-Length", Digits(size, 10));
        FlatMapConcat(FieldLine, header, [own]);
        FlatMapOne(FieldLine, own);
        Associative(old(stream), HeaderText(header), FieldLine(own));
        stream := stream + FieldLine(("Content-Length", Digits(size, 10))) + CRLF;
      } else {
        assert header + [] == header;
        stream := stream + CRLF;
      }
    }

    method Write(status: string, content: string, header: seq<Field>)
      modifies this`stream
      ensures stream == old(stream) + ResponseText(status, header, content, closeConnectionAfterResponse)
    {
      hide HeaderText, SentFields;
      stream := stream + ("HTTP/1.1 " + status + CRLF);
      WriteHeader(header, |content|);
      if content != "" {
        stream := stream + content;
      }
    }
  }

  lemma StatusLineRead(status: string)
    ensures var line := "HTTP/1.1 " + status + "\r";
            && IsStatusLine(line) && StatusVersion(line) == "1.1" && StatusText(line) == status
  {
    var line := "HTTP/1.1 " + status + "\r";
    assert line[8] == ' ' && line[9..] == status + "\r";
    assert line[..8] == "HTTP/1.1";
    assert forall k :: 0 <= k < 8 ==> line[k] == "HTTP/1.1"[k];
    IndexOfUnique(line, ' ', 8);
    assert line[5..8] == "HTTP/1.1"[5..8] == "1.1";
  }

  /**
   * Parsing undoes writing: version, status text, the fields with the added length, and the content left in place.
   * The fields come back as the same bag exactly when none of them holds a separator of the header syntax.
   */
  lemma ResponseReadBack(status: string, header: seq<Field>, content: string, close: bool, rest: string)
    requires '\n' !in status
    ensures var text := ResponseText(status, header, content, close) + rest; var line := FirstLine(text);
            && IsStatusLine(line) && StatusVersion(line) == "1.1" && StatusText(line) == status
    ensures var text := ResponseText(status, header, content, close) + rest;
            var fields := SentFields(header, |content|, close);
            && (multiset(HeaderFields(AfterLine(text))) == multiset(fields) <==>
                forall k :: 0 <= k < |header| ==> FieldSurvives(header[k]))
            && ((forall k :: 0 <= k < |header| ==> FieldSurvives(header[k])) ==>
                  HeaderRest(AfterLine(text)) == content + rest)
  {
    var fields := SentFields(header, |content|, close);
    hide HeaderText, HeaderFields, HeaderRest, FirstLine, AfterLine, IsStatusLine, StatusVersion, StatusText;
    hide FieldSurvives, IndexOf;
    StatusLineRead(status);
    var line, behind := "HTTP/1.1 " + status + "\r", HeaderText(fields) + CRLF + (content + rest);
    NoNewlineInStatusLine(status);
    assert ResponseText(status, header, content, close) + rest == line + "\n" + behind;
    LineThenRest(line, behind);
    HeaderRoundTripIff(fields, content + rest);
    OwnLengthSurvives(header, |content|, close);
  }

  lemma NoNewlineInStatusLine(status: string)
    requires '\n' !in status
    ensures '\n' !in "HTTP/1.1 " + status + "\r"
  {}

  lemma OwnLengthSurvives(header: seq<Field>, size: nat, close: bool)
    ensures var fields := SentFields(header, size, close);
            (forall k :: 0 <= k < |fields| ==> FieldSurvives(fields[k])) <==>
            (forall k :: 0 <= k < |header| ==> FieldSurvives(header[k]))
  {
    var fields := SentFields(header, size, close);
    RequestRoundTrip.LengthFieldSurvives(size);
    hide AddsLength, FieldSurvives, Digits;
    assert forall k :: 0 <= k < |header| ==> fields[k] == header[k];
  }
}
