/** Request and status lines. */
module Messages {
  import opened Text
  import opened Channels
  import HttpHeader

  /** A request line taken apart; `tail` is what follows "HTTP/", its final character included. */
  datatype RequestLine = RequestLine(method_: string, target: string, tail: string)

  /** The only shape of line the request parser accepts. */
  predicate IsRequestLine(line: string, parts: RequestLine)
  {
    && ' ' !in parts.method_ && ' ' !in parts.target
    && line == parts.method_ + " " + (parts.target + " " + ("HTTP/" + parts.tail))
  }

  /** What follows "HTTP/". */
  function AfterProtocol(s: string): Option<string>
  {
    if "HTTP/" <= s then Some(s[5..]) else None
  }

  function ReadRequestLine(line: string): Option<RequestLine>
  {
    match Cut(line, ' ')
    case None => None
    case Some((method_, afterMethod)) =>
      match Cut(afterMethod, ' ')
      case None => None
      case Some((target, protocol)) =>
        match AfterProtocol(protocol)
        case None => None
        case Some(tail) => Some(RequestLine(method_, target, tail))
  }

  lemma AfterProtocolIff(s: string, tail: string)
    ensures AfterProtocol(s) == Some(tail) <==> s == "HTTP/" + tail
  {
    if AfterProtocol(s) == Some(tail) {
      assert s == s[..5] + s[5..];
    }
  }

  /** Reading a request line succeeds exactly on lines of that shape, and the parts are unique. */
  lemma RequestLineIff(line: string, parts: RequestLine)
    ensures ReadRequestLine(line) == Some(parts) <==> IsRequestLine(line, parts)
  {
    hide Cut, AfterProtocol;
    var protocol := "HTTP/" + parts.tail;
    var afterMethod := parts.target + " " + protocol;
    AfterProtocolIff(protocol, parts.tail);
    CutIff(line, ' ', parts.method_, afterMethod);
    CutIff(afterMethod, ' ', parts.target, protocol);
    if ReadRequestLine(line) == Some(parts) {
      var rest := Cut(line, ' ').value.1;
      var found := Cut(rest, ' ').value.1;
      CutIff(line, ' ', parts.method_, rest);
      CutIff(rest, ' ', parts.target, found);
      AfterProtocolIff(found, parts.tail);
    }
  }

  /** The same reading in terms of the positions of the two blanks. */
  lemma RequestLineAt(line: string, methodEnd: nat, targetEnd: nat)
    requires methodEnd == IndexOf(line, ' ') < |line|
    requires targetEnd == methodEnd + 1 + IndexOf(line[methodEnd + 1..], ' ') <= |line|
    ensures targetEnd == |line| || AfterProtocol(line[targetEnd + 1..]).None? ==> ReadRequestLine(line).None?
    ensures targetEnd < |line| && AfterProtocol(line[targetEnd + 1..]).Some? ==>
            ReadRequestLine(line) == Some(RequestLine(line[..methodEnd], line[methodEnd + 1..targetEnd],
                                                      AfterProtocol(line[targetEnd + 1..]).value))
  {
    hide AfterProtocol, IndexOf;
    var rest := line[methodEnd + 1..];
    assert Cut(line, ' ') == Some((line[..methodEnd], rest));
    if targetEnd < |line| {
      assert rest[..targetEnd - methodEnd - 1] == line[methodEnd + 1..targetEnd];
      assert rest[targetEnd - methodEnd..] == line[targetEnd + 1..];
      assert Cut(rest, ' ') == Some((line[methodEnd + 1..targetEnd], line[targetEnd + 1..]));
    }
  }

  /** The target is split at its last '?'. */
  function TargetPath(target: string): string
  {
    var q := LastIndexOf(target, '?');
    if q == -1 then target else target[..q]
  }

  function TargetQuery(target: string, otherwise: string): string
  {
    var q := LastIndexOf(target, '?');
    if q == -1 then otherwise else target[q + 1..]
  }

  /** The split of section 3.4 of RFC 3986: at the first '?'. */
  function StandardPath(target: string): string
  {
    target[..IndexOf(target, '?')]
  }

  function StandardQuery(target: string): string
  {
    var q := IndexOf(target, '?');
    if q == |target| then "" else target[q + 1..]
  }

  predicate AtMostOneQuestionMark(target: string)
  {
    var q := IndexOf(target, '?');
    q == |target| || '?' !in target[q + 1..]
  }

  /** The two ways of splitting a target agree exactly when it has at most one '?'. */
  lemma TargetSplitIff(target: string)
    ensures TargetPath(target) == StandardPath(target) && TargetQuery(target, "") == StandardQuery(target) <==>
            AtMostOneQuestionMark(target)
  {
    var p, q := IndexOf(target, '?'), LastIndexOf(target, '?');
    if p < q {
      assert target[p + 1..][q - p - 1] == '?';
      assert |TargetPath(target)| == q && |StandardPath(target)| == p;
    }
  }

  /** A target on which they differ: everything up to the last '?' counts as the path. */
  lemma TwoQuestionMarks()
    ensures TargetPath("/a?b?c") == "/a?b" && TargetQuery("/a?b?c", "") == "c"
    ensures StandardPath("/a?b?c") == "/a" && StandardQuery("/a?b?c") == "b?c"
  {
    var target := "/a?b?c";
    IndexOfUnique(target, '?', 2);
    LastIndexOfUnique(target, '?', 4);
    assert target[..2] == "/a" && target[3..] == "b?c" && target[..4] == "/a?b" && target[5..] == "c";
  }

  /** The version loses its last character, which is the CR of the line end. */
  function DropLast(s: string): string
  {
    if s == "" then "" else s[..|s| - 1]
  }

  class Request {
    var method_: string
    var path: string
    var queryString: string
    var version: string
    var header: seq<Field>

    constructor ()
      ensures method_ == path == queryString == version == "" && header == []
    {
      method_, path, queryString, version, header := "", "", "", "", [];
    }

    /** The field values a successful parse of `line` followed by header text leaves behind. */
    ghost predicate Holds(parts: RequestLine, oldQuery: string, fields: seq<Field>)
      reads this
    {
      && method_ == parts.method_
      && path == TargetPath(parts.target) && queryString == TargetQuery(parts.target, oldQuery)
      && version == DropLast(parts.tail)
      && header == fields
    }

    /** RequestMessage::parse: accepts exactly the lines ReadRequestLine reads. */
    method Parse(channel: Channel) returns (ok: bool)
      requires channel.good && HttpHeader.Stops(AfterLine(channel.buffer)) && |channel.buffer| < NPOS
      modifies this, channel`buffer, channel`good
      ensures ok <==> ReadRequestLine(FirstLine(old(channel.buffer))).Some?
      ensures ok ==> Holds(ReadRequestLine(FirstLine(old(channel.buffer))).value, old(queryString),
                           HttpHeader.HeaderFields(AfterLine(old(channel.buffer))))
      ensures ok ==> channel.buffer == HttpHeader.HeaderRest(AfterLine(old(channel.buffer)))
      ensures ok && HttpHeader.StopsInside(AfterLine(old(channel.buffer))) ==> channel.good
      ensures !ok ==> header == [] && version == old(version)
      ensures !ok ==> channel.buffer == AfterLine(old(channel.buffer))
      ensures !ok ==> (channel.good <==> '\n' in old(channel.buffer))
    {
      hide ReadRequestLine, HttpHeader.Stops, HttpHeader.StopsInside, FirstLine, AfterLine;
      FirstLineShorter(channel.buffer);
      NothingAfterLastLine(channel.buffer);
      header := [];
      var line := channel.GetLine("");
      ok := ParseLine(line);
      if ok {
        var fields := HttpHeader.Parse(channel);
        header := fields;
      }
    }

    /** The request line alone. */
    method ParseLine(line: string) returns (ok: bool)
      requires |line| < NPOS
      modifies this`method_, this`path, this`queryString, this`version
      ensures ok <==> ReadRequestLine(line).Some?
      ensures ok ==> Holds(ReadRequestLine(line).value, old(queryString), header)
      ensures !ok ==> version == old(version)
    {
      hide ReadRequestLine, AfterProtocol, Substr, TargetPath, TargetQuery, DropLast, QueryStartIn;
      var methodEnd := IndexOf(line, ' ');
      if methodEnd == |line| {
        NoBlank(line);
        return false;
      }
      method_ := line[..methodEnd];
      var queryStart, targetEnd := ScanTarget(line, methodEnd);
      RequestLineAt(line, methodEnd, if targetEnd == NPOS then |line| else targetEnd);
      if targetEnd == NPOS {
        return false;
      }
      TargetParts(line, methodEnd, queryStart, targetEnd, queryString);
      if queryStart != NPOS {
        path := Substr(line, methodEnd + 1, queryStart - methodEnd - 2);
        queryString := Substr(line, queryStart, targetEnd - queryStart);
      } else {
        path := Substr(line, methodEnd + 1, targetEnd - methodEnd - 1);
      }
      ok := ParseVersion(line, targetEnd);
    }

    /** The protocol behind the target. */
    method ParseVersion(line: string, targetEnd: nat) returns (ok: bool)
      requires targetEnd < |line| < NPOS
      modifies this`version
      ensures ok <==> AfterProtocol(line[targetEnd + 1..]).Some?
      ensures version == if ok then DropLast(AfterProtocol(line[targetEnd + 1..]).value) else old(version)
    {
      hide AfterProtocol, Substr, DropLast;
      var protocolEnd := targetEnd + 1 + IndexOf(line[targetEnd + 1..], '/');
      ProtocolCheck(line, targetEnd + 1, protocolEnd);
      if protocolEnd == |line| || Substr(line, targetEnd + 1, protocolEnd - targetEnd - 1) != "HTTP" {
        return false;
      }
      VersionText(line, protocolEnd);
      version := Substr(line, protocolEnd + 1, if |line| >= protocolEnd + 2 then |line| - protocolEnd - 2 else NPOS);
      return true;
    }
  }

  lemma FirstLineShorter(text: string)
    ensures AfterLine("") == "" && |FirstLine(text)| <= |text|
  {}

  /** Behind a line without a newline there is no header. */
  lemma NothingAfterLastLine(text: string)
    ensures '\n' !in text ==>
              var rest := AfterLine(text);
              && rest == "" && HttpHeader.HeaderFields(rest) == [] && HttpHeader.HeaderRest(rest) == ""
              && !HttpHeader.StopsInside(rest)
  {}

  lemma NoBlank(line: string)
    requires IndexOf(line, ' ') == |line|
    ensures ReadRequestLine(line).None?
  {}

  /** Searching for the first '/' and comparing what precedes it is a test for the prefix "HTTP/". */
  lemma ProtocolCheck(line: string, start: nat, slash: nat)
    requires start <= |line| && slash == start + IndexOf(line[start..], '/')
    ensures slash < |line| && Substr(line, start, slash - start) == "HTTP" <==> AfterProtocol(line[start..]).Some?
    ensures AfterProtocol(line[start..]).Some? ==> AfterProtocol(line[start..]).value == line[slash + 1..]
  {
    var protocol := line[start..];
    if "HTTP/" <= protocol {
      assert forall k :: 0 <= k < 5 ==> protocol[k] == "HTTP/"[k];
      IndexOfUnique(protocol, '/', 4);
      assert protocol[..4] == "HTTP";
    }
    if slash < |line| && Substr(line, start, slash - start) == "HTTP" {
      assert protocol == protocol[..4] + "/" + protocol[5..];
    }
  }

  /** The remembered position is the one behind the last '?' of the target. */
  predicate QueryStartIn(line: string, methodEnd: nat, queryStart: nat, targetEnd: nat)
  {
    && methodEnd + 1 <= targetEnd <= |line|
    && var q := LastIndexOf(line[methodEnd + 1..targetEnd], '?');
       queryStart == if q == -1 then NPOS else methodEnd + 2 + q
  }

  lemma TargetParts(line: string, methodEnd: nat, queryStart: nat, targetEnd: nat, oldQuery: string)
    requires QueryStartIn(line, methodEnd, queryStart, targetEnd) && |line| < NPOS
    ensures var target := line[methodEnd + 1..targetEnd];
            if queryStart != NPOS
            then methodEnd + 2 <= queryStart <= targetEnd
                 && TargetPath(target) == Substr(line, methodEnd + 1, queryStart - methodEnd - 2)
                 && TargetQuery(target, oldQuery) == Substr(line, queryStart, targetEnd - queryStart)
            else TargetPath(target) == Substr(line, methodEnd + 1, targetEnd - methodEnd - 1)
                 && TargetQuery(target, oldQuery) == oldQuery
  {
    var target := line[methodEnd + 1..targetEnd];
    var q := LastIndexOf(target, '?');
    if q != -1 {
      assert target[..q] == line[methodEnd + 1..methodEnd + 1 + q];
      assert target[q + 1..] == line[methodEnd + 2 + q..targetEnd];
    }
  }

  /** Everything behind the slash but the last character; the count wraps around to npos when nothing follows. */
  lemma VersionText(line: string, slash: nat)
    requires slash < |line| < NPOS
    ensures Substr(line, slash + 1, if |line| >= slash + 2 then |line| - slash - 2 else NPOS) ==
            DropLast(line[slash + 1..])
  {}

  lemma QueryStartStep(line: string, methodEnd: nat, queryStart: nat, i: nat)
    requires QueryStartIn(line, methodEnd, queryStart, i) && i < |line|
    ensures QueryStartIn(line, methodEnd, if line[i] == '?' then i + 1 else queryStart, i + 1)
  {
    var shorter, longer := line[methodEnd + 1..i], line[methodEnd + 1..i + 1];
    assert longer == shorter + [line[i]];
    LastIndexOfUnique(longer, '?', if line[i] == '?' then |shorter| else LastIndexOf(shorter, '?'));
  }

  /** The scan for the end of the target, which also remembers the position behind the last '?'. */
  method ScanTarget(line: string, methodEnd: nat) returns (queryStart: nat, targetEnd: nat)
    requires methodEnd < |line| < NPOS
    ensures var rest := line[methodEnd + 1..]; var j := IndexOf(rest, ' ');
            targetEnd == if j == |rest| then NPOS else methodEnd + 1 + j
    ensures targetEnd != NPOS ==> QueryStartIn(line, methodEnd, queryStart, targetEnd)
  {
    queryStart, targetEnd := NPOS, NPOS;
    ghost var rest := line[methodEnd + 1..];
    assert QueryStartIn(line, methodEnd, NPOS, methodEnd + 1);
    hide QueryStartIn;
    var i := methodEnd + 1;
    while i < |line|
      invariant methodEnd + 1 <= i <= |line|
      invariant forall k :: 0 <= k < i - methodEnd - 1 ==> rest[k] != ' '
      invariant i < |line| ==> QueryStartIn(line, methodEnd, queryStart, i)
    {
      assert rest[i - methodEnd - 1] == line[i];
      QueryStartStep(line, methodEnd, queryStart, i);
      if line[i] == '?' && i + 1 < |line| {
        queryStart := i + 1;
      } else if line[i] == ' ' {
        targetEnd := i;
        IndexOfUnique(rest, ' ', i - methodEnd - 1);
        return;
      }
      i := i + 1;
    }
    IndexOfUnique(rest, ' ', |rest|);
  }

  class Response {
    var version: string
    var statusCode: string
    var header: seq<Field>

    constructor ()
      ensures version == statusCode == "" && header == []
    {
      version, statusCode, header := "", "", [];
    }

    /** ResponseMessage::parse: needs a blank in the status line and something behind it. */
    method Parse(channel: Channel) returns (ok: bool)
      requires channel.good && HttpHeader.Stops(AfterLine(channel.buffer)) && |channel.buffer| < NPOS
      modifies this, channel`buffer, channel`good
      ensures var line := FirstLine(old(channel.buffer));
              && (ok <==> IsStatusLine(line))
              && (ok ==> version == StatusVersion(line) && statusCode == StatusText(line))
      ensures ok ==> header == HttpHeader.HeaderFields(AfterLine(old(channel.buffer)))
      ensures ok ==> channel.buffer == HttpHeader.HeaderRest(AfterLine(old(channel.buffer)))
      ensures ok && HttpHeader.StopsInside(AfterLine(old(channel.buffer))) ==> channel.good
      ensures !ok ==> header == [] && statusCode == old(statusCode)
      ensures !ok ==> channel.buffer == AfterLine(old(channel.buffer))
      ensures !ok ==> (channel.good <==> '\n' in old(channel.buffer))
    {
      hide HttpHeader.Stops, FirstLine, AfterLine, StatusVersion, StatusText, IsStatusLine;
      header := [];
      FirstLineShorter(channel.buffer);
      NothingAfterLastLine(channel.buffer);
      var line := channel.GetLine("");
      ok := ParseLine(line);
      if ok {
        var fields := HttpHeader.Parse(channel);
        header := fields;
      }
    }

    /** The status line alone. */
    method ParseLine(line: string) returns (ok: bool)
      requires |line| < NPOS
      modifies this`version, this`statusCode
      ensures ok <==> IsStatusLine(line)
      ensures ok ==> version == StatusVersion(line) && statusCode == StatusText(line)
      ensures !ok ==> statusCode == old(statusCode)
    {
      var versionEnd := IndexOf(line, ' ');
      if versionEnd == |line| {
        return false;
      }
      if 5 < |line| {
        // The count wraps around when the blank comes before position 5.
        version := Substr(line, 5, if versionEnd >= 5 then versionEnd - 5 else NPOS + 1 + versionEnd - 5);
      } else {
        return false;
      }
      if versionEnd + 1 < |line| {
        statusCode := Substr(line, versionEnd + 1, |line| - (versionEnd + 1) - 1);
      } else {
        return false;
      }
      return true;
    }
  }

  /** The status lines the parser accepts: some text behind a blank, and not too short. */
  predicate IsStatusLine(line: string)
  {
    5 < |line| && IndexOf(line, ' ') + 1 < |line|
  }

  /** What follows the first blank, without its last character. */
  function StatusText(line: string): string
    requires IsStatusLine(line)
  {
    DropLast(line[IndexOf(line, ' ') + 1..])
  }

  /** The version of a status line: from position 5 up to the blank, or to the end when the blank comes earlier. */
  function StatusVersion(line: string): string
    requires 5 < |line|
  {
    var blank := IndexOf(line, ' ');
    if blank < 5 then line[5..] else line[5..blank]
  }
}
