/** Header fields: the line loop that reads them, when that loop ends, and the exact fields it recovers. */
module HttpHeader {
  import opened Text
  import opened Channels

  /** What one header line contributes: nothing, or the text around its first ':'. */
  function LineField(line: string): seq<Field>
  {
    var colon := IndexOf(line, ':');
    if colon + 1 >= |line| then []
    else
      var start := if line[colon + 1] == ' ' then colon + 2 else colon + 1;
      if start < |line| then [(line[..colon], line[start..|line| - 1])] else []
  }

  /** The fields before the first line without ':', and the text behind that line. */
  function HeaderFields(text: string): seq<Field>
    decreases |text|
  {
    if ':' !in FirstLine(text) then [] else LineField(FirstLine(text)) + HeaderFields(AfterLine(text))
  }

  function HeaderRest(text: string): string
    decreases |text|
  {
    if ':' !in FirstLine(text) then AfterLine(text) else HeaderRest(AfterLine(text))
  }

  /** Some line has no ':'; the text behind the last newline counts as a line. */
  ghost predicate Stops(text: string)
  {
    exists part :: part in Split(text, '\n') && ':' !in part
  }

  lemma StopsStep(text: string)
    ensures Stops(text) <==> ':' !in FirstLine(text) || ('\n' in text && Stops(AfterLine(text)))
  {
    var i := IndexOf(text, '\n');
    if i == |text| {
      assert FirstLine(text) == text && Split(text, '\n') == [text];
      assert text in Split(text, '\n');
    } else {
      assert Split(text, '\n') == [FirstLine(text)] + Split(AfterLine(text), '\n');
      assert FirstLine(text) in Split(text, '\n');
      assert forall part ::
          part in Split(text, '\n') <==> part == FirstLine(text) || part in Split(AfterLine(text), '\n');
    }
  }

  /** The state of the parsing loop between two iterations. */
  datatype Loop = Loop(line: string, text: string, good: bool, fields: seq<Field>)
  {
    /** The loop is left when the line at hand has no ':'. */
    predicate Halted()
    {
      ':' !in line
    }

    /** One iteration: use the line, then getline, which does nothing once the stream has failed. */
    function Turn(): Loop
    {
      var more := fields + LineField(line);
      if good then Loop(FirstLine(text), AfterLine(text), '\n' in text, more) else Loop(line, text, false, more)
    }

    function Turns(n: nat): Loop
      decreases n
    {
      if n == 0 then this else Turn().Turns(n - 1)
    }
  }

  function Begin(text: string, fields: seq<Field>): Loop
  {
    Loop(FirstLine(text), AfterLine(text), '\n' in text, fields)
  }

  /** For instance on the text "a:b", which has no further line. */
  lemma OneLineNeverHalts(n: nat)
    ensures !Begin("a:b", []).Turns(n).Halted()
  {
    var text := "a:b";
    assert text[1] == ':' && forall k :: 0 <= k < |text| ==> text[k] != '\n';
    StopsStep(text);
    assert FirstLine(text) == text;
    NeverHalts(text, [], n);
  }

  /** With the stream failed and a ':' in the line, the loop stays where it is. */
  lemma {:induction false} Stuck(loop: Loop, n: nat)
    requires !loop.good && !loop.Halted()
    ensures !loop.Turns(n).Halted()
    decreases n
  {
    if n > 0 {
      Stuck(loop.Turn(), n - 1);
    }
  }

  lemma {:induction false} NeverHalts(text: string, fields: seq<Field>, n: nat)
    requires !Stops(text)
    ensures !Begin(text, fields).Turns(n).Halted()
    decreases n
  {
    StopsStep(text);
    var loop := Begin(text, fields);
    if '\n' !in text {
      Stuck(loop, n);
    } else if n > 0 {
      NeverHalts(AfterLine(text), loop.Turn().fields, n - 1);
    }
  }

  lemma {:induction false} HaltsWithFields(text: string, fields: seq<Field>) returns (n: nat)
    requires Stops(text)
    ensures Begin(text, fields).Turns(n).Halted()
    ensures Begin(text, fields).Turns(n).fields == fields + HeaderFields(text)
    ensures Begin(text, fields).Turns(n).text == HeaderRest(text)
    decreases |text|
  {
    hide Stops, LineField, IndexOf;
    StopsStep(text);
    var loop := Begin(text, fields);
    if loop.Halted() {
      n := 0;
      assert fields + [] == fields;
    } else {
      var k := HaltsWithFields(AfterLine(text), loop.Turn().fields);
      n := k + 1;
      assert loop.Turn() == Begin(AfterLine(text), fields + LineField(loop.line));
      Associative(fields, LineField(loop.line), HeaderFields(AfterLine(text)));
    }
  }

  /** The loop ends exactly on texts with a line without ':', in particular on every text that ends in a newline. */
  lemma HaltsIff(text: string)
    ensures (exists n: nat :: Begin(text, []).Turns(n).Halted()) <==> Stops(text)
    ensures text != "" && text[|text| - 1] == '\n' ==> Stops(text)
  {
    if Stops(text) {
      var n := HaltsWithFields(text, []);
    } else {
      forall n: nat ensures !Begin(text, []).Turns(n).Halted() {
        NeverHalts(text, [], n);
      }
    }
    if text != "" && text[|text| - 1] == '\n' {
      NewlineAtEndStops(text);
    }
  }

  lemma {:induction false} NewlineAtEndStops(text: string)
    requires text == "" || text[|text| - 1] == '\n'
    ensures Stops(text)
    decreases |text|
  {
    StopsStep(text);
    if text != "" {
      NewlineAtEndStops(AfterLine(text));
    }
  }

  /** Reads header fields off the channel, none if it has failed already; loops forever on any other text. */
  method Parse(channel: Channel) returns (result: seq<Field>)
    requires channel.good ==> Stops(channel.buffer)
    modifies channel`buffer, channel`good
    ensures if old(channel.good)
            then result == HeaderFields(old(channel.buffer)) && channel.buffer == HeaderRest(old(channel.buffer))
            else result == [] && channel.buffer == old(channel.buffer) && !channel.good
    ensures old(channel.good) && StopsInside(old(channel.buffer)) ==> channel.good
  {
    hide Stops, FirstLine, AfterLine, LineField;
    result := [];
    ghost var text := channel.buffer;
    var line := channel.GetLine("");
    while ':' in line
      invariant !old(channel.good) ==>
                  line == "" && result == [] && channel.buffer == old(channel.buffer) && !channel.good
      invariant old(channel.good) ==>
                  && line == FirstLine(text) && channel.buffer == AfterLine(text)
                  && (channel.good <==> '\n' in text)
                  && Stops(text) && (StopsInside(old(channel.buffer)) ==> StopsInside(text))
                  && result + HeaderFields(text) == HeaderFields(old(channel.buffer))
                  && HeaderRest(text) == HeaderRest(old(channel.buffer))
      decreases |text|
    {
      StopsStep(text);
      var field := ReadLine(line);
      Associative(result, field, HeaderFields(AfterLine(text)));
      result := result + field;
      line := channel.GetLine(line);
      text := AfterLine(text);
    }
  }

  /** The body of the loop: position arithmetic on one line. */
  method ReadLine(line: string) returns (field: seq<Field>)
    ensures field == LineField(line)
  {
    field := [];
    var paramEnd := IndexOf(line, ':');
    var valueStart := paramEnd + 1;
    if valueStart < |line| {
      if line[valueStart] == ' ' {
        valueStart := valueStart + 1;
      }
      if valueStart < |line| {
        field := [(line[..paramEnd], Substr(line, valueStart, |line| - valueStart - 1))];
      }
    }
  }

  /** The stopping line is complete: its newline is part of the text. */
  predicate StopsInside(text: string)
    decreases |text|
  {
    '\n' in text && (':' !in FirstLine(text) || StopsInside(AfterLine(text)))
  }

  /** Bytes behind a complete stopping line play no part. */
  lemma {:induction false} HeaderPrefix(text: string, more: string)
    requires StopsInside(text)
    ensures Stops(text) && Stops(text + more)
    ensures HeaderFields(text + more) == HeaderFields(text) && HeaderRest(text + more) == HeaderRest(text) + more
    decreases |text|
  {
    StopsStep(text);
    StopsStep(text + more);
    FirstLinePrefix(text, more);
    if ':' in FirstLine(text) {
      HeaderPrefix(AfterLine(text), more);
    }
  }

  function FieldLine(field: Field): string
  {
    field.0 + ": " + field.1 + CRLF
  }

  /** How both the server and the client print header fields. */
  function HeaderText(fields: seq<Field>): string
  {
    FlatMap(FieldLine, fields)
  }

  predicate FieldSurvives(field: Field)
  {
    ':' !in field.0 && '\n' !in field.0 && '\n' !in field.1
  }

  lemma FieldLineRead(field: Field, rest: string)
    requires FieldSurvives(field)
    ensures FirstLine(FieldLine(field) + rest) == field.0 + ": " + field.1 + "\r"
    ensures AfterLine(FieldLine(field) + rest) == rest
    ensures LineField(FirstLine(FieldLine(field) + rest)) == [field] && ':' in FirstLine(FieldLine(field) + rest)
  {
    var line := field.0 + ": " + field.1 + "\r";
    assert FieldLine(field) + rest == line + "\n" + rest;
    LineThenRest(line, rest);
    IndexOfUnique(line, ':', |field.0|);
    assert line[..|field.0|] == field.0 && line[|field.0| + 2..|line| - 1] == field.1;
    assert line[|field.0|] == ':';
  }

  lemma {:induction false} HeaderReadBack(fields: seq<Field>, rest: string)
    requires forall f :: f in fields ==> FieldSurvives(f)
    ensures HeaderFields(HeaderText(fields) + CRLF + rest) == fields
    ensures HeaderRest(HeaderText(fields) + CRLF + rest) == rest
    ensures StopsInside(HeaderText(fields) + CRLF + rest)
  {
    if fields == [] {
      assert HeaderText(fields) + CRLF + rest == "\r" + "\n" + rest;
      LineThenRest("\r", rest);
      assert (("\r" + "\n" + rest))[1] == '\n';
    } else {
      hide FieldLine, LineField, FieldSurvives;
      var tail := HeaderText(fields[1..]) + CRLF + rest;
      assert HeaderText(fields) + CRLF + rest == FieldLine(fields[0]) + tail;
      FieldLineRead(fields[0], tail);
      HeaderReadBack(fields[1..], rest);
      assert FirstLine(FieldLine(fields[0]) + tail) != FieldLine(fields[0]) + tail;
    }
  }

  lemma LineFieldSurvives(line: string)
    requires '\n' !in line
    ensures forall f :: f in LineField(line) ==> FieldSurvives(f)
  {}

  lemma {:induction false} ParsedFieldsSurvive(text: string)
    ensures forall f :: f in HeaderFields(text) ==> FieldSurvives(f)
    decreases |text|
  {
    hide FieldSurvives, LineField;
    if ':' in FirstLine(text) {
      LineFieldSurvives(FirstLine(text));
      ParsedFieldsSurvive(AfterLine(text));
    }
  }

  /**
   * Printed fields and the blank line are read back as the same bag of fields, exactly when no name
   * holds ':' or a newline and no value holds a newline; then what follows is left untouched.
   */
  lemma HeaderRoundTripIff(fields: seq<Field>, rest: string)
    ensures multiset(HeaderFields(HeaderText(fields) + CRLF + rest)) == multiset(fields) <==>
            forall k :: 0 <= k < |fields| ==> FieldSurvives(fields[k])
    ensures (forall k :: 0 <= k < |fields| ==> FieldSurvives(fields[k])) ==>
            HeaderRest(HeaderText(fields) + CRLF + rest) == rest
  {
    hide FieldSurvives, HeaderFields, HeaderText;
    if forall k :: 0 <= k < |fields| ==> FieldSurvives(fields[k]) {
      HeaderReadBack(fields, rest);
    } else if multiset(HeaderFields(HeaderText(fields) + CRLF + rest)) == multiset(fields) {
      BagSurvives(fields, HeaderText(fields) + CRLF + rest);
    }
  }

  lemma BagSurvives(fields: seq<Field>, text: string)
    requires multiset(HeaderFields(text)) == multiset(fields)
    ensures forall k :: 0 <= k < |fields| ==> FieldSurvives(fields[k])
  {
    hide FieldSurvives;
    ParsedFieldsSurvive(text);
    assert forall k :: 0 <= k < |fields| ==> fields[k] in multiset(fields);
  }
}
