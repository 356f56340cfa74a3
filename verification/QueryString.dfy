/** Query strings: the one-pass parser, a declarative reading of the same text, and the printer. */
module QueryString {
  import opened Text
  import Percent

  /** One '&'-separated segment: split at its last '='; dropped when the name is empty. */
  function SegmentField(segment: string): seq<Field>
  {
    var e := LastIndexOf(segment, '=');
    var name := if e == -1 then segment else segment[..e];
    var value := if e == -1 then "" else segment[e + 1..];
    if name == "" then [] else [(name, Percent.Decoded(value))]
  }

  /** The whole query string, read without any scanning state. */
  function QueryFields(query: string): seq<Field>
  {
    FlatMap(SegmentField, Split(query, '&'))
  }

  lemma QueryFieldsHead(segment: string, rest: string)
    requires '&' !in segment
    ensures QueryFields(segment + "&" + rest) == SegmentField(segment) + QueryFields(rest)
  {
    SplitHead(segment, rest, '&');
    FlatMapConcat(SegmentField, [segment], Split(rest, '&'));
    FlatMapOne(SegmentField, segment);
  }

  lemma QueryFieldsLast(segment: string)
    requires '&' !in segment
    ensures QueryFields(segment) == SegmentField(segment)
  {
    SplitNone(segment, '&');
    FlatMapOne(SegmentField, segment);
  }

  lemma EmptyQuery()
    ensures QueryFields("") == []
  {
    QueryFieldsLast("");
  }

  /** Where the scanner's positions stand inside the segment that starts at `namePos` and is read up to `c`. */
  ghost predicate Scanned(query: string, namePos: nat, nameEndPos: nat, valuePos: nat, c: nat)
  {
    && namePos <= c <= |query|
    && var e := LastIndexOf(query[namePos..c], '=');
       if e == -1 then nameEndPos == NPOS && valuePos == NPOS
       else nameEndPos == namePos + e && valuePos == nameEndPos + 1
  }

  lemma ScanStep(query: string, namePos: nat, nameEndPos: nat, valuePos: nat, c: nat)
    requires Scanned(query, namePos, nameEndPos, valuePos, c) && c < |query|
    ensures query[c] == '=' ==> Scanned(query, namePos, c, c + 1, c + 1)
    ensures query[c] != '=' ==> Scanned(query, namePos, nameEndPos, valuePos, c + 1)
  {
    var segment := query[namePos..c];
    var longer := query[namePos..c + 1];
    assert longer == segment + [query[c]];
    if query[c] == '=' {
      LastIndexOfUnique(longer, '=', |segment|);
    } else {
      var e := LastIndexOf(segment, '=');
      assert forall k :: e < k < |segment| ==> longer[k] == segment[k];
      LastIndexOfUnique(longer, '=', e);
    }
  }

  /** The positions cut the segment exactly where the declarative reading does. */
  lemma PositionsCutSegment(query: string, namePos: nat, nameEndPos: nat, valuePos: nat, c: nat)
    requires Scanned(query, namePos, nameEndPos, valuePos, c) && |query| < NPOS
    ensures if nameEndPos == NPOS then valuePos == NPOS else namePos <= nameEndPos < valuePos <= c
    ensures SegmentField(query[namePos..c]) ==
            SegmentAt(query[namePos..if nameEndPos == NPOS then c else nameEndPos],
                      if valuePos == NPOS then "" else query[valuePos..c])
  {
    var segment := query[namePos..c];
    var e := LastIndexOf(segment, '=');
    if e != -1 {
      assert segment[..e] == query[namePos..nameEndPos] && segment[e + 1..] == query[valuePos..c];
    }
  }

  function SegmentAt(name: string, value: string): seq<Field>
  {
    if name == "" then [] else [(name, Percent.Decoded(value))]
  }

  /** Emplaces a field unless its name is empty. */
  method Emplace(fields: seq<Field>, name: string, value: string) returns (result: seq<Field>)
    ensures result == fields + SegmentAt(name, value)
  {
    result := fields;
    if name != "" {
      var decoded := Percent.Decode(value);
      result := result + [(name, decoded)];
    }
  }

  /** The single pass over the query string computes the declarative reading, for every input. */
  method Parse(query: string) returns (result: seq<Field>)
    requires |query| < NPOS
    ensures result == QueryFields(query)
  {
    hide QueryFields, SegmentField, SegmentAt, Scanned, LastIndexOf;
    result := [];
    if query == "" {
      EmptyQuery();
      return;
    }
    var namePos: nat, nameEndPos: nat, valuePos: nat := 0, NPOS, NPOS;
    assert query[0..] == query;
    ScanStart(query, 0);
    var c := 0;
    while c < |query|
      invariant 0 <= namePos <= c <= |query|
      invariant Scanned(query, namePos, nameEndPos, valuePos, c)
      invariant '&' !in query[namePos..c]
      invariant result + QueryFields(query[namePos..]) == QueryFields(query)
    {
      if query[c] == '&' {
        assert query[namePos..] == query[namePos..c] + "&" + query[c + 1..];
        QueryFieldsHead(query[namePos..c], query[c + 1..]);
        PositionsCutSegment(query, namePos, nameEndPos, valuePos, c);
        var name := Substr(query, namePos, (if nameEndPos == NPOS then c else nameEndPos) - namePos);
        var value := if valuePos == NPOS then "" else Substr(query, valuePos, c - valuePos);
        Associative(result, SegmentAt(name, value), QueryFields(query[c + 1..]));
        result := Emplace(result, name, value);
        namePos, nameEndPos, valuePos := c + 1, NPOS, NPOS;
        ScanStart(query, namePos);
      } else {
        ScanStep(query, namePos, nameEndPos, valuePos, c);
        assert query[namePos..c + 1] == query[namePos..c] + [query[c]];
        if query[c] == '=' {
          nameEndPos := c;
          valuePos := c + 1;
        }
      }
      c := c + 1;
    }
    assert query[namePos..c] == query[namePos..];
    assert forall k :: 0 <= k <= |query| ==> query[k..] == query[k..c];
    EmptyQuery();
    QueryFieldsLast(query[namePos..]);
    PositionsCutSegment(query, namePos, nameEndPos, valuePos, c);
    if namePos < |query| {
      var name := Substr(query, namePos, nameEndPos - namePos);
      var value := if valuePos >= |query| then "" else query[valuePos..];
      result := Emplace(result, name, value);
    }
  }

  lemma ScanStart(query: string, namePos: nat)
    requires namePos <= |query|
    ensures Scanned(query, namePos, NPOS, NPOS, namePos)
  {}

  function FieldText(field: Field): string
  {
    field.0 + "=" + Percent.Encoded(field.1)
  }

  /** The query string `create` prints for the fields in the order the container lists them. */
  function QueryText(fields: seq<Field>): string
  {
    if fields == [] then ""
    else if |fields| == 1 then FieldText(fields[0])
    else FieldText(fields[0]) + "&" + QueryText(fields[1..])
  }

  method Create(fields: seq<Field>) returns (result: string)
    ensures result == QueryText(fields)
  {
    result := "";
    var first := true;
    for i := 0 to |fields|
      invariant first <==> i == 0
      invariant result + (if 0 < i < |fields| then "&" else "") + QueryText(fields[i..]) == QueryText(fields)
    {
      var encoded := Percent.Encode(fields[i].1);
      assert fields[i..][1..] == fields[i + 1..];
      ghost var before := result + if !first then "&" else "";
      result := result + (if !first then "&" else "") + fields[i].0 + "=" + encoded;
      first := false;
      ghost var rest := (if i + 1 < |fields| then "&" else "") + QueryText(fields[i + 1..]);
      assert result == before + FieldText(fields[i]);
      Associative(before, FieldText(fields[i]), rest);
    }
  }

  predicate NameSurvives(name: string)
  {
    name != "" && '&' !in name
  }

  function Recoded(field: Field): Field
  {
    (field.0, Percent.Decoded(Percent.Encoded(field.1)))
  }

  function RecodedAll(fields: seq<Field>): seq<Field>
  {
    seq(|fields|, i requires 0 <= i < |fields| => Recoded(fields[i]))
  }

  lemma FieldTextParsed(field: Field)
    requires NameSurvives(field.0)
    ensures '&' !in FieldText(field)
    ensures SegmentField(FieldText(field)) == [Recoded(field)]
  {
    Percent.EncodedHasNoSeparators(field.1);
    var text, e := FieldText(field), |field.0|;
    assert text[e + 1..] == Percent.Encoded(field.1) && text[..e] == field.0;
    assert forall k :: e < k < |text| ==> text[k] == text[e + 1..][k - e - 1];
    LastIndexOfUnique(text, '=', e);
  }

  lemma ParseHead(fields: seq<Field>)
    requires fields != [] && NameSurvives(fields[0].0)
    ensures QueryFields(QueryText(fields)) == [Recoded(fields[0])] + QueryFields(QueryText(fields[1..]))
  {
    hide SegmentField, FieldText, QueryFields, Recoded, NameSurvives;
    var text := FieldText(fields[0]);
    FieldTextParsed(fields[0]);
    if |fields| == 1 {
      QueryFieldsLast(text);
      EmptyQuery();
    } else {
      QueryFieldsHead(text, QueryText(fields[1..]));
    }
  }

  /** With surviving names, only the percent coding of the values is between the fields and what is read back. */
  lemma {:induction false} ParseOfCreate(fields: seq<Field>)
    requires forall f :: f in fields ==> NameSurvives(f.0)
    ensures QueryFields(QueryText(fields)) == RecodedAll(fields)
  {
    hide QueryFields, QueryText, Recoded, NameSurvives;
    if fields == [] {
      EmptyQuery();
      EmptyText();
    } else {
      ParseHead(fields);
      ParseOfCreate(fields[1..]);
      assert RecodedAll(fields) == [Recoded(fields[0])] + RecodedAll(fields[1..]);
    }
  }

  lemma EmptyText()
    ensures QueryText([]) == ""
  {}

  lemma SegmentNameSurvives(segment: string)
    requires '&' !in segment
    ensures forall f :: f in SegmentField(segment) ==> NameSurvives(f.0)
  {}

  /** Every parsed name is nonempty and free of '&'. */
  lemma {:induction false} ParsedNamesSurvive(parts: seq<string>)
    requires forall p :: p in parts ==> '&' !in p
    ensures forall f :: f in FlatMap(SegmentField, parts) ==> NameSurvives(f.0)
  {
    if parts != [] {
      SegmentNameSurvives(parts[0]);
      ParsedNamesSurvive(parts[1..]);
    }
  }

  lemma SameBagSameElement<T>(a: seq<T>, b: seq<T>, k: nat) returns (j: nat)
    requires multiset(a) == multiset(b) && k < |b|
    ensures j < |a| && a[j] == b[k]
  {
    assert b[k] in multiset(b);
    j :| j < |a| && a[j] == b[k];
  }

  /** Values read back under the same name form a bag; a value that changes cannot be made up for by the others. */
  lemma {:induction false} NoLossInBag(fields: seq<Field>, k: nat)
    requires k < |fields| && multiset(RecodedAll(fields)) == multiset(fields)
    ensures Percent.RoundTrips(fields[k].1)
    decreases IndexOf(fields[k].1, '%')
  {
    hide Percent.RoundTrips;
    var j := SameBagSameElement(RecodedAll(fields), fields, k);
    var u, v := fields[j].1, fields[k].1;
    assert v == Percent.Decoded(Percent.Encoded(u));
    if Percent.RoundTrips(u) {
      Percent.RoundTripIff(u);
    } else {
      LossMovesPercent(u);
      if !Percent.RoundTrips(v) {
        NoLossInBag(fields, j);
      }
    }
  }

  /** What is read back in place of a lost value has its first '%', if any, further to the right. */
  lemma LossMovesPercent(u: string)
    requires !Percent.RoundTrips(u)
    ensures IndexOf(u, '%') < IndexOf(Percent.Decoded(Percent.Encoded(u)), '%')
  {
    hide Percent.Encoded, Percent.Decoded;
    Percent.LossIsAtFirstPercent(u);
    hide Percent.RoundTrips;
    var p, v := IndexOf(u, '%'), Percent.Decoded(Percent.Encoded(u));
    assert forall i :: 0 <= i < p ==> v[i] == v[..p][i] == u[..p][i];
  }

  /**
   * `parse` returns the fields `create` printed, as a bag, exactly when every name is nonempty and
   * free of '&' and every value is in the round-trip set of the percent coding. Names may contain '='.
   */
  lemma CreateParseIff(fields: seq<Field>)
    ensures multiset(QueryFields(QueryText(fields))) == multiset(fields) <==>
            forall k :: 0 <= k < |fields| ==> NameSurvives(fields[k].0) && Percent.RoundTrips(fields[k].1)
  {
    hide QueryFields, QueryText, NameSurvives, Percent.RoundTrips;
    if forall k :: 0 <= k < |fields| ==> NameSurvives(fields[k].0) && Percent.RoundTrips(fields[k].1) {
      CreateParseInOrder(fields);
    } else if multiset(QueryFields(QueryText(fields))) == multiset(fields) {
      BagSurvives(fields);
    }
  }

  /** On surviving fields the order is kept as well. */
  lemma CreateParseInOrder(fields: seq<Field>)
    requires forall k :: 0 <= k < |fields| ==> NameSurvives(fields[k].0) && Percent.RoundTrips(fields[k].1)
    ensures QueryFields(QueryText(fields)) == fields
  {
    ParseOfCreate(fields);
    forall k | 0 <= k < |fields| ensures RecodedAll(fields)[k] == fields[k] {
      Percent.RoundTripIff(fields[k].1);
    }
    assert RecodedAll(fields) == fields;
  }

  lemma BagSurvives(fields: seq<Field>)
    requires multiset(QueryFields(QueryText(fields))) == multiset(fields)
    ensures forall k :: 0 <= k < |fields| ==> NameSurvives(fields[k].0) && Percent.RoundTrips(fields[k].1)
  {
    hide SegmentField, FieldText, NameSurvives, Percent.RoundTrips;
    SplitIsInverseOfJoin(QueryText(fields), '&');
    ParsedNamesSurvive(Split(QueryText(fields), '&'));
    assert forall k :: 0 <= k < |fields| ==> fields[k] in multiset(fields);
    ParseOfCreate(fields);
    forall k | 0 <= k < |fields| ensures Percent.RoundTrips(fields[k].1) {
      NoLossInBag(fields, k);
    }
  }
}
