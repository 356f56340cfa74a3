/** Which chunked streams the reader does not survive, read off the size lines it reaches. */
module ChunkedBreaks {
  import opened Text
  import opened Numbers
  import opened Channels
  import opened Chunked

  /** The text starts with a size line that announces a length. */
  predicate Announces(text: string)
  {
    FindText(text, CRLF).Some? && IndexOf(text, '\n') > 0 && AnnouncedLength(text).Some?
  }

  /** The bytes the reader waits for behind the size line have all been sent. */
  predicate AllThere(text: string)
    requires Announces(text)
  {
    |AfterLine(text)| >= Excess(text) + Needed(AnnouncedLength(text).value)
  }

  /** A chunk with data, and not too much of it, at `from`; it ends at `to`. */
  predicate ChunkAt(text: string, from: nat, to: nat)
  {
    && from <= |text| && Announces(text[from..]) && AllThere(text[from..])
    && 1 <= AnnouncedLength(text[from..]).value <= MAX_ARRAY
    && to == |text| - |AfterLine(text[from..])| + AnnouncedLength(text[from..]).value + 2
  }

  /** The size line is empty. */
  predicate EmptyLineAt(text: string, at: nat)
  {
    at < |text| && text[at] == '\n' && FindText(text[at..], CRLF).Some?
  }

  /** The size line announces more than any array holds, and the bytes the reader waits for all the same are there. */
  predicate OversizedAt(text: string, at: nat)
  {
    at <= |text| && Announces(text[at..]) && AllThere(text[at..]) && AnnouncedLength(text[at..]).value > MAX_ARRAY
  }

  function LastOr(from: nat, ends: seq<nat>): nat
  {
    if ends == [] then from else ends[|ends| - 1]
  }

  /** Chunk follows chunk from `from` on; these are their ends. */
  predicate ChunksEndAt(text: string, from: nat, ends: seq<nat>)
    decreases |ends|
  {
    ends == [] || (ChunkAt(text, from, ends[0]) && ChunksEndAt(text, ends[0], ends[1..]))
  }

  /** Behind any number of chunks comes an empty size line. */
  ghost predicate ReachesEmptyLine(text: string)
  {
    exists ends :: ChunksEndAt(text, 0, ends) && EmptyLineAt(text, LastOr(0, ends))
  }

  /** Behind any number of chunks comes a size no array holds, with all the bytes the reader waits for. */
  ghost predicate ReachesOversized(text: string)
  {
    exists ends :: ChunksEndAt(text, 0, ends) && OversizedAt(text, LastOr(0, ends))
  }

  lemma EmptyLineIff(text: string, at: nat)
    requires at <= |text|
    ensures EmptyLineAt(text, at) <==> FindText(text[at..], CRLF).Some? && IndexOf(text[at..], '\n') == 0
  {
    if FindText(text[at..], CRLF).Some? {
      NewlineBeforeCrlf(text[at..]);
      assert at < |text| ==> text[at..][0] == text[at];
    }
  }

  /** Where the stream breaks at once, and where it means what follows one chunk. */
  lemma MeaningHere(text: string, from: nat)
    requires from <= |text|
    ensures EmptyLineAt(text, from) ==> MeaningOf(text[from..]) == PopOfEmptyLine
    ensures OversizedAt(text, from) ==> MeaningOf(text[from..]) == TooLong
    ensures forall to: nat :: ChunkAt(text, from, to) ==>
              && from < to <= |text|
              && (MeaningOf(text[from..]).TooLong? <==> MeaningOf(text[to..]).TooLong?)
              && (MeaningOf(text[from..]).PopOfEmptyLine? <==> MeaningOf(text[to..]).PopOfEmptyLine?)
    ensures MeaningOf(text[from..]).PopOfEmptyLine? && !EmptyLineAt(text, from) ==>
              exists to: nat :: ChunkAt(text, from, to)
    ensures MeaningOf(text[from..]).TooLong? && !OversizedAt(text, from) ==> exists to: nat :: ChunkAt(text, from, to)
  {
    hide MeaningOf, FindText, AnnouncedLength, IndexOf, Excess, AfterLine;
    var here := text[from..];
    EmptyLineIff(text, from);
    MeaningWithoutLength(here);
    if Announces(here) {
      MeaningOfChunk(here);
      LineIsConsumed(here);
      var length, rest := AnnouncedLength(here).value, AfterLine(here);
      if 1 <= length <= MAX_ARRAY && AllThere(here) {
        var to := |text| - |rest| + length + 2;
        SuffixBehind(text, from, to, length + 2);
        assert ChunkAt(text, from, to);
      }
    }
  }

  lemma LineIsConsumed(text: string)
    requires IndexOf(text, '\n') > 0 && FindText(text, CRLF).Some?
    ensures |AfterLine(text)| < |text|
  {
    NewlineBeforeCrlf(text);
  }

  lemma SuffixBehind(text: string, from: nat, to: nat, n: nat)
    requires from <= |text| && n <= |AfterLine(text[from..])| && to == |text| - |AfterLine(text[from..])| + n
    ensures from <= to <= |text| && text[to..] == AfterLine(text[from..])[n..]
  {
    var here := text[from..];
    var i := IndexOf(here, '\n');
    assert |AfterLine(here)| <= |here|;
    if i < |here| {
      assert AfterLine(here) == here[i + 1..] == text[from + i + 1..];
    }
  }

  lemma {:induction false} EmptyLineReached(text: string, from: nat) returns (ends: seq<nat>)
    requires from <= |text| && MeaningOf(text[from..]).PopOfEmptyLine?
    ensures ChunksEndAt(text, from, ends) && EmptyLineAt(text, LastOr(from, ends))
    decreases |text| - from
  {
    hide MeaningOf, ChunkAt, EmptyLineAt;
    MeaningHere(text, from);
    if EmptyLineAt(text, from) {
      ends := [];
    } else {
      var to: nat :| ChunkAt(text, from, to);
      var more := EmptyLineReached(text, to);
      ends := [to] + more;
      assert ends[1..] == more;
    }
  }

  lemma {:induction false} OversizedReached(text: string, from: nat) returns (ends: seq<nat>)
    requires from <= |text| && MeaningOf(text[from..]).TooLong?
    ensures ChunksEndAt(text, from, ends) && OversizedAt(text, LastOr(from, ends))
    decreases |text| - from
  {
    hide MeaningOf, ChunkAt, OversizedAt;
    MeaningHere(text, from);
    if OversizedAt(text, from) {
      ends := [];
    } else {
      var to: nat :| ChunkAt(text, from, to);
      var more := OversizedReached(text, to);
      ends := [to] + more;
      assert ends[1..] == more;
    }
  }

  /** Chunks in front change neither way of breaking. */
  lemma {:induction false} BreaksBehindChunks(text: string, from: nat, ends: seq<nat>)
    requires from <= |text| && ChunksEndAt(text, from, ends)
    ensures LastOr(from, ends) <= |text|
    ensures MeaningOf(text[from..]).TooLong? <==> MeaningOf(text[LastOr(from, ends)..]).TooLong?
    ensures MeaningOf(text[from..]).PopOfEmptyLine? <==> MeaningOf(text[LastOr(from, ends)..]).PopOfEmptyLine?
    decreases |ends|
  {
    hide MeaningOf, ChunkAt;
    if ends != [] {
      MeaningHere(text, from);
      BreaksBehindChunks(text, ends[0], ends[1..]);
    }
  }

  /** The reader takes the last character of an empty line exactly on these streams. */
  lemma EmptyLineBreaksIff(text: string)
    ensures MeaningOf(text).PopOfEmptyLine? <==> ReachesEmptyLine(text)
  {
    hide MeaningOf, ChunksEndAt, EmptyLineAt;
    assert text[0..] == text;
    if MeaningOf(text).PopOfEmptyLine? {
      var ends := EmptyLineReached(text, 0);
    }
    if ends :| ChunksEndAt(text, 0, ends) && EmptyLineAt(text, LastOr(0, ends)) {
      BreaksBehindChunks(text, 0, ends);
      MeaningHere(text, LastOr(0, ends));
    }
  }

  /** The reader asks for an impossible array exactly on these streams. */
  lemma OversizedBreaksIff(text: string)
    ensures MeaningOf(text).TooLong? <==> ReachesOversized(text)
  {
    hide MeaningOf, ChunksEndAt, OversizedAt;
    assert text[0..] == text;
    if MeaningOf(text).TooLong? {
      var ends := OversizedReached(text, 0);
    }
    if ends :| ChunksEndAt(text, 0, ends) && OversizedAt(text, LastOr(0, ends)) {
      BreaksBehindChunks(text, 0, ends);
      MeaningHere(text, LastOr(0, ends));
    }
  }

  /**
   * On a stream no longer than the largest array only two sizes break: with 2^64-2 and 2^64-1 the count of the bytes
   * to wait for wraps around to 0 and 1. On any other oversized chunk the reader waits until the stream ends.
   */
  lemma OnlyWrappingSizes(text: string, at: nat)
    requires |text| <= MAX_ARRAY && at <= |text| && Announces(text[at..])
    requires AnnouncedLength(text[at..]).value > MAX_ARRAY
    ensures OversizedAt(text, at) <==>
            && AnnouncedLength(text[at..]).value >= UINT64 - 2
            && |AfterLine(text[at..])| >= Excess(text[at..]) + AnnouncedLength(text[at..]).value - (UINT64 - 2)
    ensures AnnouncedLength(text[at..]).value < UINT64 - 2 ==> MeaningOf(text[at..]) == Starved
  {
    hide FindText, IndexOf, MeaningOf, Excess, AnnouncedLength;
    var here := text[at..];
    LineIsConsumed(here);
    MeaningOfChunk(here);
    AnnouncedFits(here);
    NeededWraps(AnnouncedLength(here).value);
  }

  lemma NeededWraps(length: nat)
    requires length < UINT64
    ensures Needed(length) == if length >= UINT64 - 2 then length - (UINT64 - 2) else length + 2
  {}

  lemma AnnouncedFits(text: string)
    requires IndexOf(text, '\n') > 0
    ensures AnnouncedLength(text).Some? ==> AnnouncedLength(text).value < UINT64
  {}

  /** A stream on which it happens: the size -1 is read as 2^64-1, and one byte is enough. */
  lemma MinusOneIsTooLong()
    ensures MeaningOf("-1\r\nX") == TooLong
  {
    var text := "-1\r\nX";
    MinusOnePositions(text);
    MinusOne();
    NeededWraps(UINT64 - 1);
    hide Unsigned, FindText, IndexOf, AfterLine, Needed, MeaningOf;
    assert AnnouncedLength(text) == Some(UINT64 - 1) by {
      assert text[..2] == "-1";
    }
    MeaningOfChunk(text);
  }

  lemma MinusOnePositions(text: string)
    requires text == "-1\r\nX"
    ensures FindText(text, CRLF) == Some(2) && IndexOf(text, '\n') == 3 && AfterLine(text) == "X"
  {
    CrlfAt(text, 0);
    CrlfAt(text, 1);
    CrlfAt(text, 2);
    FindTextUnique(text, CRLF, 2);
    IndexOfUnique(text, '\n', 3);
  }

  lemma MinusOne()
    ensures Unsigned("-1", 16) == Some(UINT64 - 1)
  {
    assert "-" + "1" == "-1" && "" + ['1'] == "1";
    ValueOfSnoc("", '1', 16);
    ScanOfNegative("1", 16);
    hide Scan, DigitValue, ValueOf;
  }

  /** And one that starts with an empty size line. */
  lemma EmptyLineFirst()
    ensures MeaningOf("\n\r\n") == PopOfEmptyLine
  {
    var text := "\n\r\n";
    CrlfAt(text, 0);
    CrlfAt(text, 1);
    FindTextUnique(text, CRLF, 1);
    IndexOfUnique(text, '\n', 0);
    MeaningWithoutLength(text);
  }
}
