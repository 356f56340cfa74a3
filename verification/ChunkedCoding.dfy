/** Chunked bodies as section 4.1 of RFC 7230 writes them, and what the reader makes of them. */
module ChunkedCoding {
  import opened Text
  import opened Numbers
  import opened Channels
  import opened Chunked

  /** One chunk as it stands on the wire: any hexadecimal spelling of its size and an optional extension. */
  datatype Chunk = Chunk(sizeText: string, extension: string, data: string)

  predicate WellFormed(chunk: Chunk)
  {
    && chunk.sizeText != "" && AllDigits(chunk.sizeText, 16)
    && ValueOf(chunk.sizeText, 16) == |chunk.data| <= MAX_ARRAY
    && (chunk.extension != "" ==> chunk.extension[0] == ';') && '\n' !in chunk.extension
  }

  function SizeLine(chunk: Chunk): string
  {
    chunk.sizeText + chunk.extension + CRLF
  }

  function EncodedChunk(chunk: Chunk): string
  {
    SizeLine(chunk) + (chunk.data + CRLF)
  }

  /** The chunks, then the last chunk, which carries no data; no trailers. */
  function EncodedBody(chunks: seq<Chunk>, last: Chunk): string
  {
    FlatMap(EncodedChunk, chunks) + EncodedChunk(last)
  }

  predicate WellFormedBody(chunks: seq<Chunk>, last: Chunk)
  {
    && (forall c :: c in chunks ==> WellFormed(c) && c.data != "")
    && WellFormed(last) && last.data == ""
  }

  function Data(chunks: seq<Chunk>): string
  {
    FlatMap((chunk: Chunk) => chunk.data, chunks)
  }

  lemma NoNewlineInSize(chunk: Chunk)
    requires WellFormed(chunk)
    ensures '\n' !in chunk.sizeText + chunk.extension
  {
    assert DigitValue('\n') == 16;
  }

  /** A line that ends in CRLF is the whole of what the reader counts. */
  lemma SizeLineFound(line: string, tail: string)
    requires '\n' !in line
    ensures FindText(line + CRLF + tail, CRLF) == Some(|line|)
    ensures IndexOf(line + CRLF + tail, '\n') == |line| + 1
    ensures AfterLine(line + CRLF + tail) == tail
  {
    var text := line + CRLF + tail;
    assert text[|line|] == '\r' && text[|line| + 1] == '\n' && text[|line| + 2..] == tail;
    assert text[|line|..|line| + 2] == CRLF;
    assert forall j :: 0 <= j < |line| ==> text[j] == line[j];
    IndexOfUnique(text, '\n', |line| + 1);
    assert OccursAt(text, CRLF, |line|);
    var p := FindText(text, CRLF).value;
    assert text[p + 1] == text[p..p + 2][1];
  }

  lemma SizeRead(chunk: Chunk)
    requires WellFormed(chunk)
    ensures Unsigned(chunk.sizeText + chunk.extension, 16) == Some(|chunk.data|)
  {
    hide AllDigits, ValueOf, Unsigned;
    UnsignedOfDigits(chunk.sizeText, chunk.extension, 16);
  }

  lemma SizeLineRead(chunk: Chunk, tail: string)
    requires WellFormed(chunk)
    ensures var text := SizeLine(chunk) + tail;
            && FindText(text, CRLF).Some? && IndexOf(text, '\n') > 0 && AfterLine(text) == tail
            && Excess(text) == 0 && AnnouncedLength(text) == Some(|chunk.data|)
  {
    hide WellFormed, Unsigned, FindText, IndexOf, AfterLine, OccursAt;
    var line := chunk.sizeText + chunk.extension;
    NoNewlineInSize(chunk);
    SizeRead(chunk);
    SizeLineFound(line, tail);
    var text := line + CRLF + tail;
    assert SizeLine(chunk) + tail == text;
    assert text[..IndexOf(text, '\n') - 1] == line;
  }

  lemma ChunkThenData(data: string, tail: string)
    ensures ChunkThen(|data|, data + CRLF + tail) ==
            if data == "" then Complete("", tail) else Prepend(data, MeaningOf(tail))
  {
    hide MeaningOf;
    var rest := data + CRLF + tail;
    assert rest[..|data|] == data && rest[|data| + 2..] == tail;
  }

  lemma MeaningOfEncodedChunk(chunk: Chunk, tail: string)
    requires WellFormed(chunk)
    ensures MeaningOf(EncodedChunk(chunk) + tail) ==
            if chunk.data == "" then Complete("", tail) else Prepend(chunk.data, MeaningOf(tail))
  {
    hide WellFormed, MeaningOf, AnnouncedLength, Excess, FindText, SizeLine, ChunkThen, Needed, AfterLine, IndexOf;
    var rest := chunk.data + CRLF + tail;
    assert EncodedChunk(chunk) + tail == SizeLine(chunk) + rest;
    SizeLineRead(chunk, rest);
    ShortEnough(chunk);
    MeaningOfChunk(SizeLine(chunk) + rest);
    ChunkThenData(chunk.data, tail);
  }

  lemma ShortEnough(chunk: Chunk)
    requires WellFormed(chunk)
    ensures |chunk.data| <= MAX_ARRAY && Needed(|chunk.data|) == |chunk.data| + 2
  {}

  /**
   * Reading undoes writing: a well-formed body means its concatenated data, whatever follows it.
   * The meaning is a function of the whole byte stream, so this holds for every fragmentation.
   */
  lemma {:induction false} BodyReadBack(chunks: seq<Chunk>, last: Chunk, rest: string)
    requires WellFormedBody(chunks, last)
    ensures MeaningOf(EncodedBody(chunks, last) + rest) == Complete(Data(chunks), rest)
  {
    hide MeaningOf, EncodedChunk, WellFormed;
    if chunks == [] {
      assert EncodedBody(chunks, last) == EncodedChunk(last);
      MeaningOfEncodedChunk(last, rest);
    } else {
      var tail := EncodedBody(chunks[1..], last) + rest;
      assert EncodedBody(chunks, last) + rest == EncodedChunk(chunks[0]) + tail;
      MeaningOfEncodedChunk(chunks[0], tail);
      BodyReadBack(chunks[1..], last, rest);
    }
  }

  /** A chunk cut short is not enough, wherever the cut is. */
  lemma CutChunkStarves(chunk: Chunk, k: nat)
    requires WellFormed(chunk) && k < |EncodedChunk(chunk)|
    ensures MeaningOf(EncodedChunk(chunk)[..k]) == Starved
  {
    hide MeaningOf, AnnouncedLength, Excess;
    var line, body := SizeLine(chunk), chunk.data + CRLF;
    var text := EncodedChunk(chunk)[..k];
    if k < |line| {
      NoNewlineInSize(chunk);
      assert forall j :: 0 <= j < k ==> text[j] == (chunk.sizeText + chunk.extension + "\r")[j];
      NoCrlf(text);
    } else {
      assert text == line + body[..k - |line|];
      SizeLineRead(chunk, body[..k - |line|]);
      ShortEnough(chunk);
      MeaningOfChunk(text);
    }
  }

  lemma NoCrlf(text: string)
    requires forall j :: 0 <= j < |text| ==> text[j] != '\n'
    ensures MeaningOf(text) == Starved
  {
    if FindText(text, CRLF).Some? {
      NewlineBeforeCrlf(text);
    }
  }

  /** The reader asks for the message and nothing more: every proper prefix of a well-formed body starves it. */
  lemma {:induction false} DemandsExactlyTheBody(chunks: seq<Chunk>, last: Chunk, k: nat)
    requires WellFormedBody(chunks, last) && k < |EncodedBody(chunks, last)|
    ensures MeaningOf(EncodedBody(chunks, last)[..k]) == Starved
  {
    hide MeaningOf, EncodedChunk, WellFormed;
    if chunks == [] {
      assert EncodedBody(chunks, last) == EncodedChunk(last);
      CutChunkStarves(last, k);
    } else {
      var head, tail := EncodedChunk(chunks[0]), EncodedBody(chunks[1..], last);
      assert EncodedBody(chunks, last) == head + tail;
      if k < |head| {
        assert EncodedBody(chunks, last)[..k] == head[..k];
        CutChunkStarves(chunks[0], k);
      } else {
        assert EncodedBody(chunks, last)[..k] == head + tail[..k - |head|];
        DemandsExactlyTheBody(chunks[1..], last, k - |head|);
        MeaningOfEncodedChunk(chunks[0], tail[..k - |head|]);
      }
    }
  }

  lemma {:induction false} MeaningShrinks(text: string)
    requires MeaningOf(text).Complete?
    ensures |MeaningOf(text).data| + |MeaningOf(text).rest| < |text|
    decreases |text|
  {
    hide MeaningOf, FindText, AnnouncedLength, Excess, Needed, AfterLine, IndexOf;
    MeaningWithoutLength(text);
    MeaningOfChunk(text);
    var length, rest := AnnouncedLength(text).value, AfterLine(text);
    if length > 0 {
      MeaningShrinks(rest[length + 2..]);
    }
  }

  /** Whatever a body in chunks ends as, it is not the encoded text itself that is handed over. */
  lemma ChunksAreDecoded(content: string) returns (ended: Ended)
    ensures Ends(ended, MeaningOf(content), "") && ended != Ended(Delivered, content, "")
  {
    hide MeaningOf;
    var meaning := MeaningOf(content);
    if meaning.Complete? {
      var data, rest := meaning.data, meaning.rest;
      MeaningShrinks(content);
      ended := Ended(Delivered, rest + data, "");
      assert rest[..|rest|] == rest && rest[|rest|..] == "" && "" + data == data;
    } else {
      ended := Ended(OutcomeOf(meaning), "", "");
    }
  }

  function WithMore(meaning: Meaning, more: string): Meaning
  {
    if meaning.Complete? then Complete(meaning.data, meaning.rest + more) else meaning
  }

  lemma SizeLineWithMore(text: string, more: string)
    requires FindText(text, CRLF).Some?
    ensures FindText(text + more, CRLF) == FindText(text, CRLF) && Excess(text + more) == Excess(text)
    ensures IndexOf(text + more, '\n') == IndexOf(text, '\n') && AfterLine(text + more) == AfterLine(text) + more
    ensures IndexOf(text, '\n') > 0 ==> AnnouncedLength(text + more) == AnnouncedLength(text)
  {
    hide FindText, Unsigned;
    FindTextPrefix(text, more, CRLF);
    NewlineBeforeCrlf(text);
    FirstLinePrefix(text, more);
    var i := IndexOf(text, '\n');
    assert i > 0 ==> (text + more)[..i - 1] == text[..i - 1];
  }

  /** More bytes behind a stream that already means something do not change what it means. */
  lemma {:induction false} MoreBytesChangeNothing(text: string, more: string)
    requires MeaningOf(text) != Starved
    ensures MeaningOf(text + more) == WithMore(MeaningOf(text), more)
    decreases |text|
  {
    hide MeaningOf, FindText, AnnouncedLength, Excess, Needed, AfterLine, IndexOf;
    MeaningWithoutLength(text);
    SizeLineWithMore(text, more);
    MeaningWithoutLength(text + more);
    if IndexOf(text, '\n') > 0 && AnnouncedLength(text).Some? {
      MeaningOfChunk(text);
      MeaningOfChunk(text + more);
      var length, rest := AnnouncedLength(text).value, AfterLine(text);
      if length <= MAX_ARRAY {
        assert (rest + more)[..length] == rest[..length] && (rest + more)[length + 2..] == rest[length + 2..] + more;
        ShorterRest(text);
        if length > 0 {
          MoreBytesChangeNothing(rest[length + 2..], more);
        }
      }
    }
  }

  lemma ShorterRest(text: string)
    ensures |AfterLine(text)| <= |text|
  {}

  /** The count is exact precisely when the first newline of the stream is the one of a CRLF. */
  lemma ExcessIff(text: string)
    requires FindText(text, CRLF).Some?
    ensures Excess(text) == 0 <==> IndexOf(text, '\n') > 0 && text[IndexOf(text, '\n') - 1] == '\r'
  {
    hide OccursAt;
    var p, q := FindText(text, CRLF).value, IndexOf(text, '\n');
    NewlineBeforeCrlf(text);
    CrlfAt(text, p);
    if q > 0 {
      CrlfAt(text, q - 1);
    }
  }

  /** A size line ended by a bare newline, with whatever follows it. */
  function BareLine(size: string, rest: string): string
  {
    size + "\n" + rest
  }

  /** How far behind a bare newline the reader looks: through the next CRLF. */
  lemma BareExcess(size: string, rest: string)
    requires '\n' !in size && (size != "" ==> size[|size| - 1] != '\r') && FindText(rest, CRLF).Some?
    ensures var text := BareLine(size, rest);
            && FindText(text, CRLF) == Some(|size| + 1 + FindText(rest, CRLF).value)
            && IndexOf(text, '\n') == |size| && AfterLine(text) == rest
            && Excess(text) == FindText(rest, CRLF).value + 2
  {
    hide OccursAt, AfterLine, FindText, IndexOf, BareLine;
    BareLineEnd(size, rest);
    BareCrlf(size, rest);
    FindTextUnique(BareLine(size, rest), CRLF, |size| + 1 + FindText(rest, CRLF).value);
  }

  lemma BareLineEnd(size: string, rest: string)
    requires '\n' !in size
    ensures IndexOf(BareLine(size, rest), '\n') == |size| && AfterLine(BareLine(size, rest)) == rest
  {
    LineThenRest(size, rest);
    IndexOfUnique(BareLine(size, rest), '\n', |size|);
  }

  lemma BareCrlf(size: string, rest: string)
    requires '\n' !in size && (size != "" ==> size[|size| - 1] != '\r') && FindText(rest, CRLF).Some?
    ensures var text, n := BareLine(size, rest), |size| + 1 + FindText(rest, CRLF).value;
            OccursAt(text, CRLF, n) && forall j :: 0 <= j < n ==> !OccursAt(text, CRLF, j)
  {
    hide OccursAt;
    var text, m := BareLine(size, rest), FindText(rest, CRLF).value;
    CrlfAt(rest, m);
    CrlfAt(text, |size| + 1 + m);
    forall j | 0 <= j < |size| + 1 + m ensures !OccursAt(text, CRLF, j) {
      CrlfAt(text, j);
      if j > |size| {
        CrlfAt(rest, j - |size| - 1);
      } else {
        assert j + 1 < |size| ==> text[j + 1] == size[j + 1];
      }
    }
  }

  /**
   * With a bare newline behind the size the reader demands too much, by all the bytes through the next CRLF: it starves
   * on a stream that ends within that many bytes of the announced chunk, although the chunk is all there.
   */
  lemma BareNewlineOverdemands(size: string, rest: string, length: nat)
    requires size != "" && '\n' !in size && size[|size| - 1] != '\r' && FindText(rest, CRLF).Some?
    requires Unsigned(size[..|size| - 1], 16) == Some(length) && length <= MAX_ARRAY
    ensures |rest| < FindText(rest, CRLF).value + 2 + length + 2 ==> MeaningOf(BareLine(size, rest)) == Starved
    ensures |rest| >= FindText(rest, CRLF).value + 2 + length + 2 ==>
              MeaningOf(BareLine(size, rest)) == ChunkThen(length, rest)
  {
    var text := BareLine(size, rest);
    BareExcess(size, rest);
    assert text[..|size| - 1] == size[..|size| - 1];
    hide FindText, Unsigned, IndexOf, MeaningOf, ChunkThen, AfterLine, Excess, BareLine;
    MeaningOfChunk(text);
  }

  /** In particular a last chunk with such a size line never ends a body, whatever chunks come before it. */
  lemma {:induction false} BareLastChunkStarves(chunks: seq<Chunk>, size: string)
    requires forall c :: c in chunks ==> WellFormed(c) && c.data != ""
    requires size != "" && '\n' !in size && size[|size| - 1] != '\r'
    requires Unsigned(size[..|size| - 1], 16) == Some(0)
    ensures MeaningOf(FlatMap(EncodedChunk, chunks) + BareLine(size, CRLF)) == Starved
  {
    hide Unsigned, MeaningOf, EncodedChunk, WellFormed;
    if chunks == [] {
      assert CRLF[0..2] == CRLF && OccursAt(CRLF, CRLF, 0);
      BareNewlineOverdemands(size, CRLF, 0);
      assert FlatMap(EncodedChunk, chunks) + BareLine(size, CRLF) == BareLine(size, CRLF);
    } else {
      hide BareLine;
      var tail := FlatMap(EncodedChunk, chunks[1..]) + BareLine(size, CRLF);
      BareLastChunkStarves(chunks[1..], size);
      Associative(EncodedChunk(chunks[0]), FlatMap(EncodedChunk, chunks[1..]), BareLine(size, CRLF));
      MeaningOfEncodedChunk(chunks[0], tail);
    }
  }
}
