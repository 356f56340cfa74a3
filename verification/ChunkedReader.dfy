/** Chunked transfer coding as the reader of server and client takes it apart. */
module Chunked {
  import opened Text
  import opened Numbers
  import opened Channels

  /** The largest array the allocator accepts; longer chunks end in an exception. */
  const MAX_ARRAY: nat := 0x7FFF_FFFF_FFFF_FFFF

  /** How a whole transfer ends, as the session's owner sees it. */
  datatype Outcome = Delivered | ProtocolError | EndOfStream | Interrupted | Undefined | OutOfMemory | Threw

  /** What a byte stream means to the reader, however it is cut into pieces on its way. */
  datatype Meaning = Complete(data: string, rest: string) | Malformed | Starved | PopOfEmptyLine | TooLong

  /**
   * Bytes up to the first CRLF that the size line does not consume: the reader takes a line up to a
   * bare newline, but counts what it has received up to the CRLF.
   */
  function Excess(text: string): (excess: nat)
    requires FindText(text, CRLF).Some?
  {
    NewlineBeforeCrlf(text);
    FindText(text, CRLF).value + 1 - IndexOf(text, '\n')
  }

  lemma CrlfAt(text: string, j: nat)
    ensures OccursAt(text, CRLF, j) <==> j + 2 <= |text| && text[j] == '\r' && text[j + 1] == '\n'
  {
    if j + 2 <= |text| {
      var two := text[j..j + 2];
      assert two[0] == text[j] && two[1] == text[j + 1];
    }
  }

  lemma NewlineBeforeCrlf(text: string)
    requires FindText(text, CRLF).Some?
    ensures IndexOf(text, '\n') <= FindText(text, CRLF).value + 1 < |text|
  {
    var p := FindText(text, CRLF).value;
    assert text[p + 1] == text[p..p + 2][1] == '\n';
  }

  /** The length a size line announces; the last character of the line is dropped unseen. */
  function AnnouncedLength(text: string): Option<nat>
    requires IndexOf(text, '\n') > 0
  {
    Unsigned(text[..IndexOf(text, '\n') - 1], 16)
  }

  /** Data and line end behind a size line, in 64-bit arithmetic. */
  function Needed(length: nat): (needed: nat)
    ensures length <= MAX_ARRAY ==> needed == length + 2
  {
    (2 + length) % UINT64
  }

  function MeaningOf(text: string): (meaning: Meaning)
    decreases |text|
  {
    if FindText(text, CRLF).None? then Starved
    else if IndexOf(text, '\n') == 0 then PopOfEmptyLine
    else if AnnouncedLength(text).None? then Malformed
    else
      var length := AnnouncedLength(text).value;
      var rest := AfterLine(text);
      if |rest| < Excess(text) + Needed(length) then Starved
      else if length > MAX_ARRAY then TooLong
      else if length == 0 then Complete("", rest[2..])
      else
        NewlineBeforeCrlf(text);
        Prepend(rest[..length], MeaningOf(rest[length + 2..]))
  }

  /** The meaning once the size line is known to announce a length. */
  lemma MeaningOfChunk(text: string)
    requires FindText(text, CRLF).Some? && IndexOf(text, '\n') > 0 && AnnouncedLength(text).Some?
    ensures var length, rest := AnnouncedLength(text).value, AfterLine(text);
            if |rest| < Excess(text) + Needed(length) then MeaningOf(text) == Starved
            else if length > MAX_ARRAY then MeaningOf(text) == TooLong
            else |rest| >= length + 2 && MeaningOf(text) == ChunkThen(length, rest)
  {}

  lemma MeaningWithoutLength(text: string)
    ensures FindText(text, CRLF).None? ==> MeaningOf(text) == Starved
    ensures FindText(text, CRLF).Some? && IndexOf(text, '\n') == 0 ==> MeaningOf(text) == PopOfEmptyLine
    ensures FindText(text, CRLF).Some? && IndexOf(text, '\n') > 0 && AnnouncedLength(text).None? ==>
            MeaningOf(text) == Malformed
  {}

  function ChunkThen(length: nat, text: string): Meaning
    requires length + 2 <= |text|
  {
    if length == 0 then Complete("", text[2..]) else Prepend(text[..length], MeaningOf(text[length + 2..]))
  }

  function Prepend(data: string, meaning: Meaning): Meaning
  {
    if meaning.Complete? then Complete(data + meaning.data, meaning.rest) else meaning
  }

  /** How a transfer has ended, what it left in the stream buffer, and what is still on the wire. */
  datatype Ended = Ended(outcome: Outcome, buffer: string, incoming: string)

  /** The end fits the meaning of the stream; when complete, the data stands behind whatever was read too much. */
  ghost predicate Ends(ended: Ended, meaning: Meaning, before: string)
  {
    match meaning
    case Complete(data, rest) =>
      && ended.outcome == Delivered
      && exists k ::
           0 <= k <= |rest| && ended.buffer == rest[..k] + (before + data) && ended.incoming == rest[k..]
    case _ => ended.outcome == OutcomeOf(meaning)
  }

  function OutcomeOf(meaning: Meaning): Outcome
  {
    match meaning
    case Complete(_, _) => Delivered
    case Malformed => ProtocolError
    case Starved => EndOfStream
    case PopOfEmptyLine => Undefined
    case TooLong => OutOfMemory
  }

  ghost predicate EndsAs(channel: Channel, outcome: Outcome, meaning: Meaning, before: string)
    reads channel
  {
    if channel.failed then outcome == Interrupted
    else Ends(Ended(outcome, channel.buffer, channel.incoming), meaning, before)
  }

  class Reader {
    const channel: Channel
    /** The data of the chunks read so far. */
    var chunks: string

    constructor (channel: Channel)
      ensures this.channel == channel && chunks == ""
    {
      this.channel, chunks := channel, "";
    }

    ghost predicate Fits(outcome: Outcome, meaning: Meaning, before: string)
      reads this, channel
    {
      && EndsAs(channel, outcome, meaning, before)
      && (outcome == Delivered && meaning.Complete? ==> chunks == before + meaning.data && channel.good)
    }

    /** Waits for a CRLF, takes a line and keeps count of the received bytes the line did not cover. */
    method TakeSizeLine() returns (read: ReadResult, line: string, bytesTransferred: nat)
      requires channel.good && !channel.failed
      modifies channel
      ensures var text := old(channel.buffer + channel.incoming);
              && (channel.failed <==> read.Failed?)
              && (read.Eof? ==> FindText(text, CRLF).None?)
              && (read.Transferred? ==>
                    && FindText(text, CRLF).Some? && line == text[..IndexOf(text, '\n')]
                    && bytesTransferred == Excess(text) <= |channel.buffer|
                    && channel.buffer + channel.incoming == AfterLine(text) && channel.good)
    {
      hide FindText;
      ghost var text := channel.buffer + channel.incoming;
      line, bytesTransferred := "", 0;
      read := channel.ReadUntil(CRLF);
      if read.Transferred? {
        NewlineBeforeCrlf(channel.buffer);
        NewlineBeforeCrlf(text);
        FirstLinePrefix(channel.buffer, channel.incoming);
        line := channel.GetLine(line);
        bytesTransferred := read.count - (|line| + 1);
      }
    }

    /** read_chunked_transfer_encoded: one size line, then enough bytes for the chunk it announces. */
    method ReadLine() returns (outcome: Outcome)
      requires channel.good && !channel.failed
      modifies this, channel
      ensures Fits(outcome, MeaningOf(old(channel.buffer + channel.incoming)), old(chunks))
      decreases |channel.buffer + channel.incoming|
    {
      hide FindText, Unsigned, Excess, MeaningOf, ChunkThen, Needed, IndexOf, AfterLine;
      ghost var text := channel.buffer + channel.incoming;
      MeaningWithoutLength(text);
      var read, line, bytesTransferred := TakeSizeLine();
      if read.Failed? {
        return Interrupted;
      }
      if read.Eof? {
        return EndOfStream;
      }
      if line == "" {
        return Undefined;
      }
      var parsed := Unsigned(line[..|line| - 1], 16);
      assert line[..|line| - 1] == text[..IndexOf(text, '\n') - 1];
      if parsed.None? {
        return ProtocolError;
      }
      MeaningOfChunk(text);
      outcome := ReadAnnounced(parsed.value, bytesTransferred);
    }

    /** The announced chunk, once enough bytes are there. */
    method ReadAnnounced(length: nat, bytesTransferred: nat) returns (outcome: Outcome)
      requires channel.good && !channel.failed && bytesTransferred <= |channel.buffer|
      modifies this, channel
      ensures var rest := old(channel.buffer + channel.incoming);
              if channel.failed then outcome == Interrupted
              else if |rest| < bytesTransferred + Needed(length) then outcome == EndOfStream
              else if length > MAX_ARRAY then outcome == OutOfMemory
              else |rest| >= length + 2 && Fits(outcome, ChunkThen(length, rest), old(chunks))
      decreases |channel.buffer + channel.incoming|, 1
    {
      hide Needed, ChunkThen, Fits;
      var read := Fill(length, bytesTransferred);
      if read.Failed? {
        return Interrupted;
      }
      if read.Eof? {
        return EndOfStream;
      }
      outcome := ReadChunk(length);
    }

    /** Takes the missing bytes off the wire and not one more. */
    method Fill(length: nat, bytesTransferred: nat) returns (read: ReadResult)
      requires !channel.failed && bytesTransferred <= |channel.buffer|
      modifies channel`buffer, channel`incoming, channel`failed
      ensures channel.buffer + channel.incoming == old(channel.buffer + channel.incoming)
      ensures channel.failed == read.Failed?
      ensures var wanted := bytesTransferred + Needed(length);
              && (read.Eof? ==> |old(channel.buffer + channel.incoming)| < wanted)
              && (read.Transferred? ==>
                  |channel.buffer| == if old(|channel.buffer|) >= wanted then old(|channel.buffer|) else wanted)
    {
      hide Needed;
      var additional := |channel.buffer| - bytesTransferred;
      read := Transferred(0);
      if Needed(length) > additional {
        read := channel.ReadExactly(Needed(length) - additional);
      }
    }

    /** read_chunked_transfer_encoded_chunk: moves one chunk over and goes on, or hands over after the empty chunk. */
    method ReadChunk(length: nat) returns (outcome: Outcome)
      requires channel.good && !channel.failed && (length <= MAX_ARRAY ==> length + 2 <= |channel.buffer|)
      modifies this, channel
      ensures channel.failed ==> outcome == Interrupted
      ensures length > MAX_ARRAY ==> outcome == OutOfMemory && !channel.failed
      ensures length <= MAX_ARRAY ==>
              Fits(outcome, ChunkThen(length, old(channel.buffer + channel.incoming)), old(chunks))
      decreases |channel.buffer + channel.incoming|, 0
    {
      hide MeaningOf;
      if length > MAX_ARRAY {
        return OutOfMemory;
      }
      ghost var text := channel.buffer + channel.incoming;
      if length > 0 {
        var buffer := channel.Read(length);
        chunks := chunks + buffer;
      }
      var cr := channel.Read(1);
      var lf := channel.Read(1);
      assert channel.buffer + channel.incoming == text[length + 2..];
      if length > 0 {
        outcome := ReadLine();
      } else {
        ghost var k := |channel.buffer|;
        assert channel.buffer == text[2..][..k] && channel.incoming == text[2..][k..];
        channel.Append(chunks);
        outcome := Delivered;
      }
    }
  }
}
