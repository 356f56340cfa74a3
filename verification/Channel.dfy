/** A socket together with the stream buffer it fills and the input stream that reads the buffer. */
module Channels {
  import opened Text

  /** The first line of a text without its newline, and what follows that newline. */
  function FirstLine(text: string): string
  {
    text[..IndexOf(text, '\n')]
  }

  function AfterLine(text: string): (rest: string)
    ensures text != "" ==> |rest| < |text|
  {
    var i := IndexOf(text, '\n');
    if i == |text| then "" else text[i + 1..]
  }

  lemma LineThenRest(line: string, rest: string)
    requires '\n' !in line
    ensures FirstLine(line + "\n" + rest) == line && AfterLine(line + "\n" + rest) == rest
  {
    var text := line + "\n" + rest;
    assert text[|line|] == '\n';
    IndexOfUnique(text, '\n', |line|);
    assert text[..|line|] == line && text[|line| + 1..] == rest;
  }

  /** A complete first line stays what it is when more text follows. */
  lemma FirstLinePrefix(text: string, more: string)
    requires IndexOf(text, '\n') < |text|
    ensures FirstLine(text + more) == FirstLine(text) && AfterLine(text + more) == AfterLine(text) + more
    ensures IndexOf(text + more, '\n') == IndexOf(text, '\n')
  {
    IndexOfUnique(text + more, '\n', IndexOf(text, '\n'));
  }

  /** How one asynchronous read ends. Failed: an error of the socket's choosing, or the scope lock was stopped. */
  datatype ReadResult = Transferred(count: nat) | Eof | Failed

  class Channel {
    /** Bytes received and not yet consumed. */
    var buffer: string
    /** Bytes the peer has sent or will send, not yet received. */
    var incoming: string
    /** False once an extraction has run into the end of the buffer. */
    var good: bool
    /** True once a read has reported an error other than the end of the stream. */
    var failed: bool

    constructor (buffer: string, incoming: string)
      ensures this.buffer == buffer && this.incoming == incoming && good && !failed
    {
      this.buffer, this.incoming, good, failed := buffer, incoming, true, false;
    }

    /** std::getline: leaves `line` alone when the stream has already failed. */
    method GetLine(line: string) returns (next: string)
      modifies this`buffer, this`good
      ensures !old(good) ==> next == line && buffer == old(buffer) && !good
      ensures old(good) ==> next == FirstLine(old(buffer)) && buffer == AfterLine(old(buffer))
      ensures old(good) ==> (good <==> '\n' in old(buffer))
    {
      if !good {
        return line;
      }
      var i := IndexOf(buffer, '\n');
      next := buffer[..i];
      if i == |buffer| {
        buffer, good := "", false;
      } else {
        buffer := buffer[i + 1..];
      }
    }

    /** istream::read of bytes that are all there. */
    method Read(count: nat) returns (bytes: string)
      requires count <= |buffer|
      modifies this`buffer
      ensures bytes == old(buffer)[..count] && buffer == old(buffer)[count..]
    {
      bytes, buffer := buffer[..count], buffer[count..];
    }

    /** Output through the same stream buffer goes behind everything already received. */
    method Append(bytes: string)
      modifies this`buffer
      ensures buffer == old(buffer) + bytes
    {
      buffer := buffer + bytes;
    }

    /** Some number of bytes arrives; which number is up to the network. */
    method Receive(least: nat)
      requires least <= |incoming|
      modifies this`buffer, this`incoming
      ensures exists k :: (
                && least <= k <= |old(incoming)|
                && buffer == old(buffer) + old(incoming)[..k]
                && incoming == old(incoming)[k..])
    {
      var k :| least <= k <= |incoming|;
      buffer, incoming := buffer + incoming[..k], incoming[k..];
    }

    /**
     * asio::async_read_until: completes once the buffer holds the delimiter, usually with more bytes
     * behind it; the count reported runs through the first delimiter.
     */
    method ReadUntil(delimiter: string) returns (result: ReadResult)
      requires delimiter != ""
      modifies this`buffer, this`incoming, this`failed
      ensures failed == (old(failed) || result.Failed?)
      ensures buffer + incoming == old(buffer + incoming) && old(buffer) <= buffer
      ensures result == Eof ==> FindText(buffer + incoming, delimiter).None?
      ensures result.Transferred? ==>
              && FindText(buffer, delimiter) == FindText(buffer + incoming, delimiter)
              && FindText(buffer, delimiter).Some?
              && result.count == FindText(buffer, delimiter).value + |delimiter|
    {
      var interrupted: bool := *;
      if interrupted {
        Receive(0);
        failed := true;
        return Failed;
      }
      var found := FindText(buffer, delimiter);
      while found.None? && incoming != ""
        invariant buffer + incoming == old(buffer + incoming) && old(buffer) <= buffer
        invariant found == FindText(buffer, delimiter) && failed == old(failed)
        decreases |incoming|
      {
        Receive(1);
        found := FindText(buffer, delimiter);
      }
      if found.None? {
        assert buffer + incoming == buffer;
        return Eof;
      }
      FindTextPrefix(buffer, incoming, delimiter);
      return Transferred(found.value + |delimiter|);
    }

    /** asio::async_read without a condition: only an error ends it, at best the end of the stream. */
    method ReadToEnd() returns (result: ReadResult)
      modifies this`buffer, this`incoming, this`failed
      ensures failed == (old(failed) || result.Failed?)
      ensures buffer + incoming == old(buffer + incoming)
      ensures result == Failed || (result == Eof && incoming == "")
    {
      var interrupted: bool := *;
      if interrupted {
        Receive(0);
        failed := true;
        return Failed;
      }
      Receive(|incoming|);
      return Eof;
    }

    /** asio::async_read with transfer_exactly: exactly so many further bytes are moved. */
    method ReadExactly(count: nat) returns (result: ReadResult)
      modifies this`buffer, this`incoming, this`failed
      ensures failed == (old(failed) || result.Failed?)
      ensures buffer + incoming == old(buffer + incoming) && old(buffer) <= buffer
      ensures result == Eof ==> |old(incoming)| < count
      ensures result.Transferred? ==> count <= |old(incoming)| && |buffer| == |old(buffer)| + count
    {
      var interrupted: bool := *;
      if interrupted {
        Receive(0);
        failed := true;
        return Failed;
      }
      if |incoming| < count {
        Receive(|incoming|);
        return Eof;
      }
      buffer, incoming := buffer + incoming[..count], incoming[count..];
      return Transferred(count);
    }
  }
}
