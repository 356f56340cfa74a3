# A verified model of the resource monitor's HTTP layer and monitoring pipeline

The repository is a resource monitor: a background thread samples CPU, memory and disk, fires triggers and predicates
on them, keeps averaged logs, and talks over a header-only HTTP client and server. This project models two clusters of
that code and proves properties of them for all inputs, all arrival schedules and all runs.

**HTTP messages and sessions** (`include/utility.hpp`, `include/server_http.hpp`, `include/client_http.hpp`)

- `Text`, `Numbers`: positions in text, splitting, case-insensitive lookup, the C number scanners (`strtol`, `stoul`, `stoull`).
- `Percent`, `QueryString`, `HttpHeader`, `Messages`: the hand-written parsers as index loops, each proved against a
  declarative reading of the same text, and the exact sets of values that survive printing and parsing.
- `Channels`: a socket with its stream buffer. Bytes arrive in pieces of any size, "read until" may over-read by any
  amount, and any read may fail. `failed` records that one did.
- `Chunked`, `ChunkedCoding`, `ChunkedBreaks`: the two mutually recursive chunk handlers, what a byte stream means to
  them, the encoding of section 4.1 of RFC 7230, and which streams the handlers do not survive.
- `ServerRead`, `RequestRoundTrip`, `ClientRead`, `ResponseRoundTrip`, `ClientRoundTrip`: whole requests and responses
  from one side to the other, and exactly which responses the client is sure to recover.
- `ScopeRunner`: the compare-exchange lock, step by step, as a refinement of an atomic gate.
- `ClientHandlers`, `ClientSessions`, `ClientReuse`: the client's handlers, each decided by the bytes that have arrived,
  the connection pool they share, as a state machine over all interleavings, and what a reused connection brings along.

**Monitoring** (`src/library_src/SamplingManager.cpp`, `src/library_src/Predicate*.cpp`, `include/PredicateEngine.hpp`,
`flex/configparser.l`)

- `Triggers`, `Predicates`, `PredicateEngines`, `Monitor`: from polls over trigger counters and the trigger index to
  predicate callbacks, end to end.
- `Averaging`, `SampleLogs`: the averaging loop over the reals and how the logs tile the history of polls.
- `ConfigActions`: the lexer's actions over matched rules, with the start-condition stack.

Each loop or handler is a method whose contract equates its result or its new state with a function of the old one;
the lemmas then say what the source promises about that function. A multimap is a sequence of its entries in the order
the container happens to list them; `find` may return any of several values filed under one name.

## Where the code departs from its documentation or from what one expects

The model follows the code; the lemmas named here state each point exactly.

- `Percent::encode` leaves `%` alone. A value is read back exactly when it has no `%` or fewer than three encoded
  characters start at its first one (`Percent.RoundTripIff`); `%ab` comes back as one character (`Percent.PercentLost`).
  Query names may contain `=`, since segments are split at the last one (`QueryString.CreateParseIff`).
- The request target is split at its last `?`; section 3.4 of RFC 3986 splits at the first. The two agree exactly on
  targets with at most one `?` (`Messages.TargetSplitIff`); `/a?b?c` is one on which they differ
  (`Messages.TwoQuestionMarks`).
- `HttpHeader::parse` never returns on a text whose every line, the one behind the last newline included, has a `:`
  (`HttpHeader.HaltsIff`), for instance on `a:b` (`HttpHeader.OneLineNeverHalts`).
- The chunk reader takes a size line up to a bare newline but counts its bytes up to the CRLF. The count is right
  exactly when the first newline belongs to a CRLF (`ChunkedCoding.ExcessIff`); otherwise it waits for as many bytes too
  many as there are through the next CRLF (`ChunkedCoding.BareNewlineOverdemands`), and never ends a body whose last
  size line is written so (`ChunkedCoding.BareLastChunkStarves`).
- An empty size line makes `pop_back` undefined (`ChunkedBreaks.EmptyLineBreaksIff`). A size above 2^63-1 ends in an
  allocation exception, but only if all the bytes the reader waits for are sent, their count taken in 64-bit arithmetic
  (`ChunkedBreaks.OversizedBreaksIff`). On streams up to 2^63-1 bytes long these are just the sizes 2^64-2 and 2^64-1,
  for which the count wraps around; on other such sizes the reader waits for the end of the stream and reports it as an
  error (`ChunkedBreaks.OnlyWrappingSizes`). The size `-1` is one that breaks (`ChunkedBreaks.MinusOneIsTooLong`).
- In the client a length that is no number leaves its handler as an exception as well. The streams that go without a
  callback are exactly those with such a length and those whose chunks break the reader in one of the two ways above
  (`ClientHandlers.BreaksIff`, `ClientHandlers.AnswerableIff`).
- Chunk data is appended behind whatever was read beyond the last chunk, so pipelined bytes come first
  (`RequestRoundTrip.ServerRecoversChunkedRequest`, `ClientRoundTrip.ClientRecoversChunkedResponse`).
- The client looks for a field named `Session`, not `Connection`, to decide whether to read until the peer closes. A
  response that only the closing connection delimits is handed over as far as it has arrived: any part of the content may
  be all the caller gets (`ClientRoundTrip.CloseDelimitedEnds`, `ClientRoundTrip.FirstPartIsHandedOver`,
  `ClientRoundTrip.TruncatedPage`). Which responses are sure to be recovered is stated as an equivalence
  (`ClientRoundTrip.RecoveryIff`).
- The server takes any spelling of `chunked` for the transfer coding and then adds no length, but the client takes only
  the lower-case one, so it is not sure of the others (`ClientRoundTrip.SpellingOfChunked`,
  `ClientRoundTrip.MisspeltPage`).
- The reconnect branch keeps the stream buffer: the response on the new connection is recovered if and only if the failed
  connection had delivered nothing (`ClientRoundTrip.ReconnectRecoversIff`).
- A connection is pooled again although its session may have left bytes on the wire. The response to the next request on
  it is read back if and only if nothing was left (`ClientReuse.ReuseRecoversIff`); a page that only the closing
  connection delimits leaves whatever has not arrived in time (`ClientReuse.LateContentSpoilsTheNextResponse`).
- With a duration of at least 1 the counter is reset on firing, so the deactivation callback never runs
  (`Triggers.DeactivationIff`).
- The "mean" divides on every turn; it is the arithmetic mean of n samples only for n up to 2
  (`Averaging.ArithmeticMeanIff`), and from three samples on it is at most the mean, and equal to it exactly when all
  samples but the oldest are 0 (`Averaging.UnderreportsIff`).
- `Predicate_1or2and3` falls silent for good once all three operands have been active (`Predicates.SilentForGood`),
  although the comment on the engine says a predicate calls back whenever all operands are satisfied; and since
  `deactivate` does not refresh `lastSatisfied`, a renewed satisfaction can be missed (`Predicates.MissedAfterDeactivation`).

## Model

| member | source | states |
|---|---|---|
| Numbers.Unsigned | include/server_http.hpp:471-479 | a scanned length is below 2^64; anything without digits or above that is the exception |
| Numbers.UnsignedOfDigits | include/server_http.hpp:536-545 | digits followed by a non-digit are read as exactly their value |
| Percent.Encode | include/utility.hpp:45-65 | the loop maps every character to its coding, in order |
| Percent.Decode | include/utility.hpp:68-87 | the index loop decodes the text from left to right, each %XX consumed once and a cut-off one left alone |
| Percent.EncodedHasNoSeparators | include/utility.hpp:45-65 | an encoded value holds neither & nor = |
| Percent.HexPair | include/utility.hpp:58-77 | the two hex digits written for a reserved character are read back by strtol as that character |
| Percent.PairIsNotPercent | include/utility.hpp:74-79 | no two characters the encoder can leave behind a raw % decode to % |
| Percent.LossIsAtFirstPercent | include/utility.hpp:45-87 | a value that does not survive agrees with the original up to its first % and differs there |
| Percent.PercentLost | include/utility.hpp:45-87 | %ab is one that does not survive |
| Percent.RoundTripIff | include/utility.hpp:45-87 | decode(encode(s)) == s iff s has no % or the coding from its first % on is shorter than three characters |
| Percent.RoundTripsIff | include/utility.hpp:45-87 | that set read off the value: nothing follows the first %, or one character that is not written as %XX |
| QueryString.Parse | include/utility.hpp:108-150 | for every input the single pass yields: split at &, split each segment at its last =, drop empty names, decode values |
| QueryString.Create | include/utility.hpp:94-105 | the printed text is name=coded-value joined by & |
| QueryString.CreateParseIff | include/utility.hpp:94-150 | parse(create(fields)) is the same bag iff every name is nonempty without & and every value is in the percent round-trip set |
| QueryString.CreateParseInOrder | include/utility.hpp:94-150 | on such fields the order is kept too |
| QueryString.NoLossInBag | include/utility.hpp:94-150 | values that change cannot make up for each other: if the bag is kept, every value survives |
| HttpHeader.ReadLine | include/utility.hpp:161-170 | name before the first colon, value without one leading blank and without its last character |
| HttpHeader.Parse | include/utility.hpp:156-175 | fields and rest of the text are those up to the first line without a colon |
| HttpHeader.HaltsIff | include/utility.hpp:156-175 | the loop ends iff some line has no colon, in particular whenever the text ends in a newline |
| HttpHeader.NeverHalts | include/utility.hpp:161-173 | otherwise no number of iterations ends it: getline leaves the line unchanged after the end |
| HttpHeader.OneLineNeverHalts | include/utility.hpp:161-173 | the text a:b is one on which it does not end |
| HttpHeader.HeaderPrefix | include/utility.hpp:156-175 | bytes behind the stopping line change neither the fields nor what is consumed |
| HttpHeader.HeaderReadBack | include/utility.hpp:156-175 | printed fields and a blank line are read back in order and nothing beyond is consumed |
| HttpHeader.HeaderRoundTripIff | include/utility.hpp:156-175 | the bag of fields is read back iff no name holds : or newline and no value holds a newline |
| Messages.RequestLineIff | include/utility.hpp:258-299 | a line is accepted with these parts iff it is method, target and HTTP/ rest joined by single blanks, the first two blank-free |
| Messages.Request.Parse | include/utility.hpp:253-301 | accepts exactly those lines; then method, path, query, version and header are the parts, and the buffer is left behind the header |
| Messages.Request.ParseLine | include/utility.hpp:258-299 | the same for the request line alone, with the scan's positions turned into the parts |
| Messages.Request.ParseVersion | include/utility.hpp:283-293 | succeeds iff the text behind the target starts with HTTP/, and keeps the version otherwise |
| Messages.ScanTarget | include/utility.hpp:263-272 | the scan finds the first blank behind the method and the last ? before it |
| Messages.TargetSplitIff | include/utility.hpp:265-281 | path and query are those of section 3.4 of RFC 3986 iff the target has at most one ? |
| Messages.TwoQuestionMarks | include/utility.hpp:265-281 | a target on which they differ |
| Messages.Response.Parse | include/utility.hpp:307-329 | fails iff the line is too short or has no blank with text behind it; else version, status and header are read and the body is left |
| Messages.Response.ParseLine | include/utility.hpp:311-328 | version from position 5 to the first blank, with the wrapped count when the blank is earlier, and status without its last character |
| Channels.Channel.GetLine | include/utility.hpp:159-172 | takes the line and its newline; does nothing once the stream has failed |
| Channels.Channel.ReadUntil | include/server_http.hpp:440-460 | the stream is conserved under any over-read; the count runs through its first delimiter; end of stream only without one |
| Channels.Channel.ReadExactly | include/server_http.hpp:482-500 | the stream is conserved and exactly so many bytes are moved; end of stream only when fewer remain |
| Channels.Channel.ReadToEnd | include/client_http.hpp:511-525 | ends with everything received, or with an error |
| Chunked.Reader.TakeSizeLine | include/server_http.hpp:519-535 | the line is the first one of the whole stream and the remaining count is the excess, which is buffered |
| Chunked.Reader.ReadLine | include/server_http.hpp:517-577 | for every fragmentation the outcome, the buffer and the collected data are the meaning of the remaining stream |
| Chunked.Reader.ReadAnnounced | include/server_http.hpp:547-572 | end of stream iff the stream is shorter than the announced chunk; else the chunk and all that follows it are read |
| Chunked.Reader.Fill | include/server_http.hpp:547-551 | takes exactly the missing bytes of the announced chunk off the wire, in 64-bit arithmetic, and none when they are buffered |
| Chunked.Reader.ReadChunk | include/server_http.hpp:579-608 | with 2 + length bytes buffered one chunk moves over; the empty chunk hands over the data behind the leftover |
| ChunkedCoding.SizeLineRead | include/server_http.hpp:532-547 | a well-formed size line, extension included, is consumed entirely: the remaining count is 0 and the length is right |
| ChunkedCoding.BodyReadBack | include/server_http.hpp:517-608 | every well-formed chunked body means its concatenated data and leaves exactly what follows it |
| ChunkedCoding.DemandsExactlyTheBody | include/server_http.hpp:547-572 | every proper prefix of a well-formed body leaves the reader waiting, so it needs the message and nothing more |
| ChunkedCoding.MoreBytesChangeNothing | include/server_http.hpp:517-608 | once a stream means something, bytes behind it change only what is left over |
| ChunkedCoding.ExcessIff | include/server_http.hpp:533-535 | the remaining count is 0 iff the first newline is the one of a CRLF |
| ChunkedCoding.BareNewlineOverdemands | include/server_http.hpp:533-551 | for every size line ended by a bare newline: the reader starves iff the stream ends within the bytes through the next CRLF of the announced chunk; else the chunk is read |
| ChunkedCoding.BareExcess | include/server_http.hpp:533-535 | the remaining count is then the distance from the newline through the next CRLF |
| ChunkedCoding.BareLastChunkStarves | include/server_http.hpp:533-551 | behind any well-formed chunks a last chunk with such a size line never ends a body that stops there |
| ChunkedBreaks.EmptyLineBreaksIff | include/server_http.hpp:533-536 | the reader takes the last character of an empty line iff complete chunks lead to a size line that starts with its newline |
| ChunkedBreaks.OversizedBreaksIff | include/server_http.hpp:537-582 | the allocation fails iff complete chunks lead to a size no array holds and all the bytes then waited for, counted in 64-bit arithmetic, follow |
| ChunkedBreaks.OnlyWrappingSizes | include/server_http.hpp:549-551 | on streams up to 2^63-1 bytes only the sizes 2^64-2 and 2^64-1 break; with any other oversized chunk the stream ends first |
| ChunkedBreaks.MinusOneIsTooLong | include/server_http.hpp:537-582 | the size -1 followed by one byte breaks the reader |
| ChunkedBreaks.EmptyLineFirst | include/server_http.hpp:533-536 | a stream that starts with an empty size line |
| ServerRead.BlankLineStops | include/server_http.hpp:440-462 | a text holding CRLFCRLF always stops the header loop inside the buffer |
| ServerRead.HeadComplete | include/server_http.hpp:455-462 | once the blank line has arrived, later bytes change neither request line, nor fields, nor what is consumed |
| ServerRead.Find | include/server_http.hpp:469-505 | some value filed under the name without regard to case, or none iff there is none |
| ServerRead.Session.Read | include/server_http.hpp:438-515 | for every fragmentation the request and the outcome are a function of the whole stream; interrupted iff a read failed |
| ServerRead.Session.ReadBody | include/server_http.hpp:468-511 | a length wins over chunks; with neither the body is what came along |
| ServerRead.Session.ReadContent | include/server_http.hpp:471-504 | exactly the bytes missing of the announced length are taken off the wire; a length that is no number is a protocol error |
| RequestRoundTrip.WriteRequest | include/client_http.hpp:253-263 | what the client prints: request line, Host, fields, a length exactly when it must add one, blank line, content |
| RequestRoundTrip.WriteFields | include/client_http.hpp:428-429 | the fields are printed in the container's order |
| RequestRoundTrip.HeadEndFound | include/client_http.hpp:426-429 | the first CRLFCRLF of a printed message is the one behind its fields |
| RequestRoundTrip.SentTextParses | include/client_http.hpp:417-431 | the printed head is read back line by line and its end is found where it is |
| RequestRoundTrip.RecoveryIff | include/server_http.hpp:468-511 | the server is sure to hand over exactly the written content iff the fields delimit it: all lengths are its length, or there is neither length nor chunked coding and it is empty |
| RequestRoundTrip.SentDelimitsIff | include/client_http.hpp:254-261 | the client's fields delimit the content iff the caller's lengths are right, or without any the client adds one, or there is no content and no chunked coding |
| RequestRoundTrip.ServerRecoversRequest | include/client_http.hpp:253-263 | under every fragmentation without a failed read the server recovers method, path, query, version 1.1 and the sent fields, and exactly the content whenever the fields delimit it |
| RequestRoundTrip.ServerRecoversChunkedRequest | include/client_http.hpp:253-263 | the same for content the caller sends in chunks: the server hands over the data behind any over-read bytes |
| RequestRoundTrip.Exchange | include/client_http.hpp:253-263 | from the client's call to the server's application in one statement: whatever has arrived when reading starts, the head is recovered unless a read fails, its target as the standard has it iff it has at most one ?, and the content whenever the fields delimit it |
| ResponseRoundTrip.Response.WriteHeader | include/server_http.hpp:70-85 | the fields, and Content-Length exactly when no field delimits the content and the connection stays open |
| ResponseRoundTrip.Response.Write | include/server_http.hpp:118-123 | status line, header and content are appended to the stream buffer |
| ResponseRoundTrip.ResponseReadBack | include/server_http.hpp:70-123 | parsing undoes writing: version, status, and the bag of fields iff they are free of separators; the content is untouched |
| ResponseRoundTrip.StatusLineRead | include/utility.hpp:311-322 | version 1.1 and the whole status text come back from the written status line |
| ClientRead.Session.Read | include/client_http.hpp:461-552 | for every fragmentation the response and the outcome are a function of the whole stream; interrupted iff a read failed |
| ClientRead.Session.ReadBody | include/client_http.hpp:481-528 | length, chunks, reading to the end, or no body, in that order, with the exact conditions and exactly what stays on the wire |
| ClientRead.Session.ReadContent | include/client_http.hpp:482-504 | exactly the missing bytes of the announced length are taken; a length that is no number is an exception |
| ClientRoundTrip.RecoveryIff | include/client_http.hpp:481-528 | the client is sure to hand over exactly the written content iff the fields delimit it: all lengths are its length, or there is neither length nor chunked coding and it is empty or every Session field says close |
| ClientRoundTrip.AddedLengthDelimits | include/server_http.hpp:81-82 | the length the server adds delimits the content |
| ClientRoundTrip.CloseDelimitedEnds | include/client_http.hpp:509-528 | without length, coding and Session field exactly the prefixes of the content can be what is handed over |
| ClientRoundTrip.FirstPartIsHandedOver | include/client_http.hpp:461-528 | when the head arrives with any first part of such a content, the handler runs the callback with that part |
| ClientRoundTrip.TruncatedPage | include/client_http.hpp:509-528 | a page of five bytes, closed by the server, of which nothing is handed over |
| ClientRoundTrip.SpellingOfChunked | include/server_http.hpp:76-84 | for a transfer coding that is chunked but for the case of its letters the server adds no length, and the client is sure of empty content only |
| ClientRoundTrip.MisspeltPage | include/server_http.hpp:76-84 | a page of five bytes under Chunked of which nothing is handed over |
| ClientRoundTrip.ClientRecoversResponse | include/server_http.hpp:70-123 | a response with a length, added or the caller's own, is recovered under every fragmentation, content exactly |
| ClientRoundTrip.ClientRecoversDelimited | include/server_http.hpp:70-123 | so is every response whose fields delimit its content, when nothing follows it |
| ClientRoundTrip.ClientRecoversChunkedResponse | include/client_http.hpp:505-508 | a response in chunks is recovered, its data standing behind any over-read bytes |
| ClientRoundTrip.Exchange | include/server_http.hpp:118-123 | from the server's call to the client's callback in one statement: the head always comes through, the content whenever it is delimited |
| ClientRoundTrip.ReconnectRecoversIff | include/client_http.hpp:530-541 | after a reconnect status, fields and content are read back iff the failed connection had delivered nothing |
| ClientHandlers.BreaksIff | include/client_http.hpp:476-612 | a stream goes without a callback iff it announces a length that is not numeric, or its chunks lead to an empty size line, or to an oversized one with all the bytes waited for |
| ClientHandlers.AnswerableIff | include/client_http.hpp:481-612 | the same read off the fields and size lines, for every value find may land on |
| ClientHandlers.ReadHasFate | include/client_http.hpp:461-633 | the handlers run one after the other on a channel come to the outcome the machine assigns to the stream |
| ClientHandlers.AfterKeepsTrack | include/client_http.hpp:461-633 | every handler keeps what is still to be read in agreement with the outcome of the whole stream |
| ClientHandlers.HandlersUseUp | include/client_http.hpp:461-633 | every handler lowers the number that can still run, from the bytes its size line or chunk used up |
| ScopeRunner.StepRefines | include/utility.hpp:354-396 | every atomic step keeps: count is -1 or the number of locks; it is one step of the gate or none, and -1 stays |
| ScopeRunner.RunsRefine | include/utility.hpp:354-396 | every interleaving of any number of threads with spurious failures is a legal history of the gate |
| ScopeRunner.StopIsFinal | include/utility.hpp:386-395 | once a stop has returned no lock exists and none is ever handed out again |
| ScopeRunner.AloneAcquires | include/utility.hpp:375-384 | undisturbed, a thread gets a lock iff the gate is open, and is refused iff it is closed |
| ScopeRunner.AloneStops | include/utility.hpp:387-395 | undisturbed, a stop returns at once iff no lock is held, and otherwise changes nothing yet |
| ScopeRunner.LocksAreCounted | include/utility.hpp:366-384 | locks existing are those handed out minus those destroyed |
| ScopeRunner.Runner.CompareExchangeWeak | include/utility.hpp:375-395 | exchanges iff the value is the expected one and the failure is not spurious; else hands back the value found |
| ScopeRunner.Runner.BeginContinue | include/utility.hpp:375-381 | the first look at the counter is one step of the machine |
| ScopeRunner.Runner.TryAcquire | include/utility.hpp:377-383 | one turn of the acquiring loop is one step of the machine |
| ScopeRunner.Runner.ReleaseLock | include/utility.hpp:367-369 | destroying a lock, in whichever thread it was moved to, is one step of the machine |
| ScopeRunner.Runner.EnterStop | include/utility.hpp:387-389 | beginning to stop is one step of the machine |
| ScopeRunner.Runner.TryStop | include/utility.hpp:389-394 | one turn of the stopping loop is one step of the machine |
| ClientSessions.StepKeepsInv | include/client_http.hpp:227-247 | every step keeps: live sessions own distinct connections in use, pooled connections in use are owned, at most one is idle, none pooled comes from a failed session, callbacks match, one reconnect, every session stands where its bytes put it |
| ClientSessions.RunsKeepInv | include/client_http.hpp:222-684 | the same over every interleaving of requests, handlers, reconnects and stops |
| ClientSessions.CallbackOnce | include/client_http.hpp:447-633 | in every run a callback runs at most once; for a session with nothing pending and no stop it has run exactly once iff an operation failed or its stream announces no length that is not numeric and its chunks lead to no empty and no oversized size line of that kind; its error says whether the content came through |
| ClientSessions.HandlersDescend | include/client_http.hpp:461-633 | every handler leaves fewer handlers to come on its connection, counted from the bytes left, or is the one reconnect; no other session is touched |
| ClientSessions.HandlersBounded | include/client_http.hpp:447-684 | in every run a session reconnects at most once and runs at most 5 handlers per connection plus one per byte, so none goes on for ever |
| ClientReuse.LeftOnTheWire | include/client_http.hpp:227-247 | a connection given back holds what its session has not read |
| ClientReuse.IdleWireKept | include/client_http.hpp:227-247 | as long as it is idle that does not change |
| ClientReuse.ReuseRecoversIff | include/client_http.hpp:389-400 | the next response on a live pooled connection is read back iff nothing was left on the wire |
| ClientReuse.FirstPartFinishes | include/client_http.hpp:509-528 | a close-delimited page of which only a first part has arrived runs its callback without an error and leaves the rest |
| ClientReuse.LateContentSpoilsTheNextResponse | include/client_http.hpp:227-247 | after such a page the response to the next request on its connection is not read back |
| ClientSessions.ClientBase.GetConnection | include/client_http.hpp:380-412 | an idle pooled connection if there is one, else the new one; it is in use and may reconnect |
| ClientSessions.ClientBase.GiveBack | include/client_http.hpp:228-247 | the erase loop keeps every connection in use and one idle one, never the failed one |
| ClientSessions.ClientBase.Request | include/client_http.hpp:222-266 | a request is one step of the machine |
| ClientSessions.ClientBase.Complete | include/client_http.hpp:447-684 | a handler, decided by the bytes that have arrived, is one step of the machine, the reconnect branch included |
| ClientSessions.ClientBase.RunCallback | include/client_http.hpp:227-251 | the callback gives the connection back and records itself |
| ClientSessions.ClientBase.Stop | include/client_http.hpp:344-351 | the pool is emptied |
| ClientSessions.ClientBase.StopHandlers | include/client_http.hpp:353-356 | no handler that starts later goes on |
| Triggers.FiringLaw | src/library_src/SamplingManager.cpp:129-170 | for d >= 1 and every history: counter is current run mod d, fires at positive multiples, fires in all are the sum of floor(run/d), no deactivation |
| Triggers.StretchesAreTheHistory | src/library_src/SamplingManager.cpp:129-170 | the runs the law speaks of rebuild the history |
| Triggers.DeactivationIff | src/library_src/SamplingManager.cpp:141-145 | the deactivation callback runs iff the duration is below 1 and the poll does not exceed |
| Triggers.FiringBelowOne | src/library_src/SamplingManager.cpp:164-168 | duration 0 fires on every poll that does not exceed, a negative one never |
| Predicates.HiddenBit | src/library_src/PredicateTypes.cpp:17-26 | lastSatisfied is the formula's value right after the latest activation |
| Predicates.StateIsHistory | src/library_src/Predicate.cpp:8-20 | an operand's flag says whether the latest event about it was an activation |
| Predicates.CallbackLaw | src/library_src/Predicate.cpp:8-16 | over every history, the callback runs iff the formula holds now, unless all three hold and it held at the previous activation |
| Predicates.SilentForGood | src/library_src/PredicateTypes.cpp:19-23 | without deactivations no callback follows the activation after which all three hold |
| Predicates.MissedAfterDeactivation | src/library_src/Predicate.cpp:18-20 | a concrete history in which a renewed satisfaction is not reported |
| Predicates.Predicate.IsPredicateSatisfied | src/library_src/PredicateTypes.cpp:17-71 | the three checks and the one write among them |
| Predicates.Predicate.Activate | src/library_src/Predicate.cpp:8-16 | the object follows its history of events |
| Predicates.Predicate.Deactivate | src/library_src/Predicate.cpp:18-20 | the same for a deactivation |
| Predicates.Predicate.Tell | include/PredicateEngine.hpp:44-49 | an object that is gone hears nothing |
| PredicateEngines.ScanCount | include/PredicateEngine.hpp:27-61 | the plain scan lists a predicate once per registration and operand equal to the trigger |
| PredicateEngines.DeliverAll | include/PredicateEngine.hpp:43-61 | every predicate hears the event as often as it is listed |
| PredicateEngines.PredicateEngine.AddPredicate | include/PredicateEngine.hpp:27-40 | the index keeps agreeing with a plain scan of the registrations |
| PredicateEngines.PredicateEngine.Deliver | include/PredicateEngine.hpp:43-61 | an event reaches each live predicate once per registration and matching operand, and no other |
| Monitor.SamplingManager.ProcessCounter | src/library_src/SamplingManager.cpp:135-169 | counter and callbacks of one poll, in order |
| Monitor.SamplingManager.ProcessTrigger | src/library_src/SamplingManager.cpp:135-169 | the log of callbacks keeps agreeing with the polls of every trigger |
| Monitor.SamplingManager.ProcessTriggers | src/library_src/SamplingManager.cpp:129-170 | one poll advances every trigger once, in any order |
| Monitor.NeverDeactivated | src/library_src/SamplingManager.cpp:129-170 | with d >= 1 the log holds no deactivation and as many activations as the sum of floors |
| Monitor.OneElementEndToEnd | src/library_src/SamplingManager.cpp:135-175 | a one-element predicate registered before sampling has called back sum of floor(run/d) times its registrations |
| Monitor.OneAndTwoEndToEnd | src/library_src/PredicateTypes.cpp:34-49 | a two-element predicate calls back on exactly the fires after which both triggers have fired |
| Monitor.OrAndEndToEnd | src/library_src/PredicateTypes.cpp:4-26 | an or-and predicate calls back on exactly the fires after which its formula is fulfilled, except those that leave all three fired when it had been fulfilled before; after all three have fired its count stays |
| Monitor.NothingReportedAgain | src/library_src/PredicateTypes.cpp:19-23 | once all three have fired no continuation of the log is reported |
| Averaging.ClosedForm | src/library_src/SamplingManager.cpp:218-229 | s0/n^(m-1) plus the sum of sj/n^(m-j), newest sample first |
| Averaging.Bounds | src/library_src/SamplingManager.cpp:218-229 | samples in [0, M] give a result in [0, 2M/n] |
| Averaging.UnderreportsIff | src/library_src/SamplingManager.cpp:218-229 | from three samples on, none negative, the result is at most the mean, and equal to it iff every sample but the oldest is 0 |
| Averaging.ConstantIsUnderreported | src/library_src/SamplingManager.cpp:218-229 | a constant positive load is reported strictly below its value from three samples on |
| Averaging.ArithmeticMeanIff | src/library_src/SamplingManager.cpp:218-229 | the loop is the arithmetic mean for all samples iff there are at most two |
| SampleLogs.SamplesMean | src/library_src/SamplingManager.cpp:218-229 | the loop takes the newest samples it is asked for, as far as the buffer goes |
| SampleLogs.PushRetains | src/library_src/SamplingManager.cpp:95-108 | the circular buffer holds the last capacity elements of all that was pushed |
| SampleLogs.EntriesNext | src/library_src/SamplingManager.cpp:177-189 | one poll adds the mean of the newest window iff it completes one |
| SampleLogs.MeanOfRetained | src/library_src/SamplingManager.cpp:218-229 | the sample buffer never cuts a window short |
| SampleLogs.LogContents | src/library_src/SamplingManager.cpp:177-189 | after n polls min(capacity, floor(n/r)) entries, the k-th from exactly its own r samples |
| SampleLogs.MaxResolution | src/library_src/SamplingManager.cpp:38-54 | exactly the largest of 1 and the resolutions listed for the resource |
| SampleLogs.LoggingBuffers | src/library_src/SamplingManager.cpp:56-81 | one log per listed resolution, with the capacity of the duration listed last; an exception iff some capacity comes out negative |
| SampleLogs.LogsHoldTheHistory | src/library_src/SamplingManager.cpp:177-229 | of any sampler after any polls: number, capacity and closed form of every entry of every log |
| SampleLogs.ResourceSampler.constructor | src/library_src/SamplingManager.cpp:38-81 | the buffers fit the empty history |
| SampleLogs.ResourceSampler.Poll | src/library_src/SamplingManager.cpp:90-127 | sample buffer and logs keep tiling the history |
| SampleLogs.ResourceSampler.UpdateLog | src/library_src/SamplingManager.cpp:177-189 | one log follows its entries and its timer, and no other log changes |
| ConfigActions.ConfigurationRead | flex/configparser.l:112-266 | any list of well-formed directives yields the concatenated cross products and ends clean, never deeper than two conditions, never popping an empty stack |
| ConfigActions.DirectiveLeads | flex/configparser.l:112-266 | one directive: its products are appended, helper vectors are empty and the condition is the outermost |
| ConfigActions.TermsLead | flex/configparser.l:149-154 | a duration is the sum of count times unit |
| ConfigActions.DurationListLeads | flex/configparser.l:149-164 | a braced list is collected element by element, and leaves its condition |
| ConfigActions.ValueListLeads | flex/configparser.l:125-133 | the same for resource values |
| ConfigActions.Lexer.ProduceTriggersCrossproduct | flex/configparser.l:46-56 | appends all combinations, durations fastest, and empties the helper vectors |
| ConfigActions.Lexer.ProduceLogsCrossproduct | flex/configparser.l:58-68 | appends all combinations, resolutions fastest, and empties the helper vectors |
| ConfigActions.Lexer.TakeDuration | flex/configparser.l:204-206 | the sum goes to the vector of the condition and starts again |
| ConfigActions.Lexer.Finish | flex/configparser.l:157-163 | two conditions are popped, then the product is made |
| ConfigActions.Lexer.Keyword | flex/configparser.l:112-147 | the keyword actions are the steps of the lexer state |
| ConfigActions.Lexer.Element | flex/configparser.l:124-182 | the actions inside a condition are the steps of the lexer state |
| ConfigActions.Lexer.Lex | flex/configparser.l:112-267 | a whole configuration is a run of those steps |
| ConfigActions.Lexer.Configure | flex/configparser.l:46-266 | lexing any list of well-formed directives leaves exactly their concatenated cross products in the two lists |

## Left out

- Sockets, timers, the resolver, TLS, the SMTP client and the cryptographic helpers: replaced by a channel that delivers bytes in any pieces and may fail.
- Buffer limits: the branches taken when a stream buffer is full; the limits are taken as never reached.
- Proxy requests, connection upgrade, regex routing, chunk trailers, pipelined next requests, stream-valued content, and the semicolon-separated attributes of `include/utility.hpp`.
- Text longer than 2^64-2 characters: positions are compared with `npos` as in the source, so parsers ask for shorter texts.
- Bytes are Dafny characters; locale-dependent classification is that of the C locale.
- ClientSessions.ClientBase.Complete: what the callback is handed; `ClientRead` and `ClientRoundTrip` have the contents.
- ClientSessions.ClientBase.GiveBack: connection objects are numbered instead of shared pointers.
- ClientSessions.HandlersBounded: what a peer sends on one connection is finite; the source does not bound a peer that sends for ever either.
- ClientRoundTrip.RecoveryIff: content in chunks is decoded, so it is never handed over as written; `ClientRecoversChunkedResponse` has that case.
- RequestRoundTrip.RecoveryIff: the same on the server's side; `ServerRecoversChunkedRequest` has that case.
- ScopeRunner.StepRefines: the width of the counter, and that a waiting `stop` eventually returns.
- Predicates.Predicate.Activate: callbacks are counted, not run, so a callback that changes the engine is not modelled.
- Predicates.Predicate.Tell: a weak pointer is a flag that says whether the object is alive.
- Monitor.SamplingManager.ProcessTriggers: whether a state exceeds a trigger is any boolean function of the trigger per poll; the comparisons of the resource states are not modelled.
- Monitor.OneElementEndToEnd: predicates registered while sampling, which hear only the rest of the log.
- SampleLogs.ResourceSampler.constructor: a sampler whose buffers could not be built does not exist; `LoggingBuffers` has the exception.
- SampleLogs.ResourceSampler.Poll: one resource with one real number per sample; the three resources run the same code side by side, and floating-point rounding is not modelled.
- SampleLogs.LoggingBuffers: capacities that are positive but too large for the allocator.
- ConfigActions.Lexer.Lex: which rule matches the text at hand is given; also rules of a nested scope that stay active in the enclosing condition, which well-formed directives do not use.
- Overflow of `long` in counters and durations.
