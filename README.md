# Server-sent-events frame parsers of SignalR's socket layer

This project models the two drafts of `ServerSentEventsMessageParser` in the
socket layer of SignalR. Each one turns the bytes of a server-sent-events
stream into messages, one call at a time.

- The **typed parser** is in `Microsoft.AspNetCore.Sockets.Common`.
  - It reads a type line `data: T` (or `B`, `C`, `E`), then payload lines `data: <segment>`, then a blank line.
  - It returns `Completed` with a `Message` holding the payload and the type, or `Incomplete`.
  - On malformed input it throws a `FormatException`.
- The **untyped parser** is in `Microsoft.AspNetCore.Sockets.Client.Http`.
  - It reads payload lines and skips comment lines that start with `:`.
  - On the blank line it returns the segments joined by the platform newline.
  - It is stricter than the typed parser: every line other than a comment must end in CRLF, every non-blank one must start with `data: `, and a stray byte after a CR that starts the terminator is an error.

Both parsers are incremental. A caller hands `ParseMessage` the unconsumed rest of its buffer. The parser:

- returns a `consumed` cursor and an `examined` cursor;
- keeps its phase and the payload segments seen so far in two fields.

Those fields survive between calls. Only `Reset` clears them.

## Structure

| file | module | contents |
|---|---|---|
| `buffers.dfy` | `Buffers` | bytes and the byte constants, the search for LF (`Seek`), the one-byte peek (`Peek`), flattening of segments, and the two loops both parsers share: summing segment lengths and copying bytes into an array |
| `lines.dfy` | `Lines` | the payload line `data: <s>\r\n`, runs of payload lines, and where bytes sit in a buffer |
| `common_parser.dfy` | `SocketsCommon` | the typed parser. It holds the datatypes, `GetMessageType`, the payload segment of a line, the spec function `LineStep` (one turn of the loop) and `ParseFrom`/`Parse` (the whole loop), the copy loops, and the class with `Reset`, `ParseMessage` and `ReadLine` |
| `common_properties.dfy` | `SocketsCommonProperties` | what is proved of `Parse` for the typed parser: whole frames, the test inputs, the error cases, and the cursor, segment-list and message-type invariants |
| `client_parser.dfy` | `SocketsClient` | the untyped parser, with `IsMessageEnd`, `EnsureStartsWithDataPrefix`, the segment join, the spec functions and the class |
| `client_properties.dfy` | `SocketsClientProperties` | what is proved of `Parse` for the untyped parser |

### How the model is built

- **Buffers and cursors.** A `ReadableBuffer` is a `seq<byte>`, and a `ReadCursor` is an index into it.
- **The class.** Each parser is a class with the fields `state` and `data: seq<seq<byte>>`.
- **The methods.** Each `ParseMessage` is a `while` loop over `ReadLine`, one turn of the source loop per call, like the source's `while (!reader.End)` body. Both are proved against the functions:
  - `ParseMessage` ensures that its result, its cursors and the new fields equal `Parse(old(state), old(data), buffer)`;
  - `ReadLine` ensures that it does what `LineStep` says.
- **The properties.** All the properties are lemmas about `Parse`.
- **Exceptions.** A thrown exception is a `FormatException(reason)` result.
  - This includes the `ArgumentOutOfRangeException` that the typed parser's `Slice` raises on a one-byte line.
  - Fields assigned before the throw keep their new values, as in the source.
- **Payload assembly.** The typed parser's two `foreach` loops are `ConcatSegments` over a fresh array. It is proved equal to `Flatten`. The untyped parser's loops are `JoinSegments`, proved equal to `Join`.
- **The newline.** `Environment.NewLine` is the class constant `newLine`, of the non-empty type `NewLine`. The functions take it as a parameter.

### Behaviour a reader may not expect

- **Type line then blank line.** The typed parser returns `Incomplete` on `"data: T\r\n\r\n"`, not an empty message. The blank line is read as an empty payload segment. The peek after it finds the end of the buffer, so the phase stays at payload (`EmptyPayloadFrameIsIncomplete`).
- **Joining segments.** The typed parser concatenates segments verbatim (`FlattenTwo`). Only the untyped parser puts a newline between them (`JoinTwo`).
- **No reset on completion.** Neither parser resets itself after `Completed`. The phase stays at end-of-message and the segments stay in the list, so the next line completes again with the old segments (`CompletesAgainWithoutReset`, `CompletedKeepsState`). In the typed parser a later call also forgets the message type, because it is a local (`TypeOfEarlierCallIsLost`).
- **Bytes after a CR that starts the terminator.** Only the untyped parser checks them (client lines 40-45). While it waits for the end of a message and no LF is left, more than one byte is the error "Expected a \r\n frame ending" (`StrayByteIsFrameEndingError`); a lone CR is `Incomplete` (`ReturnAloneIsIncomplete`).
- **Bytes after a complete terminator.** The untyped parser neither examines nor consumes them in that call, so a later call gets them (`LeavesNextFrame`). After a `Reset` it reads them as the next frame. Without one, the next payload line completes the old segments again (`CompletesAgainWithoutReset`). The typed parser consumes them along with the message (`FrameCompletes`).
- **A frame split across two calls, in the typed parser.** Split a frame right after its last payload line. The first call is `Incomplete`: the peek after that line finds the end of the buffer, so the phase stays at payload (`TypeAndPayloadLinesAtEnd`). The second call gets `"\r\n"` and reads it as one more, empty, segment. It is `Incomplete` again and still in the payload phase (`BlankLineAloneInPayloadPhase`). So the frame never completes, although it completes when handed over in one call (`FrameSplitAfterPayloadNeverCompletes`).
- **A frame split across two calls, in the untyped parser.** Payload lines that end the buffer are consumed, and the parser waits in the payload phase with their segments (`PayloadLinesAtEnd`). The next call completes the frame with all the segments joined (`FrameAcrossTwoCalls`). A split after the CR of the blank line is covered by `ReturnAloneIsIncomplete`.

## Model

| member | source | states |
|---|---|---|
| Buffers.FindLF | src/Microsoft.AspNetCore.Sockets.Common/Internal/Formatters/ServerSentEventsMessageParser.cs:34-38 | `Seek` for LF finds an LF at or after the start with none before it, and reports "not there" exactly when no LF is left |
| Buffers.Peek | src/Microsoft.AspNetCore.Sockets.Common/Internal/Formatters/ServerSentEventsMessageParser.cs:64 | the peek yields the byte at the position, or -1 exactly at the end of the buffer |
| Buffers.FindLFAt | src/Microsoft.AspNetCore.Sockets.Common/Internal/Formatters/ServerSentEventsMessageParser.cs:34 | the search for LF finds the first LF at or after the line start |
| Buffers.FlattenLength | src/Microsoft.AspNetCore.Sockets.Common/Internal/Formatters/ServerSentEventsMessageParser.cs:80-94 | the concatenated payload is exactly as long as the sum of the segment lengths |
| Buffers.SumLengths | src/Microsoft.AspNetCore.Sockets.Common/Internal/Formatters/ServerSentEventsMessageParser.cs:81-85 | the sizing loop returns the sum of the segment lengths |
| Buffers.CopyTo | src/Microsoft.AspNetCore.Sockets.Common/Internal/Formatters/ServerSentEventsMessageParser.cs:92 | `CopyTo` writes the source bytes at the offset and keeps the bytes before and after them |
| SocketsCommon.GetMessageTypeSpec | src/Microsoft.AspNetCore.Sockets.Common/Internal/Formatters/ServerSentEventsMessageParser.cs:188-209 | a line of another length than 7 is a bad type line; a line of length 7 names a type exactly when its seventh byte is that type's character; any other seventh byte is reported as the unknown type |
| SocketsCommon.IndexOfSpec | src/Microsoft.AspNetCore.Sockets.Common/Internal/Formatters/ServerSentEventsMessageParser.cs:59 | `IndexOf` returns the first position of the byte, and -1 exactly when the byte does not occur |
| SocketsCommon.IndexOfAt | src/Microsoft.AspNetCore.Sockets.Common/Internal/Formatters/ServerSentEventsMessageParser.cs:59 | a byte that first occurs at position i is found at i |
| SocketsCommon.PayloadSegmentSpec | src/Microsoft.AspNetCore.Sockets.Common/Internal/Formatters/ServerSentEventsMessageParser.cs:59 | the segment is a suffix of the stripped line: the whole line when it has no space, otherwise the bytes after its first space |
| SocketsCommon.LineStep | src/Microsoft.AspNetCore.Sockets.Common/Internal/Formatters/ServerSentEventsMessageParser.cs:32-104 | a turn of the loop either goes on past a line ending in LF, keeping or extending the segment list and never leaving a later phase for the type phase, or stops; when it stops, `examined` is the buffer end and the fields are unchanged; a completed message is the flattened segments, with `consumed` at the buffer end; an `Incomplete` stop in a reachable state means no LF is left |
| SocketsCommon.ParseFromStep | src/Microsoft.AspNetCore.Sockets.Common/Internal/Formatters/ServerSentEventsMessageParser.cs:32-105 | the loop from a line start is the outcome of the stopping turn, or the loop from where the turn goes on |
| SocketsCommon.ConcatSegments | src/Microsoft.AspNetCore.Sockets.Common/Internal/Formatters/ServerSentEventsMessageParser.cs:80-94 | the sizing loop and the copy loop with its advancing marker produce the segments concatenated verbatim |
| SocketsCommon.FlattenPrefix | src/Microsoft.AspNetCore.Sockets.Common/Internal/Formatters/ServerSentEventsMessageParser.cs:89-94 | the marker never passes the end of the payload array |
| SocketsCommon.ServerSentEventsMessageParser.constructor | src/Microsoft.AspNetCore.Sockets.Common/Internal/Formatters/ServerSentEventsMessageParser.cs:18-19 | a new parser is in the type phase with no segments |
| SocketsCommon.ServerSentEventsMessageParser.Reset | src/Microsoft.AspNetCore.Sockets.Common/Internal/Formatters/ServerSentEventsMessageParser.cs:182-186 | the phase is back to the type phase and the segment list is empty |
| SocketsCommon.ServerSentEventsMessageParser.ParseMessage | src/Microsoft.AspNetCore.Sockets.Common/Internal/Formatters/ServerSentEventsMessageParser.cs:21-107 | the result, both cursors and the new fields are those of `Parse` on the old fields and the buffer |
| SocketsCommon.ServerSentEventsMessageParser.ReadLine | src/Microsoft.AspNetCore.Sockets.Common/Internal/Formatters/ServerSentEventsMessageParser.cs:34-104 | one turn of the loop body: it stops exactly when `LineStep` stops, with that outcome, or goes on where `LineStep` goes on, with its phase, segments and message type |
| SocketsCommonProperties.SegmentOfDataLine | src/Microsoft.AspNetCore.Sockets.Common/Internal/Formatters/ServerSentEventsMessageParser.cs:59 | the segment of the stripped payload line "data: s" is s |
| SocketsCommonProperties.DataLineStep | src/Microsoft.AspNetCore.Sockets.Common/Internal/Formatters/ServerSentEventsMessageParser.cs:56-69 | a payload line appends its segment; the phase becomes end-of-message exactly when the next byte is CR |
| SocketsCommonProperties.PayloadLineStepAt | src/Microsoft.AspNetCore.Sockets.Common/Internal/Formatters/ServerSentEventsMessageParser.cs:56-69 | any line of two or more bytes read in the payload phase appends the segment of its stripped bytes |
| SocketsCommonProperties.BlankPayloadLineStep | src/Microsoft.AspNetCore.Sockets.Common/Internal/Formatters/ServerSentEventsMessageParser.cs:56-69 | a blank line at the end of the buffer, read in the payload phase, appends an empty segment and stays in the payload phase |
| SocketsCommonProperties.BlankLineStep | src/Microsoft.AspNetCore.Sockets.Common/Internal/Formatters/ServerSentEventsMessageParser.cs:71-98 | with segments held, the line read at end-of-message completes the message with the flattened segments and consumes the whole buffer |
| SocketsCommonProperties.PayloadLinesComplete | src/Microsoft.AspNetCore.Sockets.Common/Internal/Formatters/ServerSentEventsMessageParser.cs:56-98 | any run of payload lines followed by the blank line completes the message: the segments are appended, the payload is all of them concatenated, and the whole buffer is consumed |
| SocketsCommonProperties.LastPayloadLine | src/Microsoft.AspNetCore.Sockets.Common/Internal/Formatters/ServerSentEventsMessageParser.cs:56-98 | the last payload line followed by the blank line completes the message |
| SocketsCommonProperties.NextPayloadLine | src/Microsoft.AspNetCore.Sockets.Common/Internal/Formatters/ServerSentEventsMessageParser.cs:56-69 | a payload line followed by another one keeps the payload phase and appends its segment |
| SocketsCommonProperties.TypeLineStep | src/Microsoft.AspNetCore.Sockets.Common/Internal/Formatters/ServerSentEventsMessageParser.cs:49-54 | the type line sets the message type and moves to the payload phase |
| SocketsCommonProperties.FrameCompletes | src/Microsoft.AspNetCore.Sockets.Common/Internal/Formatters/ServerSentEventsMessageParser.cs:32-98 | a whole frame (type line, payload lines, blank line) completes with its type and the concatenated segments, and everything after it is consumed too |
| SocketsCommonProperties.PayloadLinesAtEnd | src/Microsoft.AspNetCore.Sockets.Common/Internal/Formatters/ServerSentEventsMessageParser.cs:56-69 | payload lines that end the buffer are all consumed, their segments appended, and the call is `Incomplete` in the payload phase |
| SocketsCommonProperties.TypeAndPayloadLinesAtEnd | src/Microsoft.AspNetCore.Sockets.Common/Internal/Formatters/ServerSentEventsMessageParser.cs:32-69 | a type line and payload lines that end the buffer are consumed, and the call is `Incomplete` in the payload phase with the segments appended |
| SocketsCommonProperties.BlankLineAloneInPayloadPhase | src/Microsoft.AspNetCore.Sockets.Common/Internal/Formatters/ServerSentEventsMessageParser.cs:56-69 | "\r\n" handed over alone in the payload phase is one more, empty, segment, and the call is `Incomplete` in the payload phase |
| SocketsCommonProperties.FrameSplitAfterPayloadNeverCompletes | src/Microsoft.AspNetCore.Sockets.Common/Internal/Formatters/ServerSentEventsMessageParser.cs:32-98 | a frame that completes in one call is, when split after its last payload line, `Incomplete` in both calls, with an empty segment added by the second |
| SocketsCommonProperties.FlattenOne | src/Microsoft.AspNetCore.Sockets.Common/Internal/Formatters/ServerSentEventsMessageParser.cs:80-94 | one segment is its own payload |
| SocketsCommonProperties.FlattenTwo | src/Microsoft.AspNetCore.Sockets.Common/Internal/Formatters/ServerSentEventsMessageParser.cs:80-94 | two segments are concatenated with no separator |
| SocketsCommonProperties.ParsesOneSegment | test/Microsoft.AspNetCore.Sockets.Common.Tests/Internal/Formatters/ServerSentEventsParserTests.cs:16 | "data: T\r\ndata: Hello, World\r\n\r\n" on a new parser completes as Text with payload "Hello, World" and consumes the buffer |
| SocketsCommonProperties.ParsesTwoSegments | test/Microsoft.AspNetCore.Sockets.Common.Tests/Internal/Formatters/ServerSentEventsParserTests.cs:17 | "data: T\r\ndata: Hello\r\ndata: , World\r\n\r\n" completes as Text with payload "Hello, World" |
| SocketsCommonProperties.ParsesErrorMessage | src/Microsoft.AspNetCore.Sockets.Common/Internal/Formatters/ServerSentEventsMessageParser.cs:204-205 | a frame with type line "data: E" completes as an Error message |
| SocketsCommonProperties.UnknownTypeLine | src/Microsoft.AspNetCore.Sockets.Common/Internal/Formatters/ServerSentEventsMessageParser.cs:195-207 | a type line whose byte is no type's character fails with that byte, consumes nothing and leaves the fields alone |
| SocketsCommonProperties.RejectsUnknownType | src/Microsoft.AspNetCore.Sockets.Common/Internal/Formatters/ServerSentEventsMessageParser.cs:206-207 | "data: X" fails with "Unknown message type: 'X'" |
| SocketsCommonProperties.RejectsBareLineFeedTypeLine | src/Microsoft.AspNetCore.Sockets.Common/Internal/Formatters/ServerSentEventsMessageParser.cs:191-194 | "data: T\n" is six bytes once stripped, so it fails with "There was an error parsing the message type" |
| SocketsCommonProperties.WrongLengthTypeLine | src/Microsoft.AspNetCore.Sockets.Common/Internal/Formatters/ServerSentEventsMessageParser.cs:191-194 | any first line of two or more bytes whose length is not 9 fails as a bad type line |
| SocketsCommonProperties.EmptyAndPartialAreIncomplete | src/Microsoft.AspNetCore.Sockets.Common/Internal/Formatters/ServerSentEventsMessageParser.cs:32-38 | "" and "data:" are Incomplete, with nothing consumed |
| SocketsCommonProperties.NoLineFeedIsIncomplete | src/Microsoft.AspNetCore.Sockets.Common/Internal/Formatters/ServerSentEventsMessageParser.cs:34-38 | a buffer with no LF is Incomplete in every state, with nothing consumed and the fields unchanged |
| SocketsCommonProperties.EmptyPayloadFrameIsIncomplete | src/Microsoft.AspNetCore.Sockets.Common/Internal/Formatters/ServerSentEventsMessageParser.cs:63-67 | "data: T\r\n\r\n" is Incomplete: the blank line is taken as an empty segment |
| SocketsCommonProperties.TypeLineThenBlankAtEnd | src/Microsoft.AspNetCore.Sockets.Common/Internal/Formatters/ServerSentEventsMessageParser.cs:63-67 | a type line and then a blank line that ends the buffer consume both lines, leave one empty segment and stay in the payload phase |
| SocketsCommonProperties.TypeLineAloneIsIncomplete | src/Microsoft.AspNetCore.Sockets.Common/Internal/Formatters/ServerSentEventsMessageParser.cs:49-54 | a type line alone is consumed and moves the field to the payload phase |
| SocketsCommonProperties.TypeOfEarlierCallIsLost | src/Microsoft.AspNetCore.Sockets.Common/Internal/Formatters/ServerSentEventsMessageParser.cs:26 | a frame finished in a later call completes as Text, whatever its type line said |
| SocketsCommonProperties.CursorsFrom | src/Microsoft.AspNetCore.Sockets.Common/Internal/Formatters/ServerSentEventsMessageParser.cs:23-96 | from any line start: `examined` is the buffer end; `consumed` is the buffer end on Completed, and otherwise the buffer start or just past an LF |
| SocketsCommonProperties.Cursors | src/Microsoft.AspNetCore.Sockets.Common/Internal/Formatters/ServerSentEventsMessageParser.cs:23-96 | the same for every call |
| SocketsCommonProperties.AppendOnlyFrom | src/Microsoft.AspNetCore.Sockets.Common/Internal/Formatters/ServerSentEventsMessageParser.cs:61 | the loop only appends to the segment list, and it keeps end-of-message reachable only with segments held |
| SocketsCommonProperties.AppendOnly | src/Microsoft.AspNetCore.Sockets.Common/Internal/Formatters/ServerSentEventsMessageParser.cs:61 | a call never removes or changes a segment it was given |
| SocketsCommonProperties.IncompleteFrom | src/Microsoft.AspNetCore.Sockets.Common/Internal/Formatters/ServerSentEventsMessageParser.cs:34-38 | from a reachable state, `Incomplete` means no LF is left after `consumed` |
| SocketsCommonProperties.IncompleteMeansNoLineFeed | src/Microsoft.AspNetCore.Sockets.Common/Internal/Formatters/ServerSentEventsMessageParser.cs:34-38 | the same for every call |
| SocketsCommonProperties.TypeFixedFrom | src/Microsoft.AspNetCore.Sockets.Common/Internal/Formatters/ServerSentEventsMessageParser.cs:26-54 | past the type phase, a completed message has the type already held in the local |
| SocketsCommonProperties.LaterCallsCompleteAsText | src/Microsoft.AspNetCore.Sockets.Common/Internal/Formatters/ServerSentEventsMessageParser.cs:26 | a call that starts past the type phase can only complete as Text |
| SocketsCommonProperties.CompletedKeepsStateFrom | src/Microsoft.AspNetCore.Sockets.Common/Internal/Formatters/ServerSentEventsMessageParser.cs:78-98 | after Completed, the phase is end-of-message and the segments are still held, and the payload is their concatenation |
| SocketsCommonProperties.CompletedKeepsState | src/Microsoft.AspNetCore.Sockets.Common/Internal/Formatters/ServerSentEventsMessageParser.cs:78-98 | the same for every call: a completion resets nothing |
| SocketsCommonProperties.CompletesAgainWithoutReset | src/Microsoft.AspNetCore.Sockets.Common/Internal/Formatters/ServerSentEventsMessageParser.cs:71-98 | without a Reset, the next line of two or more bytes completes again with the old segments |
| SocketsCommonProperties.TypeLineRoundTrip | src/Microsoft.AspNetCore.Sockets.Common/Internal/Formatters/ServerSentEventsMessageParser.cs:195-205 | the type line written for a type reads back as that type |
| SocketsClient.Segment | src/Microsoft.AspNetCore.Sockets.Client.Http/ServerSentEventsMessageParser.cs:95-96 | the segment of a payload line is 8 bytes shorter than the line |
| SocketsClient.JoinLength | src/Microsoft.AspNetCore.Sockets.Client.Http/ServerSentEventsMessageParser.cs:110-120 | the joined payload is as long as the segments plus one newline for each gap between them |
| SocketsClient.JoinPrefixLength | src/Microsoft.AspNetCore.Sockets.Client.Http/ServerSentEventsMessageParser.cs:122-132 | the offset after a segment and its newline stays within the payload array |
| SocketsClient.JoinSnoc | src/Microsoft.AspNetCore.Sockets.Client.Http/ServerSentEventsMessageParser.cs:123-131 | one more segment adds a newline and the segment |
| SocketsClient.JoinCopyStep | src/Microsoft.AspNetCore.Sockets.Client.Http/ServerSentEventsMessageParser.cs:123-132 | each turn of the copy loop extends the join by one segment, and a newline follows exactly when that segment is not the last |
| SocketsClient.CopySegment | src/Microsoft.AspNetCore.Sockets.Client.Http/ServerSentEventsMessageParser.cs:124-130 | one turn of the copy loop writes the next segment, and the newline after it unless it was the last, so the array holds a longer prefix of the join |
| SocketsClient.JoinSegments | src/Microsoft.AspNetCore.Sockets.Client.Http/ServerSentEventsMessageParser.cs:103-133 | the segment-join logic yields the segments joined by the newline, with none after the last |
| SocketsClient.LineStep | src/Microsoft.AspNetCore.Sockets.Client.Http/ServerSentEventsMessageParser.cs:35-145 | a turn of the loop goes on past a line ending in LF, keeping or extending the segment list, or stops with the segment list unchanged; a completed message is the joined segments, with both cursors just past the LF; any other stop consumes nothing, has `examined` at the buffer end and keeps the phase; `Incomplete` and the frame-ending error both mean no LF is left, and they are told apart by the phase and the bytes left |
| SocketsClient.ParseFromStep | src/Microsoft.AspNetCore.Sockets.Client.Http/ServerSentEventsMessageParser.cs:35-146 | the loop from a line start is the outcome of the stopping turn, or the loop from where the turn goes on |
| SocketsClient.ServerSentEventsMessageParser.constructor | src/Microsoft.AspNetCore.Sockets.Client.Http/ServerSentEventsMessageParser.cs:20-23 | a new parser holds the platform newline, is in the payload phase and has no segments |
| SocketsClient.ServerSentEventsMessageParser.Reset | src/Microsoft.AspNetCore.Sockets.Client.Http/ServerSentEventsMessageParser.cs:159-163 | the phase is back to the payload phase and the segment list is empty |
| SocketsClient.ServerSentEventsMessageParser.ParseMessage | src/Microsoft.AspNetCore.Sockets.Client.Http/ServerSentEventsMessageParser.cs:25-147 | the result, both cursors and the new fields are those of `Parse` on the old fields and the buffer |
| SocketsClient.ServerSentEventsMessageParser.ReadLine | src/Microsoft.AspNetCore.Sockets.Client.Http/ServerSentEventsMessageParser.cs:37-144 | one turn of the loop body: it stops exactly when `LineStep` stops, with that outcome, or goes on where `LineStep` goes on, with its phase and segments |
| SocketsClientProperties.CommentLineStep | src/Microsoft.AspNetCore.Sockets.Client.Http/ServerSentEventsMessageParser.cs:61-67 | a line starting with ':' is passed over with the phase and the segments unchanged |
| SocketsClientProperties.CommentLineSkipped | src/Microsoft.AspNetCore.Sockets.Client.Http/ServerSentEventsMessageParser.cs:61-67 | parsing from a comment line is parsing from the line after it |
| SocketsClientProperties.BareLineFeedIsFrameFormat | src/Microsoft.AspNetCore.Sockets.Client.Http/ServerSentEventsMessageParser.cs:56-59 | a line that is a lone LF fails as a frame format error, consuming nothing |
| SocketsClientProperties.LineFeedWithoutReturn | src/Microsoft.AspNetCore.Sockets.Client.Http/ServerSentEventsMessageParser.cs:79-82 | a line that is not a comment and whose LF has no CR before it fails as an unexpected LF |
| SocketsClientProperties.MissingPrefixLine | src/Microsoft.AspNetCore.Sockets.Client.Http/ServerSentEventsMessageParser.cs:83-86 | a CRLF line that is neither a comment nor the blank line, and does not start with "data: ", fails as a missing prefix |
| SocketsClientProperties.SegmentOfDataLine | src/Microsoft.AspNetCore.Sockets.Client.Http/ServerSentEventsMessageParser.cs:94-97 | the segment of "data: s\r\n" is s |
| SocketsClientProperties.DataLineStep | src/Microsoft.AspNetCore.Sockets.Client.Http/ServerSentEventsMessageParser.cs:91-144 | a payload line appends its segment; the phase becomes end-of-message exactly when the next byte is CR |
| SocketsClientProperties.BlankLineStep | src/Microsoft.AspNetCore.Sockets.Client.Http/ServerSentEventsMessageParser.cs:69-138 | the blank line completes the message with the joined segments in either phase, both cursors just past it |
| SocketsClientProperties.FrameCompletes | src/Microsoft.AspNetCore.Sockets.Client.Http/ServerSentEventsMessageParser.cs:35-145 | any run of payload lines followed by the blank line completes the message: the segments are appended, the payload is all of them joined by the newline, and both cursors stop just after the blank line |
| SocketsClientProperties.PayloadLinesAtEnd | src/Microsoft.AspNetCore.Sockets.Client.Http/ServerSentEventsMessageParser.cs:91-144 | payload lines that end the buffer are all consumed, their segments appended, and the call is `Incomplete` in the payload phase |
| SocketsClientProperties.FrameAcrossTwoCalls | src/Microsoft.AspNetCore.Sockets.Client.Http/ServerSentEventsMessageParser.cs:35-145 | a frame split after a payload line is `Incomplete` in the first call and completes in the second with all the segments joined |
| SocketsClientProperties.PayloadLineThen | src/Microsoft.AspNetCore.Sockets.Client.Http/ServerSentEventsMessageParser.cs:91-144 | a payload line followed by more payload lines ends where the rest of the frame ends |
| SocketsClientProperties.NextPayloadLine | src/Microsoft.AspNetCore.Sockets.Client.Http/ServerSentEventsMessageParser.cs:91-144 | a payload line followed by another one keeps the payload phase and appends its segment |
| SocketsClientProperties.LastPayloadLine | src/Microsoft.AspNetCore.Sockets.Client.Http/ServerSentEventsMessageParser.cs:91-138 | the last payload line followed by the blank line completes the message |
| SocketsClientProperties.BlankLineCompletes | src/Microsoft.AspNetCore.Sockets.Client.Http/ServerSentEventsMessageParser.cs:102-138 | the blank line in the payload phase completes with the segments already held |
| SocketsClientProperties.CompletesAgainWithoutReset | src/Microsoft.AspNetCore.Sockets.Client.Http/ServerSentEventsMessageParser.cs:102-138 | without a Reset, the next payload line completes again with the old segments |
| SocketsClientProperties.JoinNone | src/Microsoft.AspNetCore.Sockets.Client.Http/ServerSentEventsMessageParser.cs:88 | no segments give an empty payload |
| SocketsClientProperties.JoinOne | src/Microsoft.AspNetCore.Sockets.Client.Http/ServerSentEventsMessageParser.cs:103-106 | one segment is the payload verbatim |
| SocketsClientProperties.JoinTwo | src/Microsoft.AspNetCore.Sockets.Client.Http/ServerSentEventsMessageParser.cs:107-133 | two segments are joined by one newline |
| SocketsClientProperties.ReturnAloneIsIncomplete | src/Microsoft.AspNetCore.Sockets.Client.Http/ServerSentEventsMessageParser.cs:37-50 | "data: foo\r\n\r" is Incomplete at end-of-message, having consumed the payload line |
| SocketsClientProperties.StrayByteIsFrameEndingError | src/Microsoft.AspNetCore.Sockets.Client.Http/ServerSentEventsMessageParser.cs:40-45 | "data: foo\r\n\rX" fails with "Expected a \r\n frame ending" |
| SocketsClientProperties.ParsesTwoSegments | src/Microsoft.AspNetCore.Sockets.Client.Http/ServerSentEventsMessageParser.cs:107-133 | "data: foo\r\ndata: bar\r\n\r\n" completes with "foo", the newline, "bar" |
| SocketsClientProperties.SkipsComment | src/Microsoft.AspNetCore.Sockets.Client.Http/ServerSentEventsMessageParser.cs:61-67 | ": hi\r\ndata: foo\r\n\r\n" completes with "foo"; the comment adds no segment |
| SocketsClientProperties.CommentThenFrame | src/Microsoft.AspNetCore.Sockets.Client.Http/ServerSentEventsMessageParser.cs:61-67 | a comment line followed by a frame completes as the frame alone would, with the cursors past both |
| SocketsClientProperties.BlankLineIsEmptyMessage | src/Microsoft.AspNetCore.Sockets.Client.Http/ServerSentEventsMessageParser.cs:69-72 | "\r\n" on a new parser completes with an empty payload |
| SocketsClientProperties.LeavesNextFrame | src/Microsoft.AspNetCore.Sockets.Client.Http/ServerSentEventsMessageParser.cs:135-138 | "data: foo\r\n\r\nX" completes with "foo" and leaves the X unconsumed and unexamined |
| SocketsClientProperties.FreshFrameCompletes | src/Microsoft.AspNetCore.Sockets.Client.Http/ServerSentEventsMessageParser.cs:135-138 | a frame at the start of the buffer of a new parser completes with both cursors at its end |
| SocketsClientProperties.RejectsBareLineFeed | src/Microsoft.AspNetCore.Sockets.Client.Http/ServerSentEventsMessageParser.cs:56-59 | "\n" fails with "There was an error in the frame format" |
| SocketsClientProperties.RejectsLineFeedWithoutReturn | src/Microsoft.AspNetCore.Sockets.Client.Http/ServerSentEventsMessageParser.cs:79-82 | "data: foo\n" fails as an unexpected LF |
| SocketsClientProperties.RejectsMissingSpace | src/Microsoft.AspNetCore.Sockets.Client.Http/ServerSentEventsMessageParser.cs:165-171 | "data:foo\r\n" fails as a missing "data: " prefix |
| SocketsClientProperties.NoLineFeedAtAll | src/Microsoft.AspNetCore.Sockets.Client.Http/ServerSentEventsMessageParser.cs:37-50 | a buffer with no LF is Incomplete, except at end-of-message with more than one byte, which is the frame-ending error; nothing is consumed |
| SocketsClientProperties.ConsumedFrom | src/Microsoft.AspNetCore.Sockets.Client.Http/ServerSentEventsMessageParser.cs:27-138 | from any line start, consumed <= examined <= buffer end, and `consumed` is the buffer start or just past an LF |
| SocketsClientProperties.ExaminedFrom | src/Microsoft.AspNetCore.Sockets.Client.Http/ServerSentEventsMessageParser.cs:27-138 | `examined` equals `consumed` on Completed and is the buffer end otherwise |
| SocketsClientProperties.Cursors | src/Microsoft.AspNetCore.Sockets.Client.Http/ServerSentEventsMessageParser.cs:27-138 | both cursor facts for every call |
| SocketsClientProperties.AppendOnlyFrom | src/Microsoft.AspNetCore.Sockets.Client.Http/ServerSentEventsMessageParser.cs:97 | the loop only appends to the segment list |
| SocketsClientProperties.AppendOnly | src/Microsoft.AspNetCore.Sockets.Client.Http/ServerSentEventsMessageParser.cs:97 | a call never removes or changes a segment it was given |
| SocketsClientProperties.WaitingFrom | src/Microsoft.AspNetCore.Sockets.Client.Http/ServerSentEventsMessageParser.cs:37-50 | Incomplete or the frame-ending error means no LF is left after `consumed`, and it is the error exactly when the phase is end-of-message and more than one byte is left |
| SocketsClientProperties.Waiting | src/Microsoft.AspNetCore.Sockets.Client.Http/ServerSentEventsMessageParser.cs:37-50 | the same for every call |
| SocketsClientProperties.CompletedKeepsStateFrom | src/Microsoft.AspNetCore.Sockets.Client.Http/ServerSentEventsMessageParser.cs:135-138 | after Completed, the phase is end-of-message and the payload is the join of the segments still held |
| SocketsClientProperties.CompletedKeepsState | src/Microsoft.AspNetCore.Sockets.Client.Http/ServerSentEventsMessageParser.cs:135-138 | the same for every call: a completion resets nothing |

## Left out

- The `System.IO.Pipelines` buffer is a flat byte sequence.
  - `ReadableBuffer` is modelled as that sequence and `ReadCursor` as an index.
  - `Seek` is a search for LF, and `ReadableBufferReader` is a position that moves past each line.
  - `ConvertBufferToSpan` is slicing.
  - Multi-segment buffers, and the copy `ConvertBufferToSpan` makes of them, are not modelled.
- Exception types and messages.
  - Every throw is a `FormatException(reason)` result. `Reason` gives the message text of each one.
  - This includes the `ArgumentOutOfRangeException` that the typed parser's `Slice` raises on a one-byte line. The source writes no message for it; `Reason` gives the .NET runtime's default message of that exception type.
  - Unwinding is not modelled; only the field values at the throw are kept.
- Phase values that are declared but never assigned.
  - The typed parser's `InternalParsePhase` declares `Initial` and `Error` (common lines 218-225). The untyped parser's `InternalParseState` declares only `Error` beside its two phases (client lines 184-189).
  - Neither parser ever assigns these values. So the phase datatypes hold only the assigned values, and the `default:` branch of the typed parser cannot be reached.
- The typed parser's second `Seek` at end-of-message (common line 72) is not a separate branch. It starts at the same line start as the first search, so it always finds the same LF and never reports "not there".
- The untyped parser's second `EnsureStartsWithDataPrefix` (client line 92) is not a separate branch. It runs only after the check at line 85 has passed.
- Aliasing of the payload. With one segment, the untyped parser returns `_data[0]` itself (client lines 103-106), so the message shares its array with the segment the parser holds. The model's payloads are sequence values, which cannot share storage.
- `SumLengths`, `ConcatSegments`, `JoinSegments`: do not model the 32-bit `int` of `payloadSize` (common lines 81-85, client lines 110-116). It would wrap past 2^31-1 bytes of payload; Dafny's `int` does not wrap. Buffers that large are out of reach of these parsers in practice.
- The commented-out older loop of the typed parser (common lines 108-169).
- `Environment.NewLine` is a constructor parameter of the untyped parser. It is a non-empty byte sequence, because the platform value is not known here.
- UTF-8 encoding of the test strings: the test inputs are ASCII, taken byte for byte.
- None of the modelled files holds an encoder.
  - The round trip is stated in the code's own terms instead. The untyped parser's `FrameCompletes` reads back any frame written from segments without an LF. The typed parser's `FrameCompletes` reads back any such frame with at least one segment; with none, the frame is `Incomplete` (`EmptyPayloadFrameIsIncomplete`).
  - `TypeLineRoundTrip` reads back the type line.
  - Splitting a payload on its own newlines, and binary payloads, are outside the code.
- Threads, connections, hubs, groups and lifetime managers are not modelled. The chat sample and the hub end-point tests exercise those: they hold no parsing logic and no implementation of them appears.
