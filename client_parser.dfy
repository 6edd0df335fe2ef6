/** The untyped frame parser of Microsoft.AspNetCore.Sockets.Client.Http
    (ServerSentEventsMessageParser.cs).

    A frame is a run of payload lines "data: <segment>\r\n" ended by a blank
    line "\r\n"; lines starting with ':' are comments.  The payload is the
    segments joined by the platform newline.  As in the typed parser, the
    phase and the segments seen so far live in two fields and survive
    between calls. */
module SocketsClient {
  import opened Buffers

  /** The bytes of `Environment.NewLine`, which differ between platforms
      ("\r\n" or "\n") but are never empty. */
  type NewLine = s: seq<byte> | |s| > 0 witness [LF]

  /** The `FormatException`s the parser throws. */
  datatype ClientError =
    | FrameEndingExpected
    | FrameFormat
    | UnexpectedLineFeed
    | MissingDataPrefix

  /** The parse outcome: `Completed` with the `message` out parameter,
      `Incomplete`, or the exception. */
  datatype ParseResult =
    | Completed(message: seq<byte>)
    | Incomplete
    | FormatException(error: ClientError)

  /** The values of `InternalParseState` that the parser assigns. */
  datatype Phase = ReadMessagePayload | ReadEndOfMessage

  /** Everything one call of `ParseMessage` produces: the result, the two out
      cursors, and the new values of the two fields. */
  datatype Outcome = Outcome(
    result: ParseResult,
    consumed: nat,
    examined: nat,
    phase: Phase,
    data: seq<seq<byte>>)

  function Reason(e: ClientError): string
  {
    match e
    case FrameEndingExpected => "Expected a \\r\\n frame ending"
    case FrameFormat => "There was an error in the frame format"
    case UnexpectedLineFeed =>
      "Unexpected '\n' in message. A '\n' character can only be used as part of the newline sequence '\r\n'"
    case MissingDataPrefix => "Expected the message prefix 'data: '"
  }

  /** `IsMessageEnd`: the line is the blank line "\r\n". */
  predicate IsMessageEnd(line: seq<byte>)
  {
    |line| == |CRLF| && line[0] == CR && line[1] == LF
  }

  /** The test made by `EnsureStartsWithDataPrefix`: the line starts with "data: ". */
  predicate StartsWithDataPrefix(line: seq<byte>)
  {
    |DataPrefix| <= |line| && forall i :: 0 <= i < |DataPrefix| ==> line[i] == DataPrefix[i]
  }

  /** The segment of a payload line: the bytes between the prefix and the line ending. */
  function Segment(line: seq<byte>): (r: seq<byte>)
    requires |line| >= |DataPrefix| + |CRLF|
    ensures |r| == |line| - 8
  {
    line[|DataPrefix|..|line| - |CRLF|]
  }

  /** The segments with `newLine` between each two of them and none after the last. */
  function Join(segments: seq<seq<byte>>, newLine: seq<byte>): seq<byte>
  {
    if |segments| == 0 then []
    else if |segments| == 1 then segments[0]
    else Join(segments[..|segments| - 1], newLine) + newLine + segments[|segments| - 1]
  }

  /** A joined payload is as long as its segments plus one newline per gap. */
  lemma {:induction false} JoinLength(segments: seq<seq<byte>>, newLine: seq<byte>)
    requires segments != []
    ensures |Join(segments, newLine)| + |newLine| == TotalLength(segments) + |segments| * |newLine|
    decreases |segments|
  {
    var n := |segments|;
    if n == 1 {
      assert segments[..0] == [];
    } else {
      var init := segments[..n - 1];
      JoinLength(init, newLine);
      assert |init| * |newLine| + |newLine| == n * |newLine|;
    }
  }

  /** Joining a prefix and then one more segment stays within the whole join. */
  lemma {:induction false} JoinPrefixLength(segments: seq<seq<byte>>, newLine: seq<byte>, k: nat)
    requires 1 <= k < |segments|
    ensures |Join(segments[..k], newLine)| + |newLine| + |segments[k]| <= |Join(segments, newLine)|
    decreases |segments|
  {
    var n := |segments|;
    var init := segments[..n - 1];
    if k < n - 1 {
      assert init[..k] == segments[..k];
      JoinPrefixLength(init, newLine, k);
      JoinShorter(segments, newLine);
    } else {
      assert init == segments[..k];
    }
  }

  lemma JoinShorter(segments: seq<seq<byte>>, newLine: seq<byte>)
    requires |segments| >= 2
    ensures |Join(segments[..|segments| - 1], newLine)| <= |Join(segments, newLine)|
  {
  }

  /** One more segment after a non-empty prefix adds a newline and the segment. */
  lemma JoinSnoc(segments: seq<seq<byte>>, newLine: seq<byte>, k: nat)
    requires 1 <= k < |segments|
    ensures Join(segments[..k + 1], newLine) == Join(segments[..k], newLine) + newLine + segments[k]
  {
    assert segments[..k + 1][..k] == segments[..k];
  }

  /** The segment-join logic (lines 103-133): one segment is returned as it
      is, several are sized and then copied into one array with a newline
      after each segment but the last. */
  method JoinSegments(segments: seq<seq<byte>>, newLine: NewLine) returns (payload: seq<byte>)
    ensures payload == Join(segments, newLine)
  {
    if |segments| == 1 {
      return segments[0];
    }
    if |segments| == 0 {
      return [];
    }
    var n := |segments|;
    var payloadSize := SumLengths(segments);
    payloadSize := payloadSize + |newLine| * n;
    JoinLength(segments, newLine);
    var buffer := new byte[payloadSize - |newLine|];
    var offset: nat := 0;
    for i := 0 to n
      invariant buffer.Length == |Join(segments, newLine)|
      invariant offset <= buffer.Length
      invariant i < n ==> buffer[..offset] == Written(segments, newLine, i)
      invariant i == n ==> buffer[..offset] == Join(segments, newLine)
    {
      offset := CopySegment(segments, newLine, i, buffer, offset);
    }
    assert buffer[..] == buffer[..offset];
    payload := buffer[..];
  }

  /** One turn of the copy loop (lines 124-130): segment `i` is copied at
      `offset`, then the newline unless the buffer is full. */
  method CopySegment(segments: seq<seq<byte>>, newLine: NewLine, i: nat, buffer: array<byte>, offset: nat)
      returns (next: nat)
    requires i < |segments|
    requires buffer.Length == |Join(segments, newLine)|
    requires offset <= buffer.Length
    requires buffer[..offset] == Written(segments, newLine, i)
    modifies buffer
    ensures next <= buffer.Length
    ensures i + 1 < |segments| ==> buffer[..next] == Written(segments, newLine, i + 1)
    ensures i + 1 == |segments| ==> buffer[..next] == Join(segments, newLine)
  {
    var dataLine := segments[i];
    JoinCopyStep(segments, newLine, i);
    CopyTo(dataLine, buffer, offset);
    next := offset + |dataLine|;
    if next < buffer.Length {
      CopyTo(newLine, buffer, next);
      next := next + |newLine|;
    }
  }

  /** What the copy loop has written before segment `i`: the first `i`
      segments joined, and the newline that follows them. */
  ghost function Written(segments: seq<seq<byte>>, newLine: seq<byte>, i: nat): seq<byte>
    requires i <= |segments|
  {
    if i == 0 then [] else Join(segments[..i], newLine) + newLine
  }

  /** One turn of the copy loop: segment `i` completes the join of the first
      `i + 1` segments, and a newline follows unless it was the last. */
  lemma JoinCopyStep(segments: seq<seq<byte>>, newLine: NewLine, i: nat)
    requires i < |segments|
    ensures Written(segments, newLine, i) + segments[i] == Join(segments[..i + 1], newLine)
    ensures i + 1 < |segments| ==> |Written(segments, newLine, i + 1)| <= |Join(segments, newLine)|
    ensures i + 1 == |segments| ==> Join(segments[..i + 1], newLine) == Join(segments, newLine)
  {
    if i == 0 {
      assert segments[..1][..0] == [];
    } else {
      JoinSnoc(segments, newLine, i);
    }
    if i + 1 < |segments| {
      JoinPrefixLength(segments, newLine, i + 1);
    } else {
      assert segments[..i + 1] == segments;
    }
  }

  /** What the loop body does with the line that starts at `start`: stop with
      an outcome, or go on at `lineEnd` with new values of the phase and the
      segments. */
  datatype Step =
    | Stop(outcome: Outcome)
    | Next(lineEnd: nat, phase: Phase, data: seq<seq<byte>>)

  /** One iteration of the `while (!reader.End)` loop (lines 35-145). */
  function LineStep(b: seq<byte>, start: nat, phase: Phase, data: seq<seq<byte>>,
                    newLine: seq<byte>): (s: Step)
    requires start < |b|
    ensures s.Next? ==> start < s.lineEnd <= |b| && b[s.lineEnd - 1] == LF
    ensures s.Next? ==> s.data == data || (|s.data| == |data| + 1 && s.data[..|data|] == data)
    ensures s.Stop? ==> s.outcome.data == data
    ensures s.Stop? && !s.outcome.result.Completed? ==>
      s.outcome.consumed == start && s.outcome.examined == |b| && s.outcome.phase == phase
    ensures s.Stop? && s.outcome.result.Completed? ==>
      start < s.outcome.consumed == s.outcome.examined <= |b| && b[s.outcome.consumed - 1] == LF
      && s.outcome.phase == ReadEndOfMessage && s.outcome.result.message == Join(data, newLine)
    ensures s.Stop? && s.outcome.result.Incomplete? ==>
      NoLF(b, start, |b|) && (phase == ReadEndOfMessage ==> |b| - start <= 1)
    ensures s.Stop? && s.outcome.result == FormatException(FrameEndingExpected) ==>
      NoLF(b, start, |b|) && phase == ReadEndOfMessage && |b| - start > 1
  {
    match FindLF(b, start)
    case None =>
      if phase == ReadEndOfMessage && |b| - start > 1
      then Stop(Outcome(FormatException(FrameEndingExpected), start, |b|, phase, data))
      else Stop(Outcome(Incomplete, start, |b|, phase, data))
    case Some(lf) =>
      var lineEnd := lf + 1;
      var line := b[start..lineEnd];
      if |line| <= 1 then Stop(Outcome(FormatException(FrameFormat), start, |b|, phase, data))
      else if line[0] == Colon then Next(lineEnd, phase, data)
      else if !IsMessageEnd(line) && line[|line| - |CRLF|] != CR
      then Stop(Outcome(FormatException(UnexpectedLineFeed), start, |b|, phase, data))
      else if !IsMessageEnd(line) && !StartsWithDataPrefix(line)
      then Stop(Outcome(FormatException(MissingDataPrefix), start, |b|, phase, data))
      else if IsMessageEnd(line) || phase == ReadEndOfMessage
      then Stop(Outcome(Completed(Join(data, newLine)), lineEnd, lineEnd, ReadEndOfMessage, data))
      else
        assert line[5] == Space && line[|line| - 1] == LF;
        var next := if Peek(b, lineEnd) == CR as int then ReadEndOfMessage else ReadMessagePayload;
        Next(lineEnd, next, data + [Segment(line)])
  }

  /** The loop of `ParseMessage` from line start `start` onwards, with the
      fields holding `phase` and `data` when the loop reaches `start`. */
  function ParseFrom(b: seq<byte>, start: nat, phase: Phase, data: seq<seq<byte>>,
                     newLine: seq<byte>): Outcome
    requires start <= |b|
    decreases |b| - start
  {
    if start == |b| then Outcome(Incomplete, start, |b|, phase, data)
    else match LineStep(b, start, phase, data, newLine)
      case Stop(outcome) => outcome
      case Next(lineEnd, phase', data') => ParseFrom(b, lineEnd, phase', data', newLine)
  }

  /** One turn of the loop. */
  lemma ParseFromStep(b: seq<byte>, start: nat, phase: Phase, data: seq<seq<byte>>, newLine: seq<byte>, step: Step)
    requires start < |b| && step == LineStep(b, start, phase, data, newLine)
    ensures step.Stop? ==> ParseFrom(b, start, phase, data, newLine) == step.outcome
    ensures step.Next? ==> ParseFrom(b, start, phase, data, newLine) == ParseFrom(b, step.lineEnd, step.phase, step.data, newLine)
  {
  }

  /** One call of `ParseMessage` on `b` when the fields hold `phase` and `data`. */
  function Parse(phase: Phase, data: seq<seq<byte>>, b: seq<byte>, newLine: seq<byte>): Outcome
  {
    ParseFrom(b, 0, phase, data, newLine)
  }

  /** The parser object: the phase and the list of payload segments survive
      between calls; the newline is fixed for the platform. */
  class ServerSentEventsMessageParser {
    const newLine: NewLine
    var state: Phase
    var data: seq<seq<byte>>

    constructor (newLine: NewLine)
      ensures this.newLine == newLine && state == ReadMessagePayload && data == []
    {
      this.newLine := newLine;
      state := ReadMessagePayload;
      data := [];
    }

    method Reset()
      modifies this
      ensures state == ReadMessagePayload && data == []
    {
      state := ReadMessagePayload;
      data := [];
    }

    /** Parses one frame from `buffer`.  A `FormatException` result stands for
        the thrown exception; the fields keep whatever the call had assigned
        before it. */
    method ParseMessage(buffer: seq<byte>) returns (result: ParseResult, consumed: nat, examined: nat)
      modifies this
      ensures Outcome(result, consumed, examined, state, data) == Parse(old(state), old(data), buffer, newLine)
    {
      consumed := 0;
      examined := |buffer|;
      var position := 0;  // the reader's position
      var start := consumed;
      ghost var outcome := Parse(old(state), old(data), buffer, newLine);

      while position < |buffer|
        invariant position == start && consumed == start && start <= |buffer|
        invariant examined == |buffer|
        invariant ParseFrom(buffer, start, state, data, newLine) == outcome
        decreases |buffer| - position
      {
        ghost var step := LineStep(buffer, start, state, data, newLine);
        ParseFromStep(buffer, start, state, data, newLine, step);
        var stop;
        stop, result, consumed, examined := ReadLine(buffer, start);
        if stop {
          return;
        }
        start := consumed;
        position := consumed;
      }
      result := Incomplete;
    }

    /** The body of the `while (!reader.End)` loop for the line that starts
        at `start`: either the call ends here, with its result and cursors, or
        the loop goes on at `consumed`, past the line just read. */
    method ReadLine(buffer: seq<byte>, start: nat) returns (stop: bool, result: ParseResult, consumed: nat, examined: nat)
      requires start < |buffer|
      modifies this
      ensures var step := LineStep(buffer, start, old(state), old(data), newLine);
        stop == step.Stop?
        && (stop ==> step.outcome == Outcome(result, consumed, examined, state, data))
        && (!stop ==> step.lineEnd == consumed && step.phase == state && step.data == data
                      && examined == |buffer|)
    {
      consumed := start;
      examined := |buffer|;
      result := Incomplete;
      var found := FindLF(buffer, start);
      if found.None? {
        stop := true;
        if state == ReadEndOfMessage && |buffer[start..]| > 1 {
          result := FormatException(FrameEndingExpected);
        }
        return;
      }
      var lineEnd := found.value + 1;
      var line := buffer[start..lineEnd];
      var position := start + |line|;  // the reader's position after the line

      if |line| <= 1 {
        stop, result := true, FormatException(FrameFormat);
        return;
      }

      // A comment: skipped, and so is the peek for CR at the end of the loop.
      if line[0] == Colon {
        stop, consumed := false, lineEnd;
        return;
      }

      if IsMessageEnd(line) {
        state := ReadEndOfMessage;
      } else if line[|line| - |CRLF|] != CR {
        stop, result := true, FormatException(UnexpectedLineFeed);
        return;
      } else if !StartsWithDataPrefix(line) {
        stop, result := true, FormatException(MissingDataPrefix);
        return;
      }

      match state {
        case ReadMessagePayload =>
          // The prefix check repeated here (line 92) has already passed.
          assert line[5] == Space && line[|line| - 1] == LF;
          var payloadLength := |line| - (|DataPrefix| + |CRLF|);
          var newData := line[|DataPrefix|..|DataPrefix| + payloadLength];
          data := data + [newData];
          consumed := lineEnd;
        case ReadEndOfMessage =>
          var payload := JoinSegments(data, newLine);
          consumed := lineEnd;
          examined := consumed;
          stop, result := true, Completed(payload);
          return;
      }

      if Peek(buffer, position) == CR as int {
        state := ReadEndOfMessage;
      }
      stop := false;
    }
  }
}
