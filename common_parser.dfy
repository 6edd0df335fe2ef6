/** The typed frame parser of Microsoft.AspNetCore.Sockets.Common
    (Internal/Formatters/ServerSentEventsMessageParser.cs).

    A frame is a type line "data: T" (or B, C, E), payload lines "data: ...",
    and a blank line.  The parser is called repeatedly on the unconsumed
    remainder of a pipeline buffer and keeps its phase and the payload
    segments seen so far in two fields. */
module SocketsCommon {
  import opened Buffers

  datatype MessageType = Text | Binary | Close | Error

  datatype Message = Message(payload: seq<byte>, messageType: MessageType)

  /** What a `FormatException` (or the `ArgumentOutOfRangeException` from slicing
      a one-byte line) reports. */
  datatype FormatError =
    | LineTooShort
    | BadTypeLine
    | UnknownMessageType(c: byte)

  /** The parse outcome: `Completed` with the message, `Incomplete`, or the exception. */
  datatype ParseResult =
    | Completed(message: Message)
    | Incomplete
    | FormatException(error: FormatError)

  /** The values of `InternalParsePhase` that the parser assigns. */
  datatype Phase = ReadMessageType | ReadMessagePayload | ReadEndOfMessage

  /** Everything one call of `ParseMessage` produces: the result, the two out
      cursors, and the new values of the two fields. */
  datatype Outcome = Outcome(
    result: ParseResult,
    consumed: nat,
    examined: nat,
    phase: Phase,
    data: seq<seq<byte>>)

  /** The message of each exception.  The source writes the two `FormatException`
      messages; the `LineTooShort` text is the .NET runtime's default message of
      `ArgumentOutOfRangeException`, which the source does not write. */
  function Reason(e: FormatError): string
  {
    match e
    case LineTooShort => "Specified argument was out of the range of valid values."
    case BadTypeLine => "There was an error parsing the message type"
    case UnknownMessageType(c) => "Unknown message type: '" + [c as int as char] + "'"
  }

  /** The type character written on the type line for each message type. */
  function TypeChar(t: MessageType): byte
  {
    match t
    case Text => 84    // 'T'
    case Binary => 66  // 'B'
    case Close => 67   // 'C'
    case Error => 69   // 'E'
  }

  /** The message type named by a type line with its last two bytes removed.
      The first six bytes are not looked at. */
  function GetMessageType(line: seq<byte>): Result<MessageType, FormatError>
  {
    if |line| != 7 then Failure(BadTypeLine)
    else if line[6] == 84 then Success(Text)
    else if line[6] == 66 then Success(Binary)
    else if line[6] == 67 then Success(Close)
    else if line[6] == 69 then Success(Error)
    else Failure(UnknownMessageType(line[6]))
  }

  /** A type line names a type exactly when its seventh byte is that type's
      character; any other seventh byte is reported, and a line of another
      length is a bad type line. */
  lemma GetMessageTypeSpec(line: seq<byte>)
    ensures var r := GetMessageType(line);
      (|line| != 7 ==> r == Failure(BadTypeLine))
      && (|line| == 7 && r.Success? ==> TypeChar(r.value) == line[6])
      && (|line| == 7 && r.Failure? ==> r.error == UnknownMessageType(line[6]))
      && (|line| == 7 ==> (r.Success? <==> exists t :: TypeChar(t) == line[6]))
  {
    if |line| == 7 && GetMessageType(line).Success? {
      var t := GetMessageType(line).value;
      assert TypeChar(t) == line[6];
    }
  }

  /** `Span.IndexOf`: the first index of `x` in `s`, or -1. */
  function IndexOf(s: seq<byte>, x: byte): (r: int)
    ensures -1 <= r < |s|
  {
    if s == [] then -1
    else if s[0] == x then 0
    else var i := IndexOf(s[1..], x); if i == -1 then -1 else i + 1
  }

  /** `IndexOf` finds the first occurrence, and -1 means there is none. */
  lemma {:induction false} IndexOfSpec(s: seq<byte>, x: byte)
    ensures var r := IndexOf(s, x);
      (r >= 0 ==> s[r] == x && x !in s[..r]) && (r == -1 <==> x !in s)
  {
    if s != [] && s[0] != x {
      IndexOfSpec(s[1..], x);
      var i := IndexOf(s[1..], x);
      if i >= 0 {
        assert s[..i + 1] == [s[0]] + s[1..][..i];
      }
      assert s == [s[0]] + s[1..];
    }
  }

  /** The first occurrence is where `x` first sits. */
  lemma IndexOfAt(s: seq<byte>, x: byte, i: nat)
    requires i < |s| && s[i] == x && x !in s[..i]
    ensures IndexOf(s, x) == i
  {
    IndexOfSpec(s, x);
  }

  /** The segment a payload line contributes: the bytes after its first space,
      or the whole line when it has none. */
  function PayloadSegment(line: seq<byte>): seq<byte>
  {
    var i := IndexOf(line, Space);
    line[i + 1..]
  }

  /** The segment is a suffix of the line: all of it when the line has no
      space, otherwise what follows the first space. */
  lemma PayloadSegmentSpec(line: seq<byte>)
    ensures var r := PayloadSegment(line);
      |r| <= |line| && r == line[|line| - |r|..]
      && (|r| == |line| <==> Space !in line)
      && (|r| < |line| ==> line[|line| - |r| - 1] == Space && Space !in line[..|line| - |r| - 1])
  {
    IndexOfSpec(line, Space);
    var i := IndexOf(line, Space);
    if i >= 0 {
      assert |line[i + 1..]| == |line| - i - 1;
      assert line[i] in line;
    }
  }

  /** What the loop body does with the line that starts at `start`: stop with
      an outcome, or go on at `lineEnd` with new values of the phase, the
      segments and the local message type. */
  datatype Step =
    | Stop(outcome: Outcome)
    | Next(lineEnd: nat, phase: Phase, data: seq<seq<byte>>, messageType: MessageType)

  /** One iteration of the `while (!reader.End)` loop (lines 34-104). */
  function LineStep(b: seq<byte>, start: nat, phase: Phase, data: seq<seq<byte>>,
                    messageType: MessageType): (s: Step)
    requires start < |b|
    ensures s.Next? ==> start < s.lineEnd <= |b| && b[s.lineEnd - 1] == LF
    ensures s.Next? ==> s.data == data || (|s.data| == |data| + 1 && s.data[..|data|] == data)
    ensures s.Next? && s.phase == ReadEndOfMessage ==> s.data != []
    ensures s.Next? && phase != ReadMessageType ==> s.phase != ReadMessageType && s.messageType == messageType
    ensures s.Stop? ==> s.outcome.examined == |b| && s.outcome.phase == phase && s.outcome.data == data
    ensures s.Stop? && s.outcome.result.Completed? ==>
      s.outcome.consumed == |b| && phase == ReadEndOfMessage && data != []
      && s.outcome.result.message == Message(Flatten(data), messageType)
    ensures s.Stop? && !s.outcome.result.Completed? ==> s.outcome.consumed == start
    ensures s.Stop? && s.outcome.result.Incomplete? && (phase == ReadEndOfMessage ==> data != []) ==>
      NoLF(b, start, |b|)
  {
    match FindLF(b, start)
    case None => Stop(Outcome(Incomplete, start, |b|, phase, data))
    case Some(lf) =>
      var lineEnd := lf + 1;
      if lineEnd - start < 2 then Stop(Outcome(FormatException(LineTooShort), start, |b|, phase, data))
      else
        var line := b[start..lineEnd - 2];
        match phase
        case ReadMessageType =>
          (match GetMessageType(line)
           case Failure(e) => Stop(Outcome(FormatException(e), start, |b|, phase, data))
           case Success(t) => Next(lineEnd, ReadMessagePayload, data, t))
        case ReadMessagePayload =>
          var next := if Peek(b, lineEnd) == CR as int then ReadEndOfMessage else ReadMessagePayload;
          Next(lineEnd, next, data + [PayloadSegment(line)], messageType)
        case ReadEndOfMessage =>
          if |data| > 0 then Stop(Outcome(Completed(Message(Flatten(data), messageType)), |b|, |b|, phase, data))
          else Stop(Outcome(Incomplete, start, |b|, phase, data))
  }

  /** The loop of `ParseMessage` from line start `start` onwards: `phase`,
      `data` and `messageType` are the values the fields and the local hold
      when the loop reaches `start`. */
  function ParseFrom(b: seq<byte>, start: nat, phase: Phase, data: seq<seq<byte>>,
                     messageType: MessageType): Outcome
    requires start <= |b|
    decreases |b| - start
  {
    if start == |b| then Outcome(Incomplete, start, |b|, phase, data)
    else match LineStep(b, start, phase, data, messageType)
      case Stop(outcome) => outcome
      case Next(lineEnd, phase', data', messageType') => ParseFrom(b, lineEnd, phase', data', messageType')
  }

  /** One turn of the loop. */
  lemma ParseFromStep(b: seq<byte>, start: nat, phase: Phase, data: seq<seq<byte>>,
                      messageType: MessageType, step: Step)
    requires start < |b| && step == LineStep(b, start, phase, data, messageType)
    ensures step.Stop? ==> ParseFrom(b, start, phase, data, messageType) == step.outcome
    ensures step.Next? ==> ParseFrom(b, start, phase, data, messageType)
                           == ParseFrom(b, step.lineEnd, step.phase, step.data, step.messageType)
  {
  }

  /** One call of `ParseMessage` on `b` when the fields hold `phase` and `data`;
      the local message type starts as Text on every call. */
  function Parse(phase: Phase, data: seq<seq<byte>>, b: seq<byte>): Outcome
  {
    ParseFrom(b, 0, phase, data, Text)
  }

  /** The two `foreach` loops that size the payload array and copy each segment
      into it at an advancing marker. */
  method ConcatSegments(segments: seq<seq<byte>>) returns (payload: seq<byte>)
    ensures payload == Flatten(segments)
  {
    var payloadSize := SumLengths(segments);
    FlattenLength(segments);
    var buffer := new byte[payloadSize];
    var marker: nat := 0;
    for i := 0 to |segments|
      invariant marker == |Flatten(segments[..i])| <= buffer.Length
      invariant buffer[..marker] == Flatten(segments[..i])
    {
      var dataLine := segments[i];
      assert segments[..i + 1][..i] == segments[..i];
      assert Flatten(segments[..i + 1]) == Flatten(segments[..i]) + dataLine;
      FlattenPrefix(segments, i + 1);
      CopyTo(dataLine, buffer, marker);
      marker := marker + |dataLine|;
    }
    assert segments[..|segments|] == segments;
    assert buffer[..] == buffer[..marker];
    payload := buffer[..];
  }

  /** A prefix of the segments flattens to no more than all of them. */
  lemma {:induction false} FlattenPrefix(segments: seq<seq<byte>>, n: nat)
    requires n <= |segments|
    ensures |Flatten(segments[..n])| <= |Flatten(segments)|
    decreases |segments|
  {
    if n < |segments| {
      var init := segments[..|segments| - 1];
      assert init[..n] == segments[..n];
      FlattenPrefix(init, n);
    } else {
      assert segments[..n] == segments;
    }
  }

  /** The parser object: the phase and the list of payload segments survive
      between calls. */
  class ServerSentEventsMessageParser {
    var state: Phase
    var data: seq<seq<byte>>

    constructor ()
      ensures state == ReadMessageType && data == []
    {
      state := ReadMessageType;
      data := [];
    }

    method Reset()
      modifies this
      ensures state == ReadMessageType && data == []
    {
      state := ReadMessageType;
      data := [];
    }

    /** Parses one frame from `buffer`.  A `FormatException` result stands for the
        thrown exception; the fields keep whatever the call had assigned before it. */
    method ParseMessage(buffer: seq<byte>) returns (result: ParseResult, consumed: nat, examined: nat)
      modifies this
      ensures Outcome(result, consumed, examined, state, data) == Parse(old(state), old(data), buffer)
    {
      consumed := 0;
      examined := |buffer|;
      var messageType := Text;
      var position := 0;  // the reader's position
      var start := consumed;
      ghost var outcome := Parse(old(state), old(data), buffer);

      while position < |buffer|
        invariant position == start && consumed == start && start <= |buffer|
        invariant examined == |buffer|
        invariant ParseFrom(buffer, start, state, data, messageType) == outcome
        decreases |buffer| - position
      {
        ghost var step := LineStep(buffer, start, state, data, messageType);
        ParseFromStep(buffer, start, state, data, messageType, step);
        var stop;
        stop, result, consumed, examined, messageType := ReadLine(buffer, start, messageType);
        if stop {
          return;
        }
        start := consumed;
        position := consumed;
      }
      result := Incomplete;
    }

    /** The body of the `while (!reader.End)` loop for the line that starts at
        `start`, with `messageType` the value of the local so far: either the
        call ends here, with its result and cursors, or the loop goes on at
        `consumed`, past the line just read. */
    method ReadLine(buffer: seq<byte>, start: nat, messageType: MessageType)
      returns (stop: bool, result: ParseResult, consumed: nat, examined: nat, messageType': MessageType)
      requires start < |buffer|
      modifies this
      ensures var step := LineStep(buffer, start, old(state), old(data), messageType);
        stop == step.Stop?
        && (stop ==> step.outcome == Outcome(result, consumed, examined, state, data))
        && (!stop ==> step.lineEnd == consumed && step.phase == state && step.data == data
                      && step.messageType == messageType' && examined == |buffer|)
    {
      ghost var step := LineStep(buffer, start, state, data, messageType);
      consumed := start;
      examined := |buffer|;
      result := Incomplete;
      messageType' := messageType;
      var found := FindLF(buffer, start);
      if found.None? {
        stop := true;
        return;
      }
      var lineEnd := found.value + 1;
      var line := buffer[start..lineEnd];
      var position := start + |line|;  // the reader's position after the line

      // Strip the last two bytes; a one-byte line makes Slice throw.
      if |line| < 2 {
        stop, result := true, FormatException(LineTooShort);
        return;
      }
      assert line[..|line| - 2] == buffer[start..lineEnd - 2];
      line := line[..|line| - 2];

      match state {
        case ReadMessageType =>
          var t := GetMessageType(line);
          if t.Failure? {
            stop, result := true, FormatException(t.error);
            return;
          }
          assert step == Next(lineEnd, ReadMessagePayload, data, t.value);
          messageType' := t.value;
          state := ReadMessagePayload;
          stop, consumed := false, lineEnd;
        case ReadMessagePayload =>
          var newData := PayloadSegment(line);
          var phase := if Peek(buffer, position) == CR as int then ReadEndOfMessage else ReadMessagePayload;
          assert step == Next(lineEnd, phase, data + [newData], messageType);
          data := data + [newData];
          state := phase;
          stop, consumed := false, lineEnd;
        case ReadEndOfMessage =>
          // The second search for LF (line 72) starts at the same `start` and
          // finds the LF found above, so it never reports "not there".
          stop := true;
          if |data| > 0 {
            var payload := ConcatSegments(data);
            consumed := |buffer|;
            result := Completed(Message(payload, messageType));
          }
          assert step == Stop(Outcome(result, consumed, examined, state, data));
      }
    }
  }
}
