/** Properties of the typed frame parser of Microsoft.AspNetCore.Sockets.Common,
    stated about the function `Parse` that `ParseMessage` is proved to follow. */
module SocketsCommonProperties {
  import opened Buffers
  import opened SocketsCommon
  import opened Lines

  /** The type line "data: <c>\r\n". */
  function TypeLine(t: MessageType): seq<byte>
  {
    DataPrefix + [TypeChar(t)] + CRLF
  }

  /** The phase and segment list the parser can reach from its initial state:
      it enters ReadEndOfMessage only right after appending a segment. */
  ghost predicate Reachable(phase: Phase, data: seq<seq<byte>>)
  {
    phase == ReadEndOfMessage ==> data != []
  }

  /** The frame of a message with the given type and payload segments. */
  function Frame(t: MessageType, segments: seq<seq<byte>>): seq<byte>
  {
    TypeLine(t) + DataLines(segments) + CRLF
  }

  // ---------------------------------------------------------------------
  // Helpers about lines in a buffer

  /** The segment of "data: <s>": the bytes after the space of the prefix. */
  lemma SegmentOfDataLine(s: seq<byte>)
    ensures PayloadSegment(DataPrefix + s) == s
  {
    var line := DataPrefix + s;
    assert line[5] == Space;
    assert line[..5] == [100, 97, 116, 97, 58];
    IndexOfAt(line, Space, 5);
    assert line[6..] == s;
  }

  // ---------------------------------------------------------------------
  // Whole frames

  /** A payload line "data: <s>\r\n" appends <s> to the segments, and the
      byte after it decides whether the end of the message comes next. */
  lemma DataLineStep(b: seq<byte>, start: nat, s: seq<byte>, data: seq<seq<byte>>, t: MessageType)
    requires At(b, start, DataLine(s)) && LF !in s
    ensures var lineEnd := start + |DataLine(s)|;
      var next := if Peek(b, lineEnd) == CR as int then ReadEndOfMessage else ReadMessagePayload;
      LineStep(b, start, ReadMessagePayload, data, t) == Next(lineEnd, next, data + [s], t)
  {
    var line := DataLine(s);
    assert line[..|line| - 1] == DataPrefix + s + [CR];
    FindLineEnd(b, start, line);
    assert b[start..start + |line| - 2] == line[..|line| - 2] == DataPrefix + s;
    SegmentOfDataLine(s);
  }

  /** The line after the last payload line completes the message whatever
      it holds, provided it has two or more bytes; here it is the blank line. */
  lemma BlankLineStep(b: seq<byte>, start: nat, data: seq<seq<byte>>, t: MessageType)
    requires At(b, start, CRLF) && data != []
    ensures LineStep(b, start, ReadEndOfMessage, data, t)
        == Stop(Outcome(Completed(Message(Flatten(data), t)), |b|, |b|, ReadEndOfMessage, data))
  {
    assert CRLF[..1] == [CR];
    FindLineEnd(b, start, CRLF);
  }

  /** Payload lines followed by the blank line complete the message: the
      segments are appended to those already held, and the payload is all of
      them concatenated verbatim.  Whatever follows the blank line is consumed
      too. */
  lemma {:induction false} PayloadLinesComplete(b: seq<byte>, start: nat, segments: seq<seq<byte>>,
                                                data: seq<seq<byte>>, t: MessageType)
    requires At(b, start, DataLines(segments) + CRLF)
    requires segments != [] && Writable(segments)
    ensures ParseFrom(b, start, ReadMessagePayload, data, t)
        == Outcome(Completed(Message(Flatten(data + segments), t)), |b|, |b|, ReadEndOfMessage, data + segments)
    decreases |segments|
  {
    var s, more := segments[0], segments[1..];
    PayloadLinesSplit(b, start, segments);
    AppendFirst(data, segments);
    if more == [] {
      LastPayloadLine(b, start, s, data, t);
    } else {
      NextPayloadLine(b, start, s, more, data, t);
      PayloadLinesComplete(b, start + |DataLine(s)|, more, data + [s], t);
    }
  }

  lemma PayloadLinesSplit(b: seq<byte>, start: nat, segments: seq<seq<byte>>)
    requires At(b, start, DataLines(segments) + CRLF)
    requires segments != [] && Writable(segments)
    ensures LF !in segments[0] && Writable(segments[1..])
    ensures At(b, start, DataLine(segments[0]))
    ensures At(b, start + |DataLine(segments[0])|, DataLines(segments[1..]) + CRLF)
  {
    var s, more := segments[0], segments[1..];
    assert LF !in s;
    assert DataLines(segments) + CRLF == DataLine(s) + (DataLines(more) + CRLF);
    AtSplit(b, start, DataLine(s), DataLines(more) + CRLF);
    forall i | 0 <= i < |more| ensures LF !in more[i] {
      assert more[i] == segments[i + 1];
    }
  }

  /** The last payload line, then the blank line. */
  lemma LastPayloadLine(b: seq<byte>, start: nat, s: seq<byte>, data: seq<seq<byte>>, t: MessageType)
    requires At(b, start, DataLine(s)) && LF !in s
    requires At(b, start + |DataLine(s)|, DataLines([]) + CRLF)
    ensures ParseFrom(b, start, ReadMessagePayload, data, t)
        == Outcome(Completed(Message(Flatten(data + [s]), t)), |b|, |b|, ReadEndOfMessage, data + [s])
  {
    var lineEnd := start + |DataLine(s)|;
    assert At(b, lineEnd, CRLF) && Peek(b, lineEnd) == CR as int by {
      assert b[lineEnd..lineEnd + 2] == CRLF;
    }
    assert ParseFrom(b, start, ReadMessagePayload, data, t)
        == ParseFrom(b, lineEnd, ReadEndOfMessage, data + [s], t) by {
      DataLineStep(b, start, s, data, t);
      ParseFromStep(b, start, ReadMessagePayload, data, t, Next(lineEnd, ReadEndOfMessage, data + [s], t));
    }
    BlankLineStep(b, lineEnd, data + [s], t);
    ParseFromStep(b, lineEnd, ReadEndOfMessage, data + [s], t, LineStep(b, lineEnd, ReadEndOfMessage, data + [s], t));
  }

  /** A payload line followed by another payload line. */
  lemma NextPayloadLine(b: seq<byte>, start: nat, s: seq<byte>, more: seq<seq<byte>>, data: seq<seq<byte>>, t: MessageType)
    requires At(b, start, DataLine(s)) && LF !in s
    requires At(b, start + |DataLine(s)|, DataLines(more) + CRLF) && more != []
    ensures ParseFrom(b, start, ReadMessagePayload, data, t)
        == ParseFrom(b, start + |DataLine(s)|, ReadMessagePayload, data + [s], t)
  {
    var lineEnd := start + |DataLine(s)|;
    assert Peek(b, lineEnd) == 100 by {
      DataLinesFirst(more);
      AtFirst(b, lineEnd, DataLines(more) + CRLF);
    }
    assert LineStep(b, start, ReadMessagePayload, data, t) == Next(lineEnd, ReadMessagePayload, data + [s], t) by {
      DataLineStep(b, start, s, data, t);
    }
    ParseFromStep(b, start, ReadMessagePayload, data, t, Next(lineEnd, ReadMessagePayload, data + [s], t));
  }

  /** A whole frame — type line, payload lines, blank line — parsed from the
      type phase completes with the frame's type and the concatenated payload,
      and consumes the whole buffer, including anything after the frame. */
  lemma FrameCompletes(t: MessageType, segments: seq<seq<byte>>, b: seq<byte>, data: seq<seq<byte>>)
    requires At(b, 0, Frame(t, segments))
    requires segments != [] && Writable(segments)
    ensures Parse(ReadMessageType, data, b)
        == Outcome(Completed(Message(Flatten(data + segments), t)), |b|, |b|, ReadEndOfMessage, data + segments)
  {
    FrameSplit(t, segments, b);
    TypeLineStep(b, t, data);
    ParseFromStep(b, 0, ReadMessageType, data, Text, Next(|TypeLine(t)|, ReadMessagePayload, data, t));
    PayloadLinesComplete(b, |TypeLine(t)|, segments, data, t);
  }

  // ---------------------------------------------------------------------
  // A frame handed over in two calls

  /** Payload lines that end the buffer, read in the payload phase, are all
      consumed and their segments appended; the phase stays at payload,
      because the peek after the last line finds the end of the buffer. */
  lemma {:induction false} PayloadLinesAtEnd(b: seq<byte>, start: nat, segments: seq<seq<byte>>,
                                             data: seq<seq<byte>>, t: MessageType)
    requires At(b, start, DataLines(segments)) && start + |DataLines(segments)| == |b|
    requires Writable(segments)
    ensures ParseFrom(b, start, ReadMessagePayload, data, t)
        == Outcome(Incomplete, |b|, |b|, ReadMessagePayload, data + segments)
    decreases |segments|
  {
    if segments == [] {
      assert data + segments == data;
    } else {
      var s, more := segments[0], segments[1..];
      DataLinesSplit(b, start, segments);
      AppendFirst(data, segments);
      var next := start + |DataLine(s)|;
      assert Peek(b, next) != CR as int by {
        if more != [] {
          DataLinesFirst(more);
          AtFirst(b, next, DataLines(more));
        }
      }
      DataLineStep(b, start, s, data, t);
      ParseFromStep(b, start, ReadMessagePayload, data, t, Next(next, ReadMessagePayload, data + [s], t));
      PayloadLinesAtEnd(b, next, more, data + [s], t);
    }
  }

  /** A type line and payload lines that end the buffer: the call is
      `Incomplete`, everything is consumed, and the parser waits in the
      payload phase with the segments appended. */
  lemma TypeAndPayloadLinesAtEnd(t: MessageType, segments: seq<seq<byte>>, b: seq<byte>, data: seq<seq<byte>>)
    requires b == TypeLine(t) + DataLines(segments) && Writable(segments)
    ensures Parse(ReadMessageType, data, b) == Outcome(Incomplete, |b|, |b|, ReadMessagePayload, data + segments)
  {
    AtWhole(b);
    AtSplit(b, 0, TypeLine(t), DataLines(segments));
    TypeLineStep(b, t, data);
    ParseFromStep(b, 0, ReadMessageType, data, Text, Next(|TypeLine(t)|, ReadMessagePayload, data, t));
    PayloadLinesAtEnd(b, |TypeLine(t)|, segments, data, t);
  }

  /** The blank line handed over alone in the payload phase is one more,
      empty, segment: the call is `Incomplete` and the phase stays at payload. */
  lemma BlankLineAloneInPayloadPhase(data: seq<seq<byte>>)
    ensures Parse(ReadMessagePayload, data, CRLF) == Outcome(Incomplete, 2, 2, ReadMessagePayload, data + [[]])
  {
    AtWhole(CRLF);
    BlankPayloadLineStep(CRLF, 0, data, Text);
    ParseFromStep(CRLF, 0, ReadMessagePayload, data, Text, Next(2, ReadMessagePayload, data + [[]], Text));
  }

  /** A frame that completes in one call never completes when it is split
      right after its last payload line: the first call waits in the payload
      phase, and the second takes the blank line for an empty segment and
      waits again. */
  lemma FrameSplitAfterPayloadNeverCompletes(t: MessageType, segments: seq<seq<byte>>)
    requires segments != [] && Writable(segments)
    ensures Parse(ReadMessageType, [], Frame(t, segments)).result.Completed?
    ensures var first := TypeLine(t) + DataLines(segments);
      var o := Parse(ReadMessageType, [], first);
      o == Outcome(Incomplete, |first|, |first|, ReadMessagePayload, segments)
      && Parse(o.phase, o.data, CRLF) == Outcome(Incomplete, 2, 2, ReadMessagePayload, segments + [[]])
  {
    AtWhole(Frame(t, segments));
    FrameCompletes(t, segments, Frame(t, segments), []);
    assert [] + segments == segments;
    TypeAndPayloadLinesAtEnd(t, segments, TypeLine(t) + DataLines(segments), []);
    BlankLineAloneInPayloadPhase(segments);
  }

  lemma FrameSplit(t: MessageType, segments: seq<seq<byte>>, b: seq<byte>)
    requires At(b, 0, Frame(t, segments))
    ensures At(b, 0, TypeLine(t)) && At(b, |TypeLine(t)|, DataLines(segments) + CRLF)
  {
    assert Frame(t, segments) == TypeLine(t) + (DataLines(segments) + CRLF);
    AtSplit(b, 0, TypeLine(t), DataLines(segments) + CRLF);
  }

  /** A type line "data: <c>\r\n" sets the local message type and moves to the payload phase. */
  lemma TypeLineStep(b: seq<byte>, t: MessageType, data: seq<seq<byte>>)
    requires At(b, 0, TypeLine(t))
    ensures LineStep(b, 0, ReadMessageType, data, Text) == Next(|TypeLine(t)|, ReadMessagePayload, data, t)
  {
    var typeLine := TypeLine(t);
    assert typeLine[..|typeLine| - 1] == DataPrefix + [TypeChar(t), CR];
    FindLineEnd(b, 0, typeLine);
    assert b[0..|typeLine| - 2] == typeLine[..|typeLine| - 2] == DataPrefix + [TypeChar(t)];
    assert GetMessageType(DataPrefix + [TypeChar(t)]) == Success(t);
  }

  // ---------------------------------------------------------------------
  // The literal cases of the parser tests

  lemma FlattenOne(s: seq<byte>)
    ensures Flatten([s]) == s
  {
    assert [s][..0] == [];
  }

  lemma FlattenTwo(s1: seq<byte>, s2: seq<byte>)
    ensures Flatten([s1, s2]) == s1 + s2
  {
    assert [s1, s2][..1] == [s1];
    FlattenOne(s1);
  }

  // The lines of the test inputs, one literal at a time.

  lemma TextTypeLine() ensures Ascii("data: T\r\n") == TypeLine(Text) { }
  lemma ErrorTypeLine() ensures Ascii("data: E\r\n") == TypeLine(Error) { }
  lemma HelloWorldLine()
    ensures Ascii("data: Hello, World\r\n") == DataLine(Ascii("Hello, World")) { }
  lemma HelloLine() ensures Ascii("data: Hello\r\n") == DataLine(Ascii("Hello")) { }
  lemma CommaWorldLine() ensures Ascii("data: , World\r\n") == DataLine(Ascii(", World")) { }
  lemma HelloCommaWorld() ensures Ascii("Hello") + Ascii(", World") == Ascii("Hello, World")
  {
    AsciiAppend("Hello", ", World");
    assert "Hello" + ", World" == "Hello, World";
  }

  lemma OneSegmentText()
    ensures Ascii("data: T\r\ndata: Hello, World\r\n\r\n") == Frame(Text, [Ascii("Hello, World")])
  {
    assert "data: T\r\ndata: Hello, World\r\n\r\n" == "data: T\r\n" + "data: Hello, World\r\n" + "\r\n";
    AsciiAppend("data: T\r\n" + "data: Hello, World\r\n", "\r\n");
    AsciiAppend("data: T\r\n", "data: Hello, World\r\n");
    TextTypeLine();
    HelloWorldLine();
    BlankLine();
    DataLinesOne(Ascii("Hello, World"));
  }

  lemma OneSegmentError()
    ensures Ascii("data: E\r\ndata: Hello, World\r\n\r\n") == Frame(Error, [Ascii("Hello, World")])
  {
    assert "data: E\r\ndata: Hello, World\r\n\r\n" == "data: E\r\n" + "data: Hello, World\r\n" + "\r\n";
    AsciiAppend("data: E\r\n" + "data: Hello, World\r\n", "\r\n");
    AsciiAppend("data: E\r\n", "data: Hello, World\r\n");
    ErrorTypeLine();
    HelloWorldLine();
    BlankLine();
    DataLinesOne(Ascii("Hello, World"));
  }

  lemma TwoSegmentsText()
    ensures Ascii("data: T\r\ndata: Hello\r\ndata: , World\r\n\r\n")
         == Frame(Text, [Ascii("Hello"), Ascii(", World")])
  {
    assert "data: T\r\ndata: Hello\r\ndata: , World\r\n\r\n"
        == "data: T\r\n" + "data: Hello\r\n" + "data: , World\r\n" + "\r\n";
    AsciiAppend("data: T\r\n" + "data: Hello\r\n" + "data: , World\r\n", "\r\n");
    AsciiAppend("data: T\r\n" + "data: Hello\r\n", "data: , World\r\n");
    AsciiAppend("data: T\r\n", "data: Hello\r\n");
    TextTypeLine();
    HelloLine();
    CommaWorldLine();
    BlankLine();
    DataLinesTwo(Ascii("Hello"), Ascii(", World"));
  }

  /** "data: T\r\ndata: Hello, World\r\n\r\n" gives a Text message "Hello, World". */
  lemma ParsesOneSegment()
    ensures var b := Ascii("data: T\r\ndata: Hello, World\r\n\r\n");
      Parse(ReadMessageType, [], b)
        == Outcome(Completed(Message(Ascii("Hello, World"), Text)), |b|, |b|, ReadEndOfMessage, [Ascii("Hello, World")])
  {
    var b, hello := Ascii("data: T\r\ndata: Hello, World\r\n\r\n"), Ascii("Hello, World");
    OneSegmentText();
    AtWhole(b);
    FrameCompletes(Text, [hello], b, []);
    FlattenOne(hello);
  }

  /** "data: T\r\ndata: Hello\r\ndata: , World\r\n\r\n": the two segments are
      joined with no separator, giving "Hello, World" again. */
  lemma ParsesTwoSegments()
    ensures var b := Ascii("data: T\r\ndata: Hello\r\ndata: , World\r\n\r\n");
      var o := Parse(ReadMessageType, [], b);
      o.result == Completed(Message(Ascii("Hello, World"), Text)) && o.consumed == |b|
  {
    var b := Ascii("data: T\r\ndata: Hello\r\ndata: , World\r\n\r\n");
    TwoSegmentsText();
    AtWhole(b);
    FrameCompletes(Text, [Ascii("Hello"), Ascii(", World")], b, []);
    FlattenTwo(Ascii("Hello"), Ascii(", World"));
    HelloCommaWorld();
  }

  /** "data: E\r\ndata: Hello, World\r\n\r\n" gives an Error message. */
  lemma ParsesErrorMessage()
    ensures Parse(ReadMessageType, [], Ascii("data: E\r\ndata: Hello, World\r\n\r\n")).result
      == Completed(Message(Ascii("Hello, World"), Error))
  {
    var b, hello := Ascii("data: E\r\ndata: Hello, World\r\n\r\n"), Ascii("Hello, World");
    OneSegmentError();
    AtWhole(b);
    FrameCompletes(Error, [hello], b, []);
    FlattenOne(hello);
  }

  /** A type line whose seventh byte names no type is "Unknown message type: '<c>'". */
  lemma UnknownTypeLine(c: byte, b: seq<byte>, data: seq<seq<byte>>)
    requires At(b, 0, DataPrefix + [c] + CRLF) && c != LF && forall t :: TypeChar(t) != c
    ensures Parse(ReadMessageType, data, b) == Outcome(FormatException(UnknownMessageType(c)), 0, |b|, ReadMessageType, data)
  {
    var line := DataPrefix + [c] + CRLF;
    assert FindLF(b, 0) == Some(8) by {
      assert line[..|line| - 1] == DataPrefix + [c, CR];
      assert LF !in line[..|line| - 1];
      FindLineEnd(b, 0, line);
    }
    assert b[0..7] == line[..7] == DataPrefix + [c];
    GetMessageTypeSpec(DataPrefix + [c]);
    ParseFromStep(b, 0, ReadMessageType, data, Text, LineStep(b, 0, ReadMessageType, data, Text));
  }

  /** "data: X\r\n\r\n" is the error "Unknown message type: 'X'". */
  lemma RejectsUnknownType()
    ensures var o := Parse(ReadMessageType, [], Ascii("data: X\r\n\r\n"));
      o.result == FormatException(UnknownMessageType(88))
      && Reason(o.result.error) == "Unknown message type: 'X'"
  {
    var b := Ascii("data: X\r\n\r\n");
    assert b[0..9] == DataPrefix + [88] + CRLF;
    UnknownTypeLine(88, b, []);
  }

  /** A type line ended by a bare LF, "data: T\n", is two bytes short once its
      last two bytes are dropped: "There was an error parsing the message type". */
  lemma RejectsBareLineFeedTypeLine()
    ensures var o := Parse(ReadMessageType, [], Ascii("data: T\n"));
      o.result == FormatException(BadTypeLine)
      && Reason(o.result.error) == "There was an error parsing the message type"
  {
    FindLFAt(Ascii("data: T\n"), 0, 7);
    WrongLengthTypeLine([], Ascii("data: T\n"), 7);
  }

  /** "" and "data:" are incomplete and consume nothing. */
  lemma EmptyAndPartialAreIncomplete()
    ensures Parse(ReadMessageType, [], Ascii("")) == Outcome(Incomplete, 0, 0, ReadMessageType, [])
    ensures Parse(ReadMessageType, [], Ascii("data:")) == Outcome(Incomplete, 0, 5, ReadMessageType, [])
  {
    NoLineFeedIsIncomplete(ReadMessageType, [], Ascii("data:"));
  }

  /** A blank line read in the payload phase at the end of the buffer adds an
      empty segment, and the peek past it finds no CR. */
  lemma BlankPayloadLineStep(b: seq<byte>, start: nat, data: seq<seq<byte>>, t: MessageType)
    requires At(b, start, CRLF) && start + 2 == |b|
    ensures LineStep(b, start, ReadMessagePayload, data, t) == Next(start + 2, ReadMessagePayload, data + [[]], t)
  {
    assert CRLF[..1] == [CR];
    FindLineEnd(b, start, CRLF);
    var segment := PayloadSegment(b[start..start]);
    assert segment == [] by {
      assert b[start..start] == [];
      assert PayloadSegment([]) == [];
    }
    assert Peek(b, start + 2) != CR as int;
    PayloadLineStepAt(b, start, data, t, start + 1);
  }

  /** A line of two or more bytes read in the payload phase. */
  lemma PayloadLineStepAt(b: seq<byte>, start: nat, data: seq<seq<byte>>, t: MessageType, lf: nat)
    requires start < |b| && FindLF(b, start) == Some(lf) && start + 1 <= lf
    ensures var next := if Peek(b, lf + 1) == CR as int then ReadEndOfMessage else ReadMessagePayload;
      LineStep(b, start, ReadMessagePayload, data, t)
        == Next(lf + 1, next, data + [PayloadSegment(b[start..lf - 1])], t)
  {
  }

  lemma TypeLineThenBlank()
    ensures Ascii("data: T\r\n\r\n") == TypeLine(Text) + CRLF
  {
    assert "data: T\r\n\r\n" == "data: T\r\n" + "\r\n";
    AsciiAppend("data: T\r\n", "\r\n");
    TextTypeLine();
    BlankLine();
  }

  lemma HelloWorldPayload()
    ensures Ascii("data: Hello, World\r\n\r\n") == DataLines([Ascii("Hello, World")]) + CRLF
  {
    assert "data: Hello, World\r\n\r\n" == "data: Hello, World\r\n" + "\r\n";
    AsciiAppend("data: Hello, World\r\n", "\r\n");
    HelloWorldLine();
    BlankLine();
    DataLinesOne(Ascii("Hello, World"));
  }

  /** "data: T\r\n\r\n" does not complete: the blank line is read as an empty
      payload segment, and the peek for CR then finds the end of the buffer. */
  lemma EmptyPayloadFrameIsIncomplete()
    ensures Parse(ReadMessageType, [], Ascii("data: T\r\n\r\n"))
      == Outcome(Incomplete, 11, 11, ReadMessagePayload, [[]])
  {
    TypeLineThenBlank();
    TypeLineThenBlankAtEnd(Ascii("data: T\r\n\r\n"), Text);
  }

  /** A type line and then a blank line that ends the buffer: the blank line
      is read as an empty payload segment and the call asks for more data. */
  lemma TypeLineThenBlankAtEnd(b: seq<byte>, t: MessageType)
    requires b == TypeLine(t) + CRLF
    ensures Parse(ReadMessageType, [], b)
      == Outcome(Incomplete, |b|, |b|, ReadMessagePayload, [[]])
  {
    var n := |TypeLine(t)|;
    assert At(b, 0, TypeLine(t)) && At(b, n, CRLF) by {
      AtWhole(b);
      AtSplit(b, 0, TypeLine(t), CRLF);
    }
    TypeLineStep(b, t, []);
    ParseFromStep(b, 0, ReadMessageType, [], Text, Next(n, ReadMessagePayload, [], t));
    BlankPayloadLineStep(b, n, [], t);
    ParseFromStep(b, n, ReadMessagePayload, [], t, Next(n + 2, ReadMessagePayload, [[]], t));
  }

  /** A type line alone is consumed and leaves the parser in the payload
      phase; the type it names is held only in a local of the call. */
  lemma TypeLineAloneIsIncomplete()
    ensures Parse(ReadMessageType, [], Ascii("data: E\r\n"))
      == Outcome(Incomplete, 9, 9, ReadMessagePayload, [])
  {
    var b := Ascii("data: E\r\n");
    ErrorTypeLine();
    AtWhole(b);
    TypeLineStep(b, Error, []);
    ParseFromStep(b, 0, ReadMessageType, [], Text, Next(9, ReadMessagePayload, [], Error));
  }

  /** The message type is a local of each call: after the call above, the
      next call reports Text, not the Error its type line named. */
  lemma TypeOfEarlierCallIsLost()
    ensures Parse(ReadMessagePayload, [], Ascii("data: Hello, World\r\n\r\n")).result
      == Completed(Message(Ascii("Hello, World"), Text))
  {
    var b, hello := Ascii("data: Hello, World\r\n\r\n"), Ascii("Hello, World");
    HelloWorldPayload();
    AtWhole(b);
    assert Writable([hello]) by { assert [hello][0] == hello; }
    PayloadLinesComplete(b, 0, [hello], [], Text);
    FlattenOne(hello);
  }

  // ---------------------------------------------------------------------
  // Properties of every call

  /** With no LF in the buffer nothing is read: Incomplete, nothing consumed,
      and the fields are unchanged. */
  lemma NoLineFeedIsIncomplete(phase: Phase, data: seq<seq<byte>>, b: seq<byte>)
    requires NoLF(b, 0, |b|)
    ensures Parse(phase, data, b) == Outcome(Incomplete, 0, |b|, phase, data)
  {
  }

  /** A first line whose length is neither 1 nor 9 cannot be a type line. */
  lemma WrongLengthTypeLine(data: seq<seq<byte>>, b: seq<byte>, lf: nat)
    requires FindLF(b, 0) == Some(lf) && lf != 0 && lf != 8
    ensures Parse(ReadMessageType, data, b) == Outcome(FormatException(BadTypeLine), 0, |b|, ReadMessageType, data)
  {
  }

  /** The cursors of every call: `examined` is the end of the buffer,
      `consumed` is the buffer start or just past an LF, and a completed
      message consumes the whole buffer. */
  lemma {:induction false} CursorsFrom(b: seq<byte>, start: nat, phase: Phase,
                                       data: seq<seq<byte>>, t: MessageType)
    requires LineStart(b, start)
    ensures var o := ParseFrom(b, start, phase, data, t);
      o.examined == |b| && start <= o.consumed <= |b|
      && (o.result.Completed? ==> o.consumed == |b|)
      && (!o.result.Completed? ==> LineStart(b, o.consumed))
    decreases |b| - start
  {
    if start < |b| {
      var step := LineStep(b, start, phase, data, t);
      ParseFromStep(b, start, phase, data, t, step);
      if step.Next? {
        assert LineStart(b, step.lineEnd);
        CursorsFrom(b, step.lineEnd, step.phase, step.data, step.messageType);
      }
    }
  }

  lemma Cursors(phase: Phase, data: seq<seq<byte>>, b: seq<byte>)
    ensures var o := Parse(phase, data, b);
      o.examined == |b| && o.consumed <= |b|
      && (o.result.Completed? ==> o.consumed == |b|)
      && (!o.result.Completed? ==> o.consumed == 0 || b[o.consumed - 1] == LF)
  {
    CursorsFrom(b, 0, phase, data, Text);
  }

  /** The parser only ever appends to the segment list, and a state it can
      reach leads only to states it can reach. */
  lemma {:induction false} AppendOnlyFrom(b: seq<byte>, start: nat, phase: Phase,
                                          data: seq<seq<byte>>, t: MessageType)
    requires start <= |b|
    ensures var o := ParseFrom(b, start, phase, data, t);
      |data| <= |o.data| && o.data[..|data|] == data
      && (Reachable(phase, data) ==> Reachable(o.phase, o.data))
    decreases |b| - start
  {
    if start < |b| {
      match LineStep(b, start, phase, data, t)
      case Stop(_) =>
      case Next(lineEnd, phase', data', t') =>
        AppendOnlyFrom(b, lineEnd, phase', data', t');
        assert data'[..|data|] == data;
    }
  }

  lemma AppendOnly(phase: Phase, data: seq<seq<byte>>, b: seq<byte>)
    ensures var o := Parse(phase, data, b);
      |data| <= |o.data| && o.data[..|data|] == data
      && (Reachable(phase, data) ==> Reachable(o.phase, o.data))
  {
    AppendOnlyFrom(b, 0, phase, data, Text);
  }

  /** From a reachable state, Incomplete means no LF is left after `consumed`. */
  lemma {:induction false} IncompleteFrom(b: seq<byte>, start: nat, phase: Phase,
                                          data: seq<seq<byte>>, t: MessageType)
    requires start <= |b| && Reachable(phase, data)
    ensures var o := ParseFrom(b, start, phase, data, t);
      o.result.Incomplete? ==> start <= o.consumed <= |b| && NoLF(b, o.consumed, |b|)
    decreases |b| - start
  {
    if start < |b| {
      match LineStep(b, start, phase, data, t)
      case Stop(_) =>
      case Next(lineEnd, phase', data', t') =>
        IncompleteFrom(b, lineEnd, phase', data', t');
    }
  }

  lemma IncompleteMeansNoLineFeed(phase: Phase, data: seq<seq<byte>>, b: seq<byte>)
    requires Reachable(phase, data)
    ensures var o := Parse(phase, data, b);
      o.result.Incomplete? ==> o.consumed <= |b| && NoLF(b, o.consumed, |b|)
  {
    IncompleteFrom(b, 0, phase, data, Text);
  }

  /** Past the type phase the local message type is never set again, so a call
      that starts there completes only with Text. */
  lemma {:induction false} TypeFixedFrom(b: seq<byte>, start: nat, phase: Phase,
                                         data: seq<seq<byte>>, t: MessageType)
    requires start <= |b| && phase != ReadMessageType
    ensures var o := ParseFrom(b, start, phase, data, t);
      o.result.Completed? ==> o.result.message.messageType == t
    decreases |b| - start
  {
    if start < |b| {
      match LineStep(b, start, phase, data, t)
      case Stop(_) =>
      case Next(lineEnd, phase', data', t') =>
        TypeFixedFrom(b, lineEnd, phase', data', t');
    }
  }

  lemma LaterCallsCompleteAsText(phase: Phase, data: seq<seq<byte>>, b: seq<byte>)
    requires phase != ReadMessageType
    ensures var o := Parse(phase, data, b);
      o.result.Completed? ==> o.result.message.messageType == Text
  {
    TypeFixedFrom(b, 0, phase, data, Text);
  }

  /** Completing does not reset the parser: the phase stays ReadEndOfMessage
      and the payload is exactly the segments still held. */
  lemma {:induction false} CompletedKeepsStateFrom(b: seq<byte>, start: nat, phase: Phase,
                                                   data: seq<seq<byte>>, t: MessageType)
    requires start <= |b|
    ensures var o := ParseFrom(b, start, phase, data, t);
      o.result.Completed? ==>
        o.phase == ReadEndOfMessage && o.data != [] && o.result.message.payload == Flatten(o.data)
    decreases |b| - start
  {
    if start < |b| {
      match LineStep(b, start, phase, data, t)
      case Stop(_) =>
      case Next(lineEnd, phase', data', t') =>
        CompletedKeepsStateFrom(b, lineEnd, phase', data', t');
    }
  }

  lemma CompletedKeepsState(phase: Phase, data: seq<seq<byte>>, b: seq<byte>)
    ensures var o := Parse(phase, data, b);
      o.result.Completed? ==>
        o.phase == ReadEndOfMessage && o.data != [] && o.result.message.payload == Flatten(o.data)
  {
    CompletedKeepsStateFrom(b, 0, phase, data, Text);
  }

  /** Without a Reset, the next call completes again at its first line of two
      or more bytes, with the old segments and type Text. */
  lemma CompletesAgainWithoutReset(data: seq<seq<byte>>, b: seq<byte>, lf: nat)
    requires data != [] && FindLF(b, 0) == Some(lf) && lf >= 1
    ensures Parse(ReadEndOfMessage, data, b)
      == Outcome(Completed(Message(Flatten(data), Text)), |b|, |b|, ReadEndOfMessage, data)
  {
  }

  /** Every type has a type line that names it. */
  lemma TypeLineRoundTrip(t: MessageType)
    ensures GetMessageType(DataPrefix + [TypeChar(t)]) == Success(t)
  {
  }
}
