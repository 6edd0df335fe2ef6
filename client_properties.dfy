/** Properties of the untyped frame parser of Microsoft.AspNetCore.Sockets.Client.Http,
    stated about the function `Parse` that `ParseMessage` is proved to follow. */
module SocketsClientProperties {
  import opened Buffers
  import opened Lines
  import opened SocketsClient

  // ---------------------------------------------------------------------
  // One line at a time

  /** A line starting with ':' is a comment: the loop goes on past its LF
      with the phase and the segments unchanged. */
  lemma CommentLineStep(b: seq<byte>, start: nat, phase: Phase, data: seq<seq<byte>>,
                        newLine: seq<byte>, lf: nat)
    requires start < |b| && b[start] == Colon && FindLF(b, start) == Some(lf)
    ensures LineStep(b, start, phase, data, newLine) == Next(lf + 1, phase, data)
  {
    var line := b[start..lf + 1];
    assert |line| > 1 && line[0] == Colon;
  }

  /** So a comment line leaves the rest of the call as if it were not there. */
  lemma CommentLineSkipped(b: seq<byte>, start: nat, phase: Phase, data: seq<seq<byte>>,
                           newLine: seq<byte>, lf: nat)
    requires start < |b| && b[start] == Colon && FindLF(b, start) == Some(lf)
    ensures ParseFrom(b, start, phase, data, newLine) == ParseFrom(b, lf + 1, phase, data, newLine)
  {
    CommentLineStep(b, start, phase, data, newLine, lf);
    ParseFromStep(b, start, phase, data, newLine, Next(lf + 1, phase, data));
  }

  /** A line that is only "\n" is "There was an error in the frame format". */
  lemma BareLineFeedIsFrameFormat(b: seq<byte>, start: nat, phase: Phase, data: seq<seq<byte>>,
                                  newLine: seq<byte>)
    requires start < |b| && b[start] == LF
    ensures ParseFrom(b, start, phase, data, newLine)
        == Outcome(FormatException(FrameFormat), start, |b|, phase, data)
  {
    FindLFAt(b, start, start);
    ParseFromStep(b, start, phase, data, newLine, LineStep(b, start, phase, data, newLine));
  }

  /** A line of two or more bytes, not a comment, whose LF has no CR before it
      is the "Unexpected '\n'" error. */
  lemma LineFeedWithoutReturn(b: seq<byte>, start: nat, phase: Phase, data: seq<seq<byte>>,
                              newLine: seq<byte>, lf: nat)
    requires start <= |b| && FindLF(b, start) == Some(lf) && start < lf && b[start] != Colon && b[lf - 1] != CR
    ensures ParseFrom(b, start, phase, data, newLine)
        == Outcome(FormatException(UnexpectedLineFeed), start, |b|, phase, data)
  {
    var line := b[start..lf + 1];
    assert line[0] == b[start] && line[|line| - 2] == b[lf - 1];
    ParseFromStep(b, start, phase, data, newLine, LineStep(b, start, phase, data, newLine));
  }

  /** A line ended by CRLF that is neither a comment nor the blank line and
      does not start with "data: " is "Expected the message prefix 'data: '". */
  lemma MissingPrefixLine(b: seq<byte>, start: nat, phase: Phase, data: seq<seq<byte>>,
                          newLine: seq<byte>, lf: nat)
    requires start <= |b| && FindLF(b, start) == Some(lf) && start + 1 < lf
    requires b[start] != Colon && b[lf - 1] == CR && !StartsWithDataPrefix(b[start..lf + 1])
    ensures ParseFrom(b, start, phase, data, newLine)
        == Outcome(FormatException(MissingDataPrefix), start, |b|, phase, data)
  {
    var line := b[start..lf + 1];
    assert line[0] == b[start] && line[|line| - 2] == b[lf - 1];
    ParseFromStep(b, start, phase, data, newLine, LineStep(b, start, phase, data, newLine));
  }

  /** The segment of "data: <s>\r\n" is <s>. */
  lemma SegmentOfDataLine(s: seq<byte>)
    ensures Segment(DataLine(s)) == s
  {
    var line := DataLine(s);
    assert line[6..|line| - 2] == s;
  }

  /** A payload line "data: <s>\r\n" read in the payload phase appends <s> to
      the segments, and the byte after it decides whether the end of the
      message comes next. */
  lemma DataLineStep(b: seq<byte>, start: nat, s: seq<byte>, data: seq<seq<byte>>, newLine: seq<byte>)
    requires At(b, start, DataLine(s)) && LF !in s
    ensures var lineEnd := start + |DataLine(s)|;
      var next := if Peek(b, lineEnd) == CR as int then ReadEndOfMessage else ReadMessagePayload;
      LineStep(b, start, ReadMessagePayload, data, newLine) == Next(lineEnd, next, data + [s])
  {
    var line := DataLine(s);
    assert line[..|line| - 1] == DataPrefix + s + [CR];
    assert LF !in DataPrefix;
    FindLineEnd(b, start, line);
    assert b[start..start + |line|] == line;
    assert line[..|DataPrefix|] == DataPrefix;
    SegmentOfDataLine(s);
  }

  /** The blank line "\r\n" completes the message in either phase: the
      payload is the segments held, joined by the newline, and both cursors
      move just past the blank line. */
  lemma BlankLineStep(b: seq<byte>, start: nat, phase: Phase, data: seq<seq<byte>>, newLine: seq<byte>)
    requires At(b, start, CRLF)
    ensures LineStep(b, start, phase, data, newLine)
        == Stop(Outcome(Completed(Join(data, newLine)), start + 2, start + 2, ReadEndOfMessage, data))
  {
    assert CRLF[..1] == [CR];
    FindLineEnd(b, start, CRLF);
    assert b[start..start + 2] == CRLF;
  }

  // ---------------------------------------------------------------------
  // Whole frames

  /** Payload lines followed by the blank line complete the message: the
      segments are appended to those already held, the payload is all of
      them joined by the newline, and nothing after the blank line is
      consumed.  With no payload lines the blank line alone completes. */
  lemma {:induction false} FrameCompletes(b: seq<byte>, start: nat, segments: seq<seq<byte>>,
                                          data: seq<seq<byte>>, newLine: seq<byte>)
    requires At(b, start, DataLines(segments) + CRLF) && Writable(segments)
    ensures ParseFrom(b, start, ReadMessagePayload, data, newLine)
        == Outcome(Completed(Join(data + segments, newLine)), start + |DataLines(segments)| + 2,
                   start + |DataLines(segments)| + 2, ReadEndOfMessage, data + segments)
    decreases |segments|
  {
    if segments == [] {
      assert data + segments == data;
      BlankLineCompletes(b, start, data, newLine);
    } else {
      var s, more := segments[0], segments[1..];
      PayloadLinesSplit(b, start, segments);
      AppendFirst(data, segments);
      if more == [] {
        LastPayloadLine(b, start, s, data, newLine);
      } else {
        var next := start + |DataLine(s)|;
        FrameCompletes(b, next, more, data + [s], newLine);
        assert next + |DataLines(more)| == start + |DataLines(segments)|;
        PayloadLineThen(b, start, s, more, data, newLine,
                        Outcome(Completed(Join(data + [s] + more, newLine)), next + |DataLines(more)| + 2,
                                next + |DataLines(more)| + 2, ReadEndOfMessage, data + [s] + more));
      }
    }
  }

  /** Payload lines that end the buffer, read in the payload phase, are all
      consumed and their segments appended; the phase stays at payload,
      because the peek after the last line finds the end of the buffer. */
  lemma {:induction false} PayloadLinesAtEnd(b: seq<byte>, start: nat, segments: seq<seq<byte>>,
                                             data: seq<seq<byte>>, newLine: seq<byte>)
    requires At(b, start, DataLines(segments)) && start + |DataLines(segments)| == |b|
    requires Writable(segments)
    ensures ParseFrom(b, start, ReadMessagePayload, data, newLine)
        == Outcome(Incomplete, |b|, |b|, ReadMessagePayload, data + segments)
    decreases |segments|
  {
    if segments == [] {
      assert data + segments == data;
    } else {
      var s, more := segments[0], segments[1..];
      DataLinesSplit(b, start, segments);
      AppendFirst(data, segments);
      var next := start + |DataLine(s)|;
      assert Peek(b, next) != CR as int by {
        if more != [] {
          DataLinesFirst(more);
          AtFirst(b, next, DataLines(more));
        }
      }
      DataLineStep(b, start, s, data, newLine);
      ParseFromStep(b, start, ReadMessagePayload, data, newLine, Next(next, ReadMessagePayload, data + [s]));
      PayloadLinesAtEnd(b, next, more, data + [s], newLine);
    }
  }

  /** A frame handed over in two calls, split after a payload line: the
      first call waits in the payload phase with the first segments, and the
      second completes with all of them, as the frame read in one call does. */
  lemma FrameAcrossTwoCalls(first: seq<seq<byte>>, rest: seq<seq<byte>>, data: seq<seq<byte>>,
                            b1: seq<byte>, b2: seq<byte>, newLine: seq<byte>)
    requires b1 == DataLines(first) && At(b2, 0, DataLines(rest) + CRLF)
    requires Writable(first) && Writable(rest)
    ensures Parse(ReadMessagePayload, data, b1, newLine)
        == Outcome(Incomplete, |b1|, |b1|, ReadMessagePayload, data + first)
    ensures Parse(ReadMessagePayload, data + first, b2, newLine)
        == Outcome(Completed(Join(data + first + rest, newLine)), |DataLines(rest)| + 2,
                   |DataLines(rest)| + 2, ReadEndOfMessage, data + first + rest)
  {
    AtWhole(b1);
    PayloadLinesAtEnd(b1, 0, first, data, newLine);
    FrameCompletes(b2, 0, rest, data + first, newLine);
  }

  /** A payload line followed by more payload lines ends where the rest of
      the frame ends. */
  lemma PayloadLineThen(b: seq<byte>, start: nat, s: seq<byte>, more: seq<seq<byte>>,
                        data: seq<seq<byte>>, newLine: seq<byte>, rest: Outcome)
    requires At(b, start, DataLine(s)) && LF !in s
    requires At(b, start + |DataLine(s)|, DataLines(more) + CRLF) && more != []
    requires ParseFrom(b, start + |DataLine(s)|, ReadMessagePayload, data + [s], newLine) == rest
    ensures ParseFrom(b, start, ReadMessagePayload, data, newLine) == rest
  {
    NextPayloadLine(b, start, s, more, data, newLine);
  }

  /** The blank line right away in the payload phase. */
  lemma BlankLineCompletes(b: seq<byte>, start: nat, data: seq<seq<byte>>, newLine: seq<byte>)
    requires At(b, start, DataLines([]) + CRLF)
    ensures ParseFrom(b, start, ReadMessagePayload, data, newLine)
        == Outcome(Completed(Join(data, newLine)), start + 2, start + 2, ReadEndOfMessage, data)
  {
    assert DataLines([]) + CRLF == CRLF;
    BlankLineStep(b, start, ReadMessagePayload, data, newLine);
    ParseFromStep(b, start, ReadMessagePayload, data, newLine,
                  LineStep(b, start, ReadMessagePayload, data, newLine));
  }

  lemma PayloadLinesSplit(b: seq<byte>, start: nat, segments: seq<seq<byte>>)
    requires At(b, start, DataLines(segments) + CRLF)
    requires segments != [] && Writable(segments)
    ensures LF !in segments[0] && Writable(segments[1..])
    ensures |DataLines(segments)| == |DataLine(segments[0])| + |DataLines(segments[1..])|
    ensures At(b, start, DataLine(segments[0]))
    ensures At(b, start + |DataLine(segments[0])|, DataLines(segments[1..]) + CRLF)
  {
    var s, more := segments[0], segments[1..];
    assert LF !in s;
    assert DataLines(segments) + CRLF == DataLine(s) + (DataLines(more) + CRLF);
    AtSplit(b, start, DataLine(s), DataLines(more) + CRLF);
    forall i | 0 <= i < |more| ensures LF !in more[i] {
      assert more[i] == segments[i + 1];
    }
  }

  /** The last payload line, then the blank line. */
  lemma LastPayloadLine(b: seq<byte>, start: nat, s: seq<byte>, data: seq<seq<byte>>, newLine: seq<byte>)
    requires At(b, start, DataLine(s)) && LF !in s
    requires At(b, start + |DataLine(s)|, DataLines([]) + CRLF)
    ensures ParseFrom(b, start, ReadMessagePayload, data, newLine)
        == Outcome(Completed(Join(data + [s], newLine)), start + |DataLine(s)| + 2,
                   start + |DataLine(s)| + 2, ReadEndOfMessage, data + [s])
  {
    var lineEnd := start + |DataLine(s)|;
    assert At(b, lineEnd, CRLF) && Peek(b, lineEnd) == CR as int by {
      assert b[lineEnd..lineEnd + 2] == CRLF;
    }
    assert ParseFrom(b, start, ReadMessagePayload, data, newLine)
        == ParseFrom(b, lineEnd, ReadEndOfMessage, data + [s], newLine) by {
      DataLineStep(b, start, s, data, newLine);
      ParseFromStep(b, start, ReadMessagePayload, data, newLine,
                    LineStep(b, start, ReadMessagePayload, data, newLine));
    }
    BlankLineStep(b, lineEnd, ReadEndOfMessage, data + [s], newLine);
    ParseFromStep(b, lineEnd, ReadEndOfMessage, data + [s], newLine,
                  LineStep(b, lineEnd, ReadEndOfMessage, data + [s], newLine));
  }

  /** A payload line followed by another payload line. */
  lemma NextPayloadLine(b: seq<byte>, start: nat, s: seq<byte>, more: seq<seq<byte>>,
                        data: seq<seq<byte>>, newLine: seq<byte>)
    requires At(b, start, DataLine(s)) && LF !in s
    requires At(b, start + |DataLine(s)|, DataLines(more) + CRLF) && more != []
    ensures ParseFrom(b, start, ReadMessagePayload, data, newLine)
        == ParseFrom(b, start + |DataLine(s)|, ReadMessagePayload, data + [s], newLine)
  {
    var lineEnd := start + |DataLine(s)|;
    assert Peek(b, lineEnd) == 100 by {
      DataLinesFirst(more);
      AtFirst(b, lineEnd, DataLines(more) + CRLF);
    }
    assert LineStep(b, start, ReadMessagePayload, data, newLine)
        == Next(lineEnd, ReadMessagePayload, data + [s]) by {
      DataLineStep(b, start, s, data, newLine);
    }
    ParseFromStep(b, start, ReadMessagePayload, data, newLine,
                  LineStep(b, start, ReadMessagePayload, data, newLine));
  }

  /** Without a Reset the phase stays ReadEndOfMessage after a message, and
      the next payload line completes again with the old segments. */
  lemma CompletesAgainWithoutReset(b: seq<byte>, s: seq<byte>, data: seq<seq<byte>>, newLine: seq<byte>)
    requires At(b, 0, DataLine(s)) && LF !in s
    ensures Parse(ReadEndOfMessage, data, b, newLine)
        == Outcome(Completed(Join(data, newLine)), |DataLine(s)|,
                   |DataLine(s)|, ReadEndOfMessage, data)
  {
    var line := DataLine(s);
    assert line[..|line| - 1] == DataPrefix + s + [CR];
    assert LF !in DataPrefix;
    FindLineEnd(b, 0, line);
    assert b[0..|line|] == line;
    assert line[..|DataPrefix|] == DataPrefix;
    ParseFromStep(b, 0, ReadEndOfMessage, data, newLine, LineStep(b, 0, ReadEndOfMessage, data, newLine));
  }

  // ---------------------------------------------------------------------
  // The payload join

  lemma JoinNone(newLine: seq<byte>)
    ensures Join([], newLine) == []
  {
  }

  lemma JoinOne(s: seq<byte>, newLine: seq<byte>)
    ensures Join([s], newLine) == s
  {
  }

  lemma JoinTwo(s1: seq<byte>, s2: seq<byte>, newLine: seq<byte>)
    ensures Join([s1, s2], newLine) == s1 + newLine + s2
  {
    assert [s1, s2][..1] == [s1];
  }

  // ---------------------------------------------------------------------
  // Literal inputs

  lemma FooLine() ensures Ascii("data: foo\r\n") == DataLine(Ascii("foo")) { }
  lemma BarLine() ensures Ascii("data: bar\r\n") == DataLine(Ascii("bar")) { }

  lemma FooAndReturn()
    ensures Ascii("data: foo\r\n\r") == DataLine(Ascii("foo")) + [CR]
  {
    assert "data: foo\r\n\r" == "data: foo\r\n" + "\r";
    AsciiAppend("data: foo\r\n", "\r");
    FooLine();
  }

  lemma FooAndReturnX()
    ensures Ascii("data: foo\r\n\rX") == DataLine(Ascii("foo")) + [CR, 88]
  {
    assert "data: foo\r\n\rX" == "data: foo\r\n" + "\rX";
    AsciiAppend("data: foo\r\n", "\rX");
    FooLine();
  }

  /** The payload line, then CR read on its own: the phase is
      ReadEndOfMessage, and the segment waits for the rest of the frame. */
  lemma FooLineThen(b: seq<byte>)
    requires At(b, 0, DataLine(Ascii("foo"))) && |b| > 11 && b[11] == CR
    ensures Parse(ReadMessagePayload, [], b, [LF]) == ParseFrom(b, 11, ReadEndOfMessage, [Ascii("foo")], [LF])
  {
    DataLineStep(b, 0, Ascii("foo"), [], [LF]);
    ParseFromStep(b, 0, ReadMessagePayload, [], [LF], LineStep(b, 0, ReadMessagePayload, [], [LF]));
  }

  /** "data: foo\r\n\r" waits for more: one byte after the payload line is not
      yet a broken frame ending. */
  lemma ReturnAloneIsIncomplete()
    ensures Parse(ReadMessagePayload, [], Ascii("data: foo\r\n\r"), [LF])
        == Outcome(Incomplete, 11, 12, ReadEndOfMessage, [Ascii("foo")])
  {
    var b := Ascii("data: foo\r\n\r");
    FooAndReturn();
    assert At(b, 0, DataLine(Ascii("foo")));
    FooLineThen(b);
    assert FindLF(b, 11) == None;
    ParseFromStep(b, 11, ReadEndOfMessage, [Ascii("foo")], [LF],
                  LineStep(b, 11, ReadEndOfMessage, [Ascii("foo")], [LF]));
  }

  /** "data: foo\r\n\rX" is "Expected a \r\n frame ending": two bytes after
      the payload line with no LF among them. */
  lemma StrayByteIsFrameEndingError()
    ensures var o := Parse(ReadMessagePayload, [], Ascii("data: foo\r\n\rX"), [LF]);
      o == Outcome(FormatException(FrameEndingExpected), 11, 13, ReadEndOfMessage, [Ascii("foo")])
      && Reason(o.result.error) == "Expected a \\r\\n frame ending"
  {
    var b := Ascii("data: foo\r\n\rX");
    FooAndReturnX();
    assert At(b, 0, DataLine(Ascii("foo")));
    FooLineThen(b);
    assert FindLF(b, 11) == None;
    ParseFromStep(b, 11, ReadEndOfMessage, [Ascii("foo")], [LF],
                  LineStep(b, 11, ReadEndOfMessage, [Ascii("foo")], [LF]));
  }

  lemma TwoLinesFrame()
    ensures Ascii("data: foo\r\ndata: bar\r\n\r\n") == DataLines([Ascii("foo"), Ascii("bar")]) + CRLF
  {
    assert "data: foo\r\ndata: bar\r\n\r\n" == "data: foo\r\n" + "data: bar\r\n" + "\r\n";
    AsciiAppend("data: foo\r\n" + "data: bar\r\n", "\r\n");
    AsciiAppend("data: foo\r\n", "data: bar\r\n");
    FooLine();
    BarLine();
    BlankLine();
    DataLinesTwo(Ascii("foo"), Ascii("bar"));
  }

  /** "data: foo\r\ndata: bar\r\n\r\n" gives "foo", the newline, "bar". */
  lemma ParsesTwoSegments(newLine: NewLine)
    ensures var b := Ascii("data: foo\r\ndata: bar\r\n\r\n");
      Parse(ReadMessagePayload, [], b, newLine).result == Completed(Ascii("foo") + newLine + Ascii("bar"))
  {
    var b, segments := Ascii("data: foo\r\ndata: bar\r\n\r\n"), [Ascii("foo"), Ascii("bar")];
    TwoLinesFrame();
    AtWhole(b);
    assert Writable(segments) by {
      assert segments[0] == Ascii("foo") && segments[1] == Ascii("bar");
    }
    FrameCompletes(b, 0, segments, [], newLine);
    assert [] + segments == segments;
    JoinTwo(Ascii("foo"), Ascii("bar"), newLine);
  }

  lemma CommentThenFooBytes()
    ensures Ascii(": hi\r\ndata: foo\r\n\r\n") == Ascii(": hi\r\n") + (DataLines([Ascii("foo")]) + CRLF)
  {
    assert ": hi\r\ndata: foo\r\n\r\n" == ": hi\r\n" + ("data: foo\r\n" + "\r\n");
    AsciiAppend(": hi\r\n", "data: foo\r\n" + "\r\n");
    AsciiAppend("data: foo\r\n", "\r\n");
    FooLine();
    BlankLine();
    DataLinesOne(Ascii("foo"));
  }

  /** Where the lines of ": hi\r\ndata: foo\r\n\r\n" sit. */
  lemma CommentThenFooFrame()
    ensures var b := Ascii(": hi\r\ndata: foo\r\n\r\n");
      b[0] == Colon && FindLF(b, 0) == Some(5) && At(b, 6, DataLines([Ascii("foo")]) + CRLF)
  {
    CommentThenFooBytes();
    assert Ascii(": hi\r\n") == [58, 32, 104, 105, 13, 10];
    CommentLineAt(Ascii(": hi\r\ndata: foo\r\n\r\n"), Ascii(": hi\r\n"), DataLines([Ascii("foo")]) + CRLF);
  }

  /** A comment line at the start of a buffer: its colon comes first, its
      LF is the first one, and the rest of the buffer follows it. */
  lemma CommentLineAt(b: seq<byte>, comment: seq<byte>, rest: seq<byte>)
    requires b == comment + rest && |comment| > 1 && comment[0] == Colon
    requires comment[|comment| - 1] == LF && LF !in comment[..|comment| - 1]
    ensures b[0] == Colon && FindLF(b, 0) == Some(|comment| - 1) && At(b, |comment|, rest)
  {
    AtWhole(b);
    AtSplit(b, 0, comment, rest);
    FindLineEnd(b, 0, comment);
  }

  /** ": hi\r\ndata: foo\r\n\r\n": the comment line adds nothing, and the
      payload is "foo" verbatim. */
  lemma SkipsComment(newLine: NewLine)
    ensures Parse(ReadMessagePayload, [], Ascii(": hi\r\ndata: foo\r\n\r\n"), newLine)
        == Outcome(Completed(Ascii("foo")), 19, 19, ReadEndOfMessage, [Ascii("foo")])
  {
    var foo := Ascii("foo");
    CommentThenFooFrame();
    assert Writable([foo]) by { assert [foo][0] == foo; }
    CommentThenFrame(Ascii(": hi\r\ndata: foo\r\n\r\n"), 5, [foo], newLine);
    DataLinesOne(foo);
    JoinOne(foo, newLine);
  }

  /** A comment line, then a frame. */
  lemma CommentThenFrame(b: seq<byte>, lf: nat, segments: seq<seq<byte>>, newLine: seq<byte>)
    requires b != [] && b[0] == Colon && FindLF(b, 0) == Some(lf)
    requires At(b, lf + 1, DataLines(segments) + CRLF) && Writable(segments)
    ensures Parse(ReadMessagePayload, [], b, newLine)
        == Outcome(Completed(Join(segments, newLine)), lf + 1 + |DataLines(segments)| + 2,
                   lf + 1 + |DataLines(segments)| + 2, ReadEndOfMessage, segments)
  {
    CommentLineSkipped(b, 0, ReadMessagePayload, [], newLine, lf);
    FrameCompletes(b, lf + 1, segments, [], newLine);
    assert [] + segments == segments;
  }

  /** "\r\n" on a fresh parser is a message with an empty payload. */
  lemma BlankLineIsEmptyMessage(newLine: NewLine)
    ensures Parse(ReadMessagePayload, [], Ascii("\r\n"), newLine)
        == Outcome(Completed([]), 2, 2, ReadEndOfMessage, [])
  {
    var b := Ascii("\r\n");
    BlankLine();
    AtWhole(b);
    BlankLineStep(b, 0, ReadMessagePayload, [], newLine);
    ParseFromStep(b, 0, ReadMessagePayload, [], newLine, LineStep(b, 0, ReadMessagePayload, [], newLine));
  }

  lemma FooFrameThenX()
    ensures Ascii("data: foo\r\n\r\nX") == DataLines([Ascii("foo")]) + CRLF + [88]
  {
    assert "data: foo\r\n\r\nX" == "data: foo\r\n" + "\r\n" + "X";
    AsciiAppend("data: foo\r\n" + "\r\n", "X");
    AsciiAppend("data: foo\r\n", "\r\n");
    FooLine();
    BlankLine();
    DataLinesOne(Ascii("foo"));
  }

  /** "data: foo\r\n\r\nX": the byte after the blank line is left unconsumed
      and unexamined for the next call. */
  lemma LeavesNextFrame(newLine: NewLine)
    ensures var o := Parse(ReadMessagePayload, [], Ascii("data: foo\r\n\r\nX"), newLine);
      o.result == Completed(Ascii("foo")) && o.consumed == 13 && o.examined == 13
  {
    var b, foo := Ascii("data: foo\r\n\r\nX"), Ascii("foo");
    assert At(b, 0, DataLines([foo]) + CRLF) by {
      FooFrameThenX();
      AtWhole(b);
      AtSplit(b, 0, DataLines([foo]) + CRLF, [88]);
    }
    assert Writable([foo]) by { assert [foo][0] == foo; }
    FreshFrameCompletes(b, [foo], newLine);
    DataLinesOne(foo);
    JoinOne(foo, newLine);
  }

  /** A frame at the start of the buffer, parsed by a fresh parser. */
  lemma FreshFrameCompletes(b: seq<byte>, segments: seq<seq<byte>>, newLine: seq<byte>)
    requires At(b, 0, DataLines(segments) + CRLF) && Writable(segments)
    ensures Parse(ReadMessagePayload, [], b, newLine)
        == Outcome(Completed(Join(segments, newLine)), |DataLines(segments)| + 2,
                   |DataLines(segments)| + 2, ReadEndOfMessage, segments)
  {
    FrameCompletes(b, 0, segments, [], newLine);
    assert [] + segments == segments;
  }

  /** "\n" is "There was an error in the frame format". */
  lemma RejectsBareLineFeed(newLine: NewLine)
    ensures var o := Parse(ReadMessagePayload, [], Ascii("\n"), newLine);
      o.result == FormatException(FrameFormat) && Reason(o.result.error) == "There was an error in the frame format"
  {
    BareLineFeedIsFrameFormat(Ascii("\n"), 0, ReadMessagePayload, [], newLine);
  }

  /** "data: foo\n" is the "Unexpected '\n'" error. */
  lemma RejectsLineFeedWithoutReturn(newLine: NewLine)
    ensures Parse(ReadMessagePayload, [], Ascii("data: foo\n"), newLine).result == FormatException(UnexpectedLineFeed)
  {
    var b := Ascii("data: foo\n");
    FindLFAt(b, 0, 9);
    LineFeedWithoutReturn(b, 0, ReadMessagePayload, [], newLine, 9);
  }

  /** "data:foo\r\n", with no space after the colon, lacks the prefix. */
  lemma RejectsMissingSpace(newLine: NewLine)
    ensures Parse(ReadMessagePayload, [], Ascii("data:foo\r\n"), newLine).result == FormatException(MissingDataPrefix)
  {
    var b := Ascii("data:foo\r\n");
    FindLFAt(b, 0, 9);
    assert b[0..10][5] != Space;
    MissingPrefixLine(b, 0, ReadMessagePayload, [], newLine, 9);
  }

  // ---------------------------------------------------------------------
  // Properties of every call

  /** With no LF in the buffer nothing is read: Incomplete, or the frame-ending
      error when the phase is ReadEndOfMessage and two or more bytes wait. */
  lemma NoLineFeedAtAll(phase: Phase, data: seq<seq<byte>>, b: seq<byte>, newLine: seq<byte>)
    requires NoLF(b, 0, |b|)
    ensures Parse(phase, data, b, newLine)
        == Outcome(if phase == ReadEndOfMessage && |b| > 1 then FormatException(FrameEndingExpected) else Incomplete,
                   0, |b|, phase, data)
  {
    if |b| > 0 {
      ParseFromStep(b, 0, phase, data, newLine, LineStep(b, 0, phase, data, newLine));
    }
  }

  /** The cursors of every call: `consumed` is the buffer start or just past
      an LF, and `examined` is not before it. */
  lemma {:induction false} ConsumedFrom(b: seq<byte>, start: nat, phase: Phase,
                                        data: seq<seq<byte>>, newLine: seq<byte>)
    requires LineStart(b, start)
    ensures var o := ParseFrom(b, start, phase, data, newLine);
      start <= o.consumed <= o.examined <= |b| && LineStart(b, o.consumed)
    decreases |b| - start
  {
    if start < |b| {
      var step := LineStep(b, start, phase, data, newLine);
      ParseFromStep(b, start, phase, data, newLine, step);
      if step.Next? {
        assert LineStart(b, step.lineEnd);
        ConsumedFrom(b, step.lineEnd, step.phase, step.data, newLine);
      }
    }
  }

  /** A completed message is examined exactly up to `consumed`; any other
      result is examined to the end of the buffer. */
  lemma {:induction false} ExaminedFrom(b: seq<byte>, start: nat, phase: Phase,
                                        data: seq<seq<byte>>, newLine: seq<byte>)
    requires start <= |b|
    ensures var o := ParseFrom(b, start, phase, data, newLine);
      (o.result.Completed? ==> o.consumed == o.examined)
      && (!o.result.Completed? ==> o.examined == |b|)
    decreases |b| - start
  {
    if start < |b| {
      var step := LineStep(b, start, phase, data, newLine);
      ParseFromStep(b, start, phase, data, newLine, step);
      if step.Next? {
        ExaminedFrom(b, step.lineEnd, step.phase, step.data, newLine);
      }
    }
  }

  lemma Cursors(phase: Phase, data: seq<seq<byte>>, b: seq<byte>, newLine: seq<byte>)
    ensures var o := Parse(phase, data, b, newLine);
      o.consumed <= o.examined <= |b|
      && (o.consumed == 0 || b[o.consumed - 1] == LF)
      && (o.result.Completed? ==> o.consumed == o.examined)
      && (!o.result.Completed? ==> o.examined == |b|)
  {
    ConsumedFrom(b, 0, phase, data, newLine);
    ExaminedFrom(b, 0, phase, data, newLine);
  }

  /** The parser only ever appends to the segment list. */
  lemma {:induction false} AppendOnlyFrom(b: seq<byte>, start: nat, phase: Phase,
                                          data: seq<seq<byte>>, newLine: seq<byte>)
    requires start <= |b|
    ensures var o := ParseFrom(b, start, phase, data, newLine);
      |data| <= |o.data| && o.data[..|data|] == data
    decreases |b| - start
  {
    if start < |b| {
      match LineStep(b, start, phase, data, newLine)
      case Stop(_) =>
      case Next(lineEnd, phase', data') =>
        AppendOnlyFrom(b, lineEnd, phase', data', newLine);
        assert data'[..|data|] == data;
    }
  }

  lemma AppendOnly(phase: Phase, data: seq<seq<byte>>, b: seq<byte>, newLine: seq<byte>)
    ensures var o := Parse(phase, data, b, newLine);
      |data| <= |o.data| && o.data[..|data|] == data
  {
    AppendOnlyFrom(b, 0, phase, data, newLine);
  }

  /** A call that ends for want of an LF: no LF is left after `consumed`, and
      it is the frame-ending error exactly when the phase is ReadEndOfMessage
      and two or more bytes are left. */
  lemma {:induction false} WaitingFrom(b: seq<byte>, start: nat, phase: Phase,
                                       data: seq<seq<byte>>, newLine: seq<byte>)
    requires start <= |b|
    ensures var o := ParseFrom(b, start, phase, data, newLine);
      (o.result.Incomplete? || o.result == FormatException(FrameEndingExpected)) ==>
        start <= o.consumed <= |b| && NoLF(b, o.consumed, |b|)
        && (o.result == FormatException(FrameEndingExpected)
            <==> o.phase == ReadEndOfMessage && |b| - o.consumed > 1)
    decreases |b| - start
  {
    if start < |b| {
      match LineStep(b, start, phase, data, newLine)
      case Stop(_) =>
      case Next(lineEnd, phase', data') =>
        WaitingFrom(b, lineEnd, phase', data', newLine);
    }
  }

  lemma Waiting(phase: Phase, data: seq<seq<byte>>, b: seq<byte>, newLine: seq<byte>)
    ensures var o := Parse(phase, data, b, newLine);
      (o.result.Incomplete? || o.result == FormatException(FrameEndingExpected)) ==>
        o.consumed <= |b| && NoLF(b, o.consumed, |b|)
        && (o.result == FormatException(FrameEndingExpected)
            <==> o.phase == ReadEndOfMessage && |b| - o.consumed > 1)
  {
    WaitingFrom(b, 0, phase, data, newLine);
  }

  /** Completing does not reset the parser: the phase is ReadEndOfMessage and
      the payload is the segments still held, joined by the newline. */
  lemma {:induction false} CompletedKeepsStateFrom(b: seq<byte>, start: nat, phase: Phase,
                                                   data: seq<seq<byte>>, newLine: seq<byte>)
    requires start <= |b|
    ensures var o := ParseFrom(b, start, phase, data, newLine);
      o.result.Completed? ==> o.phase == ReadEndOfMessage && o.result.message == Join(o.data, newLine)
    decreases |b| - start
  {
    if start < |b| {
      match LineStep(b, start, phase, data, newLine)
      case Stop(_) =>
      case Next(lineEnd, phase', data') =>
        CompletedKeepsStateFrom(b, lineEnd, phase', data', newLine);
    }
  }

  lemma CompletedKeepsState(phase: Phase, data: seq<seq<byte>>, b: seq<byte>, newLine: seq<byte>)
    ensures var o := Parse(phase, data, b, newLine);
      o.result.Completed? ==> o.phase == ReadEndOfMessage && o.result.message == Join(o.data, newLine)
  {
    CompletedKeepsStateFrom(b, 0, phase, data, newLine);
  }
}
