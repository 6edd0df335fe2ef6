/** The lines both parsers read, written out: payload lines "data: <segment>\r\n"
    and the blank line, and where a run of bytes sits in a buffer. */
module Lines {
  import opened Buffers

  /** The payload line "data: <segment>\r\n". */
  function DataLine(segment: seq<byte>): seq<byte>
  {
    DataPrefix + segment + CRLF
  }

  /** The payload lines of a frame, one per segment. */
  function DataLines(segments: seq<seq<byte>>): seq<byte>
  {
    if segments == [] then [] else DataLine(segments[0]) + DataLines(segments[1..])
  }

  /** Segments that can be written on payload lines: none holds a line feed. */
  ghost predicate Writable(segments: seq<seq<byte>>)
  {
    forall i :: 0 <= i < |segments| ==> LF !in segments[i]
  }

  /** The bytes `x` occur in `b` at offset `i`. */
  ghost predicate At(b: seq<byte>, i: nat, x: seq<byte>)
  {
    i + |x| <= |b| && b[i..i + |x|] == x
  }

  /** Bytes x + y at offset i are x at i and y right after it. */
  lemma AtSplit(b: seq<byte>, i: nat, x: seq<byte>, y: seq<byte>)
    requires At(b, i, x + y)
    ensures At(b, i, x) && At(b, i + |x|, y)
  {
    assert b[i..i + |x|] == (x + y)[..|x|];
    assert b[i + |x|..i + |x| + |y|] == (x + y)[|x|..];
  }

  /** A line ending in its only LF, found where it starts. */
  lemma FindLineEnd(b: seq<byte>, start: nat, line: seq<byte>)
    requires At(b, start, line)
    requires |line| > 0 && line[|line| - 1] == LF && LF !in line[..|line| - 1]
    ensures FindLF(b, start) == Some(start + |line| - 1)
  {
    forall k | start <= k < start + |line| - 1
      ensures b[k] != LF
    {
      assert b[k] == line[..|line| - 1][k - start];
    }
    FindLFAt(b, start, start + |line| - 1);
  }

  /** The first byte of bytes held at an offset. */
  lemma AtFirst(b: seq<byte>, i: nat, x: seq<byte>)
    requires At(b, i, x) && |x| > 0
    ensures i < |b| && b[i] == x[0]
  {
    assert b[i..i + |x|][0] == b[i];
  }

  /** Payload lines start with the 'd' of their prefix. */
  lemma DataLinesFirst(segments: seq<seq<byte>>)
    requires segments != []
    ensures |DataLines(segments)| > 0 && DataLines(segments)[0] == 100
  {
    var x := DataLines(segments);
    assert x == DataLine(segments[0]) + DataLines(segments[1..]);
    assert x[0] == DataLine(segments[0])[0] == DataPrefix[0];
  }

  /** Payload lines at an offset are the first payload line there and the
      other payload lines right after it. */
  lemma DataLinesSplit(b: seq<byte>, start: nat, segments: seq<seq<byte>>)
    requires At(b, start, DataLines(segments))
    requires segments != [] && Writable(segments)
    ensures LF !in segments[0] && Writable(segments[1..])
    ensures |DataLines(segments)| == |DataLine(segments[0])| + |DataLines(segments[1..])|
    ensures At(b, start, DataLine(segments[0]))
    ensures At(b, start + |DataLine(segments[0])|, DataLines(segments[1..]))
  {
    var s, more := segments[0], segments[1..];
    assert LF !in s;
    AtSplit(b, start, DataLine(s), DataLines(more));
    forall i | 0 <= i < |more| ensures LF !in more[i] {
      assert more[i] == segments[i + 1];
    }
  }

  /** A buffer holds itself at offset 0. */
  lemma AtWhole(b: seq<byte>)
    ensures At(b, 0, b)
  {
    assert b[0..|b|] == b;
  }

  lemma DataLinesOne(s: seq<byte>)
    ensures DataLines([s]) == DataLine(s)
  {
    assert DataLines([s]) == DataLine(s) + DataLines([]);
  }

  lemma DataLinesTwo(s1: seq<byte>, s2: seq<byte>)
    ensures DataLines([s1, s2]) == DataLine(s1) + DataLine(s2)
  {
    assert [s1, s2][1..] == [s2];
    assert DataLines([s1, s2]) == DataLine(s1) + DataLines([s2]);
    DataLinesOne(s2);
  }

  /** The blank line of the test inputs. */
  lemma BlankLine()
    ensures Ascii("\r\n") == CRLF
  {
  }
}
