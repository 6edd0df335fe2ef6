/** Byte buffers as both parsers see them.

    A System.IO.Pipelines `ReadableBuffer` is modelled as one flat sequence
    of bytes and a `ReadCursor` as an index into it.  The multi-segment
    representation of the pipeline buffer is not modelled. */
module Buffers {

  newtype byte = x: int | 0 <= x < 256

  const CR: byte := 13
  const LF: byte := 10
  const Space: byte := 32
  const Colon: byte := 58

  /** The line ending "\r\n". */
  const CRLF: seq<byte> := [CR, LF]

  /** The field prefix "data: ". */
  const DataPrefix: seq<byte> := [100, 97, 116, 97, 58, 32]

  datatype Option<T> = None | Some(value: T)

  datatype Result<T, E> = Success(value: T) | Failure(error: E)

  /** No line feed in b[i..j]. */
  ghost predicate NoLF(b: seq<byte>, i: nat, j: nat)
    requires i <= j <= |b|
  {
    forall k :: i <= k < j ==> b[k] != LF
  }

  /** `i` is the start of a line of `b`: the buffer start or just past an LF. */
  ghost predicate LineStart(b: seq<byte>, i: nat)
  {
    i <= |b| && (i == 0 || b[i - 1] == LF)
  }

  /** The search for the next LF that `ReadCursorOperations.Seek(start, end, out lineEnd, ByteLF)`
      performs: the index of the first LF at or after `from`, or None when there is none. */
  function FindLF(b: seq<byte>, from: nat): (r: Option<nat>)
    requires from <= |b|
    ensures r.Some? ==> from <= r.value < |b| && b[r.value] == LF && NoLF(b, from, r.value)
    ensures r.None? <==> NoLF(b, from, |b|)
    decreases |b| - from
  {
    if from == |b| then None
    else if b[from] == LF then Some(from)
    else FindLF(b, from + 1)
  }

  /** The search result is determined by where the first LF is. */
  lemma FindLFAt(b: seq<byte>, from: nat, i: nat)
    requires from <= i < |b| && b[i] == LF && NoLF(b, from, i)
    ensures FindLF(b, from) == Some(i)
  {
  }

  /** `ReadableBufferReader.Peek`: the byte at the reader's position, or -1 at the end. */
  function Peek(b: seq<byte>, i: nat): (r: int)
    requires i <= |b|
    ensures -1 <= r < 256
    ensures r == -1 <==> i == |b|
    ensures i < |b| ==> r == b[i] as int
  {
    if i < |b| then b[i] as int else -1
  }

  /** The segments placed one after another with no separator. */
  function Flatten(segments: seq<seq<byte>>): seq<byte>
  {
    if segments == [] then []
    else Flatten(segments[..|segments| - 1]) + segments[|segments| - 1]
  }

  /** Appending segments is appending their first, then the rest. */
  lemma AppendFirst(data: seq<seq<byte>>, segments: seq<seq<byte>>)
    requires segments != []
    ensures data + [segments[0]] + segments[1..] == data + segments
  {
    assert segments == [segments[0]] + segments[1..];
  }

  /** The sum of the segment lengths. */
  function TotalLength(segments: seq<seq<byte>>): nat
  {
    if segments == [] then 0
    else TotalLength(segments[..|segments| - 1]) + |segments[|segments| - 1]|
  }

  /** The concatenated payload is as long as all segments together. */
  lemma {:induction false} FlattenLength(segments: seq<seq<byte>>)
    ensures |Flatten(segments)| == TotalLength(segments)
    decreases |segments|
  {
    if segments != [] {
      FlattenLength(segments[..|segments| - 1]);
    }
  }

  /** The `foreach` loop that adds up the segment lengths to size the payload array. */
  method SumLengths(segments: seq<seq<byte>>) returns (total: nat)
    ensures total == TotalLength(segments)
  {
    total := 0;
    for i := 0 to |segments|
      invariant total == TotalLength(segments[..i])
    {
      assert segments[..i + 1][..i] == segments[..i];
      total := total + |segments[i]|;
    }
    assert segments[..|segments|] == segments;
  }

  /** `CopyTo(array, index)` of a byte array or span: `source` written into
      `target` from `offset` on. */
  method CopyTo(source: seq<byte>, target: array<byte>, offset: nat)
    requires offset + |source| <= target.Length
    modifies target
    ensures target[..offset + |source|] == old(target[..offset]) + source
    ensures target[offset + |source|..] == old(target[offset + |source|..])
  {
    forall j | 0 <= j < |source| {
      target[offset + j] := source[j];
    }
  }

  /** The bytes of an ASCII string, used to write the literal test inputs. */
  function Ascii(s: string): (r: seq<byte>)
    ensures |r| == |s| && forall i :: 0 <= i < |s| ==> r[i] as int == s[i] as int % 256
  {
    seq(|s|, i requires 0 <= i < |s| => (s[i] as int % 256) as byte)
  }

  /** The bytes of two strings written one after the other. */
  lemma AsciiAppend(s: string, t: string)
    ensures Ascii(s + t) == Ascii(s) + Ascii(t)
  {
  }
}
