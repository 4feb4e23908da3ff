/**
 * The input file as an immutable byte sequence with a read cursor, the output
 * file as a growing byte sequence, and the two point-streaming loops
 * (stream_copy_points and skip_points) that move whole points between them
 * through one reused point-sized buffer.
 */
module Streams {
  import opened Arithmetic

  newtype byte = x: int | 0 <= x < 256

  /** A reader over a file's contents; `pos` is the number of bytes consumed so far. */
  class InputStream {
    const data: seq<byte>
    var pos: nat

    ghost predicate Valid()
      reads this
    {
      pos <= |data|
    }

    function Remaining(): nat
      reads this
      requires Valid()
    {
      |data| - pos
    }

    constructor (contents: seq<byte>)
      ensures Valid()
      ensures data == contents && pos == 0
    {
      data := contents;
      pos := 0;
    }

    /**
     * read_exact: fills `buf` with the next buf.Length bytes. On a short read
     * it fails, having consumed (and stored at the front of `buf`) whatever
     * was left.
     */
    method ReadExact(buf: array<byte>) returns (ok: bool)
      requires Valid()
      modifies this, buf
      ensures Valid()
      ensures ok == (buf.Length <= old(Remaining()))
      ensures ok ==> pos == old(pos) + buf.Length && buf[..] == data[old(pos)..pos]
      ensures !ok ==> pos == |data| && buf[..old(Remaining())] == data[old(pos)..]
      ensures !ok ==> forall i :: old(Remaining()) <= i < buf.Length ==> buf[i] == old(buf[i])
    {
      var n := if buf.Length <= |data| - pos then buf.Length else |data| - pos;
      forall i | 0 <= i < n {
        buf[i] := data[pos + i];
      }
      ok := n == buf.Length;
      pos := pos + n;
    }
  }

  /** A writer; `bytes` is everything written so far. */
  class OutputStream {
    var bytes: seq<byte>

    constructor ()
      ensures bytes == []
    {
      bytes := [];
    }

    /** write_all of the whole buffer. */
    method WriteAll(buf: array<byte>)
      modifies this
      ensures bytes == old(bytes) + buf[..]
    {
      bytes := bytes + buf[..];
    }
  }

  /**
   * stream_copy_points: copies `count` points of `pointSize` bytes from input to
   * output, one point at a time. It succeeds exactly when count * pointSize bytes
   * remain; on success it has consumed and appended exactly those bytes, and on
   * a short read it has appended every whole point that was available.
   */
  method StreamCopyPoints(input: InputStream, output: OutputStream, count: nat, pointSize: nat)
    returns (ok: bool)
    requires input.Valid()
    modifies input, output
    ensures input.Valid()
    ensures ok == (count * pointSize <= old(input.Remaining()))
    ensures ok ==> input.pos == old(input.pos) + count * pointSize
    ensures ok ==> output.bytes == old(output.bytes) + input.data[old(input.pos)..input.pos]
    ensures !ok ==> 0 < pointSize && input.pos == |input.data|
    ensures !ok ==> (0 < pointSize && output.bytes == old(output.bytes)
      + input.data[old(input.pos)..old(input.pos) + old(input.Remaining()) / pointSize * pointSize])
  {
    var buffer := new byte[pointSize];
    for i := 0 to count
      invariant input.Valid()
      invariant input.pos == old(input.pos) + i * pointSize
      invariant output.bytes == old(output.bytes) + input.data[old(input.pos)..input.pos]
    {
      var start := input.pos;
      ok := input.ReadExact(buffer);
      if !ok {
        FloorDivision(i, pointSize, |input.data| - old(input.pos));
        PointsPastRemaining(i, count, pointSize, |input.data| - old(input.pos));
        return;
      }
      output.WriteAll(buffer);
      assert input.data[old(input.pos)..start] + input.data[start..input.pos]
          == input.data[old(input.pos)..input.pos];
      assert input.pos == old(input.pos) + (i + 1) * pointSize;
    }
    ok := true;
  }

  /**
   * skip_points: reads and drops `count` points. It succeeds exactly when
   * count * pointSize bytes remain and then advances the cursor by exactly that.
   */
  method SkipPoints(input: InputStream, count: nat, pointSize: nat) returns (ok: bool)
    requires input.Valid()
    modifies input
    ensures input.Valid()
    ensures ok == (count * pointSize <= old(input.Remaining()))
    ensures ok ==> input.pos == old(input.pos) + count * pointSize
    ensures !ok ==> input.pos == |input.data|
  {
    var buffer := new byte[pointSize];
    for i := 0 to count
      invariant input.Valid()
      invariant input.pos == old(input.pos) + i * pointSize
    {
      ok := input.ReadExact(buffer);
      if !ok {
        PointsPastRemaining(i, count, pointSize, |input.data| - old(input.pos));
        return;
      }
      assert input.pos == old(input.pos) + (i + 1) * pointSize;
    }
    ok := true;
  }
}
