/**
 * In-memory stand-ins for the .NET objects the merge mutates: a read stream over
 * a file's bytes, a write stream, and the reusable `List<byte>` line buffer.
 */
module Streams {
  import opened Bytes

  /** A forward-only `FileStream` opened for reading: fixed contents and a position. */
  class Reader {
    const data: seq<byte>
    var pos: nat

    ghost predicate Valid()
      reads this
    {
      pos <= |data|
    }

    constructor (contents: seq<byte>)
      ensures Valid() && data == contents && pos == 0
    {
      data := contents;
      pos := 0;
    }

    /** `Stream.ReadByte`: the next byte, or -1 at end of stream (the position then stays). */
    method ReadByte() returns (b: int)
      requires Valid()
      modifies this
      ensures Valid()
      ensures old(pos) < |data| ==> b == data[old(pos)] && pos == old(pos) + 1
      ensures old(pos) == |data| ==> b == -1 && pos == old(pos)
    {
      if pos < |data| {
        b := data[pos];
        pos := pos + 1;
      } else {
        b := -1;
      }
    }

    /** `Stream.CopyTo`: everything not yet read goes to `w`. */
    method CopyTo(w: Writer)
      requires Valid()
      modifies this, w
      ensures Valid() && pos == |data|
      ensures w.written == old(w.written) + data[old(pos)..]
    {
      w.Write(data[pos..]);
      pos := |data|;
    }
  }

  /** A `FileStream` opened for writing: the bytes written so far. */
  class Writer {
    var written: seq<byte>

    constructor ()
      ensures written == []
    {
      written := [];
    }

    method WriteByte(b: byte)
      modifies this
      ensures written == old(written) + [b]
    {
      written := written + [b];
    }

    method Write(bs: seq<byte>)
      modifies this
      ensures written == old(written) + bs
    {
      written := written + bs;
    }
  }

  /** The `List<byte>` that holds one line's payload. */
  class ByteList {
    var items: seq<byte>

    constructor ()
      ensures items == []
    {
      items := [];
    }

    method Add(b: byte)
      modifies this
      ensures items == old(items) + [b]
    {
      items := items + [b];
    }

    method Clear()
      modifies this
      ensures items == []
    {
      items := [];
    }
  }
}
