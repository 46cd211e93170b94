/** A binary stream: bytes written at the end, and read at a position. */
module Streams {
  import opened Bytes

  class Stream {
    var bytes: seq<byte>
    var pos: nat

    constructor ()
      ensures bytes == [] && pos == 0
    {
      bytes, pos := [], 0;
    }

    method Write(data: seq<byte>)
      modifies this`bytes
      ensures bytes == old(bytes) + data
    {
      bytes := bytes + data;
    }

    method Read(n: nat) returns (data: seq<byte>)
      requires pos + n <= |bytes|
      modifies this`pos
      ensures data == bytes[old(pos)..old(pos) + n] && pos == old(pos) + n
    {
      data := bytes[pos..pos + n];
      pos := pos + n;
    }

    /** seekg(offset, cur). */
    method Seek(offset: int)
      requires 0 <= pos + offset
      modifies this`pos
      ensures pos == old(pos) + offset
    {
      pos := pos + offset;
    }
  }
}
