/** Bytes in memory and in files: little-endian words in byte sequences. */
module Bytes {
  /** NANOVDB_DATA_ALIGNMENT: grids and buffers start at multiples of it. */
  const DATA_ALIGNMENT := 32

  type byte = b: int | 0 <= b < 256
  type word32 = x: int | 0 <= x < 0x1_0000_0000

  /** memcpy or memmove of `source` to position `at`. */
  function Splice(bytes: seq<byte>, at: nat, source: seq<byte>): (r: seq<byte>)
    requires at + |source| <= |bytes|
    ensures |r| == |bytes| && r[at..at + |source|] == source
  {
    bytes[..at] + source + bytes[at + |source|..]
  }

  function Word32At(g: seq<byte>, at: nat): word32
    requires at + 4 <= |g|
  {
    var a: int, b: int, c: int, d: int := g[at], g[at + 1], g[at + 2], g[at + 3];
    a + 0x100 * b + 0x1_0000 * c + 0x100_0000 * d
  }

  function Word64At(g: seq<byte>, at: nat): nat
    requires at + 8 <= |g|
  {
    Word32At(g, at) + 0x1_0000_0000 * Word32At(g, at + 4)
  }

  function Bytes32(x: word32): (r: seq<byte>)
    ensures |r| == 4
  {
    [x % 0x100, x / 0x100 % 0x100, x / 0x1_0000 % 0x100, x / 0x100_0000]
  }

  lemma BytesOfWord(x: word32)
    ensures Word32At(Bytes32(x), 0) == x
  {
    assert x / 0x1_0000 == x / 0x100 / 0x100 && x / 0x100_0000 == x / 0x1_0000 / 0x100;
  }

  lemma WordOfBytes(a: int, b: int, c: int, d: int)
    requires 0 <= a < 0x100 && 0 <= b < 0x100 && 0 <= c < 0x100 && 0 <= d < 0x100
    ensures Bytes32(a + 0x100 * b + 0x1_0000 * c + 0x100_0000 * d) == [a, b, c, d]
  {
    var x := a + 0x100 * b + 0x1_0000 * c + 0x100_0000 * d;
    assert x / 0x100 == b + 0x100 * c + 0x1_0000 * d;
    assert x / 0x1_0000 == c + 0x100 * d;
    assert x / 0x100_0000 == d;
  }

  lemma SameWordSameBytes(g: seq<byte>, g': seq<byte>, at: nat)
    requires at + 4 <= |g| && at + 4 <= |g'| && Word32At(g, at) == Word32At(g', at)
    ensures forall k | at <= k < at + 4 :: g[k] == g'[k]
  {
    WordOfBytes(g[at], g[at + 1], g[at + 2], g[at + 3]);
    WordOfBytes(g'[at], g'[at + 1], g'[at + 2], g'[at + 3]);
  }

  function Put32(g: seq<byte>, at: nat, x: word32): (r: seq<byte>)
    requires at + 4 <= |g|
    ensures |r| == |g| && forall k | 0 <= k < |g| && !(at <= k < at + 4) :: r[k] == g[k]
  {
    Splice(g, at, Bytes32(x))
  }

  lemma GetPut(g: seq<byte>, at: nat, x: word32)
    requires at + 4 <= |g|
    ensures Word32At(Put32(g, at, x), at) == x
  {
    var r := Put32(g, at, x);
    assert r[at..at + 4] == Bytes32(x);
    assert r[at] == Bytes32(x)[0] && r[at + 1] == Bytes32(x)[1] && r[at + 2] == Bytes32(x)[2] &&
           r[at + 3] == Bytes32(x)[3];
    BytesOfWord(x);
  }
}
