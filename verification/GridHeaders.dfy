/** The fields of GridData at the start of a serialized grid that GridHandle.h and
    updateGridCount read and write. */
module GridHeaders {
  import opened Bytes

  /** sizeof(GridData). */
  const HEADER_SIZE := 672

  /* Byte offsets of fields. */
  const MAGIC := 0
  const CHECKSUM_HEAD := 8
  const CHECKSUM_TAIL := 12
  const VERSION := 16
  const GRID_INDEX := 24
  const GRID_COUNT := 28
  const GRID_SIZE := 32
  const GRID_CLASS := 632
  const GRID_TYPE := 636
  const DATA2 := 664

  const MAGIC_NUMB := 0x3042_4456_6f6e_614e
  const MAGIC_GRID := 0x3142_4456_6f6e_614e
  const MAJOR_VERSION := 32
  const CLASS_END := 11
  const TYPE_END := 27
  const EMPTY32 := 0xffff_ffff

  /** At least a header. */
  type Grid = g: seq<byte> | HEADER_SIZE <= |g| witness seq(672, i => 0)

  function Index(g: Grid): word32 { Word32At(g, GRID_INDEX) }

  function Count(g: Grid): word32 { Word32At(g, GRID_COUNT) }

  function Size(g: Grid): nat { Word64At(g, GRID_SIZE) }

  function Type(g: Grid): word32 { Word32At(g, GRID_TYPE) }

  /** Checksum::isEmpty. */
  predicate NoChecksum(g: Grid) {
    Word32At(g, CHECKSUM_HEAD) == EMPTY32 && Word32At(g, CHECKSUM_TAIL) == EMPTY32
  }

  /** GridData::isValid. */
  predicate IsValid(g: Grid) {
    || Word64At(g, MAGIC) == MAGIC_GRID || Word64At(g, DATA2) == MAGIC_GRID
    || (&& Word64At(g, MAGIC) == MAGIC_NUMB
        && Word32At(g, VERSION) / 0x20_0000 % 0x800 == MAJOR_VERSION
        && Count(g) > 0 && Index(g) < Count(g)
        && Word32At(g, GRID_CLASS) < CLASS_END && Type(g) < TYPE_END)
  }

  /** What a handle reads from a header. */
  datatype Header = Header(valid: bool, index: word32, count: word32, size: nat, gridType: word32)

  /** The header in the first bytes of a grid; any bytes may stand there. */
  function ReadHeader(raw: seq<byte>): Header {
    if |raw| < HEADER_SIZE then Header(false, 0, 0, 0, 0)
    else Header(IsValid(raw), Index(raw), Count(raw), Size(raw), Type(raw))
  }

  /** All of it lies in the first bytes. */
  lemma HeaderOfPrefix(g: Grid)
    ensures ReadHeader(g[..HEADER_SIZE]) == ReadHeader(g)
  {
    assert forall at: nat | at in {0, 4, 16, 24, 28, 32, 36, 632, 636, 664, 668} ::
        Word32At(g[..HEADER_SIZE], at) == Word32At(g, at);
  }

  /** Bytes in a row. */
  predicate BytesAt(g: seq<byte>, at: nat, bytes: seq<byte>) {
    at + |bytes| <= |g| && forall k | 0 <= k < |bytes| :: g[at + k] == bytes[k]
  }

  lemma Word32Bytes(g: seq<byte>, at: nat, a: byte, b: byte, c: byte, d: byte)
    requires at + 4 <= |g|
    ensures Word32At(g, at) == Word32At([a, b, c, d], 0) <==>
            g[at] == a && g[at + 1] == b && g[at + 2] == c && g[at + 3] == d
  {
    WordOfBytes(g[at], g[at + 1], g[at + 2], g[at + 3]);
    WordOfBytes(a, b, c, d);
  }

  lemma Word64Bytes(g: seq<byte>, at: nat, bytes: seq<byte>)
    requires at + 8 <= |g| && |bytes| == 8
    ensures Word64At(g, at) == Word64At(bytes, 0) <==> BytesAt(g, at, bytes)
  {
    Word32Bytes(g, at, bytes[0], bytes[1], bytes[2], bytes[3]);
    Word32Bytes(g, at + 4, bytes[4], bytes[5], bytes[6], bytes[7]);
    assert BytesAt(g, at, bytes) <==>
           && g[at] == bytes[0] && g[at + 1] == bytes[1] && g[at + 2] == bytes[2] && g[at + 3] == bytes[3]
           && g[at + 4] == bytes[4] && g[at + 5] == bytes[5] && g[at + 6] == bytes[6] && g[at + 7] == bytes[7];
  }

  /** The magic numbers and the empty checksum as they stand in the file. */
  lemma MagicOnBytes(g: Grid)
    ensures Word64At(g, MAGIC) == MAGIC_GRID <==> BytesAt(g, 0, [0x4e, 0x61, 0x6e, 0x6f, 0x56, 0x44, 0x42, 0x31])
    ensures Word64At(g, MAGIC) == MAGIC_NUMB <==> BytesAt(g, 0, [0x4e, 0x61, 0x6e, 0x6f, 0x56, 0x44, 0x42, 0x30])
    ensures Word64At(g, DATA2) == MAGIC_GRID <==> BytesAt(g, 664, [0x4e, 0x61, 0x6e, 0x6f, 0x56, 0x44, 0x42, 0x31])
    ensures NoChecksum(g) <==> BytesAt(g, 8, [255, 255, 255, 255, 255, 255, 255, 255])
  {
    Word64Bytes(g, 0, [0x4e, 0x61, 0x6e, 0x6f, 0x56, 0x44, 0x42, 0x31]);
    Word64Bytes(g, 0, [0x4e, 0x61, 0x6e, 0x6f, 0x56, 0x44, 0x42, 0x30]);
    Word64Bytes(g, 664, [0x4e, 0x61, 0x6e, 0x6f, 0x56, 0x44, 0x42, 0x31]);
    Word64Bytes(g, 8, [255, 255, 255, 255, 255, 255, 255, 255]);
  }

  /** Where a handle finds what it reads: the index at 24, the count at 28, the size at 32 and the
      type at 636.  A header is valid if it says "NanoVDB1" at 0 or at 664; or if it says "NanoVDB0"
      at 0, is of version 32, has an index below its count, and a known class at 632 and type. */
  lemma HeaderOnBytes(g: Grid)
    ensures var h := ReadHeader(g);
            && h.index == Word32At(g, 24) && h.count == Word32At(g, 28)
            && h.size == Word32At(g, 32) + 0x1_0000_0000 * Word32At(g, 36) && h.gridType == Word32At(g, 636)
            && (h.valid <==>
                  || BytesAt(g, 0, [0x4e, 0x61, 0x6e, 0x6f, 0x56, 0x44, 0x42, 0x31])
                  || BytesAt(g, 664, [0x4e, 0x61, 0x6e, 0x6f, 0x56, 0x44, 0x42, 0x31])
                  || (&& BytesAt(g, 0, [0x4e, 0x61, 0x6e, 0x6f, 0x56, 0x44, 0x42, 0x30])
                      && Word32At(g, 16) / 0x20_0000 == 32 && h.index < h.count
                      && Word32At(g, 632) < 11 && h.gridType < 27))
  {
    MagicOnBytes(g);
    assert Word32At(g, 16) / 0x20_0000 < 0x800;
  }

  /** The part of isValid that does not look at the index and the count. */
  predicate Acceptable(g: Grid) {
    || Word64At(g, MAGIC) == MAGIC_GRID || Word64At(g, DATA2) == MAGIC_GRID
    || (&& Word64At(g, MAGIC) == MAGIC_NUMB
        && Word32At(g, VERSION) / 0x20_0000 % 0x800 == MAJOR_VERSION
        && Word32At(g, GRID_CLASS) < CLASS_END && Type(g) < TYPE_END)
  }

  /** Equal up to the index, the count and the checksum of the head. */
  ghost predicate SameApart(g: Grid, g': Grid) {
    |g| == |g'| && forall k | 0 <= k < |g| && !(8 <= k < 12) && !(24 <= k < 32) :: g[k] == g'[k]
  }

  /** Everything a handle reads from a header, apart from index and count, survives. */
  lemma SameApartFields(g: Grid, g': Grid)
    requires SameApart(g, g')
    ensures Size(g) == Size(g') && Type(g) == Type(g') && Acceptable(g) == Acceptable(g')
    ensures Word32At(g, CHECKSUM_TAIL) == Word32At(g', CHECKSUM_TAIL)
  {
    assert forall at: nat | at in {0, 4, 12, 16, 32, 36, 632, 636, 664, 668} :: Word32At(g, at) == Word32At(g', at);
  }

  lemma SameApartTransitive(a: Grid, b: Grid, c: Grid)
    requires SameApart(a, b) && SameApart(b, c)
    ensures SameApart(a, c) && SameApart(b, a)
  {
  }

  /** tools::updateGridCount.  `crc` is the CRC of the head of a grid, which depends on
      neither the magic number nor the checksum. */
  function Stamped(crc: seq<byte> -> word32, g: Grid, index: word32, count: word32): (r: Grid)
    ensures |r| == |g|
  {
    if Index(g) == index && Count(g) == count then g
    else
      var g1: Grid := Put32(Put32(g, GRID_INDEX, index), GRID_COUNT, count);
      if NoChecksum(g1) then g1 else Put32(g1, CHECKSUM_HEAD, crc(g1[16..]))
  }

  lemma Word32Same(g: seq<byte>, g': seq<byte>, at: nat)
    requires at + 4 <= |g| && |g| == |g'|
    requires forall k | at <= k < at + 4 :: g[k] == g'[k]
    ensures Word32At(g, at) == Word32At(g', at)
  {
  }

  /** Stamping sets index and count and leaves the rest, except the checksum of the head. */
  lemma StampedFields(crc: seq<byte> -> word32, g: Grid, index: word32, count: word32)
    ensures var r := Stamped(crc, g, index, count);
            && Index(r) == index && Count(r) == count && SameApart(g, r)
            && (index < count ==> IsValid(r) == Acceptable(g))
  {
    var r := Stamped(crc, g, index, count);
    if Index(g) != index || Count(g) != count {
      var a: Grid := Put32(g, GRID_INDEX, index);
      var b: Grid := Put32(a, GRID_COUNT, count);
      GetPut(g, GRID_INDEX, index);
      GetPut(a, GRID_COUNT, count);
      Word32Same(a, b, GRID_INDEX);
      Word32Same(b, r, GRID_INDEX);
      Word32Same(b, r, GRID_COUNT);
    }
    SameApartFields(g, r);
  }

  function Head(g: Grid): word32 { Word32At(g, CHECKSUM_HEAD) }

  /** Equal up to the checksum of the head. */
  lemma OnlyHeadDiffers(g: Grid, g': Grid)
    requires SameApart(g, g') && Index(g) == Index(g') && Count(g) == Count(g')
    ensures g' == Put32(g, CHECKSUM_HEAD, Head(g')) && g'[16..] == g[16..]
    ensures g == g' <==> Head(g) == Head(g')
  {
    SameWordSameBytes(g, g', GRID_INDEX);
    SameWordSameBytes(g, g', GRID_COUNT);
    var r := Put32(g, CHECKSUM_HEAD, Head(g'));
    GetPut(g, CHECKSUM_HEAD, Head(g'));
    SameWordSameBytes(r, g', CHECKSUM_HEAD);
    if Head(g) == Head(g') {
      SameWordSameBytes(g, g', CHECKSUM_HEAD);
    }
  }

  /** Stamping a grid away and back gives the grid, up to the checksum of the head; and that
      too exactly when the grid has none, or has the right one and does not lose it on the
      way because the CRC happens to look like a missing checksum. */
  lemma StampedBack(crc: seq<byte> -> word32, g: Grid, index: word32, count: word32)
    ensures var away := Stamped(crc, g, index, count);
            var back := Stamped(crc, away, Index(g), Count(g));
            && SameApart(g, back) && Index(back) == Index(g) && Count(back) == Count(g)
            && (back == g <==> || (index == Index(g) && count == Count(g))
                               || NoChecksum(g)
                               || (Head(g) == crc(g[16..]) && !NoChecksum(away)))
  {
    var away := Stamped(crc, g, index, count);
    var back := Stamped(crc, away, Index(g), Count(g));
    StampedFields(crc, g, index, count);
    StampedFields(crc, away, Index(g), Count(g));
    SameApartTransitive(g, away, back);
    OnlyHeadDiffers(g, back);
    if index != Index(g) || count != Count(g) {
      StampedHead(crc, g, index, count);
      StampedHead(crc, away, Index(g), Count(g));
      SameApartFields(g, away);
    }
  }

  /** What stamping does to the checksum of the head. */
  lemma StampedHead(crc: seq<byte> -> word32, g: Grid, index: word32, count: word32)
    requires index != Index(g) || count != Count(g)
    ensures var r := Stamped(crc, g, index, count);
            Head(r) == if NoChecksum(g) then Head(g) else crc(r[16..])
  {
    var a: Grid := Put32(g, GRID_INDEX, index);
    var b: Grid := Put32(a, GRID_COUNT, count);
    Word32Same(g, b, CHECKSUM_HEAD);
    Word32Same(g, b, CHECKSUM_TAIL);
    if !NoChecksum(g) {
      var r: Grid := Put32(b, CHECKSUM_HEAD, crc(b[16..]));
      GetPut(b, CHECKSUM_HEAD, crc(b[16..]));
      assert r[16..] == b[16..];
    }
  }
}
