/** Grids and chains on which a property that one may expect fails. */
module GridSamples {
  import opened Bytes
  import opened GridChains
  import opened GridHandles
  import opened GridHeaders
  import opened GridLayouts
  import opened NanoFormats

  function Zeros(n: nat): seq<byte> {
    seq(n, _ => 0)
  }

  /** Version 32.9.2.  Above 32.6.0 the checksum of the head covers the header and the tree data
      behind it, and its extent does not depend on what stands in them. */
  const VERSION_WORD := 0x0400_2402

  /** sizeof(TreeData). */
  const TREE_SIZE := 64

  /** Grid `index` of `count`, of `size` bytes: the magic number, version, index, count and size,
      and zeros everywhere else, the checksum included. */
  function Sample(size: word32, index: word32, count: word32): seq<byte>
    requires size >= HEADER_SIZE
  {
    [0x4e, 0x61, 0x6e, 0x6f, 0x56, 0x44, 0x42, 0x31] + Zeros(8) + [0x02, 0x24, 0x00, 0x04] + Zeros(4)
    + (Bytes32(index) + Bytes32(count) + Bytes32(size)) + Zeros(size - 36)
  }

  lemma WordInside(a: seq<byte>, b: seq<byte>, c: seq<byte>, at: nat)
    requires at + 4 <= |b|
    ensures Word32At(a + b + c, |a| + at) == Word32At(b, at)
  {
    var s := a + b + c;
    assert s[|a| + at] == b[at] && s[|a| + at + 1] == b[at + 1];
    assert s[|a| + at + 2] == b[at + 2] && s[|a| + at + 3] == b[at + 3];
  }

  lemma SampleNumbers(size: word32, index: word32, count: word32)
    requires size >= HEADER_SIZE
    ensures var g := Sample(size, index, count);
            && |g| == size && Index(g) == index && Count(g) == count && Word32At(g, GRID_SIZE) == size
            && Word32At(g, VERSION) == VERSION_WORD
  {
    var magic: seq<byte> :=
      [0x4e, 0x61, 0x6e, 0x6f, 0x56, 0x44, 0x42, 0x31] + Zeros(8) + [0x02, 0x24, 0x00, 0x04] + Zeros(4);
    var i, n, s, rest := Bytes32(index), Bytes32(count), Bytes32(size), Zeros(size - 36);
    BytesOfWord(index);
    BytesOfWord(count);
    BytesOfWord(size);
    WordInside([], i, n + s, 0);
    WordInside(i, n, s, 0);
    WordInside(i + n, s, [], 0);
    assert [] + i + (n + s) == i + n + s && i + n + s + [] == i + n + s;
    WordInside(magic, i + n + s, rest, 0);
    WordInside(magic, i + n + s, rest, 4);
    WordInside(magic, i + n + s, rest, 8);
  }

  lemma SampleZeros(size: word32, index: word32, count: word32, at: nat)
    requires size >= HEADER_SIZE && (8 <= at <= 12 || 36 <= at <= size - 4)
    ensures Word32At(Sample(size, index, count), at) == 0
  {
    var g := Sample(size, index, count);
    assert forall k | at <= k < at + 4 :: g[k] == 0;
  }

  /** What a handle reads from a sample. */
  lemma SampleIsMember(size: word32, index: word32, count: word32)
    requires size >= HEADER_SIZE
    ensures IsMember(ReadHeader, Sample(size, index, count), index, count)
    ensures HeaderOf(ReadHeader, Sample(size, index, count)).gridType == 0
  {
    var g := Sample(size, index, count);
    SampleNumbers(size, index, count);
    SampleZeros(size, index, count, 36);
    SampleZeros(size, index, count, GRID_TYPE);
    assert Word32At(g, 0) == 0x6f6e_614e && Word32At(g, 4) == 0x3142_4456;
    HeaderOfPrefix(g);
  }

  /** The same grid with other words at two places. */
  function WithTwoWords(g: Grid, at: nat, x: word32, at': nat, x': word32): (r: Grid)
    requires at + 4 <= at' && at' + 4 <= |g|
    ensures |r| == |g| && Word32At(r, at) == x && Word32At(r, at') == x'
    ensures forall k | 0 <= k < |g| && !(at <= k < at + 4) && !(at' <= k < at' + 4) :: r[k] == g[k]
  {
    var a: Grid := Put32(g, at, x);
    var b: Grid := Put32(a, at', x');
    GetPut(g, at, x);
    GetPut(a, at', x');
    Word32Same(a, b, at);
    b
  }

  /** A grid of class 2 and type 5. */
  function TypedSample(): Grid {
    WithTwoWords(Sample(736, 0, 1), 632, 2, 636, 5)
  }

  lemma TypedSampleIsMember()
    ensures IsMember(ReadHeader, TypedSample(), 0, 1) && HeaderOf(ReadHeader, TypedSample()).gridType == 5
  {
    var s, g := Sample(736, 0, 1), TypedSample();
    SampleNumbers(736, 0, 1);
    SampleZeros(736, 0, 1, 36);
    HeaderOfPrefix(g);
    HeaderOnBytes(g);
    assert forall at: nat | at in {24, 28, 32, 36} :: Word32At(g, at) == Word32At(s, at);
    assert BytesAt(g, 0, [0x4e, 0x61, 0x6e, 0x6f, 0x56, 0x44, 0x42, 0x31]);
  }

  lemma HandleOfOne(crc: Crc, g: seq<byte>)
    requires IsMember(ReadHeader, g, 0, 1)
    ensures var meta := [Meta(0, |g|, HeaderOf(ReadHeader, g).gridType)];
            IsHandle(NanoFormat(crc), GridHandle(meta, g), [g])
  {
    LayoutAt(ReadHeader, [g], 0);
    assert [g][..0] == [];
    ExactHandle(NanoFormat(crc), [g]);
    FlattenAppend([], g);
    assert [] + [g] == [g] && [] + g == g;
  }

  /** What a handle of it says is the type. */
  lemma TypeIsRead(crc: Crc)
    ensures IsHandle(NanoFormat(crc), GridHandle([Meta(0, 736, 5)], TypedSample()), [TypedSample()])
  {
    TypedSampleIsMember();
    HandleOfOne(crc, TypedSample());
  }

  /** Another head checksum than the one of the bytes. */
  function WithWrongHead(crc: Crc, g: Grid): Grid {
    Put32(g, CHECKSUM_HEAD, (crc(g[16..]) + 1) % 0x1_0000_0000)
  }

  lemma WrongHeadIsWrong(crc: Crc, g: Grid)
    ensures var r := WithWrongHead(crc, g);
            r[16..] == g[16..] && SameApart(g, r) && Index(r) == Index(g) && Count(r) == Count(g)
    ensures var r := WithWrongHead(crc, g); Head(r) != crc(r[16..])
    ensures Word32At(WithWrongHead(crc, g), VERSION) == Word32At(g, VERSION)
  {
    var x: word32 := (crc(g[16..]) + 1) % 0x1_0000_0000;
    var r: Grid := Put32(g, CHECKSUM_HEAD, x);
    GetPut(g, CHECKSUM_HEAD, x);
    Word32Same(g, r, GRID_INDEX);
    Word32Same(g, r, GRID_COUNT);
    Word32Same(g, r, VERSION);
    assert r[16..] == g[16..];
  }

  /** A wrong checksum of the head never comes back. */
  lemma WrongHeadIsLost(crc: Crc, g: Grid, index: word32, count: word32)
    requires Head(g) != crc(g[16..]) && !NoChecksum(g) && (index != Index(g) || count != Count(g))
    ensures Stamped(crc, Stamped(crc, g, index, count), Index(g), Count(g)) != g
  {
    StampedBack(crc, g, index, count);
  }

  /** Under every CRC: a valid grid of the current version, with room for the tree data, whose wrong
      checksum is replaced when it is stamped away and back. */
  lemma WrongChecksumIsReplaced(crc: Crc)
    ensures var g := WithWrongHead(crc, Sample(HEADER_SIZE + TREE_SIZE, 0, 1));
            && IsMember(ReadHeader, g, 0, 1) && Word32At(g, VERSION) == VERSION_WORD
            && Stamped(crc, Stamped(crc, g, 1, 2), Index(g), Count(g)) != g
  {
    var size := HEADER_SIZE + TREE_SIZE;
    var s := Sample(size, 0, 1);
    var g := WithWrongHead(crc, s);
    SampleIsMember(size, 0, 1);
    SampleNumbers(size, 0, 1);
    SampleZeros(size, 0, 1, CHECKSUM_TAIL);
    WrongHeadIsWrong(crc, s);
    SameApartIsMember(s, g, 0, 1);
    SameApartFields(s, g);
    WrongHeadIsLost(crc, g, 1, 2);
  }

  lemma SameApartIsMember(g: Grid, g': Grid, i: nat, n: word32)
    requires IsMember(ReadHeader, g, i, n) && i < n
    requires SameApart(g, g') && Index(g') == Index(g) && Count(g') == Count(g)
    ensures IsMember(ReadHeader, g', i, n)
  {
    HeaderOfPrefix(g);
    HeaderOfPrefix(g');
    SameApartFields(g, g');
  }

  /** The second grid starts at 737, which the parser accepts and the layout check does not. */
  lemma OddChainIsNoLayout(crc: Crc)
    ensures var gs := [Sample(737, 0, 2), Sample(736, 1, 2)];
            var h := GridHandle(LayoutOf(ReadHeader, gs), Flatten(gs));
            IsHandle(NanoFormat(crc), h, gs) && !IsLayout(h.mMetaData, |h.mBuffer|)
  {
    var a, b := Sample(737, 0, 2), Sample(736, 1, 2);
    var gs := [a, b];
    SampleIsMember(737, 0, 2);
    SampleIsMember(736, 1, 2);
    assert IsChain(ReadHeader, gs);
    LayoutAt(ReadHeader, gs, 1);
    assert gs[..1] == [a];
    FlattenAppend([], a);
    assert [] + [a] == [a] && [] + a == a;
    var h := GridHandle(LayoutOf(ReadHeader, gs), Flatten(gs));
    ExactHandle(NanoFormat(crc), gs);
    assert !GoodEntry(h.mMetaData, 1, |h.mBuffer|);
  }
}
