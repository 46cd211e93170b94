/** Index-space coordinates and the digits that address the four-level tree.

    A coordinate component is an int32_t of the source, kept as an integer.  The
    source's masks and shifts are written as the floored division and remainder
    they compute; module CoordBits proves that they are the same.  Levels are
    numbered as in the source: 0 = leaf (8^3), 1 = lower (128^3), 2 = upper (4096^3). */
module Coords {
  import opened Arith

  const INT32_MAX := 0x7FFF_FFFF

  type int32 = x: int | -INT32_MAX - 1 <= x <= INT32_MAX

  datatype Coord = Coord(x: int32, y: int32, z: int32)

  /** CoordType::max(): the key of an empty cache slot. */
  const MAX_COORD := Coord(INT32_MAX, INT32_MAX, INT32_MAX)

  type Level = l: nat | l < 3

  /** DIM = 2^TOTAL: the edge of a node, in voxels. */
  function Dim(level: Level): nat {
    if level == 0 then 8 else if level == 1 then 128 else 4096
  }

  /** The edge of one table entry of a node: ChildT::DIM, or one voxel. */
  function ChildDim(level: Level): nat {
    if level == 0 then 1 else if level == 1 then 8 else 128
  }

  /** 2^LOG2DIM: the number of table entries along one edge. */
  function Fan(level: Level): nat {
    if level == 0 then 8 else if level == 1 then 16 else 32
  }

  /** SIZE: the number of table entries of a node. */
  function Size(level: Level): nat {
    if level == 0 then 512 else if level == 1 then 4096 else 32768
  }

  /** `x & ~MASK`. */
  function Floor(x: int32, level: Level): (r: int32)
    ensures r <= x < r + Dim(level)
  {
    if level == 0 then 8 * (x / 8) else if level == 1 then 128 * (x / 128) else 4096 * (x / 4096)
  }

  /** The origin of the node at `level` that contains a coordinate. */
  function Block(c: Coord, level: Level): Coord {
    Coord(Floor(c.x, level), Floor(c.y, level), Floor(c.z, level))
  }

  predicate SameBlock(a: Coord, b: Coord, level: Level) {
    Block(a, level) == Block(b, level)
  }

  /** The origin of the table entry that contains a coordinate. */
  function ChildBlock(c: Coord, level: Level): Coord {
    if level == 0 then c else Block(c, level - 1)
  }

  /** `(x & MASK) >> ChildT::TOTAL`. */
  function Digit(level: Level, x: int32): (d: nat)
    ensures d < Fan(level)
  {
    if level == 0 then x % 8 else if level == 1 then x % 128 / 8 else x % 4096 / 128
  }

  /** The linear offset that three digits form, x most significant. */
  function Pack(level: Level, i: nat, j: nat, k: nat): nat {
    if level == 0 then 64 * i + 8 * j + k
    else if level == 1 then 256 * i + 16 * j + k
    else 1024 * i + 32 * j + k
  }

  /** CoordToOffset of the node type at a level. */
  function CoordToOffset(level: Level, c: Coord): (n: nat)
    ensures n < Size(level)
  {
    Pack(level, Digit(level, c.x), Digit(level, c.y), Digit(level, c.z))
  }

  datatype Local = Local(i: nat, j: nat, k: nat)

  /** OffsetToLocalCoord of the node type at a level. */
  function OffsetToLocalCoord(level: Level, n: nat): Local {
    if level == 0 then Local(n / 64, n % 64 / 8, n % 64 % 8)
    else if level == 1 then Local(n / 256, n % 256 / 16, n % 256 % 16)
    else Local(n / 1024, n % 1024 / 32, n % 1024 % 32)
  }

  /** A component of a node origin: room above it for the whole node. */
  predicate AlignedComponent(x: int32, level: Level) {
    Floor(x, level) == x
  }

  predicate Aligned(c: Coord, level: Level) {
    Block(c, level) == c
  }

  /** One component of localToGlobalCoord. */
  function LocalToGlobal(level: Level, i: nat, origin: int32): (x: int32)
    requires AlignedComponent(origin, level) && i < Fan(level)
  {
    if level == 0 then i + origin else if level == 1 then 8 * i + origin else 128 * i + origin
  }

  lemma LocalsInRange(level: Level, n: nat)
    requires n < Size(level)
    ensures var l := OffsetToLocalCoord(level, n);
            && l.i < Fan(level) && l.j < Fan(level) && l.k < Fan(level)
            && Pack(level, l.i, l.j, l.k) == n
  {
  }

  /** offsetToGlobalCoord of a node with the given origin. */
  function OffsetToGlobalCoord(level: Level, origin: Coord, n: nat): Coord
    requires Aligned(origin, level) && n < Size(level)
  {
    LocalsInRange(level, n);
    var l := OffsetToLocalCoord(level, n);
    Coord(LocalToGlobal(level, l.i, origin.x), LocalToGlobal(level, l.j, origin.y), LocalToGlobal(level, l.k, origin.z))
  }

  lemma UnpackLeaf(i: nat, j: nat, k: nat)
    ensures j < 8 && k < 8 ==> OffsetToLocalCoord(0, Pack(0, i, j, k)) == Local(i, j, k)
  {
  }

  lemma UnpackLower(i: nat, j: nat, k: nat)
    ensures j < 16 && k < 16 ==> OffsetToLocalCoord(1, Pack(1, i, j, k)) == Local(i, j, k)
  {
  }

  lemma UnpackUpper(i: nat, j: nat, k: nat)
    ensures j < 32 && k < 32 ==> OffsetToLocalCoord(2, Pack(2, i, j, k)) == Local(i, j, k)
  {
  }

  lemma PackIsInjective(level: Level, a: Local, b: Local)
    requires a.i < Fan(level) && a.j < Fan(level) && a.k < Fan(level)
    requires b.i < Fan(level) && b.j < Fan(level) && b.k < Fan(level)
    requires Pack(level, a.i, a.j, a.k) == Pack(level, b.i, b.j, b.k)
    ensures a == b
  {
    UnpackLeaf(a.i, a.j, a.k);
    UnpackLeaf(b.i, b.j, b.k);
    UnpackLower(a.i, a.j, a.k);
    UnpackLower(b.i, b.j, b.k);
    UnpackUpper(a.i, a.j, a.k);
    UnpackUpper(b.i, b.j, b.k);
  }

  lemma BlockIsAligned(c: Coord, level: Level)
    ensures Aligned(Block(c, level), level)
  {
    FloorOfFloor(c.x, Dim(level));
    FloorOfFloor(c.y, Dim(level));
    FloorOfFloor(c.z, Dim(level));
  }

  /** A coordinate's table entry is the one that starts at its child block. */
  lemma OffsetThenCoord(level: Level, c: Coord)
    ensures Aligned(Block(c, level), level)
    ensures OffsetToGlobalCoord(level, Block(c, level), CoordToOffset(level, c)) == ChildBlock(c, level)
  {
    BlockIsAligned(c, level);
    var n := CoordToOffset(level, c);
    LocalsInRange(level, n);
    PackIsInjective(level, OffsetToLocalCoord(level, n),
                    Local(Digit(level, c.x), Digit(level, c.y), Digit(level, c.z)));
    DigitOverFloor(level, c.x);
    DigitOverFloor(level, c.y);
    DigitOverFloor(level, c.z);
  }

  lemma FloorOfLower(x: int)
    ensures x / 8 == 16 * (x / 128) + x % 128 / 8
    ensures 8 * (x / 8) / 128 == x / 128
    ensures 8 * (x / 8) % 128 / 8 == x % 128 / 8
  {
    var q, s, t := x / 128, x % 128 / 8, x % 128 % 8;
    assert x == 8 * (16 * q + s) + t;
    DivModUnique(16 * q + s, t, 8);
    DivModUnique(q, 8 * s, 128);
    DivModUnique(s, 0, 8);
  }

  lemma FloorOfUpper(x: int)
    ensures x / 128 == 32 * (x / 4096) + x % 4096 / 128
    ensures 128 * (x / 128) / 4096 == x / 4096
    ensures 128 * (x / 128) % 4096 / 128 == x % 4096 / 128
  {
    var q, s, t := x / 4096, x % 4096 / 128, x % 4096 % 128;
    assert x == 128 * (32 * q + s) + t;
    DivModUnique(32 * q + s, t, 128);
    DivModUnique(q, 128 * s, 4096);
    DivModUnique(s, 0, 128);
  }

  lemma FloorOfFloor(x: int, d: int)
    requires d > 0
    ensures d * (x / d) / d == x / d
  {
    DivModUnique(x / d, 0, d);
  }

  lemma DigitOverFloor(level: Level, x: int32)
    ensures AlignedComponent(Floor(x, level), level)
    ensures LocalToGlobal(level, Digit(level, x), Floor(x, level)) == if level == 0 then x else Floor(x, level - 1)
  {
    FloorOfFloor(x, Dim(level));
    FloorOfLower(x);
    FloorOfUpper(x);
  }

  /** Every table entry is reached by the coordinate it starts at. */
  lemma CoordThenOffset(level: Level, origin: Coord, n: nat)
    requires Aligned(origin, level) && n < Size(level)
    ensures var c := OffsetToGlobalCoord(level, origin, n);
            CoordToOffset(level, c) == n && Block(c, level) == origin && ChildBlock(c, level) == c
  {
    LocalsInRange(level, n);
    var l := OffsetToLocalCoord(level, n);
    DigitOfGlobal(level, l.i, origin.x);
    DigitOfGlobal(level, l.j, origin.y);
    DigitOfGlobal(level, l.k, origin.z);
  }

  lemma GlobalInLower(i: nat, q: int)
    requires i < 16
    ensures (8 * i + 128 * q) % 128 / 8 == i && (8 * i + 128 * q) / 128 == q &&
            8 * ((8 * i + 128 * q) / 8) == 8 * i + 128 * q
  {
    DivModUnique(q, 8 * i, 128);
    DivModUnique(i, 0, 8);
    DivModUnique(i + 16 * q, 0, 8);
    assert 8 * (i + 16 * q) == 8 * i + 128 * q;
  }

  lemma GlobalInUpper(i: nat, q: int)
    requires i < 32
    ensures (128 * i + 4096 * q) % 4096 / 128 == i && (128 * i + 4096 * q) / 4096 == q &&
            128 * ((128 * i + 4096 * q) / 128) == 128 * i + 4096 * q
  {
    DivModUnique(q, 128 * i, 4096);
    DivModUnique(i, 0, 128);
    DivModUnique(i + 32 * q, 0, 128);
    assert 128 * (i + 32 * q) == 128 * i + 4096 * q;
  }

  lemma DigitOfGlobal(level: Level, i: nat, origin: int32)
    requires AlignedComponent(origin, level) && i < Fan(level)
    ensures var x := LocalToGlobal(level, i, origin);
            Digit(level, x) == i && Floor(x, level) == origin && (level > 0 ==> Floor(x, level - 1) == x)
  {
    if level == 0 {
      DivModUnique(origin / 8, i, 8);
    } else if level == 1 {
      GlobalInLower(i, origin / 128);
    } else {
      GlobalInUpper(i, origin / 4096);
    }
  }

  /** Coordinates share a table entry of one node exactly when they share a child block. */
  lemma SameEntry(level: Level, a: Coord, b: Coord)
    ensures ChildBlock(a, level) == ChildBlock(b, level)
            <==> SameBlock(a, b, level) && CoordToOffset(level, a) == CoordToOffset(level, b)
  {
    OffsetThenCoord(level, a);
    OffsetThenCoord(level, b);
    DigitOfFloor(level, a.x);
    DigitOfFloor(level, a.y);
    DigitOfFloor(level, a.z);
    DigitOfFloor(level, b.x);
    DigitOfFloor(level, b.y);
    DigitOfFloor(level, b.z);
  }

  lemma DigitOfFloor(level: Level, x: int32)
    ensures level > 0 ==> Digit(level, x) == Digit(level, Floor(x, level - 1))
    ensures level > 0 ==> Floor(x, level) == Floor(Floor(x, level - 1), level)
  {
    FloorOfLower(x);
    FloorOfUpper(x);
  }

  lemma BlocksNest(a: Coord, b: Coord, level: Level)
    requires level > 0
    requires SameBlock(a, b, level - 1)
    ensures SameBlock(a, b, level)
  {
    SameEntry(level, a, b);
  }

  /** No block origin equals the sentinel key. */
  lemma SentinelNeverMatches(c: Coord, level: Level)
    ensures Block(c, level) != MAX_COORD
  {
  }
}
