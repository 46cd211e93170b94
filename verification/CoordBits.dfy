/** The divisions and remainders of module Coords are the masks, shifts and packings of
    the source. */
module CoordBits {
  import opened Arith
  import opened Bits
  import opened Coords

  /** TOTAL and LOG2DIM of the node types. */
  function Total(level: Level): nat {
    if level == 0 then 3 else if level == 1 then 7 else 12
  }

  function Log2Dim(level: Level): nat {
    if level == 0 then 3 else if level == 1 then 4 else 5
  }

  lemma PowersOfLevel(level: Level)
    ensures Pow2(Total(level)) == Dim(level) && Pow2(Log2Dim(level)) == Fan(level)
    ensures Pow2(Total(level) - Log2Dim(level)) == ChildDim(level)
  {
    Pow2Constants();
  }

  /** `x & ~MASK`, and the digit `(x & MASK) >> ChildT::TOTAL`. */
  lemma MasksAreFloors(level: Level, x: int32)
    ensures And(x, Not(Dim(level) - 1)) == Floor(x, level)
    ensures Shr(And(x, Dim(level) - 1), Total(level) - Log2Dim(level)) == Digit(level, x)
  {
    PowersOfLevel(level);
    MaskIsRemainder(x, Total(level));
    ShrIsDivision(x, Total(level));
    ShlIsMultiplication(Shr(x, Total(level)), Total(level));
    ShrIsDivision(And(x, Dim(level) - 1), Total(level) - Log2Dim(level));
  }

  lemma Horner(p: nat, i: nat, j: nat)
    ensures (i * p + j) * p == i * (p * p) + j * p
    ensures j < p ==> j * p < p * p
  {
    assert (i * p) * p == i * (p * p);
    if j < p {
      assert (j + 1) * p <= p * p;
    }
  }

  lemma {:induction false} UnionOfDigits(b: nat, i: nat, j: nat, k: nat)
    requires j < Pow2(b) && k < Pow2(b)
    ensures Or(Or(Shl(i, b + b), Shl(j, b)), k) == i * (Pow2(b) * Pow2(b)) + j * Pow2(b) + k
  {
    Horner(Pow2(b), i, j);
    Pow2Sum(b, b);
    ShlIsMultiplication(i, b + b);
    ShlIsMultiplication(j, b);
    OrIsSum(i, b + b, Shl(j, b));
    ShlIsMultiplication(i * Pow2(b) + j, b);
    OrIsSum(i * Pow2(b) + j, b, k);
  }

  lemma PackIsSum(level: Level, i: nat, j: nat, k: nat)
    ensures Pack(level, i, j, k) == i * (Fan(level) * Fan(level)) + j * Fan(level) + k
  {
  }

  /** The offset is the bitwise union of the three shifted digits. */
  lemma {:induction false} OffsetIsUnionOfDigits(level: Level, c: Coord)
    ensures var b, i, j, k := Log2Dim(level), Digit(level, c.x), Digit(level, c.y), Digit(level, c.z);
            Or(Or(Shl(i, b + b), Shl(j, b)), k) == CoordToOffset(level, c)
  {
    PowersOfLevel(level);
    UnionOfDigits(Log2Dim(level), Digit(level, c.x), Digit(level, c.y), Digit(level, c.z));
    PackIsSum(level, Digit(level, c.x), Digit(level, c.y), Digit(level, c.z));
  }

  /** `x & (2^k - 1)`. */
  lemma {:induction false} MaskIsModulo(x: int, k: nat)
    ensures And(x, Pow2(k) - 1) == x % Pow2(k)
  {
    MaskIsRemainder(x, k);
    ShrIsDivision(x, k);
    ShlIsMultiplication(Shr(x, k), k);
    IsRemainder(x, Pow2(k), And(x, Pow2(k) - 1));
  }

  /** OffsetToLocalCoord shifts and masks: `n >> 2 * LOG2DIM`, and the two digits of what
      is left of n below that. */
  lemma {:induction false} LocalIsShiftAndMask(level: Level, n: nat)
    ensures var b, l := Log2Dim(level), OffsetToLocalCoord(level, n);
            var m := And(n, Pow2(b + b) - 1);
            l.i == Shr(n, b + b) && l.j == Shr(m, b) && l.k == And(m, Pow2(b) - 1)
  {
    var b := Log2Dim(level);
    PowersOfLevel(level);
    Pow2Sum(b, b);
    MaskIsModulo(n, b + b);
    ShrIsDivision(n, b + b);
    var m := n % Pow2(b + b);
    MaskIsModulo(m, b);
    ShrIsDivision(m, b);
  }

  /** localToGlobalCoord: `<<= ChildT::TOTAL`, then `+=` the origin. */
  lemma {:induction false} GlobalIsShifted(level: Level, i: nat, origin: int32)
    requires AlignedComponent(origin, level) && i < Fan(level)
    ensures LocalToGlobal(level, i, origin) == Shl(i, Total(level) - Log2Dim(level)) + origin
  {
    PowersOfLevel(level);
    ShlIsMultiplication(i, Total(level) - Log2Dim(level));
  }

  /* ---- the dirty word of the single-key accessors ---- */

  /** computeDirty: the bits in which two coordinates differ. */
  function Dirty(a: Coord, b: Coord): int {
    Or(Or(Xor(a.x, b.x), Xor(a.y, b.y)), Xor(a.z, b.z))
  }

  /** `dirty & ~MASK` is nonzero exactly when the coordinates lie in different nodes. */
  lemma DirtyMeansOtherNode(level: Level, a: Coord, b: Coord)
    ensures And(Dirty(a, b), Not(Dim(level) - 1)) != 0 <==> !SameBlock(a, b, level)
  {
    var k := Total(level);
    PowersOfLevel(level);
    var dx, dy, dz := Xor(a.x, b.x), Xor(a.y, b.y), Xor(a.z, b.z);
    MaskIsRemainder(Dirty(a, b), k);
    ShlIsMultiplication(Shr(Dirty(a, b), k), k);
    ShrOfOr(Or(dx, dy), dz, k);
    ShrOfOr(dx, dy, k);
    OrIsZero(Or(Shr(dx, k), Shr(dy, k)), Shr(dz, k));
    OrIsZero(Shr(dx, k), Shr(dy, k));
    SameHighBits(level, a.x, b.x);
    SameHighBits(level, a.y, b.y);
    SameHighBits(level, a.z, b.z);
  }

  lemma SameHighBits(level: Level, x: int32, y: int32)
    ensures Shr(Xor(x, y), Total(level)) == 0 <==> Floor(x, level) == Floor(y, level)
  {
    var k := Total(level);
    PowersOfLevel(level);
    ShrOfXor(x, y, k);
    XorIsZero(Shr(x, k), Shr(y, k));
    ShrIsDivision(x, k);
    ShrIsDivision(y, k);
  }

  /* ---- root keys ---- */

  const TWO32 := 0x1_0000_0000

  /** The conversion of an int32_t to uint32_t. */
  function ToUInt32(x: int32): nat {
    x % TWO32
  }

  /** The conversion of an unsigned word to int32_t, which keeps the low 32 bits. */
  function ToInt32(v: nat): int32 {
    var m := v % TWO32;
    if m > INT32_MAX then m - TWO32 else m
  }

  /** RootData::CoordToKey with NANOVDB_USE_SINGLE_ROOT_KEY. */
  function CoordToKey(c: Coord): int {
    Or(Or(Shr(ToUInt32(c.z), 12), Shl(Shr(ToUInt32(c.y), 12), 21)), Shl(Shr(ToUInt32(c.x), 12), 42))
  }

  /** RootData::KeyToCoord. */
  function KeyToCoord(key: nat): Coord {
    Coord(ToInt32(Field(key, 42)), ToInt32(Field(key, 21)), ToInt32(Field(key, 0)))
  }

  /** `((key >> k) & MASK) << TOTAL` with the 21-bit MASK. */
  function Field(key: nat, k: nat): nat {
    ShrIsDivision(key, k);
    key / Pow2(k) % 0x20_0000 * 4096
  }

  /** The key that PNanoVDB assembles from two 32-bit words, low word first; `<<` drops
      the bits that leave the word. */
  function CoordToSplitKey(c: Coord): (int, int) {
    var iu, ju, ku := Shr(ToUInt32(c.x), 12), Shr(ToUInt32(c.y), 12), Shr(ToUInt32(c.z), 12);
    (Or(ku, Shl(ju, 21) % TWO32), Or(Shl(iu, 10) % TWO32, Shr(ju, 11)))
  }

  lemma UnsignedBlock(x: int32)
    ensures ToUInt32(x) == if x < 0 then x + TWO32 else x
    ensures ToUInt32(x) / 4096 == if x < 0 then x / 4096 + 0x10_0000 else x / 4096
  {
    DivModUnique(x / 4096 + 0x10_0000, x % 4096, 4096);
    if x < 0 {
      DivModUnique(-1, x + TWO32, TWO32);
    }
  }

  lemma BlockNumber(x: int32)
    ensures Shr(ToUInt32(x), 12) == ToUInt32(x) / 4096
    ensures 0 <= ToUInt32(x) / 4096 < 0x10_0000
    ensures ToInt32(ToUInt32(x) / 4096 * 4096) == Floor(x, 2)
  {
    assert Pow2(12) == 4096 by { Pow2Constants(); }
    ShrIsDivision(ToUInt32(x), 12);
    UnsignedBlock(x);
  }

  /** Three block numbers side by side. */
  lemma KeyIsSum(c: Coord)
    ensures var i, j, k := Shr(ToUInt32(c.x), 12), Shr(ToUInt32(c.y), 12), Shr(ToUInt32(c.z), 12);
            CoordToKey(c) == i * 0x400_0000_0000 + j * 0x20_0000 + k
  {
    var i, j, k := Shr(ToUInt32(c.x), 12), Shr(ToUInt32(c.y), 12), Shr(ToUInt32(c.z), 12);
    BlockNumber(c.x);
    BlockNumber(c.y);
    BlockNumber(c.z);
    Pow2Constants();
    ShlIsMultiplication(i, 42);
    ShlIsMultiplication(j, 21);
    OrIsSum(j, 21, k);
    OrIsSum(i, 42, Shl(j, 21) + k);
  }

  lemma FieldsOfSum(i: nat, j: nat, k: nat)
    requires i < 0x10_0000 && j < 0x10_0000 && k < 0x10_0000
    ensures var key := i * 0x400_0000_0000 + j * 0x20_0000 + k;
            Field(key, 42) == i * 4096 && Field(key, 21) == j * 4096 && Field(key, 0) == k * 4096
  {
    assert Pow2(42) == 0x400_0000_0000 && Pow2(21) == 0x20_0000 && Pow2(0) == 1 by { Pow2Constants(); }
    DivModUnique(i, j * 0x20_0000 + k, 0x400_0000_0000);
    DivModUnique(i * 0x20_0000 + j, k, 0x20_0000);
    DivModUnique(i, j, 0x20_0000);
  }

  /** Packing and unpacking a root key clears exactly the low twelve bits of each component. */
  lemma KeyRoundTrip(c: Coord)
    ensures CoordToKey(c) >= 0
    ensures KeyToCoord(CoordToKey(c)) == Block(c, 2)
  {
    KeyIsSum(c);
    BlockNumber(c.x);
    BlockNumber(c.y);
    BlockNumber(c.z);
    FieldsOfSum(ToUInt32(c.x) / 4096, ToUInt32(c.y) / 4096, ToUInt32(c.z) / 4096);
  }

  /** Equal keys mean the same 4096-block, so either kind of root key finds the same tile. */
  lemma KeysIdentifyBlocks(a: Coord, b: Coord)
    ensures CoordToKey(a) == CoordToKey(b) <==> SameBlock(a, b, 2)
  {
    KeyRoundTrip(a);
    KeyRoundTrip(b);
    KeyIsSum(a);
    KeyIsSum(b);
    if SameBlock(a, b, 2) {
      SameFloorSameNumber(a.x, b.x);
      SameFloorSameNumber(a.y, b.y);
      SameFloorSameNumber(a.z, b.z);
    }
  }

  lemma SameFloorSameNumber(x: int32, y: int32)
    requires Floor(x, 2) == Floor(y, 2)
    ensures Shr(ToUInt32(x), 12) == Shr(ToUInt32(y), 12)
  {
    BlockNumber(x);
    BlockNumber(y);
    UnsignedBlock(x);
    UnsignedBlock(y);
  }

  /** The two 32-bit words of a split key are the low and high halves of the native key. */
  lemma SplitKeyIsKey(c: Coord)
    ensures var (low, high) := CoordToSplitKey(c);
            low + high * TWO32 == CoordToKey(c) && 0 <= low < TWO32 && 0 <= high < TWO32
  {
    var i, j, k := ToUInt32(c.x) / 4096, ToUInt32(c.y) / 4096, ToUInt32(c.z) / 4096;
    KeyIsSum(c);
    BlockNumber(c.x);
    BlockNumber(c.y);
    BlockNumber(c.z);
    SplitWords(i, j, k);
  }

  lemma SplitWords(i: nat, j: nat, k: nat)
    requires i < 0x10_0000 && j < 0x10_0000 && k < 0x10_0000
    ensures Or(k, Shl(j, 21) % TWO32) == j % 2048 * 0x20_0000 + k
    ensures Or(Shl(i, 10) % TWO32, Shr(j, 11)) == i * 1024 + j / 2048
  {
    LowWord(j, k);
    HighWord(i, j);
  }

  lemma LowWord(j: nat, k: nat)
    requires j < 0x10_0000 && k < 0x10_0000
    ensures Or(k, Shl(j, 21) % TWO32) == j % 2048 * 0x20_0000 + k
  {
    assert Pow2(21) == 0x20_0000 by { Pow2Constants(); }
    ShlIsMultiplication(j, 21);
    ShlIsMultiplication(j % 2048, 21);
    assert j * 0x20_0000 % TWO32 == j % 2048 * 0x20_0000 by {
      DivModUnique(j / 2048, j % 2048 * 0x20_0000, TWO32);
    }
    OrIsSum(j % 2048, 21, k);
  }

  lemma HighWord(i: nat, j: nat)
    requires i < 0x10_0000 && j < 0x10_0000
    ensures Or(Shl(i, 10) % TWO32, Shr(j, 11)) == i * 1024 + j / 2048
  {
    assert Pow2(10) == 1024 && Pow2(11) == 2048 by { Pow2Constants(); }
    ShlIsMultiplication(i, 10);
    assert Shl(i, 10) % TWO32 == Shl(i, 10);
    ShrIsDivision(j, 11);
    assert Shr(j, 11) < Pow2(10);
    OrIsSum(i, 10, Shr(j, 11));
  }
}
