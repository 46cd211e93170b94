/** The 64-bit arithmetic of PNanoVDB.h on pairs of 32-bit words (PNANOVDB_ADDRESS_32), and
    the value index of an ONINDEX leaf computed with it. */
module WordPairs {
  import Arith
  import opened Bits
  import opened Bytes
  import opened LeafIndexes
  import opened Masks
  import opened PopCount
  import opened Words64

  const HALF := 0x1_0000_0000

  datatype Pair = Pair(low: word32, high: word32)

  function Value(a: Pair): Word {
    HALF * a.high + a.low
  }

  function Split(w: Word): Pair {
    Pair(w % HALF, w / HALF)
  }

  /** pnanovdb_uint64_offset. */
  function Offset(a: Pair, b: word32): Pair {
    var low := (a.low + b) % HALF;
    Pair(low, if low < b then (a.high + 1) % HALF else a.high)
  }

  lemma OffsetIsSum(a: Pair, b: word32)
    ensures Value(Offset(a, b)) == (Value(a) + b) % RANGE
  {
    if a.low + b < HALF {
      assert (a.low + b) % HALF == a.low + b;
      NoWrap(Value(a) + b);
    } else {
      Arith.DivModUnique(1, a.low + b - HALF, HALF);
      NextHigh(a.high, a.low + b - HALF);
    }
  }

  /** A carry into the high word, or out of it. */
  lemma NextHigh(high: word32, low: word32)
    ensures HALF * ((high + 1) % HALF) + low == (HALF * (high + 1) + low) % RANGE
  {
    if high == HALF - 1 {
      Arith.DivModUnique(1, low, RANGE);
    } else {
      NoWrap(HALF * (high + 1) + low);
    }
  }

  /** pnanovdb_uint64_diff. */
  function Diff(a: Pair, b: Pair): Pair {
    var low := (a.low - b.low) % HALF;
    var high := if low > a.low then (a.high - 1) % HALF else a.high;
    Pair(low, (high - b.high) % HALF)
  }

  lemma DiffIsDifference(a: Pair, b: Pair)
    ensures Value(Diff(a, b)) == (Value(a) - Value(b)) % RANGE
  {
    var borrow := if a.low < b.low then 1 else 0;
    var low := a.low - b.low + HALF * borrow;
    Arith.DivModUnique(-borrow, low, HALF);
    assert (a.low - b.low) % HALF == low;
    var wrap := if a.high - borrow < b.high then 1 else 0;
    HighDiff(a.high, b.high, borrow, wrap);
    Arith.DivModUnique(-wrap, HALF * (a.high - borrow - b.high + HALF * wrap) + low, RANGE);
  }

  lemma HighDiff(a: word32, b: word32, borrow: int, wrap: int)
    requires borrow == 0 || borrow == 1
    requires wrap == if a - borrow < b then 1 else 0
    ensures ((if borrow == 1 then (a - 1) % HALF else a) - b) % HALF == a - borrow - b + HALF * wrap
  {
    var h := if borrow == 1 then (a - 1) % HALF else a;
    if borrow == 1 && a == 0 {
      Arith.DivModUnique(-1, HALF - 1, HALF);
      assert h == HALF - 1;
      Arith.DivModUnique(0, h - b, HALF);
    } else {
      assert h == a - borrow;
      Arith.DivModUnique(-wrap, h - b + HALF * wrap, HALF);
    }
  }

  /** pnanovdb_uint64_dec. */
  function Dec(a: Pair): Pair {
    Pair((a.low - 1) % HALF, if a.low == 0 then (a.high - 1) % HALF else a.high)
  }

  lemma DecIsPredecessor(a: Pair)
    ensures Value(Dec(a)) == (Value(a) - 1) % RANGE
  {
    if a.low > 0 {
      Arith.DivModUnique(0, a.low - 1, HALF);
      NoWrap(Value(a) - 1);
    } else {
      Arith.DivModUnique(-1, HALF - 1, HALF);
      if a.high > 0 {
        Arith.DivModUnique(0, a.high - 1, HALF);
        NoWrap(Value(a) - 1);
      } else {
        Arith.DivModUnique(-1, RANGE - 1, RANGE);
      }
    }
  }

  /* ---- bits ---- */

  lemma BitOfJoin(low: nat, high: int, k: nat, i: nat)
    requires low < Pow2(k)
    ensures Bit(Pow2(k) * high + low, i) == if i < k then Bit(low, i) else Bit(high, i - k)
  {
    assert Pow2(k) * high + low == Or(Shl(high, k), low) by {
      ShlIsMultiplication(high, k);
      OrIsSum(high, k, low);
    }
    BitOfOr(Shl(high, k), low, i);
    BitOfShl(high, k, i);
    if i >= k {
      BitBeyond(low, k, i);
    }
  }

  lemma BitOfValue(a: Pair, i: nat)
    ensures Bit(Value(a), i) == if i < 32 then Bit(a.low, i) else Bit(a.high, i - 32)
  {
    assert Pow2(32) == HALF by {
      Pow2Constants();
    }
    BitOfJoin(a.low, a.high, 32, i);
  }

  function And32(v: word32, w: word32): word32 {
    AndAtMost(v, w);
    And(v, w)
  }

  /** pnanovdb_uint64_and. */
  function AndPair(a: Pair, b: Pair): Pair {
    Pair(And32(a.low, b.low), And32(a.high, b.high))
  }

  lemma AndPairIsAnd(a: Pair, b: Pair)
    ensures Value(AndPair(a, b)) == And64(Value(a), Value(b))
  {
    forall i: nat ensures Bit(Value(AndPair(a, b)), i) == Bit(And64(Value(a), Value(b)), i) {
      BitOfAnd(Value(a), Value(b), i);
      BitOfValue(a, i);
      BitOfValue(b, i);
      BitOfValue(AndPair(a, b), i);
      if i < 32 {
        BitOfAnd(a.low, b.low, i);
      } else {
        BitOfAnd(a.high, b.high, i - 32);
      }
    }
    SameBitsSameWord(Value(AndPair(a, b)), And64(Value(a), Value(b)));
  }

  /** pnanovdb_uint64_any_bit. */
  predicate AnyBit(a: Pair) {
    a.low != 0 || a.high != 0
  }

  /** `1u << k` on 32 bits. */
  function Unit32(k: nat): word32
    requires k < 32
  {
    Shl(1, k) % HALF
  }

  lemma {:induction false} Unit32IsPow2(k: nat)
    requires k < 32
    ensures Unit32(k) == Pow2(k) < HALF
  {
    ShlIsMultiplication(1, k);
    SmallPow2(k);
  }

  lemma {:induction false} SmallPow2(k: nat)
    requires k < 32
    ensures Pow2(k) < HALF && Pow2(k) % HALF == Pow2(k)
  {
    Pow2Less(k, 32);
    assert Pow2(32) == HALF by {
      Pow2Constants();
    }
  }

  /** pnanovdb_uint64_bit_mask. */
  function BitMask(k: nat): Pair
    requires k < 64
  {
    Pair(if k < 32 then Unit32(k) else 0, if k >= 32 then Unit32(k - 32) else 0)
  }

  lemma BitMaskIsUnit(k: nat)
    requires k < 64
    ensures Value(BitMask(k)) == Shl64(1, k)
  {
    UnitIsPow2(k);
    if k < 32 {
      Unit32IsPow2(k);
    } else {
      Unit32IsPow2(k - 32);
      Pow2Sum(32, k - 32);
      assert Pow2(32) == HALF by {
        Pow2Constants();
      }
    }
  }

  /** pnanovdb_uint64_to_uint32_lsr: the low word of a shift to the right. */
  function Lsr32(a: Pair, b: nat): word32
    requires b < 64
  {
    if b >= 32 then ShrAtMost(a.high, b - 32); Shr(a.high, b - 32)
    else
      ShrAtMost(a.low, b);
      var over: word32 := if b > 0 then Shl(a.high, 32 - b) % HALF else 0;
      OrIsWord32(Shr(a.low, b), over);
      Or(Shr(a.low, b), over)
  }

  lemma OrIsWord32(v: word32, w: word32)
    ensures 0 <= Or(v, w) < HALF
  {
    OrIsWord(v, w);
    assert Pow2(32) == HALF by {
      Pow2Constants();
    }
    forall i: nat | i >= 32 ensures !Bit(Or(v, w), i) {
      BitOfOr(v, w, i);
      BitBeyond(v, 32, i);
      BitBeyond(w, 32, i);
    }
    SmallIffNoHighBits(Or(v, w), 32);
  }

  lemma BitOfLow(x: int, i: nat)
    ensures Bit(x % HALF, i) == (i < 32 && Bit(x, i))
  {
    assert Pow2(32) == HALF by {
      Pow2Constants();
    }
    if i < 32 {
      BitOfRemainder(x, 32, i);
    } else {
      BitBeyond(x % HALF, 32, i);
    }
  }

  lemma BitOfWord32(x: word32, i: nat)
    requires i >= 32
    ensures !Bit(x, i)
  {
    assert Pow2(32) == HALF by {
      Pow2Constants();
    }
    BitBeyond(x, 32, i);
  }

  lemma LsrIsShift(a: Pair, b: nat)
    requires b < 64
    ensures Lsr32(a, b) == Shr(Value(a), b) % HALF
  {
    forall i: nat ensures Bit(Lsr32(a, b), i) == Bit(Shr(Value(a), b) % HALF, i) {
      LsrBit(a, b, i);
    }
    SameBitsSameWord(Lsr32(a, b), Shr(Value(a), b) % HALF);
  }

  lemma LsrBit(a: Pair, b: nat, i: nat)
    requires b < 64
    ensures Bit(Lsr32(a, b), i) == Bit(Shr(Value(a), b) % HALF, i)
  {
    BitOfLow(Shr(Value(a), b), i);
    BitOfShr(Value(a), b, i);
    BitOfValue(a, b + i);
    if i >= 32 {
      BitOfWord32(Lsr32(a, b), i);
    } else if b >= 32 {
      BitOfShr(a.high, b - 32, i);
    } else {
      LsrLowBit(a, b, i);
    }
  }

  lemma LsrLowBit(a: Pair, b: nat, i: nat)
    requires b < 32 && i < 32
    ensures Bit(Lsr32(a, b), i) == if b + i < 32 then Bit(a.low, b + i) else Bit(a.high, b + i - 32)
  {
    var over := if b > 0 then Shl(a.high, 32 - b) % HALF else 0;
    BitOfOr(Shr(a.low, b), over, i);
    BitOfShr(a.low, b, i);
    if b + i >= 32 {
      BitOfWord32(a.low, b + i);
    }
    if b > 0 {
      BitOfLow(Shl(a.high, 32 - b), i);
      BitOfShl(a.high, 32 - b, i);
    } else {
      ZeroHasNoBits(i);
    }
  }

  /** pnanovdb_uint64_countbits. */
  method Countbits64(a: Pair) returns (count: word32)
    ensures count == CountOn(Value(a))
  {
    var low := Countbits32(a.low);
    var high := Countbits32(a.high);
    OnesOfPair(a, 64);
    count := low + high;
  }

  lemma {:induction false} OnesOfPair(a: Pair, k: nat)
    requires k <= 64
    ensures Ones(Value(a), k) == if k <= 32 then Ones(a.low, k) else Ones(a.low, 32) + Ones(a.high, k - 32)
  {
    if k > 0 {
      OnesOfPair(a, k - 1);
      BitOfValue(a, k - 1);
    }
  }

  /** pnanovdb_leaf_onindex_get_value_index: on pairs of words, the same index as the 64-bit
      code of LeafData<ValueOnIndex>. */
  method LeafOnIndexGetValueIndex(leaf: LeafData, n: nat) returns (index: Pair)
    requires leaf.WellFormed() && n < SIZE
    ensures Value(index) == leaf.IndexOf(n)
  {
    var wordIdx, bitIdx := n / 64, n % 64;
    var valMask := Split(leaf.words[wordIdx]);
    var on, below := TestAndCountPair(valMask, bitIdx);
    if !on {
      return Pair(0, 0);
    }
    var sum := below;
    if wordIdx > 0 {
      var field := PrefixField(leaf, wordIdx - 1);
      sum := sum + field;
    }
    OffsetOfLeaf(leaf, wordIdx, bitIdx, sum);
    index := Offset(Split(leaf.mOffset), sum);
  }

  lemma {:induction false} OffsetOfLeaf(leaf: LeafData, n: nat, m: nat, sum: word32)
    requires leaf.WellFormed() && n < 8 && m < 64
    requires sum == Ones(leaf.words[n], m) + (if n > 0 then leaf.Field(n - 1) else 0)
    ensures Value(Offset(Split(leaf.mOffset), sum)) == (leaf.mOffset + Rank(leaf.words, 64 * n + m)) % RANGE
  {
    assert (leaf.mOffset + sum) % RANGE == (leaf.mOffset + Rank(leaf.words, 64 * n + m)) % RANGE by {
      SumIsIndex(leaf, n, m);
      if n > 0 {
        WrapTwice(leaf.mOffset, Ones(leaf.words[n], m), leaf.Field(n - 1));
      }
    }
    OffsetIsSum(Split(leaf.mOffset), sum);
  }

  /** The test and the count of get_value_index. */
  method TestAndCountPair(valMask: Pair, bitIdx: nat) returns (on: bool, below: word32)
    requires bitIdx < 64
    ensures on == Bit(Value(valMask), bitIdx) && below == Ones(Value(valMask), bitIdx) <= 64
  {
    var mask := BitMask(bitIdx);
    BitMaskIsUnit(bitIdx);
    AndPairIsAnd(valMask, mask);
    BitTest(Value(valMask), bitIdx);
    on := AnyBit(AndPair(valMask, mask));
    DecIsPredecessor(mask);
    CountBelow(Value(valMask), bitIdx);
    NoWrap(Shl64(1, bitIdx) - 1);
    AndPairIsAnd(valMask, Dec(mask));
    below := Countbits64(AndPair(valMask, Dec(mask)));
  }

  /** `lsr(prefix_sum, 9 * j) & 511`. */
  method PrefixField(leaf: LeafData, j: nat) returns (field: word32)
    requires j < 7
    ensures field == leaf.Field(j) < 512
  {
    var p := Split(leaf.mPrefixSum);
    LsrIsShift(p, 9 * j);
    LowBitsSurvive(leaf, j);
    AndAtMost(Lsr32(p, 9 * j), 511);
    field := And(Lsr32(p, 9 * j), 511);
  }

  lemma LowBitsSurvive(leaf: LeafData, j: nat)
    requires j < 7
    ensures And(Shr(leaf.mPrefixSum, 9 * j) % HALF, 511) == leaf.Field(j)
  {
    var x := Shr(leaf.mPrefixSum, 9 * j);
    FieldIsShiftAndMask(leaf, j);
    forall i: nat ensures Bit(And(x % HALF, 511), i) == Bit(And(x, 511), i) {
      BitOfAnd(x % HALF, 511, i);
      BitOfAnd(x, 511, i);
      BitOfLow(x, i);
      if i >= 32 {
        BitOfWord32(511, i);
      }
    }
    SameBitsSameWord(And(x % HALF, 511), And(x, 511));
  }
}
