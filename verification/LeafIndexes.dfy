/** LeafData<ValueOnIndex> of NanoVDB.h: the index of an active voxel is the leaf's offset
    plus the voxel's rank, found with one count and one packed 9-bit prefix sum; and the
    loop of CreateNanoGrid.h that packs the prefix sums. */
module LeafIndexes {
  import Arith
  import opened Bits
  import opened Masks
  import opened Words64

  const WORDS := 8
  const SIZE := 512
  const RANGE := 0x1_0000_0000_0000_0000

  function FieldOf(prefixSum: Word, j: nat): int {
    prefixSum / Pow2(9 * j) % 512
  }

  datatype LeafData = LeafData(words: seq<Word>, mOffset: Word, mPrefixSum: Word) {
    /** `mPrefixSum >> 9 * j & 511`, see `FieldIsShiftAndMask`. */
    function Field(j: nat): (r: int)
      ensures 0 <= r < 512
    {
      FieldOf(mPrefixSum, j)
    }

    /** Field j counts the bits of words 0 to j; there are seven fields. */
    ghost predicate WellFormed() {
      |words| == WORDS && forall j | 0 <= j < WORDS - 1 :: Field(j) == Rank(words, 64 * (j + 1))
    }

    /** The index of a voxel: the offset plus the rank, zero if inactive.  Arithmetic wraps at
        64 bits. */
    ghost function IndexOf(i: nat): Word
      requires |words| == WORDS && i < SIZE
    {
      if BitAt(words, i) then (mOffset + Rank(words, i)) % RANGE else 0
    }

    /** getValue: one test, one count, one field. */
    method GetValue(i: nat) returns (r: Word)
      requires WellFormed() && i < SIZE
      ensures r == IndexOf(i)
    {
      var n := i / 64;
      assert i == 64 * n + i % 64 && BitAt(words, i) == Bit(words[n], i % 64);
      var on, below := TestAndCount(words[n], i % 64);
      if !on {
        return 0;
      }
      var sum := (mOffset + below) % RANGE;
      SumIsIndex(this, n, i % 64);
      if n > 0 {
        sum := (sum + Field(n - 1)) % RANGE;
      }
      return sum;
    }

    /** valueCount. */
    function ValueCount(): int
      requires |words| == WORDS
    {
      CountOn(words[7]) + Field(6)
    }
  }

  /** `w & mask` and `countOn(w & (mask - 1))` for a mask of one bit. */
  method TestAndCount(w: Word, m: nat) returns (on: bool, below: nat)
    requires m < 64
    ensures on == Bit(w, m) && below == Ones(w, m)
  {
    var mask := Shl64(1, m);
    BitTest(w, m);
    CountBelow(w, m);
    on, below := And64(w, mask) != 0, CountOn(And64(w, mask - 1));
  }

  lemma {:induction false} SumIsIndex(leaf: LeafData, n: nat, m: nat)
    requires leaf.WellFormed() && n < WORDS && m < 64
    ensures var sum := (leaf.mOffset + Ones(leaf.words[n], m)) % RANGE;
            (if n > 0 then (sum + leaf.Field(n - 1)) % RANGE else sum) ==
                (leaf.mOffset + Rank(leaf.words, 64 * n + m)) % RANGE
  {
    RankOfPart(leaf.words, n, m);
    if n > 0 {
      assert leaf.Field(n - 1) == Rank(leaf.words, 64 * (n - 1 + 1));
      WrapTwice(leaf.mOffset, Ones(leaf.words[n], m), leaf.Field(n - 1));
    }
  }

  lemma WrapTwice(a: int, b: int, c: int)
    ensures ((a + b) % RANGE + c) % RANGE == (a + (c + b)) % RANGE
  {
  }

  /** valueCount is the number of active voxels. */
  lemma ValueCountIsPopulation(leaf: LeafData)
    requires leaf.WellFormed()
    ensures leaf.ValueCount() == Rank(leaf.words, SIZE)
  {
    RankOfPart(leaf.words, 7, 64);
    assert leaf.Field(6) == Rank(leaf.words, 64 * (6 + 1));
  }

  lemma {:induction false} RankGrows(words: seq<Word>, i: nat, k: nat)
    requires i <= k <= 64 * |words|
    ensures Rank(words, i) <= Rank(words, k)
    ensures i < k && BitAt(words, i) ==> Rank(words, i) < Rank(words, k)
    decreases k
  {
    if i < k {
      RankGrows(words, i, k - 1);
    }
  }

  lemma {:induction false} RankReached(words: seq<Word>, n: nat, r: nat) returns (i: nat)
    requires n <= 64 * |words| && r < Rank(words, n)
    ensures i < n && BitAt(words, i) && Rank(words, i) == r
  {
    if r == Rank(words, n - 1) {
      i := n - 1;
    } else {
      i := RankReached(words, n - 1, r);
    }
  }

  /** Active voxels map into the leaf's range of indices, in order, as long as that range does
      not wrap; `IndexIsOnto` completes the bijection. */
  lemma IndexIsMonotone(leaf: LeafData, i: nat, k: nat)
    requires leaf.WellFormed() && leaf.mOffset + leaf.ValueCount() <= RANGE
    requires i < SIZE && BitAt(leaf.words, i) && k < SIZE && BitAt(leaf.words, k)
    ensures leaf.mOffset <= leaf.IndexOf(i) < leaf.mOffset + leaf.ValueCount()
    ensures i < k <==> leaf.IndexOf(i) < leaf.IndexOf(k)
  {
    IndexInRange(leaf, i);
    IndexInRange(leaf, k);
    if i < k {
      RankGrows(leaf.words, i, k);
    } else {
      RankGrows(leaf.words, k, i);
    }
  }

  lemma IndexInRange(leaf: LeafData, i: nat)
    requires leaf.WellFormed() && leaf.mOffset + leaf.ValueCount() <= RANGE && i < SIZE && BitAt(leaf.words, i)
    ensures leaf.IndexOf(i) == leaf.mOffset + Rank(leaf.words, i) < leaf.mOffset + leaf.ValueCount()
  {
    ValueCountIsPopulation(leaf);
    RankGrows(leaf.words, i, SIZE);
    NoWrap(leaf.mOffset + Rank(leaf.words, i));
  }

  lemma NoWrap(x: int)
    requires 0 <= x < RANGE
    ensures x % RANGE == x
  {
  }

  lemma IndexIsOnto(leaf: LeafData, v: int) returns (i: nat)
    requires leaf.WellFormed() && leaf.mOffset + leaf.ValueCount() <= RANGE
    requires leaf.mOffset <= v < leaf.mOffset + leaf.ValueCount()
    ensures i < SIZE && BitAt(leaf.words, i) && leaf.IndexOf(i) == v
  {
    ValueCountIsPopulation(leaf);
    i := RankReached(leaf.words, SIZE, v - leaf.mOffset);
    IndexInRange(leaf, i);
  }

  /* ---- packing ---- */

  lemma FieldIsShiftAndMask(leaf: LeafData, j: nat)
    ensures And(Shr(leaf.mPrefixSum, 9 * j), 511) == leaf.Field(j)
  {
    var x := Shr(leaf.mPrefixSum, 9 * j);
    ShrIsDivision(leaf.mPrefixSum, 9 * j);
    MaskIsRemainder(x, 9);
    assert Pow2(9) == 512;
    ShrIsDivision(x, 9);
    ShlIsMultiplication(Shr(x, 9), 9);
  }

  /** Another field on top leaves the lower ones alone. */
  lemma FieldOnTop(p: nat, s: nat, j: nat, k: nat)
    requires p < Pow2(9 * j) && s < 512 && k <= j
    ensures (p + s * Pow2(9 * j)) / Pow2(9 * k) % 512 == if k < j then p / Pow2(9 * k) % 512 else s
  {
    if k == j {
      Arith.DivModUnique(s, p, Pow2(9 * j));
    } else {
      Pow2Sum(9 * k, 9 * (j - k));
      Pow2Sum(9, 9 * (j - k - 1));
      assert Pow2(9) == 512;
      FieldBelow(p, s, Pow2(9 * k), Pow2(9 * (j - k - 1)));
    }
  }

  lemma FieldBelow(p: nat, s: nat, q: nat, e: nat)
    requires q > 0
    ensures (p + s * (q * (512 * e))) / q % 512 == p / q % 512
  {
    Reorder(s, q, e);
    AddProduct(p, 512 * (s * e), q);
    AddMultiple(p / q, s * e);
  }

  lemma Reorder(s: int, q: int, e: int)
    ensures s * (q * (512 * e)) == q * (512 * (s * e))
  {
    assert q * (512 * e) == 512 * (q * e);
    assert s * (512 * (q * e)) == 512 * (s * (q * e));
    assert s * (q * e) == q * (s * e);
    assert 512 * (q * (s * e)) == q * (512 * (s * e));
  }

  lemma AddProduct(p: int, t: int, q: int)
    requires q > 0
    ensures (p + q * t) / q == p / q + t
  {
    assert p + q * t == q * (p / q + t) + p % q;
    Arith.DivModUnique(p / q + t, p % q, q);
  }

  lemma AddMultiple(a: int, t: int)
    ensures (a + 512 * t) % 512 == a % 512
  {
  }

  lemma FitsUnder(p: nat, s: nat, q: nat)
    requires p < q && s < 512
    ensures 0 <= s * q && p + s * q < 512 * q
  {
    assert s * q <= 511 * q;
  }

  lemma {:induction false} OrShifted(p: nat, s: nat, k: nat)
    requires p < Pow2(k)
    ensures Shl(s, k) == s * Pow2(k) && Or(p, Shl(s, k)) == s * Pow2(k) + p
  {
    ShlIsMultiplication(s, k);
    OrIsSum(s, k, p);
  }

  /** `p | s << 9 * j` for a p that fits below. */
  lemma {:induction false} OrField(p: Word, s: Word, j: nat)
    requires p < Pow2(9 * j) && s < 512 && j < 7
    ensures Or64(p, Shl64(s, 9 * j)) == p + s * Pow2(9 * j) < Pow2(9 * (j + 1))
  {
    var q := Pow2(9 * j);
    FitsUnder(p, s, q);
    assert Pow2(9 * (j + 1)) == 512 * q < RANGE by {
      NextField(j);
    }
    OrShifted(p, s, 9 * j);
    NoWrap(s * q);
  }

  lemma {:induction false} NextField(j: nat)
    requires j < 7
    ensures Pow2(9 * (j + 1)) == 512 * Pow2(9 * j) < RANGE
  {
    Pow2Sum(9, 9 * j);
    assert Pow2(9) == 512;
    Pow2Less(9 * (j + 1), 64);
    assert Pow2(64) == RANGE by {
      Pow2Constants();
    }
  }

  /** The first fields count the bits of their words. */
  ghost predicate Packed(words: seq<Word>, prefixSum: Word, j: nat)
    requires |words| == WORDS && j < WORDS
  {
    prefixSum < Pow2(9 * j) && forall k: nat | k < j :: FieldOf(prefixSum, k) == Rank(words, 64 * (k + 1))
  }

  /** `prefixSum |= sum << n`. */
  method AddField(words: seq<Word>, prefixSum: Word, sum: Word, j: nat) returns (r: Word)
    requires |words| == WORDS && j < 7 && Packed(words, prefixSum, j)
    requires sum == Rank(words, 64 * (j + 1)) < 512
    ensures Packed(words, r, j + 1)
  {
    OrField(prefixSum, sum, j);
    r := Or64(prefixSum, Shl64(sum, 9 * j));
    PackedNext(words, prefixSum, sum, j, r);
  }

  lemma PackedNext(words: seq<Word>, p: Word, s: Word, j: nat, r: Word)
    requires |words| == WORDS && j < 7 && Packed(words, p, j) && s == Rank(words, 64 * (j + 1)) < 512
    requires r == p + s * Pow2(9 * j) < Pow2(9 * (j + 1))
    ensures Packed(words, r, j + 1)
  {
    forall k: nat | k < j + 1 ensures FieldOf(r, k) == Rank(words, 64 * (k + 1)) {
      FieldAfter(p, s, j, k, r);
    }
  }

  lemma FieldAfter(p: Word, s: Word, j: nat, k: nat, r: Word)
    requires p < Pow2(9 * j) && s < 512 && k <= j && r == p + s * Pow2(9 * j)
    ensures FieldOf(r, k) == if k < j then FieldOf(p, k) else s
  {
    FieldOnTop(p, s, j, k);
  }

  lemma PackedFirst(words: seq<Word>)
    requires |words| == WORDS
    ensures CountOn(words[0]) == Rank(words, 64) && Packed(words, CountOn(words[0]), 1)
  {
    RankOfPart(words, 0, 64);
    assert Pow2(9) == 512;
  }

  lemma PackedAll(words: seq<Word>, prefixSum: Word, offset: Word)
    requires |words| == WORDS && Packed(words, prefixSum, 7)
    ensures LeafData(words, offset, prefixSum).WellFormed()
  {
    forall j: nat | 0 <= j < WORDS - 1
      ensures LeafData(words, offset, prefixSum).Field(j) == Rank(words, 64 * (j + 1))
    {
      assert FieldOf(prefixSum, j) == Rank(words, 64 * (j + 1));
    }
  }

  /** The loop of CreateNanoGrid::processLeafs. */
  method PackPrefixSum(words: seq<Word>) returns (prefixSum: Word)
    requires |words| == WORDS
    ensures forall offset: Word :: LeafData(words, offset, prefixSum).WellFormed()
  {
    var sum := CountOn(words[0]);
    prefixSum := sum;
    PackedFirst(words);
    for j := 1 to 7
      invariant sum == Rank(words, 64 * j) && Packed(words, prefixSum, j)
    {
      RankOfPart(words, j, 64);
      sum := sum + CountOn(words[j]);
      prefixSum := AddField(words, prefixSum, sum, j);
    }
    forall offset: Word ensures LeafData(words, offset, prefixSum).WellFormed() {
      PackedAll(words, prefixSum, offset);
    }
  }
}
