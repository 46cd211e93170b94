/** LeafNode::updateBBox of NanoVDB.h: the box of the active voxels of a leaf, found by
    folding the 512-bit mask into words of 64, 32, 16 and 8 bits. */
module LeafBoxes {
  import Arith
  import opened Bits
  import opened LeafIndexes
  import opened Masks
  import opened Words64

  /* ---- words as sets of bits ---- */

  ghost function BitSet(w: Word): set<nat> {
    set i: nat | i < 64 && Bit(w, i)
  }

  lemma BitSetOfNonZero(w: Word)
    ensures w != 0 <==> BitSet(w) != {}
  {
    if w != 0 {
      NonZeroHasBit(w);
      var i: nat :| i < 64 && Bit(w, i);
      assert i in BitSet(w);
    } else {
      forall i: nat ensures i !in BitSet(w) {
        ZeroHasNoBits(i);
      }
    }
  }

  method Union(v: Word, w: Word) returns (u: Word)
    ensures BitSet(u) == BitSet(v) + BitSet(w)
  {
    u := Or64(v, w);
    forall i: nat | i < 64 ensures i in BitSet(u) <==> i in BitSet(v) + BitSet(w) {
      BitOfOr(v, w, i);
    }
  }

  /** Lowest and highest bits set. */
  method Ends(w: Word) returns (lo: nat, hi: nat)
    requires w != 0
    ensures lo <= hi < 64 && lo in BitSet(w) && hi in BitSet(w) && forall i | i in BitSet(w) :: lo <= i <= hi
  {
    lo, hi := FindLowest(w), FindHighest(w);
  }

  ghost function Modulo(s: set<nat>, k: nat): set<nat>
    requires k > 0
  {
    set i | i in s :: i % k
  }

  /** `p[0] | p[1]` for the two halves of a word of 2 * k bits. */
  method FoldHalves(w: Word, k: nat) returns (r: Word)
    requires 0 < k < 64 && forall i | i in BitSet(w) :: i < 2 * k
    ensures BitSet(r) == Modulo(BitSet(w), k)
  {
    HalvesAreWords(w, k);
    var low, high := w % Pow2(k), w / Pow2(k);
    forall i: nat ensures Bit(low, i) == (i < k && Bit(w, i)) && Bit(high, i) == Bit(w, i + k) {
      BitOfHalves(w, k, i);
    }
    r := Union(low, high);
    forall i: nat ensures i in BitSet(r) <==> i in Modulo(BitSet(w), k) {
      InModulo(w, k, i);
      if Bit(high, i) {
        BelowSixtyFour(w, i + k);
        assert i + k in BitSet(w);
      }
    }
  }

  lemma InModulo(w: Word, k: nat, i: nat)
    requires 0 < k < 64 && forall j | j in BitSet(w) :: j < 2 * k
    ensures i in Modulo(BitSet(w), k) <==> i < k && (Bit(w, i) || Bit(w, i + k))
  {
    if i in Modulo(BitSet(w), k) {
      var j :| j in BitSet(w) && i == j % k;
      RemainderOfHalf(j, k);
    }
    if i < k && Bit(w, i) {
      RemainderOfHalf(i, k);
      assert i in BitSet(w);
    }
    if i < k && Bit(w, i + k) {
      RemainderOfHalf(i + k, k);
      BelowSixtyFour(w, i + k);
      assert i + k in BitSet(w);
    }
  }

  lemma RemainderOfHalf(j: nat, k: nat)
    requires 0 < k && j < 2 * k
    ensures j % k == if j < k then j else j - k
  {
    if j < k {
      Arith.DivModUnique(0, j, k);
    } else {
      Arith.DivModUnique(1, j - k, k);
    }
  }

  lemma BelowSixtyFour(w: Word, i: nat)
    requires Bit(w, i)
    ensures i < 64
  {
    if i >= 64 {
      WordBitBeyond(w, i);
    }
  }

  lemma HalvesAreWords(w: Word, k: nat)
    ensures 0 <= w % Pow2(k) <= w && 0 <= w / Pow2(k) <= w
  {
    DivAtMost(w, Pow2(k));
  }

  lemma DivAtMost(w: nat, p: nat)
    requires p > 0
    ensures 0 <= w / p <= w && 0 <= w % p <= w
  {
    var q := w / p;
    assert w == p * q + w % p;
    MulAtLeast(p, q);
  }

  lemma MulAtLeast(p: nat, q: nat)
    requires p > 0
    ensures p * q >= q
  {
  }

  lemma BitOfHalves(w: Word, k: nat, i: nat)
    ensures Bit(w % Pow2(k), i) == (i < k && Bit(w, i))
    ensures Bit(w / Pow2(k), i) == Bit(w, i + k)
  {
    ShrIsDivision(w, k);
    BitOfShr(w, k, i);
    if i < k {
      BitOfRemainder(w, k, i);
    } else {
      BitBeyond(w % Pow2(k), k, i);
    }
  }

  lemma ModuloTwice(s: set<nat>, k: nat)
    requires k > 0
    ensures Modulo(Modulo(s, 2 * k), k) == Modulo(s, k)
  {
    forall i | i in s ensures i % (2 * k) % k == i % k && i % (2 * k) in Modulo(s, 2 * k) {
      var q, r := i / (2 * k), i % (2 * k);
      assert i == (2 * k) * q + r;
      assert (2 * k) * q == k * (2 * q);
      assert r == k * (r / k) + r % k;
      assert i == k * (2 * q + r / k) + r % k by {
        assert k * (2 * q + r / k) == k * (2 * q) + k * (r / k);
      }
      Arith.DivModUnique(2 * q + r / k, r % k, k);
    }
  }

  /** The three folds. */
  method FoldToByte(word64: Word) returns (b: Word)
    ensures BitSet(b) == Modulo(BitSet(word64), 8)
  {
    var word32 := FoldHalves(word64, 32);
    var word16 := FoldHalves(word32, 16);
    b := FoldHalves(word16, 8);
    ModuloTwice(BitSet(word64), 16);
    ModuloTwice(BitSet(word64), 8);
  }

  /* ---- the extent along the axes ---- */

  /** The local coordinate of voxel n along an axis: the word, then the byte in the word, then
      the bit in the byte. */
  function Along(n: nat, axis: nat): nat {
    if axis == 0 then n / 64 else if axis == 1 then n % 64 / 8 else n % 8
  }

  ghost predicate HasVoxelAt(words: seq<Word>, axis: nat, c: int)
    requires |words| == WORDS
  {
    exists n: nat | n < SIZE :: BitAt(words, n) && Along(n, axis) == c
  }

  /** All active voxels are between lo and hi along the axis, and both are reached. */
  ghost predicate Tight(words: seq<Word>, axis: nat, lo: int, hi: int)
    requires |words| == WORDS
  {
    && (forall n: nat | n < SIZE && BitAt(words, n) :: lo <= Along(n, axis) <= hi)
    && HasVoxelAt(words, axis, lo) && HasVoxelAt(words, axis, hi)
  }

  lemma PlaceInWord(x: nat, i: nat)
    requires i < 64
    ensures (64 * x + i) / 64 == x && (64 * x + i) % 64 == i && (64 * x + i) % 8 == i % 8
  {
    Arith.DivModUnique(x, i, 64);
    var q, r := i / 8, i % 8;
    assert 64 * x + i == 8 * (8 * x + q) + r;
    Arith.DivModUnique(8 * x + q, r, 8);
  }

  /** Bit i of word x is a voxel. */
  lemma VoxelAt(words: seq<Word>, x: nat, i: nat, axis: nat)
    requires |words| == WORDS && x < WORDS && i in BitSet(words[x])
    ensures HasVoxelAt(words, axis, if axis == 0 then x else Along(i, axis))
  {
    var n := 64 * x + i;
    PlaceInWord(x, i);
    assert BitAt(words, n) && Along(n, axis) == if axis == 0 then x else Along(i, axis);
  }

  /** A voxel is a bit of its word. */
  lemma WordOfVoxel(words: seq<Word>, n: nat)
    requires |words| == WORDS && n < SIZE && BitAt(words, n)
    ensures n % 64 in BitSet(words[n / 64]) && words[n / 64] != 0
  {
    BitSetOfNonZero(words[n / 64]);
  }

  /** The bits of all words together, and where each comes from. */
  ghost predicate IsUnion(words: seq<Word>, k: nat, u: Word)
    requires k <= |words|
  {
    && (forall x | 0 <= x < k :: BitSet(words[x]) <= BitSet(u))
    && (forall i | i in BitSet(u) :: exists x | 0 <= x < k :: i in BitSet(words[x]))
  }

  /** First and last nonzero words; both 8 if there is none. */
  ghost predicate Extent(words: seq<Word>, k: nat, lo: nat, hi: nat)
    requires k <= |words|
  {
    if forall x | 0 <= x < k :: words[x] == 0 then lo == WORDS && hi == WORDS
    else lo <= hi < k && words[lo] != 0 && words[hi] != 0 && forall x | 0 <= x < k && words[x] != 0 :: lo <= x <= hi
  }

  /** The loop over the words. */
  method FoldWords(w: seq<Word>) returns (word64: Word, xMin: nat, xMax: nat)
    requires |w| == WORDS
    ensures IsUnion(w, WORDS, word64) && Extent(w, WORDS, xMin, xMax)
  {
    word64 := w[0];
    xMin := if word64 != 0 then 0 else 8;
    xMax := xMin;
    for i := 1 to 8
      invariant IsUnion(w, i, word64) && Extent(w, i, xMin, xMax)
    {
      BitSetOfNonZero(w[i]);
      if w[i] != 0 {
        word64 := Union(word64, w[i]);
        if xMin == 8 {
          xMin := i;
        }
        xMax := i;
      }
    }
  }

  lemma TightX(words: seq<Word>, lo: nat, hi: nat)
    requires |words| == WORDS && Extent(words, WORDS, lo, hi) && exists x | 0 <= x < WORDS :: words[x] != 0
    ensures lo <= hi < 8 && Tight(words, 0, lo, hi)
  {
    forall n: nat | n < SIZE && BitAt(words, n) ensures lo <= Along(n, 0) <= hi {
      WordOfVoxel(words, n);
    }
    BitSetOfNonZero(words[lo]);
    BitSetOfNonZero(words[hi]);
    var i :| i in BitSet(words[lo]);
    var j :| j in BitSet(words[hi]);
    VoxelAt(words, lo, i, 0);
    VoxelAt(words, hi, j, 0);
  }

  /** A bit of the union comes from a voxel with the same place in its word. */
  lemma VoxelOfUnion(words: seq<Word>, u: Word, i: nat, axis: nat)
    requires |words| == WORDS && IsUnion(words, WORDS, u) && i in BitSet(u) && axis > 0
    ensures HasVoxelAt(words, axis, Along(i, axis))
  {
    var x :| 0 <= x < WORDS && i in BitSet(words[x]);
    VoxelAt(words, x, i, axis);
  }

  lemma UnionNonZero(words: seq<Word>, u: Word)
    requires |words| == WORDS && IsUnion(words, WORDS, u) && exists x | 0 <= x < WORDS :: words[x] != 0
    ensures u != 0
  {
    var x :| 0 <= x < WORDS && words[x] != 0;
    BitSetOfNonZero(words[x]);
    BitSetOfNonZero(u);
  }

  lemma TightY(words: seq<Word>, u: Word, lo: nat, hi: nat)
    requires |words| == WORDS && IsUnion(words, WORDS, u)
    requires lo <= hi < 64 && lo in BitSet(u) && hi in BitSet(u) && forall i | i in BitSet(u) :: lo <= i <= hi
    ensures Tight(words, 1, lo / 8, hi / 8)
  {
    forall n: nat | n < SIZE && BitAt(words, n) ensures lo / 8 <= Along(n, 1) <= hi / 8 {
      WordOfVoxel(words, n);
      assert n % 64 in BitSet(u);
    }
    VoxelOfUnion(words, u, lo, 1);
    VoxelOfUnion(words, u, hi, 1);
  }

  lemma TightZ(words: seq<Word>, u: Word, b: Word, lo: nat, hi: nat)
    requires |words| == WORDS && IsUnion(words, WORDS, u) && BitSet(b) == Modulo(BitSet(u), 8)
    requires lo <= hi < 64 && lo in BitSet(b) && hi in BitSet(b) && forall i | i in BitSet(b) :: lo <= i <= hi
    ensures hi < 8 && Tight(words, 2, lo, hi)
  {
    forall n: nat | n < SIZE && BitAt(words, n) ensures lo <= Along(n, 2) <= hi {
      WordOfVoxel(words, n);
      InFoldedByte(BitSet(u), n);
    }
    ReachedZ(words, u, lo);
    ReachedZ(words, u, hi);
  }

  lemma InFoldedByte(s: set<nat>, n: nat)
    requires n % 64 in s
    ensures n % 8 in Modulo(s, 8)
  {
    assert n % 64 % 8 == n % 8;
  }

  lemma ReachedZ(words: seq<Word>, u: Word, z: nat)
    requires |words| == WORDS && IsUnion(words, WORDS, u) && z in Modulo(BitSet(u), 8)
    ensures z < 8 && HasVoxelAt(words, 2, z)
  {
    var i :| i in BitSet(u) && z == i % 8;
    VoxelOfUnion(words, u, i, 2);
  }

  /** `mFlags |= 2` and `mFlags &= ~2`. */
  function WithBBoxFlag(flags: nat, on: bool): nat {
    flags - 2 * (flags / 2 % 2) + (if on then 2 else 0)
  }

  lemma BBoxFlag(flags: nat, on: bool)
    requires flags < 256
    ensures var r := WithBBoxFlag(flags, on);
            r < 256 && (r / 2 % 2 == 1 <==> on) && r % 2 == flags % 2 && r / 4 == flags / 4
  {
  }

  class LeafNode {
    var mBBoxMin: seq<int>
    var mBBoxDif: seq<int>
    var mFlags: nat
    const mValueMask: seq<Word>

    constructor (origin: seq<int>, mask: seq<Word>)
      requires |origin| == 3 && |mask| == WORDS
      ensures Valid() && mBBoxMin == origin && mValueMask == mask && !HasBBox()
    {
      mBBoxMin, mBBoxDif, mFlags, mValueMask := origin, [0, 0, 0], 0, mask;
    }

    ghost predicate Valid()
      reads this
    {
      |mBBoxMin| == 3 && |mBBoxDif| == 3 && |mValueMask| == WORDS && mFlags < 256
    }

    /** hasBBox: bit 1 of the flags. */
    predicate HasBBox()
      reads this
    {
      mFlags / 2 % 2 == 1
    }

    /** Some voxel is active. */
    ghost predicate HasVoxel()
      requires |mValueMask| == WORDS
    {
      exists x | 0 <= x < WORDS :: mValueMask[x] != 0
    }

    /** The lambda `update`. */
    method Update(min: nat, max: nat, axis: nat)
      requires Valid() && min <= max < 8 && axis < 3
      modifies this`mBBoxMin, this`mBBoxDif
      ensures mBBoxMin == old(mBBoxMin)[axis := old(mBBoxMin)[axis] / 8 * 8 + min]
      ensures mBBoxDif == old(mBBoxDif)[axis := max - min]
      ensures mBBoxMin[axis] / 8 == old(mBBoxMin)[axis] / 8 && mBBoxMin[axis] % 8 == min
    {
      Corner(mBBoxMin[axis], min);
      mBBoxMin := mBBoxMin[axis := mBBoxMin[axis] / 8 * 8 + min];
      mBBoxDif := mBBoxDif[axis := max - min];
    }

    /** The box is tight along an axis; coordinates are relative to the origin of the node. */
    ghost predicate TightAlong(axis: nat)
      requires Valid() && axis < 3
      reads this
    {
      Tight(mValueMask, axis, mBBoxMin[axis] % 8, mBBoxMin[axis] % 8 + mBBoxDif[axis])
    }

    /** updateBBox: false exactly for an empty mask, which only loses its flag; otherwise the
        box becomes the tightest one of the active voxels.  The origin of the node, which the
        corner of the box also encodes, stays. */
    method UpdateBBox() returns (updated: bool)
      requires Valid()
      modifies this
      ensures Valid()
      ensures updated <==> HasVoxel()
      ensures HasBBox() == updated && mFlags % 2 == old(mFlags) % 2 && mFlags / 4 == old(mFlags) / 4
      ensures forall axis | 0 <= axis < 3 :: mBBoxMin[axis] / 8 == old(mBBoxMin)[axis] / 8
      ensures !updated ==> mBBoxMin == old(mBBoxMin) && mBBoxDif == old(mBBoxDif)
      ensures updated ==> TightAlong(0) && TightAlong(1) && TightAlong(2)
    {
      updated := !IsOff(mValueMask);
      BBoxFlag(mFlags, updated);
      if updated {
        UpdateAxes();
      }
      mFlags := WithBBoxFlag(mFlags, updated);
    }

    /** The three updates, for a mask with a voxel. */
    method UpdateAxes()
      requires Valid() && HasVoxel()
      modifies this`mBBoxMin, this`mBBoxDif
      ensures Valid()
      ensures forall axis | 0 <= axis < 3 :: mBBoxMin[axis] / 8 == old(mBBoxMin)[axis] / 8
      ensures TightAlong(0) && TightAlong(1) && TightAlong(2)
    {
      var word64, xMin, xMax := FoldWords(mValueMask);
      UnionNonZero(mValueMask, word64);
      TightX(mValueMask, xMin, xMax);
      Update(xMin, xMax, 0);
      var lo, hi := Ends(word64);
      TightY(mValueMask, word64, lo, hi);
      Update(lo / 8, hi / 8, 1);
      var b := FoldToByte(word64);
      assert lo % 8 in Modulo(BitSet(word64), 8);
      BitSetOfNonZero(b);
      var zMin, zMax := Ends(b);
      TightZ(mValueMask, word64, b, zMin, zMax);
      Update(zMin, zMax, 2);
    }
  }

  lemma Corner(c: int, m: nat)
    requires m < 8
    ensures (c / 8 * 8 + m) / 8 == c / 8 && (c / 8 * 8 + m) % 8 == m
  {
  }

  /** Mask::isOff. */
  predicate IsOff(words: seq<Word>) {
    forall x | 0 <= x < |words| :: words[x] == 0
  }
}
