/** 64-bit unsigned machine words as integers, on top of `Bits`. */
module Words64 {
  import Arith
  import opened Bits

  type Word = x: int | 0 <= x < 0x1_0000_0000_0000_0000

  const ALL: Word := 0xffff_ffff_ffff_ffff

  /** `~w` on 64 bits. */
  function Not64(w: Word): Word {
    ALL - w
  }

  /** `w << k` on 64 bits. */
  function Shl64(w: Word, k: nat): Word {
    Shl(w, k) % 0x1_0000_0000_0000_0000
  }

  /* `&` and `|` of words are words. */

  lemma {:induction false} SmallIffNoHighBits(x: int, n: nat)
    requires x >= 0
    ensures x < Pow2(n) <==> forall i: nat | i >= n :: !Bit(x, i)
    decreases n, x
  {
    if x < Pow2(n) {
      forall i: nat | i >= n ensures !Bit(x, i) {
        BitBeyond(x, n, i);
      }
    } else {
      HighBitOf(x, n);
    }
  }

  lemma {:induction false} BitBeyond(x: int, n: nat, i: nat)
    requires 0 <= x < Pow2(n) && i >= n
    ensures !Bit(x, i)
    decreases i
  {
    if i > 0 {
      if n == 0 {
        BitBeyond(x / 2, 0, i - 1);
      } else {
        BitBeyond(x / 2, n - 1, i - 1);
      }
    }
  }

  lemma {:induction false} HighBitOf(x: int, n: nat)
    requires x >= Pow2(n)
    ensures exists i: nat | i >= n :: Bit(x, i)
    decreases x
  {
    if n > 0 {
      HighBitOf(x / 2, n - 1);
      var i: nat :| i >= n - 1 && Bit(x / 2, i);
      assert Bit(x, i + 1);
    } else if x == 1 {
      assert Bit(x, 0);
    } else {
      HighBitOf(x / 2, 0);
      var i: nat :| Bit(x / 2, i);
      assert Bit(x, i + 1);
    }
  }

  lemma {:induction false} AndNonNegative(x: int, y: int)
    requires x >= 0 || y >= 0
    ensures And(x, y) >= 0
    decreases Magnitude(x) + Magnitude(y)
  {
    if Magnitude(x) > 0 || Magnitude(y) > 0 {
      AndNonNegative(x / 2, y / 2);
    }
  }

  lemma {:induction false} AndAtMost(x: int, y: int)
    requires x >= 0 && y >= 0
    ensures 0 <= And(x, y) <= x && And(x, y) <= y
    decreases x + y
  {
    if x > 0 || y > 0 {
      AndAtMost(x / 2, y / 2);
    }
  }

  lemma {:induction false} ShrAtMost(v: nat, n: nat)
    ensures 0 <= Shr(v, n) <= v
    decreases n
  {
    if n > 0 {
      ShrAtMost(v / 2, n - 1);
    }
  }

  function And64(v: Word, w: Word): Word {
    AndAtMost(v, w);
    And(v, w)
  }

  lemma OrIsWord(v: Word, w: Word)
    ensures 0 <= Or(v, w) <= ALL
  {
    AndNegative(Not(v), Not(w));
    assert Pow2(64) == 0x1_0000_0000_0000_0000 by {
      Pow2Constants();
    }
    forall i: nat | i >= 64 ensures !Bit(Or(v, w), i) {
      BitOfOr(v, w, i);
      BitBeyond(v, 64, i);
      BitBeyond(w, 64, i);
    }
    SmallIffNoHighBits(Or(v, w), 64);
  }

  lemma {:induction false} AndNegative(x: int, y: int)
    requires x < 0 && y < 0
    ensures And(x, y) < 0
    decreases Magnitude(x) + Magnitude(y)
  {
    if Magnitude(x) > 0 || Magnitude(y) > 0 {
      AndNegative(x / 2, y / 2);
    }
  }

  function Or64(v: Word, w: Word): Word {
    OrIsWord(v, w);
    Or(v, w)
  }

  /* ---- bits of words ---- */

  lemma WordBitBeyond(w: Word, i: nat)
    requires i >= 64
    ensures !Bit(w, i)
  {
    assert Pow2(64) == 0x1_0000_0000_0000_0000 by {
      Pow2Constants();
    }
    BitBeyond(w, 64, i);
  }

  /** Bits below n survive the remainder modulo 2^n. */
  lemma {:induction false} BitOfRemainder(x: int, n: nat, i: nat)
    requires i < n
    ensures Bit(x % Pow2(n), i) == Bit(x, i)
    decreases n
  {
    var p := Pow2(n - 1);
    HalfOfRemainder(x, p);
    if i > 0 {
      BitOfRemainder(x / 2, n - 1, i - 1);
    }
  }

  lemma HalfOfRemainder(x: int, p: int)
    requires p > 0
    ensures (x % (2 * p)) / 2 == (x / 2) % p && (x % (2 * p)) % 2 == x % 2
  {
    var q, r := x / (2 * p), x % (2 * p);
    assert x == 2 * (p * q) + r by {
      assert x == (2 * p) * q + r;
      assert (2 * p) * q == 2 * (p * q);
    }
    assert x / 2 == p * q + r / 2;
    Arith.DivModUnique(q, r / 2, p);
  }

  lemma BitOfShl64(w: Word, k: nat, i: nat)
    ensures Bit(Shl64(w, k), i) == (k <= i < 64 && Bit(w, i - k))
  {
    if i < 64 {
      assert Pow2(64) == 0x1_0000_0000_0000_0000 by {
        Pow2Constants();
      }
      BitOfRemainder(Shl(w, k), 64, i);
      BitOfShl(w, k, i);
    } else {
      WordBitBeyond(Shl64(w, k), i);
    }
  }

  lemma BitOfNot64(w: Word, i: nat)
    requires i < 64
    ensures Bit(Not64(w), i) == !Bit(w, i)
  {
    assert Pow2(64) == 0x1_0000_0000_0000_0000 by {
      Pow2Constants();
    }
    assert Not64(w) == Not(w) % 0x1_0000_0000_0000_0000;
    BitOfRemainder(Not(w), 64, i);
    BitOfNot(w, i);
  }

  lemma {:induction false} BitOfOne(i: nat)
    ensures Bit(1, i) == (i == 0)
  {
    if i > 0 {
      ZeroHasNoBits(i - 1);
    }
  }

  /** `1 << m`. */
  lemma BitOfUnit(m: nat, i: nat)
    requires m < 64
    ensures Bit(Shl64(1, m), i) == (i == m)
  {
    BitOfShl64(1, m, i);
    if i >= m {
      BitOfOne(i - m);
    }
  }

  lemma BitOfAll(i: nat)
    ensures Bit(ALL, i) == (i < 64)
  {
    if i < 64 {
      BitOfNot64(0, i);
      ZeroHasNoBits(i);
    } else {
      WordBitBeyond(ALL, i);
    }
  }

  /** `(1 << m) - 1`. */
  lemma {:induction false} BitOfPow2Minus1(m: nat, i: nat)
    ensures Bit(Pow2(m) - 1, i) == (i < m)
    decreases m
  {
    if m == 0 {
      ZeroHasNoBits(i);
    } else if i > 0 {
      assert (Pow2(m) - 1) / 2 == Pow2(m - 1) - 1;
      BitOfPow2Minus1(m - 1, i - 1);
    }
  }

  lemma {:induction false} UnitIsPow2(m: nat)
    requires m < 64
    ensures Shl64(1, m) == Pow2(m)
  {
    ShlIsMultiplication(1, m);
    Pow2IsWord(m);
  }

  lemma {:induction false} Pow2IsWord(m: nat)
    requires m < 64
    ensures Pow2(m) < 0x1_0000_0000_0000_0000 && Pow2(m) % 0x1_0000_0000_0000_0000 == Pow2(m)
  {
    Pow2Less(m, 64);
    assert Pow2(64) == 0x1_0000_0000_0000_0000 by {
      Pow2Constants();
    }
  }

  lemma {:induction false} Pow2Less(a: nat, b: nat)
    requires a < b
    ensures Pow2(a) < Pow2(b)
    decreases b
  {
    if a < b - 1 {
      Pow2Less(a, b - 1);
    }
  }

  lemma NonZeroHasBit(w: Word)
    requires w != 0
    ensures exists i: nat | i < 64 :: Bit(w, i)
  {
    if forall i: nat | i < 64 :: !Bit(w, i) {
      forall i: nat ensures Bit(w, i) == Bit(0, i) {
        ZeroHasNoBits(i);
        if i >= 64 {
          WordBitBeyond(w, i);
        }
      }
      SameBitsSameWord(w, 0);
    }
  }

  /** A test of one bit: `w & (1 << m)`. */
  lemma BitTest(w: Word, m: nat)
    requires m < 64
    ensures And64(w, Shl64(1, m)) != 0 <==> Bit(w, m)
  {
    var a := And64(w, Shl64(1, m));
    forall i: nat ensures Bit(a, i) == (i == m && Bit(w, m)) {
      BitOfAnd(w, Shl64(1, m), i);
      BitOfUnit(m, i);
    }
    if a != 0 {
      NonZeroHasBit(a);
    } else {
      ZeroHasNoBits(m);
    }
  }

  /** What `util::findLowestOn` finds, see `BitScans.FindLowestOn64`. */
  function FindLowest(w: Word): (k: nat)
    requires w != 0
    ensures k < 64 && Bit(w, k) && forall i: nat | i < k :: !Bit(w, i)
  {
    NonZeroHasBit(w);
    Lowest(w, 0)
  }

  function Lowest(w: Word, from: nat): (k: nat)
    requires exists i: nat | from <= i < 64 :: Bit(w, i)
    requires forall i: nat | i < from :: !Bit(w, i)
    ensures k < 64 && Bit(w, k) && forall i: nat | i < k :: !Bit(w, i)
    decreases 64 - from
  {
    if Bit(w, from) then from else Lowest(w, from + 1)
  }

  /** What `util::findHighestOn` finds, see `BitScans.FindHighestOn64`. */
  function FindHighest(w: Word): (k: nat)
    requires w != 0
    ensures k < 64 && Bit(w, k) && forall i: nat | i > k :: !Bit(w, i)
  {
    NonZeroHasBit(w);
    forall i: nat | i >= 64 ensures !Bit(w, i) {
      WordBitBeyond(w, i);
    }
    Highest(w, 63)
  }

  function Highest(w: Word, from: nat): (k: nat)
    requires from < 64 && exists i: nat | i <= from :: Bit(w, i)
    requires forall i: nat | i > from :: !Bit(w, i)
    ensures k < 64 && Bit(w, k) && forall i: nat | i > k :: !Bit(w, i)
  {
    if Bit(w, from) || from == 0 then from else Highest(w, from - 1)
  }

  /** The number of set bits below k. */
  function Ones(w: int, k: nat): (n: nat)
    ensures n <= k
  {
    if k == 0 then 0 else Ones(w, k - 1) + (if Bit(w, k - 1) then 1 else 0)
  }

  /** What `util::countOn` counts, see `PopCount.CountOn64`. */
  function CountOn(w: Word): nat {
    Ones(w, 64)
  }

  lemma {:induction false} OnesSame(v: int, w: int, k: nat)
    requires forall i: nat | i < k :: Bit(v, i) == Bit(w, i)
    ensures Ones(v, k) == Ones(w, k)
  {
    if k > 0 {
      OnesSame(v, w, k - 1);
    }
  }

  lemma {:induction false} OnesStop(w: int, k: nat, n: nat)
    requires k <= n && forall i: nat | k <= i < n :: !Bit(w, i)
    ensures Ones(w, n) == Ones(w, k)
    decreases n - k
  {
    if k < n {
      OnesStop(w, k, n - 1);
    }
  }

  /** `countOn(w & ((1 << m) - 1))` counts the bits below m. */
  lemma CountBelow(w: Word, m: nat)
    requires m < 64
    ensures Shl64(1, m) > 0
    ensures CountOn(And64(w, Shl64(1, m) - 1)) == Ones(w, m)
  {
    UnitIsPow2(m);
    var a := And64(w, Shl64(1, m) - 1);
    forall i: nat ensures Bit(a, i) == (i < m && Bit(w, i)) {
      BitOfAnd(w, Pow2(m) - 1, i);
      BitOfPow2Minus1(m, i);
    }
    OnesSame(a, w, m);
    OnesStop(a, m, 64);
  }
}
