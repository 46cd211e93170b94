/** Two's complement bitwise arithmetic on integers.  A signed or unsigned machine word
    is the integer it denotes; `~x` is -1 - x, and shifts are multiplication and floored
    division by powers of two. */
module Bits {
  import opened Arith

  function Pow2(k: nat): (p: nat)
    ensures p > 0
  {
    if k == 0 then 1 else 2 * Pow2(k - 1)
  }

  function Shl(x: int, k: nat): int {
    if k == 0 then x else 2 * Shl(x, k - 1)
  }

  /** The arithmetic shift; the logical one for a nonnegative word. */
  function Shr(x: int, k: nat): int
    decreases k
  {
    if k == 0 then x else Shr(x / 2, k - 1)
  }

  function Not(x: int): int {
    -1 - x
  }

  /** Distance from the fixed points 0 and -1 of shifting right. */
  function Magnitude(x: int): nat {
    if x < 0 then -1 - x else x
  }

  function And(x: int, y: int): int
    decreases Magnitude(x) + Magnitude(y)
  {
    if Magnitude(x) == 0 && Magnitude(y) == 0 then (if x == -1 && y == -1 then -1 else 0)
    else 2 * And(x / 2, y / 2) + (if x % 2 == 1 && y % 2 == 1 then 1 else 0)
  }

  function Or(x: int, y: int): int {
    Not(And(Not(x), Not(y)))
  }

  function Xor(x: int, y: int): int {
    Or(And(x, Not(y)), And(Not(x), y))
  }

  /** Bit i of x, counted from the least significant. */
  predicate Bit(x: int, i: nat)
    decreases i
  {
    if i == 0 then x % 2 == 1 else Bit(x / 2, i - 1)
  }

  lemma {:induction false} ShrIsDivision(x: int, k: nat)
    ensures Shr(x, k) == x / Pow2(k)
    decreases k
  {
    if k > 0 {
      ShrIsDivision(x / 2, k - 1);
      HalveThenDivide(x, Pow2(k - 1));
    }
  }

  lemma {:induction false} ShlIsMultiplication(x: int, k: nat)
    ensures Shl(x, k) == x * Pow2(k)
  {
    if k > 0 {
      ShlIsMultiplication(x, k - 1);
      Associate(2, x, Pow2(k - 1));
      Associate(x, 2, Pow2(k - 1));
    }
  }

  lemma {:induction false} BitOfShr(x: int, k: nat, i: nat)
    ensures Bit(Shr(x, k), i) == Bit(x, k + i)
    decreases k
  {
    if k > 0 {
      BitOfShr(x / 2, k - 1, i);
    }
  }

  lemma {:induction false} BitOfShl(x: int, k: nat, i: nat)
    ensures Bit(Shl(x, k), i) == (i >= k && Bit(x, i - k))
    decreases k
  {
    if k > 0 {
      var y := Shl(x, k - 1);
      assert Shl(x, k) == 2 * y && (2 * y) % 2 == 0 && (2 * y) / 2 == y;
      if i > 0 {
        assert Bit(Shl(x, k), i) == Bit(y, i - 1);
        BitOfShl(x, k - 1, i - 1);
      }
    }
  }

  lemma {:induction false} BitOfNot(x: int, i: nat)
    ensures Bit(Not(x), i) == !Bit(x, i)
    decreases i
  {
    assert Not(x) / 2 == Not(x / 2) && Not(x) % 2 == 1 - x % 2;
    if i > 0 {
      BitOfNot(x / 2, i - 1);
    }
  }

  lemma HalfOfAnd(x: int, y: int)
    ensures And(x, y) / 2 == And(x / 2, y / 2)
    ensures And(x, y) % 2 == 1 <==> x % 2 == 1 && y % 2 == 1
  {
  }

  lemma {:induction false} BitOfAnd(x: int, y: int, i: nat)
    ensures Bit(And(x, y), i) == (Bit(x, i) && Bit(y, i))
    decreases i
  {
    HalfOfAnd(x, y);
    if i > 0 {
      BitOfAnd(x / 2, y / 2, i - 1);
    }
  }

  lemma BitOfOr(x: int, y: int, i: nat)
    ensures Bit(Or(x, y), i) == (Bit(x, i) || Bit(y, i))
  {
    BitOfNot(x, i);
    BitOfNot(y, i);
    BitOfAnd(Not(x), Not(y), i);
    BitOfNot(And(Not(x), Not(y)), i);
  }

  lemma BitOfXor(x: int, y: int, i: nat)
    ensures Bit(Xor(x, y), i) == (Bit(x, i) != Bit(y, i))
  {
    BitOfNot(x, i);
    BitOfNot(y, i);
    BitOfAnd(x, Not(y), i);
    BitOfAnd(Not(x), y, i);
    BitOfOr(And(x, Not(y)), And(Not(x), y), i);
  }

  /** Words with the same bits are equal. */
  lemma {:induction false} SameBitsSameWord(x: int, y: int)
    requires forall i: nat :: Bit(x, i) == Bit(y, i)
    ensures x == y
    decreases Magnitude(x) + Magnitude(y)
  {
    assert Bit(x, 0) == Bit(y, 0);
    if Magnitude(x) > 0 || Magnitude(y) > 0 {
      forall i: nat ensures Bit(x / 2, i) == Bit(y / 2, i) {
        assert Bit(x, i + 1) == Bit(y, i + 1);
      }
      SameBitsSameWord(x / 2, y / 2);
    }
  }

  /** `x & (2^k - 1)` is the remainder, and `x & ~(2^k - 1)` is x rounded down. */
  lemma {:induction false} MaskIsRemainder(x: int, k: nat)
    ensures And(x, Not(Pow2(k) - 1)) == Shl(Shr(x, k), k)
    ensures And(x, Pow2(k) - 1) + Shl(Shr(x, k), k) == x
    decreases k
  {
    if k == 0 {
      AndWithZero(x);
    } else {
      var m := Pow2(k - 1) - 1;
      MaskIsRemainder(x / 2, k - 1);
      assert Pow2(k) - 1 == 2 * m + 1 && Not(Pow2(k) - 1) == 2 * Not(m);
      HalfOfAnd(x, Pow2(k) - 1);
      HalfOfAnd(x, Not(Pow2(k) - 1));
    }
  }

  lemma {:induction false} AndWithZero(x: int)
    ensures And(x, 0) == 0
    ensures And(x, -1) == x
    decreases Magnitude(x)
  {
    if Magnitude(x) > 0 {
      AndWithZero(x / 2);
    }
  }

  lemma HalfOfOr(x: int, y: int)
    ensures Or(x, y) / 2 == Or(x / 2, y / 2)
  {
    HalfOfAnd(Not(x), Not(y));
    assert Not(x) / 2 == Not(x / 2) && Not(y) / 2 == Not(y / 2);
  }

  lemma {:induction false} ShrOfOr(x: int, y: int, k: nat)
    ensures Shr(Or(x, y), k) == Or(Shr(x, k), Shr(y, k))
    decreases k
  {
    if k > 0 {
      HalfOfOr(x, y);
      ShrOfOr(x / 2, y / 2, k - 1);
    }
  }

  lemma HalfOfXor(x: int, y: int)
    ensures Xor(x, y) / 2 == Xor(x / 2, y / 2)
  {
    HalfOfOr(And(x, Not(y)), And(Not(x), y));
    HalfOfAnd(x, Not(y));
    HalfOfAnd(Not(x), y);
    assert Not(x) / 2 == Not(x / 2) && Not(y) / 2 == Not(y / 2);
  }

  lemma {:induction false} ShrOfXor(x: int, y: int, k: nat)
    ensures Shr(Xor(x, y), k) == Xor(Shr(x, k), Shr(y, k))
    decreases k
  {
    if k > 0 {
      HalfOfXor(x, y);
      ShrOfXor(x / 2, y / 2, k - 1);
    }
  }

  lemma ZeroHasNoBits(i: nat)
    ensures !Bit(0, i)
  {
  }

  lemma OrIsZero(x: int, y: int)
    ensures Or(x, y) == 0 <==> x == 0 && y == 0
  {
    if Or(x, y) == 0 {
      forall i: nat ensures Bit(x, i) == Bit(0, i) && Bit(y, i) == Bit(0, i) {
        BitOfOr(x, y, i);
        ZeroHasNoBits(i);
      }
      SameBitsSameWord(x, 0);
      SameBitsSameWord(y, 0);
    } else if x == 0 && y == 0 {
      AndWithZero(-1);
      assert false;
    }
  }

  lemma XorIsZero(x: int, y: int)
    ensures Xor(x, y) == 0 <==> x == y
  {
    if Xor(x, y) == 0 {
      forall i: nat ensures Bit(x, i) == Bit(y, i) {
        BitOfXor(x, y, i);
        ZeroHasNoBits(i);
      }
      SameBitsSameWord(x, y);
    } else if x == y {
      forall i: nat ensures Bit(Xor(x, y), i) == Bit(0, i) {
        BitOfXor(x, y, i);
        ZeroHasNoBits(i);
      }
      SameBitsSameWord(Xor(x, y), 0);
      assert false;
    }
  }

  lemma {:induction false} Pow2Sum(a: nat, b: nat)
    ensures Pow2(a + b) == Pow2(a) * Pow2(b)
  {
    if a > 0 {
      Pow2Sum(a - 1, b);
      Associate(2, Pow2(a - 1), Pow2(b));
    }
  }

  lemma Pow2Constants()
    ensures Pow2(3) == 8 && Pow2(4) == 16 && Pow2(5) == 32 && Pow2(6) == 64 && Pow2(7) == 128 && Pow2(8) == 256
    ensures Pow2(10) == 1024 && Pow2(11) == 2048 && Pow2(12) == 4096
    ensures Pow2(20) == 0x10_0000 && Pow2(21) == 0x20_0000 && Pow2(32) == 0x1_0000_0000 && Pow2(42) == 0x400_0000_0000
    ensures Pow2(64) == 0x1_0000_0000_0000_0000
  {
    assert Pow2(3) == 8;
    assert Pow2(5) == 32;
    assert Pow2(7) == 128;
    Pow2Sum(5, 5);
    assert Pow2(12) == 4096;
    Pow2Sum(10, 10);
    Pow2Sum(20, 12);
    Pow2Sum(21, 21);
    Pow2Sum(32, 32);
  }

  /** `|` of a word shifted left over a word that fits under it is a sum. */
  lemma {:induction false} OrIsSum(x: int, k: nat, y: nat)
    requires y < Pow2(k)
    ensures Or(Shl(x, k), y) == Shl(x, k) + y == Or(y, Shl(x, k))
    decreases k
  {
    if k == 0 {
      OrWithZero(x);
    } else {
      OrIsSum(x, k - 1, y / 2);
      HalfOfOr(Shl(x, k), y);
      HalfOfOr(y, Shl(x, k));
      assert Shl(x, k) / 2 == Shl(x, k - 1);
      BitOfOr(Shl(x, k), y, 0);
      BitOfOr(y, Shl(x, k), 0);
    }
  }

  lemma OrWithZero(x: int)
    ensures Or(x, 0) == x && Or(0, x) == x
  {
    AndWithZero(Not(x));
    forall i: nat ensures Bit(Or(0, x), i) == Bit(x, i) {
      BitOfOr(0, x, i);
      ZeroHasNoBits(i);
    }
    SameBitsSameWord(Or(0, x), x);
  }
}
