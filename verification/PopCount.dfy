/** The branch-free population count of PNanoVDB.h: adjacent digits are added in place, in
    base 2, then 4, then 16, until bytes are left, and one multiplication adds those up. */
module PopCount {
  import Arith
  import opened Bits
  import opened Bytes
  import opened Words64

  /** The number with these digits, least significant first. */
  function Pack(base: nat, ds: seq<nat>): nat {
    if ds == [] then 0 else ds[0] + base * Pack(base, ds[1..])
  }

  function Sum(ds: seq<nat>): nat {
    if ds == [] then 0 else ds[0] + Sum(ds[1..])
  }

  /** Sums of adjacent digits. */
  function Pairs(ds: seq<nat>): (r: seq<nat>)
    requires |ds| % 2 == 0
    ensures |r| == |ds| / 2
  {
    if ds == [] then [] else [ds[0] + ds[1]] + Pairs(ds[2..])
  }

  predicate AtMost(ds: seq<nat>, bound: nat) {
    forall i | 0 <= i < |ds| :: ds[i] <= bound
  }

  lemma {:induction false} PairsSum(ds: seq<nat>, bound: nat)
    requires |ds| % 2 == 0 && AtMost(ds, bound)
    ensures Sum(Pairs(ds)) == Sum(ds) && AtMost(Pairs(ds), 2 * bound)
  {
    if ds != [] {
      PairsSum(ds[2..], bound);
      assert Pairs(ds)[1..] == Pairs(ds[2..]);
      assert ds[1..][1..] == ds[2..];
    }
  }

  function BitsOf(x: nat, n: nat): (ds: seq<nat>)
    ensures |ds| == n && AtMost(ds, 1)
  {
    if n == 0 then [] else [x % 2] + BitsOf(x / 2, n - 1)
  }

  lemma {:induction false} PackBits(x: nat, n: nat)
    requires x < Pow2(n)
    ensures Pack(2, BitsOf(x, n)) == x && Sum(BitsOf(x, n)) == Ones(x, n)
  {
    if n > 0 {
      PackBits(x / 2, n - 1);
      assert BitsOf(x, n)[1..] == BitsOf(x / 2, n - 1);
      OnesOfHalf(x, n);
    }
  }

  lemma {:induction false} OnesOfHalf(x: nat, n: nat)
    requires n > 0
    ensures Ones(x, n) == Ones(x / 2, n - 1) + x % 2
  {
    if n > 1 {
      OnesOfHalf(x, n - 1);
      assert Bit(x, n - 1) == Bit(x / 2, n - 2);
    }
  }

  /* ---- masks with a repeating pattern ---- */

  function Repeat(base: nat, pattern: nat, n: nat): nat {
    if n == 0 then 0 else pattern + base * Repeat(base, pattern, n - 1)
  }

  lemma AndOn(x: nat, x2: nat, m: nat, m2: nat)
    requires x2 == x / 2 && m == 2 * m2 + 1
    ensures And(x, m) == 2 * And(x2, m2) + x % 2
  {
    HalfOfAnd(x, m);
    assert m / 2 == m2;
  }

  lemma AndOff(x: nat, x2: nat, m: nat, m2: nat)
    requires x2 == x / 2 && m == 2 * m2
    ensures And(x, m) == 2 * And(x2, m2)
  {
    HalfOfAnd(x, m);
    assert m / 2 == m2;
  }

  lemma AndLow1(x: nat, m: nat)
    ensures And(x, 4 * m + 1) == 4 * And(x / 4, m) + x % 2
  {
    AndOn(x, x / 2, 4 * m + 1, 2 * m);
    AndOff(x / 2, x / 4, 2 * m, m);
  }

  lemma AndOn2(x: nat, x4: nat, m: nat, m4: nat)
    requires x4 == x / 4 && m == 4 * m4 + 3
    ensures And(x, m) == 4 * And(x4, m4) + x % 4
  {
    AndOn(x, x / 2, m, 2 * m4 + 1);
    AndOn(x / 2, x4, 2 * m4 + 1, m4);
  }

  lemma AndOff2(x: nat, x4: nat, m: nat, m4: nat)
    requires x4 == x / 4 && m == 4 * m4
    ensures And(x, m) == 4 * And(x4, m4)
  {
    AndOff(x, x / 2, m, 2 * m4);
    AndOff(x / 2, x4, 2 * m4, m4);
  }

  lemma AndLow3(x: nat, m: nat)
    ensures And(x, 16 * m + 3) == 16 * And(x / 16, m) + x % 4
  {
    AndOn2(x, x / 4, 16 * m + 3, 4 * m);
    AndOff2(x / 4, x / 16, 4 * m, m);
  }

  lemma AndLow15(x: nat, m: nat)
    ensures And(x, 256 * m + 15) == 256 * And(x / 256, m) + x % 16
  {
    var q, r, s := x / 4, x / 16, x / 64;
    AndOn2(x, q, 256 * m + 15, 64 * m + 3);
    AndOn2(q, r, 64 * m + 3, 16 * m);
    AndOff2(r, s, 16 * m, 4 * m);
    AndOff2(s, x / 256, 4 * m, m);
    assert x % 16 == x % 4 + 4 * (q % 4);
  }

  /** Two digits at a time. */
  lemma PackTwo(base: nat, ds: seq<nat>)
    requires |ds| >= 2
    ensures Pack(base, ds) == ds[0] + base * (ds[1] + base * Pack(base, ds[2..]))
  {
    assert ds[1..][1..] == ds[2..];
  }

  /** The sums of the first pair and of the others. */
  lemma PairsTwo(base: nat, ds: seq<nat>)
    requires |ds| >= 2 && |ds| % 2 == 0
    ensures Pack(base, Pairs(ds)) == ds[0] + ds[1] + base * Pack(base, Pairs(ds[2..]))
  {
    assert Pairs(ds)[1..] == Pairs(ds[2..]);
  }

  /* ---- the three steps ---- */

  lemma AndBits(a: nat, b: nat, y: nat, m: nat)
    requires a <= 1 && b <= 1
    ensures And((a + 2 * (b + 2 * y)) / 2, 1 + 4 * m) == 4 * And(y / 2, m) + b
  {
    var h := b + 2 * y;
    assert (a + 2 * h) / 2 == h && h / 4 == y / 2 && h % 2 == b;
    AndLow1(h, m);
  }

  lemma AddBitsStep(a: nat, b: nat, x: nat, y: nat, m: nat, m': nat, p: nat, p': nat)
    requires a <= 1 && b <= 1 && x == a + 2 * (b + 2 * y) && m == 1 + 4 * m' && p == a + b + 4 * p'
    requires y - And(y / 2, m') == p'
    ensures x - And(x / 2, m) == p
  {
    AndBits(a, b, y, m');
  }

  /** `value - ((value >> 1) & 0x55555555)`. */
  lemma {:induction false} AddBits(ds: seq<nat>, n: nat)
    requires |ds| == 2 * n && AtMost(ds, 1)
    ensures Pack(2, ds) - And(Pack(2, ds) / 2, Repeat(4, 1, n)) == Pack(4, Pairs(ds))
  {
    if n == 0 {
    } else {
      AddBits(ds[2..], n - 1);
      PackTwo(2, ds);
      PairsTwo(4, ds);
      AddBitsStep(ds[0], ds[1], Pack(2, ds), Pack(2, ds[2..]), Repeat(4, 1, n), Repeat(4, 1, n - 1),
                  Pack(4, Pairs(ds)), Pack(4, Pairs(ds[2..])));
    }
  }

  lemma AndPairs(a: nat, b: nat, y: nat, m: nat)
    requires a <= 2 && b <= 2
    ensures var x := a + 4 * (b + 4 * y);
            And(x, 3 + 16 * m) + And(x / 4, 3 + 16 * m) == 16 * (And(y, m) + And(y / 4, m)) + a + b
  {
    var x, h := a + 4 * (b + 4 * y), b + 4 * y;
    assert x / 4 == h && x % 4 == a && x / 16 == y && h % 4 == b && h / 16 == y / 4;
    AndLow3(x, m);
    AndLow3(h, m);
  }

  lemma AddPairsStep(a: nat, b: nat, x: nat, y: nat, m: nat, m': nat, p: nat, p': nat)
    requires a <= 2 && b <= 2 && x == a + 4 * (b + 4 * y) && m == 3 + 16 * m' && p == a + b + 16 * p'
    requires And(y, m') + And(y / 4, m') == p'
    ensures And(x, m) + And(x / 4, m) == p
  {
    AndPairs(a, b, y, m');
  }

  /** `(value & 0x33333333) + ((value >> 2) & 0x33333333)`. */
  lemma {:induction false} AddPairs(ds: seq<nat>, n: nat)
    requires |ds| == 2 * n && AtMost(ds, 2)
    ensures And(Pack(4, ds), Repeat(16, 3, n)) + And(Pack(4, ds) / 4, Repeat(16, 3, n)) == Pack(16, Pairs(ds))
  {
    if n == 0 {
    } else {
      AddPairs(ds[2..], n - 1);
      PackTwo(4, ds);
      PairsTwo(16, ds);
      AddPairsStep(ds[0], ds[1], Pack(4, ds), Pack(4, ds[2..]), Repeat(16, 3, n), Repeat(16, 3, n - 1),
                   Pack(16, Pairs(ds)), Pack(16, Pairs(ds[2..])));
    }
  }

  lemma AndNibbles(a: nat, b: nat, y: nat, m: nat)
    requires a <= 4 && b <= 4 && y % 16 <= 4
    ensures var x := a + 16 * (b + 16 * y);
            And(x + x / 16, 15 + 256 * m) == 256 * And(y + y / 16, m) + a + b
  {
    var x := a + 16 * (b + 16 * y);
    NoCarry(a, b, y);
    AndLow15(x + x / 16, m);
  }

  lemma AddNibblesStep(a: nat, b: nat, x: nat, y: nat, m: nat, m': nat, p: nat, p': nat)
    requires a <= 4 && b <= 4 && y % 16 <= 4 && x == a + 16 * (b + 16 * y) && m == 15 + 256 * m' &&
             p == a + b + 256 * p'
    requires And(y + y / 16, m') == p'
    ensures And(x + x / 16, m) == p
  {
    AndNibbles(a, b, y, m');
  }

  lemma {:induction false} TwoNibbles(ds: seq<nat>, n: nat)
    requires |ds| == 2 * n > 0 && AtMost(ds, 4)
    ensures AtMost(ds[2..], 4) && ds[0] <= 4 && ds[1] <= 4 && Pack(16, ds[2..]) % 16 <= 4
    ensures Pack(16, ds) == ds[0] + 16 * (ds[1] + 16 * Pack(16, ds[2..]))
    ensures Pack(256, Pairs(ds)) == ds[0] + ds[1] + 256 * Pack(256, Pairs(ds[2..]))
    ensures Repeat(256, 15, n) == 15 + 256 * Repeat(256, 15, n - 1)
  {
    PackTwo(16, ds);
    PairsTwo(256, ds);
    FirstNibble(ds[2..]);
  }

  /** `(value + (value >> 4)) & 0x0F0F0F0F`: no carry crosses a byte. */
  lemma {:induction false} AddNibbles(ds: seq<nat>, n: nat)
    requires |ds| == 2 * n && AtMost(ds, 4)
    ensures And(Pack(16, ds) + Pack(16, ds) / 16, Repeat(256, 15, n)) == Pack(256, Pairs(ds))
  {
    if n > 0 {
      AddNibbles(ds[2..], n - 1);
      TwoNibbles(ds, n);
      AddNibblesStep(ds[0], ds[1], Pack(16, ds), Pack(16, ds[2..]), Repeat(256, 15, n), Repeat(256, 15, n - 1),
                     Pack(256, Pairs(ds)), Pack(256, Pairs(ds[2..])));
    }
  }

  lemma LowDigit(a: nat, t: nat)
    requires a <= 4
    ensures (a + 16 * t) % 16 == a
  {
  }

  lemma FirstNibble(ds: seq<nat>)
    requires AtMost(ds, 4)
    ensures Pack(16, ds) % 16 <= 4
  {
    if ds != [] {
      LowDigit(ds[0], Pack(16, ds[1..]));
    }
  }

  lemma NoCarry(a: nat, b: nat, y: nat)
    requires a <= 4 && b <= 4 && y % 16 <= 4
    ensures var x := a + 16 * (b + 16 * y);
            (x + x / 16) / 256 == y + y / 16 && (x + x / 16) % 16 == a + b
  {
    var x, h := a + 16 * (b + 16 * y), y / 16;
    var r := 16 * (y % 16) + 16 * b + b + a;
    assert x / 16 == b + 16 * y;
    assert x + x / 16 == 256 * (y + h) + r;
    Arith.DivModUnique(y + h, r, 256);
    Arith.DivModUnique(16 * (y + h) + y % 16 + b, a + b, 16);
  }

  /** `value * 0x01010101 >> 24` on 32 bits. */
  lemma AddBytes(ds: seq<nat>)
    requires |ds| == 4 && AtMost(ds, 8)
    ensures Pack(256, ds) * 0x0101_0101 % 0x1_0000_0000 / 0x100_0000 == Sum(ds)
  {
    var a, b, c, d := ds[0], ds[1], ds[2], ds[3];
    PackFour(ds);
    TopByte(a, b, c, d);
  }

  lemma PackFour(ds: seq<nat>)
    requires |ds| == 4
    ensures Pack(256, ds) == ds[0] + 256 * ds[1] + 0x1_0000 * ds[2] + 0x100_0000 * ds[3]
    ensures Sum(ds) == ds[0] + ds[1] + ds[2] + ds[3]
  {
    var t1, t2, t3 := ds[1..], ds[2..], ds[3..];
    assert t1[1..] == t2 && t2[1..] == t3 && t3[1..] == [];
    assert Pack(256, t3) == ds[3] && Pack(256, t2) == ds[2] + 256 * ds[3];
    assert Sum(t3) == ds[3] && Sum(t2) == ds[2] + ds[3];
  }

  lemma TopByte(a: nat, b: nat, c: nat, d: nat)
    requires a <= 8 && b <= 8 && c <= 8 && d <= 8
    ensures (a + 256 * b + 0x1_0000 * c + 0x100_0000 * d) * 0x0101_0101 % 0x1_0000_0000 / 0x100_0000 == a + b + c + d
  {
    var low := a + 256 * (a + b) + 0x1_0000 * (a + b + c);
    var high := (b + c + d) + 256 * (c + d) + 0x1_0000 * d;
    assert (a + 256 * b + 0x1_0000 * c + 0x100_0000 * d) * 0x0101_0101
        == 0x1_0000_0000 * high + (0x100_0000 * (a + b + c + d) + low);
    Arith.DivModUnique(high, 0x100_0000 * (a + b + c + d) + low, 0x1_0000_0000);
    Arith.DivModUnique(a + b + c + d, low, 0x100_0000);
  }

  method Step1(value: word32) returns (x: word32)
    ensures x == Pack(4, Pairs(BitsOf(value, 32)))
  {
    ghost var bits := BitsOf(value, 32);
    assert Pow2(32) == 0x1_0000_0000 by {
      Pow2Constants();
    }
    PackBits(value, 32);
    AddBits(bits, 16);
    Masks();
    AndNonNegative(value / 2, 0x5555_5555);
    x := value - And(value / 2, 0x5555_5555);
  }

  method Step2(x: word32, ghost ds: seq<nat>) returns (y: word32)
    requires |ds| == 16 && AtMost(ds, 2) && x == Pack(4, ds)
    ensures y == Pack(16, Pairs(ds))
  {
    AddPairs(ds, 8);
    Masks();
    AndAtMost(x, 0x3333_3333);
    AndAtMost(x / 4, 0x3333_3333);
    y := And(x, 0x3333_3333) + And(x / 4, 0x3333_3333);
  }

  method Step3(y: word32, ghost ds: seq<nat>) returns (z: word32)
    requires |ds| == 8 && AtMost(ds, 4) && y == Pack(16, ds) && y < 0x8000_0000
    ensures z == Pack(256, Pairs(ds))
  {
    AddNibbles(ds, 4);
    Masks();
    AndAtMost(y + y / 16, 0x0f0f_0f0f);
    z := And(y + y / 16, 0x0f0f_0f0f);
  }

  method Step4(z: word32, ghost ds: seq<nat>) returns (count: word32)
    requires |ds| == 4 && AtMost(ds, 8) && z == Pack(256, ds)
    ensures count == Sum(ds)
  {
    AddBytes(ds);
    PackFour(ds);
    var product: nat := z * 0x0101_0101;
    count := product % 0x1_0000_0000 / 0x100_0000;
  }

  /* ---- the same on 64 bits ---- */

  lemma PackEight(ds: seq<nat>)
    requires |ds| == 8
    ensures Pack(256, ds) == ds[0] + 0x100 * ds[1] + 0x1_0000 * ds[2] + 0x100_0000 * ds[3]
                             + 0x1_0000_0000 * (ds[4] + 0x100 * ds[5] + 0x1_0000 * ds[6] + 0x100_0000 * ds[7])
    ensures Sum(ds) == ds[0] + ds[1] + ds[2] + ds[3] + ds[4] + ds[5] + ds[6] + ds[7]
  {
    var t1, t2, t3, t4 := ds[1..], ds[2..], ds[3..], ds[4..];
    assert t1[1..] == t2 && t2[1..] == t3 && t3[1..] == t4;
    PackFour(t4);
    assert Pack(256, t3) == ds[3] + 256 * Pack(256, t4) && Pack(256, t2) == ds[2] + 256 * Pack(256, t3);
    assert Sum(t3) == ds[3] + Sum(t4) && Sum(t2) == ds[2] + Sum(t3);
  }

  /** Sums of the lower digits never reach the next byte, so the top byte is the whole sum. */
  lemma TopByteOfEight(a: nat, b: nat, c: nat, d: nat, e: nat, f: nat, g: nat, h: nat)
    requires a <= 8 && b <= 8 && c <= 8 && d <= 8 && e <= 8 && f <= 8 && g <= 8 && h <= 8
    ensures (a + 0x100 * b + 0x1_0000 * c + 0x100_0000 * d +
            0x1_0000_0000 * (e + 0x100 * f + 0x1_0000 * g + 0x100_0000 * h))
            * 0x0101_0101_0101_0101 % 0x1_0000_0000_0000_0000 / 0x100_0000_0000_0000
            == a + b + c + d + e + f + g + h
  {
    var s3 := a + b + c + d;
    var low := a + 0x100 * (a + b) + 0x1_0000 * (a + b + c) + 0x100_0000 * s3
               + 0x1_0000_0000 * (s3 + e) + 0x100_0000_0000 * (s3 + e + f) + 0x1_0000_0000_0000 * (s3 + e + f + g);
    var sum := s3 + e + f + g + h;
    var high := (sum - a) + 0x100 * (sum - a - b) + 0x1_0000 * (sum - a - b - c) + 0x100_0000 * (e + f + g + h)
                + 0x1_0000_0000 * (f + g + h) + 0x100_0000_0000 * (g + h) + 0x1_0000_0000_0000 * h;
    assert (a + 0x100 * b + 0x1_0000 * c + 0x100_0000 * d +
           0x1_0000_0000 * (e + 0x100 * f + 0x1_0000 * g + 0x100_0000 * h))
           * 0x0101_0101_0101_0101
        == 0x1_0000_0000_0000_0000 * high + (0x100_0000_0000_0000 * sum + low);
    Arith.DivModUnique(high, 0x100_0000_0000_0000 * sum + low, 0x1_0000_0000_0000_0000);
    Arith.DivModUnique(sum, low, 0x100_0000_0000_0000);
  }

  lemma Masks64()
    ensures Repeat(4, 1, 32) == 0x5555_5555_5555_5555
    ensures Repeat(16, 3, 16) == 0x3333_3333_3333_3333
    ensures Repeat(256, 15, 8) == 0x0f0f_0f0f_0f0f_0f0f
  {
    Masks();
    assert Repeat(4, 1, 20) == 0x55_5555_5555;
    assert Repeat(4, 1, 24) == 0x5555_5555_5555;
    assert Repeat(4, 1, 28) == 0x55_5555_5555_5555;
    assert Repeat(16, 3, 12) == 0x3333_3333_3333;
  }

  method Line1(v: Word) returns (x: Word)
    ensures x == Pack(4, Pairs(BitsOf(v, 64)))
  {
    assert Pow2(64) == 0x1_0000_0000_0000_0000 by {
      Pow2Constants();
    }
    PackBits(v, 64);
    AddBits(BitsOf(v, 64), 32);
    Masks64();
    AndNonNegative(v / 2, 0x5555_5555_5555_5555);
    x := v - And(v / 2, 0x5555_5555_5555_5555);
  }

  method Line2(x: Word, ghost ds: seq<nat>) returns (y: Word)
    requires |ds| == 32 && AtMost(ds, 2) && x == Pack(4, ds)
    ensures y == Pack(16, Pairs(ds))
  {
    AddPairs(ds, 16);
    Masks64();
    AndAtMost(x, 0x3333_3333_3333_3333);
    AndAtMost(x / 4, 0x3333_3333_3333_3333);
    y := And(x, 0x3333_3333_3333_3333) + And(x / 4, 0x3333_3333_3333_3333);
  }

  method Line3Mask(y: Word, ghost ds: seq<nat>) returns (z: nat)
    requires |ds| == 16 && AtMost(ds, 4) && y == Pack(16, ds)
    ensures z == Pack(256, Pairs(ds))
  {
    AddNibbles(ds, 8);
    Masks64();
    AndAtMost(y + y / 16, 0x0f0f_0f0f_0f0f_0f0f);
    z := And(y + y / 16, 0x0f0f_0f0f_0f0f_0f0f);
  }

  method Line3Multiply(z: nat, ghost b: seq<nat>) returns (count: nat)
    requires |b| == 8 && AtMost(b, 8) && z == Pack(256, b)
    ensures count == Sum(b)
  {
    PackEight(b);
    TopByteOfEight(b[0], b[1], b[2], b[3], b[4], b[5], b[6], b[7]);
    count := z * 0x0101_0101_0101_0101 % 0x1_0000_0000_0000_0000 / 0x100_0000_0000_0000;
  }

  /** util::countOn, without intrinsics, is the number of set bits. */
  method CountOn64(v: Word) returns (count: nat)
    ensures count == CountOn(v)
  {
    ghost var bits := BitsOf(v, 64);
    assert Pow2(64) == 0x1_0000_0000_0000_0000 by {
      Pow2Constants();
    }
    PackBits(v, 64);
    PairsSum(bits, 1);
    PairsSum(Pairs(bits), 2);
    PairsSum(Pairs(Pairs(bits)), 4);
    var x := Line1(v);
    var y := Line2(x, Pairs(bits));
    var z := Line3Mask(y, Pairs(Pairs(bits)));
    count := Line3Multiply(z, Pairs(Pairs(Pairs(bits))));
  }

  /** pnanovdb_uint32_countbits is the number of set bits. */
  method Countbits32(value: word32) returns (count: word32)
    ensures count == Ones(value, 32)
  {
    ghost var bits := BitsOf(value, 32);
    assert Pow2(32) == 0x1_0000_0000 by {
      Pow2Constants();
    }
    PackBits(value, 32);
    PairsSum(bits, 1);
    PairsSum(Pairs(bits), 2);
    PairsSum(Pairs(Pairs(bits)), 4);
    var x := Step1(value);
    var y := Step2(x, Pairs(bits));
    SmallPack(Pairs(Pairs(bits)));
    var z := Step3(y, Pairs(Pairs(bits)));
    count := Step4(z, Pairs(Pairs(Pairs(bits))));
  }

  lemma {:induction false} SmallPack(ds: seq<nat>)
    requires |ds| <= 8 && AtMost(ds, 4)
    ensures 15 * Pack(16, ds) <= 4 * (Pow2(4 * |ds|) - 1) && Pow2(4 * |ds|) <= 0x1_0000_0000
    ensures Pack(16, ds) < 0x8000_0000
  {
    if ds != [] {
      SmallPack(ds[1..]);
      assert Pow2(4 * |ds|) == 16 * Pow2(4 * (|ds| - 1)) by {
        Pow2Sum(4, 4 * (|ds| - 1));
        assert Pow2(4) == 16;
      }
    }
    Pow2AtMost(4 * |ds|);
  }

  lemma Pow2AtMost(k: nat)
    requires k <= 32
    ensures Pow2(k) <= 0x1_0000_0000
  {
    if k < 32 {
      Pow2Less(k, 32);
    }
    Pow2Constants();
  }

  lemma Masks()
    ensures Repeat(4, 1, 16) == 0x5555_5555
    ensures Repeat(16, 3, 8) == 0x3333_3333
    ensures Repeat(256, 15, 4) == 0x0f0f_0f0f
  {
    assert Repeat(4, 1, 4) == 0x55;
    assert Repeat(4, 1, 8) == 0x5555;
    assert Repeat(4, 1, 12) == 0x55_5555;
    assert Repeat(16, 3, 4) == 0x3333;
  }
}
