/** The bit scans of util/Util.h without intrinsics: multiplication by a de Bruijn constant
    and a table lookup find the lowest or highest set bit. */
module BitScans {
  import Arith
  import opened Bits
  import opened Bytes
  import opened Words64


  /* The tables, in rows of eight. */

  const LOWEST64: seq<seq<nat>> :=
    [
      [0, 1, 2, 53, 3, 7, 54, 27],
      [4, 38, 41, 8, 34, 55, 48, 28],
      [62, 5, 39, 46, 44, 42, 22, 9],
      [24, 35, 59, 56, 49, 18, 29, 11],
      [63, 52, 6, 26, 37, 40, 33, 47],
      [61, 45, 43, 21, 23, 58, 17, 10],
      [51, 25, 36, 32, 60, 20, 57, 16],
      [50, 31, 19, 15, 30, 14, 13, 12]
    ]

  const LOWEST32: seq<seq<nat>> :=
    [
      [0, 1, 28, 2, 29, 14, 24, 3],
      [30, 22, 20, 15, 25, 17, 4, 8],
      [31, 27, 13, 23, 21, 19, 16, 7],
      [26, 12, 18, 6, 11, 5, 10, 9]
    ]

  const HIGHEST32: seq<seq<nat>> :=
    [
      [0, 9, 1, 10, 13, 21, 2, 29],
      [11, 14, 16, 18, 22, 25, 3, 30],
      [8, 12, 20, 28, 15, 17, 24, 7],
      [19, 27, 23, 6, 26, 5, 4, 31]
    ]

  lemma {:induction false} TopDigit(y: nat, m: nat, d: nat, q: nat, h: nat, r: nat)
    requires y == m * q + (d * h + r) && d * h + r < m && r < d
    ensures y % m / d == h
  {
    Arith.DivModUnique(q, d * h + r, m);
    Arith.DivModUnique(h, r, d);
  }

  /** `DeBruijn[uint64_t(x * 0x022FDD63CC95386D) >> 58]`. */
  function Lookup64(x: nat): nat {
    var h := Hash64(x);
    LOWEST64[h / 8][h % 8]
  }

  function Hash64(x: nat): (h: nat)
    ensures h < 64
  {
    x * 0x022f_dd63_cc95_386d % 0x1_0000_0000_0000_0000 / 0x400_0000_0000_0000
  }

  lemma {:induction false} Hash64At(x: nat, q: nat, h: nat, r: nat)
    requires x * 0x022f_dd63_cc95_386d == 0x1_0000_0000_0000_0000 * q + (0x400_0000_0000_0000 * h + r) && h < 64 &&
             r < 0x400_0000_0000_0000
    ensures Lookup64(x) == LOWEST64[h / 8][h % 8]
  {
    TopDigit(x * 0x022f_dd63_cc95_386d, 0x1_0000_0000_0000_0000, 0x400_0000_0000_0000, q, h, r);
  }

  /** `DeBruijn[uint32_t(x * 0x077CB531) >> 27]`. */
  function Lookup32(x: nat): nat {
    var h := Hash32(x);
    LOWEST32[h / 8][h % 8]
  }

  function Hash32(x: nat): (h: nat)
    ensures h < 32
  {
    x * 0x077c_b531 % 0x1_0000_0000 / 0x800_0000
  }

  lemma {:induction false} Hash32At(x: nat, q: nat, h: nat, r: nat)
    requires x * 0x077c_b531 == 0x1_0000_0000 * q + (0x800_0000 * h + r) && h < 32 && r < 0x800_0000
    ensures Lookup32(x) == LOWEST32[h / 8][h % 8]
  {
    TopDigit(x * 0x077c_b531, 0x1_0000_0000, 0x800_0000, q, h, r);
  }

  /** `DeBruijn[uint32_t(x * 0x07C4ACDD) >> 27]`. */
  function LookupHighest32(x: nat): nat {
    var h := HashHighest32(x);
    HIGHEST32[h / 8][h % 8]
  }

  function HashHighest32(x: nat): (h: nat)
    ensures h < 32
  {
    x * 0x07c4_acdd % 0x1_0000_0000 / 0x800_0000
  }

  lemma {:induction false} HashHighest32At(x: nat, q: nat, h: nat, r: nat)
    requires x * 0x07c4_acdd == 0x1_0000_0000 * q + (0x800_0000 * h + r) && h < 32 && r < 0x800_0000
    ensures LookupHighest32(x) == HIGHEST32[h / 8][h % 8]
  {
    TopDigit(x * 0x07c4_acdd, 0x1_0000_0000, 0x800_0000, q, h, r);
  }

  /* ---- the tables are right ---- */

  /** Eight powers from one. */
  lemma {:induction false} EightPowers(k: nat)
    ensures Pow2(k + 1) == 2 * Pow2(k) && Pow2(k + 2) == 4 * Pow2(k) && Pow2(k + 3) == 8 * Pow2(k) &&
            Pow2(k + 4) == 16 * Pow2(k)
    ensures Pow2(k + 5) == 32 * Pow2(k) && Pow2(k + 6) == 64 * Pow2(k) && Pow2(k + 7) == 128 * Pow2(k) &&
            Pow2(k + 8) == 256 * Pow2(k)
  {
  }

  lemma {:induction false} PowersOfBytes()
    ensures Pow2(0) == 1 && Pow2(8) == 0x100 && Pow2(16) == 0x1_0000 && Pow2(24) == 0x100_0000 &&
            Pow2(32) == 0x1_0000_0000
    ensures Pow2(40) == 0x100_0000_0000 && Pow2(48) == 0x1_0000_0000_0000 && Pow2(56) == 0x100_0000_0000_0000
  {
  }

  /** A function that is right at eight consecutive powers is right at each. */
  lemma {:induction false} OneOfEight(f: nat -> nat, k: nat, r: nat, p: nat)
    requires 8 * r <= k < 8 * r + 8 && p == Pow2(8 * r)
    requires f(p) == 8 * r && f(2 * p) == 8 * r + 1 && f(4 * p) == 8 * r + 2 && f(8 * p) == 8 * r + 3
    requires f(16 * p) == 8 * r + 4 && f(32 * p) == 8 * r + 5 && f(64 * p) == 8 * r + 6 && f(128 * p) == 8 * r + 7
    ensures f(Pow2(k)) == k
  {
    EightPowers(8 * r);
  }

  /** The same one below powers. */
  lemma {:induction false} OneOfEightBelow(f: nat -> nat, k: nat, r: nat, p: nat)
    requires 8 * r <= k < 8 * r + 8 && p == Pow2(8 * r)
    requires f(2 * p - 1) == 8 * r && f(4 * p - 1) == 8 * r + 1 && f(8 * p - 1) == 8 * r + 2 &&
             f(16 * p - 1) == 8 * r + 3
    requires f(32 * p - 1) == 8 * r + 4 && f(64 * p - 1) == 8 * r + 5 && f(128 * p - 1) == 8 * r + 6 &&
             f(256 * p - 1) == 8 * r + 7
    ensures f(2 * Pow2(k) - 1) == k
  {
    EightPowers(8 * r);
  }

  lemma {:induction false} Table64Row0(p: nat)
    requires p == 0x1
    ensures Lookup64(p) == 0 && Lookup64(2 * p) == 1 && Lookup64(4 * p) == 2 && Lookup64(8 * p) == 3
    ensures Lookup64(16 * p) == 4 && Lookup64(32 * p) == 5 && Lookup64(64 * p) == 6 && Lookup64(128 * p) == 7
  {
    Hash64At(p, 0x0, 0, 0x22f_dd63_cc95_386d);
    Hash64At(2 * p, 0x0, 1, 0x5f_bac7_992a_70da);
    Hash64At(4 * p, 0x0, 2, 0xbf_758f_3254_e1b4);
    Hash64At(8 * p, 0x0, 4, 0x17e_eb1e_64a9_c368);
    Hash64At(16 * p, 0x0, 8, 0x2fd_d63c_c953_86d0);
    Hash64At(32 * p, 0x0, 17, 0x1fb_ac79_92a7_0da0);
    Hash64At(64 * p, 0x0, 34, 0x3f7_58f3_254e_1b40);
    Hash64At(128 * p, 0x1, 5, 0x3ee_b1e6_4a9c_3680);
  }

  lemma {:induction false} Table64Row1(p: nat)
    requires p == 0x100
    ensures Lookup64(p) == 8 && Lookup64(2 * p) == 9 && Lookup64(4 * p) == 10 && Lookup64(8 * p) == 11
    ensures Lookup64(16 * p) == 12 && Lookup64(32 * p) == 13 && Lookup64(64 * p) == 14 && Lookup64(128 * p) == 15
  {
    Hash64At(p, 0x2, 11, 0x3dd_63cc_9538_6d00);
    Hash64At(2 * p, 0x4, 23, 0x3ba_c799_2a70_da00);
    Hash64At(4 * p, 0x8, 47, 0x375_8f32_54e1_b400);
    Hash64At(8 * p, 0x11, 31, 0x2eb_1e64_a9c3_6800);
    Hash64At(16 * p, 0x22, 63, 0x1d6_3cc9_5386_d000);
    Hash64At(32 * p, 0x45, 62, 0x3ac_7992_a70d_a000);
    Hash64At(64 * p, 0x8b, 61, 0x358_f325_4e1b_4000);
    Hash64At(128 * p, 0x117, 59, 0x2b1_e64a_9c36_8000);
  }

  lemma {:induction false} Table64Row2(p: nat)
    requires p == 0x1_0000
    ensures Lookup64(p) == 16 && Lookup64(2 * p) == 17 && Lookup64(4 * p) == 18 && Lookup64(8 * p) == 19
    ensures Lookup64(16 * p) == 20 && Lookup64(32 * p) == 21 && Lookup64(64 * p) == 22 && Lookup64(128 * p) == 23
  {
    Hash64At(p, 0x22f, 55, 0x163_cc95_386d_0000);
    Hash64At(2 * p, 0x45f, 46, 0x2c7_992a_70da_0000);
    Hash64At(4 * p, 0x8bf, 29, 0x18f_3254_e1b4_0000);
    Hash64At(8 * p, 0x117e, 58, 0x31e_64a9_c368_0000);
    Hash64At(16 * p, 0x22fd, 53, 0x23c_c953_86d0_0000);
    Hash64At(32 * p, 0x45fb, 43, 0x79_92a7_0da0_0000);
    Hash64At(64 * p, 0x8bf7, 22, 0xf3_254e_1b40_0000);
    Hash64At(128 * p, 0x1_17ee, 44, 0x1e6_4a9c_3680_0000);
  }

  lemma {:induction false} Table64Row3(p: nat)
    requires p == 0x100_0000
    ensures Lookup64(p) == 24 && Lookup64(2 * p) == 25 && Lookup64(4 * p) == 26 && Lookup64(8 * p) == 27
    ensures Lookup64(16 * p) == 28 && Lookup64(32 * p) == 29 && Lookup64(64 * p) == 30 && Lookup64(128 * p) == 31
  {
    Hash64At(p, 0x2_2fdd, 24, 0x3cc_9538_6d00_0000);
    Hash64At(2 * p, 0x4_5fba, 49, 0x399_2a70_da00_0000);
    Hash64At(4 * p, 0x8_bf75, 35, 0x332_54e1_b400_0000);
    Hash64At(8 * p, 0x11_7eeb, 7, 0x264_a9c3_6800_0000);
    Hash64At(16 * p, 0x22_fdd6, 15, 0xc9_5386_d000_0000);
    Hash64At(32 * p, 0x45_fbac, 30, 0x192_a70d_a000_0000);
    Hash64At(64 * p, 0x8b_f758, 60, 0x325_4e1b_4000_0000);
    Hash64At(128 * p, 0x117_eeb1, 57, 0x24a_9c36_8000_0000);
  }

  lemma {:induction false} Table64Row4(p: nat)
    requires p == 0x1_0000_0000
    ensures Lookup64(p) == 32 && Lookup64(2 * p) == 33 && Lookup64(4 * p) == 34 && Lookup64(8 * p) == 35
    ensures Lookup64(16 * p) == 36 && Lookup64(32 * p) == 37 && Lookup64(64 * p) == 38 && Lookup64(128 * p) == 39
  {
    Hash64At(p, 0x22f_dd63, 51, 0x95_386d_0000_0000);
    Hash64At(2 * p, 0x45f_bac7, 38, 0x12a_70da_0000_0000);
    Hash64At(4 * p, 0x8bf_758f, 12, 0x254_e1b4_0000_0000);
    Hash64At(8 * p, 0x117e_eb1e, 25, 0xa9_c368_0000_0000);
    Hash64At(16 * p, 0x22fd_d63c, 50, 0x153_86d0_0000_0000);
    Hash64At(32 * p, 0x45fb_ac79, 36, 0x2a7_0da0_0000_0000);
    Hash64At(64 * p, 0x8bf7_58f3, 9, 0x14e_1b40_0000_0000);
    Hash64At(128 * p, 0x1_17ee_b1e6, 18, 0x29c_3680_0000_0000);
  }

  lemma {:induction false} Table64Row5(p: nat)
    requires p == 0x100_0000_0000
    ensures Lookup64(p) == 40 && Lookup64(2 * p) == 41 && Lookup64(4 * p) == 42 && Lookup64(8 * p) == 43
    ensures Lookup64(16 * p) == 44 && Lookup64(32 * p) == 45 && Lookup64(64 * p) == 46 && Lookup64(128 * p) == 47
  {
    Hash64At(p, 0x2_2fdd_63cc, 37, 0x138_6d00_0000_0000);
    Hash64At(2 * p, 0x4_5fba_c799, 10, 0x270_da00_0000_0000);
    Hash64At(4 * p, 0x8_bf75_8f32, 21, 0xe1_b400_0000_0000);
    Hash64At(8 * p, 0x11_7eeb_1e64, 42, 0x1c3_6800_0000_0000);
    Hash64At(16 * p, 0x22_fdd6_3cc9, 20, 0x386_d000_0000_0000);
    Hash64At(32 * p, 0x45_fbac_7992, 41, 0x30d_a000_0000_0000);
    Hash64At(64 * p, 0x8b_f758_f325, 19, 0x21b_4000_0000_0000);
    Hash64At(128 * p, 0x117_eeb1_e64a, 39, 0x36_8000_0000_0000);
  }

  lemma {:induction false} Table64Row6(p: nat)
    requires p == 0x1_0000_0000_0000
    ensures Lookup64(p) == 48 && Lookup64(2 * p) == 49 && Lookup64(4 * p) == 50 && Lookup64(8 * p) == 51
    ensures Lookup64(16 * p) == 52 && Lookup64(32 * p) == 53 && Lookup64(64 * p) == 54 && Lookup64(128 * p) == 55
  {
    Hash64At(p, 0x22f_dd63_cc95, 14, 0x6d_0000_0000_0000);
    Hash64At(2 * p, 0x45f_bac7_992a, 28, 0xda_0000_0000_0000);
    Hash64At(4 * p, 0x8bf_758f_3254, 56, 0x1b4_0000_0000_0000);
    Hash64At(8 * p, 0x117e_eb1e_64a9, 48, 0x368_0000_0000_0000);
    Hash64At(16 * p, 0x22fd_d63c_c953, 33, 0x2d0_0000_0000_0000);
    Hash64At(32 * p, 0x45fb_ac79_92a7, 3, 0x1a0_0000_0000_0000);
    Hash64At(64 * p, 0x8bf7_58f3_254e, 6, 0x340_0000_0000_0000);
    Hash64At(128 * p, 0x1_17ee_b1e6_4a9c, 13, 0x280_0000_0000_0000);
  }

  lemma {:induction false} Table64Row7(p: nat)
    requires p == 0x100_0000_0000_0000
    ensures Lookup64(p) == 56 && Lookup64(2 * p) == 57 && Lookup64(4 * p) == 58 && Lookup64(8 * p) == 59
    ensures Lookup64(16 * p) == 60 && Lookup64(32 * p) == 61 && Lookup64(64 * p) == 62 && Lookup64(128 * p) == 63
  {
    Hash64At(p, 0x2_2fdd_63cc_9538, 27, 0x100_0000_0000_0000);
    Hash64At(2 * p, 0x4_5fba_c799_2a70, 54, 0x200_0000_0000_0000);
    Hash64At(4 * p, 0x8_bf75_8f32_54e1, 45, 0x0);
    Hash64At(8 * p, 0x11_7eeb_1e64_a9c3, 26, 0x0);
    Hash64At(16 * p, 0x22_fdd6_3cc9_5386, 52, 0x0);
    Hash64At(32 * p, 0x45_fbac_7992_a70d, 40, 0x0);
    Hash64At(64 * p, 0x8b_f758_f325_4e1b, 16, 0x0);
    Hash64At(128 * p, 0x117_eeb1_e64a_9c36, 32, 0x0);
  }

  lemma {:induction false} Table32Row0(p: nat)
    requires p == 0x1
    ensures Lookup32(p) == 0 && Lookup32(2 * p) == 1 && Lookup32(4 * p) == 2 && Lookup32(8 * p) == 3
    ensures Lookup32(16 * p) == 4 && Lookup32(32 * p) == 5 && Lookup32(64 * p) == 6 && Lookup32(128 * p) == 7
  {
    Hash32At(p, 0x0, 0, 0x77c_b531);
    Hash32At(2 * p, 0x0, 1, 0x6f9_6a62);
    Hash32At(4 * p, 0x0, 3, 0x5f2_d4c4);
    Hash32At(8 * p, 0x0, 7, 0x3e5_a988);
    Hash32At(16 * p, 0x0, 14, 0x7cb_5310);
    Hash32At(32 * p, 0x0, 29, 0x796_a620);
    Hash32At(64 * p, 0x1, 27, 0x72d_4c40);
    Hash32At(128 * p, 0x3, 23, 0x65a_9880);
  }

  lemma {:induction false} Table32Row1(p: nat)
    requires p == 0x100
    ensures Lookup32(p) == 8 && Lookup32(2 * p) == 9 && Lookup32(4 * p) == 10 && Lookup32(8 * p) == 11
    ensures Lookup32(16 * p) == 12 && Lookup32(32 * p) == 13 && Lookup32(64 * p) == 14 && Lookup32(128 * p) == 15
  {
    Hash32At(p, 0x7, 15, 0x4b5_3100);
    Hash32At(2 * p, 0xe, 31, 0x16a_6200);
    Hash32At(4 * p, 0x1d, 30, 0x2d4_c400);
    Hash32At(8 * p, 0x3b, 28, 0x5a9_8800);
    Hash32At(16 * p, 0x77, 25, 0x353_1000);
    Hash32At(32 * p, 0xef, 18, 0x6a6_2000);
    Hash32At(64 * p, 0x1df, 5, 0x54c_4000);
    Hash32At(128 * p, 0x3be, 11, 0x298_8000);
  }

  lemma {:induction false} Table32Row2(p: nat)
    requires p == 0x1_0000
    ensures Lookup32(p) == 16 && Lookup32(2 * p) == 17 && Lookup32(4 * p) == 18 && Lookup32(8 * p) == 19
    ensures Lookup32(16 * p) == 20 && Lookup32(32 * p) == 21 && Lookup32(64 * p) == 22 && Lookup32(128 * p) == 23
  {
    Hash32At(p, 0x77c, 22, 0x531_0000);
    Hash32At(2 * p, 0xef9, 13, 0x262_0000);
    Hash32At(4 * p, 0x1df2, 26, 0x4c4_0000);
    Hash32At(8 * p, 0x3be5, 21, 0x188_0000);
    Hash32At(16 * p, 0x77cb, 10, 0x310_0000);
    Hash32At(32 * p, 0xef96, 20, 0x620_0000);
    Hash32At(64 * p, 0x1_df2d, 9, 0x440_0000);
    Hash32At(128 * p, 0x3_be5a, 19, 0x80_0000);
  }

  lemma {:induction false} Table32Row3(p: nat)
    requires p == 0x100_0000
    ensures Lookup32(p) == 24 && Lookup32(2 * p) == 25 && Lookup32(4 * p) == 26 && Lookup32(8 * p) == 27
    ensures Lookup32(16 * p) == 28 && Lookup32(32 * p) == 29 && Lookup32(64 * p) == 30 && Lookup32(128 * p) == 31
  {
    Hash32At(p, 0x7_7cb5, 6, 0x100_0000);
    Hash32At(2 * p, 0xe_f96a, 12, 0x200_0000);
    Hash32At(4 * p, 0x1d_f2d4, 24, 0x400_0000);
    Hash32At(8 * p, 0x3b_e5a9, 17, 0x0);
    Hash32At(16 * p, 0x77_cb53, 2, 0x0);
    Hash32At(32 * p, 0xef_96a6, 4, 0x0);
    Hash32At(64 * p, 0x1df_2d4c, 8, 0x0);
    Hash32At(128 * p, 0x3be_5a98, 16, 0x0);
  }

  lemma {:induction false} TableHighest32Row0(p: nat)
    requires p == 0x1
    ensures LookupHighest32(2 * p - 1) == 0 && LookupHighest32(4 * p - 1) == 1 && LookupHighest32(8 * p - 1) == 2 &&
            LookupHighest32(16 * p - 1) == 3
    ensures LookupHighest32(32 * p - 1) == 4 && LookupHighest32(64 * p - 1) == 5 &&
            LookupHighest32(128 * p - 1) == 6 && LookupHighest32(256 * p - 1) == 7
  {
    HashHighest32At(2 * p - 1, 0x0, 0, 0x7c4_acdd);
    HashHighest32At(4 * p - 1, 0x0, 2, 0x74e_0697);
    HashHighest32At(8 * p - 1, 0x0, 6, 0x660_ba0b);
    HashHighest32At(16 * p - 1, 0x0, 14, 0x486_20f3);
    HashHighest32At(32 * p - 1, 0x0, 30, 0xd0_eec3);
    HashHighest32At(64 * p - 1, 0x1, 29, 0x166_8a63);
    HashHighest32At(128 * p - 1, 0x3, 27, 0x291_c1a3);
    HashHighest32At(256 * p - 1, 0x7, 23, 0x4e8_3023);
  }

  lemma {:induction false} TableHighest32Row1(p: nat)
    requires p == 0x100
    ensures LookupHighest32(2 * p - 1) == 8 && LookupHighest32(4 * p - 1) == 9 && LookupHighest32(8 * p - 1) == 10 &&
            LookupHighest32(16 * p - 1) == 11
    ensures LookupHighest32(32 * p - 1) == 12 && LookupHighest32(64 * p - 1) == 13 &&
            LookupHighest32(128 * p - 1) == 14 && LookupHighest32(256 * p - 1) == 15
  {
    HashHighest32At(2 * p - 1, 0xf, 16, 0x195_0d23);
    HashHighest32At(4 * p - 1, 0x1f, 1, 0x2ee_c723);
    HashHighest32At(8 * p - 1, 0x3e, 3, 0x5a2_3b23);
    HashHighest32At(16 * p - 1, 0x7c, 8, 0x309_2323);
    HashHighest32At(32 * p - 1, 0xf8, 17, 0x5d6_f323);
    HashHighest32At(64 * p - 1, 0x1f1, 4, 0x372_9323);
    HashHighest32At(128 * p - 1, 0x3e2, 9, 0x6a9_d323);
    HashHighest32At(256 * p - 1, 0x7c4, 20, 0x518_5323);
  }

  lemma {:induction false} TableHighest32Row2(p: nat)
    requires p == 0x1_0000
    ensures LookupHighest32(2 * p - 1) == 16 && LookupHighest32(4 * p - 1) == 17 &&
            LookupHighest32(8 * p - 1) == 18 && LookupHighest32(16 * p - 1) == 19
    ensures LookupHighest32(32 * p - 1) == 20 && LookupHighest32(64 * p - 1) == 21 &&
            LookupHighest32(128 * p - 1) == 22 && LookupHighest32(256 * p - 1) == 23
  {
    HashHighest32At(2 * p - 1, 0xf89, 10, 0x1f5_5323);
    HashHighest32At(4 * p - 1, 0x1f12, 21, 0x3af_5323);
    HashHighest32At(8 * p - 1, 0x3e25, 11, 0x723_5323);
    HashHighest32At(16 * p - 1, 0x7c4a, 24, 0x60b_5323);
    HashHighest32At(32 * p - 1, 0xf895, 18, 0x3db_5323);
    HashHighest32At(64 * p - 1, 0x1_f12b, 5, 0x77b_5323);
    HashHighest32At(128 * p - 1, 0x3_e256, 12, 0x6bb_5323);
    HashHighest32At(256 * p - 1, 0x7_c4ac, 26, 0x53b_5323);
  }

  lemma {:induction false} TableHighest32Row3(p: nat)
    requires p == 0x100_0000
    ensures LookupHighest32(2 * p - 1) == 24 && LookupHighest32(4 * p - 1) == 25 &&
            LookupHighest32(8 * p - 1) == 26 && LookupHighest32(16 * p - 1) == 27
    ensures LookupHighest32(32 * p - 1) == 28 && LookupHighest32(64 * p - 1) == 29 &&
            LookupHighest32(128 * p - 1) == 30 && LookupHighest32(256 * p - 1) == 31
  {
    HashHighest32At(2 * p - 1, 0xf_8959, 22, 0x23b_5323);
    HashHighest32At(4 * p - 1, 0x1f_12b3, 13, 0x43b_5323);
    HashHighest32At(8 * p - 1, 0x3e_2566, 28, 0x3b_5323);
    HashHighest32At(16 * p - 1, 0x7c_4acd, 25, 0x3b_5323);
    HashHighest32At(32 * p - 1, 0xf8_959b, 19, 0x3b_5323);
    HashHighest32At(64 * p - 1, 0x1f1_2b37, 7, 0x3b_5323);
    HashHighest32At(128 * p - 1, 0x3e2_566e, 15, 0x3b_5323);
    HashHighest32At(256 * p - 1, 0x7c4_acdc, 31, 0x3b_5323);
  }

  lemma {:induction false} Table64(k: nat)
    requires k < 64
    ensures Lookup64(Pow2(k)) == k
  {
    PowersOfBytes();
    if k < 8 {
      Table64Row0(0x1);
      OneOfEight(Lookup64, k, 0, 0x1);
    } else if k < 16 {
      Table64Row1(0x100);
      OneOfEight(Lookup64, k, 1, 0x100);
    } else if k < 24 {
      Table64Row2(0x1_0000);
      OneOfEight(Lookup64, k, 2, 0x1_0000);
    } else if k < 32 {
      Table64Row3(0x100_0000);
      OneOfEight(Lookup64, k, 3, 0x100_0000);
    } else if k < 40 {
      Table64Row4(0x1_0000_0000);
      OneOfEight(Lookup64, k, 4, 0x1_0000_0000);
    } else if k < 48 {
      Table64Row5(0x100_0000_0000);
      OneOfEight(Lookup64, k, 5, 0x100_0000_0000);
    } else if k < 56 {
      Table64Row6(0x1_0000_0000_0000);
      OneOfEight(Lookup64, k, 6, 0x1_0000_0000_0000);
    } else {
      Table64Row7(0x100_0000_0000_0000);
      OneOfEight(Lookup64, k, 7, 0x100_0000_0000_0000);
    }
  }

  lemma {:induction false} Table32(k: nat)
    requires k < 32
    ensures Lookup32(Pow2(k)) == k
  {
    PowersOfBytes();
    if k < 8 {
      Table32Row0(0x1);
      OneOfEight(Lookup32, k, 0, 0x1);
    } else if k < 16 {
      Table32Row1(0x100);
      OneOfEight(Lookup32, k, 1, 0x100);
    } else if k < 24 {
      Table32Row2(0x1_0000);
      OneOfEight(Lookup32, k, 2, 0x1_0000);
    } else {
      Table32Row3(0x100_0000);
      OneOfEight(Lookup32, k, 3, 0x100_0000);
    }
  }

  lemma {:induction false} TableHighest32(k: nat)
    requires k < 32
    ensures LookupHighest32(2 * Pow2(k) - 1) == k
  {
    PowersOfBytes();
    if k < 8 {
      TableHighest32Row0(0x1);
      OneOfEightBelow(LookupHighest32, k, 0, 0x1);
    } else if k < 16 {
      TableHighest32Row1(0x100);
      OneOfEightBelow(LookupHighest32, k, 1, 0x100);
    } else if k < 24 {
      TableHighest32Row2(0x1_0000);
      OneOfEightBelow(LookupHighest32, k, 2, 0x1_0000);
    } else {
      TableHighest32Row3(0x100_0000);
      OneOfEightBelow(LookupHighest32, k, 3, 0x100_0000);
    }
  }

  /* ---- the lowest bit ---- */

  lemma {:induction false} AndWithNot(x: int)
    ensures And(x, Not(x)) == 0
    decreases Magnitude(x)
  {
    if Magnitude(x) > 0 {
      AndWithNot(x / 2);
      assert Not(x) / 2 == Not(x / 2);
    }
  }

  function Neg(x: int): int {
    -x
  }

  /** `v & -v` is the lowest set bit alone. */
  lemma {:induction false} AndWithNegative(v: int, k: nat)
    requires Bit(v, k) && forall i: nat | i < k :: !Bit(v, i)
    ensures And(v, Neg(v)) == Pow2(k)
    decreases k
  {
    HalfOfAnd(v, Neg(v));
    if k == 0 {
      AndWithNot(v / 2);
      assert Neg(v) / 2 == Not(v / 2);
    } else {
      assert !Bit(v, 0);
      forall i: nat | i < k - 1 ensures !Bit(v / 2, i) {
        assert !Bit(v, i + 1);
      }
      AndWithNegative(v / 2, k - 1);
      assert Neg(v) / 2 == Neg(v / 2);
    }
  }

  /** The same with the negative reduced to n bits. */
  lemma {:induction false} AndReduced(v: nat, n: nat)
    requires v < Pow2(n)
    ensures And(v, Neg(v) % Pow2(n)) == And(v, Neg(v))
  {
    var w := Neg(v) % Pow2(n);
    forall i: nat ensures Bit(And(v, w), i) == Bit(And(v, Neg(v)), i) {
      BitOfAnd(v, w, i);
      BitOfAnd(v, Neg(v), i);
      if i < n {
        BitOfRemainder(Neg(v), n, i);
      } else {
        BitBeyond(v, n, i);
      }
    }
    SameBitsSameWord(And(v, w), And(v, Neg(v)));
  }

  /** `v & -v` on 64 bits. */
  lemma {:induction false} Isolate64(v: Word)
    requires v != 0
    ensures And(v, Neg(v) % 0x1_0000_0000_0000_0000) == Pow2(FindLowest(v))
  {
    assert Pow2(64) == 0x1_0000_0000_0000_0000 by {
      Pow2Constants();
    }
    AndReduced(v, 64);
    AndWithNegative(v, FindLowest(v));
  }

  /** findLowestOn(uint64_t). */
  method FindLowestOn64(v: Word) returns (k: nat)
    requires v != 0
    ensures k == FindLowest(v)
  {
    Isolate64(v);
    Table64(FindLowest(v));
    k := Lookup64(And(v, Neg(v) % 0x1_0000_0000_0000_0000));
  }

  lemma {:induction false} Isolate32(v: word32)
    requires v != 0
    ensures FindLowest(v) < 32 && And(v, Neg(v) % 0x1_0000_0000) == Pow2(FindLowest(v))
  {
    assert Pow2(32) == 0x1_0000_0000 by {
      Pow2Constants();
    }
    AndReduced(v, 32);
    AndWithNegative(v, FindLowest(v));
    BelowThirtyTwo(v, FindLowest(v));
  }

  lemma {:induction false} BelowThirtyTwo(v: word32, i: nat)
    requires Bit(v, i)
    ensures i < 32
  {
    assert Pow2(32) == 0x1_0000_0000 by {
      Pow2Constants();
    }
    if i >= 32 {
      BitBeyond(v, 32, i);
    }
  }

  /** findLowestOn(uint32_t). */
  method FindLowestOn32(v: word32) returns (k: nat)
    requires v != 0
    ensures k == FindLowest(v)
  {
    Isolate32(v);
    Table32(FindLowest(v));
    k := Lookup32(And(v, Neg(v) % 0x1_0000_0000));
  }

  /* ---- the highest bit ---- */

  /** Bit k is the highest, and the n bits from it down are all set. */
  ghost predicate Smeared(v: int, k: nat, n: nat) {
    forall i: nat :: (i > k ==> !Bit(v, i)) && (k < i + n && i <= k ==> Bit(v, i))
  }

  /** `v |= v >> n` doubles the run. */
  method Smear(v: word32, n: nat, ghost k: nat) returns (r: word32)
    requires n > 0 && k < 32 && Smeared(v, k, n)
    ensures Smeared(r, k, 2 * n)
  {
    ghost var w := Or(v, Shr(v, n));
    forall i: nat ensures (i > k ==> !Bit(w, i)) && (k < i + 2 * n && i <= k ==> Bit(w, i)) {
      BitOfOr(v, Shr(v, n), i);
      BitOfShr(v, n, i);
    }
    FitsIn32(v, n, k);
    r := Or(v, Shr(v, n));
  }

  lemma {:induction false} FitsIn32(v: word32, n: nat, k: nat)
    requires k < 32 && Smeared(Or(v, Shr(v, n)), k, 0)
    ensures 0 <= Or(v, Shr(v, n)) < 0x1_0000_0000
  {
    ShrIsDivision(v, n);
    ShrAtMost(v, n);
    OrIsWord(v, Shr(v, n));
    assert Pow2(32) == 0x1_0000_0000 by {
      Pow2Constants();
    }
    SmallIffNoHighBits(Or(v, Shr(v, n)), 32);
  }

  lemma {:induction false} AllSmeared(v: int, k: nat)
    requires k < 32 && Smeared(v, k, 32)
    ensures v == 2 * Pow2(k) - 1
  {
    forall i: nat ensures Bit(v, i) == Bit(Pow2(k + 1) - 1, i) {
      BitOfPow2Minus1(k + 1, i);
    }
    SameBitsSameWord(v, Pow2(k + 1) - 1);
  }

  /** findHighestOn(uint32_t). */
  method FindHighestOn32(v: word32) returns (k: nat)
    requires v != 0
    ensures k == FindHighest(v) < 32
  {
    ghost var top := FindHighest(v);
    BelowThirtyTwo(v, top);
    var w := Smear(v, 1, top);
    w := Smear(w, 2, top);
    w := Smear(w, 4, top);
    w := Smear(w, 8, top);
    w := Smear(w, 16, top);
    AllSmeared(w, top);
    TableHighest32(top);
    k := LookupHighest32(w);
  }

  lemma {:induction false} HighestOfHalf(v: Word, k: nat)
    requires v != 0
    requires var high := v / 0x1_0000_0000;
             k == if high != 0 then 32 + FindHighest(high) else FindHighest(v % 0x1_0000_0000)
    ensures k == FindHighest(v)
  {
    var high, low := v / 0x1_0000_0000, v % 0x1_0000_0000;
    forall i: nat ensures Bit(high, i) == Bit(v, i + 32) && (i < 32 ==> Bit(low, i) == Bit(v, i)) {
      assert Pow2(32) == 0x1_0000_0000 by {
        Pow2Constants();
      }
      ShrIsDivision(v, 32);
      BitOfShr(v, 32, i);
      if i < 32 {
        BitOfRemainder(v, 32, i);
      }
    }
    if high != 0 {
      forall i: nat | i > k ensures !Bit(v, i) {
        assert Bit(high, i - 32) == Bit(v, i - 32 + 32);
      }
      assert Bit(v, k) by {
        assert Bit(high, k - 32) == Bit(v, k - 32 + 32);
      }
    } else {
      BelowThirtyTwo(low, k);
      forall i: nat | i > k ensures !Bit(v, i) {
        if i >= 32 {
          ZeroHasNoBits(i - 32);
          assert Bit(high, i - 32) == Bit(v, i - 32 + 32);
        }
      }
    }
  }

  /** findHighestOn(uint64_t): the upper half decides, unless it is zero. */
  method FindHighestOn64(v: Word) returns (k: nat)
    requires v != 0
    ensures k == FindHighest(v)
  {
    if v / 0x1_0000_0000 != 0 {
      var h := FindHighestOn32(v / 0x1_0000_0000);
      k := 32 + h;
    } else {
      k := FindHighestOn32(v % 0x1_0000_0000);
    }
    HighestOfHalf(v, k);
  }
}
