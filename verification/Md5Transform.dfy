/** The 64 unrolled steps of `MD5Transform` of libpisock/md5.c. */
module Md5Transform {
  import opened Md5Spec

  function F1(x: bv32, y: bv32, z: bv32): bv32 { z ^ (x & (y ^ z)) }
  function F2(x: bv32, y: bv32, z: bv32): bv32 { F1(z, x, y) }
  function F3(x: bv32, y: bv32, z: bv32): bv32 { x ^ y ^ z }
  function F4(x: bv32, y: bv32, z: bv32): bv32 { y ^ (x | !z) }

  /** `MD5STEP`, `f` being the value of the auxiliary function of the other registers. */
  function Mix(w: bv32, f: bv32, x: bv32, added: bv32, s: nat): bv32
    requires 4 <= s <= 23
  {
    Rotated(w + (f + added), s) + x
  }

  lemma Selection(x: bv32, y: bv32, z: bv32)
    ensures z ^ (x & (y ^ z)) == (x & y) | (!x & z)
  {
  }

  lemma SwappedSelection(x: bv32, y: bv32, z: bv32)
    ensures y ^ (z & (x ^ y)) == (x & z) | (y & !z)
  {
  }

  /** The two rewritten functions are those of the standard. */
  lemma F1IsF(x: bv32, y: bv32, z: bv32)
    ensures F1(x, y, z) == F(x, y, z)
  {
    Selection(x, y, z);
  }

  lemma F2IsG(x: bv32, y: bv32, z: bv32)
    ensures F2(x, y, z) == G(x, y, z)
  {
    SwappedSelection(x, y, z);
  }

  lemma F3IsH(x: bv32, y: bv32, z: bv32)
    ensures F3(x, y, z) == H(x, y, z)
  {
  }

  lemma F4IsI(x: bv32, y: bv32, z: bv32)
    ensures F4(x, y, z) == I(x, y, z)
  {
  }

  lemma MixIs(w: bv32, f: bv32, x: bv32, m: bv32, t: bv32, s: nat)
    requires 4 <= s <= 23
    ensures Mix(w, f, x, m + t, s) == Operation(w, f, x, m, t, s)
  {
    hide Rotated;
    Reordered(w, f, m, t);
    Commuted(Rotated(w + f + m + t, s), x);
  }

  lemma StepIsMix(r: Regs, x: seq<bv32>, i: nat, f: bv32, w: bv32, t: bv32)
    requires |x| == 16 && i < 64 && f == Auxiliary(i, r.b, r.c, r.d) && w == x[Index(i)] && t == T(i)
    ensures Step(r, x, i) == Regs(r.d, Mix(r.a, f, r.b, w + t, Shift(i)), r.b, r.c)
  {
    hide Auxiliary, T, Index, Shift, Operation, Mix;
    MixIs(r.a, f, r.b, w, t, Shift(i));
  }

  lemma Commuted(x: bv32, y: bv32)
    ensures x + y == y + x
  {
  }

  lemma Reordered(a: bv32, f: bv32, x: bv32, t: bv32)
    ensures a + (f + (x + t)) == a + f + x + t
  {
  }

  lemma {:induction false} StepsFour(r: Regs, x: seq<bv32>, n: nat)
    requires |x| == 16 && n <= 60
    ensures Steps(r, x, n + 4) == Step(Step(Step(Step(Steps(r, x, n), x, n), x, n + 1), x, n + 2), x, n + 3)
  {
    hide Step;
    assert Steps(r, x, n + 2) == Step(Steps(r, x, n + 1), x, n + 1);
    assert Steps(r, x, n + 3) == Step(Steps(r, x, n + 2), x, n + 2);
  }

  /** `MD5STEP(F1, w, x, y, z, in + t, s)`, written as step `i` of the standard. */
  method First(w: bv32, x: bv32, y: bv32, z: bv32, word: bv32, t: bv32, s: nat, ghost block: seq<bv32>, ghost i: nat)
    returns (w': bv32)
    requires |block| == 16 && i < 16 && word == block[Index(i)] && t == T(i) && s == Shift(i)
    ensures Regs(z, w', x, y) == Step(Regs(w, x, y, z), block, i)
  {
    hide Step, Mix, T, Index, Shift, F1, F2, F3, F4, F, G, H, I;
    F1IsF(x, y, z);
    w' := Mix(w, F1(x, y, z), x, word + t, s);
    StepIsMix(Regs(w, x, y, z), block, i, F1(x, y, z), word, t);
  }

  lemma Sines1()
    ensures T(0) == 0xd76a_a478 && T(1) == 0xe8c7_b756 && T(2) == 0x2420_70db && T(3) == 0xc1bd_ceee
    ensures T(4) == 0xf57c_0faf && T(5) == 0x4787_c62a && T(6) == 0xa830_4613 && T(7) == 0xfd46_9501
    ensures T(8) == 0x6980_98d8 && T(9) == 0x8b44_f7af && T(10) == 0xffff_5bb1 && T(11) == 0x895c_d7be
    ensures T(12) == 0x6b90_1122 && T(13) == 0xfd98_7193 && T(14) == 0xa679_438e && T(15) == 0x49b4_0821
  {
  }

  lemma Table1()
    ensures Index(0) == 0 && Index(1) == 1 && Index(2) == 2 && Index(3) == 3
    ensures Shift(0) == 7 && Shift(1) == 12 && Shift(2) == 17 && Shift(3) == 22
    ensures Index(4) == 4 && Index(5) == 5 && Index(6) == 6 && Index(7) == 7
    ensures Shift(4) == 7 && Shift(5) == 12 && Shift(6) == 17 && Shift(7) == 22
    ensures Index(8) == 8 && Index(9) == 9 && Index(10) == 10 && Index(11) == 11
    ensures Shift(8) == 7 && Shift(9) == 12 && Shift(10) == 17 && Shift(11) == 22
    ensures Index(12) == 12 && Index(13) == 13 && Index(14) == 14 && Index(15) == 15
    ensures Shift(12) == 7 && Shift(13) == 12 && Shift(14) == 17 && Shift(15) == 22
  {
  }

  method Round1(r: Regs, m: seq<bv32>, ghost start: Regs) returns (r': Regs)
    requires |m| == 16 && r == Steps(start, m, 0)
    ensures r' == Steps(start, m, 16)
  {
    hide Step, Steps, T, Index, Shift;
    Sines1();
    Table1();
    var a, b, c, d := r.a, r.b, r.c, r.d;
    a := First(a, b, c, d, m[0], 0xd76a_a478, 7, m, 0);
    d := First(d, a, b, c, m[1], 0xe8c7_b756, 12, m, 1);
    c := First(c, d, a, b, m[2], 0x2420_70db, 17, m, 2);
    b := First(b, c, d, a, m[3], 0xc1bd_ceee, 22, m, 3);
    StepsFour(start, m, 0);
    assert Regs(a, b, c, d) == Steps(start, m, 4);
    a := First(a, b, c, d, m[4], 0xf57c_0faf, 7, m, 4);
    d := First(d, a, b, c, m[5], 0x4787_c62a, 12, m, 5);
    c := First(c, d, a, b, m[6], 0xa830_4613, 17, m, 6);
    b := First(b, c, d, a, m[7], 0xfd46_9501, 22, m, 7);
    StepsFour(start, m, 4);
    assert Regs(a, b, c, d) == Steps(start, m, 8);
    a := First(a, b, c, d, m[8], 0x6980_98d8, 7, m, 8);
    d := First(d, a, b, c, m[9], 0x8b44_f7af, 12, m, 9);
    c := First(c, d, a, b, m[10], 0xffff_5bb1, 17, m, 10);
    b := First(b, c, d, a, m[11], 0x895c_d7be, 22, m, 11);
    StepsFour(start, m, 8);
    assert Regs(a, b, c, d) == Steps(start, m, 12);
    a := First(a, b, c, d, m[12], 0x6b90_1122, 7, m, 12);
    d := First(d, a, b, c, m[13], 0xfd98_7193, 12, m, 13);
    c := First(c, d, a, b, m[14], 0xa679_438e, 17, m, 14);
    b := First(b, c, d, a, m[15], 0x49b4_0821, 22, m, 15);
    StepsFour(start, m, 12);
    assert Regs(a, b, c, d) == Steps(start, m, 16);
    r' := Regs(a, b, c, d);
  }

  /** `MD5STEP(F2, w, x, y, z, in + t, s)`, written as step `i` of the standard. */
  method Second(w: bv32, x: bv32, y: bv32, z: bv32, word: bv32, t: bv32, s: nat, ghost block: seq<bv32>, ghost i: nat)
    returns (w': bv32)
    requires |block| == 16 && 16 <= i < 32 && word == block[Index(i)] && t == T(i) && s == Shift(i)
    ensures Regs(z, w', x, y) == Step(Regs(w, x, y, z), block, i)
  {
    hide Step, Mix, T, Index, Shift, F1, F2, F3, F4, F, G, H, I;
    F2IsG(x, y, z);
    w' := Mix(w, F2(x, y, z), x, word + t, s);
    StepIsMix(Regs(w, x, y, z), block, i, F2(x, y, z), word, t);
  }

  lemma Table2()
    ensures T(16) == 0xf61e_2562 && T(17) == 0xc040_b340 && T(18) == 0x265e_5a51 && T(19) == 0xe9b6_c7aa
    ensures Index(16) == 1 && Index(17) == 6 && Index(18) == 11 && Index(19) == 0
    ensures Shift(16) == 5 && Shift(17) == 9 && Shift(18) == 14 && Shift(19) == 20
    ensures T(20) == 0xd62f_105d && T(21) == 0x0244_1453 && T(22) == 0xd8a1_e681 && T(23) == 0xe7d3_fbc8
    ensures Index(20) == 5 && Index(21) == 10 && Index(22) == 15 && Index(23) == 4
    ensures Shift(20) == 5 && Shift(21) == 9 && Shift(22) == 14 && Shift(23) == 20
    ensures T(24) == 0x21e1_cde6 && T(25) == 0xc337_07d6 && T(26) == 0xf4d5_0d87 && T(27) == 0x455a_14ed
    ensures Index(24) == 9 && Index(25) == 14 && Index(26) == 3 && Index(27) == 8
    ensures Shift(24) == 5 && Shift(25) == 9 && Shift(26) == 14 && Shift(27) == 20
    ensures T(28) == 0xa9e3_e905 && T(29) == 0xfcef_a3f8 && T(30) == 0x676f_02d9 && T(31) == 0x8d2a_4c8a
    ensures Index(28) == 13 && Index(29) == 2 && Index(30) == 7 && Index(31) == 12
    ensures Shift(28) == 5 && Shift(29) == 9 && Shift(30) == 14 && Shift(31) == 20
  {
  }

  method Round2(r: Regs, m: seq<bv32>, ghost start: Regs) returns (r': Regs)
    requires |m| == 16 && r == Steps(start, m, 16)
    ensures r' == Steps(start, m, 32)
  {
    hide Step, Steps, T, Index, Shift;
    Table2();
    var a, b, c, d := r.a, r.b, r.c, r.d;
    a := Second(a, b, c, d, m[1], 0xf61e_2562, 5, m, 16);
    d := Second(d, a, b, c, m[6], 0xc040_b340, 9, m, 17);
    c := Second(c, d, a, b, m[11], 0x265e_5a51, 14, m, 18);
    b := Second(b, c, d, a, m[0], 0xe9b6_c7aa, 20, m, 19);
    StepsFour(start, m, 16);
    assert Regs(a, b, c, d) == Steps(start, m, 20);
    a := Second(a, b, c, d, m[5], 0xd62f_105d, 5, m, 20);
    d := Second(d, a, b, c, m[10], 0x0244_1453, 9, m, 21);
    c := Second(c, d, a, b, m[15], 0xd8a1_e681, 14, m, 22);
    b := Second(b, c, d, a, m[4], 0xe7d3_fbc8, 20, m, 23);
    StepsFour(start, m, 20);
    assert Regs(a, b, c, d) == Steps(start, m, 24);
    a := Second(a, b, c, d, m[9], 0x21e1_cde6, 5, m, 24);
    d := Second(d, a, b, c, m[14], 0xc337_07d6, 9, m, 25);
    c := Second(c, d, a, b, m[3], 0xf4d5_0d87, 14, m, 26);
    b := Second(b, c, d, a, m[8], 0x455a_14ed, 20, m, 27);
    StepsFour(start, m, 24);
    assert Regs(a, b, c, d) == Steps(start, m, 28);
    a := Second(a, b, c, d, m[13], 0xa9e3_e905, 5, m, 28);
    d := Second(d, a, b, c, m[2], 0xfcef_a3f8, 9, m, 29);
    c := Second(c, d, a, b, m[7], 0x676f_02d9, 14, m, 30);
    b := Second(b, c, d, a, m[12], 0x8d2a_4c8a, 20, m, 31);
    StepsFour(start, m, 28);
    assert Regs(a, b, c, d) == Steps(start, m, 32);
    r' := Regs(a, b, c, d);
  }

  /** `MD5STEP(F3, w, x, y, z, in + t, s)`, written as step `i` of the standard. */
  method Third(w: bv32, x: bv32, y: bv32, z: bv32, word: bv32, t: bv32, s: nat, ghost block: seq<bv32>, ghost i: nat)
    returns (w': bv32)
    requires |block| == 16 && 32 <= i < 48 && word == block[Index(i)] && t == T(i) && s == Shift(i)
    ensures Regs(z, w', x, y) == Step(Regs(w, x, y, z), block, i)
  {
    hide Step, Mix, T, Index, Shift, F1, F2, F3, F4, F, G, H, I;
    F3IsH(x, y, z);
    w' := Mix(w, F3(x, y, z), x, word + t, s);
    StepIsMix(Regs(w, x, y, z), block, i, F3(x, y, z), word, t);
  }

  lemma Table3()
    ensures T(32) == 0xfffa_3942 && T(33) == 0x8771_f681 && T(34) == 0x6d9d_6122 && T(35) == 0xfde5_380c
    ensures Index(32) == 5 && Index(33) == 8 && Index(34) == 11 && Index(35) == 14
    ensures Shift(32) == 4 && Shift(33) == 11 && Shift(34) == 16 && Shift(35) == 23
    ensures T(36) == 0xa4be_ea44 && T(37) == 0x4bde_cfa9 && T(38) == 0xf6bb_4b60 && T(39) == 0xbebf_bc70
    ensures Index(36) == 1 && Index(37) == 4 && Index(38) == 7 && Index(39) == 10
    ensures Shift(36) == 4 && Shift(37) == 11 && Shift(38) == 16 && Shift(39) == 23
    ensures T(40) == 0x289b_7ec6 && T(41) == 0xeaa1_27fa && T(42) == 0xd4ef_3085 && T(43) == 0x0488_1d05
    ensures Index(40) == 13 && Index(41) == 0 && Index(42) == 3 && Index(43) == 6
    ensures Shift(40) == 4 && Shift(41) == 11 && Shift(42) == 16 && Shift(43) == 23
    ensures T(44) == 0xd9d4_d039 && T(45) == 0xe6db_99e5 && T(46) == 0x1fa2_7cf8 && T(47) == 0xc4ac_5665
    ensures Index(44) == 9 && Index(45) == 12 && Index(46) == 15 && Index(47) == 2
    ensures Shift(44) == 4 && Shift(45) == 11 && Shift(46) == 16 && Shift(47) == 23
  {
  }

  method Round3(r: Regs, m: seq<bv32>, ghost start: Regs) returns (r': Regs)
    requires |m| == 16 && r == Steps(start, m, 32)
    ensures r' == Steps(start, m, 48)
  {
    hide Step, Steps, T, Index, Shift;
    Table3();
    var a, b, c, d := r.a, r.b, r.c, r.d;
    a := Third(a, b, c, d, m[5], 0xfffa_3942, 4, m, 32);
    d := Third(d, a, b, c, m[8], 0x8771_f681, 11, m, 33);
    c := Third(c, d, a, b, m[11], 0x6d9d_6122, 16, m, 34);
    b := Third(b, c, d, a, m[14], 0xfde5_380c, 23, m, 35);
    StepsFour(start, m, 32);
    assert Regs(a, b, c, d) == Steps(start, m, 36);
    a := Third(a, b, c, d, m[1], 0xa4be_ea44, 4, m, 36);
    d := Third(d, a, b, c, m[4], 0x4bde_cfa9, 11, m, 37);
    c := Third(c, d, a, b, m[7], 0xf6bb_4b60, 16, m, 38);
    b := Third(b, c, d, a, m[10], 0xbebf_bc70, 23, m, 39);
    StepsFour(start, m, 36);
    assert Regs(a, b, c, d) == Steps(start, m, 40);
    a := Third(a, b, c, d, m[13], 0x289b_7ec6, 4, m, 40);
    d := Third(d, a, b, c, m[0], 0xeaa1_27fa, 11, m, 41);
    c := Third(c, d, a, b, m[3], 0xd4ef_3085, 16, m, 42);
    b := Third(b, c, d, a, m[6], 0x0488_1d05, 23, m, 43);
    StepsFour(start, m, 40);
    assert Regs(a, b, c, d) == Steps(start, m, 44);
    a := Third(a, b, c, d, m[9], 0xd9d4_d039, 4, m, 44);
    d := Third(d, a, b, c, m[12], 0xe6db_99e5, 11, m, 45);
    c := Third(c, d, a, b, m[15], 0x1fa2_7cf8, 16, m, 46);
    b := Third(b, c, d, a, m[2], 0xc4ac_5665, 23, m, 47);
    StepsFour(start, m, 44);
    assert Regs(a, b, c, d) == Steps(start, m, 48);
    r' := Regs(a, b, c, d);
  }

  /** `MD5STEP(F4, w, x, y, z, in + t, s)`, written as step `i` of the standard. */
  method Fourth(w: bv32, x: bv32, y: bv32, z: bv32, word: bv32, t: bv32, s: nat, ghost block: seq<bv32>, ghost i: nat)
    returns (w': bv32)
    requires |block| == 16 && 48 <= i < 64 && word == block[Index(i)] && t == T(i) && s == Shift(i)
    ensures Regs(z, w', x, y) == Step(Regs(w, x, y, z), block, i)
  {
    hide Step, Mix, T, Index, Shift, F1, F2, F3, F4, F, G, H, I;
    F4IsI(x, y, z);
    w' := Mix(w, F4(x, y, z), x, word + t, s);
    StepIsMix(Regs(w, x, y, z), block, i, F4(x, y, z), word, t);
  }

  lemma Table4()
    ensures T(48) == 0xf429_2244 && T(49) == 0x432a_ff97 && T(50) == 0xab94_23a7 && T(51) == 0xfc93_a039
    ensures Index(48) == 0 && Index(49) == 7 && Index(50) == 14 && Index(51) == 5
    ensures Shift(48) == 6 && Shift(49) == 10 && Shift(50) == 15 && Shift(51) == 21
    ensures T(52) == 0x655b_59c3 && T(53) == 0x8f0c_cc92 && T(54) == 0xffef_f47d && T(55) == 0x8584_5dd1
    ensures Index(52) == 12 && Index(53) == 3 && Index(54) == 10 && Index(55) == 1
    ensures Shift(52) == 6 && Shift(53) == 10 && Shift(54) == 15 && Shift(55) == 21
    ensures T(56) == 0x6fa8_7e4f && T(57) == 0xfe2c_e6e0 && T(58) == 0xa301_4314 && T(59) == 0x4e08_11a1
    ensures Index(56) == 8 && Index(57) == 15 && Index(58) == 6 && Index(59) == 13
    ensures Shift(56) == 6 && Shift(57) == 10 && Shift(58) == 15 && Shift(59) == 21
    ensures T(60) == 0xf753_7e82 && T(61) == 0xbd3a_f235 && T(62) == 0x2ad7_d2bb && T(63) == 0xeb86_d391
    ensures Index(60) == 4 && Index(61) == 11 && Index(62) == 2 && Index(63) == 9
    ensures Shift(60) == 6 && Shift(61) == 10 && Shift(62) == 15 && Shift(63) == 21
  {
  }

  method Round4(r: Regs, m: seq<bv32>, ghost start: Regs) returns (r': Regs)
    requires |m| == 16 && r == Steps(start, m, 48)
    ensures r' == Steps(start, m, 64)
  {
    hide Step, Steps, T, Index, Shift;
    Table4();
    var a, b, c, d := r.a, r.b, r.c, r.d;
    a := Fourth(a, b, c, d, m[0], 0xf429_2244, 6, m, 48);
    d := Fourth(d, a, b, c, m[7], 0x432a_ff97, 10, m, 49);
    c := Fourth(c, d, a, b, m[14], 0xab94_23a7, 15, m, 50);
    b := Fourth(b, c, d, a, m[5], 0xfc93_a039, 21, m, 51);
    StepsFour(start, m, 48);
    assert Regs(a, b, c, d) == Steps(start, m, 52);
    a := Fourth(a, b, c, d, m[12], 0x655b_59c3, 6, m, 52);
    d := Fourth(d, a, b, c, m[3], 0x8f0c_cc92, 10, m, 53);
    c := Fourth(c, d, a, b, m[10], 0xffef_f47d, 15, m, 54);
    b := Fourth(b, c, d, a, m[1], 0x8584_5dd1, 21, m, 55);
    StepsFour(start, m, 52);
    assert Regs(a, b, c, d) == Steps(start, m, 56);
    a := Fourth(a, b, c, d, m[8], 0x6fa8_7e4f, 6, m, 56);
    d := Fourth(d, a, b, c, m[15], 0xfe2c_e6e0, 10, m, 57);
    c := Fourth(c, d, a, b, m[6], 0xa301_4314, 15, m, 58);
    b := Fourth(b, c, d, a, m[13], 0x4e08_11a1, 21, m, 59);
    StepsFour(start, m, 56);
    assert Regs(a, b, c, d) == Steps(start, m, 60);
    a := Fourth(a, b, c, d, m[4], 0xf753_7e82, 6, m, 60);
    d := Fourth(d, a, b, c, m[11], 0xbd3a_f235, 10, m, 61);
    c := Fourth(c, d, a, b, m[2], 0x2ad7_d2bb, 15, m, 62);
    b := Fourth(b, c, d, a, m[9], 0xeb86_d391, 21, m, 63);
    StepsFour(start, m, 60);
    assert Regs(a, b, c, d) == Steps(start, m, 64);
    r' := Regs(a, b, c, d);
  }

  /** `MD5Transform`: the state after one more block. */
  method Transform(r: Regs, m: seq<bv32>) returns (r': Regs)
    requires |m| == 16
    ensures r' == Block(r, m)
  {
    hide Steps, Sum;
    assert r == Steps(r, m, 0) by { NoSteps(r, m); }
    r' := Round1(r, m, r);
    r' := Round2(r', m, r);
    r' := Round3(r', m, r);
    r' := Round4(r', m, r);
    r' := Sum(r, r');
  }

  lemma NoSteps(r: Regs, m: seq<bv32>)
    requires |m| == 16
    ensures Steps(r, m, 0) == r
  {
  }
}
