/** The MD5 message digest as section 3 of RFC 1321 defines it. */
module Md5Spec {

  datatype Regs = Regs(a: bv32, b: bv32, c: bv32, d: bv32)

  const INIT := Regs(0x6745_2301, 0xefcd_ab89, 0x98ba_dcfe, 0x1032_5476)

  // ---- section 3.4: one block of sixteen words -------------------------------------------------------------------

  function F(x: bv32, y: bv32, z: bv32): bv32 { (x & y) | (!x & z) }
  function G(x: bv32, y: bv32, z: bv32): bv32 { (x & z) | (y & !z) }
  function H(x: bv32, y: bv32, z: bv32): bv32 { x ^ y ^ z }
  function I(x: bv32, y: bv32, z: bv32): bv32 { y ^ (x | !z) }

  /** The function of the round that step `i` belongs to. */
  function Auxiliary(i: nat, x: bv32, y: bv32, z: bv32): bv32 {
    if i < 16 then F(x, y, z) else if i < 32 then G(x, y, z) else if i < 48 then H(x, y, z) else I(x, y, z)
  }

  /** The word that step `i` adds. */
  function Index(i: nat): (k: nat)
    ensures k < 16
  {
    if i < 16 then i else if i < 32 then (5 * i + 1) % 16 else if i < 48 then (3 * i + 5) % 16 else 7 * i % 16
  }

  /** By how much step `i` rotates. */
  function Shift(i: nat): (s: nat)
    ensures 4 <= s <= 23
  {
    var p := i % 4;
    if i < 16 then (if p == 0 then 7 else if p == 1 then 12 else if p == 2 then 17 else 22)
    else if i < 32 then (if p == 0 then 5 else if p == 1 then 9 else if p == 2 then 14 else 20)
    else if i < 48 then (if p == 0 then 4 else if p == 1 then 11 else if p == 2 then 16 else 23)
    else (if p == 0 then 6 else if p == 1 then 10 else if p == 2 then 15 else 21)
  }

  /** The table of sines: the integer part of 2^32 times |sin(i + 1)|. */
  function T(i: nat): bv32
    requires i < 64
  {
    if i < 16 then T1(i) else if i < 32 then T2(i - 16) else if i < 48 then T3(i - 32) else T4(i - 48)
  }

  function T1(i: nat): bv32
    requires i < 16
  {
    match i
    case 0 => 0xd76a_a478 case 1 => 0xe8c7_b756 case 2 => 0x2420_70db case 3 => 0xc1bd_ceee
    case 4 => 0xf57c_0faf case 5 => 0x4787_c62a case 6 => 0xa830_4613 case 7 => 0xfd46_9501
    case 8 => 0x6980_98d8 case 9 => 0x8b44_f7af case 10 => 0xffff_5bb1 case 11 => 0x895c_d7be
    case 12 => 0x6b90_1122 case 13 => 0xfd98_7193 case 14 => 0xa679_438e case 15 => 0x49b4_0821
  }

  function T2(i: nat): bv32
    requires i < 16
  {
    match i
    case 0 => 0xf61e_2562 case 1 => 0xc040_b340 case 2 => 0x265e_5a51 case 3 => 0xe9b6_c7aa
    case 4 => 0xd62f_105d case 5 => 0x0244_1453 case 6 => 0xd8a1_e681 case 7 => 0xe7d3_fbc8
    case 8 => 0x21e1_cde6 case 9 => 0xc337_07d6 case 10 => 0xf4d5_0d87 case 11 => 0x455a_14ed
    case 12 => 0xa9e3_e905 case 13 => 0xfcef_a3f8 case 14 => 0x676f_02d9 case 15 => 0x8d2a_4c8a
  }

  function T3(i: nat): bv32
    requires i < 16
  {
    match i
    case 0 => 0xfffa_3942 case 1 => 0x8771_f681 case 2 => 0x6d9d_6122 case 3 => 0xfde5_380c
    case 4 => 0xa4be_ea44 case 5 => 0x4bde_cfa9 case 6 => 0xf6bb_4b60 case 7 => 0xbebf_bc70
    case 8 => 0x289b_7ec6 case 9 => 0xeaa1_27fa case 10 => 0xd4ef_3085 case 11 => 0x0488_1d05
    case 12 => 0xd9d4_d039 case 13 => 0xe6db_99e5 case 14 => 0x1fa2_7cf8 case 15 => 0xc4ac_5665
  }

  function T4(i: nat): bv32
    requires i < 16
  {
    match i
    case 0 => 0xf429_2244 case 1 => 0x432a_ff97 case 2 => 0xab94_23a7 case 3 => 0xfc93_a039
    case 4 => 0x655b_59c3 case 5 => 0x8f0c_cc92 case 6 => 0xffef_f47d case 7 => 0x8584_5dd1
    case 8 => 0x6fa8_7e4f case 9 => 0xfe2c_e6e0 case 10 => 0xa301_4314 case 11 => 0x4e08_11a1
    case 12 => 0xf753_7e82 case 13 => 0xbd3a_f235 case 14 => 0x2ad7_d2bb case 15 => 0xeb86_d391
  }

  /** The word shifted left circularly. */
  function Rotated(w: bv32, s: nat): bv32
    requires s <= 32
  {
    (w << s) | (w >> (32 - s))
  }

  /** The operation of one step, `f` being the value of the auxiliary function. */
  function Operation(a: bv32, f: bv32, b: bv32, word: bv32, t: bv32, s: nat): bv32
    requires s <= 32
  {
    b + Rotated(a + f + word + t, s)
  }

  /** Step `i`, after which the register that was written is called `b` and the others have moved on. */
  function Step(r: Regs, x: seq<bv32>, i: nat): Regs
    requires |x| == 16 && i < 64
  {
    Regs(r.d, Operation(r.a, Auxiliary(i, r.b, r.c, r.d), r.b, x[Index(i)], T(i), Shift(i)), r.b, r.c)
  }

  function Steps(r: Regs, x: seq<bv32>, n: nat): Regs
    requires |x| == 16 && n <= 64
  {
    if n == 0 then r else Step(Steps(r, x, n - 1), x, n - 1)
  }

  function Sum(r: Regs, s: Regs): Regs { Regs(r.a + s.a, r.b + s.b, r.c + s.c, r.d + s.d) }

  function Block(r: Regs, x: seq<bv32>): Regs
    requires |x| == 16
  {
    Sum(r, Steps(r, x, 64))
  }

  // ---- sections 2 and 3.3: words, low-order byte first -----------------------------------------------------------

  function Word(b0: bv8, b1: bv8, b2: bv8, b3: bv8): bv32 {
    (b0 as bv32) | ((b1 as bv32) << 8) | ((b2 as bv32) << 16) | ((b3 as bv32) << 24)
  }

  function WordAt(s: seq<bv8>, i: nat): bv32
    requires 4 * i + 4 <= |s|
  {
    Word(s[4 * i], s[4 * i + 1], s[4 * i + 2], s[4 * i + 3])
  }

  function Words(block: seq<bv8>): (x: seq<bv32>)
    requires |block| == 64
    ensures |x| == 16
  {
    seq(16, i requires 0 <= i < 16 => WordAt(block, i))
  }

  function WordBytes(w: bv32): (s: seq<bv8>)
    ensures |s| == 4
  {
    [(w & 0xff) as bv8, ((w >> 8) & 0xff) as bv8, ((w >> 16) & 0xff) as bv8, ((w >> 24) & 0xff) as bv8]
  }

  /** The state after the whole blocks of `m`. */
  function Absorb(m: seq<bv8>): Regs
    requires |m| % 64 == 0
  {
    if m == [] then INIT else Block(Absorb(m[..|m| - 64]), Words(m[|m| - 64..]))
  }

  // ---- sections 3.1, 3.2 and 3.5: padding, length and digest -----------------------------------------------------

  function Zeros(n: nat): (s: seq<bv8>)
    ensures |s| == n && forall i :: 0 <= i < n ==> s[i] == 0
  {
    seq(n, i => 0)
  }

  /** The number of zero bytes that padding takes: the smallest that leaves room for the length and nothing else. */
  function PadZeros(n: nat): (k: nat)
    ensures k < 64 && (n + 1 + k) % 64 == 56
  {
    (119 - n % 64) % 64
  }

  /** The low 32 bits of a number, as a word. */
  function Low(n: nat): bv32 { (n % 0x1_0000_0000) as bv32 }

  /** The length in bits: its low word and then its high word. */
  function LengthBytes(n: nat): (s: seq<bv8>)
    ensures |s| == 8
  {
    WordBytes(Low(8 * n)) + WordBytes(Low(8 * n / 0x1_0000_0000))
  }

  lemma EightMore(n: nat)
    requires n % 64 == 56
    ensures (n + 8) % 64 == 0 && n + 8 >= 64
  {
  }

  function Padded(m: seq<bv8>): (p: seq<bv8>)
    ensures |p| % 64 == 0 && |p| >= 64
  {
    var zeros := PadZeros(|m|);
    EightMore(|m| + 1 + zeros);
    m + [0x80] + Zeros(zeros) + LengthBytes(|m|)
  }

  function Digest(m: seq<bv8>): (s: seq<bv8>)
    ensures |s| == 16
  {
    var r := Absorb(Padded(m));
    WordBytes(r.a) + WordBytes(r.b) + WordBytes(r.c) + WordBytes(r.d)
  }
}
