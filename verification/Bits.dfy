/** Single bits of a mask. */
module Bits {

  /** `x & (1 << i)` */
  predicate BitAt(x: nat, i: nat) {
    if i == 0 then x % 2 == 1 else BitAt(x / 2, i - 1)
  }

  /** `x | (1 << i)` */
  function OrBit(x: nat, i: nat): nat {
    if i == 0 then x / 2 * 2 + 1 else 2 * OrBit(x / 2, i - 1) + x % 2
  }

  function Pow2(n: nat): nat { if n == 0 then 1 else 2 * Pow2(n - 1) }

  lemma {:induction false} OrSetsOneBit(x: nat, i: nat, j: nat)
    ensures BitAt(OrBit(x, i), j) == (i == j || BitAt(x, j))
  {
    if i > 0 && j > 0 {
      OrSetsOneBit(x / 2, i - 1, j - 1);
    }
  }

  lemma {:induction false} OrBelow(x: nat, i: nat, n: nat)
    requires x < Pow2(n) && i < n
    ensures OrBit(x, i) < Pow2(n)
  {
    if i > 0 {
      OrBelow(x / 2, i - 1, n - 1);
    }
  }

  lemma {:induction false} NoBits(i: nat)
    ensures !BitAt(0, i)
  {
    if i > 0 {
      NoBits(i - 1);
    }
  }

  /** `mask |= 1 << i` for every `i` below `n` with `bits[i]` */
  function Mask(bits: seq<bool>, n: nat): nat
    requires n <= |bits|
  {
    if n == 0 then 0 else if bits[n - 1] then OrBit(Mask(bits, n - 1), n - 1) else Mask(bits, n - 1)
  }

  lemma {:induction false} MaskTells(bits: seq<bool>, n: nat, i: nat)
    requires n <= |bits|
    ensures BitAt(Mask(bits, n), i) == (i < n && bits[i])
  {
    if n == 0 {
      NoBits(i);
    } else {
      MaskTells(bits, n - 1, i);
      if bits[n - 1] {
        OrSetsOneBit(Mask(bits, n - 1), n - 1, i);
      }
    }
  }

  lemma {:induction false} MaskBelow(bits: seq<bool>, n: nat, m: nat)
    requires n <= |bits| && n <= m
    ensures Mask(bits, n) < Pow2(m)
  {
    if n == 0 {
      PowPositive(m);
    } else {
      MaskBelow(bits, n - 1, m);
      if bits[n - 1] {
        OrBelow(Mask(bits, n - 1), n - 1, m);
      }
    }
  }

  lemma {:induction false} PowPositive(n: nat)
    ensures Pow2(n) > 0
  {
    if n > 0 {
      PowPositive(n - 1);
    }
  }

  lemma Pow2Of32()
    ensures Pow2(32) == 0x1_0000_0000
  {
    assert Pow2(8) == 0x100;
    assert Pow2(16) == 0x1_0000;
    assert Pow2(24) == 0x100_0000;
  }
}
