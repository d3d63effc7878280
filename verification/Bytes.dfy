/** Bytes and the big-endian field macros of include/pi-macros.h.

  A C `int` or `unsigned long` argument is an `int` here; the macros keep the low 16, 24 or 32 bits of it, which is
  what Dafny's Euclidean `%` computes for negative arguments as well. */
module Bytes {

  type byte = x: int | 0 <= x < 256

  /** `set_short` */
  function ShortBytes(v: int): (s: seq<byte>)
    ensures |s| == 2
  {
    [v / 0x100 % 0x100, v % 0x100]
  }

  /** `set_treble` */
  function TrebleBytes(v: int): (s: seq<byte>)
    ensures |s| == 3
  {
    [v / 0x100 / 0x100 % 0x100, v / 0x100 % 0x100, v % 0x100]
  }

  /** `set_long` */
  function LongBytes(v: int): (s: seq<byte>)
    ensures |s| == 4
  {
    [v / 0x100 / 0x100 / 0x100 % 0x100, v / 0x100 / 0x100 % 0x100, v / 0x100 % 0x100, v % 0x100]
  }

  /** `get_short` */
  function GetShort(s: seq<byte>, i: nat): (v: nat)
    requires i + 2 <= |s|
    ensures v < 0x1_0000
  {
    s[i] as int * 0x100 + s[i + 1] as int
  }

  /** `get_treble` */
  function GetTreble(s: seq<byte>, i: nat): (v: nat)
    requires i + 3 <= |s|
    ensures v < 0x100_0000
  {
    s[i] as int * 0x1_0000 + s[i + 1] as int * 0x100 + s[i + 2] as int
  }

  /** `get_long` */
  function GetLong(s: seq<byte>, i: nat): (v: nat)
    requires i + 4 <= |s|
    ensures v < 0x1_0000_0000
  {
    s[i] as int * 0x100_0000 + s[i + 1] as int * 0x1_0000 + s[i + 2] as int * 0x100 + s[i + 3] as int
  }

  /** Conversion of a value to a C `int` of 32 bits. */
  function ToInt32(v: int): (r: int)
    ensures -0x8000_0000 <= r < 0x8000_0000
    ensures (r - v) % 0x1_0000_0000 == 0
    ensures -0x8000_0000 <= v < 0x8000_0000 ==> r == v
  {
    (v + 0x8000_0000) % 0x1_0000_0000 - 0x8000_0000
  }

  /** `x & (1 << k)` for a non-negative `x`, the bit given by its weight. */
  predicate Bit(x: nat, weight: nat)
    requires weight > 0
  {
    x / weight % 2 == 1
  }

  lemma Split16(v: int)
    ensures v % 0x1_0000 == v / 0x100 % 0x100 * 0x100 + v % 0x100
  {
    var q := v / 0x100;
    var k, r := q / 0x100, q % 0x100 * 0x100 + v % 0x100;
    assert v == 0x1_0000 * k + r && 0 <= r < 0x1_0000;
  }

  lemma Split24(v: int)
    ensures v % 0x100_0000 == v / 0x100 / 0x100 % 0x100 * 0x1_0000 + v / 0x100 % 0x100 * 0x100 + v % 0x100
  {
    var q := v / 0x100;
    Split16(q);
    var k, r := q / 0x1_0000, q % 0x1_0000 * 0x100 + v % 0x100;
    assert v == 0x100_0000 * k + r && 0 <= r < 0x100_0000;
  }

  lemma Split32(v: int)
    ensures v % 0x1_0000_0000 == v / 0x100 / 0x100 / 0x100 % 0x100 * 0x100_0000 + v / 0x100 / 0x100 % 0x100 * 0x1_0000
                                 + v / 0x100 % 0x100 * 0x100 + v % 0x100
  {
    var q := v / 0x100;
    Split24(q);
    var k, r := q / 0x100_0000, q % 0x100_0000 * 0x100 + v % 0x100;
    assert v == 0x1_0000_0000 * k + r && 0 <= r < 0x1_0000_0000;
  }

  lemma ShortRoundTrip(s: seq<byte>, i: nat, v: int)
    requires i + 2 <= |s| && s[i..i + 2] == ShortBytes(v)
    ensures GetShort(s, i) == v % 0x1_0000
  {
    var t := s[i..i + 2];
    assert s[i] == t[0] && s[i + 1] == t[1];
    Split16(v);
  }

  lemma TrebleRoundTrip(s: seq<byte>, i: nat, v: int)
    requires i + 3 <= |s| && s[i..i + 3] == TrebleBytes(v)
    ensures GetTreble(s, i) == v % 0x100_0000
  {
    var t := s[i..i + 3];
    assert s[i] == t[0] && s[i + 1] == t[1] && s[i + 2] == t[2];
    Split24(v);
  }

  lemma LongRoundTrip(s: seq<byte>, i: nat, v: int)
    requires i + 4 <= |s| && s[i..i + 4] == LongBytes(v)
    ensures GetLong(s, i) == v % 0x1_0000_0000
  {
    var t := s[i..i + 4];
    assert s[i] == t[0] && s[i + 1] == t[1] && s[i + 2] == t[2] && s[i + 3] == t[3];
    Split32(v);
  }

  /** `memcpy(mem + at, src, |src|)` on a block that grows when the copy runs past its end. */
  function Overlay(mem: seq<byte>, at: nat, src: seq<byte>): (r: seq<byte>)
    requires at <= |mem|
    ensures |r| == if at + |src| <= |mem| then |mem| else at + |src|
    ensures r[..at] == mem[..at] && r[at..at + |src|] == src
    ensures forall k :: at + |src| <= k < |mem| ==> r[k] == mem[k]
  {
    mem[..at] + src + (if at + |src| <= |mem| then mem[at + |src|..] else [])
  }

  lemma Associates(a: seq<byte>, b: seq<byte>, c: seq<byte>)
    ensures a + b + c == a + (b + c)
  {
  }

  /** The first `k` bytes of three parts, of which the first is complete. */
  lemma CutAt(data: seq<byte>, before: seq<byte>, x: seq<byte>, tail: seq<byte>, k: nat)
    requires |before| <= k <= |before + (x + tail)| && data == (before + (x + tail))[..k]
    ensures k < |before| + |x| ==> data == before + x[..k - |before|]
    ensures k >= |before| + |x| ==>
              && data == before + x + tail[..k - |before| - |x|]
              && k <= |before + x + tail| && data == (before + x + tail)[..k]
  {
    if k >= |before| + |x| {
      assert (before + (x + tail))[..k] == before + x + tail[..k - |before| - |x|];
    }
  }
}
