/** The streaming part of libpisock/md5.c: `MD5Init`, `MD5Update`, `MD5Final` and `byteSwap`, on machines of either byte
  order. */
module Md5 {
  import opened Md5Spec
  import Md5Transform

  const WORD_LIMIT := 0x1_0000_0000

  // ---- words in memory -------------------------------------------------------------------------------------------

  /** The word that the machine sees in four bytes of memory. */
  function LoadAt(bigEndian: bool, s: seq<bv8>, i: nat): bv32
    requires 4 * i + 4 <= |s|
  {
    if bigEndian then Word(s[4 * i + 3], s[4 * i + 2], s[4 * i + 1], s[4 * i]) else WordAt(s, i)
  }

  /** How the machine stores a word. */
  function Stored(bigEndian: bool, w: bv32): (s: seq<bv8>)
    ensures |s| == 4
  {
    Reversed(bigEndian, WordBytes(w))
  }

  function LoadAll(bigEndian: bool, s: seq<bv8>): (x: seq<bv32>)
    requires |s| == 64
    ensures |x| == 16
  {
    seq(16, i requires 0 <= i < 16 => LoadAt(bigEndian, s, i))
  }

  lemma Assembled(b0: bv8, b1: bv8, b2: bv8, b3: bv8)
    ensures (((((b3 as bv32) << 8) | (b2 as bv32)) << 16) | (((b1 as bv32) << 8) | (b0 as bv32)))
         == (b0 as bv32) | ((b1 as bv32) << 8) | ((b2 as bv32) << 16) | ((b3 as bv32) << 24)
  {
  }

  lemma Disassembled(b0: bv8, b1: bv8, b2: bv8, b3: bv8, w: bv32)
    requires w == (b0 as bv32) | ((b1 as bv32) << 8) | ((b2 as bv32) << 16) | ((b3 as bv32) << 24)
    ensures (w & 0xff) as bv8 == b0 && ((w >> 8) & 0xff) as bv8 == b1
    ensures ((w >> 16) & 0xff) as bv8 == b2 && ((w >> 24) & 0xff) as bv8 == b3
  {
  }

  /** The expression of `byteSwap`. */
  function Assemble(p0: bv8, p1: bv8, p2: bv8, p3: bv8): bv32 {
    ((((p3 as bv32) << 8) | (p2 as bv32)) << 16) | (((p1 as bv32) << 8) | (p0 as bv32))
  }

  lemma AssembleIsWord(p0: bv8, p1: bv8, p2: bv8, p3: bv8)
    ensures Assemble(p0, p1, p2, p3) == Word(p0, p1, p2, p3)
  {
    Assembled(p0, p1, p2, p3);
  }

  lemma BytesOfWord(b0: bv8, b1: bv8, b2: bv8, b3: bv8)
    ensures WordBytes(Word(b0, b1, b2, b3)) == [b0, b1, b2, b3]
  {
    Disassembled(b0, b1, b2, b3, Word(b0, b1, b2, b3));
  }

  /** Where a byte comes from when the first `words` words are put in the machine's order. */
  function Origin(bigEndian: bool, words: nat, k: nat): (r: nat)
    ensures k < 4 * words ==> r < 4 * words
    ensures k >= 4 * words ==> r == k
  {
    if bigEndian && k < 4 * words then k - k % 4 + (3 - k % 4) else k
  }

  ghost predicate Swapped(bigEndian: bool, was: seq<bv8>, now: seq<bv8>, words: nat)
    requires 4 * words <= |was| == |now|
  {
    forall k :: 0 <= k < |now| ==> now[k] == was[Origin(bigEndian, words, k)]
  }

  lemma StoredWord(bigEndian: bool, b0: bv8, b1: bv8, b2: bv8, b3: bv8)
    ensures Stored(bigEndian, Assemble(b0, b1, b2, b3)) == if bigEndian then [b3, b2, b1, b0] else [b0, b1, b2, b3]
  {
    AssembleIsWord(b0, b1, b2, b3);
    BytesOfWord(b0, b1, b2, b3);
  }

  /** `byteSwap`: afterwards the machine sees words that were stored low-order byte first. */
  method ByteSwap(bigEndian: bool, mem: array<bv8>, words: nat)
    requires 0 < words && 4 * words <= mem.Length
    modifies mem
    ensures Swapped(bigEndian, old(mem[..]), mem[..], words)
  {
    hide Assemble, Stored, Swapped;
    ghost var was := mem[..];
    NothingSwapped(bigEndian, was);
    for i := 0 to words
      invariant Swapped(bigEndian, was, mem[..], i)
    {
      ghost var before := mem[..];
      SwappedSoFar(bigEndian, was, before, i);
      var p0, p1, p2, p3 := mem[4 * i], mem[4 * i + 1], mem[4 * i + 2], mem[4 * i + 3];
      StoredWord(bigEndian, p0, p1, p2, p3);
      var b := Stored(bigEndian, Assemble(p0, p1, p2, p3));
      mem[4 * i], mem[4 * i + 1], mem[4 * i + 2], mem[4 * i + 3] := b[0], b[1], b[2], b[3];
      OneMoreSwapped(bigEndian, was, before, mem[..], i);
    }
  }

  lemma NothingSwapped(bigEndian: bool, was: seq<bv8>)
    ensures Swapped(bigEndian, was, was, 0)
  {
  }

  lemma SwappedSoFar(bigEndian: bool, was: seq<bv8>, now: seq<bv8>, words: nat)
    requires 4 * words <= |was| == |now| && Swapped(bigEndian, was, now, words)
    ensures forall k :: 4 * words <= k < |now| ==> now[k] == was[k]
  {
  }

  lemma OneMoreSwapped(bigEndian: bool, was: seq<bv8>, before: seq<bv8>, now: seq<bv8>, i: nat)
    requires 4 * i + 4 <= |was| == |before| == |now| && Swapped(bigEndian, was, before, i)
    requires forall k :: 0 <= k < |now| && !(4 * i <= k < 4 * i + 4) ==> now[k] == before[k]
    requires [now[4 * i], now[4 * i + 1], now[4 * i + 2], now[4 * i + 3]]
          == if bigEndian then [was[4 * i + 3], was[4 * i + 2], was[4 * i + 1], was[4 * i]]
             else [was[4 * i], was[4 * i + 1], was[4 * i + 2], was[4 * i + 3]]
    ensures Swapped(bigEndian, was, now, i + 1)
  {
    forall k | 0 <= k < |now| ensures now[k] == was[Origin(bigEndian, i + 1, k)] {
      if 4 * i <= k < 4 * i + 4 {
        var n := [now[4 * i], now[4 * i + 1], now[4 * i + 2], now[4 * i + 3]];
        assert n[k - 4 * i] == now[k];
        InWord(bigEndian, i + 1, i, k);
      } else {
        assert now[k] == before[k];
        BeyondWord(bigEndian, i, k);
      }
    }
  }

  lemma InWord(bigEndian: bool, words: nat, i: nat, k: nat)
    requires 4 * i <= k < 4 * i + 4 && i < words
    ensures Origin(bigEndian, words, k) == if bigEndian then 4 * i + 3 - (k - 4 * i) else k
  {
  }

  lemma BeyondWord(bigEndian: bool, i: nat, k: nat)
    requires !(4 * i <= k < 4 * i + 4)
    ensures Origin(bigEndian, i + 1, k) == Origin(bigEndian, i, k)
  {
  }

  lemma SwappedLoads(bigEndian: bool, was: seq<bv8>, now: seq<bv8>, words: nat, i: nat)
    requires i < words && 4 * words <= |was| == |now| && Swapped(bigEndian, was, now, words)
    ensures LoadAt(bigEndian, now, i) == WordAt(was, i)
  {
    hide Word, Origin;
    var k := 4 * i;
    InWord(bigEndian, words, i, k);
    InWord(bigEndian, words, i, k + 1);
    InWord(bigEndian, words, i, k + 2);
    InWord(bigEndian, words, i, k + 3);
  }

  lemma AllLoads(bigEndian: bool, was: seq<bv8>, now: seq<bv8>)
    requires |was| == |now| == 64 && Swapped(bigEndian, was, now, 16)
    ensures LoadAll(bigEndian, now) == Words(was)
  {
    hide Swapped, LoadAt;
    forall i | 0 <= i < 16 ensures LoadAt(bigEndian, now, i) == WordAt(was, i) {
      SwappedLoads(bigEndian, was, now, 16, i);
    }
  }

  // ---- the message so far ----------------------------------------------------------------------------------------

  /** The part of a message that fills whole blocks, and the rest. */
  function Whole(m: seq<bv8>): (w: seq<bv8>)
    ensures |w| % 64 == 0 && |w| <= |m| < |w| + 64
  {
    m[..|m| - |m| % 64]
  }

  function Rest(m: seq<bv8>): (r: seq<bv8>)
    ensures |r| == |m| % 64 && Whole(m) + r == m
  {
    m[|m| - |m| % 64..]
  }

  lemma AbsorbMore(m: seq<bv8>, block: seq<bv8>)
    requires |m| % 64 == 0 && |block| == 64
    ensures |m + block| % 64 == 0 && Absorb(m + block) == Block(Absorb(m), Words(block))
  {
    hide Block, Words;
    var all := m + block;
    assert |all| == |m| + 64;
    assert all[..|all| - 64] == m && all[|all| - 64..] == block;
  }

  lemma WholeAndRest(w: seq<bv8>, r: seq<bv8>)
    requires |w| % 64 == 0 && |r| < 64
    ensures Whole(w + r) == w && Rest(w + r) == r
  {
    assert |w + r| % 64 == |r|;
  }

  /** The padded message in three parts: what comes before the last block, the last block but for the length, and
    that. */
  function BeforeLast(m: seq<bv8>): (r: seq<bv8>)
    ensures |r| % 64 == 0
  {
    Whole(Padded(m)[..|Padded(m)| - 64])
  }

  function LastButLength(m: seq<bv8>): (r: seq<bv8>)
    ensures |r| == 56
  {
    Padded(m)[|Padded(m)| - 64..|Padded(m)| - 8]
  }

  lemma PaddedParts(m: seq<bv8>)
    ensures Padded(m) == BeforeLast(m) + (LastButLength(m) + LengthBytes(|m|))
  {
    hide LengthBytes, Zeros, PadZeros;
    var p := Padded(m);
    assert (|p| - 64) % 64 == 0;
    assert p[|p| - 8..] == LengthBytes(|m|);
  }

  class Context {
    const bigEndian: bool
    var buf: Regs
    var bytes0: nat
    var bytes1: nat
    var inp: array<bv8>
    ghost var message: seq<bv8>

    /** The blocks of the message have been absorbed, the rest is in `inp`, and the two words count its bytes. */
    ghost predicate Valid()
      reads this, inp
    {
      && inp.Length == 64 && bytes0 < WORD_LIMIT && bytes1 < WORD_LIMIT
      && bytes0 + bytes1 * WORD_LIMIT == |message| % (WORD_LIMIT * WORD_LIMIT)
      && buf == Absorb(Whole(message)) && inp[..|message| % 64] == Rest(message)
    }

    /** `MD5Init`, with whatever `inp` holds. */
    constructor (bigEndian: bool, inp: array<bv8>)
      requires inp.Length == 64
      ensures Valid() && message == [] && this.inp == inp && this.bigEndian == bigEndian
    {
      this.bigEndian := bigEndian;
      buf := Regs(0x6745_2301, 0xefcd_ab89, 0x98ba_dcfe, 0x1032_5476);
      bytes0, bytes1 := 0, 0;
      this.inp := inp;
      message := [];
    }

    /** `memcpy` of `src` to position `at` of `inp`. */
    method Fill(at: nat, src: seq<bv8>)
      requires inp.Length == 64 && at + |src| <= 64
      modifies inp
      ensures inp[..] == old(inp[..at]) + src + old(inp[at + |src|..])
    {
      forall k | 0 <= k < |src| {
        inp[at + k] := src[k];
      }
    }

    /** `byteSwap(ctx->in, 16)` and `MD5Transform`. */
    method TakeBlock()
      requires inp.Length == 64
      modifies this`buf, inp
      ensures buf == Block(old(buf), Words(old(inp[..])))
    {
      hide Block, Words, LoadAll, Swapped;
      ghost var was := inp[..];
      ByteSwap(bigEndian, inp, 16);
      AllLoads(bigEndian, was, inp[..]);
      var words := LoadAll(bigEndian, inp[..]);
      buf := Md5Transform.Transform(buf, words);
    }

    /** The count of bytes, with the carry from the low to the high word. */
    method Count(len: nat)
      requires bytes0 < WORD_LIMIT && bytes1 < WORD_LIMIT && len < WORD_LIMIT
      modifies this`bytes0, this`bytes1
      ensures bytes0 < WORD_LIMIT && bytes1 < WORD_LIMIT
      ensures bytes0 + bytes1 * WORD_LIMIT == (old(bytes0 + bytes1 * WORD_LIMIT) + len) % (WORD_LIMIT * WORD_LIMIT)
    {
      var t := bytes0;
      bytes0 := (t + len) % WORD_LIMIT;
      if bytes0 < t {
        bytes1 := (bytes1 + 1) % WORD_LIMIT;
      }
    }

    /** The loop of `MD5Update` over 64-byte chunks. */
    method TakeBlocks(data: seq<bv8>, from: nat, ghost m: seq<bv8>) returns (offset: nat)
      requires inp.Length == 64 && from <= |data| && (|m| + from) % 64 == 0 && buf == Absorb(m + data[..from])
      modifies this`buf, inp
      ensures from <= offset <= |data| < offset + 64 && (|m| + offset) % 64 == 0 && buf == Absorb(m + data[..offset])
    {
      hide Block, Words, Absorb;
      offset := from;
      while |data| - offset >= 64
        invariant from <= offset <= |data| && (|m| + offset) % 64 == 0
        invariant buf == Absorb(m + data[..offset])
      {
        var block := data[offset..offset + 64];
        Fill(0, block);
        assert inp[..] == block;
        AbsorbMore(m + data[..offset], block);
        assert m + data[..offset] + block == m + data[..offset + 64];
        TakeBlock();
        offset := offset + 64;
      }
    }

    /** What `MD5Update` does with a piece that completes a block. */
    method TakeChunks(data: seq<bv8>, t: nat, ghost m: seq<bv8>)
      requires inp.Length == 64 && t == 64 - |m| % 64 && t <= |data|
      requires buf == Absorb(Whole(m)) && inp[..|m| % 64] == Rest(m)
      modifies this`buf, inp
      ensures buf == Absorb(Whole(m + data)) && inp[..|m + data| % 64] == Rest(m + data)
    {
      hide Block, Words, Absorb, Whole, Rest;
      Fill(64 - t, data[..t]);
      FirstBlock(m, data, t);
      assert inp[..] == Rest(m) + data[..t];
      TakeBlock();
      var offset := TakeBlocks(data, t, m);
      RestOfPiece(m, data, offset);
      Fill(0, data[offset..]);
      assert inp[..|data| - offset] == data[offset..];
    }

    /** `MD5Update`: for every message so far and every piece, the state is that of the longer message. */
    method Update(data: seq<bv8>)
      requires Valid() && |data| < WORD_LIMIT
      modifies this`buf, this`bytes0, this`bytes1, this`message, inp
      ensures Valid() && message == old(message) + data
    {
      hide Block, Words, Absorb, Whole, Rest;
      ghost var m := message;
      CountedRest(|m|, bytes0, bytes1);
      CountedMore(|m|, bytes0 + bytes1 * WORD_LIMIT, |data|);
      var t := 64 - bytes0 % 64;
      Count(|data|);
      message := m + data;
      if t > |data| {
        Fill(64 - t, data);
        WholeAndRest(Whole(m), Rest(m) + data);
        Shorter(m, data);
        assert inp[..|m| % 64 + |data|] == Rest(m) + data;
        return;
      }
      TakeChunks(data, t, m);
    }

    /** The padding of `MD5Final`, in one block or in two: `inp` is left with the last block but for the length. */
    method Pad()
      requires Valid()
      modifies this`buf, inp
      ensures buf == Absorb(BeforeLast(message)) && inp[..56] == LastButLength(message)
    {
      hide Block, Words, Absorb, Whole, Rest, Padded, BeforeLast, LastButLength;
      ghost var m, w := message, Whole(message);
      CountedRest(|m|, bytes0, bytes1);
      var used := bytes0 % 64;
      Fill(used, [0x80]);
      assert inp[..used + 1] == Rest(m) + [0x80];
      var p, count: int := used + 1, 56 - 1 - used;
      if count < 0 {
        Fill(p, Zeros(count + 8));
        ghost var block := Rest(m) + [0x80] + Zeros(count + 8);
        assert inp[..] == block;
        AbsorbMore(w, block);
        TakeBlock();
        TwoBlocks(m);
        Fill(0, Zeros(56));
        assert inp[..56] == Zeros(56);
        return;
      }
      OneBlock(m);
      Fill(p, Zeros(count));
      assert inp[..56] == Rest(m) + [0x80] + Zeros(count);
    }

    /** `byteSwap(ctx->in, 14)`, the length in bits, and the last `MD5Transform`. */
    method TakeLast(ghost n: nat)
      requires inp.Length == 64 && bytes0 < WORD_LIMIT && bytes1 < WORD_LIMIT
      requires bytes0 + bytes1 * WORD_LIMIT == n % (WORD_LIMIT * WORD_LIMIT)
      modifies this`buf, inp
      ensures buf == Block(old(buf), Words(old(inp[..56]) + LengthBytes(n)))
    {
      hide Block, Words, LengthBytes, LoadAll, Low, Swapped, Stored;
      ghost var was := inp[..];
      ByteSwap(bigEndian, inp, 14);
      ghost var now := inp[..];
      CountInBits(n, bytes0, bytes1);
      var low := (bytes0 * 8 % WORD_LIMIT) as bv32;
      var high := (bytes1 * 8 % WORD_LIMIT + bytes0 / 0x2000_0000) as bv32;
      LowIs(bytes0 * 8 % WORD_LIMIT, 8 * n);
      LowIs(bytes1 * 8 % WORD_LIMIT + bytes0 / 0x2000_0000, 8 * n / WORD_LIMIT);
      Fill(56, Stored(bigEndian, low));
      ghost var half := inp[..];
      Fill(60, Stored(bigEndian, high));
      TwoWords(now, Stored(bigEndian, low), Stored(bigEndian, high), half, inp[..]);
      LastWords(bigEndian, n, was, now, inp[..]);
      var words := LoadAll(bigEndian, inp[..]);
      buf := Md5Transform.Transform(buf, words);
    }

    /** `MD5Final`: the digest of the whole message. */
    method Finish() returns (digest: seq<bv8>)
      requires Valid()
      modifies this`buf, inp
      ensures digest == Digest(message)
    {
      hide Block, Words, Absorb, Padded, LengthBytes, WordBytes, BeforeLast, LastButLength;
      Pad();
      TakeLast(|message|);
      PaddedParts(message);
      AbsorbMore(BeforeLast(message), LastButLength(message) + LengthBytes(|message|));
      digest := Write(bigEndian, buf);
    }
  }

  lemma TwoWords(was: seq<bv8>, a: seq<bv8>, b: seq<bv8>, half: seq<bv8>, now: seq<bv8>)
    requires |was| == |half| == |now| == 64 && |a| == |b| == 4
    requires half == was[..56] + a + was[60..] && now == half[..60] + b + half[64..]
    ensures now[..56] == was[..56] && now[56..] == a + b
  {
  }

  lemma LowIs(x: nat, n: nat)
    requires x == n % WORD_LIMIT
    ensures x < WORD_LIMIT && x as bv32 == Low(n)
  {
  }

  /** `byteSwap(ctx->buf, 4)` and the copy to the caller. */
  method Write(bigEndian: bool, r: Regs) returns (digest: seq<bv8>)
    ensures digest == WordBytes(r.a) + WordBytes(r.b) + WordBytes(r.c) + WordBytes(r.d)
  {
    hide Swapped;
    var stored := Stored(bigEndian, r.a) + Stored(bigEndian, r.b) + Stored(bigEndian, r.c) + Stored(bigEndian, r.d);
    var mem := new bv8[16](i requires 0 <= i < 16 => stored[i]);
    assert mem[..] == stored;
    ByteSwap(bigEndian, mem, 4);
    digest := mem[..];
    SwappedBack(bigEndian, WordBytes(r.a), WordBytes(r.b), WordBytes(r.c), WordBytes(r.d), digest);
  }


  function Joined(pieces: seq<seq<bv8>>): seq<bv8> {
    if pieces == [] then [] else Joined(pieces[..|pieces| - 1]) + pieces[|pieces| - 1]
  }

  /** A context that is initialised, fed piece by piece and finished: however a message is split into pieces, and on
    machines of either byte order, the digest is that of RFC 1321. */
  method DigestOf(pieces: seq<seq<bv8>>, bigEndian: bool, inp: array<bv8>) returns (digest: seq<bv8>)
    requires inp.Length == 64 && forall piece <- pieces :: |piece| < WORD_LIMIT
    modifies inp
    ensures digest == Digest(Joined(pieces))
  {
    hide Digest;
    var ctx := new Context(bigEndian, inp);
    for i := 0 to |pieces|
      invariant fresh(ctx) && ctx.Valid() && ctx.inp == inp && ctx.message == Joined(pieces[..i])
    {
      ctx.Update(pieces[i]);
      assert pieces[..i + 1][..i] == pieces[..i];
    }
    assert pieces[..|pieces|] == pieces;
    digest := ctx.Finish();
  }

  lemma CountedRest(n: nat, bytes0: nat, bytes1: nat)
    requires bytes0 + bytes1 * WORD_LIMIT == n % (WORD_LIMIT * WORD_LIMIT)
    ensures bytes0 % 64 == n % 64
  {
    var k := n / (WORD_LIMIT * WORD_LIMIT);
    assert n == bytes0 + 64 * (bytes1 * 0x400_0000 + k * 0x400_0000 * WORD_LIMIT);
  }

  lemma CountedMore(n: nat, count: nat, len: nat)
    requires count == n % (WORD_LIMIT * WORD_LIMIT)
    ensures (count + len) % (WORD_LIMIT * WORD_LIMIT) == (n + len) % (WORD_LIMIT * WORD_LIMIT)
  {
  }

  lemma Shorter(m: seq<bv8>, data: seq<bv8>)
    requires |m| % 64 + |data| < 64
    ensures Whole(m) + (Rest(m) + data) == m + data && |m + data| % 64 == |m| % 64 + |data|
  {
    assert Whole(m) + (Rest(m) + data) == Whole(m) + Rest(m) + data;
  }

  lemma RestOfPiece(m: seq<bv8>, data: seq<bv8>, offset: nat)
    requires offset <= |data| < offset + 64 && (|m| + offset) % 64 == 0
    ensures Whole(m + data) == m + data[..offset] && Rest(m + data) == data[offset..]
    ensures |m + data| % 64 == |data| - offset
  {
    WholeAndRest(m + data[..offset], data[offset..]);
    assert m + data[..offset] + data[offset..] == m + data;
  }

  lemma FirstBlock(m: seq<bv8>, data: seq<bv8>, t: nat)
    requires t == 64 - |m| % 64 && t <= |data|
    ensures (|m| + t) % 64 == 0 && |Rest(m) + data[..t]| == 64
    ensures Absorb(m + data[..t]) == Block(Absorb(Whole(m)), Words(Rest(m) + data[..t]))
  {
    hide Block, Words, Absorb, Whole, Rest;
    AbsorbMore(Whole(m), Rest(m) + data[..t]);
    assert Whole(m) + (Rest(m) + data[..t]) == Whole(m) + Rest(m) + data[..t];
  }

  lemma OneBlock(m: seq<bv8>)
    requires |m| % 64 < 56
    ensures BeforeLast(m) == Whole(m) && LastButLength(m) == Rest(m) + [0x80] + Zeros(55 - |m| % 64)
  {
    hide LengthBytes;
    assert PadZeros(|m|) == 55 - |m| % 64;
    var block := Rest(m) + [0x80] + Zeros(55 - |m| % 64);
    assert |block| == 56;
    assert Padded(m) == Whole(m) + block + LengthBytes(|m|);
  }

  lemma TwoBlocks(m: seq<bv8>)
    requires |m| % 64 >= 56
    ensures BeforeLast(m) == Whole(m) + (Rest(m) + [0x80] + Zeros(63 - |m| % 64)) && LastButLength(m) == Zeros(56)
  {
    hide LengthBytes;
    assert PadZeros(|m|) == 63 - |m| % 64 + 56;
    assert Zeros(PadZeros(|m|)) == Zeros(63 - |m| % 64) + Zeros(56);
    var block := Rest(m) + [0x80] + Zeros(63 - |m| % 64);
    assert |block| == 64;
    assert Padded(m) == Whole(m) + block + Zeros(56) + LengthBytes(|m|);
  }

  /** The two words of the count, shifted to count bits, are the low and the high word of the length in bits. */
  lemma CountInBits(n: nat, bytes0: nat, bytes1: nat)
    requires bytes0 < WORD_LIMIT && bytes1 < WORD_LIMIT && bytes0 + bytes1 * WORD_LIMIT == n % (WORD_LIMIT * WORD_LIMIT)
    ensures bytes1 * 8 % WORD_LIMIT + bytes0 / 0x2000_0000 < WORD_LIMIT
    ensures bytes0 * 8 % WORD_LIMIT == 8 * n % WORD_LIMIT
    ensures bytes1 * 8 % WORD_LIMIT + bytes0 / 0x2000_0000 == 8 * n / WORD_LIMIT % WORD_LIMIT
  {
    var k := n / (WORD_LIMIT * WORD_LIMIT);
    var h, l := bytes0 / 0x2000_0000, bytes0 % 0x2000_0000;
    var hh, hl := bytes1 / 0x2000_0000, bytes1 % 0x2000_0000;
    Quotient(bytes0 * 8, 8 * l, h);
    Quotient(bytes1 * 8, 8 * hl, hh);
    Quotient(8 * n, 8 * l, 8 * hl + h + WORD_LIMIT * (hh + 8 * k));
    Quotient(8 * hl + h + WORD_LIMIT * (hh + 8 * k), 8 * hl + h, hh + 8 * k);
  }

  lemma Quotient(x: nat, r: nat, q: nat)
    requires x == r + WORD_LIMIT * q && r < WORD_LIMIT
    ensures x % WORD_LIMIT == r && x / WORD_LIMIT == q
  {
  }

  lemma LastWords(bigEndian: bool, n: nat, was: seq<bv8>, swapped: seq<bv8>, now: seq<bv8>)
    requires |was| == |swapped| == |now| == 64 && Swapped(bigEndian, was, swapped, 14)
    requires now[..56] == swapped[..56]
    requires now[56..] == Stored(bigEndian, Low(8 * n)) + Stored(bigEndian, Low(8 * n / WORD_LIMIT))
    ensures LoadAll(bigEndian, now) == Words(was[..56] + LengthBytes(n))
  {
    hide Low, WordBytes, Word, Swapped;
    var last := was[..56] + LengthBytes(n);
    forall i | 0 <= i < 14 ensures LoadAt(bigEndian, now, i) == WordAt(last, i) {
      SwappedLoads(bigEndian, was, swapped, 14, i);
      assert forall k :: 0 <= k < 56 ==> now[k] == now[..56][k] == swapped[..56][k] == swapped[k];
    }
    forall k | 0 <= k < 8 ensures now[56 + k] == now[56..][k] && last[56 + k] == LengthBytes(n)[k] {
    }
  }

  lemma SwappedBack(bigEndian: bool, a: seq<bv8>, b: seq<bv8>, c: seq<bv8>, d: seq<bv8>, now: seq<bv8>)
    requires |a| == |b| == |c| == |d| == 4 && |now| == 16
    requires var was := Reversed(bigEndian, a) + Reversed(bigEndian, b) + Reversed(bigEndian, c)
             + Reversed(bigEndian, d);
             Swapped(bigEndian, was, now, 4)
    ensures now == a + b + c + d
  {
  }

  function Reversed(bigEndian: bool, b: seq<bv8>): (s: seq<bv8>)
    requires |b| == 4
    ensures |s| == 4
  {
    if bigEndian then [b[3], b[2], b[1], b[0]] else b
  }
}
