/** The arguments of DLP requests and responses as libpisock/dlp.c writes and reads them. */
module DlpArgs {
  import opened Bytes

  const TINY_LEN := 0xff
  const SHORT_LEN := 0xffff
  const FLAG_SHORT: byte := 0x80
  const FLAG_LONG: byte := 0x40
  const DATA_SIZE := -304
  const COMMAND := -305

  datatype Arg = Arg(id: byte, data: seq<byte>)

  function WithFlag(id: byte, flag: byte): (r: byte)
    requires flag == FLAG_SHORT || flag == FLAG_LONG
    ensures Bit(r, flag) && r % 64 == id % 64
    ensures flag == FLAG_SHORT ==> Bit(r, FLAG_LONG) == Bit(id, FLAG_LONG)
  {
    if Bit(id, flag) then id else id + flag
  }

  predicate Tiny(arg: Arg) { |arg.data| < TINY_LEN && !Bit(arg.id, FLAG_SHORT) && !Bit(arg.id, FLAG_LONG) }

  predicate Long(arg: Arg) { |arg.data| >= SHORT_LEN || Bit(arg.id, FLAG_LONG) }

  function HeadBytes(arg: Arg): seq<byte> {
    if Tiny(arg) then [arg.id, |arg.data|]
    else if !Long(arg) then [WithFlag(arg.id, FLAG_SHORT), 0] + ShortBytes(|arg.data|)
    else [WithFlag(arg.id, FLAG_LONG), 0] + LongBytes(|arg.data|)
  }

  function Encode(args: seq<Arg>): seq<byte> {
    if args == [] then [] else HeadBytes(args[0]) + args[0].data + Encode(args[1..])
  }

  // ---- reading ---------------------------------------------------------------------------------------------------

  /** What reading comes to: the arguments and the position behind them. `Overrun` stands for a read past the end of the
    buffer, which the program does not notice. */
  datatype Parsed = Parsed(args: seq<Arg>, next: nat) | TooLarge | Overrun

  /** The head of an argument: its id, the length of its data and where that starts. */
  datatype Head = Head(id: byte, length: nat, start: nat) | NoLength | NoHead

  function ReadHead(buf: seq<byte>, pos: nat, version: nat): (h: Head)
    ensures h.Head? ==> pos < h.start <= |buf|
  {
    if pos >= |buf| then NoHead
    else if Bit(buf[pos], FLAG_LONG) then
      if version < 0x0104 then NoLength
      else if pos + 6 > |buf| then NoHead
      else Head(buf[pos] % 64, GetLong(buf, pos + 2), pos + 6)
    else if Bit(buf[pos], FLAG_SHORT) then
      if pos + 4 > |buf| then NoHead else Head(buf[pos] % 64, GetShort(buf, pos + 2), pos + 4)
    else if pos + 2 > |buf| then NoHead else Head(buf[pos], buf[pos + 1], pos + 2)
  }

  /** The arguments read so far and `n` more. */
  function Decode(buf: seq<byte>, pos: nat, n: nat, version: nat, front: seq<Arg>): Parsed
    decreases n
  {
    if n == 0 then Parsed(front, pos)
    else
      match ReadHead(buf, pos, version)
      case NoLength => TooLarge
      case NoHead => Overrun
      case Head(id, length, start) =>
        if start + length > |buf| then Overrun
        else Decode(buf, start + length, n - 1, version, front + [Arg(id, buf[start..start + length])])
  }

  /** An argument as it is read back: the flags that were part of its id are gone. */
  function Normal(arg: Arg): Arg { Arg(arg.id % 64, arg.data) }

  function NormalAll(args: seq<Arg>): (r: seq<Arg>)
    ensures |r| == |args|
  {
    seq(|args|, i requires 0 <= i < |args| => Normal(args[i]))
  }

  lemma HeadReadsBack(before: seq<byte>, arg: Arg, rest: seq<byte>, version: nat)
    requires |arg.data| < 0x1_0000_0000
    ensures ReadHead(before + HeadBytes(arg) + rest, |before|, version)
         == if Long(arg) && version < 0x0104 then NoLength
            else Head(arg.id % 64, |arg.data|, |before| + |HeadBytes(arg)|)
  {
    hide GetLong, GetShort, LongBytes, ShortBytes;
    var h, n, pos := HeadBytes(arg), |arg.data|, |before|;
    var buf := before + h + rest;
    assert buf[pos] == h[0] && forall k :: 2 <= k <= |h| ==> buf[pos + 2..pos + k] == h[2..k];
    if !Tiny(arg) {
      if Long(arg) {
        LongRoundTrip(buf, pos + 2, n);
      } else {
        ShortRoundTrip(buf, pos + 2, n);
      }
    }
  }

  ghost predicate Fits(args: seq<Arg>) { forall a <- args :: |a.data| < 0x1_0000_0000 }

  predicate AnyLong(args: seq<Arg>) { exists i :: 0 <= i < |args| && Long(args[i]) }

  /** For every list of arguments, whatever comes before and behind it: below DLP 1.4 a list with a long argument is
    refused; every other list is read back with the same data, in the same order, up to its last byte. */
  lemma {:induction false} ArgumentsReadBack(before: seq<byte>, args: seq<Arg>, rest: seq<byte>, version: nat,
                                             front: seq<Arg>)
    requires Fits(args)
    ensures Decode(before + Encode(args) + rest, |before|, |args|, version, front)
         == if version < 0x0104 && AnyLong(args) then TooLarge
            else Parsed(front + NormalAll(args), |before| + |Encode(args)|)
    decreases |args|
  {
    hide ReadHead, HeadBytes, Long, Normal, Encode, Decode, AnyLong, NormalAll;
    if args == [] {
      NoArgs(before + Encode(args) + rest, |before|, version, front);
    } else {
      var a, more := args[0], args[1..];
      assert a in args;
      var h, tail := HeadBytes(a), Encode(more);
      EncodeFirst(args, before, rest);
      HeadReadsBack(before, a, a.data + (tail + rest), version);
      OneArg(before, h, a, tail + rest, |args|, version, front);
      ArgumentsReadBack(before + h + a.data, more, rest, version, front + [Normal(a)]);
      AnyLongStep(args);
      NormalStep(args, front);
    }
  }

  lemma NoArgs(buf: seq<byte>, pos: nat, version: nat, front: seq<Arg>)
    ensures Decode(buf, pos, 0, version, front) == Parsed(front, pos)
    ensures Encode([]) == [] && NormalAll([]) == [] && !AnyLong([]) && front + [] == front
  {
  }

  lemma EncodeFirst(args: seq<Arg>, before: seq<byte>, rest: seq<byte>)
    requires args != []
    ensures var a, h, tail := args[0], HeadBytes(args[0]), Encode(args[1..]);
            && before + Encode(args) + rest == before + h + (a.data + (tail + rest))
            && before + Encode(args) + rest == before + h + a.data + tail + rest
            && |Encode(args)| == |h| + |a.data| + |tail|
  {
    hide HeadBytes;
    Regrouped(before, HeadBytes(args[0]), args[0].data, Encode(args[1..]), rest);
  }

  lemma Regrouped(a: seq<byte>, b: seq<byte>, c: seq<byte>, d: seq<byte>, e: seq<byte>)
    ensures a + (b + c + d) + e == a + b + (c + (d + e)) == a + b + c + d + e
  {
    assert a + (b + c + d) == a + b + c + d;
    assert a + b + (c + (d + e)) == a + b + c + (d + e);
  }

  lemma OneArg(before: seq<byte>, h: seq<byte>, a: Arg, rest: seq<byte>, n: nat, version: nat, front: seq<Arg>)
    requires n > 0
    requires ReadHead(before + h + (a.data + rest), |before|, version)
          == if Long(a) && version < 0x0104 then NoLength else Head(a.id % 64, |a.data|, |before| + |h|)
    ensures Decode(before + h + (a.data + rest), |before|, n, version, front)
         == if Long(a) && version < 0x0104 then TooLarge
            else Decode(before + h + (a.data + rest), |before + h + a.data|, n - 1, version, front + [Normal(a)])
  {
    hide ReadHead, Long;
    var buf, start := before + h + (a.data + rest), |before| + |h|;
    assert buf[start..start + |a.data|] == a.data;
  }

  lemma AnyLongStep(args: seq<Arg>)
    requires args != []
    ensures AnyLong(args) == (Long(args[0]) || AnyLong(args[1..]))
  {
    hide Long;
    if AnyLong(args) {
      var i :| 0 <= i < |args| && Long(args[i]);
      assert i == 0 || Long(args[1..][i - 1]);
    }
    if AnyLong(args[1..]) {
      var i :| 0 <= i < |args[1..]| && Long(args[1..][i]);
      assert Long(args[i + 1]);
    }
  }

  lemma NormalStep(args: seq<Arg>, front: seq<Arg>)
    requires args != []
    ensures front + NormalAll(args) == front + [Normal(args[0])] + NormalAll(args[1..])
  {
    hide Normal;
    assert NormalAll(args) == [Normal(args[0])] + NormalAll(args[1..]);
  }

  /** Arguments numbered below 0x40, as all calls number them, come back exactly. */
  lemma SmallIdsReadBack(before: seq<byte>, args: seq<Arg>, rest: seq<byte>, version: nat)
    requires Fits(args) && forall a <- args :: a.id < 0x40
    ensures Decode(before + Encode(args) + rest, |before|, |args|, version, [])
         == if version < 0x0104 && exists a <- args :: |a.data| >= SHORT_LEN then TooLarge
            else Parsed(args, |before| + |Encode(args)|)
  {
    hide Decode, Encode;
    ArgumentsReadBack(before, args, rest, version, []);
    NormalIsSame(args);
    LongBySize(args);
  }

  lemma NormalIsSame(args: seq<Arg>)
    requires forall a <- args :: a.id < 0x40
    ensures [] + NormalAll(args) == args
  {
    assert forall i :: 0 <= i < |args| ==> args[i] in args && Normal(args[i]) == args[i];
  }

  lemma LongBySize(args: seq<Arg>)
    requires forall a <- args :: a.id < 0x40
    ensures AnyLong(args) <==> exists a <- args :: |a.data| >= SHORT_LEN
  {
    forall i | 0 <= i < |args| ensures Long(args[i]) == (|args[i].data| >= SHORT_LEN) {
      assert args[i] in args;
    }
    if a :| a in args && |a.data| >= SHORT_LEN {
      var i :| 0 <= i < |args| && args[i] == a;
    }
  }

  // ---- responses that are cut off --------------------------------------------------------------------------------

  /** How many bytes of a list the decoder needs before it is done: below DLP 1.4 the first byte of a long argument
    is enough for its refusal. */
  function Needed(args: seq<Arg>, version: nat): (n: nat) {
    if args == [] then 0
    else if Long(args[0]) && version < 0x0104 then 1
    else |HeadBytes(args[0])| + |args[0].data| + Needed(args[1..], version)
  }

  lemma {:induction false} NeedsAll(args: seq<Arg>, version: nat)
    ensures Needed(args, version) <= |Encode(args)|
    ensures version >= 0x0104 || !AnyLong(args) ==> Needed(args, version) == |Encode(args)|
    decreases |args|
  {
    hide HeadBytes, Long, AnyLong;
    if args != [] {
      NeedsAll(args[1..], version);
      AnyLongStep(args);
      HeadSize(args[0]);
    }
  }

  lemma HeadSize(arg: Arg)
    ensures |HeadBytes(arg)| >= 2
  {
  }

  /** The decoder reads past the end of a list that is cut off, without noticing, if and only if a byte is missing
    that it needs. */
  lemma {:induction false} CutIsOverrun(data: seq<byte>, before: seq<byte>, args: seq<Arg>, k: nat, version: nat,
                                        front: seq<Arg>)
    requires Fits(args) && k <= |Encode(args)| && data == before + Encode(args)[..k]
    ensures Decode(data, |before|, |args|, version, front).Overrun? <==> k < Needed(args, version)
    decreases |args|
  {
    hide ReadHead, HeadBytes, Long, Normal, Encode, Decode, Needed;
    NeededStep(args, version);
    if args == [] {
      NoArgs(data, |before|, version, front);
    } else {
      var a, more := args[0], args[1..];
      assert a in args;
      var h, tail := HeadBytes(a), Encode(more);
      CutParts(before, args, k);
      if k < |h| {
        HeadCut(data, before, a, h[..k], version);
        HeadEnds(data, |before|, |args|, version, front);
      } else {
        HeadReadsBack(before, a, data[|before| + |h|..], version);
        assert data == before + h + data[|before| + |h|..];
        if k < |h| + |a.data| {
          HeadEnds(data, |before|, |args|, version, front);
        } else {
          var j := k - |h| - |a.data|;
          assert data[|before| + |h|..] == a.data + tail[..j];
          OneArg(before, h, a, tail[..j], |args|, version, front);
          if version >= 0x0104 || !Long(a) {
            CutIsOverrun(data, before + h + a.data, more, j, version, front + [Normal(a)]);
          }
        }
      }
    }
  }

  lemma NeededStep(args: seq<Arg>, version: nat)
    ensures args == [] ==> Needed(args, version) == 0 && Encode(args) == []
    ensures args != [] ==>
              && |HeadBytes(args[0])| >= 2
              && Needed(args, version)
                 == if Long(args[0]) && version < 0x0104 then 1
                    else |HeadBytes(args[0])| + |args[0].data| + Needed(args[1..], version)
  {
  }

  lemma CutParts(before: seq<byte>, args: seq<Arg>, k: nat)
    requires args != [] && k <= |Encode(args)|
    ensures var a, h, tail := args[0], HeadBytes(args[0]), Encode(args[1..]);
            && |Encode(args)| == |h| + |a.data| + |tail|
            && (k < |h| ==> before + Encode(args)[..k] == before + h[..k])
            && (|h| <= k ==> before + Encode(args)[..k] == before + h + (a.data + tail)[..k - |h|])
            && (|h| + |a.data| <= k ==>
                 before + Encode(args)[..k] == before + h + a.data + tail[..k - |h| - |a.data|])
  {
    hide HeadBytes;
    var a, h, tail := args[0], HeadBytes(args[0]), Encode(args[1..]);
    if k < |h| {
      assert (h + a.data + tail)[..k] == h[..k];
    } else {
      assert h + a.data + tail == h + (a.data + tail);
      CutBehind(before, h, a.data + tail, k);
      if |h| + |a.data| <= k {
        CutBehind(before, h + a.data, tail, k);
        Associates(before, h, a.data);
      }
    }
  }

  lemma CutBehind(before: seq<byte>, a: seq<byte>, b: seq<byte>, k: nat)
    requires |a| <= k <= |a + b|
    ensures before + (a + b)[..k] == before + a + b[..k - |a|]
  {
  }

  /** A head that is cut off. */
  lemma HeadCut(data: seq<byte>, before: seq<byte>, a: Arg, part: seq<byte>, version: nat)
    requires part < HeadBytes(a) && data == before + part
    ensures ReadHead(data, |before|, version)
         == if part != [] && Long(a) && version < 0x0104 then NoLength else NoHead
  {
    hide LongBytes, ShortBytes, GetLong, GetShort;
    if part != [] {
      assert data[|before|] == part[0] == HeadBytes(a)[0];
    }
  }

  lemma HeadEnds(data: seq<byte>, pos: nat, n: nat, version: nat, front: seq<Arg>)
    requires n > 0
    ensures var h := ReadHead(data, pos, version);
            && (h.NoHead? ==> Decode(data, pos, n, version, front) == Overrun)
            && (h.NoLength? ==> Decode(data, pos, n, version, front) == TooLarge)
            && (h.Head? && h.start + h.length > |data| ==> Decode(data, pos, n, version, front) == Overrun)
  {
    hide ReadHead;
  }

  /** A response of two bytes for an argument of five. */
  lemma ShortResponse()
    ensures Decode([0x20, 5], 0, 1, 0x0100, []).Overrun?
  {
    var arg := Arg(0x20, [1, 2, 3, 4, 5]);
    assert Encode([]) == [];
    assert Encode([arg]) == HeadBytes(arg) + arg.data + Encode([arg][1..]);
    assert Encode([arg])[..2] == [0x20, 5];
    assert [] + [0x20, 5] == [0x20, 5];
    NeedsAll([arg], 0x0100);
    CutIsOverrun([0x20, 5], [], [arg], 2, 0x0100, []);
  }

  // ---- the program -----------------------------------------------------------------------------------------------

  /** `dlp_arg_len` */
  method ArgLen(argv: seq<Arg>) returns (len: nat)
    ensures len == |Encode(argv)|
  {
    len := 0;
    for i := 0 to |argv|
      invariant len + |Encode(argv[i..])| == |Encode(argv)|
    {
      var arg := argv[i];
      assert argv[i..][0] == arg && argv[i..][1..] == argv[i + 1..];
      if |arg.data| < TINY_LEN && !(Bit(arg.id, FLAG_SHORT) || Bit(arg.id, FLAG_LONG)) {
        len := len + 2;
      } else if |arg.data| < SHORT_LEN && !Bit(arg.id, FLAG_LONG) {
        len := len + 4;
      } else {
        len := len + 6;
      }
      len := len + |arg.data|;
    }
  }

  /** `memcpy` and the `set_` macros */
  method Put(buf: array<byte>, at: nat, src: seq<byte>)
    requires at + |src| <= buf.Length
    modifies buf
    ensures buf[..] == old(buf[..at]) + src + old(buf[at + |src|..])
  {
    forall k | 0 <= k < |src| {
      buf[at + k] := src[k];
    }
  }

  /** One argument of the loop of `dlp_request_write`. */
  method WriteArg(buf: array<byte>, at: nat, arg: Arg) returns (end: nat)
    requires at + |HeadBytes(arg)| + |arg.data| <= buf.Length
    modifies buf
    ensures end == at + |HeadBytes(arg)| + |arg.data| && buf[..end] == old(buf[..at]) + HeadBytes(arg) + arg.data
  {
    hide ShortBytes, LongBytes;
    ghost var done, h := buf[..at], HeadBytes(arg);
    if |arg.data| < TINY_LEN && !(Bit(arg.id, FLAG_SHORT) || Bit(arg.id, FLAG_LONG)) {
      Put(buf, at, [arg.id, |arg.data|]);
      end := at + 2;
    } else if |arg.data| < SHORT_LEN && !Bit(arg.id, FLAG_LONG) {
      Put(buf, at, [WithFlag(arg.id, FLAG_SHORT), 0] + ShortBytes(|arg.data|));
      end := at + 4;
    } else {
      Put(buf, at, [WithFlag(arg.id, FLAG_LONG), 0] + LongBytes(|arg.data|));
      end := at + 6;
    }
    assert buf[..end] == done + h;
    Put(buf, end, arg.data);
    end := end + |arg.data|;
    assert buf[..end] == done + h + arg.data;
  }

  /** The loop of `dlp_request_write` fills the block that `dlp_arg_len` measured, to the last byte. */
  method WriteArgs(buf: array<byte>, argv: seq<Arg>)
    requires buf.Length == 2 + |Encode(argv)|
    modifies buf
    ensures buf[..] == old(buf[..2]) + Encode(argv)
  {
    hide Encode, HeadBytes;
    var at: nat := 2;
    ghost var start := buf[..2];
    EncodeNone(argv);
    for i := 0 to |argv|
      invariant 2 <= at && at + |Encode(argv[i..])| == buf.Length
      invariant buf[..at] + Encode(argv[i..]) == start + Encode(argv)
    {
      EncodeStep(argv, i, buf[..at]);
      at := WriteArg(buf, at, argv[i]);
    }
  }

  lemma EncodeStep(argv: seq<Arg>, i: nat, done: seq<byte>)
    requires i < |argv|
    ensures |Encode(argv[i..])| == |HeadBytes(argv[i])| + |argv[i].data| + |Encode(argv[i + 1..])|
    ensures done + Encode(argv[i..]) == done + HeadBytes(argv[i]) + argv[i].data + Encode(argv[i + 1..])
  {
    hide HeadBytes;
    assert argv[i..][0] == argv[i] && argv[i..][1..] == argv[i + 1..];
    Regrouped(done, HeadBytes(argv[i]), argv[i].data, Encode(argv[i + 1..]), []);
    assert done + Encode(argv[i..]) + [] == done + Encode(argv[i..]);
  }

  lemma EncodeNone(argv: seq<Arg>)
    ensures Encode(argv[0..]) == Encode(argv) && Encode(argv[|argv|..]) == []
  {
    assert argv[0..] == argv;
  }

  /** `dlp_request_write`; `accepted` is what the layer below says it wrote. */
  method RequestWrite(cmd: byte, argv: seq<Arg>, accepted: int) returns (result: int, request: array<byte>)
    ensures fresh(request) && request[..] == [cmd, |argv| % 256] + Encode(argv)
    ensures result == if 0 <= accepted < request.Length then -1 else accepted
  {
    var len := ArgLen(argv);
    request := new byte[len + 2];
    request[0], request[1] := cmd, |argv| % 256;
    WriteArgs(request, argv);
    result := if 0 <= accepted < request.Length then -1 else accepted;
  }

  /** What `dlp_response_read` leaves behind. */
  datatype Response = Response(cmd: nat, err: nat, argv: seq<Arg>)

  /** The head of an argument in `dlp_response_read`. */
  method ParseHead(buf: seq<byte>, pos: nat, version: nat) returns (h: Head)
    ensures h == ReadHead(buf, pos, version)
  {
    if pos >= |buf| {
      return NoHead;
    }
    var id := buf[pos] % 64;
    if Bit(buf[pos], FLAG_LONG) {
      if version < 0x0104 {
        return NoLength;
      }
      if pos + 6 > |buf| {
        return NoHead;
      }
      return Head(id, GetLong(buf, pos + 2), pos + 6);
    } else if Bit(buf[pos], FLAG_SHORT) {
      if pos + 4 > |buf| {
        return NoHead;
      }
      return Head(id, GetShort(buf, pos + 2), pos + 4);
    }
    if pos + 2 > |buf| {
      return NoHead;
    }
    return Head(buf[pos], buf[pos + 1], pos + 2);
  }

  /** `dlp_response_read` on what one read got. `overrun`: the program would have gone on past the end of the buffer. */
  method ResponseRead(reply: seq<byte>, version: nat) returns (result: int, overrun: bool, response: Response)
    ensures |reply| < 4 ==> result == COMMAND
    ensures |reply| >= 4 ==>
              match Decode(reply, 4, reply[1], version, [])
              case Overrun => overrun
              case TooLarge => !overrun && result == DATA_SIZE
              case Parsed(args, _) =>
                && !overrun && response == Response(reply[0] % 128, GetShort(reply, 2), args)
                && result == if args == [] then 0 else |args[0].data|
  {
    hide GetShort, GetLong, ReadHead;
    overrun, response := false, Response(0, 0, []);
    if |reply| < 4 {
      return COMMAND, false, response;
    }
    var argc, argv: seq<Arg>, pos: nat := reply[1], [], 4;
    for i := 0 to argc
      invariant Decode(reply, 4, argc, version, []) == Decode(reply, pos, argc - i, version, argv)
    {
      var h := ParseHead(reply, pos, version);
      if h.NoLength? {
        return DATA_SIZE, false, response;
      }
      if h.NoHead? || h.start + h.length > |reply| {
        return 0, true, response;
      }
      argv := argv + [Arg(h.id, reply[h.start..h.start + h.length])];
      pos := h.start + h.length;
    }
    response := Response(reply[0] % 128, GetShort(reply, 2), argv);
    result := if argv == [] then 0 else |argv[0].data|;
  }
}
