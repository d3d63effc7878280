/** `net_tx` and `net_rx` of libpisock/net.c over a device that may read and write less than it was asked for. */
module Net {
  import opened Bytes
  import opened Common
  import opened PiBuffer
  import opened NetSpec

  const DISCONNECTED := -200

  /** The device below. `readLimits` says how much the next reads get at most and `writeLimits` how much the next
    writes put out; a negative number is an error. When nothing more is foreseen, reads get what there is and writes
    put out everything. */
  class Wire {
    var input: seq<byte>
    var readLimits: seq<int>
    var output: seq<byte>
    var writeLimits: seq<int>

    method Read(n: nat) returns (result: int, bytes: seq<byte>)
      modifies this`input, this`readLimits
      ensures readLimits == if old(readLimits) == [] then [] else old(readLimits)[1..]
      ensures old(input) == bytes + input && |bytes| <= n
      ensures result >= 0 ==> result == |bytes|
      ensures old(readLimits) == [] ==> if input + bytes == [] then result < 0 else result == Min(n, |old(input)|)
      ensures old(readLimits) != [] && old(readLimits)[0] > 0 ==>
                result == Min(Min(n, old(readLimits)[0]), |old(input)|)
      ensures old(readLimits) != [] && old(readLimits)[0] <= 0 ==> result == old(readLimits)[0] && bytes == []
      ensures Clean(old(readLimits)) ==> Clean(readLimits) && (n > 0 && old(input) != [] ==> result > 0)
    {
      var k: int := n;
      if readLimits == [] {
        if input == [] {
          return DISCONNECTED, [];
        }
      } else {
        k := readLimits[0];
        readLimits := readLimits[1..];
      }
      if k < 0 {
        return k, [];
      }
      result := Min(Min(n, k), |input|);
      bytes := input[..result];
      input := input[result..];
    }

    method Write(bytes: seq<byte>) returns (result: int)
      modifies this`output, this`writeLimits
      ensures writeLimits == if old(writeLimits) == [] then [] else old(writeLimits)[1..]
      ensures result == if old(writeLimits) == [] || old(writeLimits)[0] >= |bytes| then |bytes|
                        else old(writeLimits)[0]
      ensures output == old(output) + if result >= 0 then bytes[..result] else []
    {
      result := |bytes|;
      if writeLimits != [] {
        result := if writeLimits[0] < |bytes| then writeLimits[0] else |bytes|;
        writeLimits := writeLimits[1..];
      }
      if result > 0 {
        output := output + bytes[..result];
      }
    }

    method FlushInput()
      modifies this`input
      ensures input == []
    {
      input := [];
    }
  }

  /** The next read fails or times out. */
  ghost predicate Fails(limits: seq<int>) { limits != [] && limits[0] <= 0 }

  /** Every read that is foreseen gets something. */
  ghost predicate Clean(limits: seq<int>) { forall i :: 0 <= i < |limits| ==> limits[i] > 0 }

  // ---- sending ---------------------------------------------------------------------------------------------------

  /** How many bytes are put out, what is returned when these are not all, and the limits still to come. */
  datatype Output = Output(sent: nat, failure: int, left: seq<int>)

  function Tail(limits: seq<int>): seq<int> { if limits == [] then [] else limits[1..] }

  /** A write that fails. */
  function Failure(limits: seq<int>): (o: Output)
    requires limits != []
  {
    Output(if limits[0] > 0 then limits[0] else 0, limits[0], limits[1..])
  }

  /** The loop of `net_tx` on `remain` bytes. A chunk size of 0 means one write. */
  function Chunked(remain: nat, chunk: nat, limits: seq<int>): (o: Output)
    ensures o.sent <= remain
    ensures forall k <- o.left :: k in limits
    decreases remain
  {
    var n := if chunk != 0 && remain > chunk then chunk else remain;
    if remain == 0 then Output(0, 0, limits)
    else if limits == [] || limits[0] >= n then
      var o := Chunked(remain - n, chunk, Tail(limits));
      o.(sent := n + o.sent)
    else Failure(limits)
  }

  /** A frame whose packet has `size` bytes, the header by itself or not. */
  function Transmitted(size: nat, split: bool, chunk: nat, limits: seq<int>): (o: Output)
    ensures o.sent <= HEADER_LEN + size
    ensures forall k <- o.left :: k in limits
  {
    if !split then Chunked(HEADER_LEN + size, chunk, limits)
    else if limits == [] || limits[0] >= HEADER_LEN then
      var o := Chunked(size, chunk, Tail(limits));
      o.(sent := HEADER_LEN + o.sent)
    else Failure(limits)
  }

  /** The most that one write of a frame asks the device to take. */
  function LargestWrite(size: nat, split: bool, chunk: nat): nat {
    var body := if split then size else HEADER_LEN + size;
    var piece := if chunk != 0 then Min(chunk, body) else body;
    if split && piece < HEADER_LEN then HEADER_LEN else piece
  }

  lemma {:induction false} ChunkedWhole(remain: nat, chunk: nat, limits: seq<int>)
    requires forall i :: 0 <= i < |limits| ==> limits[i] >= if chunk != 0 then Min(chunk, remain) else remain
    ensures Chunked(remain, chunk, limits).sent == remain
    decreases remain
  {
    var n := if chunk != 0 && remain > chunk then chunk else remain;
    if remain > 0 {
      ChunkedWhole(remain - n, chunk, Tail(limits));
    }
  }

  /** Whatever the options, a device that takes what each write gives it gets the whole frame. */
  lemma AllIsTransmitted(size: nat, split: bool, chunk: nat, limits: seq<int>)
    requires forall k <- limits :: k >= LargestWrite(size, split, chunk)
    ensures Transmitted(size, split, chunk, limits).sent == HEADER_LEN + size
  {
    assert forall i :: 0 <= i < |limits| ==> limits[i] in limits;
    if split {
      ChunkedWhole(size, chunk, Tail(limits));
    } else {
      ChunkedWhole(HEADER_LEN + size, chunk, limits);
    }
  }

  /** A failing write returns less than `size` when no write asks for more than that. */
  lemma {:induction false} FailsBelow(remain: nat, chunk: nat, limits: seq<int>, size: nat)
    requires 0 < chunk <= size || remain <= size
    ensures Chunked(remain, chunk, limits).sent < remain ==> Chunked(remain, chunk, limits).failure < size
    decreases remain
  {
    var n := if chunk != 0 && remain > chunk then chunk else remain;
    if remain > 0 && (limits == [] || limits[0] >= n) {
      FailsBelow(remain - n, chunk, Tail(limits), size);
    }
  }

  /** A frame is cut short, and what is returned is what sending the whole packet returns. */
  predicate Misleads(size: nat, split: bool, chunk: nat, limits: seq<int>) {
    var o := Transmitted(size, split, chunk, limits);
    o.sent < HEADER_LEN + size && o.failure == size
  }

  /** Some device makes `net_tx` report a frame as sent that was cut short, if and only if the first write asks for more
    than the packet's size: with the header by itself, when the packet is shorter than the header; else, when the chunks
    are not limited to the packet's size. */
  lemma CutShortLooksComplete(size: nat, split: bool, chunk: nat)
    ensures (exists limits: seq<int> :: Misleads(size, split, chunk, limits))
       <==> if split then size < HEADER_LEN else chunk == 0 || chunk > size
  {
    if split && size < HEADER_LEN {
      assert Misleads(size, split, chunk, [size]);
    } else if !split && (chunk == 0 || chunk > size) {
      var n := if chunk != 0 && HEADER_LEN + size > chunk then chunk else HEADER_LEN + size;
      assert n > size && Chunked(HEADER_LEN + size, chunk, [size]) == Output(size, size, []);
      assert Misleads(size, split, chunk, [size]);
    } else {
      forall limits: seq<int> ensures !Misleads(size, split, chunk, limits) {
        if split {
          FailsBelow(size, chunk, Tail(limits), size);
        } else {
          FailsBelow(HEADER_LEN + size, chunk, limits, size);
        }
      }
    }
  }

  // ---- one end of the connection ---------------------------------------------------------------------------------

  /** `pi_net_data_t`, with the device below. */
  class Link {
    const wire: Wire
    var kind: byte
    var txid: byte
    var splitWrites: bool
    var writeChunksize: nat

    constructor (wire: Wire, splitWrites: bool, writeChunksize: nat)
      ensures this.wire == wire && kind == TYPE_DATA && txid == 0
      ensures this.splitWrites == splitWrites && this.writeChunksize == writeChunksize
    {
      this.wire, this.splitWrites, this.writeChunksize := wire, splitWrites, writeChunksize;
      kind, txid := TYPE_DATA, 0;
    }

    /** One write of the loop below. */
    method SendPiece(buf: seq<byte>, start: nat, offset: nat, n: nat, ghost before: seq<byte>) returns (bytes: int)
      requires start <= offset && offset + n <= |buf| && wire.output == before + buf[start..offset]
      modifies wire`output, wire`writeLimits
      ensures wire.writeLimits == Tail(old(wire.writeLimits))
      ensures if old(wire.writeLimits) == [] || old(wire.writeLimits)[0] >= n then
                bytes == n && wire.output == before + buf[start..offset + n]
              else
                && bytes == old(wire.writeLimits)[0] < n
                && wire.output == before + buf[start..offset + if bytes > 0 then bytes else 0]
    {
      bytes := wire.Write(buf[offset..offset + n]);
      Joined(buf, start, offset, n, if bytes > 0 then bytes else 0);
    }

    /** The loop of `net_tx`: the buffer from `start` on. */
    method SendChunks(buf: seq<byte>, start: nat) returns (done: bool, result: int)
      requires start <= |buf|
      modifies wire`output, wire`writeLimits
      ensures var o := Chunked(|buf| - start, writeChunksize, old(wire.writeLimits));
              && wire.output == old(wire.output) + buf[start..start + o.sent] && wire.writeLimits == o.left
              && done == (o.sent == |buf| - start) && (!done ==> result == o.failure)
    {
      hide Chunked, Tail;
      ghost var all, before := Chunked(|buf| - start, writeChunksize, wire.writeLimits), wire.output;
      var offset, remain: nat := start, |buf| - start;
      ghost var now := all;
      while remain > 0
        invariant offset + remain == |buf| && start <= offset && wire.output == before + buf[start..offset]
        invariant now == Chunked(remain, writeChunksize, wire.writeLimits)
        invariant start + all.sent == offset + now.sent && all.failure == now.failure && all.left == now.left
      {
        var tosend := if writeChunksize != 0 && remain > writeChunksize then writeChunksize else remain;
        ChunkedStep(remain, tosend, writeChunksize, wire.writeLimits);
        var bytes := SendPiece(buf, start, offset, tosend, before);
        if bytes < tosend {
          return false, bytes;
        }
        now := Chunked(remain - tosend, writeChunksize, wire.writeLimits);
        remain := remain - bytes;
        offset := offset + bytes;
      }
      ChunkedNone(writeChunksize, wire.writeLimits);
      return true, 0;
    }

    /** `net_tx` */
    method Tx(msg: seq<byte>) returns (result: int)
      modifies wire`output, wire`writeLimits
      ensures var o := Transmitted(|msg|, splitWrites, writeChunksize, old(wire.writeLimits));
              && wire.output == old(wire.output) + Frame(kind, txid, msg)[..o.sent] && wire.writeLimits == o.left
              && result == if o.sent == HEADER_LEN + |msg| then |msg| else o.failure
    {
      hide Frame, LongBytes, Chunked;
      ghost var o := Transmitted(|msg|, splitWrites, writeChunksize, wire.writeLimits);
      var buf := [kind, if kind == TYPE_TCKL then 0xff else txid] + LongBytes(|msg|) + msg;
      var offset: nat := 0;
      FrameIs(kind, txid, msg);
      if splitWrites {
        var bytes := wire.Write(buf[..HEADER_LEN]);
        if bytes < HEADER_LEN {
          assert buf[..HEADER_LEN][..o.sent] == buf[..o.sent];
          return bytes;
        }
        offset := HEADER_LEN;
      }
      assert buf[..o.sent] == buf[..offset] + buf[offset..o.sent];
      var done;
      done, result := SendChunks(buf, offset);
      if done {
        result := |msg|;
      }
    }

    /** One read of the loop below. */
    method ReadHeaderPiece(header: Buffer, ghost seen: seq<byte>) returns (result: int)
      requires header.Valid() && header.data.Length == HEADER_LEN && header.used < HEADER_LEN
      requires header.Contents() + wire.input == seen
      modifies wire`input, wire`readLimits, header, header.data
      ensures header.Valid() && (header.data == old(header.data) || fresh(header.data))
      ensures header.data.Length == HEADER_LEN && header.used <= HEADER_LEN
      ensures result > 0 ==> header.used == old(header.used) + result && header.Contents() + wire.input == seen
      ensures Clean(old(wire.readLimits)) ==> Clean(wire.readLimits) && (|seen| >= HEADER_LEN ==> result > 0)
      ensures Fails(old(wire.readLimits)) ==> result == old(wire.readLimits)[0]
    {
      hide Clean;
      var bytes;
      result, bytes := wire.Read(HEADER_LEN - header.used);
      if result > 0 {
        Regrouped(header.Contents(), bytes, wire.input);
        header.Append(bytes);
      }
    }

    /** The second inner loop of `net_rx`: what is left of the header. `seen` is what the header was filled from. */
    method ReadHeader(header: Buffer, ghost seen: seq<byte>) returns (result: int)
      requires header.Valid() && header.data.Length == HEADER_LEN && header.used <= HEADER_LEN
      requires header.Contents() + wire.input == seen
      modifies wire`input, wire`readLimits, header, header.data
      ensures header.Valid() && (header.data == old(header.data) || fresh(header.data))
      ensures header.data.Length == HEADER_LEN && header.used <= HEADER_LEN
      ensures result > 0 ==> header.used == HEADER_LEN && header.Contents() + wire.input == seen
      ensures Clean(old(wire.readLimits)) ==> Clean(wire.readLimits) && (|seen| >= HEADER_LEN ==> result > 0)
      ensures Fails(old(wire.readLimits)) && old(header.used) < HEADER_LEN ==> result == old(wire.readLimits)[0]
    {
      hide Clean;
      result := 1;
      var total := header.used;
      while total < HEADER_LEN
        invariant header.Valid() && (header.data == old(header.data) || fresh(header.data))
        invariant header.data.Length == HEADER_LEN && header.used == total <= HEADER_LEN
        invariant header.Contents() + wire.input == seen && result > 0
        invariant Clean(old(wire.readLimits)) ==> Clean(wire.readLimits)
        invariant total > old(header.used) ==> !Fails(old(wire.readLimits))
        invariant total == old(header.used) ==> wire.readLimits == old(wire.readLimits)
      {
        result := ReadHeaderPiece(header, seen);
        if result <= 0 {
          return;
        }
        total := total + result;
      }
    }

    /** One read of the loop below. */
    method ReadPiece(msg: Buffer, total: nat, n: nat, ghost stream: seq<byte>, ghost before: seq<byte>)
      returns (result: int)
      requires msg.Valid() && total <= |stream| && wire.input == stream[total..]
      requires msg.Contents() == before + stream[..total] && n > 0
      modifies wire`input, wire`readLimits, msg, msg.data
      ensures msg.Valid() && (msg.data == old(msg.data) || fresh(msg.data))
      ensures result >= 0 ==>
                && result <= n && total + result <= |stream| && wire.input == stream[total + result..]
                && msg.Contents() == before + stream[..total + result]
      ensures |wire.readLimits| < |old(wire.readLimits)|
              || (wire.readLimits == old(wire.readLimits) == [] && result != 0)
      ensures Clean(old(wire.readLimits)) ==> Clean(wire.readLimits) && (total < |stream| ==> result > 0)
    {
      hide Clean, Overlay;
      var bytes;
      result, bytes := wire.Read(n);
      if result >= 0 {
        Consumed(stream, total, bytes, wire.input, before);
        msg.Append(bytes);
      }
    }

    /** The last loop of `net_rx`: the packet itself. A read that gets nothing is repeated. */
    method ReadBody(msg: Buffer, length: nat) returns (ok: bool, result: int)
      requires msg.Valid()
      modifies wire`input, wire`readLimits, msg, msg.data
      ensures msg.Valid() && (msg.data == old(msg.data) || fresh(msg.data))
      ensures !ok ==> result < 0
      ensures ok ==>
                && length <= |old(wire.input)| && msg.Contents() == old(msg.Contents()) + old(wire.input)[..length]
                && wire.input == old(wire.input)[length..]
      ensures Clean(old(wire.readLimits)) ==> Clean(wire.readLimits) && (length <= |old(wire.input)| ==> ok)
    {
      hide Clean;
      var total := 0;
      ghost var stream, before := wire.input, msg.Contents();
      while total < length
        invariant 0 <= total <= length && msg.Valid() && (msg.data == old(msg.data) || fresh(msg.data))
        invariant total <= |stream| && wire.input == stream[total..] && msg.Contents() == before + stream[..total]
        invariant Clean(old(wire.readLimits)) ==> Clean(wire.readLimits)
        decreases |wire.readLimits|, length - total
      {
        result := ReadPiece(msg, total, length - total, stream, before);
        if result < 0 {
          return false, result;
        }
        total := total + result;
      }
      return true, 0;
    }

    /** The first half of a turn of the loop below: a header, or the first byte of a packet that has none. */
    method NextHeader(header: Buffer) returns (result: int, headerless: bool)
      requires header.Valid() && header.data.Length == HEADER_LEN && header.Contents() == []
      modifies wire`input, wire`readLimits, header, header.data
      ensures header.Valid() && (header.data == old(header.data) || fresh(header.data))
      ensures header.data.Length == HEADER_LEN
      ensures Clean(old(wire.readLimits)) ==> Clean(wire.readLimits)
      ensures var stream := old(wire.input);
              var bare := txid == 0 && stream != [] && stream[0] == SIGNATURE;
              && (result > 0 ==> headerless == bare)
              && (result > 0 && bare ==> wire.input == stream[1..]
                                         && header.data[..] == [TYPE_DATA, 0x01] + LongBytes(HEADERLESS_LEN))
              && (result > 0 && !bare ==> header.used == HEADER_LEN && header.data[..] + wire.input == stream)
              && (Clean(old(wire.readLimits)) ==> (bare || |stream| >= HEADER_LEN <==> result > 0))
      ensures Fails(old(wire.readLimits)) ==> result == old(wire.readLimits)[0]
    {
      hide LongBytes;
      ghost var stream := wire.input;
      if txid == 0 {
        var bytes;
        result, bytes := wire.Read(1);
        if result <= 0 {
          return result, false;
        }
        header.Append(bytes);
        assert header.Contents() == bytes && header.data[0] == bytes[0] && bytes[0] == stream[0];
        if header.data[0] == SIGNATURE {
          header.Store(0, [TYPE_DATA, 0x01] + LongBytes(HEADERLESS_LEN));
          return result, true;
        }
      }
      result := ReadHeader(header, stream);
      headerless := false;
      assert result > 0 ==> header.data[..] == header.Contents();
    }

    /** The first loop of `net_rx`: tickles are skipped up to a header of a packet, or the first byte of a packet
      without one. `headerless` is never found where a header begins, since a header begins with its type. */
    method FindPacket(header: Buffer, ghost was: Received) returns (result: int, headerless: bool)
      requires header.Valid() && header.data.Length == HEADER_LEN && header.Contents() == []
      requires was == Receive(wire.input, txid == 0)
      modifies wire`input, wire`readLimits, header, header.data, this`kind
      ensures header.Valid() && (header.data == old(header.data) || fresh(header.data))
      ensures header.data.Length == HEADER_LEN
      ensures Clean(old(wire.readLimits)) ==> Clean(wire.readLimits)
      ensures Clean(old(wire.readLimits)) && (was.Packet? || was.Headerless?) ==> result > 0
      ensures Clean(old(wire.readLimits)) && was.Bad? && result <= 0 ==> result == BAD_PACKET
      ensures result > 0 ==> HeaderFits(was, header.data[..], wire.input, headerless)
      ensures result > 0 && !headerless ==> kind == TYPE_DATA
      ensures Clean(old(wire.readLimits)) ==> kind == KindAfter(old(wire.input), txid == 0, old(kind))
      ensures Fails(old(wire.readLimits)) ==> result == old(wire.readLimits)[0]
    {
      hide Receive, HeaderFits, GetLong, LongBytes, KindAfter, Clean;
      while true
        invariant header.Valid() && (header.data == old(header.data) || fresh(header.data))
        invariant header.data.Length == HEADER_LEN && header.Contents() == []
        invariant was == Receive(wire.input, txid == 0)
        invariant Clean(old(wire.readLimits)) ==> Clean(wire.readLimits)
        invariant KindAfter(old(wire.input), txid == 0, old(kind)) == KindAfter(wire.input, txid == 0, kind)
        invariant wire.readLimits == old(wire.readLimits) || !Fails(old(wire.readLimits))
        decreases |wire.input|
      {
        ghost var stream := wire.input;
        ReceiveOnce(stream, txid == 0);
        KindOnce(stream, txid == 0, kind);
        result, headerless := NextHeader(header);
        if result <= 0 {
          return;
        }
        var h := header.data[..];
        if headerless {
          HeaderlessFits(stream, h, wire.input);
          return;
        }
        HeaderIs(stream, h, wire.input);
        var size := ToInt32(GetLong(h, 2));
        kind := h[0];
        if kind == TYPE_TCKL {
          if size != 0 {
            return BAD_PACKET, false;
          }
          header.used := 0;
        } else if kind == TYPE_DATA {
          PacketFits(stream, txid == 0, h, wire.input);
          return result, false;
        } else {
          return BAD_PACKET, false;
        }
      }
    }

    /** `net_rx`. `adopt`: the peer chooses the transaction ids. Whatever the reads got, nothing is returned that the
      stream does not hold; and when every read got something, what the stream holds is returned. */
    method Rx(msg: Buffer, adopt: bool) returns (result: int, ghost complete: bool)
      requires msg.Valid()
      modifies wire`input, wire`readLimits, msg, msg.data, this`kind, this`txid
      ensures msg.Valid() && (result > 0 ==> complete) && (!complete ==> txid == old(txid))
      ensures var was := Receive(old(wire.input), old(txid) == 0);
              && (complete ==> was.Packet? || was.Headerless?)
              && (complete ==> result == |was.payload| && wire.input == was.rest
                               && msg.Contents() == old(msg.Contents()) + was.payload
                               && txid == NextTxid(old(txid), adopt, if was.Packet? then was.id else 1))
              && (complete && was.Packet? ==> kind == TYPE_DATA)
              && (Clean(old(wire.readLimits)) ==> kind == KindAfter(old(wire.input), old(txid) == 0, old(kind)))
              && (Fails(old(wire.readLimits)) ==> !complete && result == old(wire.readLimits)[0])
              && (Clean(old(wire.readLimits)) ==> Clean(wire.readLimits) || !complete)
              && (Clean(old(wire.readLimits)) ==>
                   (was.Packet? || was.Headerless? ==> complete) && (was.Bad? ==> result == BAD_PACKET))
    {
      hide Receive, HeaderFits, GetLong, LongBytes, KindAfter, Clean;
      ghost var was := Receive(wire.input, txid == 0);
      complete := false;
      var header := new Buffer(HEADER_LEN);
      var headerless;
      result, headerless := FindPacket(header, was);
      if result <= 0 {
        return;
      }
      var h := header.data[..];
      var length := ToInt32(GetLong(h, 2));
      FittingHeader(was, h, wire.input, headerless);
      if length < 0 || length > MAX_LEN {
        wire.FlushInput();
        return BAD_PACKET, false;
      }
      var ok;
      ok, result := ReadBody(msg, length);
      if !ok {
        return;
      }
      complete := true;
      if adopt {
        txid := h[1];
      } else {
        var next: byte := if txid == 0xff then 0 else txid + 1;
        txid := if next == 0xff then 1 else next;
      }
      result := length;
    }
  }

  /** Successive calls of `net_rx`, whatever part of what they ask for the reads get: they return the messages sent, in
    order, with the tickles before and between them skipped, and leave what follows the last one. */
  method ReceiveMessages(link: Link, adopt: bool, n: nat, ghost sent: seq<Sent>, ghost rest: seq<byte>)
    returns (got: seq<seq<byte>>)
    requires Sendable(sent) && n == |Messages(sent)| && link.wire.input == Stream(sent) + rest
    requires Clean(link.wire.readLimits)
    modifies link.wire`input, link.wire`readLimits, link`kind, link`txid
    ensures |got| == n && forall i :: 0 <= i < n ==> Messages(sent)[i].Message? && got[i] == Messages(sent)[i].bytes
    ensures link.wire.input == Stream(Trailing(sent)) + rest
  {
    hide Receive, Stream, Frame, Messages, Trailing, Behind, Overlay;
    got := [];
    ghost var left := sent;
    while |got| < n
      invariant Sendable(left) && |got| <= n && link.wire.input == Stream(left) + rest
      invariant forall i :: 0 <= i < |got| ==> Messages(sent)[i].Message? && got[i] == Messages(sent)[i].bytes
      invariant Trailing(left) == Trailing(sent)
      invariant Messages(left) == Messages(sent)[|got|..] && Clean(link.wire.readLimits)
    {
      FirstIsReceived(left, rest, link.txid == 0);
      TrailingStep(left);
      var msg := new Buffer(0);
      ghost var first := Messages(left)[0];
      var _, _ := link.Rx(msg, adopt);
      assert msg.Contents() == [] + first.bytes == first.bytes;
      got := got + [msg.data[..msg.used]];
      left := Behind(left);
    }
    TrailingStep(left);
  }

  /** Successive calls of `net_tx`, with the type set for each and the id that of the transaction it belongs to:
    under every setting of split writes and chunk size, a device that takes what each write gives it gets the stream. */
  method SendMessages(link: Link, sent: seq<Sent>)
    requires forall s <- sent, k <- link.wire.writeLimits ::
               k >= LargestWrite(SizeOf(s), link.splitWrites, link.writeChunksize)
    modifies link`kind, link`txid, link.wire`output, link.wire`writeLimits
    ensures link.wire.output == old(link.wire.output) + Stream(sent)
  {
    hide Stream, Frame, LargestWrite, Transmitted;
    ghost var before := link.wire.output;
    assert sent[..0] == [];
    NothingSent(before);
    for i := 0 to |sent|
      invariant link.wire.output == before + Stream(sent[..i])
      invariant link.splitWrites == old(link.splitWrites) && link.writeChunksize == old(link.writeChunksize)
      invariant forall k <- link.wire.writeLimits :: k in old(link.wire.writeLimits)
    {
      var s := sent[i];
      assert s in sent;
      forall k | k in link.wire.writeLimits
        ensures k >= LargestWrite(SizeOf(s), link.splitWrites, link.writeChunksize)
      {
        assert k in old(link.wire.writeLimits);
      }
      AllIsTransmitted(SizeOf(s), link.splitWrites, link.writeChunksize, link.wire.writeLimits);
      match s {
        case Tickle =>
          link.kind := TYPE_TCKL;
          var _ := link.Tx([]);
        case Message(id, bytes) =>
          link.kind, link.txid := TYPE_DATA, id;
          var _ := link.Tx(bytes);
      }
      WholeFrame(link.kind, link.txid, s);
      assert sent[..i + 1] == sent[..i] + [s];
      StreamMore(sent[..i], s);
      Associates(before, Stream(sent[..i]), FrameOf(s));
    }
    assert sent[..|sent|] == sent;
  }

  function SizeOf(s: Sent): nat { if s.Message? then |s.bytes| else 0 }

  lemma NothingSent(before: seq<byte>)
    ensures before + Stream([]) == before
  {
  }

  lemma WholeFrame(kind: byte, txid: byte, s: Sent)
    requires s.Tickle? ==> kind == TYPE_TCKL
    requires s.Message? ==> kind == TYPE_DATA && txid == s.id
    ensures var msg := if s.Message? then s.bytes else [];
            Frame(kind, txid, msg)[..HEADER_LEN + |msg|] == FrameOf(s)
  {
    hide LongBytes;
  }

  /** From one end to the other: whatever the settings of the sender, and whatever part of what they ask for the
    reads of the receiver get, the receiver's calls return exactly the messages that were sent. */
  method Relay(sender: Link, receiver: Link, sent: seq<Sent>, adopt: bool) returns (got: seq<seq<byte>>)
    requires sender != receiver && sender.wire != receiver.wire && Sendable(sent)
    requires sender.wire.output == [] && receiver.wire.input == [] && Clean(receiver.wire.readLimits)
    requires forall s <- sent, k <- sender.wire.writeLimits ::
               k >= LargestWrite(SizeOf(s), sender.splitWrites, sender.writeChunksize)
    modifies sender`kind, sender`txid, sender.wire`output, sender.wire`writeLimits
    modifies receiver`kind, receiver`txid, receiver.wire`input, receiver.wire`readLimits
    ensures |got| == |Messages(sent)|
    ensures forall i :: 0 <= i < |got| ==> Messages(sent)[i].Message? && got[i] == Messages(sent)[i].bytes
    ensures receiver.wire.input == Stream(Trailing(sent))
  {
    hide Stream, LargestWrite, Sendable;
    SendMessages(sender, sent);
    receiver.wire.input := sender.wire.output;
    assert [] + Stream(sent) == Stream(sent) + [];
    got := ReceiveMessages(receiver, adopt, |Messages(sent)|, sent, []);
    assert Stream(Trailing(sent)) + [] == Stream(Trailing(sent));
  }

  /** The transaction id after a packet: the peer's, or the next one of our own, which is never 0xff nor, once they
    wrap, 0. */
  function NextTxid(txid: byte, adopt: bool, theirs: byte): byte {
    if adopt then theirs else if txid == 0xfe then 1 else if txid == 0xff then 0 else txid + 1
  }

  /** The header found agrees with what the stream holds; `input` is what follows the header, or the first byte of a
    packet that has none. */
  ghost predicate HeaderFits(was: Received, h: seq<byte>, input: seq<byte>, headerless: bool)
    requires |h| == HEADER_LEN
  {
    var size := ToInt32(GetLong(h, 2));
    if headerless then
      && size == HEADERLESS_LEN && h[1] == 1
      && was == if |input| < HEADERLESS_LEN then Starved
                else Headerless(input[..HEADERLESS_LEN], input[HEADERLESS_LEN..])
    else
      was == if size < 0 || size > MAX_LEN then Bad
             else if |input| < size then Starved
             else Packet(input[..size], h[1], input[size..])
  }

  lemma FittingHeader(was: Received, h: seq<byte>, input: seq<byte>, headerless: bool)
    requires |h| == HEADER_LEN && HeaderFits(was, h, input, headerless)
    ensures var size := ToInt32(GetLong(h, 2));
            && (size < 0 || size > MAX_LEN <==> was.Bad?)
            && (was.Packet? || was.Headerless? <==> 0 <= size <= MAX_LEN && size <= |input|)
            && (0 <= size <= MAX_LEN && size <= |input| ==> was.payload == input[..size] && was.rest == input[size..])
            && (was.Packet? ==> was.id == h[1] && !headerless) && (was.Headerless? ==> h[1] == 1)
  {
    hide GetLong;
  }

  /** One turn of the loop that looks for a packet. */
  lemma ReceiveOnce(stream: seq<byte>, peek: bool)
    ensures var was := Receive(stream, peek);
            && (stream == [] ==> was.Starved?)
            && (peek && stream != [] && stream[0] == SIGNATURE ==>
                 was == if |stream| < 1 + HEADERLESS_LEN then Starved
                        else Headerless(stream[1..1 + HEADERLESS_LEN], stream[1 + HEADERLESS_LEN..]))
            && (!(peek && stream != [] && stream[0] == SIGNATURE) && |stream| < HEADER_LEN ==> was.Starved?)
            && (!(peek && stream != [] && stream[0] == SIGNATURE) && |stream| >= HEADER_LEN ==>
                 if stream[0] == TYPE_TCKL then
                   was == if ToInt32(GetLong(stream, 2)) != 0 then Bad else Receive(stream[HEADER_LEN..], peek)
                 else stream[0] != TYPE_DATA ==> was.Bad?)
  {
    hide GetLong;
  }

  lemma KindOnce(stream: seq<byte>, peek: bool, kind: byte)
    ensures var bare := peek && stream != [] && stream[0] == SIGNATURE;
            && (bare || |stream| < HEADER_LEN ==> KindAfter(stream, peek, kind) == kind)
            && (!bare && |stream| >= HEADER_LEN ==>
                 KindAfter(stream, peek, kind)
                 == if stream[0] == TYPE_TCKL && ToInt32(GetLong(stream, 2)) == 0
                    then KindAfter(stream[HEADER_LEN..], peek, TYPE_TCKL) else stream[0])
  {
    hide GetLong;
  }

  lemma HeaderIs(stream: seq<byte>, h: seq<byte>, input: seq<byte>)
    requires |h| == HEADER_LEN && h + input == stream
    ensures h[0] == stream[0] && GetLong(h, 2) == GetLong(stream, 2) && stream[HEADER_LEN..] == input
  {
  }

  lemma HeaderlessFits(stream: seq<byte>, h: seq<byte>, input: seq<byte>)
    requires stream != [] && stream[0] == SIGNATURE && input == stream[1..]
    requires h == [TYPE_DATA, 0x01] + LongBytes(HEADERLESS_LEN)
    ensures HeaderFits(Receive(stream, true), h, input, true)
  {
    hide LongBytes, GetLong;
    LongRoundTrip(h, 2, HEADERLESS_LEN);
    ReceiveOnce(stream, true);
    if |input| >= HEADERLESS_LEN {
      assert stream[1..1 + HEADERLESS_LEN] == input[..HEADERLESS_LEN];
      assert stream[1 + HEADERLESS_LEN..] == input[HEADERLESS_LEN..];
    }
  }

  lemma PacketFits(stream: seq<byte>, peek: bool, h: seq<byte>, input: seq<byte>)
    requires |h| == HEADER_LEN && h + input == stream && h[0] == TYPE_DATA
    ensures HeaderFits(Receive(stream, peek), h, input, false)
  {
    hide GetLong;
    HeaderIs(stream, h, input);
    assert stream[1] == h[1];
  }

  lemma Consumed(stream: seq<byte>, total: nat, bytes: seq<byte>, left: seq<byte>, before: seq<byte>)
    requires total <= |stream| && stream[total..] == bytes + left
    ensures total + |bytes| <= |stream| && stream[total + |bytes|..] == left
    ensures before + stream[..total + |bytes|] == before + stream[..total] + bytes
  {
    assert stream == stream[..total] + bytes + left;
  }

  lemma Regrouped(a: seq<byte>, b: seq<byte>, c: seq<byte>)
    ensures a + (b + c) == a + b + c
  {
  }

  lemma ChunkedStep(remain: nat, n: nat, chunk: nat, limits: seq<int>)
    requires remain > 0 && n == if chunk != 0 && remain > chunk then chunk else remain
    ensures var o := Chunked(remain, chunk, limits);
            if limits == [] || limits[0] >= n then
              var next := Chunked(remain - n, chunk, Tail(limits));
              o.sent == n + next.sent && o.failure == next.failure && o.left == next.left
            else o == Output(if limits[0] > 0 then limits[0] else 0, limits[0], Tail(limits))
  {
  }

  lemma ChunkedNone(chunk: nat, limits: seq<int>)
    ensures Chunked(0, chunk, limits) == Output(0, 0, limits)
  {
  }

  lemma Joined(buf: seq<byte>, start: nat, offset: nat, n: nat, k: nat)
    requires start <= offset && k <= n && offset + n <= |buf|
    ensures buf[start..offset + k] == buf[start..offset] + buf[offset..offset + n][..k]
  {
  }

  lemma FrameIs(kind: byte, txid: byte, msg: seq<byte>)
    ensures Frame(kind, txid, msg) == [kind, if kind == TYPE_TCKL then 0xff else txid] + LongBytes(|msg|) + msg
    ensures Frame(kind, txid, msg)[..HEADER_LEN + |msg|] == Frame(kind, txid, msg)
  {
  }
}
