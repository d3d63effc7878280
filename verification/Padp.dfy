/** `padp_tx`, `padp_rx` and `padp_sendack` (libpisock/padp.c) over an abstract packet layer. */
module Padp {
  import opened Bytes
  import opened PiBuffer
  import opened PadpSpec

  const DISCONNECTED := -200  // PI_ERR_SOCK_DISCONNECTED
  const TIMED_OUT := -202     // PI_ERR_SOCK_TIMEOUT, also for the other errors a read may report

  /** The layer below. Reads yield what has `arrived`, then what is `incoming`, then time out. */
  class Link {
    var arrived: seq<Reading>
    var incoming: seq<Reading>
    var writes: seq<Writing>
    var clock: seq<bool>
    var sent: seq<Frame>

    ghost function Readings(): seq<Reading>
      reads this
    {
      arrived + incoming
    }

    method Read(limit: nat) returns (r: Reading)
      modifies this`arrived, this`incoming
      ensures r == Deliver(if old(Readings()) == [] then Failed else old(Readings())[0], limit)
      ensures Readings() == if old(Readings()) == [] then [] else old(Readings())[1..]
      ensures |arrived| <= old(|arrived|)
    {
      if arrived != [] {
        r, arrived := arrived[0], arrived[1..];
      } else if incoming != [] {
        r, incoming := incoming[0], incoming[1..];
      } else {
        r := Failed;
      }
      r := Deliver(r, limit);
    }

    method Write(f: Frame) returns (w: Writing)
      modifies this`writes, this`sent
      ensures w == if old(writes) == [] then Sent else old(writes)[0]
      ensures writes == if old(writes) == [] then [] else old(writes)[1..]
      ensures sent == if w.Sent? then old(sent) + [f] else old(sent)
    {
      w := Sent;
      if writes != [] {
        w, writes := writes[0], writes[1..];
      }
      if w.Sent? {
        sent := sent + [f];
      }
    }

    /** `pi_flush(PI_FLUSH_INPUT)` */
    method Flush()
      modifies this`arrived
      ensures arrived == []
    {
      arrived := [];
    }

    /** `time(NULL) > endtime` */
    method Late() returns (late: bool)
      modifies this`clock
      ensures late == (old(clock) != [] && old(clock)[0])
      ensures clock == if old(clock) == [] then [] else old(clock)[1..]
    {
      late := false;
      if clock != [] {
        late, clock := clock[0], clock[1..];
      }
    }
  }

  class Protocol {
    const link: Link
    var connection: Connection
    var kind: int
    var frozen: bool
    var longFormat: bool
    var txid: byte
    var nextTxid: nat
    var ackedTxid: byte
    var acked: Header

    /** `padp_protocol`: the fields of the last acknowledgement are left as they are in memory. */
    constructor (link: Link, ackedTxid: byte, acked: Header)
      ensures this.link == link && connection == Other
      ensures State() == Data(PAD_DATA, false, false, 0xff, 0xff, ackedTxid, acked)
    {
      this.link := link;
      connection := Other;
      kind, frozen, longFormat, txid, nextTxid := PAD_DATA, false, false, 0xff, 0xff;
      this.ackedTxid, this.acked := ackedTxid, acked;
    }

    function State(): Data
      reads this
    {
      Data(kind, frozen, longFormat, txid, nextTxid, ackedTxid, acked)
    }

    /** `padp_setsockopt(PI_PADP_FREEZE_TXID)` */
    method SetFreezeTxid(on: bool)
      modifies this
      ensures State() == Freeze(old(State()), on) && connection == old(connection)
    {
      var wasFrozen := frozen;
      frozen := on;
      if wasFrozen && !frozen {
        nextTxid := nextTxid + 1;
        if nextTxid >= 0xfe {
          nextTxid := 1;
        }
      }
    }

    /** `padp_sendack` */
    method SendAck(h: Header, id: byte)
      modifies this`ackedTxid, this`acked, link`writes, link`sent
      ensures link.writes == if old(link.writes) == [] then [] else old(link.writes)[1..]
      ensures var ok := old(link.writes) == [] || old(link.writes)[0].Sent?;
              && link.sent == (if ok then old(link.sent) + [AckFrame(h, id)] else old(link.sent))
              && ackedTxid == (if ok then id else old(ackedTxid))
              && acked == (if ok then h else old(acked))
    {
      var headerSize := HEADER_LEN;
      var packet := [PAD_ACK % 256, h.flags];
      if Bit(h.flags, FL_LONG) {
        headerSize := headerSize + 2;
        packet := packet + LongBytes(h.size);
      } else {
        packet := packet + ShortBytes(h.size);
      }
      var w := link.Write(Frame(SLP_TYPE_PADP, id, packet[..headerSize]));
      assert packet[..headerSize] == packet;
      if w.Sent? {
        ackedTxid, acked := id, h;
      }
    }

    /** The id bookkeeping at the head of `padp_tx`. */
    method PrepareTx()
      modifies this
      ensures State() == TxPrepare(old(State()), old(connection)) && connection == old(connection)
    {
      if kind == PAD_WAKE {
        txid := 0xff;
      }
      if !frozen {
        if txid == 0 {
          txid := 0x10;
        } else if txid >= 0xfe {
          nextTxid := 1;
        } else {
          nextTxid := txid + 1;
        }
      }
      if kind != PAD_ACK && connection == Accepted {
        txid := nextTxid % 256;
      }
    }

    /** The locals of `Tx` while it waits, as a spec state. */
    ghost function TxView(buf: seq<byte>, count: nat, first: bool, retries: int, padpBuf: Buffer): Sender
      reads this, link, padpBuf, padpBuf.data
    {
      Sender(State(), buf, count, first, retries, padpBuf.data[..], padpBuf.used, link.sent, link.writes, Waiting)
    }

    /** The packet `padp_tx` builds in place; its bytes are what is then written. */
    method BuildPacket(padpBuf: Buffer, rest: seq<byte>, tlen: nat, first: bool, count: nat, ghost tx: Sender)
      returns (packet: seq<byte>)
      requires padpBuf.Valid() && padpBuf.data.Length >= HEADER_LEN + 2 + MTU
      requires tx.data == State() && tx.count == count && tx.first == first && count <= |tx.msg|
      requires rest == tx.msg[count..] && tlen == tx.FragmentLength()
      modifies padpBuf.data
      ensures packet == PacketBytes(tx) && padpBuf.data[..] == Overlay(old(padpBuf.data[..]), 0, packet)
    {
      hide Overlay, LongBytes, ShortBytes;
      var headerSize := if longFormat then HEADER_LEN + 2 else HEADER_LEN;
      var flags: byte := (if first then FL_FIRST else 0) + (if |rest| == tlen then FL_LAST else 0)
                         + (if longFormat then FL_LONG else 0);
      var size := if first then |rest| else count;
      ghost var mem := padpBuf.data[..];
      var head, data := [kind % 256, flags], rest[..tlen];
      var sizeBytes := if longFormat then LongBytes(size) else ShortBytes(size);
      padpBuf.Store(0, head);
      padpBuf.Store(2, sizeBytes);
      padpBuf.Store(headerSize, data);
      PacketParts(tx, head, sizeBytes, data);
      OverlayThrice(mem, head, sizeBytes, data);
      packet := padpBuf.data[..headerSize + tlen];
    }

    method ParseHeader(padpBuf: Buffer) returns (h: Header)
      requires padpBuf.data.Length >= 6
      ensures h == HeaderOf(padpBuf.data[..])
    {
      var bytes := padpBuf.data[..6];
      var size := if Bit(bytes[1], FL_LONG) then ToInt32(GetLong(bytes, 2)) else GetShort(bytes, 2);
      h := Header(bytes[0], bytes[1], size);
    }

    /** The branches on the packet in the buffer. */
    method JudgePacket(padpBuf: Buffer, f: Frame, rest: seq<byte>, tlen: nat, ghost tx: Sender)
      returns (verdict: Verdict)
      requires tx.Valid() && tx.phase.Waiting? && padpBuf.Valid()
      requires tx.data == State() && tx.sent == link.sent && tx.writes == link.writes && tx.mem == padpBuf.data[..]
      requires rest == tx.msg[tx.count..] && tlen == tx.FragmentLength()
      modifies this`ackedTxid, this`acked, link`sent, link`writes
      ensures State() == tx.data
      ensures Judge(tx, f) == After(verdict, tx.(sent := link.sent, writes := link.writes))
    {
      hide Transmit, Acknowledged;
      var id, padp := f.txid, f.slpType == SLP_TYPE_PADP;
      var h := ParseHeader(padpBuf);
      if padp && h.kind == PAD_DATA && id == txid && |rest| == tlen {
        return Answered;
      } else if h.kind == PAD_TICKLE {
        return KeepWaiting;  // `padpBuf.used` stays, so the next packet lands behind the tickle
      } else if padp && h.kind == PAD_ACK && id == txid {
        return if Bit(h.flags, FL_MEMERROR) then Refusal else Acked;
      } else if padp && h == acked && id == ackedTxid {
        SendAck(h, id);
        return Again;
      } else {
        return Refusal;
      }
    }

    /** One reading while an answer is due. */
    method React(padpBuf: Buffer, r: Reading, rest: seq<byte>, tlen: nat,
                 ghost buf: seq<byte>, ghost count: nat, ghost first: bool, ghost retries: int)
      returns (verdict: Verdict)
      requires padpBuf.Valid() && TxView(buf, count, first, retries, padpBuf).Valid()
      requires rest == buf[count..] && tlen == TxView(buf, count, first, retries, padpBuf).FragmentLength()
      requires r == Deliver(r, HEADER_LEN + 2 + MTU)
      modifies this`ackedTxid, this`acked, link`sent, link`writes, padpBuf, padpBuf.data
      ensures State() == old(State())
      ensures padpBuf.Valid() && (padpBuf.data == old(padpBuf.data) || fresh(padpBuf.data))
      ensures TxView(buf, count, first, retries, padpBuf).Valid() && (verdict.KeepWaiting? ==> r.Packet?)
      ensures TxStep(old(TxView(buf, count, first, retries, padpBuf)), r)
           == After(verdict, TxView(buf, count, first, retries, padpBuf))
    {
      hide After, Overlay, Judge, TxStep, Deliver;
      ghost var tx := TxView(buf, count, first, retries, padpBuf);
      if r.Packet? && r.frame.payload != [] {
        padpBuf.Append(r.frame.payload);
        ghost var got := TxView(buf, count, first, retries, padpBuf);
        StepOnPacket(tx, r.frame);
        verdict := JudgePacket(padpBuf, r.frame, rest, tlen, got);
        assert got.(sent := link.sent, writes := link.writes) == TxView(buf, count, first, retries, padpBuf);
      } else {
        StepOnSilence(tx, r);
        verdict := if r.Hangup? then Ended else Again;
      }
    }

    /** From `keepwaiting:` to the end of the retry loop's body. */
    method Await(padpBuf: Buffer, rest: seq<byte>, tlen: nat,
                 ghost buf: seq<byte>, ghost count: nat, ghost first: bool, ghost retries: int)
      returns (verdict: Verdict)
      requires padpBuf.Valid() && link.arrived == []
      requires TxView(buf, count, first, retries, padpBuf).Valid()
      requires rest == buf[count..] && tlen == TxView(buf, count, first, retries, padpBuf).FragmentLength()
      modifies this`ackedTxid, this`acked, link, padpBuf, padpBuf.data
      ensures State() == old(State()) && link.arrived == [] && |link.incoming| <= |old(link.incoming)|
      ensures padpBuf.Valid() && (padpBuf.data == old(padpBuf.data) || fresh(padpBuf.data))
      ensures TxView(buf, count, first, retries, padpBuf).Valid() && !verdict.KeepWaiting?
      ensures SameRun(old(TxView(buf, count, first, retries, padpBuf)), old(link.incoming),
                      After(verdict, TxView(buf, count, first, retries, padpBuf)), link.incoming)
    {
      hide TxRun, TxUnread, After, Overlay, SameRun, Judge, TxStep;
      ghost var start, script := TxView(buf, count, first, retries, padpBuf), link.incoming;
      SameRunReflexive(start, script);
      while true
        invariant State() == old(State()) && link.arrived == [] && |link.incoming| <= |old(link.incoming)|
        invariant padpBuf.Valid() && (padpBuf.data == old(padpBuf.data) || fresh(padpBuf.data))
        invariant TxView(buf, count, first, retries, padpBuf).Valid()
        invariant SameRun(start, script, TxView(buf, count, first, retries, padpBuf), link.incoming)
        decreases |link.incoming|
      {
        ghost var tx, readings := TxView(buf, count, first, retries, padpBuf), link.incoming;
        assert link.Readings() == readings;
        var r := link.Read(HEADER_LEN + 2 + MTU);
        assert link.Readings() == link.incoming;
        ReadOne(start, script, tx, readings, r);
        verdict := React(padpBuf, r, rest, tlen, buf, count, first, retries);
        if !verdict.KeepWaiting? {
          return;
        }
        AfterKeepWaiting(TxView(buf, count, first, retries, padpBuf));
      }
    }

    /** One try: `KeepWaiting` when a packet is out and an answer is due. */
    method SendPacket(padpBuf: Buffer, rest: seq<byte>, tlen: nat, count: nat, first: bool,
                      ghost buf: seq<byte>, ghost retries: int)
      returns (verdict: Verdict)
      requires padpBuf.Valid() && padpBuf.data.Length >= HEADER_LEN + 2 + MTU
      requires TxView(buf, count, first, retries, padpBuf).Valid() && (kind == PAD_TICKLE ==> buf == [])
      requires rest == buf[count..] && tlen == TxView(buf, count, first, retries, padpBuf).FragmentLength()
      modifies link`sent, link`writes, padpBuf`used, padpBuf.data
      ensures padpBuf.Valid() && TxView(buf, count, first, retries, padpBuf).Valid()
      ensures verdict.KeepWaiting? || verdict.Ended? || (kind == PAD_TICKLE && verdict.Answered?)
      ensures kind == PAD_TICKLE ==> !verdict.KeepWaiting?
      ensures Transmit(old(TxView(buf, count, first, retries, padpBuf)))
           == After(verdict, TxView(buf, count, first, retries, padpBuf))
    {
      ghost var tx := TxView(buf, count, first, retries, padpBuf);
      padpBuf.used := 0;
      var packet := BuildPacket(padpBuf, rest, tlen, first, count, tx);
      var w := link.Write(Frame(SLP_TYPE_PADP, txid, packet));
      hide PacketBytes, Overlay;
      // a tickle is sent once and not acknowledged
      return if w.Cut? then Ended else if kind == PAD_TICKLE then Answered else KeepWaiting;
    }

    /** The retry loop: `Again` when the retries are used up. */
    method SendFragment(padpBuf: Buffer, rest: seq<byte>, count: nat, first: bool, ghost buf: seq<byte>)
      returns (verdict: Verdict, ghost left: int)
      requires padpBuf.Valid() && padpBuf.data.Length >= HEADER_LEN + 2 + MTU && link.arrived == []
      requires count <= |buf| && rest == buf[count..]
      requires kind == PAD_TICKLE ==> buf == []
      modifies this`ackedTxid, this`acked, link, padpBuf, padpBuf.data
      ensures State() == old(State()) && link.arrived == [] && |link.incoming| <= |old(link.incoming)|
      ensures padpBuf.Valid() && (padpBuf.data == old(padpBuf.data) || fresh(padpBuf.data))
      ensures TxView(buf, count, first, left, padpBuf).Valid() && (verdict.Again? ==> left == 1)
      ensures !verdict.KeepWaiting? && (kind == PAD_TICKLE ==> verdict.Answered? || verdict.Ended?)
      ensures SameRun(Transmit(old(TxView(buf, count, first, TX_RETRIES, padpBuf))), old(link.incoming),
                      After(verdict, TxView(buf, count, first, left, padpBuf)), link.incoming)
    {
      hide TxRun, TxUnread, Acknowledged, Transmit, SameRun;
      ghost var start, script := Transmit(TxView(buf, count, first, TX_RETRIES, padpBuf)), link.incoming;
      SameRunReflexive(start, script);
      var retries := TX_RETRIES;
      while true
        invariant State() == old(State()) && link.arrived == [] && |link.incoming| <= |old(link.incoming)|
        invariant padpBuf.Valid() && (padpBuf.data == old(padpBuf.data) || fresh(padpBuf.data))
        invariant 0 < retries <= TX_RETRIES && padpBuf.data.Length >= HEADER_LEN + 2 + MTU
        invariant SameRun(start, script, Transmit(TxView(buf, count, first, retries, padpBuf)), link.incoming)
        decreases retries
      {
        var tlen := if |rest| > MTU then MTU else |rest|;
        left := retries;
        verdict := SendPacket(padpBuf, rest, tlen, count, first, buf, retries);
        if !verdict.KeepWaiting? {
          return;
        }
        ghost var out, incoming := TxView(buf, count, first, retries, padpBuf), link.incoming;
        verdict := Await(padpBuf, rest, tlen, buf, count, first, retries);
        SameRunTransitive(start, script, out, incoming,
                          After(verdict, TxView(buf, count, first, left, padpBuf)), link.incoming);
        if !verdict.Again? {
          return;
        }
        retries := retries - 1;
        if retries == 0 {
          return;
        }
      }
    }

    /** `padp_tx`. `junk` is what the freshly allocated packet buffer held. Sending a tickle with a non-empty message
      never ends, because the loop leaves before it moves on. */
    method Tx(buf: seq<byte>) returns (result: int, ghost junk: seq<byte>)
      requires kind == PAD_TICKLE ==> buf == []
      modifies this, link
      ensures |junk| == HEADER_LEN + 2 + MTU && link.arrived == []
      ensures var start := TxStart(TxPrepare(old(State()), old(connection)), buf, junk, old(link.sent),
                                   old(link.writes));
              TxOutcome(start, old(link.incoming), old(connection), result)
    {
      PrepareTx();
      var padpBuf := new Buffer(HEADER_LEN + 2 + MTU);
      junk := padpBuf.data[..];
      link.Flush();
      ghost var start, script := TxStart(State(), buf, junk, link.sent, link.writes), link.incoming;
      ghost var done: Sender;
      result, done := SendAll(padpBuf, buf);
      RunEnded(start, script, done, link.incoming);
      if result != DISCONNECTED && kind != PAD_ACK && connection == Initiated {
        txid := nextTxid % 256;
      }
    }

    /** What `Tx` leaves behind: the end of the run, told by `result`, the ids and the connection. */
    ghost predicate TxOutcome(start: Sender, script: seq<Reading>, before: Connection, result: int)
      requires start.Valid()
      reads this, link
    {
      var end := TxRun(start, script);
      && link.sent == end.sent && link.writes == end.writes && link.incoming == TxUnread(start, script)
      && (end.phase.Done? ==>
           result == end.phase.result && connection == before && State() == TxFinish(end.data, before))
      && (end.phase.Dead? ==> result == DISCONNECTED && connection == Broken && State() == end.data)
    }

    /** The loop over the fragments. */
    method SendAll(padpBuf: Buffer, buf: seq<byte>) returns (result: int, ghost done: Sender)
      requires padpBuf.Valid() && padpBuf.data.Length == HEADER_LEN + 2 + MTU && link.arrived == []
      requires kind == PAD_TICKLE ==> buf == []
      modifies this`ackedTxid, this`acked, this`connection, link, padpBuf, padpBuf.data
      ensures State() == old(State()) == done.data && link.arrived == []
      ensures done.Valid() && done.sent == link.sent && done.writes == link.writes && !done.phase.Waiting?
      ensures done.phase.Done? ==> result == done.phase.result && connection == old(connection) && result >= -1
      ensures done.phase.Dead? ==> result == DISCONNECTED && connection == Broken
      ensures SameRun(Transmit(old(TxView(buf, 0, true, TX_RETRIES, padpBuf))), old(link.incoming), done, link.incoming)
    {
      hide TxRun, TxUnread, Transmit, SameRun;
      var count, first, rest := 0, true, buf;
      ghost var start, script := Transmit(TxView(buf, 0, true, TX_RETRIES, padpBuf)), link.incoming;
      SameRunReflexive(start, script);
      while true
        invariant padpBuf.Valid() && (padpBuf.data == old(padpBuf.data) || fresh(padpBuf.data))
        invariant padpBuf.data.Length >= HEADER_LEN + 2 + MTU
        invariant State() == old(State()) && connection == old(connection)
        invariant link.arrived == [] && 0 <= count <= |buf| && rest == buf[count..]
        invariant SameRun(start, script, Transmit(TxView(buf, count, first, TX_RETRIES, padpBuf)), link.incoming)
        decreases |rest|
      {
        ghost var here, incoming := Transmit(TxView(buf, count, first, TX_RETRIES, padpBuf)), link.incoming;
        var verdict, left := SendFragment(padpBuf, rest, count, first, buf);
        done := After(verdict, TxView(buf, count, first, left, padpBuf));
        SameRunTransitive(start, script, here, incoming, done, link.incoming);
        var tlen := if |rest| > MTU then MTU else |rest|;
        if verdict.Answered? {
          return count + tlen, done;
        } else if verdict.Refusal? {
          return -1, done;
        } else if verdict.Acked? {
          rest, count, first := rest[tlen..], count + tlen, false;
          if rest == [] {
            return count, done;
          }
        } else {
          connection := Broken;
          return DISCONNECTED, done;
        }
      }
    }

    /** The id bookkeeping at the head of `padp_rx`. */
    method PrepareRx()
      modifies this
      ensures State() == RxPrepare(old(State()), connection) && connection == old(connection)
    {
      if !frozen {
        if connection == Accepted {
          if txid >= 0xfe {
            nextTxid := 1;
          } else {
            nextTxid := txid + 1;
          }
        } else {
          nextTxid := txid;
        }
      }
    }

    /** The locals of `Rx`, as a spec state. */
    ghost function RxView(padpBuf: Buffer, honour: bool, total: nat, headerSize: nat, offset: nat, out: seq<byte>,
                          phase: RxPhase): Receiver
      reads this, link, padpBuf, padpBuf.data
    {
      Receiver(State(), connection, honour, padpBuf.data[..], total, headerSize, offset, out,
               link.sent, link.writes, link.clock, phase)
    }

    /** Append what was read and correct the header size for the long format. */
    method Collect(padpBuf: Buffer, payload: seq<byte>, size: nat, ghost rx: Receiver) returns (headerSize: nat)
      requires padpBuf.Valid() && padpBuf.data.Length >= HEADER_LEN + MTU
      requires size == if padpBuf.used >= HEADER_LEN then HeaderSize(padpBuf.data[1]) else HEADER_LEN
      requires rx.mem == padpBuf.data[..] && rx.total == padpBuf.used
      modifies padpBuf, padpBuf.data
      ensures padpBuf.Valid() && padpBuf.used == old(padpBuf.used) + |payload|
      ensures padpBuf.data == old(padpBuf.data) || fresh(padpBuf.data)
      ensures padpBuf.data.Length >= HEADER_LEN + MTU
      ensures Collected(rx, payload) == rx.(mem := padpBuf.data[..], total := padpBuf.used, headerSize := headerSize)
      ensures headerSize == if padpBuf.used >= HEADER_LEN then HeaderSize(padpBuf.data[1]) else HEADER_LEN
    {
      headerSize := size;
      ghost var n := padpBuf.used;
      ghost var before := padpBuf.data[..];
      padpBuf.Append(payload);
      assert n > 1 ==> padpBuf.data[..][..n][1] == before[..n][1];
      if headerSize == HEADER_LEN && padpBuf.used >= HEADER_LEN {
        var flags := padpBuf.data[1];
        if Bit(flags, FL_LONG) {
          headerSize := headerSize + 2;
        }
      }
    }

    /** One turn of the loop below. */
    method ReadPart(padpBuf: Buffer, last: Frame, size: nat, ghost honour: bool, ghost offset: nat,
                    ghost out: seq<byte>, ghost phase: RxPhase, ghost start: Receiver, ghost script: seq<Reading>)
      returns (ok: bool, f: Frame, headerSize: nat)
      requires padpBuf.Valid() && padpBuf.data.Length >= HEADER_LEN + MTU && padpBuf.used < size
      requires size == if padpBuf.used >= HEADER_LEN then HeaderSize(padpBuf.data[1]) else HEADER_LEN
      requires (phase.First? || phase.Next?) && start.Valid()
      requires SameRx(start, script, RxView(padpBuf, honour, padpBuf.used, size, offset, out, phase), link.Readings())
      modifies link`arrived, link`incoming, padpBuf, padpBuf.data
      ensures padpBuf.Valid() && (padpBuf.data == old(padpBuf.data) || fresh(padpBuf.data))
      ensures padpBuf.data.Length >= HEADER_LEN + MTU && |link.Readings()| <= |old(link.Readings())|
      ensures headerSize == if padpBuf.used >= HEADER_LEN then HeaderSize(padpBuf.data[1]) else HEADER_LEN
      ensures ok ==>
                && SameRx(start, script,
                          Whole(RxView(padpBuf, honour, padpBuf.used, headerSize, offset, out, phase), f),
                          link.Readings())
                && |link.Readings()| < |old(link.Readings())|
      ensures !ok ==>
                && padpBuf.used == old(padpBuf.used)
                && SameRx(start, script,
                          RxView(padpBuf, honour, padpBuf.used, size, offset, out, phase).(phase := Stopped),
                          link.Readings())
    {
      hide RxRun, RxStep, SameRx, Classify, Collected, HeaderSize;
      ghost var rx, readings := RxView(padpBuf, honour, padpBuf.used, size, offset, out, phase), link.Readings();
      var r := link.Read(size + MTU - padpBuf.used);
      RxReadOne(start, script, rx, readings, r);
      ok, f, headerSize := true, last, size;
      if r.Packet? {
        f := r.frame;
        RxStepOnPacket(rx, f);
        headerSize := Collect(padpBuf, f.payload, size, rx);
      } else {
        RxStepOnSilence(rx, r);
        ok := r.Nothing?;
      }
    }

    /** Read until the header is complete; `!ok` when a read fails. `f` is the last frame read. */
    method ReadPacket(padpBuf: Buffer, ghost honour: bool, ghost offset: nat, ghost out: seq<byte>,
                      ghost phase: RxPhase)
      returns (ok: bool, f: Frame, total: nat, ghost size: nat)
      requires padpBuf.Valid() && padpBuf.used == 0 && padpBuf.data.Length >= HEADER_LEN + MTU
      requires phase.First? || phase.Next?
      modifies link`arrived, link`incoming, padpBuf, padpBuf.data
      ensures padpBuf.Valid() && (padpBuf.data == old(padpBuf.data) || fresh(padpBuf.data))
      ensures HEADER_LEN + MTU <= padpBuf.data.Length && total <= padpBuf.data.Length
      ensures ok ==> HEADER_LEN <= total && |link.Readings()| < |old(link.Readings())|
      ensures var was, now := old(RxView(padpBuf, honour, 0, HEADER_LEN, offset, out, phase)),
                              RxView(padpBuf, honour, total, size, offset, out, phase);
              SameRx(was, old(link.Readings()),
                     if ok then Classify(now, f) else now.(phase := Stopped), link.Readings())
    {
      hide RxRun, RxStep, SameRx, Classify, Collected, HeaderSize;
      ghost var start, script := RxView(padpBuf, honour, 0, HEADER_LEN, offset, out, phase), link.Readings();
      SameRxReflexive(start, script);
      total, f := 0, Frame(0, 0, []);
      var headerSize := HEADER_LEN;
      while total < headerSize
        invariant padpBuf.Valid() && (padpBuf.data == old(padpBuf.data) || fresh(padpBuf.data))
        invariant HEADER_LEN + MTU <= padpBuf.data.Length
        invariant padpBuf.used == total
        invariant headerSize == if total >= HEADER_LEN then HeaderSize(padpBuf.data[1]) else HEADER_LEN
        invariant |link.Readings()| <= |old(link.Readings())|
        invariant total > 0 ==> |link.Readings()| < |old(link.Readings())|
        invariant var rx := RxView(padpBuf, honour, total, headerSize, offset, out, phase);
                  SameRx(start, script, Whole(rx, f), link.Readings())
        decreases |link.Readings()|
      {
        size := headerSize;
        ok, f, headerSize := ReadPart(padpBuf, f, headerSize, honour, offset, out, phase, start, script);
        if !ok {
          return;
        }
        total := padpBuf.used;
      }
      ok, size := true, headerSize;
    }

    /** What is decided about the packet in the buffer; `first` tells the two receive loops apart. */
    method Screen(padpBuf: Buffer, f: Frame, first: bool, ghost rx: Receiver) returns (s: Screening, h: Header)
      requires padpBuf.data.Length >= HEADER_LEN + MTU && rx.mem == padpBuf.data[..] && rx.data == State()
      requires HEADER_LEN <= rx.total <= |rx.mem| && rx.Reading() && first == rx.phase.First?
      ensures h == HeaderOf(rx.mem) && Classify(rx, f) == Screened(s, rx, h)
    {
      hide LoopTop, TakeFragment;
      h := ParseHeader(padpBuf);
      if Bit(h.flags, FL_MEMERROR) {
        if f.txid == txid {
          return Refused, h;
        }
        return Skip, h;
      } else if h.kind == PAD_TICKLE {
        return Skip, h;
      } else if f.slpType != SLP_TYPE_PADP || h.kind != PAD_DATA || f.txid != txid || first != Bit(h.flags, FL_FIRST) {
        return Skip, h;
      }
      s := Take;
    }

    /** One of the two receive loops, left with a fragment to take, with a refusal, or (`Skip`) with an error. */
    method ReadFragment(padpBuf: Buffer, honour: bool, ghost offset: nat, ghost out: seq<byte>, first: bool)
      returns (s: Screening, h: Header, total: nat, error: int, ghost size: nat)
      requires padpBuf.Valid() && padpBuf.data.Length >= HEADER_LEN + MTU
      modifies this`connection, link`arrived, link`incoming, link`clock, padpBuf, padpBuf.data
      ensures State() == old(State())
      ensures padpBuf.Valid() && (padpBuf.data == old(padpBuf.data) || fresh(padpBuf.data))
      ensures HEADER_LEN + MTU <= padpBuf.data.Length && total <= padpBuf.data.Length
      ensures !s.Skip? ==> HEADER_LEN <= total && |link.Readings()| < |old(link.Readings())|
                           && connection == old(connection)
      ensures s.Skip? ==> error < -1
      ensures var phase := if first then First else Next;
              var was, now := old(RxView(padpBuf, honour, 0, HEADER_LEN, offset, out, phase)),
                              RxView(padpBuf, honour, total, size, offset, out, phase);
              SameRx(LoopTop(was), old(link.Readings()),
                     if s.Skip? then now.(phase := Stopped) else Screened(s, now, h), link.Readings())
    {
      hide RxRun, SameRx, Classify, TakeFragment, Screened, HeaderOf;
      ghost var phase := if first then First else Next;
      ghost var start := LoopTop(RxView(padpBuf, honour, 0, HEADER_LEN, offset, out, phase));
      ghost var script := link.Readings();
      SameRxReflexive(start, script);
      total, size := 0, HEADER_LEN;
      while true
        invariant State() == old(State()) && connection == old(connection)
        invariant padpBuf.Valid() && (padpBuf.data == old(padpBuf.data) || fresh(padpBuf.data))
        invariant HEADER_LEN + MTU <= padpBuf.data.Length && |link.Readings()| <= |script|
        invariant SameRx(start, script, LoopTop(RxView(padpBuf, honour, total, size, offset, out, phase)),
                         link.Readings())
        decreases |link.Readings()|
      {
        if honour {
          var late := link.Late();
          if late {
            connection := Broken;
            total, size := 0, HEADER_LEN;
            return Skip, Header(0, 0, 0), total, DISCONNECTED, size;
          }
        }
        padpBuf.used := 0;
        ghost var here, readings := RxView(padpBuf, honour, 0, HEADER_LEN, offset, out, phase), link.Readings();
        var ok, f;
        ok, f, total, size := ReadPacket(padpBuf, honour, offset, out, phase);
        ghost var rx := RxView(padpBuf, honour, total, size, offset, out, phase);
        SameRxTransitive(start, script, here, readings,
                         if ok then Classify(rx, f) else rx.(phase := Stopped), link.Readings());
        if !ok {
          return Skip, Header(0, 0, 0), total, TIMED_OUT, size;
        }
        s, h := Screen(padpBuf, f, first, rx);
        if !s.Skip? {
          return s, h, total, 0, size;
        }
        SkipGoesOn(rx, h);
      }
    }

    /** Acknowledge an expected fragment and append it to the caller's buffer when it is in order. */
    method Accept(buf: Buffer, padpBuf: Buffer, h: Header, total: nat, offset: nat, ghost rx: Receiver,
                  ghost out: seq<byte>, ghost base: seq<byte>)
      returns (at': nat, ghost out': seq<byte>)
      requires buf.Valid() && buf.Contents() == base + out
      requires buf.Valid() && buf != padpBuf && buf.data != padpBuf.data && padpBuf.data.Length >= HEADER_LEN + MTU
      requires HEADER_LEN <= total <= padpBuf.data.Length && rx.Reading() && !Bit(h.flags, FL_LONG)
      requires rx == RxView(padpBuf, rx.honourTimeout, total, rx.headerSize, offset, out, rx.phase)
      modifies this`ackedTxid, this`acked, link`sent, link`writes, buf, buf.data
      ensures buf.Valid() && (buf.data == old(buf.data) || fresh(buf.data))
      ensures buf.Contents() == base + out'
      ensures var now := RxView(padpBuf, rx.honourTimeout, total, rx.headerSize, at', out', rx.phase);
              TakeFragment(rx, h) == if Bit(h.flags, FL_LAST)
                                     then now.(phase := Finished(at'), data := RxFinish(now.data))
                                     else LoopTop(now.(phase := Next))
    {
      hide LoopTop, Overlay, TakeFragment, AckFrame;
      at', out' := offset, out;
      SendAck(h, txid);
      assert RxView(padpBuf, rx.honourTimeout, total, rx.headerSize, offset, out, rx.phase) == AckSent(rx, h);
      var at := if Bit(h.flags, FL_FIRST) then 0 else h.size;
      if at == offset {
        var data := padpBuf.data[HEADER_LEN..total];
        buf.Append(data);
        at', out' := offset + |data|, out + data;
        assert base + out + data == base + out';
      }
      TakeShort(rx, h, RxView(padpBuf, rx.honourTimeout, total, rx.headerSize, at', out', rx.phase));
    }

    /** What follows a receive loop: `left` when `padp_rx` ends here, `done` when it does so through `done:`. */
    method Conclude(buf: Buffer, padpBuf: Buffer, s: Screening, h: Header, total: nat, offset: nat, ghost rx: Receiver,
                    ghost out: seq<byte>, ghost base: seq<byte>)
      returns (left: bool, done: bool, result: int, at: nat, ghost out': seq<byte>)
      requires buf.Valid() && buf.Contents() == base + out
      requires buf != padpBuf && buf.data != padpBuf.data && padpBuf.data.Length >= HEADER_LEN + MTU
      requires HEADER_LEN <= total <= padpBuf.data.Length && rx.Reading() && !s.Skip?
      requires rx == RxView(padpBuf, rx.honourTimeout, total, rx.headerSize, offset, out, rx.phase)
      modifies this`ackedTxid, this`acked, link`sent, link`writes, buf, buf.data
      ensures buf.Valid() && (buf.data == old(buf.data) || fresh(buf.data))
      ensures buf.Contents() == base + out'
      ensures var end := Screened(s, rx, h);
              if left then
                && !end.Reading() && !end.phase.Stopped? && done == end.phase.Finished? && out' == end.out
                && (done ==> result == end.phase.result)
                && end.data == (if done then RxFinish(State()) else State())
                && link.sent == end.sent && link.writes == end.writes && connection == end.connection
              else end == LoopTop(RxView(padpBuf, rx.honourTimeout, total, rx.headerSize, at, out', Next))
    {
      hide LoopTop, TakeFragment, Overlay, HeaderOf, Bit, AckFrame;
      left, done, result, at, out' := true, true, -1, offset, out;
      if s.Refused? {
        return;
      } else if Bit(h.flags, FL_LONG) {
        LongStops(rx, h);
        done := false;
        return;
      }
      at, out' := Accept(buf, padpBuf, h, total, offset, rx, out, base);
      result := at;
      left := Bit(h.flags, FL_LAST);
    }

    /** The two receive loops. */
    method ReceiveAll(buf: Buffer, padpBuf: Buffer, honour: bool)
      returns (done: bool, result: int, ghost end: Receiver)
      requires buf.Valid() && padpBuf.Valid() && buf != padpBuf && buf.data != padpBuf.data
      requires padpBuf.data.Length >= HEADER_LEN + MTU
      modifies this`connection, this`ackedTxid, this`acked, link, buf, buf.data, padpBuf, padpBuf.data
      ensures buf.Valid() && buf.Contents() == old(buf.Contents()) + end.out
      ensures txid == old(txid) && nextTxid == old(nextTxid)
      ensures end.Valid() && !end.Reading() && connection == end.connection && link.sent == end.sent
      ensures link.writes == end.writes
      ensures end.data == if end.phase.Finished? then RxFinish(State()) else State()
      ensures end.phase.Finished? ==> result == end.phase.result
      ensures end.phase.Stopped? ==> result < -1
      ensures done == end.phase.Finished?
      ensures SameRx(LoopTop(old(RxView(padpBuf, honour, 0, HEADER_LEN, 0, [], First))), old(link.Readings()),
                     end, link.Readings())
    {
      hide RxRun, SameRx, LoopTop, TakeFragment, Overlay, HeaderOf, Bit, AckFrame, Screened;
      var at: nat := 0;
      ghost var out: seq<byte> := [];
      ghost var start, script := LoopTop(RxView(padpBuf, honour, 0, HEADER_LEN, 0, [], First)), link.Readings();
      SameRxReflexive(start, script);
      var first := true;
      ghost var here, base := start, buf.Contents();
      while true
        invariant buf.Valid() && (buf.data == old(buf.data) || fresh(buf.data)) && buf != padpBuf
        invariant buf.data != padpBuf.data
        invariant padpBuf.Valid() && (padpBuf.data == old(padpBuf.data) || fresh(padpBuf.data))
        invariant HEADER_LEN + MTU <= padpBuf.data.Length
        invariant txid == old(txid) && nextTxid == old(nextTxid)
        invariant buf.Contents() == base + out
        invariant here == LoopTop(RxView(padpBuf, honour, 0, HEADER_LEN, at, out, if first then First else Next))
        invariant SameRx(start, script, here, link.Readings())
        decreases |link.Readings()|
      {
        ghost var readings := link.Readings();
        var s: Screening, h: Header, total: nat, error: int;
        ghost var size: nat;
        s, h, total, error, size := ReadFragment(padpBuf, honour, at, out, first);
        ghost var rx := RxView(padpBuf, honour, total, size, at, out, if first then First else Next);
        end := if s.Skip? then rx.(phase := Stopped) else Screened(s, rx, h);
        SameRxTransitive(start, script, here, readings, end, link.Readings());
        if s.Skip? {
          return false, error, end;
        }
        var left;
        left, done, result, at, out := Conclude(buf, padpBuf, s, h, total, at, rx, out, base);
        if left {
          return;
        }
        first := false;
        here := end;
        LoopTopForgets(RxView(padpBuf, honour, total, size, at, out, Next));
      }
    }

    /** `padp_rx`. `junk` is what the freshly allocated packet buffer held. */
    method Rx(buf: Buffer, honour: bool) returns (result: int, ghost end: Receiver, ghost junk: seq<byte>)
      requires buf.Valid()
      modifies this, link, buf, buf.data
      ensures |junk| == HEADER_LEN + MTU && buf.Valid()
      ensures end == RxRun(RxStart(RxPrepare(old(State()), old(connection)), old(connection), honour, junk,
                                   old(link.sent), old(link.writes), old(link.clock)), old(link.Readings()))
      ensures buf.Contents() == old(buf.Contents()) + end.out
      ensures State() == end.data && connection == end.connection && link.sent == end.sent && link.writes == end.writes
      ensures end.phase.Finished? ==> result == end.phase.result
      ensures end.phase.Stopped? ==> result < -1
    {
      hide RxRun, SameRx, LoopTop;
      PrepareRx();
      var padpBuf := new Buffer(HEADER_LEN + MTU);
      junk := padpBuf.data[..];
      ghost var start, script := LoopTop(RxView(padpBuf, honour, 0, HEADER_LEN, 0, [], First)), link.Readings();
      var done;
      done, result, end := ReceiveAll(buf, padpBuf, honour);
      RxEnded(start, script, end, link.Readings());
      if done {
        txid := nextTxid % 256;
      }
    }
  }

  lemma PacketParts(tx: Sender, head: seq<byte>, size: seq<byte>, data: seq<byte>)
    requires tx.count <= |tx.msg|
    requires head == [tx.data.kind % 256, PacketFlags(tx)]
    requires var n := if tx.first then tx.Remaining() else tx.count;
             size == if tx.data.longFormat then LongBytes(n) else ShortBytes(n)
    requires data == tx.msg[tx.count..][..tx.FragmentLength()]
    ensures PacketBytes(tx) == head + size + data
  {
    hide LongBytes, ShortBytes;
    FlagsTellFormat(tx);
    assert data == tx.msg[tx.count..tx.count + tx.FragmentLength()];
  }

  lemma FlagsTellFormat(tx: Sender)
    ensures Bit(PacketFlags(tx), FL_LONG) == tx.data.longFormat
  {
  }

  /** Copies into adjoining places are one copy. */
  lemma OverlayThrice(mem: seq<byte>, a: seq<byte>, b: seq<byte>, c: seq<byte>)
    requires |a| + |b| + |c| <= |mem|
    ensures Overlay(Overlay(Overlay(mem, 0, a), |a|, b), |a| + |b|, c) == Overlay(mem, 0, a + b + c)
    ensures Overlay(mem, 0, a + b + c)[..|a| + |b| + |c|] == a + b + c
  {
    var r := Overlay(mem, 0, a + b + c);
    assert r[0..|a + b + c|] == a + b + c;
  }
}
