/** The behaviour of the PADP layer (libpisock/padp.c) as two step functions: what a transmitter and a receiver do with
  each result of a read from the layer below. `Padp.dfy` proves the loops of `padp_tx` and `padp_rx` against them. */
module PadpSpec {
  import opened Bytes

  const SLP_TYPE_PADP: byte := 2

  const PAD_DATA := 0x01
  const PAD_WAKE := 0x101
  const PAD_ACK := 0x02
  const PAD_TICKLE := 0x04

  const FL_FIRST := 0x80
  const FL_LAST := 0x40
  const FL_MEMERROR := 0x20
  const FL_LONG := 0x10

  const HEADER_LEN := 4
  const MTU := 1024
  const TX_RETRIES := 10

  /** What the layer below carries: its packet type, its transaction id and the bytes handed to it. */
  datatype Frame = Frame(slpType: byte, txid: byte, payload: seq<byte>)

  /** The result of one read: a packet, zero (checksum failure), a timeout or other error, or a lost connection. */
  datatype Reading = Packet(frame: Frame) | Nothing | Failed | Hangup

  /** The result of one write. A write that fails sends nothing. */
  datatype Writing = Sent | Lost | Cut

  /** `struct padp` */
  datatype Header = Header(kind: byte, flags: byte, size: int)

  /** `ps->state` */
  datatype Connection = Accepted | Initiated | Broken | Other

  /** `struct pi_padp_data` */
  datatype Data = Data(kind: int, frozen: bool, longFormat: bool, txid: byte, nextTxid: nat,
                       ackedTxid: byte, acked: Header)

  predicate IsTickle(d: Data) { d.kind == PAD_TICKLE }

  /** A read asks for at most `limit` bytes; the layer below reports a longer packet as an error. */
  function Deliver(r: Reading, limit: int): (r': Reading)
    ensures r'.Packet? ==> r' == r && |r'.frame.payload| <= limit
  {
    if r.Packet? && |r.frame.payload| > limit then Failed else r
  }

  function HeaderSize(flags: byte): (n: nat)
    ensures n == HEADER_LEN || n == HEADER_LEN + 2
  {
    if Bit(flags, FL_LONG) then HEADER_LEN + 2 else HEADER_LEN
  }

  function HeaderOf(mem: seq<byte>): Header
    requires |mem| >= 6
  {
    Header(mem[0], mem[1], if Bit(mem[1], FL_LONG) then ToInt32(GetLong(mem, 2)) else GetShort(mem, 2))
  }

  function HeaderBytes(kind: int, flags: byte, size: int): (s: seq<byte>)
    ensures |s| == HeaderSize(flags) && s[0] == kind % 256 && s[1] == flags
  {
    [kind % 256, flags] + if Bit(flags, FL_LONG) then LongBytes(size) else ShortBytes(size)
  }

  /** The packet `padp_sendack` builds for a packet with header `h`. */
  function AckFrame(h: Header, txid: byte): Frame {
    Frame(SLP_TYPE_PADP, txid, HeaderBytes(PAD_ACK, h.flags, h.size))
  }

  // ---- transaction ids -------------------------------------------------------------------------------------------

  function NextTxid(txid: byte): (n: byte)
    ensures n != 0
  {
    if txid >= 0xfe then 1 else txid + 1
  }

  /** The id bookkeeping at the head of `padp_tx`. */
  function TxPrepare(d: Data, c: Connection): Data {
    var woken := if d.kind == PAD_WAKE then d.(txid := 0xff) else d;
    var stepped := if woken.frozen then woken
                   else if woken.txid == 0 then woken.(txid := 0x10)
                   else woken.(nextTxid := NextTxid(woken.txid));
    if d.kind != PAD_ACK && c == Accepted then stepped.(txid := stepped.nextTxid % 256) else stepped
  }

  /** ... and at its `done:` label. */
  function TxFinish(d: Data, c: Connection): Data {
    if d.kind != PAD_ACK && c == Initiated then d.(txid := d.nextTxid % 256) else d
  }

  /** The id bookkeeping at the head of `padp_rx`. */
  function RxPrepare(d: Data, c: Connection): Data {
    if d.frozen then d
    else d.(nextTxid := if c == Accepted then NextTxid(d.txid) else d.txid)
  }

  function RxFinish(d: Data): Data {
    d.(txid := d.nextTxid % 256)
  }

  /** `padp_setsockopt` for PI_PADP_FREEZE_TXID. */
  function Freeze(d: Data, on: bool): Data {
    var thawed := if d.frozen && !on then d.(nextTxid := if d.nextTxid + 1 >= 0xfe then 1 else d.nextTxid + 1) else d;
    thawed.(frozen := on)
  }

  // ---- transmitter -----------------------------------------------------------------------------------------------

  /** `Waiting`: a packet is out and `padp_tx` reads; `Done`: it returned `result`; `Dead`: the connection broke. */
  datatype TxPhase = Waiting | Done(result: int) | Dead

  /** The locals of `padp_tx`. `mem` and `used` are its packet buffer, which is both sent from and read into. `sent` is
    what the layer below has taken so far and `writes` are the results of the writes to come (`Sent` when used up). */
  datatype Sender = Sender(data: Data, msg: seq<byte>, count: nat, first: bool, retries: int,
                   mem: seq<byte>, used: nat, sent: seq<Frame>, writes: seq<Writing>, phase: TxPhase)
  {
    ghost predicate Valid() {
      && count <= |msg| && used <= |mem| && |mem| >= HEADER_LEN + 2 + MTU
      && (phase.Waiting? ==> 0 < retries <= TX_RETRIES)
    }

    function Remaining(): int { |msg| - count }

    function FragmentLength(): int { if Remaining() > MTU then MTU else Remaining() }

    predicate AtLastFragment() { Remaining() == FragmentLength() }

    function WriteResult(): Writing { if writes == [] then Sent else writes[0] }

    /** One write to the layer below. */
    function Write(f: Frame): Sender {
      this.(sent := if WriteResult().Sent? then sent + [f] else sent,
            writes := if writes == [] then [] else writes[1..])
    }
  }

  function PacketFlags(tx: Sender): byte {
    (if tx.first then FL_FIRST else 0) + (if tx.AtLastFragment() then FL_LAST else 0)
    + (if tx.data.longFormat then FL_LONG else 0)
  }

  /** The packet for the fragment at `count`. */
  function PacketBytes(tx: Sender): seq<byte>
    requires tx.count <= |tx.msg|
  {
    HeaderBytes(tx.data.kind, PacketFlags(tx), if tx.first then tx.Remaining() else tx.count)
    + tx.msg[tx.count..tx.count + tx.FragmentLength()]
  }

  /** Build the packet, send it and, unless it is a tickle, wait. */
  function Transmit(tx: Sender): (r: Sender)
    requires tx.Valid() && tx.phase.Waiting?
    ensures r.Valid() && r.msg == tx.msg && r.data == tx.data
  {
    var packet := PacketBytes(tx);
    var built := tx.(used := 0, mem := Overlay(tx.mem, 0, packet));
    var written := built.Write(Frame(SLP_TYPE_PADP, tx.data.txid, packet));
    if built.WriteResult().Cut? then written.(phase := Dead)
    else if IsTickle(tx.data) then written.(phase := Done(tx.count))
    else written
  }

  /** The tail of the retry loop. */
  function NextTry(tx: Sender): (r: Sender)
    requires tx.Valid() && tx.phase.Waiting?
    ensures r.Valid() && r.msg == tx.msg && r.data == tx.data
  {
    if tx.retries == 1 then tx.(retries := 0, phase := Dead) else Transmit(tx.(retries := tx.retries - 1))
  }

  /** An acknowledgement moves on to the next fragment, if any. */
  function Acknowledged(tx: Sender): (r: Sender)
    requires tx.Valid() && tx.phase.Waiting?
    ensures r.Valid() && r.msg == tx.msg && r.data == tx.data
  {
    var moved := tx.(count := tx.count + tx.FragmentLength(), first := false);
    if moved.count == |tx.msg| then moved.(phase := Done(moved.count))
    else Transmit(moved.(retries := TX_RETRIES))
  }

  /** The branches of `padp_tx` on the packet in its buffer: `f` was the last one read. */
  function Judge(tx: Sender, f: Frame): (r: Sender)
    requires tx.Valid() && tx.phase.Waiting?
    ensures r.Valid() && r.msg == tx.msg && r.data == tx.data
  {
    var h := HeaderOf(tx.mem);
    var padp := f.slpType == SLP_TYPE_PADP;
    if padp && h.kind == PAD_DATA && f.txid == tx.data.txid && tx.AtLastFragment() then
      tx.(phase := Done(tx.count + tx.FragmentLength()))
    else if h.kind == PAD_TICKLE then tx
    else if padp && h.kind == PAD_ACK && f.txid == tx.data.txid then
      if Bit(h.flags, FL_MEMERROR) then tx.(phase := Done(-1)) else Acknowledged(tx)
    else if padp && h == tx.data.acked && f.txid == tx.data.ackedTxid then
      NextTry(tx.Write(AckFrame(h, f.txid)))
    else tx.(phase := Done(-1))
  }

  /** What `padp_tx` does with one reading. A packet is appended to the buffer behind what it already holds. */
  function TxStep(tx: Sender, r: Reading): (r': Sender)
    requires tx.Valid() && tx.phase.Waiting?
    ensures r'.Valid() && r'.msg == tx.msg && r'.data == tx.data
  {
    match Deliver(r, HEADER_LEN + 2 + MTU)
    case Packet(f) =>
      if f.payload == [] then NextTry(tx)
      else Judge(tx.(mem := Overlay(tx.mem, tx.used, f.payload), used := tx.used + |f.payload|), f)
    case Hangup => tx.(phase := Dead)
    case _ => NextTry(tx)
  }

  /** The whole run: `readings` first, then nothing but timeouts. */
  function TxRun(tx: Sender, readings: seq<Reading>): (r: Sender)
    requires tx.Valid()
    ensures r.Valid() && !r.phase.Waiting? && r.msg == tx.msg && r.data == tx.data
    decreases |readings|, tx.retries
  {
    if !tx.phase.Waiting? then tx
    else if readings == [] then TxRun(TxStep(tx, Failed), [])
    else TxRun(TxStep(tx, readings[0]), readings[1..])
  }

  /** The readings the run uses up. */
  function TxUnread(tx: Sender, readings: seq<Reading>): seq<Reading>
    requires tx.Valid()
    decreases |readings|
  {
    if !tx.phase.Waiting? || readings == [] then readings
    else TxUnread(TxStep(tx, readings[0]), readings[1..])
  }

  /** How one wait ends: with the peer's answer, a refusal (memory error or unknown packet), a lost connection, an
    acknowledgement, or nothing, so that another try is due; or a tickle says to keep waiting. */
  datatype Verdict = Answered | Refusal | Ended | Acked | Again | KeepWaiting

  function After(v: Verdict, tx: Sender): (r: Sender)
    requires tx.Valid() && tx.phase.Waiting?
    ensures r.Valid() && r.msg == tx.msg && r.data == tx.data
  {
    match v
    case Answered => tx.(phase := Done(tx.count + tx.FragmentLength()))
    case Refusal => tx.(phase := Done(-1))
    case Ended => tx.(phase := Dead)
    case Acked => Acknowledged(tx)
    case Again => NextTry(tx)
    case KeepWaiting => tx
  }

  /** Two states of a transmission, each with the readings to come, lead to the same end. */
  ghost predicate SameRun(a: Sender, readings: seq<Reading>, b: Sender, readings': seq<Reading>)
    requires a.Valid() && b.Valid()
  {
    TxRun(a, readings) == TxRun(b, readings') && TxUnread(a, readings) == TxUnread(b, readings')
  }

  lemma SameRunReflexive(a: Sender, readings: seq<Reading>)
    requires a.Valid()
    ensures SameRun(a, readings, a, readings)
  {
  }

  lemma SameRunTransitive(a: Sender, r: seq<Reading>, b: Sender, r': seq<Reading>, c: Sender, r'': seq<Reading>)
    requires a.Valid() && b.Valid() && c.Valid()
    requires SameRun(a, r, b, r') && SameRun(b, r', c, r'')
    ensures SameRun(a, r, c, r'')
  {
    hide TxRun, TxUnread;
  }

  lemma ReadOne(a: Sender, script: seq<Reading>, tx: Sender, readings: seq<Reading>, r: Reading)
    requires a.Valid() && tx.Valid() && tx.phase.Waiting?
    requires SameRun(a, script, tx, readings)
    requires r == Deliver(if readings == [] then Failed else readings[0], HEADER_LEN + 2 + MTU)
    ensures SameRun(a, script, TxStep(tx, r), if readings == [] then [] else readings[1..])
  {
    hide Judge, NextTry;
    assert Deliver(r, HEADER_LEN + 2 + MTU) == r;
  }

  lemma StepOnPacket(tx: Sender, f: Frame)
    requires tx.Valid() && tx.phase.Waiting? && 0 < |f.payload| <= HEADER_LEN + 2 + MTU
    ensures var got := tx.(mem := Overlay(tx.mem, tx.used, f.payload), used := tx.used + |f.payload|);
            got.Valid() && TxStep(tx, Packet(f)) == Judge(got, f)
  {
    hide Judge, NextTry, Overlay;
  }

  lemma StepOnSilence(tx: Sender, r: Reading)
    requires tx.Valid() && tx.phase.Waiting? && (r.Packet? ==> r.frame.payload == [])
    ensures TxStep(tx, r) == After(if r.Hangup? then Ended else Again, tx)
  {
  }

  lemma RunEnded(a: Sender, script: seq<Reading>, b: Sender, unread: seq<Reading>)
    requires a.Valid() && b.Valid() && !b.phase.Waiting?
    requires SameRun(a, script, b, unread)
    ensures TxRun(a, script) == b && TxUnread(a, script) == unread
  {
  }

  function TxStart(d: Data, msg: seq<byte>, mem: seq<byte>, sent: seq<Frame>, writes: seq<Writing>): (tx: Sender)
    requires |mem| >= HEADER_LEN + 2 + MTU
    ensures tx.Valid()
  {
    Transmit(Sender(d, msg, 0, true, TX_RETRIES, mem, 0, sent, writes, Waiting))
  }

  // ---- receiver --------------------------------------------------------------------------------------------------

  /** `First`: no fragment yet; `Next`: inside a message; `Finished`: through `done:`; `Stopped`: an error return;
    `Unmodelled`: a data fragment in long format arrived, whose handling is not part of this model. */
  datatype RxPhase = First | Next | Finished(result: int) | Stopped | Unmodelled

  /** The locals of `padp_rx`. `total` bytes of the packet being read are in `mem`; `out` is what was appended to the
    caller's buffer. `clock` says at each later check whether the deadline has passed (never when used up). */
  datatype Receiver = Receiver(data: Data, connection: Connection, honourTimeout: bool, mem: seq<byte>, total: nat,
                               headerSize: nat, offset: nat, out: seq<byte>, sent: seq<Frame>, writes: seq<Writing>,
                               clock: seq<bool>, phase: RxPhase)
  {
    ghost predicate Valid() {
      && |mem| >= HEADER_LEN + MTU && total <= |mem|
      && (phase.First? || phase.Next? ==> total < headerSize && (headerSize == 4 || headerSize == 6))
    }

    predicate Reading() { phase.First? || phase.Next? }

    function WriteResult(): Writing { if writes == [] then Sent else writes[0] }

    function Write(f: Frame): Receiver {
      this.(sent := if WriteResult().Sent? then sent + [f] else sent,
            writes := if writes == [] then [] else writes[1..])
    }

    predicate Expired() { honourTimeout && clock != [] && clock[0] }
  }

  /** The head of both receive loops: check the clock and start on a fresh packet. */
  function LoopTop(rx: Receiver): (r: Receiver)
    requires |rx.mem| >= HEADER_LEN + MTU && rx.Reading()
    ensures r.Valid()
  {
    var ticked := if !rx.honourTimeout || rx.clock == [] then rx else rx.(clock := rx.clock[1..]);
    var empty := ticked.(total := 0, headerSize := HEADER_LEN);
    if rx.Expired() then empty.(phase := Stopped, connection := Broken) else empty
  }

  /** `padp_sendack` from the receive loop: a successful write records what was acknowledged. */
  function AckSent(rx: Receiver, h: Header): Receiver
  {
    var written := rx.Write(AckFrame(h, rx.data.txid));
    if rx.WriteResult().Sent? then written.(data := rx.data.(ackedTxid := rx.data.txid, acked := h)) else written
  }

  /** An expected fragment: acknowledge it, append it if it is in order, and finish if it is flagged as the last. */
  function TakeFragment(rx: Receiver, h: Header): (r: Receiver)
    requires |rx.mem| >= HEADER_LEN + MTU && HEADER_LEN <= rx.total <= |rx.mem| && rx.Reading()
    ensures r.Valid()
  {
    if Bit(h.flags, FL_LONG) then rx.(phase := Unmodelled)
    else
      var acked := AckSent(rx, h);
      var at := if Bit(h.flags, FL_FIRST) then 0 else h.size;
      var data := rx.mem[HEADER_LEN..rx.total];
      var taken := if at == rx.offset then acked.(out := rx.out + data, offset := rx.offset + |data|) else acked;
      if Bit(h.flags, FL_LAST) then taken.(phase := Finished(taken.offset), data := RxFinish(taken.data))
      else LoopTop(taken.(phase := Next))
  }

  /** A whole packet is in `mem`; `f` was the last frame read. */
  function Classify(rx: Receiver, f: Frame): (r: Receiver)
    requires |rx.mem| >= HEADER_LEN + MTU && HEADER_LEN <= rx.total <= |rx.mem| && rx.Reading()
    ensures r.Valid()
  {
    var h := HeaderOf(rx.mem);
    if Bit(h.flags, FL_MEMERROR) then
      if f.txid == rx.data.txid then rx.(phase := Finished(-1), data := RxFinish(rx.data)) else LoopTop(rx)
    else if h.kind == PAD_TICKLE then LoopTop(rx)
    else if f.slpType != SLP_TYPE_PADP || h.kind != PAD_DATA || f.txid != rx.data.txid
         || Bit(h.flags, FL_FIRST) != rx.phase.First? then LoopTop(rx)
    else TakeFragment(rx, h)
  }

  /** The bytes of one more frame, and the size of the header as far as it is known. */
  function Collected(rx: Receiver, payload: seq<byte>): Receiver
    requires |rx.mem| >= HEADER_LEN + MTU && rx.total <= |rx.mem|
  {
    var mem, total := Overlay(rx.mem, rx.total, payload), rx.total + |payload|;
    rx.(mem := mem, total := total, headerSize := if total >= HEADER_LEN then HeaderSize(mem[1]) else HEADER_LEN)
  }

  /** Go on reading while the header is incomplete. */
  function Whole(rx: Receiver, f: Frame): (r: Receiver)
    requires |rx.mem| >= HEADER_LEN + MTU && rx.total <= |rx.mem| && rx.Reading()
    requires rx.headerSize == HEADER_LEN || rx.headerSize == HEADER_LEN + 2
    ensures r.Valid()
  {
    if rx.total < rx.headerSize then rx else Classify(rx, f)
  }

  /** What `padp_rx` does with one reading: collect a header's worth of bytes, then classify the packet. */
  function RxStep(rx: Receiver, r: Reading): (r': Receiver)
    requires rx.Valid() && rx.Reading()
    ensures r'.Valid()
  {
    match Deliver(r, rx.headerSize + MTU - rx.total)
    case Packet(f) =>
      Whole(Collected(rx, f.payload), f)
    case Nothing => rx
    case _ => rx.(phase := Stopped)
  }

  /** The whole run: `readings` first, then a read error. */
  function RxRun(rx: Receiver, readings: seq<Reading>): (r: Receiver)
    requires rx.Valid()
    ensures r.Valid() && !r.Reading()
    decreases |readings|
  {
    if !rx.Reading() then rx
    else if readings == [] then RxStep(rx, Failed)
    else RxRun(RxStep(rx, readings[0]), readings[1..])
  }

  function RxStart(d: Data, c: Connection, honourTimeout: bool, mem: seq<byte>, sent: seq<Frame>, writes: seq<Writing>,
                   clock: seq<bool>): (rx: Receiver)
    requires |mem| >= HEADER_LEN + MTU
    ensures rx.Valid()
  {
    LoopTop(Receiver(d, c, honourTimeout, mem, 0, HEADER_LEN, 0, [], sent, writes, clock, First))
  }

  /** What is decided about a packet before it is taken. */
  datatype Screening = Refused | Skip | Take

  function Screened(s: Screening, rx: Receiver, h: Header): (r: Receiver)
    requires |rx.mem| >= HEADER_LEN + MTU && HEADER_LEN <= rx.total <= |rx.mem| && rx.Reading()
    ensures r.Valid()
  {
    match s
    case Refused => rx.(phase := Finished(-1), data := RxFinish(rx.data))
    case Skip => LoopTop(rx)
    case Take => TakeFragment(rx, h)
  }

  lemma SkipGoesOn(rx: Receiver, h: Header)
    requires |rx.mem| >= HEADER_LEN + MTU && HEADER_LEN <= rx.total <= |rx.mem| && rx.Reading()
    ensures Screened(Skip, rx, h) == LoopTop(rx)
  {
  }

  /** Two states of a reception, each with the readings to come, lead to the same end. */
  ghost predicate SameRx(a: Receiver, readings: seq<Reading>, b: Receiver, readings': seq<Reading>)
    requires a.Valid() && b.Valid()
  {
    RxRun(a, readings) == RxRun(b, readings')
  }

  lemma SameRxReflexive(a: Receiver, readings: seq<Reading>)
    requires a.Valid()
    ensures SameRx(a, readings, a, readings)
  {
  }

  lemma SameRxTransitive(a: Receiver, r: seq<Reading>, b: Receiver, r': seq<Reading>, c: Receiver, r'': seq<Reading>)
    requires a.Valid() && b.Valid() && c.Valid()
    requires SameRx(a, r, b, r') && SameRx(b, r', c, r'')
    ensures SameRx(a, r, c, r'')
  {
    hide RxRun;
  }

  lemma RxReadOne(a: Receiver, script: seq<Reading>, rx: Receiver, readings: seq<Reading>, r: Reading)
    requires a.Valid() && rx.Valid() && rx.Reading()
    requires SameRx(a, script, rx, readings)
    requires r == Deliver(if readings == [] then Failed else readings[0], rx.headerSize + MTU - rx.total)
    ensures SameRx(a, script, RxStep(rx, r), if readings == [] then [] else readings[1..])
  {
    hide Classify;
    assert Deliver(r, rx.headerSize + MTU - rx.total) == r;
  }

  lemma RxEnded(a: Receiver, script: seq<Reading>, b: Receiver, unread: seq<Reading>)
    requires a.Valid() && b.Valid() && !b.Reading()
    requires SameRx(a, script, b, unread)
    ensures RxRun(a, script) == b
  {
  }

  lemma RxStepOnSilence(rx: Receiver, r: Reading)
    requires rx.Valid() && rx.Reading() && !r.Packet?
    ensures RxStep(rx, r) == if r.Nothing? then rx else rx.(phase := Stopped)
  {
  }

  lemma RxStepOnPacket(rx: Receiver, f: Frame)
    requires rx.Valid() && rx.Reading() && |f.payload| <= rx.headerSize + MTU - rx.total
    ensures RxStep(rx, Packet(f)) == Whole(Collected(rx, f.payload), f)
  {
    hide Whole, Collected;
  }

  lemma AfterKeepWaiting(tx: Sender)
    requires tx.Valid() && tx.phase.Waiting?
    ensures After(KeepWaiting, tx) == tx
  {
  }

  /** A fragment in the short format, its parts as the receive loop computes them. */
  lemma TakeShort(rx: Receiver, h: Header, taken: Receiver)
    requires |rx.mem| >= HEADER_LEN + MTU && HEADER_LEN <= rx.total <= |rx.mem| && rx.Reading()
    requires !Bit(h.flags, FL_LONG)
    requires var data := rx.mem[HEADER_LEN..rx.total];
             taken == if (if Bit(h.flags, FL_FIRST) then 0 else h.size) == rx.offset
                      then AckSent(rx, h).(out := rx.out + data, offset := rx.offset + |data|) else AckSent(rx, h)
    ensures TakeFragment(rx, h) == if Bit(h.flags, FL_LAST)
                                   then taken.(phase := Finished(taken.offset), data := RxFinish(taken.data))
                                   else LoopTop(taken.(phase := Next))
  {
    hide LoopTop, AckSent;
  }

  lemma LongStops(rx: Receiver, h: Header)
    requires |rx.mem| >= HEADER_LEN + MTU && HEADER_LEN <= rx.total <= |rx.mem| && rx.Reading()
    requires Bit(h.flags, FL_LONG)
    ensures TakeFragment(rx, h) == rx.(phase := Unmodelled)
  {
  }

  lemma LoopTopForgets(rx: Receiver)
    requires |rx.mem| >= HEADER_LEN + MTU && rx.Reading()
    ensures LoopTop(rx) == LoopTop(rx.(total := 0, headerSize := HEADER_LEN))
  {
  }
}
