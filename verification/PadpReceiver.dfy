/** What a reception delivers: never anything but a prefix of the message, whatever the link does to its fragments. */
module PadpReceiver {
  import opened Bytes
  import opened PadpSpec
  import opened PadpSender

  /** A frame that is not a data fragment of the transaction `txid`: a tickle, a packet of another transaction or
    another protocol, an error notice. It is in the short format and complete. */
  predicate Foreign(f: Frame, txid: byte) {
    && |f.payload| >= HEADER_LEN && !Bit(f.payload[1], FL_LONG)
    && !(f.slpType == SLP_TYPE_PADP && f.payload[0] == PAD_DATA && f.txid == txid)
  }

  ghost predicate IsFragment(f: Frame, msg: seq<byte>, txid: byte) {
    exists at: nat :: IsCut(msg, at) && f == FragmentFrame(msg, at, txid, false)
  }

  /** What the link may report while `msg` is sent: any of its fragments, in any order and any number of times, foreign
    frames, damaged packets, errors. */
  ghost predicate Honest(r: Reading, msg: seq<byte>, txid: byte) {
    r.Packet? ==> IsFragment(r.frame, msg, txid) || Foreign(r.frame, txid)
  }

  /** Between two packets. */
  predicate Fresh(rx: Receiver) { rx.Reading() && rx.total == 0 && rx.headerSize == HEADER_LEN }

  ghost predicate ReceiverInvariant(rx: Receiver, msg: seq<byte>, txid: byte) {
    && rx.Valid() && rx.offset == |rx.out| && rx.out <= msg
    && (rx.Reading() ==> Fresh(rx) && rx.data.txid == txid)
    && (rx.phase.Finished? ==> rx.phase.result == -1 || rx.phase.result == rx.offset)
    && (rx.phase.First? ==> rx.offset == 0) && (rx.phase.Next? ==> 0 < rx.offset < |msg|)
    && !rx.phase.Unmodelled?
  }

  /** A complete packet in the short format is classified at once. */
  lemma ReadsWholePacket(rx: Receiver, f: Frame)
    requires rx.Valid() && Fresh(rx)
    requires HEADER_LEN <= |f.payload| <= HEADER_LEN + MTU && !Bit(f.payload[1], FL_LONG)
    ensures var got := Holding(rx, f.payload);
            && RxStep(rx, Packet(f)) == Classify(got, f)
            && HeaderOf(got.mem) == Header(f.payload[0], f.payload[1], GetShort(f.payload, 2))
            && got.mem[HEADER_LEN..got.total] == f.payload[HEADER_LEN..]
  {
    hide Classify, Overlay;
    RxStepOnPacket(rx, f);
    var mem := Overlay(rx.mem, 0, f.payload);
    assert mem[0..|f.payload|] == f.payload;
    assert forall k :: 0 <= k < |f.payload| ==> mem[k] == mem[0..|f.payload|][k];
  }

  /** The receiver with one complete packet in its buffer. */
  function Holding(rx: Receiver, payload: seq<byte>): Receiver
    requires |rx.mem| >= HEADER_LEN + MTU
  {
    rx.(mem := Overlay(rx.mem, 0, payload), total := |payload|, headerSize := HEADER_LEN)
  }

  /** The header and the contents of a fragment of a message of at most 65536 bytes. */
  lemma FragmentParts(msg: seq<byte>, at: nat, txid: byte)
    requires |msg| <= 0x1_0000 && IsCut(msg, at)
    ensures var p := FragmentFrame(msg, at, txid, false).payload;
            && HEADER_LEN <= |p| <= HEADER_LEN + MTU
            && p[0] == PAD_DATA && p[1] == FragmentFlags(msg, at, false)
            && (at != 0 ==> GetShort(p, 2) == at)
            && p[HEADER_LEN..] == msg[at..CutEnd(msg, at)]
  {
    hide FragmentFlags;
    var p := FragmentFrame(msg, at, txid, false).payload;
    assert p[2..4] == ShortBytes(if at == 0 then |msg| else at);
    ShortRoundTrip(p, 2, if at == 0 then |msg| else at);
  }

  /** A fragment is taken when it is the first of the message and none was taken before, or a later one after that. */
  predicate Expects(rx: Receiver, at: nat) { rx.phase.First? == (at == 0) }

  /** The effect of a fragment on a receiver that holds `offset` bytes of the message: anything but the fragment at that
    offset leaves the bytes alone, and LAST ends the reception whatever the offset. */
  ghost predicate FragmentEffect(rx: Receiver, msg: seq<byte>, at: nat, r: Receiver)
    requires at <= |msg|
  {
    && r.Valid() && !r.phase.Unmodelled?
    && r.offset == (if Expects(rx, at) && at == rx.offset then CutEnd(msg, at) else rx.offset)
    && r.out == (if Expects(rx, at) && at == rx.offset then rx.out + msg[at..CutEnd(msg, at)] else rx.out)
    && (if !Expects(rx, at) then r.phase == rx.phase || r.phase.Stopped?
        else if CutEnd(msg, at) == |msg| then r.phase == Finished(r.offset)
        else r.phase.Next? || r.phase.Stopped?)
    && (r.Reading() ==> Fresh(r) && r.data.txid == rx.data.txid)
    && (r.phase.Stopped? ==> rx.clock != [])
    && (r.phase.Finished? ==> r.connection == rx.connection && r.data.txid == rx.data.nextTxid % 256
                              && r.data.kind == rx.data.kind && r.data.longFormat == rx.data.longFormat)
    && (Expects(rx, at) && rx.writes == [] ==> r.sent == rx.sent + [FragmentAck(msg, at, rx.data.txid)])
    && (rx.writes == [] ==> r.writes == []) && (rx.clock == [] ==> r.clock == [])
    && (r.sent == rx.sent || (Expects(rx, at) && r.sent == rx.sent + [FragmentAck(msg, at, rx.data.txid)]))
  }

  /** The acknowledgement of a fragment: its flags and size with the type changed. */
  function FragmentAck(msg: seq<byte>, at: nat, txid: byte): Frame
    requires at <= |msg|
  {
    AckFrame(Header(PAD_DATA, FragmentFlags(msg, at, false), (if at == 0 then |msg| else at) % 0x1_0000), txid)
  }

  lemma FragmentHeader(msg: seq<byte>, at: nat, txid: byte)
    requires |msg| <= 0x1_0000 && IsCut(msg, at)
    ensures var p := FragmentFrame(msg, at, txid, false).payload;
            |p| >= 4 && GetShort(p, 2) == (if at == 0 then |msg| else at) % 0x1_0000
  {
    hide FragmentFlags;
    var p := FragmentFrame(msg, at, txid, false).payload;
    assert p[2..4] == ShortBytes(if at == 0 then |msg| else at);
    ShortRoundTrip(p, 2, if at == 0 then |msg| else at);
  }

  lemma StepOnFragment(rx: Receiver, msg: seq<byte>, at: nat)
    requires rx.Valid() && Fresh(rx) && |msg| <= 0x1_0000 && IsCut(msg, at)
    ensures FragmentEffect(rx, msg, at, RxStep(rx, Packet(FragmentFrame(msg, at, rx.data.txid, false))))
  {
    hide RxStep, Overlay, FragmentFrame, HeaderOf, FragmentFlags, AckFrame, TakeFragment;
    var f := FragmentFrame(msg, at, rx.data.txid, false);
    FragmentParts(msg, at, rx.data.txid);
    FragmentHeader(msg, at, rx.data.txid);
    ReadsWholePacket(rx, f);
    FrameIds(msg, at, rx.data.txid);
    if Expects(rx, at) {
      TakesFragment(rx, msg, at, Holding(rx, f.payload));
    }
  }

  lemma TakesFragment(rx: Receiver, msg: seq<byte>, at: nat, got: Receiver)
    requires rx.Valid() && Fresh(rx) && |msg| <= 0x1_0000 && IsCut(msg, at) && Expects(rx, at)
    requires |got.mem| >= HEADER_LEN + MTU && HEADER_LEN <= got.total <= |got.mem|
    requires got == rx.(mem := got.mem, total := got.total)
    requires got.mem[HEADER_LEN..got.total] == msg[at..CutEnd(msg, at)]
    ensures FragmentEffect(rx, msg, at,
                           TakeFragment(got, Header(PAD_DATA, FragmentFlags(msg, at, false),
                                                    (if at == 0 then |msg| else at) % 0x1_0000)))
  {
    hide FragmentFlags, AckFrame, TakeFragment, HeaderOf, Overlay, AckSent, LoopTop;
    var h := Header(PAD_DATA, FragmentFlags(msg, at, false), (if at == 0 then |msg| else at) % 0x1_0000);
    var acked := AckSent(got, h);
    var data := msg[at..CutEnd(msg, at)];
    var taken := if at == got.offset then acked.(out := got.out + data, offset := got.offset + |data|) else acked;
    AckSentFacts(got, h);
    TakeShort(got, h, taken);
    LoopTopFacts(taken.(phase := Next));
  }

  lemma AckSentFacts(rx: Receiver, h: Header)
    ensures var r := AckSent(rx, h);
            && r == rx.(sent := r.sent, writes := r.writes, data := r.data)
            && r.data == rx.data.(ackedTxid := r.data.ackedTxid, acked := r.data.acked)
            && (r.sent == rx.sent || r.sent == rx.sent + [AckFrame(h, rx.data.txid)])
            && (rx.writes == [] ==> r.sent == rx.sent + [AckFrame(h, rx.data.txid)] && r.writes == [])
  {
    hide AckFrame;
  }

  lemma LoopTopFacts(rx: Receiver)
    requires |rx.mem| >= HEADER_LEN + MTU && rx.Reading()
    ensures var r := LoopTop(rx);
            && r.Valid() && r.out == rx.out && r.offset == rx.offset && r.sent == rx.sent && r.writes == rx.writes
            && r.data == rx.data && r.mem == rx.mem
            && ((r.phase == rx.phase && Fresh(r)) || (r.phase.Stopped? && rx.clock != []))
            && (rx.clock == [] ==> r.clock == [])
  {
  }

  lemma FrameIds(msg: seq<byte>, at: nat, txid: byte)
    requires at <= |msg|
    ensures var f := FragmentFrame(msg, at, txid, false); f.slpType == SLP_TYPE_PADP && f.txid == txid
  {
  }

  lemma StepOnForeign(rx: Receiver, f: Frame)
    requires rx.Valid() && Fresh(rx) && Foreign(f, rx.data.txid)
    ensures var r := RxStep(rx, Packet(f));
            && r.out == rx.out && r.offset == rx.offset && r.sent == rx.sent && r.Valid()
            && (r.phase == rx.phase || r.phase.Stopped? || r.phase == Finished(-1))
            && (r.Reading() ==> Fresh(r) && r.data.txid == rx.data.txid)
  {
    hide Overlay, HeaderOf;
    if |f.payload| <= HEADER_LEN + MTU {
      ReadsWholePacket(rx, f);
    }
  }

  lemma RxStepKeeps(rx: Receiver, msg: seq<byte>, txid: byte, r: Reading)
    requires ReceiverInvariant(rx, msg, txid) && rx.Reading() && |msg| <= 0x1_0000 && Honest(r, msg, txid)
    ensures ReceiverInvariant(RxStep(rx, r), msg, txid)
  {
    hide RxStep, FragmentFrame, FragmentFlags;
    if r.Packet? && IsFragment(r.frame, msg, txid) {
      var at: nat :| IsCut(msg, at) && r.frame == FragmentFrame(msg, at, txid, false);
      StepOnFragment(rx, msg, at);
      if at == rx.offset {
        assert rx.out + msg[at..CutEnd(msg, at)] == msg[..CutEnd(msg, at)];
      }
    } else if r.Packet? {
      StepOnForeign(rx, r.frame);
    } else {
      RxStepOnSilence(rx, r);
    }
  }

  /** The receiver after `readings`, as long as it reads. */
  function RxSteps(rx: Receiver, readings: seq<Reading>): (r: Receiver)
    requires rx.Valid()
    ensures r.Valid()
    decreases |readings|
  {
    if readings == [] || !rx.Reading() then rx else RxSteps(RxStep(rx, readings[0]), readings[1..])
  }

  /** Prefix safety: at every moment of every run, the bytes delivered are a prefix of the message. */
  lemma {:induction false} DeliversPrefix(rx: Receiver, msg: seq<byte>, txid: byte, readings: seq<Reading>)
    requires ReceiverInvariant(rx, msg, txid) && |msg| <= 0x1_0000
    requires forall r <- readings :: Honest(r, msg, txid)
    ensures ReceiverInvariant(RxSteps(rx, readings), msg, txid)
    decreases |readings|
  {
    hide RxStep, Honest;
    if readings != [] && rx.Reading() {
      RxStepKeeps(rx, msg, txid, readings[0]);
      DeliversPrefix(RxStep(rx, readings[0]), msg, txid, readings[1..]);
    }
  }

  /** The run of the step function is the steps taken while the receiver reads, and a read error if it still does. */
  lemma {:induction false} RunIsSteps(rx: Receiver, readings: seq<Reading>)
    requires rx.Valid()
    ensures var r := RxSteps(rx, readings);
            RxRun(rx, readings) == if r.Reading() then RxStep(r, Failed) else r
    decreases |readings|
  {
    hide RxStep;
    if readings != [] && rx.Reading() {
      RunIsSteps(RxStep(rx, readings[0]), readings[1..]);
    }
  }

  /** `padp_rx` as a whole, from the state it starts in: whatever is read while the message is sent, what it delivers
    is a prefix of the message, and a length that it returns is the length of that prefix. */
  lemma ReceptionIsSound(d: Data, c: Connection, honour: bool, mem: seq<byte>, sent: seq<Frame>, writes: seq<Writing>,
                         clock: seq<bool>, msg: seq<byte>, readings: seq<Reading>)
    requires |msg| <= 0x1_0000 && |mem| >= HEADER_LEN + MTU
    requires forall r <- readings :: Honest(r, msg, d.txid)
    ensures var end := RxRun(RxStart(d, c, honour, mem, sent, writes, clock), readings);
            && end.out <= msg && !end.phase.Unmodelled?
            && (end.phase.Finished? && end.phase.result >= 0 ==> end.phase.result == |end.out|)
  {
    hide RxStep, RxRun, Honest;
    var rx := RxStart(d, c, honour, mem, sent, writes, clock);
    LoopTopFacts(Receiver(d, c, honour, mem, 0, HEADER_LEN, 0, [], sent, writes, clock, First));
    DeliversPrefix(rx, msg, d.txid, readings);
    RunIsSteps(rx, readings);
    var r := RxSteps(rx, readings);
    if r.Reading() {
      RxStepOnSilence(r, Failed);
    }
  }

  /** When a reception ends, it ends with the whole message exactly if the fragment flagged LAST was the next one
    due. */
  lemma WholeIfLastInOrder(rx: Receiver, msg: seq<byte>, txid: byte, at: nat, r: Receiver)
    requires IsCut(msg, at) && CutEnd(msg, at) == |msg|
    requires rx.Valid() && rx.Reading() && r == RxStep(rx, Packet(FragmentFrame(msg, at, txid, false)))
    requires ReceiverInvariant(rx, msg, txid) && |msg| <= 0x1_0000 && Expects(rx, at)
    ensures r.phase == Finished(r.offset) && 0 <= r.offset <= |msg| && r.out == msg[..r.offset]
    ensures r.out == msg <==> at == rx.offset
  {
    hide RxStep, FragmentFrame;
    StepOnFragment(rx, msg, at);
    if at == rx.offset {
      assert rx.out + msg[at..] == msg;
    }
  }

  // ---- reordering ------------------------------------------------------------------------------------------------

  /** A reception that ends with a length ends with the whole message. */
  ghost predicate EndsWhole(d: Data, c: Connection, honour: bool, mem: seq<byte>, sent: seq<Frame>,
                            writes: seq<Writing>,
                            clock: seq<bool>, msg: seq<byte>, readings: seq<Reading>)
  {
    |mem| >= HEADER_LEN + MTU && (forall r <- readings :: Honest(r, msg, d.txid)) ==>
      var end := RxRun(RxStart(d, c, honour, mem, sent, writes, clock), readings);
      end.phase.Finished? && end.phase.result >= 0 ==> end.out == msg
  }

  /** The receiver does not wait for what is missing. When the link may change the order of the fragments, every
    reception that ends with a length ends with the whole message if and only if the message has at most two
    fragments. */
  lemma ReorderedReceptionsAreWhole(d: Data, c: Connection, msg: seq<byte>)
    requires |msg| <= 0x1_0000
    ensures (forall honour, mem, sent, writes, clock, readings ::
               EndsWhole(d, c, honour, mem, sent, writes, clock, msg, readings))
       <==> |msg| <= 2 * MTU
  {
    hide EndsWhole;
    if |msg| <= 2 * MTU {
      forall honour, mem, sent, writes, clock, readings
        ensures EndsWhole(d, c, honour, mem, sent, writes, clock, msg, readings)
      {
        ShortMessageIsWhole(d, c, honour, mem, sent, writes, clock, msg, readings);
      }
    } else {
      var mem := seq(HEADER_LEN + MTU, i => 0);
      var readings := [Packet(FragmentFrame(msg, 0, d.txid, false)),
                       Packet(FragmentFrame(msg, LastCut(msg), d.txid, false))];
      OvertakenFragmentIsLost(d, c, mem, msg);
      OvertakenIsHonest(d, msg, readings);
      assert !EndsWhole(d, c, false, mem, [], [], [], msg, readings) by {
        NotWhole(d, c, mem, msg, readings);
      }
    }
  }

  /** Inside a message of at most two fragments only the second is missing, and that is the last. */
  ghost predicate Short(rx: Receiver, msg: seq<byte>, txid: byte) {
    && ReceiverInvariant(rx, msg, txid) && |msg| <= 2 * MTU
    && (rx.phase.Next? ==> rx.offset == MTU)
    && (rx.phase.Finished? && rx.phase.result >= 0 ==> rx.out == msg)
  }

  lemma ShortStep(rx: Receiver, msg: seq<byte>, txid: byte, r: Reading)
    requires Short(rx, msg, txid) && rx.Reading() && Honest(r, msg, txid)
    ensures Short(RxStep(rx, r), msg, txid)
  {
    hide RxStep, FragmentFrame, FragmentFlags;
    RxStepKeeps(rx, msg, txid, r);
    if r.Packet? && IsFragment(r.frame, msg, txid) {
      var at: nat :| IsCut(msg, at) && r.frame == FragmentFrame(msg, at, txid, false);
      StepOnFragment(rx, msg, at);
      if at == rx.offset {
        assert rx.out + msg[at..CutEnd(msg, at)] == msg[..CutEnd(msg, at)];
      }
      assert msg[..|msg|] == msg;
    } else if r.Packet? {
      StepOnForeign(rx, r.frame);
    } else {
      RxStepOnSilence(rx, r);
    }
  }

  lemma {:induction false} ShortSteps(rx: Receiver, msg: seq<byte>, txid: byte, readings: seq<Reading>)
    requires Short(rx, msg, txid) && forall r <- readings :: Honest(r, msg, txid)
    ensures Short(RxSteps(rx, readings), msg, txid)
    decreases |readings|
  {
    hide RxStep, Honest;
    if readings != [] && rx.Reading() {
      ShortStep(rx, msg, txid, readings[0]);
      ShortSteps(RxStep(rx, readings[0]), msg, txid, readings[1..]);
    }
  }

  lemma ShortMessageIsWhole(d: Data, c: Connection, honour: bool, mem: seq<byte>, sent: seq<Frame>,
                            writes: seq<Writing>,
                            clock: seq<bool>, msg: seq<byte>, readings: seq<Reading>)
    requires |msg| <= 2 * MTU
    ensures EndsWhole(d, c, honour, mem, sent, writes, clock, msg, readings)
  {
    hide RxStep, RxRun, Honest;
    if |mem| >= HEADER_LEN + MTU && forall r <- readings :: Honest(r, msg, d.txid) {
      var rx := RxStart(d, c, honour, mem, sent, writes, clock);
      LoopTopFacts(Receiver(d, c, honour, mem, 0, HEADER_LEN, 0, [], sent, writes, clock, First));
      ShortSteps(rx, msg, d.txid, readings);
      RunIsSteps(rx, readings);
      var r := RxSteps(rx, readings);
      if r.Reading() {
        RxStepOnSilence(r, Failed);
      }
    }
  }

  /** Where the last fragment starts. */
  function LastCut(msg: seq<byte>): (at: nat)
    ensures IsCut(msg, at) && at <= |msg| && CutEnd(msg, at) == |msg|
    ensures |msg| > 2 * MTU ==> at >= 2 * MTU
  {
    if msg == [] then 0 else (|msg| - 1) / MTU * MTU
  }

  /** Of any message of more than two fragments, when the last one overtakes all but the first: it is reported
    complete with its first 1024 bytes. */
  lemma OvertakenFragmentIsLost(d: Data, c: Connection, mem: seq<byte>, msg: seq<byte>)
    requires 2 * MTU < |msg| <= 0x1_0000 && |mem| >= HEADER_LEN + MTU
    ensures var end := RxRun(RxStart(d, c, false, mem, [], [], []),
                             [Packet(FragmentFrame(msg, 0, d.txid, false)),
                              Packet(FragmentFrame(msg, LastCut(msg), d.txid, false))]);
            end.phase == Finished(MTU) && end.out == msg[..MTU]
  {
    hide RxStep, FragmentFrame, LastCut, LoopTop;
    var f, g := FragmentFrame(msg, 0, d.txid, false), FragmentFrame(msg, LastCut(msg), d.txid, false);
    var rx := RxStart(d, c, false, mem, [], [], []);
    LoopTopFacts(Receiver(d, c, false, mem, 0, HEADER_LEN, 0, [], [], [], [], First));
    StartReads(d, c, mem);
    StepOnFragment(rx, msg, 0);
    var r := RxStep(rx, Packet(f));
    StepOnFragment(r, msg, LastCut(msg));
    var rs := [Packet(f), Packet(g)];
    assert rs[1..] == [Packet(g)] && rs[1..][1..] == [];
    var e := RxStep(r, Packet(g));
    assert [] + msg[0..MTU] == msg[..MTU] == r.out;
    assert e.phase == Finished(MTU);
    assert RxRun(e, []) == e;
    assert RxRun(r, rs[1..]) == RxRun(e, []);
    assert RxRun(rx, rs) == RxRun(r, rs[1..]);
  }

  lemma StartReads(d: Data, c: Connection, mem: seq<byte>)
    requires |mem| >= HEADER_LEN + MTU
    ensures var rx := RxStart(d, c, false, mem, [], [], []);
            && rx.phase.First? && rx.clock == [] && rx.data.txid == d.txid && Fresh(rx) && rx.Valid()
            && rx.offset == 0 && rx.out == []
  {
  }

  lemma OvertakenIsHonest(d: Data, msg: seq<byte>, readings: seq<Reading>)
    requires readings == [Packet(FragmentFrame(msg, 0, d.txid, false)),
                          Packet(FragmentFrame(msg, LastCut(msg), d.txid, false))]
    ensures forall r <- readings :: Honest(r, msg, d.txid)
  {
    hide FragmentFrame, LastCut;
  }

  lemma NotWhole(d: Data, c: Connection, mem: seq<byte>, msg: seq<byte>, readings: seq<Reading>)
    requires |mem| >= HEADER_LEN + MTU && |msg| > MTU && forall r <- readings :: Honest(r, msg, d.txid)
    requires var end := RxRun(RxStart(d, c, false, mem, [], [], []), readings);
             end.phase == Finished(MTU) && end.out == msg[..MTU]
    ensures !EndsWhole(d, c, false, mem, [], [], [], msg, readings)
  {
    hide RxRun, Honest, RxStart;
  }
}
