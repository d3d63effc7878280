/** What a transmission sends: the fragments of its message, in order, each at most ten times. */
module PadpSender {
  import opened Bytes
  import opened PadpSpec

  /** The offsets a message is cut at. The empty message is sent as one empty fragment. */
  predicate IsCut(msg: seq<byte>, at: nat) {
    at % MTU == 0 && (at < |msg| || at == 0)
  }

  function CutEnd(msg: seq<byte>, at: nat): (e: nat)
    requires at <= |msg|
    ensures at <= e <= |msg| && e - at <= MTU
  {
    if at + MTU < |msg| then at + MTU else |msg|
  }

  function FragmentFlags(msg: seq<byte>, at: nat, long: bool): (f: byte)
    requires at <= |msg|
    ensures Bit(f, FL_FIRST) == (at == 0) && Bit(f, FL_LAST) == (CutEnd(msg, at) == |msg|)
    ensures !Bit(f, FL_MEMERROR) && Bit(f, FL_LONG) == long
  {
    (if at == 0 then FL_FIRST else 0) + (if CutEnd(msg, at) == |msg| then FL_LAST else 0)
      + (if long then FL_LONG else 0)
  }

  /** The frame that carries the fragment of `msg` at offset `at`: FIRST on the first fragment alone, which carries the
    message length instead of its offset, and LAST on the final one. */
  function FragmentFrame(msg: seq<byte>, at: nat, txid: byte, long: bool): Frame
    requires at <= |msg|
  {
    Frame(SLP_TYPE_PADP, txid,
          HeaderBytes(PAD_DATA, FragmentFlags(msg, at, long), if at == 0 then |msg| else at) + msg[at..CutEnd(msg, at)])
  }

  /** How often `f` was sent. */
  function Sends(sent: seq<Frame>, f: Frame): nat {
    if sent == [] then 0 else Sends(sent[..|sent| - 1], f) + if sent[|sent| - 1] == f then 1 else 0
  }

  predicate IsData(d: Data) { d.kind == PAD_DATA || d.kind == PAD_WAKE }

  function Piece(tx: Sender, at: nat): Frame
    requires at <= |tx.msg|
  {
    FragmentFrame(tx.msg, at, tx.data.txid, tx.data.longFormat)
  }

  /** `f` is a fragment of the message up to the current one, or a renewed acknowledgement of the peer's last packet. */
  ghost predicate Accounted(tx: Sender, f: Frame)
    requires tx.count <= |tx.msg|
  {
    || (exists at: nat {:trigger Piece(tx, at)} :: IsCut(tx.msg, at) && at <= tx.count && f == Piece(tx, at))
    || f == AckFrame(tx.data.acked, tx.data.ackedTxid)
  }

  /** Every fragment before the current one was sent at most ten times, the current one at most `tries` times, and none
    behind it. `base` is the number of frames sent before the transmission started. */
  ghost predicate Spent(tx: Sender, base: nat, tries: int)
    requires base <= |tx.sent|
  {
    forall at: nat {:trigger Piece(tx, at)} :: IsCut(tx.msg, at) ==>
      Sends(tx.sent[base..], Piece(tx, at)) <= if at < tx.count then TX_RETRIES else if at == tx.count then tries else 0
  }

  ghost predicate Sound(tx: Sender, base: nat, tries: int) {
    && tx.Valid() && IsData(tx.data) && |tx.msg| <= 0x1_0000 && base <= |tx.sent|
    && (forall i :: base <= i < |tx.sent| ==> Accounted(tx, tx.sent[i]))
    && Spent(tx, base, tries)
  }

  ghost predicate AtCut(tx: Sender) {
    IsCut(tx.msg, tx.count) && tx.first == (tx.count == 0)
  }

  /** What holds between two readings: the state of the retry counter tells how often the fragment was sent. */
  ghost predicate SenderInvariant(tx: Sender, base: nat) {
    && Sound(tx, base, if tx.phase.Waiting? then TX_RETRIES + 1 - tx.retries else TX_RETRIES)
    && (tx.phase.Waiting? ==> AtCut(tx))
    && (tx.phase.Done? ==> tx.phase.result == -1 || tx.phase.result == |tx.msg|)
  }

  lemma PacketIsPiece(tx: Sender)
    requires tx.count <= |tx.msg| && IsData(tx.data) && tx.first == (tx.count == 0)
    ensures Frame(SLP_TYPE_PADP, tx.data.txid, PacketBytes(tx)) == Piece(tx, tx.count)
  {
  }

  lemma SendsOneMore(sent: seq<Frame>, g: Frame, f: Frame)
    ensures Sends(sent + [g], f) == Sends(sent, f) + if g == f then 1 else 0
  {
    assert (sent + [g])[..|sent|] == sent;
  }

  lemma PieceSize(tx: Sender, at: nat)
    requires IsCut(tx.msg, at) && 0 < at < 0x1_0000
    ensures var p := Piece(tx, at).payload;
            if tx.data.longFormat then |p| >= 6 && GetLong(p, 2) == at else |p| >= 4 && GetShort(p, 2) == at
  {
    hide FragmentFlags;
    var p := Piece(tx, at).payload;
    if tx.data.longFormat {
      assert p[2..6] == LongBytes(at);
      LongRoundTrip(p, 2, at);
    } else {
      assert p[2..4] == ShortBytes(at);
      ShortRoundTrip(p, 2, at);
    }
  }

  lemma PiecesDiffer(tx: Sender, at: nat, at': nat)
    requires |tx.msg| <= 0x1_0000 && IsCut(tx.msg, at) && IsCut(tx.msg, at') && at != at'
    ensures Piece(tx, at) != Piece(tx, at')
  {
    if at != 0 && at' != 0 {
      PieceSize(tx, at);
      PieceSize(tx, at');
    } else {
      assert Bit(Piece(tx, at).payload[1], FL_FIRST) == (at == 0);
      assert Bit(Piece(tx, at').payload[1], FL_FIRST) == (at' == 0);
    }
  }

  /** One more copy of the current fragment, or a failed attempt to send it. */
  lemma SpendOne(tx: Sender, base: nat, tries: int, r: Sender)
    requires |tx.msg| <= 0x1_0000 && IsCut(tx.msg, tx.count) && base <= |tx.sent| && Spent(tx, base, tries)
    requires r.msg == tx.msg && r.count == tx.count && r.data == tx.data
    requires r.sent == tx.sent || r.sent == tx.sent + [Piece(tx, tx.count)]
    ensures Spent(r, base, tries + 1)
  {
    hide FragmentFrame, Sends;
    var f := Piece(tx, tx.count);
    forall at: nat | IsCut(tx.msg, at)
      ensures Piece(r, at) == Piece(tx, at)
      ensures Sends(r.sent[base..], Piece(tx, at))
           <= Sends(tx.sent[base..], Piece(tx, at)) + if at == tx.count then 1 else 0
    {
      SendsOneMore(tx.sent[base..], f, Piece(tx, at));
      assert r.sent[base..] == tx.sent[base..] || r.sent[base..] == tx.sent[base..] + [f];
      if at != tx.count {
        PiecesDiffer(tx, at, tx.count);
      }
    }
  }

  /** The frames already sent stay accounted for as the transmission moves on. */
  lemma AccountedMovesOn(tx: Sender, r: Sender, f: Frame)
    requires r.msg == tx.msg && r.data == tx.data && tx.count <= r.count <= |tx.msg| && Accounted(tx, f)
    ensures Accounted(r, f)
  {
    hide FragmentFrame, AckFrame;
    if f != AckFrame(tx.data.acked, tx.data.ackedTxid) {
      var at: nat :| IsCut(tx.msg, at) && at <= tx.count && f == Piece(tx, at);
      assert f == Piece(r, at);
    }
  }

  /** Sending the current fragment once more. */
  lemma TransmitKeeps(tx: Sender, base: nat)
    requires tx.phase.Waiting? && AtCut(tx) && Sound(tx, base, TX_RETRIES - tx.retries)
    ensures SenderInvariant(Transmit(tx), base)
  {
    hide PacketBytes, Overlay, FragmentFrame, Sends, Spent, Accounted, AckFrame;
    var r, f := Transmit(tx), Piece(tx, tx.count);
    PacketIsPiece(tx);
    SpendOne(tx, base, TX_RETRIES - tx.retries, r);
    PieceAccounted(r, tx.count);
    forall i | base <= i < |r.sent|
      ensures Accounted(r, r.sent[i])
    {
      if i < |tx.sent| {
        AccountedMovesOn(tx, r, tx.sent[i]);
      }
    }
    if r.phase.Done? || r.phase.Dead? {
      SpendMore(r, base, TX_RETRIES - tx.retries + 1, TX_RETRIES);
    }
  }

  lemma PieceAccounted(tx: Sender, at: nat)
    requires IsCut(tx.msg, at) && at <= tx.count <= |tx.msg|
    ensures Accounted(tx, Piece(tx, at))
  {
  }

  lemma SpendMore(tx: Sender, base: nat, tries: int, more: int)
    requires base <= |tx.sent| && Spent(tx, base, tries) && tries <= more
    ensures Spent(tx, base, more)
  {
    hide Sends;
  }

  /** Acknowledgements are not fragments, so a renewed acknowledgement costs no try. */
  lemma AckIsNoPiece(tx: Sender, base: nat, tries: int)
    requires Sound(tx, base, tries) && tx.count <= |tx.msg|
    ensures var r := tx.Write(AckFrame(tx.data.acked, tx.data.ackedTxid));
            Sound(r, base, tries)
  {
    hide Sends, Accounted;
    var f := AckFrame(tx.data.acked, tx.data.ackedTxid);
    var r := tx.Write(f);
    forall at: nat | IsCut(tx.msg, at)
      ensures Piece(r, at) == Piece(tx, at)
      ensures Sends(r.sent[base..], Piece(tx, at)) == Sends(tx.sent[base..], Piece(tx, at))
    {
      assert Piece(tx, at).payload[0] == PAD_DATA && f.payload[0] == PAD_ACK;
      SendsOneMore(tx.sent[base..], f, Piece(tx, at));
      assert r.sent[base..] == tx.sent[base..] || r.sent[base..] == tx.sent[base..] + [f];
    }
    AckAccounted(r);
    forall i | base <= i < |r.sent|
      ensures Accounted(r, r.sent[i])
    {
      if i < |tx.sent| {
        AccountedMovesOn(tx, r, tx.sent[i]);
      }
    }
  }

  lemma AckAccounted(tx: Sender)
    requires tx.count <= |tx.msg|
    ensures Accounted(tx, AckFrame(tx.data.acked, tx.data.ackedTxid))
  {
  }

  lemma NextTryKeeps(tx: Sender, base: nat)
    requires tx.phase.Waiting? && AtCut(tx) && Sound(tx, base, TX_RETRIES + 1 - tx.retries)
    ensures SenderInvariant(NextTry(tx), base)
  {
    hide Transmit, Accounted, FragmentFrame, AckFrame, Sends;
    if tx.retries == 1 {
      assert SenderInvariant(tx.(retries := 0, phase := Dead), base) by {
        SameFrames(tx, tx.(retries := 0, phase := Dead), base, TX_RETRIES);
      }
    } else {
      SameFrames(tx, tx.(retries := tx.retries - 1), base, TX_RETRIES + 1 - tx.retries);
      TransmitKeeps(tx.(retries := tx.retries - 1), base);
    }
  }

  /** Only the message, the ids, the position and the frames matter to `Sound`. */
  lemma SameFrames(tx: Sender, r: Sender, base: nat, tries: int)
    requires Sound(tx, base, tries) && r.Valid()
    requires r.msg == tx.msg && r.data == tx.data && r.count == tx.count && r.sent == tx.sent
    ensures Sound(r, base, tries)
  {
    hide Sends, FragmentFrame;
    forall i | base <= i < |r.sent|
      ensures Accounted(r, r.sent[i])
    {
      AccountedMovesOn(tx, r, tx.sent[i]);
    }
    assert forall at: nat | IsCut(tx.msg, at) :: Piece(r, at) == Piece(tx, at);
  }

  /** Moving on to the next fragment: it has not been sent before. */
  lemma AcknowledgedKeeps(tx: Sender, base: nat)
    requires SenderInvariant(tx, base) && tx.phase.Waiting?
    ensures SenderInvariant(Acknowledged(tx), base)
  {
    hide Transmit, Accounted, FragmentFrame, AckFrame, Sends;
    var moved := tx.(count := tx.count + tx.FragmentLength(), first := false);
    var r := if moved.count == |tx.msg| then moved.(phase := Done(moved.count)) else moved.(retries := TX_RETRIES);
    forall i | base <= i < |r.sent|
      ensures Accounted(r, r.sent[i])
    {
      AccountedMovesOn(tx, r, tx.sent[i]);
    }
    forall at: nat | IsCut(tx.msg, at)
      ensures Piece(r, at) == Piece(tx, at)
      ensures Sends(r.sent[base..], Piece(tx, at)) <= if at < r.count || r.phase.Done? then TX_RETRIES else 0
    {
      assert at > tx.count ==> at >= tx.count + MTU;
      assert Sends(tx.sent[base..], Piece(tx, at)) <=
             if at < tx.count then TX_RETRIES else if at == tx.count then TX_RETRIES + 1 - tx.retries else 0;
    }
    if r.phase.Waiting? {
      TransmitKeeps(r, base);
    }
  }

  lemma StopKeeps(tx: Sender, base: nat, phase: TxPhase)
    requires SenderInvariant(tx, base) && tx.phase.Waiting?
    requires phase == Done(-1) || phase == Done(|tx.msg|) || phase == Dead
    ensures SenderInvariant(tx.(phase := phase), base)
  {
    hide Sends, FragmentFrame, Spent, Accounted;
    SameFrames(tx, tx.(phase := phase), base, TX_RETRIES + 1 - tx.retries);
    SpendMore(tx.(phase := phase), base, TX_RETRIES + 1 - tx.retries, TX_RETRIES);
  }

  lemma TxStepKeeps(tx: Sender, base: nat, r: Reading)
    requires SenderInvariant(tx, base) && tx.phase.Waiting?
    ensures SenderInvariant(TxStep(tx, r), base)
  {
    hide Transmit, Accounted, FragmentFrame, AckFrame, Sends, NextTry, Acknowledged, Spent, Overlay;
    var d := Deliver(r, HEADER_LEN + 2 + MTU);
    if d.Packet? && d.frame.payload != [] {
      var f := d.frame;
      var got := tx.(mem := Overlay(tx.mem, tx.used, f.payload), used := tx.used + |f.payload|);
      SameFrames(tx, got, base, TX_RETRIES + 1 - tx.retries);
      JudgeKeeps(got, base, f);
    } else if d.Hangup? {
      StopKeeps(tx, base, Dead);
    } else {
      NextTryKeeps(tx, base);
    }
  }

  lemma JudgeKeeps(tx: Sender, base: nat, f: Frame)
    requires SenderInvariant(tx, base) && tx.phase.Waiting?
    ensures SenderInvariant(Judge(tx, f), base)
  {
    hide Transmit, Accounted, FragmentFrame, AckFrame, Sends, NextTry, Acknowledged, Spent, HeaderOf;
    var h, r := HeaderOf(tx.mem), Judge(tx, f);
    var padp := f.slpType == SLP_TYPE_PADP;
    AcknowledgedKeeps(tx, base);
    AckIsNoPiece(tx, base, TX_RETRIES + 1 - tx.retries);
    var renewed := tx.Write(AckFrame(tx.data.acked, tx.data.ackedTxid));
    assert renewed.phase.Waiting? && AtCut(renewed) && renewed.retries == tx.retries;
    NextTryKeeps(renewed, base);
    StopKeeps(tx, base, Done(-1));
    StopKeeps(tx, base, Done(|tx.msg|));
  }

  /** For every message of at most 65536 bytes and everything the layer below may report: what was sent are fragments of
    the message and renewed acknowledgements, no fragment more than ten times, and the transmission ends with -1, with a
    broken connection, or with the length of the message. */
  lemma {:induction false} RunKeeps(tx: Sender, base: nat, readings: seq<Reading>)
    requires SenderInvariant(tx, base)
    ensures SenderInvariant(TxRun(tx, readings), base)
    decreases |readings|, tx.retries
  {
    hide TxStep;
    if tx.phase.Waiting? {
      if readings == [] {
        TxStepKeeps(tx, base, Failed);
        FailedReadTakesATry(tx);
        RunKeeps(TxStep(tx, Failed), base, []);
      } else {
        TxStepKeeps(tx, base, readings[0]);
        RunKeeps(TxStep(tx, readings[0]), base, readings[1..]);
      }
    }
  }

  lemma FailedReadTakesATry(tx: Sender)
    requires tx.Valid() && tx.phase.Waiting?
    ensures TxStep(tx, Failed).retries == tx.retries - 1
  {
  }

  /** `padp_tx` as a whole, from the state it starts in. */
  lemma TransmissionIsSound(d: Data, msg: seq<byte>, mem: seq<byte>, sent: seq<Frame>, writes: seq<Writing>,
                            readings: seq<Reading>)
    requires IsData(d) && |msg| <= 0x1_0000 && |mem| >= HEADER_LEN + 2 + MTU
    ensures var end := TxRun(TxStart(d, msg, mem, sent, writes), readings);
            && end.phase in {Done(|msg|), Done(-1), Dead}
            && SenderInvariant(end, |sent|)
  {
    hide Transmit, TxRun, FragmentFrame;
    var start := Sender(d, msg, 0, true, TX_RETRIES, mem, 0, sent, writes, Waiting);
    forall at: nat | IsCut(msg, at)
      ensures Sends(start.sent[|sent|..], Piece(start, at)) == 0
    {
      assert start.sent[|sent|..] == [];
    }
    TransmitKeeps(start, |sent|);
    RunKeeps(TxStart(d, msg, mem, sent, writes), |sent|, readings);
  }

  predicate Masked(tx: Sender) { tx.used > 0 && |tx.mem| > 0 && tx.mem[0] == PAD_TICKLE }

  /** A tickle leaves its header at the front of the buffer. Until a read fails and the fragment is sent again, every
    later packet, the awaited acknowledgement included, is taken for another tickle. */
  lemma {:induction false} TickleMasksPackets(tx: Sender, frames: seq<Frame>)
    requires tx.Valid() && tx.phase.Waiting? && tx.data.kind != PAD_TICKLE
    requires Masked(tx)
             || (tx.used == 0 && frames != [] && frames[0].payload != [] && frames[0].payload[0] == PAD_TICKLE)
    requires forall f <- frames :: 0 < |f.payload| <= HEADER_LEN + 2 + MTU
    ensures var end := Feed(tx, frames);
            end.phase.Waiting? && end.count == tx.count && end.sent == tx.sent && end.retries == tx.retries
    decreases |frames|
  {
    if frames != [] {
      StepOnPacket(tx, frames[0]);
      var got := tx.(mem := Overlay(tx.mem, tx.used, frames[0].payload), used := tx.used + |frames[0].payload|);
      assert got.mem[0] == PAD_TICKLE by {
        if tx.used == 0 {
          assert got.mem[0] == got.mem[0..|frames[0].payload|][0];
        } else {
          assert got.mem[0] == got.mem[..tx.used][0];
        }
      }
      assert TxStep(tx, Packet(frames[0])) == got;
      TickleMasksPackets(got, frames[1..]);
    }
  }

  /** The packets of `frames`, one after the other, as long as the transmitter waits. */
  function Feed(tx: Sender, frames: seq<Frame>): (r: Sender)
    requires tx.Valid()
    ensures r.Valid()
    decreases |frames|
  {
    if frames == [] || !tx.phase.Waiting? then tx else Feed(TxStep(tx, Packet(frames[0])), frames[1..])
  }
}
