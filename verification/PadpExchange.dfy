/** Two parties: A sends a message with `padp_tx` to B, which receives it with `padp_rx` and then answers with a
  `padp_tx` of its own. Between them are two serial lines that keep the order of the frames but lose any of them. */
module PadpExchange {
  import opened Bytes
  import opened PadpSpec
  import opened PadpSender
  import opened PadpReceiver

  datatype Peer = Listening(rx: Receiver) | Answering(rx: Receiver, tx: Sender)

  datatype World = World(a: Sender, b: Peer, toB: seq<Frame>, toA: seq<Frame>)

  datatype Move =
    | DropToB(i: nat) | DropToA(i: nat)                 // a frame is lost
    | TickleToB(id: byte) | TickleToA(id: byte)         // a tickle is sent
    | ReadA | ReadB                                     // the next frame is read
    | SilenceA | SilenceB                               // a read times out
    | Answer(msg: seq<byte>, mem: seq<byte>)            // B has received and sends its answer

  /** The packet `padp_tx` sends for a tickle. */
  const TICKLE: seq<byte> := [PAD_TICKLE, FL_FIRST + FL_LAST, 0, 0]

  predicate IsTickleFrame(f: Frame) { f.payload == TICKLE }

  function News(before: seq<Frame>, after: seq<Frame>): seq<Frame> {
    if |before| <= |after| then after[|before|..] else []
  }

  function Without(s: seq<Frame>, i: nat): seq<Frame>
    requires i < |s|
  {
    s[..i] + s[i + 1..]
  }

  predicate Carries(f: Frame, kind: byte, txid: byte) {
    f.slpType == SLP_TYPE_PADP && f.txid == txid && f.payload != [] && f.payload[0] == kind
  }

  /** A's fragment is not on its way, nor is an acknowledgement of it. */
  predicate ReallyLost(w: World) {
    && (forall f <- w.toB :: !Carries(f, PAD_DATA, w.a.data.txid))
    && (forall f <- w.toA :: !Carries(f, PAD_ACK, w.a.data.txid))
  }

  predicate Received(b: Peer) { b.rx.phase.Finished? && b.rx.phase.result >= 0 }

  ghost predicate Sane(w: World) {
    && w.a.Valid() && w.b.rx.Valid() && (w.b.Answering? ==> w.b.tx.Valid())
  }

  /** The moves of the protocol and the link. A times out only when its frame or the acknowledgement was really lost,
    unless `hasty`. */
  predicate Possible(w: World, m: Move, hasty: bool) {
    match m
    case DropToB(i) => i < |w.toB|
    case DropToA(i) => i < |w.toA|
    case TickleToB(_) => true
    case TickleToA(_) => true
    case ReadA => w.a.phase.Waiting? && w.toA != []
    case ReadB => w.toB != [] && if w.b.Listening? then w.b.rx.Reading() else w.b.tx.phase.Waiting?
    case SilenceA => w.a.phase.Waiting? && (hasty || ReallyLost(w))
    case SilenceB => if w.b.Listening? then w.b.rx.Reading() else w.b.tx.phase.Waiting?
    case Answer(_, mem) => w.b.Listening? && Received(w.b) && |mem| >= HEADER_LEN + 2 + MTU
  }

  function MoveA(w: World, r: Reading): (w': World)
    requires Sane(w) && w.a.phase.Waiting?
    ensures Sane(w')
  {
    var a := TxStep(w.a, r);
    w.(a := a, toB := w.toB + News(w.a.sent, a.sent))
  }

  function MoveB(w: World, r: Reading): (w': World)
    requires Sane(w) && if w.b.Listening? then w.b.rx.Reading() else w.b.tx.phase.Waiting?
    ensures Sane(w')
  {
    match w.b
    case Listening(rx) =>
      var rx' := RxStep(rx, r);
      w.(b := Listening(rx'), toA := w.toA + News(rx.sent, rx'.sent))
    case Answering(rx, tx) =>
      var tx' := TxStep(tx, r);
      w.(b := Answering(rx, tx'), toA := w.toA + News(tx.sent, tx'.sent))
  }

  /** B answers: `padp_tx` first throws away what is waiting to be read. */
  function StartAnswer(w: World, msg: seq<byte>, mem: seq<byte>): (w': World)
    requires Sane(w) && w.b.Listening? && |mem| >= HEADER_LEN + 2 + MTU
    ensures Sane(w')
  {
    var rx := w.b.rx;
    var tx := TxStart(TxPrepare(rx.data, rx.connection), msg, mem, rx.sent, rx.writes);
    w.(b := Answering(rx, tx), toB := [], toA := w.toA + News(rx.sent, tx.sent))
  }

  function Do(w: World, m: Move, hasty: bool): (w': World)
    requires Sane(w) && Possible(w, m, hasty)
    ensures Sane(w')
  {
    match m
    case DropToB(i) => w.(toB := Without(w.toB, i))
    case DropToA(i) => w.(toA := Without(w.toA, i))
    case TickleToB(id) => w.(toB := w.toB + [Frame(SLP_TYPE_PADP, id, TICKLE)])
    case TickleToA(id) => w.(toA := w.toA + [Frame(SLP_TYPE_PADP, id, TICKLE)])
    case ReadA => MoveA(w.(toA := w.toA[1..]), Packet(w.toA[0]))
    case ReadB => MoveB(w.(toB := w.toB[1..]), Packet(w.toB[0]))
    case SilenceA => MoveA(w, Failed)
    case SilenceB => MoveB(w, Failed)
    case Answer(msg, mem) => StartAnswer(w, msg, mem)
  }

  /** `moves` can be made one after the other. */
  ghost predicate Allowed(w: World, moves: seq<Move>, hasty: bool)
    requires Sane(w)
    decreases |moves|
  {
    moves == [] || (Possible(w, moves[0], hasty) && Allowed(Do(w, moves[0], hasty), moves[1..], hasty))
  }

  function Run(w: World, moves: seq<Move>, hasty: bool): (w': World)
    requires Sane(w) && Allowed(w, moves, hasty)
    ensures Sane(w')
    decreases |moves|
  {
    if moves == [] then w else Run(Do(w, moves[0], hasty), moves[1..], hasty)
  }

  // ---- the invariant ---------------------------------------------------------------------------------------------

  /** The frames that are not tickles. */
  function Busy(s: seq<Frame>): nat {
    if s == [] then 0 else Busy(s[..|s| - 1]) + if IsTickleFrame(s[|s| - 1]) then 0 else 1
  }

  ghost predicate Complete(rx: Receiver, msg: seq<byte>) {
    rx.phase == Finished(|msg|) && rx.out == msg
  }

  ghost predicate OnTheWay(w: World, msg: seq<byte>, txid: byte)
    requires w.a.count <= |msg|
  {
    && (forall f <- w.toB :: IsTickleFrame(f) || f == FragmentFrame(msg, w.a.count, txid, false))
    && (forall f <- w.toA :: IsTickleFrame(f) || f == FragmentAck(msg, w.a.count, txid))
    && Busy(w.toB) + Busy(w.toA) <= 1
  }

  /** B's offset is A's position or one fragment ahead of it; an acknowledgement is on its way only in the second
    case. */
  ghost predicate InStep(a: Sender, rx: Receiver, msg: seq<byte>, acked: bool)
    requires a.count <= |msg|
  {
    && (rx.offset == a.count || rx.offset == CutEnd(msg, a.count))
    && (rx.phase.First? ==> a.count == 0)
    && (Received(Listening(rx)) ==> Complete(rx, msg) && CutEnd(msg, a.count) == |msg|)
    && (acked ==> && rx.offset == CutEnd(msg, a.count) && !rx.phase.First?
                  && (CutEnd(msg, a.count) == |msg| ==> Complete(rx, msg)))
  }

  ghost predicate SenderOf(a: Sender, msg: seq<byte>, txid: byte) {
    && a.Valid() && a.msg == msg && |msg| <= 0x1_0000 && IsData(a.data) && !a.data.longFormat && a.data.txid == txid
    && (a.phase.Waiting? ==> AtCut(a) && (a.used == 0 || Masked(a)))
    && (a.phase.Done? ==> a.phase.result == -1 || a.phase.result == |msg|)
  }

  ghost predicate WorldInvariant(w: World, msg: seq<byte>, txid: byte) {
    && Sane(w) && SenderOf(w.a, msg, txid)
    && match w.b
       case Answering(rx, _) => Complete(rx, msg)
       case Listening(rx) =>
         && ReceiverInvariant(rx, msg, txid)
         && (rx.phase.Finished? ==> rx.phase.result >= 0)
         && if w.a.phase.Done? then w.a.phase.result == |msg| && Complete(rx, msg)
            else IsCut(msg, w.a.count) && OnTheWay(w, msg, txid) && InStep(w.a, rx, msg, Busy(w.toA) > 0)
  }

  // ---- counting frames -------------------------------------------------------------------------------------------

  lemma {:induction false} BusyConcat(s: seq<Frame>, t: seq<Frame>)
    ensures Busy(s + t) == Busy(s) + Busy(t)
  {
    if t == [] {
      assert s + t == s;
    } else {
      assert (s + t)[..|s + t| - 1] == s + t[..|t| - 1];
      BusyConcat(s, t[..|t| - 1]);
    }
  }

  lemma BusyOne(f: Frame)
    ensures Busy([f]) == if IsTickleFrame(f) then 0 else 1
  {
    assert [f][..0] == [];
  }

  lemma BusyWithout(s: seq<Frame>, i: nat)
    requires i < |s|
    ensures Busy(s) == Busy(Without(s, i)) + if IsTickleFrame(s[i]) then 0 else 1
  {
    hide Busy;
    var front, frame, back := s[..i], [s[i]], s[i + 1..];
    assert s == (front + frame) + back;
    BusyConcat(front, back);
    BusyConcat(front + frame, back);
    BusyConcat(front, frame);
    BusyOne(s[i]);
  }

  lemma {:induction false} BusyNone(s: seq<Frame>)
    requires forall f <- s :: IsTickleFrame(f)
    ensures Busy(s) == 0
  {
    if s != [] {
      BusyNone(s[..|s| - 1]);
    }
  }

  // ---- what A does -----------------------------------------------------------------------------------------------

  /** A sends the fragment at its position, or fails to. */
  ghost predicate Resent(a: Sender, r: Sender)
  {
    && r.Valid() && r.count == a.count <= |a.msg| && r.msg == a.msg && r.data == a.data
    && (r.sent == a.sent || r.sent == a.sent + [Piece(a, a.count)])
    && (r.phase.Dead? || (r.phase.Waiting? && AtCut(r) && r.used == 0))
    && (a.writes == [] ==> r.phase.Waiting? && r.writes == [] && r.sent == a.sent + [Piece(a, a.count)])
  }

  lemma TransmitResends(a: Sender)
    requires a.Valid() && a.phase.Waiting? && AtCut(a) && IsData(a.data)
    ensures Resent(a, Transmit(a)) && Transmit(a).retries == a.retries
  {
    hide PacketBytes, FragmentFrame, Overlay;
    PacketIsPiece(a);
  }

  lemma SilenceResends(a: Sender)
    requires a.Valid() && a.phase.Waiting? && AtCut(a) && IsData(a.data)
    ensures var r := TxStep(a, Failed);
            && r.Valid() && r.count == a.count && (Resent(a, r) || (r.phase.Dead? && r.sent == a.sent))
            && (a.retries > 1 ==> Resent(a, r))
  {
    hide Transmit, FragmentFrame;
    StepOnSilence(a, Failed);
    if a.retries > 1 {
      TransmitResends(a.(retries := a.retries - 1));
    }
  }

  ghost predicate StillMasked(a: Sender, r: Sender) {
    r.Valid() && r == a.(mem := r.mem, used := r.used) && r.phase.Waiting? && Masked(r)
  }

  lemma ReadsTickle(a: Sender, f: Frame)
    requires a.Valid() && a.phase.Waiting? && (a.used == 0 || Masked(a)) && IsTickleFrame(f)
    ensures StillMasked(a, TxStep(a, Packet(f)))
  {
    hide Transmit, NextTry, Acknowledged, Overlay;
    StepOnPacket(a, f);
    var got := a.(mem := Overlay(a.mem, a.used, f.payload), used := a.used + |f.payload|);
    OverlaidHead(a.mem, a.used, f.payload);
  }

  /** Where the first byte of the buffer comes from. */
  lemma OverlaidHead(mem: seq<byte>, at: nat, src: seq<byte>)
    requires at <= |mem| && src != []
    ensures var r := Overlay(mem, at, src);
            r != [] && r[0] == if at == 0 then src[0] else mem[0]
  {
    var r := Overlay(mem, at, src);
    if at == 0 {
      assert r[0] == r[0..|src|][0];
    } else {
      assert r[0] == r[..at][0];
    }
  }

  /** The acknowledgement of any fragment of the message, whatever its offset: unless a tickle masks it, A moves on. */
  lemma ReadsAck(a: Sender, msg: seq<byte>, txid: byte, at: nat)
    requires SenderOf(a, msg, txid) && a.phase.Waiting? && at <= |msg|
    ensures var r := TxStep(a, Packet(FragmentAck(msg, at, txid)));
            && (Masked(a) ==> StillMasked(a, r))
            && (!Masked(a) ==>
                  var moved := a.(count := CutEnd(msg, a.count), first := false, retries := TX_RETRIES,
                                  phase := Waiting,
                                  mem := Overlay(a.mem, 0, FragmentAck(msg, at, txid).payload), used := HEADER_LEN);
                  if moved.count == |msg| then r == a.(count := |msg|, first := false, phase := Done(|msg|),
                                                       mem := moved.mem, used := moved.used)
                  else moved.Valid() && AtCut(moved) && r == Transmit(moved))
  {
    hide Transmit, NextTry, Overlay, FragmentFlags, HeaderOf;
    var f := FragmentAck(msg, at, txid);
    StepOnPacket(a, f);
    OverlaidHead(a.mem, a.used, f.payload);
    if !Masked(a) {
      AckHeader(a.mem, msg, at, txid);
    } else {
      MaskedHeader(Overlay(a.mem, a.used, f.payload));
    }
  }

  lemma MaskedHeader(mem: seq<byte>)
    requires |mem| >= 6
    ensures HeaderOf(mem).kind == mem[0]
  {
  }

  lemma AckHeader(mem: seq<byte>, msg: seq<byte>, at: nat, txid: byte)
    requires |mem| >= 6 && at <= |msg|
    ensures var f := FragmentAck(msg, at, txid);
            && f.slpType == SLP_TYPE_PADP && f.txid == txid && |f.payload| == HEADER_LEN
            && HeaderOf(Overlay(mem, 0, f.payload)).kind == PAD_ACK
            && !Bit(HeaderOf(Overlay(mem, 0, f.payload)).flags, FL_MEMERROR)
  {
    hide FragmentFlags, Overlay;
    var f := FragmentAck(msg, at, txid);
    var r := Overlay(mem, 0, f.payload);
    assert r[0..4] == f.payload;
    assert r[0] == r[0..4][0] && r[1] == r[0..4][1];
  }

  // ---- the invariant is kept -------------------------------------------------------------------------------------

  /** Frames leave the lines, tickles join them. */
  lemma LinesKeep(w: World, w': World, msg: seq<byte>, txid: byte)
    requires WorldInvariant(w, msg, txid) && w' == w.(toB := w'.toB, toA := w'.toA)
    requires forall f <- w'.toB :: f in w.toB || IsTickleFrame(f)
    requires forall f <- w'.toA :: f in w.toA || IsTickleFrame(f)
    requires Busy(w'.toB) <= Busy(w.toB) && Busy(w'.toA) <= Busy(w.toA)
    ensures WorldInvariant(w', msg, txid)
  {
    hide FragmentFrame, FragmentAck, Busy;
  }

  lemma DropKeeps(w: World, m: Move, msg: seq<byte>, txid: byte)
    requires WorldInvariant(w, msg, txid) && Possible(w, m, false)
    requires m.DropToB? || m.DropToA? || m.TickleToB? || m.TickleToA?
    ensures WorldInvariant(Do(w, m, false), msg, txid)
  {
    hide Busy, MoveA, MoveB, StartAnswer, OnTheWay, InStep;
    match m {
      case DropToB(i) => BusyWithout(w.toB, i);
      case DropToA(i) => BusyWithout(w.toA, i);
      case TickleToB(id) =>
        BusyOne(Frame(SLP_TYPE_PADP, id, TICKLE));
        BusyConcat(w.toB, [Frame(SLP_TYPE_PADP, id, TICKLE)]);
      case TickleToA(id) =>
        BusyOne(Frame(SLP_TYPE_PADP, id, TICKLE));
        BusyConcat(w.toA, [Frame(SLP_TYPE_PADP, id, TICKLE)]);
    }
    LinesKeep(w, Do(w, m, false), msg, txid);
  }

  /** Nothing but tickles is on the lines when A's frame and its acknowledgement are lost. */
  lemma LostMeansIdle(w: World, msg: seq<byte>, txid: byte)
    requires WorldInvariant(w, msg, txid) && w.b.Listening? && w.a.phase.Waiting? && ReallyLost(w)
    ensures Busy(w.toB) == 0 && Busy(w.toA) == 0
  {
    hide Busy, FragmentFlags;
    assert Carries(FragmentFrame(msg, w.a.count, txid, false), PAD_DATA, txid);
    assert Carries(FragmentAck(msg, w.a.count, txid), PAD_ACK, txid);
    BusyNone(w.toB);
    BusyNone(w.toA);
  }

  /** Whatever A reads, it stays a sender of its message. */
  lemma SenderOfKeeps(a: Sender, msg: seq<byte>, txid: byte, r: Reading)
    requires SenderOf(a, msg, txid) && a.phase.Waiting?
    ensures SenderOf(TxStep(a, r), msg, txid)
  {
    hide Transmit, Overlay, AckFrame;
    var d := Deliver(r, HEADER_LEN + 2 + MTU);
    if d.Packet? && d.frame.payload != [] {
      var got := a.(mem := Overlay(a.mem, a.used, d.frame.payload), used := a.used + |d.frame.payload|);
      JudgeSender(got, msg, txid, d.frame);
    } else if a.retries > 1 {
      TransmitResends(a.(retries := a.retries - 1));
    }
  }

  lemma JudgeSender(a: Sender, msg: seq<byte>, txid: byte, f: Frame)
    requires SenderOf(a.(used := 0), msg, txid) && a.phase.Waiting? && 0 < a.used <= |a.mem|
    ensures SenderOf(Judge(a, f), msg, txid)
  {
    hide Transmit, Overlay, AckFrame;
    MaskedHeader(a.mem);
    var moved := a.(count := a.count + a.FragmentLength(), first := false, retries := TX_RETRIES);
    if moved.count < |msg| {
      TransmitResends(moved);
    }
    var written := a.Write(AckFrame(HeaderOf(a.mem), f.txid));
    if a.retries > 1 {
      TransmitResends(written.(retries := a.retries - 1));
    }
  }

  /** A sent the fragment at its position, so that it may be on its way. */
  lemma ResentOnTheWay(w: World, w': World, msg: seq<byte>, txid: byte)
    requires w.a.count <= |msg| && OnTheWay(w, msg, txid) && Busy(w.toB) == 0 && Busy(w.toA) == 0
    requires w'.a.count == w.a.count && w'.toA == w.toA
    requires w'.toB == w.toB || w'.toB == w.toB + [FragmentFrame(msg, w.a.count, txid, false)]
    ensures OnTheWay(w', msg, txid)
  {
    hide FragmentFrame, FragmentAck, Busy;
    var f := FragmentFrame(msg, w.a.count, txid, false);
    BusyConcat(w.toB, [f]);
    BusyOne(f);
  }

  lemma SilenceAKeeps(w: World, msg: seq<byte>, txid: byte)
    requires WorldInvariant(w, msg, txid) && Possible(w, SilenceA, false)
    ensures WorldInvariant(Do(w, SilenceA, false), msg, txid)
  {
    hide FragmentFrame, FragmentAck, Busy, TxStep;
    SenderOfKeeps(w.a, msg, txid, Failed);
    if w.b.Listening? {
      var w' := Do(w, SilenceA, false);
      LostMeansIdle(w, msg, txid);
      SilenceResends(w.a);
      ResentOnTheWay(w, w', msg, txid);
    }
  }

  /** Nothing is on the lines but what A has just sent. */
  lemma NextOnTheWay(w: World, w': World, msg: seq<byte>, txid: byte)
    requires w'.a.count <= |msg| && Busy(w.toB) == 0 && Busy(w'.toA) == 0
    requires forall f <- w.toB + w'.toA :: IsTickleFrame(f)
    requires w'.toB == w.toB || w'.toB == w.toB + [FragmentFrame(msg, w'.a.count, txid, false)]
    ensures OnTheWay(w', msg, txid)
  {
    hide FragmentFrame, FragmentAck, Busy;
    var f := FragmentFrame(msg, w'.a.count, txid, false);
    BusyConcat(w.toB, [f]);
    BusyOne(f);
    assert forall g <- w'.toA :: g in w.toB + w'.toA;
    assert forall g <- w.toB :: g in w.toB + w'.toA;
  }

  lemma BusyMember(s: seq<Frame>, f: Frame)
    requires f in s && Busy(s) == 0
    ensures IsTickleFrame(f)
  {
    var i :| 0 <= i < |s| && s[i] == f;
    BusyWithout(s, i);
  }

  lemma ReadAKeeps(w: World, msg: seq<byte>, txid: byte)
    requires WorldInvariant(w, msg, txid) && Possible(w, ReadA, false)
    ensures WorldInvariant(Do(w, ReadA, false), msg, txid)
  {
    hide FragmentFrame, FragmentAck, Busy, TxStep;
    var f, rest := w.toA[0], w.(toA := w.toA[1..]);
    SenderOfKeeps(w.a, msg, txid, Packet(f));
    if w.b.Listening? {
      BusyWithout(w.toA, 0);
      assert Without(w.toA, 0) == rest.toA;
      LinesKeep(w, rest, msg, txid);
      if IsTickleFrame(f) {
        ReadsTickle(w.a, f);
        MaskKeeps(rest, TxStep(w.a, Packet(f)), msg, txid);
      } else {
        ReadsAck(w.a, msg, txid, w.a.count);
        AckMovesOn(w, rest, msg, txid);
      }
    }
  }

  lemma AckMovesOn(w: World, rest: World, msg: seq<byte>, txid: byte)
    requires WorldInvariant(w, msg, txid) && Possible(w, ReadA, false) && w.b.Listening?
    requires rest == w.(toA := w.toA[1..]) && WorldInvariant(rest, msg, txid)
    requires !IsTickleFrame(w.toA[0]) && Busy(w.toA) == Busy(rest.toA) + 1
    ensures WorldInvariant(Do(w, ReadA, false), msg, txid)
  {
    hide FragmentFrame, FragmentAck, Busy, TxStep, Transmit, CutEnd;
    var a, r := w.a, TxStep(w.a, Packet(w.toA[0]));
    SenderOfKeeps(a, msg, txid, Packet(w.toA[0]));
    ReadsAck(a, msg, txid, a.count);
    forall g | g in w.toB + rest.toA
      ensures IsTickleFrame(g)
    {
      if g in w.toB {
        BusyMember(w.toB, g);
      } else {
        BusyMember(rest.toA, g);
      }
    }
    if !Masked(a) && CutEnd(msg, a.count) < |msg| {
      var moved := a.(count := CutEnd(msg, a.count), first := false, retries := TX_RETRIES, phase := Waiting,
                      mem := Overlay(a.mem, 0, FragmentAck(msg, a.count, txid).payload), used := HEADER_LEN);
      TransmitResends(moved);
      NextOnTheWay(w, Do(w, ReadA, false), msg, txid);
      assert InStep(r, w.b.rx, msg, false);
    } else if Masked(a) {
      MaskKeeps(rest, r, msg, txid);
    }
  }

  lemma MaskKeeps(w: World, r: Sender, msg: seq<byte>, txid: byte)
    requires WorldInvariant(w, msg, txid) && w.a.phase.Waiting? && StillMasked(w.a, r)
    ensures WorldInvariant(w.(a := r, toB := w.toB + News(w.a.sent, r.sent)), msg, txid)
  {
    hide FragmentFrame, FragmentAck, Busy, CutEnd;
    assert w.toB + News(w.a.sent, r.sent) == w.toB;
  }

  // ---- what B does -----------------------------------------------------------------------------------------------

  lemma ListenerReadsTickle(rx: Receiver, f: Frame)
    requires rx.Valid() && Fresh(rx) && IsTickleFrame(f)
    ensures var r := RxStep(rx, Packet(f));
            && r.Valid() && r.out == rx.out && r.offset == rx.offset && r.sent == rx.sent && r.data == rx.data
            && ((r.phase == rx.phase && Fresh(r)) || r.phase.Stopped?)
  {
    hide Overlay, HeaderOf, LoopTop, TakeFragment;
    ReadsWholePacket(rx, f);
    LoopTopFacts(Holding(rx, f.payload));
  }

  /** B reads a frame that was all there was on the lines, and maybe acknowledges it. */
  lemma AckOnTheWay(w: World, rest: World, w': World, msg: seq<byte>, txid: byte)
    requires w.toB != [] && rest == w.(toB := w.toB[1..]) && w.a.count <= |msg| && OnTheWay(w, msg, txid)
    requires !IsTickleFrame(w.toB[0]) && Busy(w.toB) == Busy(rest.toB) + 1
    requires w'.a == w.a && w'.toB == rest.toB
    requires w'.toA == w.toA || w'.toA == w.toA + [FragmentAck(msg, w.a.count, txid)]
    ensures OnTheWay(w', msg, txid)
  {
    hide FragmentFrame, FragmentAck, Busy;
    var f := FragmentAck(msg, w.a.count, txid);
    BusyConcat(w.toA, [f]);
    BusyOne(f);
  }

  lemma ListenerKeeps(w: World, msg: seq<byte>, txid: byte)
    requires WorldInvariant(w, msg, txid) && Possible(w, ReadB, false) && w.b.Listening?
    ensures WorldInvariant(Do(w, ReadB, false), msg, txid)
  {
    hide FragmentFrame, FragmentAck, Busy, RxStep, CutEnd;
    var f, rest, rx := w.toB[0], w.(toB := w.toB[1..]), w.b.rx;
    var w' := Do(w, ReadB, false);
    BusyWithout(w.toB, 0);
    assert Without(w.toB, 0) == rest.toB;
    LinesKeep(w, rest, msg, txid);
    if IsTickleFrame(f) {
      ListenerReadsTickle(rx, f);
      assert w'.toA == w.toA;
    } else {
      StepOnFragment(rx, msg, w.a.count);
      RxStepKeeps(rx, msg, txid, Packet(f));
      AckOnTheWay(w, rest, w', msg, txid);
      FragmentKeepsStep(w.a, rx, w'.b.rx, msg, Busy(w'.toA) > 0);
    }
  }

  /** B takes the fragment at A's position, or finds that it has it already. */
  lemma FragmentKeepsStep(a: Sender, rx: Receiver, r: Receiver, msg: seq<byte>, acked: bool)
    requires IsCut(msg, a.count) && |msg| <= 0x1_0000 && ReceiverInvariant(rx, msg, rx.data.txid) && rx.Reading()
    requires InStep(a, rx, msg, false) && FragmentEffect(rx, msg, a.count, r) && rx.offset == |rx.out|
    ensures InStep(a, r, msg, acked) && (r.phase.Finished? ==> r.phase.result >= 0)
  {
    hide FragmentAck;
    if a.count == rx.offset {
      assert rx.out + msg[a.count..CutEnd(msg, a.count)] == msg[..CutEnd(msg, a.count)];
    }
    assert msg[..|msg|] == msg;
  }

  // ---- the theorems ----------------------------------------------------------------------------------------------

  lemma StepKeeps(w: World, m: Move, msg: seq<byte>, txid: byte)
    requires WorldInvariant(w, msg, txid) && Possible(w, m, false)
    ensures WorldInvariant(Do(w, m, false), msg, txid)
  {
    hide OnTheWay, InStep, TxStep, RxStep, SenderOf, TxStart;
    match m {
      case ReadA => ReadAKeeps(w, msg, txid);
      case SilenceA => SilenceAKeeps(w, msg, txid);
      case ReadB => if w.b.Listening? { ListenerKeeps(w, msg, txid); }
      case SilenceB =>
        if w.b.Listening? {
          RxStepOnSilence(w.b.rx, Failed);
          ListenerStops(w, msg, txid);
        }
      case Answer(_, _) => ReceivedIsComplete(w, msg, txid);
      case _ => DropKeeps(w, m, msg, txid);
    }
  }

  lemma ReceivedIsComplete(w: World, msg: seq<byte>, txid: byte)
    requires WorldInvariant(w, msg, txid) && Received(w.b)
    ensures Complete(w.b.rx, msg)
  {
  }

  lemma ListenerStops(w: World, msg: seq<byte>, txid: byte)
    requires WorldInvariant(w, msg, txid) && w.b.Listening? && w.b.rx.Reading()
    ensures WorldInvariant(Do(w, SilenceB, false), msg, txid)
  {
    hide FragmentFrame, FragmentAck, Busy, CutEnd;
    RxStepOnSilence(w.b.rx, Failed);
    assert w.toA + News(w.b.rx.sent, w.b.rx.sent) == w.toA;
  }

  /** The invariant holds over every run in which A times out only on a real loss. */
  lemma {:induction false} RunsKeep(w: World, moves: seq<Move>, msg: seq<byte>, txid: byte)
    requires WorldInvariant(w, msg, txid) && Allowed(w, moves, false)
    ensures WorldInvariant(Run(w, moves, false), msg, txid)
    decreases |moves|
  {
    hide Do, OnTheWay, InStep, SenderOf, ReceiverInvariant, Complete;
    if moves != [] {
      KeepsAndStays(w, moves[0], msg, txid);
      RunsKeep(Do(w, moves[0], false), moves[1..], msg, txid);
    }
  }

  lemma KeepsAndStays(w: World, m: Move, msg: seq<byte>, txid: byte)
    requires WorldInvariant(w, msg, txid) && Possible(w, m, false)
    ensures WorldInvariant(Do(w, m, false), msg, txid)
    ensures Received(w.b) ==> Received(Do(w, m, false).b) && Do(w, m, false).b.rx.out == w.b.rx.out
  {
    StepKeeps(w, m, msg, txid);
  }

  /** The two parties at the moment A's `padp_tx` has sent its first packet and B waits in `padp_rx`. */
  function Start(d: Data, msg: seq<byte>, mem: seq<byte>, writes: seq<Writing>, rx: Receiver): (w: World)
    requires |mem| >= HEADER_LEN + 2 + MTU
    ensures rx.Valid() ==> Sane(w)
  {
    var a := TxStart(d, msg, mem, [], writes);
    World(a, Listening(rx), a.sent, [])
  }

  lemma StartHolds(d: Data, msg: seq<byte>, mem: seq<byte>, writes: seq<Writing>, rx: Receiver)
    requires IsData(d) && !d.longFormat && |msg| <= 0x1_0000 && |mem| >= HEADER_LEN + 2 + MTU
    requires rx.Valid() && Fresh(rx) && rx.phase.First? && rx.offset == 0 && rx.out == [] && rx.data.txid == d.txid
    ensures WorldInvariant(Start(d, msg, mem, writes, rx), msg, d.txid)
  {
    hide FragmentFrame, FragmentAck, Transmit, PacketBytes;
    var first := Sender(d, msg, 0, true, TX_RETRIES, mem, 0, [], writes, Waiting);
    TransmitResends(first);
    BusyOne(Piece(first, 0));
    assert [] + [Piece(first, 0)] == [Piece(first, 0)];
  }

  /** Exactness. For every message of at most 65536 bytes and every run over lines that may lose any frame: while B
    receives, its offset is A's position or one fragment ahead; B finishes only with exactly the message and what it
    received never changes after that; and when A's `padp_tx` returns a length, it is the length of the message and B
    has received the whole of it, whether the last acknowledgement arrived, was renewed, or was replaced by B's
    answer. */
  lemma Exactness(d: Data, msg: seq<byte>, mem: seq<byte>, writes: seq<Writing>, rx: Receiver, moves: seq<Move>)
    requires IsData(d) && !d.longFormat && |msg| <= 0x1_0000 && |mem| >= HEADER_LEN + 2 + MTU
    requires rx.Valid() && Fresh(rx) && rx.phase.First? && rx.offset == 0 && rx.out == [] && rx.data.txid == d.txid
    requires Allowed(Start(d, msg, mem, writes, rx), moves, false)
    ensures var w := Run(Start(d, msg, mem, writes, rx), moves, false);
            && (w.b.Listening? && !w.a.phase.Done? ==>
                  && IsCut(msg, w.a.count)
                  && (w.b.rx.offset == w.a.count || w.b.rx.offset == CutEnd(msg, w.a.count)))
            && w.b.rx.out <= msg
            && (Received(w.b) ==> w.b.rx.phase == Finished(|msg|) && w.b.rx.out == msg)
            && (w.a.phase.Done? && w.a.phase.result >= 0 ==> w.a.phase.result == |msg| && Received(w.b))
  {
    hide Do, OnTheWay, TxStart, ReallyLost;
    StartHolds(d, msg, mem, writes, rx);
    RunsKeep(Start(d, msg, mem, writes, rx), moves, msg, d.txid);
  }

  /** First recovery: at its last fragment, A takes any data packet of its transaction for the answer. */
  lemma AnswerEndsTransmission(a: Sender, msg: seq<byte>, txid: byte, answer: seq<byte>, at: nat)
    requires SenderOf(a, msg, txid) && a.phase.Waiting? && !Masked(a) && CutEnd(msg, a.count) == |msg|
    requires |answer| <= 0x1_0000 && IsCut(answer, at)
    ensures TxStep(a, Packet(FragmentFrame(answer, at, txid, false))).phase == Done(|msg|)
  {
    hide FragmentFrame, Overlay, NextTry, Acknowledged;
    var f := FragmentFrame(answer, at, txid, false);
    FragmentParts(answer, at, txid);
    FrameIds(answer, at, txid);
    StepOnPacket(a, f);
    OverlaidHead(a.mem, a.used, f.payload);
    MaskedHeader(Overlay(a.mem, 0, f.payload));
  }

  /** Second recovery, and its limit: inside its own `padp_tx`, a party acknowledges a repeat of the packet it
    acknowledged last, and sends its own fragment again, exactly if that packet is not of the transaction it is sending
    the last fragment of. Otherwise it takes the repeat for the answer and reports success. */
  lemma RepeatIsAcknowledgedOrMistaken(tx: Sender, f: Frame, r: Sender)
    requires tx.Valid() && tx.phase.Waiting? && r == TxStep(tx, Packet(f)) && tx.used == 0
    requires HEADER_LEN <= |f.payload| <= HEADER_LEN + MTU && !Bit(f.payload[1], FL_LONG) && f.slpType == SLP_TYPE_PADP
    requires Header(f.payload[0], f.payload[1], GetShort(f.payload, 2)) == tx.data.acked && f.payload[0] == PAD_DATA
    requires f.txid == tx.data.ackedTxid
    ensures var got := tx.(mem := Overlay(tx.mem, 0, f.payload), used := |f.payload|);
            if tx.data.ackedTxid == tx.data.txid && tx.AtLastFragment()
            then r == got.(phase := Done(|tx.msg|))
            else r == NextTry(got.Write(AckFrame(tx.data.acked, f.txid)))
  {
    hide Overlay, NextTry, Acknowledged;
    StepOnPacket(tx, f);
    HeaderInFront(tx.mem, f.payload);
  }

  lemma HeaderInFront(mem: seq<byte>, src: seq<byte>)
    requires |mem| >= 6 && HEADER_LEN <= |src| && !Bit(src[1], FL_LONG)
    ensures HeaderOf(Overlay(mem, 0, src)) == Header(src[0], src[1], GetShort(src, 2))
  {
    hide Overlay;
    var r := Overlay(mem, 0, src);
    assert r[0..|src|] == src;
    assert forall k :: 0 <= k < |src| ==> r[k] == r[0..|src|][k];
  }

  // ---- runs step by step ---------------------------------------------------------------------------------------

  /** `end` can be reached from `w`. */
  ghost predicate Reaches(w: World, end: World, hasty: bool)
    requires Sane(w)
  {
    exists moves: seq<Move> :: Allowed(w, moves, hasty) && Run(w, moves, hasty) == end
  }

  lemma ReachesSelf(w: World, hasty: bool)
    requires Sane(w)
    ensures Reaches(w, w, hasty)
  {
    assert Allowed(w, [], hasty) && Run(w, [], hasty) == w;
  }

  lemma ReachesBy(w: World, m: Move, end: World, hasty: bool)
    requires Sane(w) && Possible(w, m, hasty) && Reaches(Do(w, m, hasty), end, hasty)
    ensures Reaches(w, end, hasty)
  {
    hide Do, Possible;
    var moves :| Allowed(Do(w, m, hasty), moves, hasty) && Run(Do(w, m, hasty), moves, hasty) == end;
    var all := [m] + moves;
    assert all[0] == m && all[1..] == moves;
    assert Allowed(w, all, hasty) && Run(w, all, hasty) == end;
  }

  /** B takes the fragment it is due and acknowledges it. */
  lemma BTakes(w: World, msg: seq<byte>, at: nat)
    requires Sane(w) && w.b.Listening? && Fresh(w.b.rx) && w.b.rx.writes == [] && w.b.rx.clock == []
    requires |msg| <= 0x1_0000 && IsCut(msg, at) && Expects(w.b.rx, at)
    requires w.toB != [] && w.toB[0] == FragmentFrame(msg, at, w.b.rx.data.txid, false)
    ensures Possible(w, ReadB, true) && Possible(w, ReadB, false) && Do(w, ReadB, true) == Do(w, ReadB, false)
    ensures var w' := Do(w, ReadB, true);
            && w'.a == w.a && w'.toB == w.toB[1..] && w'.toA == w.toA + [FragmentAck(msg, at, w.b.rx.data.txid)]
            && w'.b.Listening? && FragmentEffect(w.b.rx, msg, at, w'.b.rx)
  {
    hide RxStep, FragmentFrame, FragmentAck;
    StepOnFragment(w.b.rx, msg, at);
  }

  /** A takes an acknowledgement and sends the next fragment. */
  lemma ATakes(w: World, msg: seq<byte>, txid: byte, at: nat)
    requires Sane(w) && SenderOf(w.a, msg, txid) && w.a.phase.Waiting? && w.a.used == 0 && w.a.writes == []
    requires at <= |msg| && w.toA != [] && w.toA[0] == FragmentAck(msg, at, txid)
    ensures Possible(w, ReadA, true)
    ensures var w' := Do(w, ReadA, true);
            && w'.b == w.b && w'.toA == w.toA[1..] && w'.a.count == CutEnd(msg, w.a.count)
            && if w'.a.count == |msg| then w'.a.phase == Done(|msg|) && w'.toB == w.toB
               else && w'.toB == w.toB + [FragmentFrame(msg, w'.a.count, txid, false)]
                    && SenderOf(w'.a, msg, txid) && w'.a.phase.Waiting? && w'.a.used == 0 && w'.a.writes == []
                    && w'.a.retries == TX_RETRIES
  {
    hide TxStep, Transmit, FragmentFrame, FragmentAck, CutEnd;
    ReadsAck(w.a, msg, txid, at);
    var moved := w.a.(count := CutEnd(msg, w.a.count), first := false, retries := TX_RETRIES, phase := Waiting,
                      mem := Overlay(w.a.mem, 0, FragmentAck(msg, at, txid).payload), used := HEADER_LEN);
    if moved.count != |msg| {
      TransmitResends(moved);
    }
  }

  /** A times out and sends its fragment again. */
  lemma ARepeats(w: World, msg: seq<byte>, txid: byte, hasty: bool)
    requires Sane(w) && SenderOf(w.a, msg, txid) && w.a.phase.Waiting? && w.a.retries > 1 && w.a.writes == []
    requires hasty || ReallyLost(w)
    ensures Possible(w, SilenceA, hasty)
    ensures var w' := Do(w, SilenceA, hasty);
            && w'.b == w.b && w'.toA == w.toA && w'.toB == w.toB + [FragmentFrame(msg, w.a.count, txid, false)]
            && SenderOf(w'.a, msg, txid) && w'.a.phase.Waiting? && w'.a.used == 0 && w'.a.writes == []
            && w'.a.count == w.a.count
  {
    hide TxStep, FragmentFrame;
    SilenceResends(w.a);
    SenderOfKeeps(w.a, msg, txid, Failed);
  }

  lemma StartSends(d: Data, msg: seq<byte>, mem: seq<byte>, rx: Receiver)
    requires IsData(d) && !d.longFormat && |msg| <= 0x1_0000 && |mem| >= HEADER_LEN + 2 + MTU && rx.Valid()
    ensures var w := Start(d, msg, mem, [], rx);
            && SenderOf(w.a, msg, d.txid) && w.a.phase.Waiting? && w.a.used == 0 && w.a.writes == [] && w.a.count == 0
            && w.a.retries == TX_RETRIES
            && w.b == Listening(rx) && w.toB == [FragmentFrame(msg, 0, d.txid, false)] && w.toA == []
  {
    hide Transmit, FragmentFrame;
    var first := Sender(d, msg, 0, true, TX_RETRIES, mem, 0, [], [], Waiting);
    TransmitResends(first);
  }

  lemma Drops(w: World, hasty: bool)
    requires Sane(w)
    ensures w.toB != [] ==> Possible(w, DropToB(0), hasty) && Do(w, DropToB(0), hasty) == w.(toB := w.toB[1..])
    ensures w.toA != [] ==> Possible(w, DropToA(0), hasty) && Do(w, DropToA(0), hasty) == w.(toA := w.toA[1..])
  {
    assert w.toB != [] ==> Without(w.toB, 0) == w.toB[1..];
    assert w.toA != [] ==> Without(w.toA, 0) == w.toA[1..];
  }
}
