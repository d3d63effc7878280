/** Premature repeats. Acknowledgements are not compared with what was sent, so when A repeats a fragment that was not
  lost, the second acknowledgement of it stands for the next fragment. Whether that loses data is a matter of the
  message's length. */
module PadpHasty {
  import opened Bytes
  import opened PadpSpec
  import opened PadpSender
  import opened PadpReceiver
  import opened PadpExchange

  /** B finishes only with exactly the message, and a length that A returns is the message's and means that B has it. */
  ghost predicate Exact(w: World, msg: seq<byte>) {
    && (Received(w.b) ==> w.b.rx.phase == Finished(|msg|) && w.b.rx.out == msg)
    && (w.a.phase.Done? && w.a.phase.result >= 0 ==> w.a.phase.result == |msg| && Received(w.b))
  }

  // ---- messages of at most two fragments -------------------------------------------------------------------------

  function One(b: bool): nat { if b then 1 else 0 }

  /** While B lacks a part of the message, only the first fragment has been acknowledged, and only once: either B still
    lacks it, or its acknowledgement is on its way, or lost, or A has moved on by it. */
  ghost predicate OneStep(w: World, rx: Receiver, msg: seq<byte>, txid: byte) {
    && IsCut(msg, w.a.count) && !w.a.phase.Done?
    && (rx.offset == 0 || rx.offset == MTU < |msg|)
    && (forall f <- w.toB :: IsTickleFrame(f) || f == FragmentFrame(msg, 0, txid, false)
                             || f == FragmentFrame(msg, w.a.count, txid, false))
    && (forall f <- w.toA :: IsTickleFrame(f) || f == FragmentAck(msg, 0, txid))
    && Busy(w.toA) + One(rx.offset == 0) + One(w.a.count > 0) <= 1
  }

  ghost predicate Tame(w: World, msg: seq<byte>, txid: byte) {
    && Sane(w) && SenderOf(w.a, msg, txid) && |msg| <= 2 * MTU
    && match w.b
       case Answering(rx, _) => Complete(rx, msg)
       case Listening(rx) =>
         && ReceiverInvariant(rx, msg, txid)
         && if rx.phase.Finished? then Complete(rx, msg) else OneStep(w, rx, msg, txid)
  }

  lemma TameIsExact(w: World, msg: seq<byte>, txid: byte)
    requires Tame(w, msg, txid)
    ensures Exact(w, msg)
  {
  }

  lemma TameLines(w: World, w': World, msg: seq<byte>, txid: byte)
    requires Tame(w, msg, txid) && w' == w.(toB := w'.toB, toA := w'.toA)
    requires forall f <- w'.toB :: f in w.toB || IsTickleFrame(f)
    requires forall f <- w'.toA :: f in w.toA || IsTickleFrame(f)
    requires Busy(w'.toA) <= Busy(w.toA)
    ensures Tame(w', msg, txid)
  {
    hide FragmentFrame, FragmentAck, Busy;
  }

  lemma TameDrop(w: World, m: Move, msg: seq<byte>, txid: byte)
    requires Tame(w, msg, txid) && Possible(w, m, true)
    requires m.DropToB? || m.DropToA? || m.TickleToB? || m.TickleToA?
    ensures Tame(Do(w, m, true), msg, txid)
  {
    hide Busy, MoveA, MoveB, StartAnswer, OneStep, SenderOf, ReceiverInvariant;
    match m {
      case DropToB(i) => BusyWithout(w.toB, i);
      case DropToA(i) => BusyWithout(w.toA, i);
      case TickleToB(id) =>
        BusyOne(Frame(SLP_TYPE_PADP, id, TICKLE));
      case TickleToA(id) =>
        BusyOne(Frame(SLP_TYPE_PADP, id, TICKLE));
        BusyConcat(w.toA, [Frame(SLP_TYPE_PADP, id, TICKLE)]);
    }
    TameLines(w, Do(w, m, true), msg, txid);
  }

  lemma TameSilenceA(w: World, msg: seq<byte>, txid: byte)
    requires Tame(w, msg, txid) && Possible(w, SilenceA, true)
    ensures Tame(Do(w, SilenceA, true), msg, txid)
  {
    hide FragmentFrame, FragmentAck, Busy, TxStep;
    SenderOfKeeps(w.a, msg, txid, Failed);
    if w.b.Listening? && !w.b.rx.phase.Finished? {
      SilenceResends(w.a);
    }
  }

  lemma TameReadA(w: World, msg: seq<byte>, txid: byte)
    requires Tame(w, msg, txid) && Possible(w, ReadA, true)
    ensures Tame(Do(w, ReadA, true), msg, txid)
  {
    hide FragmentFrame, FragmentAck, Busy, TxStep;
    var f, rest := w.toA[0], w.(toA := w.toA[1..]);
    SenderOfKeeps(w.a, msg, txid, Packet(f));
    if w.b.Listening? && !w.b.rx.phase.Finished? {
      BusyWithout(w.toA, 0);
      assert Without(w.toA, 0) == rest.toA;
      TameLines(w, rest, msg, txid);
      if IsTickleFrame(f) {
        ReadsTickle(w.a, f);
        TameMask(rest, TxStep(w.a, Packet(f)), msg, txid);
      } else {
        TameAck(w, rest, msg, txid);
      }
    }
  }

  lemma TameMask(w: World, r: Sender, msg: seq<byte>, txid: byte)
    requires Tame(w, msg, txid) && w.a.phase.Waiting? && StillMasked(w.a, r)
    ensures Tame(w.(a := r, toB := w.toB + News(w.a.sent, r.sent)), msg, txid)
  {
    hide FragmentFrame, FragmentAck, Busy, CutEnd;
    assert w.toB + News(w.a.sent, r.sent) == w.toB;
  }

  /** The one acknowledgement moves A on to the second fragment. */
  lemma TameAck(w: World, rest: World, msg: seq<byte>, txid: byte)
    requires Tame(w, msg, txid) && Possible(w, ReadA, true) && w.b.Listening? && !w.b.rx.phase.Finished?
    requires rest == w.(toA := w.toA[1..]) && Tame(rest, msg, txid)
    requires !IsTickleFrame(w.toA[0]) && Busy(w.toA) == Busy(rest.toA) + 1
    ensures Tame(Do(w, ReadA, true), msg, txid)
  {
    hide FragmentFrame, FragmentAck, Busy, TxStep, Transmit;
    var a, r := w.a, TxStep(w.a, Packet(w.toA[0]));
    SenderOfKeeps(a, msg, txid, Packet(w.toA[0]));
    ReadsAck(a, msg, txid, 0);
    if Masked(a) {
      TameMask(rest, r, msg, txid);
    } else {
      var moved := a.(count := CutEnd(msg, a.count), first := false, retries := TX_RETRIES, phase := Waiting,
                      mem := Overlay(a.mem, 0, FragmentAck(msg, 0, txid).payload), used := HEADER_LEN);
      TransmitResends(moved);
    }
  }

  lemma TameReadB(w: World, msg: seq<byte>, txid: byte)
    requires Tame(w, msg, txid) && Possible(w, ReadB, true) && w.b.Listening?
    ensures Tame(Do(w, ReadB, true), msg, txid)
  {
    hide FragmentFrame, FragmentAck, Busy, RxStep;
    var f, rest, rx := w.toB[0], w.(toB := w.toB[1..]), w.b.rx;
    TameLines(w, rest, msg, txid);
    if IsTickleFrame(f) {
      ListenerReadsTickle(rx, f);
      assert Do(w, ReadB, true).toA == w.toA;
    } else {
      var at: nat := if f == FragmentFrame(msg, 0, txid, false) then 0 else w.a.count;
      StepOnFragment(rx, msg, at);
      RxStepKeeps(rx, msg, txid, Packet(f));
      TameTakes(w, rest, msg, txid, at);
    }
  }

  /** The first fragment is taken and acknowledged once; the second completes the message. */
  lemma TameTakes(w: World, rest: World, msg: seq<byte>, txid: byte, at: nat)
    requires Tame(w, msg, txid) && Possible(w, ReadB, true) && w.b.Listening?
    requires rest == w.(toB := w.toB[1..]) && Tame(rest, msg, txid)
    requires (at == 0 || at == w.a.count) && w.toB[0] == FragmentFrame(msg, at, txid, false)
    requires var r := RxStep(w.b.rx, Packet(w.toB[0]));
             FragmentEffect(w.b.rx, msg, at, r) && ReceiverInvariant(r, msg, txid)
    ensures Tame(Do(w, ReadB, true), msg, txid)
  {
    hide FragmentFrame, FragmentAck, Busy, RxStep;
    var rx, r := w.b.rx, RxStep(w.b.rx, Packet(w.toB[0]));
    BusyConcat(w.toA, [FragmentAck(msg, 0, txid)]);
    BusyOne(FragmentAck(msg, 0, txid));
    if r.phase.Finished? {
      assert rx.out + msg[at..CutEnd(msg, at)] == msg;
    } else {
      assert r.sent == rx.sent ==> w.toA + News(rx.sent, r.sent) == w.toA;
    }
  }

  lemma TameSilenceB(w: World, msg: seq<byte>, txid: byte)
    requires Tame(w, msg, txid) && w.b.Listening? && w.b.rx.Reading()
    ensures Tame(Do(w, SilenceB, true), msg, txid)
  {
    hide FragmentFrame, FragmentAck, Busy, CutEnd;
    RxStepOnSilence(w.b.rx, Failed);
    assert w.toA + News(w.b.rx.sent, w.b.rx.sent) == w.toA;
  }

  lemma TameStep(w: World, m: Move, msg: seq<byte>, txid: byte)
    requires Tame(w, msg, txid) && Possible(w, m, true)
    ensures Tame(Do(w, m, true), msg, txid)
  {
    hide OneStep, TxStep, RxStep, SenderOf, TxStart;
    match m {
      case ReadA => TameReadA(w, msg, txid);
      case SilenceA => TameSilenceA(w, msg, txid);
      case ReadB => if w.b.Listening? { TameReadB(w, msg, txid); }
      case SilenceB => if w.b.Listening? { TameSilenceB(w, msg, txid); }
      case Answer(_, _) =>
      case _ => TameDrop(w, m, msg, txid);
    }
  }

  lemma {:induction false} TameRun(w: World, moves: seq<Move>, msg: seq<byte>, txid: byte)
    requires Tame(w, msg, txid) && Allowed(w, moves, true)
    ensures Tame(Run(w, moves, true), msg, txid)
    decreases |moves|
  {
    hide Do, OneStep, SenderOf, ReceiverInvariant, Complete;
    if moves != [] {
      TameStep(w, moves[0], msg, txid);
      TameRun(Do(w, moves[0], true), moves[1..], msg, txid);
    }
  }

  // ---- longer messages -------------------------------------------------------------------------------------------

  /** B waits for the third fragment, which will not come: A is at a later one, and has just sent it. */
  ghost predicate Astray(w: World, msg: seq<byte>, txid: byte) {
    && Sane(w) && SenderOf(w.a, msg, txid) && IsCut(msg, w.a.count) && 2 * MTU < w.a.count
    && w.a.phase.Waiting? && w.a.used == 0 && w.a.writes == []
    && w.toB == [FragmentFrame(msg, w.a.count, txid, false)] && w.toA == []
    && w.b.Listening?
    && var rx := w.b.rx;
       && Fresh(rx) && rx.phase.Next? && rx.offset == 2 * MTU && rx.writes == [] && rx.clock == []
       && rx.data.txid == txid
  }

  /** B has ended with the first two fragments. */
  ghost predicate TakenForWhole(end: World) { Received(end.b) && end.b.rx.phase == Finished(2 * MTU) }

  /** A reports success, nothing is on its way to B, and B waits for more. */
  ghost predicate NeverArrives(end: World, msg: seq<byte>) {
    end.a.phase == Done(|msg|) && end.b.Listening? && !Received(end.b) && end.toB == []
  }

  /** B acknowledges each fragment that A has come to, without taking it, and is told by the last one that the
    message is complete. */
  lemma {:induction false} StaysAstray(w: World, msg: seq<byte>, txid: byte)
    requires Astray(w, msg, txid)
    ensures exists end: World :: Reaches(w, end, true) && TakenForWhole(end)
    decreases |msg| - w.a.count
  {
    hide Do, FragmentFrame, FragmentAck, Reaches, FragmentFlags, SenderOf;
    var at := w.a.count;
    assert |msg| <= 0x1_0000 by { SenderMessage(w.a, msg, txid); }
    BTakes(w, msg, at);
    var w1 := Do(w, ReadB, true);
    if CutEnd(msg, at) == |msg| {
      ReachesSelf(w1, true);
      ReachesBy(w, ReadB, w1, true);
      assert TakenForWhole(w1);
    } else {
      ATakes(w1, msg, txid, at);
      var w2 := Do(w1, ReadA, true);
      assert Astray(w2, msg, txid);
      StaysAstray(w2, msg, txid);
      var end: World :| Reaches(w2, end, true) && TakenForWhole(end);
      ReachesBy(w1, ReadA, end, true);
      ReachesBy(w, ReadB, end, true);
    }
  }

  lemma SenderMessage(a: Sender, msg: seq<byte>, txid: byte)
    requires SenderOf(a, msg, txid)
    ensures a.msg == msg && |msg| <= 0x1_0000 && a.Valid()
  {
  }

  /** One premature repeat of the second fragment and the loss of the third lead to an end that is not exact: with three
    fragments A reports success while B waits for ever; with more, B takes the first two for the whole message. */
  lemma RepeatLosesData(d: Data, msg: seq<byte>, mem: seq<byte>, rx: Receiver)
    requires IsData(d) && !d.longFormat && 2 * MTU < |msg| <= 0x1_0000 && |mem| >= HEADER_LEN + 2 + MTU
    requires rx.Valid() && Fresh(rx) && rx.phase.First? && rx.offset == 0 && rx.out == [] && rx.data.txid == d.txid
    requires rx.writes == [] && rx.clock == []
    ensures exists end: World ::
              && Reaches(Start(d, msg, mem, [], rx), end, true)
              && if |msg| <= 3 * MTU then NeverArrives(end, msg) else TakenForWhole(end)
  {
    hide Do, FragmentFrame, FragmentAck, TxStart, Reaches, ReallyLost, FragmentFlags, SenderOf;
    var w0 := Start(d, msg, mem, [], rx);
    StartSends(d, msg, mem, rx);
    BTakes(w0, msg, 0);
    var w1 := Do(w0, ReadB, true);
    ATakes(w1, msg, d.txid, 0);
    var w2 := Do(w1, ReadA, true);
    BTakes(w2, msg, MTU);
    var w3 := Do(w2, ReadB, true);
    ARepeats(w3, msg, d.txid, true);
    var w4 := Do(w3, SilenceA, true);
    ATakes(w4, msg, d.txid, MTU);
    var w5 := Do(w4, ReadA, true);
    BTakes(w5, msg, MTU);
    var w6 := Do(w5, ReadB, true);
    Drops(w6, true);
    var w7 := Do(w6, DropToB(0), true);
    ATakes(w7, msg, d.txid, MTU);
    var w8 := Do(w7, ReadA, true);
    var end: World;
    if |msg| <= 3 * MTU {
      ReachesSelf(w8, true);
      assert NeverArrives(w8, msg);
      end := w8;
    } else {
      assert Astray(w8, msg, d.txid);
      StaysAstray(w8, msg, d.txid);
      end :| Reaches(w8, end, true) && TakenForWhole(end);
    }
    ReachesBy(w7, ReadA, end, true);
    ReachesBy(w6, DropToB(0), end, true);
    ReachesBy(w5, ReadB, end, true);
    ReachesBy(w4, ReadA, end, true);
    ReachesBy(w3, SilenceA, end, true);
    ReachesBy(w2, ReadB, end, true);
    ReachesBy(w1, ReadA, end, true);
    ReachesBy(w0, ReadB, end, true);
  }

  // ---- the theorem -----------------------------------------------------------------------------------------------

  /** A run of the two parties in which A may time out at any moment ends exactly. */
  ghost predicate EndsExactly(d: Data, msg: seq<byte>, mem: seq<byte>, writes: seq<Writing>, rx: Receiver,
                              moves: seq<Move>)
  {
    && |mem| >= HEADER_LEN + 2 + MTU
    && rx.Valid() && Fresh(rx) && rx.phase.First? && rx.offset == 0 && rx.out == [] && rx.data.txid == d.txid
    && Allowed(Start(d, msg, mem, writes, rx), moves, true)
    ==> Exact(Run(Start(d, msg, mem, writes, rx), moves, true), msg)
  }

  /** When A may repeat what was not lost, every run is exact if and only if the message has at most two fragments. */
  lemma HastyRunsAreExact(d: Data, msg: seq<byte>)
    requires IsData(d) && !d.longFormat && |msg| <= 0x1_0000
    ensures (forall mem, writes, rx, moves :: EndsExactly(d, msg, mem, writes, rx, moves)) <==> |msg| <= 2 * MTU
  {
    hide EndsExactly;
    if |msg| <= 2 * MTU {
      forall mem, writes, rx, moves ensures EndsExactly(d, msg, mem, writes, rx, moves) {
        ShortRunsAreExact(d, msg, mem, writes, rx, moves);
      }
    } else {
      var mem := seq(HEADER_LEN + 2 + MTU, i => 0);
      var rx := Receiver(d, Initiated, false, mem, 0, HEADER_LEN, 0, [], [], [], [], First);
      LongRunIsNot(d, msg, mem, rx);
    }
  }

  lemma ShortRunsAreExact(d: Data, msg: seq<byte>, mem: seq<byte>, writes: seq<Writing>, rx: Receiver, moves: seq<Move>)
    requires IsData(d) && !d.longFormat && |msg| <= 2 * MTU
    ensures EndsExactly(d, msg, mem, writes, rx, moves)
  {
    hide Exact, Tame, Run, Allowed;
    if |mem| >= HEADER_LEN + 2 + MTU && rx.Valid() && Fresh(rx) && rx.phase.First? && rx.offset == 0 && rx.out == []
      && rx.data.txid == d.txid
    {
      var w := Start(d, msg, mem, writes, rx);
      StartIsTame(d, msg, mem, writes, rx);
      if Allowed(w, moves, true) {
        TameRun(w, moves, msg, d.txid);
        TameIsExact(Run(w, moves, true), msg, d.txid);
      }
    }
  }

  lemma StartIsTame(d: Data, msg: seq<byte>, mem: seq<byte>, writes: seq<Writing>, rx: Receiver)
    requires IsData(d) && !d.longFormat && |msg| <= 2 * MTU && |mem| >= HEADER_LEN + 2 + MTU
    requires rx.Valid() && Fresh(rx) && rx.phase.First? && rx.offset == 0 && rx.out == [] && rx.data.txid == d.txid
    ensures Tame(Start(d, msg, mem, writes, rx), msg, d.txid)
  {
    hide FragmentFrame, FragmentAck, Transmit, PacketBytes;
    var first := Sender(d, msg, 0, true, TX_RETRIES, mem, 0, [], writes, Waiting);
    TransmitResends(first);
    assert [] + [Piece(first, 0)] == [Piece(first, 0)];
  }

  lemma WayThere(w: World, end: World)
    requires Sane(w) && Reaches(w, end, true)
    ensures exists moves: seq<Move> :: Allowed(w, moves, true) && Run(w, moves, true) == end
  {
  }

  lemma LongRunIsNot(d: Data, msg: seq<byte>, mem: seq<byte>, rx: Receiver)
    requires IsData(d) && !d.longFormat && 2 * MTU < |msg| <= 0x1_0000 && |mem| >= HEADER_LEN + 2 + MTU
    requires rx.Valid() && Fresh(rx) && rx.phase.First? && rx.offset == 0 && rx.out == [] && rx.data.txid == d.txid
    requires rx.writes == [] && rx.clock == []
    ensures exists moves :: !EndsExactly(d, msg, mem, [], rx, moves)
  {
    hide Start, Reaches, Allowed, Run;
    var w := Start(d, msg, mem, [], rx);
    RepeatLosesData(d, msg, mem, rx);
    var end: World :|
      && Reaches(w, end, true)
      && if |msg| <= 3 * MTU then NeverArrives(end, msg) else TakenForWhole(end);
    assert !Exact(end, msg);
    WayThere(w, end);
    var moves: seq<Move> :| Allowed(w, moves, true) && Run(w, moves, true) == end;
    assert !EndsExactly(d, msg, mem, [], rx, moves);
  }
}
