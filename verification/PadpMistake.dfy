/** The limit of the second recovery, over whole runs: when an answering end can report success although the other end
  has read nothing of its answer. */
module PadpMistake {
  import opened Bytes
  import opened PadpSpec
  import opened PadpSender
  import opened PadpReceiver
  import opened PadpExchange
  import PadpIds

  // ---- the ids of a listener -------------------------------------------------------------------------------------

  /** `d` with what `e` remembers of the last acknowledgement. */
  function Remembering(d: Data, e: Data): Data { d.(ackedTxid := e.ackedTxid, acked := e.acked) }

  /** A reception that began with `d` has changed no id, or ended as `padp_rx` does. */
  ghost predicate Follows(rx: Receiver, d: Data, c: Connection) {
    && (rx.Reading() ==> rx.connection == c && rx.data == Remembering(d, rx.data))
    && (rx.phase.Finished? ==> rx.connection == c && rx.data == Remembering(RxFinish(d), rx.data))
  }

  lemma TakenFollows(rx: Receiver, h: Header, d: Data, c: Connection)
    requires |rx.mem| >= HEADER_LEN + MTU && HEADER_LEN <= rx.total <= |rx.mem| && rx.Reading() && Follows(rx, d, c)
    ensures Follows(TakeFragment(rx, h), d, c)
  {
    hide AckFrame;
  }

  lemma ClassifiedFollows(rx: Receiver, f: Frame, d: Data, c: Connection)
    requires |rx.mem| >= HEADER_LEN + MTU && HEADER_LEN <= rx.total <= |rx.mem| && rx.Reading() && Follows(rx, d, c)
    ensures Follows(Classify(rx, f), d, c)
  {
    hide TakeFragment, HeaderOf;
    TakenFollows(rx, HeaderOf(rx.mem), d, c);
  }

  lemma StepFollows(rx: Receiver, r: Reading, d: Data, c: Connection)
    requires rx.Valid() && rx.Reading() && Follows(rx, d, c)
    ensures Follows(RxStep(rx, r), d, c)
  {
    hide Classify, Overlay;
    var limit := rx.headerSize + MTU - rx.total;
    if r.Packet? && |r.frame.payload| <= limit {
      RxStepOnPacket(rx, r.frame);
      var got := Collected(rx, r.frame.payload);
      if got.total >= got.headerSize {
        ClassifiedFollows(got, r.frame, d, c);
      }
    }
  }

  // ---- two transmitters facing each other ------------------------------------------------------------------------

  /** `d` holds an acknowledgement that the first fragment of `answer`, sent under `id`, would be taken to repeat. */
  predicate Remembers(d: Data, answer: seq<byte>, id: byte) {
    d.ackedTxid == id && d.acked == Header(PAD_DATA, FragmentFlags(answer, 0, false), |answer| % 0x1_0000)
  }

  lemma MaskedReads(a: Sender, f: Frame)
    requires a.Valid() && a.phase.Waiting? && Masked(a) && 0 < |f.payload| <= HEADER_LEN + 2 + MTU
    ensures StillMasked(a, TxStep(a, Packet(f)))
  {
    hide Transmit, NextTry, Acknowledged, Overlay, HeaderOf;
    StepOnPacket(a, f);
    OverlaidHead(a.mem, a.used, f.payload);
    MaskedHeader(Overlay(a.mem, a.used, f.payload));
  }

  /** The packet in the buffer is a fragment. */
  lemma ReadsFragment(tx: Sender, msg: seq<byte>, at: nat, txid: byte)
    requires tx.Valid() && tx.phase.Waiting? && tx.used == 0 && |msg| <= 0x1_0000 && IsCut(msg, at)
    ensures var f := FragmentFrame(msg, at, txid, false);
            var got := tx.(mem := Overlay(tx.mem, 0, f.payload), used := |f.payload|);
            && f.slpType == SLP_TYPE_PADP && f.txid == txid && got.Valid() && TxStep(tx, Packet(f)) == Judge(got, f)
            && HeaderOf(got.mem)
               == Header(PAD_DATA, FragmentFlags(msg, at, false), (if at == 0 then |msg| else at) % 0x1_0000)
  {
    hide FragmentFrame, Overlay, Judge, FragmentFlags, HeaderOf;
    var f := FragmentFrame(msg, at, txid, false);
    FragmentParts(msg, at, txid);
    FragmentHeader(msg, at, txid);
    FrameIds(msg, at, txid);
    StepOnPacket(tx, f);
    HeaderInFront(tx.mem, f.payload);
  }

  /** A at its last fragment reads the answer: that ends its `padp_tx`, with success if the ids agree. */
  lemma AnswerEnds(a: Sender, msg: seq<byte>, txid: byte, answer: seq<byte>, id: byte)
    requires SenderOf(a, msg, txid) && a.phase.Waiting? && !Masked(a) && CutEnd(msg, a.count) == |msg|
    requires |answer| <= 0x1_0000 && !Remembers(a.data, answer, id)
    ensures TxStep(a, Packet(FragmentFrame(answer, 0, id, false))).phase.Done?
  {
    hide FragmentFrame, Overlay, HeaderOf, NextTry, Acknowledged, FragmentFlags;
    ReadsFragment(a, answer, 0, id);
  }

  /** What a transmitter adds to `before` is at most `x` and `y`. */
  ghost predicate AddsOnly(before: seq<Frame>, after: seq<Frame>, x: Frame, y: Frame) {
    before <= after && forall f <- News(before, after) :: f == x || f == y
  }

  /** B reads a fragment of A's message while it waits for an acknowledgement of its first fragment. */
  ghost predicate PieceEffect(tx: Sender, answer: seq<byte>, id: byte, ack: Frame, txid: byte, r: Sender)
  {
    && (r.phase.Done? && r.phase.result >= 0 ==> id == txid && |answer| <= MTU)
    && (r.phase.Waiting? ==> r.count == 0)
    && AddsOnly(tx.sent, r.sent, ack, FragmentFrame(answer, 0, id, false))
  }

  lemma PieceReplied(tx: Sender, msg: seq<byte>, at: nat, txid: byte, answer: seq<byte>, id: byte)
    requires SenderOf(tx, answer, id) && tx.phase.Waiting? && tx.count == 0 && !Masked(tx)
    requires |msg| <= 0x1_0000 && IsCut(msg, at)
    ensures PieceEffect(tx, answer, id, FragmentAck(msg, at, txid), txid,
                        TxStep(tx, Packet(FragmentFrame(msg, at, txid, false))))
  {
    hide FragmentFrame, Overlay, HeaderOf, Transmit, Acknowledged, FragmentFlags, AckFrame;
    var f := FragmentFrame(msg, at, txid, false);
    ReadsFragment(tx, msg, at, txid);
    var got := tx.(mem := Overlay(tx.mem, 0, f.payload), used := |f.payload|);
    var written := got.Write(FragmentAck(msg, at, txid));
    if tx.retries > 1 {
      TransmitResends(written.(retries := tx.retries - 1));
    }
    assert News(tx.sent, tx.sent) == [];
    assert News(tx.sent, tx.sent + [FragmentAck(msg, at, txid)]) == [FragmentAck(msg, at, txid)];
  }

  // ---- over whole runs -------------------------------------------------------------------------------------------

  /** A's `padp_tx` started with `d`, B's `padp_rx` with `base`, both with short headers, and B answers `answer`. */
  datatype Exchange = Exchange(d: Data, msg: seq<byte>, base: Data, c: Connection, answer: seq<byte>)
  {
    /** The id of B's answer. */
    function Id(): byte { TxPrepare(RxFinish(base), c).txid }

    ghost predicate Valid() {
      && IsData(d) && !d.longFormat && |msg| <= 0x1_0000
      && base.kind == PAD_DATA && !base.longFormat && base.txid == d.txid && |answer| <= 0x1_0000
    }

    /** B takes a repeat of A's last fragment for A's reply. */
    predicate Mistakable() { Id() == d.txid && |answer| <= MTU }
  }

  predicate ToBFrame(f: Frame, x: Exchange, at: nat)
    requires at <= |x.msg|
  {
    IsTickleFrame(f) || f == FragmentFrame(x.msg, at, x.d.txid, false)
  }

  predicate ToAFrame(f: Frame, x: Exchange, at: nat)
    requires at <= |x.msg|
  {
    IsTickleFrame(f) || f == FragmentAck(x.msg, at, x.d.txid) || f == FragmentFrame(x.answer, 0, x.Id(), false)
  }

  /** A waits at its last fragment, which B has, and B at the first of its answer. */
  ghost predicate Facing(w: World, tx: Sender, x: Exchange)
  {
    && w.a.count <= |x.msg| && CutEnd(x.msg, w.a.count) == |x.msg|
    && (forall f <- w.toB :: ToBFrame(f, x, w.a.count)) && (forall f <- w.toA :: ToAFrame(f, x, w.a.count))
    && SenderOf(tx, x.answer, x.Id())
    && (tx.phase.Waiting? ==> tx.count == 0)
    && (tx.phase.Done? && tx.phase.result >= 0 ==> x.Mistakable())
  }

  ghost predicate Apart(w: World, x: Exchange) {
    && WorldInvariant(w, x.msg, x.d.txid) && w.a.data == x.d
    && match w.b
       case Listening(rx) => Follows(rx, x.base, x.c)
       case Answering(_, tx) => tx.msg == x.answer && w.a.phase.Waiting? ==> Facing(w, tx, x)
  }

  lemma NewsOf(before: seq<Frame>, f: Frame)
    ensures News(before, before) == [] && News(before, before + [f]) == [f]
  {
  }

  /** B begins to answer. */
  lemma AnswerFaces(w: World, x: Exchange, mem: seq<byte>)
    requires x.Valid() && Apart(w, x) && Possible(w, Answer(x.answer, mem), false) && w.a.phase.Waiting?
    ensures var w' := Do(w, Answer(x.answer, mem), false);
            Facing(w', w'.b.tx, x)
  {
    hide FragmentFrame, FragmentAck, Transmit, Busy, CutEnd;
    var rx := w.b.rx;
    var first := Sender(TxPrepare(rx.data, rx.connection), x.answer, 0, true, TX_RETRIES, mem, 0, rx.sent, rx.writes,
                        Waiting);
    TransmitResends(first);
    NewsOf(rx.sent, FragmentFrame(x.answer, 0, x.Id(), false));
  }

  /** A's moves. */
  lemma ASilenceFaces(w: World, x: Exchange)
    requires x.Valid() && Apart(w, x) && Possible(w, SilenceA, false) && w.b.Answering? && w.b.tx.msg == x.answer
    ensures var w' := Do(w, SilenceA, false);
            w'.a.phase.Waiting? ==> Facing(w', w'.b.tx, x)
  {
    hide FragmentFrame, FragmentAck, TxStep, CutEnd;
    SilenceResends(w.a);
    NewsOf(w.a.sent, FragmentFrame(x.msg, w.a.count, x.d.txid, false));
  }

  lemma AReadFaces(w: World, x: Exchange)
    requires x.Valid() && Apart(w, x) && Possible(w, ReadA, false) && w.b.Answering? && w.b.tx.msg == x.answer
    requires !Remembers(x.d, x.answer, x.Id())
    ensures var w' := Do(w, ReadA, false);
            w'.a.phase.Waiting? ==> Facing(w', w'.b.tx, x)
  {
    hide FragmentFrame, FragmentAck, TxStep, CutEnd, Remembers;
    var f := w.toA[0];
    assert ToAFrame(f, x, w.a.count);
    if IsTickleFrame(f) {
      ReadsTickle(w.a, f);
    } else if f == FragmentAck(x.msg, w.a.count, x.d.txid) {
      ReadsAck(w.a, x.msg, x.d.txid, w.a.count);
    } else if Masked(w.a) {
      FragmentParts(x.answer, 0, x.Id());
      MaskedReads(w.a, f);
    } else {
      AnswerEnds(w.a, x.msg, x.d.txid, x.answer, x.Id());
    }
    NewsOf(w.a.sent, f);
  }

  /** B's moves. */
  lemma BSilenceFaces(w: World, x: Exchange)
    requires x.Valid() && Apart(w, x) && Possible(w, SilenceB, false) && w.b.Answering? && w.b.tx.msg == x.answer
    requires w.a.phase.Waiting?
    ensures var w' := Do(w, SilenceB, false);
            Facing(w', w'.b.tx, x)
  {
    hide FragmentFrame, FragmentAck, TxStep, CutEnd;
    var tx := w.b.tx;
    SenderOfKeeps(tx, x.answer, x.Id(), Failed);
    SilenceResends(tx);
    NewsOf(tx.sent, FragmentFrame(x.answer, 0, x.Id(), false));
  }

  lemma BReadFaces(w: World, x: Exchange)
    requires x.Valid() && Apart(w, x) && Possible(w, ReadB, false) && w.b.Answering? && w.b.tx.msg == x.answer
    requires w.a.phase.Waiting?
    ensures var w' := Do(w, ReadB, false);
            Facing(w', w'.b.tx, x)
  {
    hide FragmentFrame, FragmentAck, TxStep, CutEnd;
    var f, tx := w.toB[0], w.b.tx;
    assert ToBFrame(f, x, w.a.count);
    SenderOfKeeps(tx, x.answer, x.Id(), Packet(f));
    NewsOf(tx.sent, f);
    if IsTickleFrame(f) {
      ReadsTickle(tx, f);
    } else if Masked(tx) {
      FragmentParts(x.msg, w.a.count, x.d.txid);
      MaskedReads(tx, f);
    } else {
      PieceReplied(tx, x.msg, w.a.count, x.d.txid, x.answer, x.Id());
    }
  }

  lemma LinesFace(w: World, m: Move, x: Exchange)
    requires Apart(w, x) && Possible(w, m, false) && w.b.Answering? && w.b.tx.msg == x.answer && w.a.phase.Waiting?
    requires m.DropToB? || m.DropToA? || m.TickleToB? || m.TickleToA?
    ensures Facing(Do(w, m, false), w.b.tx, x)
  {
    hide FragmentFrame, FragmentAck, CutEnd, SenderOf;
  }

  lemma ListenerApart(w: World, m: Move, x: Exchange)
    requires x.Valid() && Apart(w, x) && Possible(w, m, false) && w.b.Listening?
    ensures Do(w, m, false).b.Listening? ==> Follows(Do(w, m, false).b.rx, x.base, x.c)
  {
    hide RxStep, TxStep, Follows, TxStart, ReallyLost, OnTheWay, InStep, SenderOf, ReceiverInvariant;
    if m.ReadB? {
      StepFollows(w.b.rx, Packet(w.toB[0]), x.base, x.c);
    } else if m.SilenceB? {
      StepFollows(w.b.rx, Failed, x.base, x.c);
    }
  }

  lemma StepStaysApart(w: World, m: Move, x: Exchange)
    requires x.Valid() && Apart(w, x) && Possible(w, m, false) && !Remembers(x.d, x.answer, x.Id())
    ensures Apart(Do(w, m, false), x)
  {
    hide RxStep, TxStep, Follows, Transmit, ReallyLost, Facing, Remembers, OnTheWay, InStep, SenderOf,
         ReceiverInvariant;
    StepKeeps(w, m, x.msg, x.d.txid);
    if w.b.Listening? {
      ListenerApart(w, m, x);
      if m.Answer? && w.a.phase.Waiting? && m.msg == x.answer {
        AnswerFaces(w, x, m.mem);
      }
    } else if w.b.tx.msg == x.answer && w.a.phase.Waiting? {
      match m {
        case ReadA => AReadFaces(w, x);
        case SilenceA => ASilenceFaces(w, x);
        case ReadB => BReadFaces(w, x);
        case SilenceB => BSilenceFaces(w, x);
        case _ => LinesFace(w, m, x);
      }
    }
  }

  lemma {:induction false} RunStaysApart(w: World, moves: seq<Move>, x: Exchange)
    requires x.Valid() && Apart(w, x) && Allowed(w, moves, false) && !Remembers(x.d, x.answer, x.Id())
    ensures Apart(Run(w, moves, false), x)
    decreases |moves|
  {
    hide Do, Remembers, Follows, Facing, OnTheWay, InStep, SenderOf, ReceiverInvariant, Complete;
    if moves != [] {
      StepStaysApart(w, moves[0], x);
      RunStaysApart(Do(w, moves[0], false), moves[1..], x);
    }
  }

  // ---- a run to the mistake --------------------------------------------------------------------------------------

  /** B, which has received the message, answers in one fragment. */
  lemma BAnswers(w: World, x: Exchange, mem: seq<byte>)
    requires Sane(w) && w.b.Listening? && Received(w.b) && w.b.rx.writes == [] && Follows(w.b.rx, x.base, x.c)
    requires x.Valid() && |x.answer| <= MTU && |mem| >= HEADER_LEN + 2 + MTU
    ensures Possible(w, Answer(x.answer, mem), false)
    ensures var w' := Do(w, Answer(x.answer, mem), false);
            && w'.a == w.a && w'.toB == [] && w'.toA == w.toA + [FragmentFrame(x.answer, 0, x.Id(), false)]
            && w'.b.Answering? && w'.b.tx.phase.Waiting? && w'.b.tx.used == 0 && w'.b.tx.data.txid == x.Id()
            && w'.b.tx.msg == x.answer && w'.b.tx.AtLastFragment()
  {
    hide Transmit, FragmentFrame;
    var rx := w.b.rx;
    TransmitResends(Sender(TxPrepare(rx.data, rx.connection), x.answer, 0, true, TX_RETRIES, mem, 0, rx.sent,
                           rx.writes, Waiting));
  }

  /** B, sending the last fragment of its answer in the transaction of A's message, reads A's repeat of its last
    fragment: it reports success, although A has read nothing. */
  lemma BMistakes(w: World, msg: seq<byte>, txid: byte)
    requires Sane(w) && w.b.Answering? && w.b.tx.phase.Waiting? && |msg| <= 0x1_0000 && IsCut(msg, w.a.count)
    requires w.b.tx.used == 0 && w.b.tx.data.txid == txid && w.b.tx.AtLastFragment()
    requires w.toB != [] && w.toB[0] == FragmentFrame(msg, w.a.count, txid, false)
    ensures Possible(w, ReadB, false)
    ensures var w' := Do(w, ReadB, false);
            w'.a == w.a && w'.b.Answering? && w'.b.tx.msg == w.b.tx.msg && w'.b.tx.phase == Done(|w.b.tx.msg|)
  {
    hide FragmentFrame, Overlay, NextTry, Acknowledged, HeaderOf, FragmentFlags;
    ReadsFragment(w.b.tx, msg, w.a.count, txid);
  }

  /** B reports that its answer was delivered while A still waits to read any of it. */
  ghost predicate Mistaken(w: World, answer: seq<byte>) {
    && w.a.phase.Waiting?
    && w.b.Answering? && w.b.tx.msg == answer && w.b.tx.phase.Done? && w.b.tx.phase.result >= 0
  }

  ghost predicate LeadsToMistake(w: World, answer: seq<byte>)
    requires Sane(w)
  {
    exists end: World :: Reaches(w, end, false) && Mistaken(end, answer)
  }

  lemma LeadsBy(w: World, m: Move, answer: seq<byte>)
    requires Sane(w) && Possible(w, m, false) && LeadsToMistake(Do(w, m, false), answer)
    ensures LeadsToMistake(w, answer)
  {
    hide Do, Possible, Reaches, Mistaken;
    var end: World :| Reaches(Do(w, m, false), end, false) && Mistaken(end, answer);
    ReachesBy(w, m, end, false);
  }

  /** A waits at the fragment it has just sent, which is the one B is due. */
  ghost predicate Marching(w: World, x: Exchange) {
    && Sane(w) && SenderOf(w.a, x.msg, x.d.txid) && IsCut(x.msg, w.a.count)
    && w.a.phase.Waiting? && w.a.used == 0 && w.a.writes == [] && w.a.retries == TX_RETRIES
    && w.toB == [FragmentFrame(x.msg, w.a.count, x.d.txid, false)] && w.toA == []
    && w.b.Listening?
    && var rx := w.b.rx;
       && Fresh(rx) && Expects(rx, w.a.count) && rx.offset == w.a.count && rx.writes == [] && rx.clock == []
       && Follows(rx, x.base, x.c)
  }

  /** The acknowledgement of the last fragment and B's answer are lost, A repeats the fragment, and B takes it for A's
    reply. */
  lemma LastMistakes(w: World, x: Exchange, mem: seq<byte>)
    requires x.Valid() && x.Mistakable() && |mem| >= HEADER_LEN + 2 + MTU
    requires Sane(w) && SenderOf(w.a, x.msg, x.d.txid) && IsCut(x.msg, w.a.count)
    requires w.a.phase.Waiting? && w.a.used == 0 && w.a.writes == [] && w.a.retries == TX_RETRIES
    requires w.toB == [] && |w.toA| == 1
    requires w.b.Listening? && Received(w.b) && w.b.rx.writes == [] && Follows(w.b.rx, x.base, x.c)
    ensures LeadsToMistake(w, x.answer)
  {
    hide Do, FragmentFrame, Reaches, SenderOf, Follows;
    Drops(w, false);
    var w1 := Do(w, DropToA(0), false);
    BAnswers(w1, x, mem);
    var w2 := Do(w1, Answer(x.answer, mem), false);
    Drops(w2, false);
    var w3 := Do(w2, DropToA(0), false);
    ARepeats(w3, x.msg, x.d.txid, false);
    var w4 := Do(w3, SilenceA, false);
    BMistakes(w4, x.msg, x.d.txid);
    var w5 := Do(w4, ReadB, false);
    ReachesSelf(w5, false);
    assert LeadsToMistake(w5, x.answer);
    LeadsBy(w4, ReadB, x.answer);
    LeadsBy(w3, SilenceA, x.answer);
    LeadsBy(w2, DropToA(0), x.answer);
    LeadsBy(w1, Answer(x.answer, mem), x.answer);
    LeadsBy(w, DropToA(0), x.answer);
  }

  lemma {:induction false} MarchMistakes(w: World, x: Exchange, mem: seq<byte>)
    requires x.Valid() && x.Mistakable() && Marching(w, x) && |mem| >= HEADER_LEN + 2 + MTU
    ensures LeadsToMistake(w, x.answer)
    decreases |x.msg| - w.a.count
  {
    hide Do, FragmentFrame, FragmentAck, LeadsToMistake, FragmentFlags, SenderOf, Follows, RxStep;
    var at := w.a.count;
    assert w.b.rx.data.txid == x.d.txid by { FollowsTxid(w.b.rx, x); }
    BTakes(w, x.msg, at);
    assert Do(w, ReadB, false).b == Listening(RxStep(w.b.rx, Packet(w.toB[0]))) by { ListenerReads(w); }
    StepFollows(w.b.rx, Packet(w.toB[0]), x.base, x.c);
    var w1 := Do(w, ReadB, false);
    if CutEnd(x.msg, at) == |x.msg| {
      LastMistakes(w1, x, mem);
    } else {
      ATakes(w1, x.msg, x.d.txid, at);
      ReadsAnyway(w1);
      var w2 := Do(w1, ReadA, false);
      assert Marching(w2, x);
      MarchMistakes(w2, x, mem);
      LeadsBy(w1, ReadA, x.answer);
    }
    LeadsBy(w, ReadB, x.answer);
  }

  lemma FollowsTxid(rx: Receiver, x: Exchange)
    requires rx.Reading() && Follows(rx, x.base, x.c) && x.Valid()
    ensures rx.data.txid == x.d.txid
  {
  }

  lemma ListenerReads(w: World)
    requires Sane(w) && w.b.Listening? && Possible(w, ReadB, false)
    ensures Do(w, ReadB, false).b == Listening(RxStep(w.b.rx, Packet(w.toB[0])))
  {
    hide RxStep;
  }

  lemma ReadsAnyway(w: World)
    requires Sane(w) && Possible(w, ReadA, true)
    ensures Possible(w, ReadA, false) && Do(w, ReadA, false) == Do(w, ReadA, true)
  {
    hide TxStep;
  }

  // ---- the theorem -----------------------------------------------------------------------------------------------

  /** Some run without a premature timeout, from the moment A has sent its first packet and B waits for it, comes to the
    mistake. */
  ghost predicate CanMistake(x: Exchange) {
    exists mem, writes, rx, moves :: MistakenRun(x, mem, writes, rx, moves)
  }

  ghost predicate MistakenRun(x: Exchange, mem: seq<byte>, writes: seq<Writing>, rx: Receiver, moves: seq<Move>) {
    && |mem| >= HEADER_LEN + 2 + MTU
    && rx.Valid() && Fresh(rx) && rx.phase.First? && rx.offset == 0 && rx.out == []
    && rx.data == x.base && rx.connection == x.c
    && var w := Start(x.d, x.msg, mem, writes, rx);
       Allowed(w, moves, false) && Mistaken(Run(w, moves, false), x.answer)
  }

  /** It comes to it if and only if the answer has the id of A's message and is sent in one fragment. */
  lemma MistakeCondition(x: Exchange)
    requires x.Valid() && !Remembers(x.d, x.answer, x.Id())
    ensures CanMistake(x) <==> x.Mistakable()
  {
    hide MistakenRun, Remembers;
    forall mem, writes, rx, moves | MistakenRun(x, mem, writes, rx, moves)
      ensures x.Mistakable()
    {
      RunIsMistakable(x, mem, writes, rx, moves);
    }
    if x.Mistakable() {
      MistakeIsReached(x, seq(HEADER_LEN + 2 + MTU, i => 0));
    }
  }

  lemma RunIsMistakable(x: Exchange, mem: seq<byte>, writes: seq<Writing>, rx: Receiver, moves: seq<Move>)
    requires x.Valid() && !Remembers(x.d, x.answer, x.Id()) && MistakenRun(x, mem, writes, rx, moves)
    ensures x.Mistakable()
  {
    hide Run, Allowed, WorldInvariant, Remembers, TxStart, SenderOf;
    var w := Start(x.d, x.msg, mem, writes, rx);
    StartHolds(x.d, x.msg, mem, writes, rx);
    StartIsApart(x, mem, writes, rx);
    RunStaysApart(w, moves, x);
  }

  lemma StartIsApart(x: Exchange, mem: seq<byte>, writes: seq<Writing>, rx: Receiver)
    requires |mem| >= HEADER_LEN + 2 + MTU && rx.Reading() && rx.data == x.base && rx.connection == x.c
    requires WorldInvariant(Start(x.d, x.msg, mem, writes, rx), x.msg, x.d.txid)
    ensures Apart(Start(x.d, x.msg, mem, writes, rx), x)
  {
    hide Transmit, WorldInvariant;
  }

  lemma MistakeIsReached(x: Exchange, mem: seq<byte>)
    requires x.Valid() && x.Mistakable() && |mem| >= HEADER_LEN + 2 + MTU
    ensures CanMistake(x)
  {
    hide Run, Allowed, Mistaken, TxStart, FragmentFrame, SenderOf;
    var rx := Receiver(x.base, x.c, false, mem, 0, HEADER_LEN, 0, [], [], [], [], First);
    var w := Start(x.d, x.msg, mem, [], rx);
    StartSends(x.d, x.msg, mem, rx);
    MarchMistakes(w, x, mem);
    var end: World :| Reaches(w, end, false) && Mistaken(end, x.answer);
    var moves: seq<Move> :| Allowed(w, moves, false) && Run(w, moves, false) == end;
    assert MistakenRun(x, mem, [], rx, moves);
  }

  /** Unless the ids are frozen or A remembers the header of B's answer from an earlier packet with its id, B can
    mistake a repeat for A's reply if and only if it opened the connection, the id is not 0, and its answer is sent
    in one fragment. The accepting end is never mistaken. */
  lemma AnsweringEndIsMistaken(d: Data, msg: seq<byte>, dB: Data, c: Connection, answer: seq<byte>)
    requires IsData(d) && !d.longFormat && |msg| <= 0x1_0000 && |answer| <= 0x1_0000
    requires dB.kind == PAD_DATA && !dB.longFormat && !dB.frozen && dB.txid == d.txid
    requires (c == Accepted || c == Initiated)
    requires !Remembers(d, answer, PadpIds.IdSent(dB, c, [PadpIds.Received]))
    ensures CanMistake(Exchange(d, msg, RxPrepare(dB, c), c, answer))
       <==> c == Initiated && d.txid != 0 && |answer| <= MTU
  {
    hide CanMistake, Remembers;
    var x := Exchange(d, msg, RxPrepare(dB, c), c, answer);
    PadpIds.AnswerId(dB, c);
    AnswerIds(dB, c);
    MistakeCondition(x);
  }

  lemma AnswerIds(dB: Data, c: Connection)
    ensures PadpIds.IdSent(dB, c, [PadpIds.Received]) == TxPrepare(RxFinish(RxPrepare(dB, c)), c).txid
  {
    assert [PadpIds.Received][..0] == [];
    assert PadpIds.AfterCalls(dB, c, [PadpIds.Received])
        == PadpIds.AfterCall(PadpIds.AfterCalls(dB, c, []), c, PadpIds.Received);
  }
}
