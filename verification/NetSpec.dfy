/** The NET framing of libpisock/net.c: what is put on the stream and what is made of a stream. */
module NetSpec {
  import opened Bytes

  const HEADER_LEN := 6
  const TYPE_DATA: byte := 1
  const TYPE_TCKL: byte := 2
  const SIGNATURE: byte := 0x90    // first byte of a packet without a header
  const HEADERLESS_LEN := 21
  const MAX_LEN := 0x10_0000
  const BAD_PACKET := -102

  /** A header and its packet. A tickle does not use up a transaction. */
  function Frame(kind: byte, txid: byte, msg: seq<byte>): (f: seq<byte>)
    ensures |f| == HEADER_LEN + |msg|
  {
    [kind, if kind == TYPE_TCKL then 0xff else txid] + LongBytes(|msg|) + msg
  }

  /** What `net_rx` makes of a stream when every read gets at least one byte. */
  datatype Received =
    | Packet(payload: seq<byte>, id: byte, rest: seq<byte>)
    | Headerless(payload: seq<byte>, rest: seq<byte>)
    | Bad
    | Starved

  /** `peek`: no packet has been received yet, so that the first one may lack its header. */
  function Receive(stream: seq<byte>, peek: bool): (r: Received)
    decreases |stream|
  {
    if peek && |stream| > 0 && stream[0] == SIGNATURE then
      if |stream| < 1 + HEADERLESS_LEN then Starved
      else Headerless(stream[1..1 + HEADERLESS_LEN], stream[1 + HEADERLESS_LEN..])
    else if |stream| < HEADER_LEN then Starved
    else
      var size, body := ToInt32(GetLong(stream, 2)), stream[HEADER_LEN..];
      if stream[0] == TYPE_TCKL then if size != 0 then Bad else Receive(body, peek)
      else if stream[0] != TYPE_DATA || size < 0 || size > MAX_LEN then Bad
      else if |body| < size then Starved
      else Packet(body[..size], stream[1], body[size..])
  }

  /** The type of the last header that `net_rx` reads in full, or the one before when it reads none. */
  function KindAfter(stream: seq<byte>, peek: bool, kind: byte): byte
    decreases |stream|
  {
    if (peek && stream != [] && stream[0] == SIGNATURE) || |stream| < HEADER_LEN then kind
    else if stream[0] == TYPE_TCKL && ToInt32(GetLong(stream, 2)) == 0 then
      KindAfter(stream[HEADER_LEN..], peek, TYPE_TCKL)
    else stream[0]
  }

  // ---- lists of messages -----------------------------------------------------------------------------------------

  /** What one side sends. */
  datatype Sent = Tickle | Message(id: byte, bytes: seq<byte>)

  function FrameOf(s: Sent): seq<byte> {
    match s
    case Tickle => Frame(TYPE_TCKL, 0, [])
    case Message(id, bytes) => Frame(TYPE_DATA, id, bytes)
  }

  function Stream(sent: seq<Sent>): seq<byte> {
    if sent == [] then [] else FrameOf(sent[0]) + Stream(sent[1..])
  }

  function Messages(sent: seq<Sent>): seq<Sent> {
    if sent == [] then []
    else (if sent[0].Message? then [sent[0]] else []) + Messages(sent[1..])
  }

  ghost predicate Sendable(sent: seq<Sent>) { forall s <- sent :: s.Message? ==> |s.bytes| <= MAX_LEN }

  lemma MessageIsReceived(id: byte, bytes: seq<byte>, rest: seq<byte>, peek: bool)
    requires |bytes| <= MAX_LEN
    ensures Receive(Frame(TYPE_DATA, id, bytes) + rest, peek) == Packet(bytes, id, rest)
  {
    hide LongBytes, GetLong;
    var f := Frame(TYPE_DATA, id, bytes);
    var s := f + rest;
    assert s[2..6] == f[2..6] == LongBytes(|bytes|);
    LongRoundTrip(s, 2, |bytes|);
    assert s[HEADER_LEN..] == bytes + rest;
  }

  lemma TickleIsSkipped(rest: seq<byte>, peek: bool)
    ensures Receive(FrameOf(Tickle) + rest, peek) == Receive(rest, peek)
  {
    hide LongBytes, GetLong;
    var f := FrameOf(Tickle);
    var s := f + rest;
    assert s[2..6] == f[2..6] == LongBytes(0);
    LongRoundTrip(s, 2, 0);
    assert s[HEADER_LEN..] == rest;
  }

  lemma SentStep(sent: seq<Sent>, rest: seq<byte>)
    requires sent != []
    ensures Stream(sent) + rest == FrameOf(sent[0]) + (Stream(sent[1..]) + rest)
    ensures Messages(sent) == if sent[0].Message? then [sent[0]] + Messages(sent[1..]) else Messages(sent[1..])
  {
  }

  lemma KindSkipsTickle(rest: seq<byte>, peek: bool, kind: byte)
    ensures KindAfter(FrameOf(Tickle) + rest, peek, kind) == KindAfter(rest, peek, TYPE_TCKL)
  {
    hide LongBytes, GetLong;
    var f := FrameOf(Tickle);
    var s := f + rest;
    assert s[2..6] == f[2..6] == LongBytes(0);
    LongRoundTrip(s, 2, 0);
    assert s[HEADER_LEN..] == rest;
  }

  lemma KindOfMessage(id: byte, bytes: seq<byte>, rest: seq<byte>, peek: bool, kind: byte)
    ensures KindAfter(FrameOf(Message(id, bytes)) + rest, peek, kind) == TYPE_DATA
  {
    hide LongBytes, GetLong;
  }

  /** A header comes next, good or bad. */
  predicate Headed(stream: seq<byte>, peek: bool) {
    |stream| >= HEADER_LEN && !(peek && stream[0] == SIGNATURE)
  }

  predicate GoodTickle(stream: seq<byte>, peek: bool) {
    Headed(stream, peek) && stream[0] == TYPE_TCKL && ToInt32(GetLong(stream, 2)) == 0
  }

  /** The type left behind by any list of messages and tickles and anything that follows: that of the first message,
    or of the header behind the tickles, or of the last tickle, or the type before. */
  lemma {:induction false} TypeLeft(sent: seq<Sent>, rest: seq<byte>, peek: bool, kind: byte)
    requires !GoodTickle(rest, peek)
    ensures KindAfter(Stream(sent) + rest, peek, kind)
         == if Messages(sent) != [] then TYPE_DATA
            else if Headed(rest, peek) then rest[0]
            else if sent != [] then TYPE_TCKL
            else kind
    decreases |sent|
  {
    if sent == [] {
      assert Stream(sent) + rest == rest;
    } else {
      hide FrameOf, Stream, KindAfter, Headed, GoodTickle;
      SentStep(sent, rest);
      match sent[0] {
        case Tickle =>
          KindSkipsTickle(Stream(sent[1..]) + rest, peek, kind);
          TypeLeft(sent[1..], rest, peek, TYPE_TCKL);
        case Message(id, bytes) =>
          KindOfMessage(id, bytes, Stream(sent[1..]) + rest, peek, kind);
      }
    }
  }

  /** A call of `net_rx` leaves another type than that of data, which the next packet sent would have, if and only if
    no message is received and a header of another type was read: that of a tickle, also one that is refused because
    it has a length, or one of no known type. `rest` is what follows the good tickles and the messages. */
  lemma TypeStaysData(sent: seq<Sent>, rest: seq<byte>, peek: bool)
    requires !GoodTickle(rest, peek)
    ensures KindAfter(Stream(sent) + rest, peek, TYPE_DATA) != TYPE_DATA
       <==> Messages(sent) == [] && if Headed(rest, peek) then rest[0] != TYPE_DATA else sent != []
  {
    TypeLeft(sent, rest, peek, TYPE_DATA);
  }

  /** A tickle with a length and a packet of type 7. */
  lemma BadHeadersLeaveTheirTypes(rest: seq<byte>, kind: byte)
    ensures KindAfter([TYPE_TCKL, 0xff, 0, 0, 0, 5] + rest, false, kind) == TYPE_TCKL
    ensures KindAfter([7, 0xff, 0, 0, 0, 0] + rest, false, kind) == 7
  {
    var s := [TYPE_TCKL, 0xff, 0, 0, 0, 5] + rest;
    assert GetLong(s, 2) == 5;
  }

  lemma {:induction false} StreamMore(sent: seq<Sent>, s: Sent)
    ensures Stream(sent + [s]) == Stream(sent) + FrameOf(s)
  {
    hide FrameOf;
    if sent == [] {
      assert Stream([]) == [] && ([s])[1..] == [];
    } else {
      assert (sent + [s])[1..] == sent[1..] + [s];
      StreamMore(sent[1..], s);
      Associates(FrameOf(sent[0]), Stream(sent[1..]), FrameOf(s));
    }
  }

  /** What is left to receive behind the first message. */
  function Behind(sent: seq<Sent>): (r: seq<Sent>)
    requires Messages(sent) != []
    ensures Messages(sent) == [Messages(sent)[0]] + Messages(r)
    ensures Messages(sent)[0] in sent && forall s <- r :: s in sent
  {
    if sent[0].Message? then sent[1..] else Behind(sent[1..])
  }

  /** What is left to receive behind the last message: tickles. */
  function Trailing(sent: seq<Sent>): (r: seq<Sent>)
    ensures Messages(r) == []
    decreases |Messages(sent)|
  {
    if Messages(sent) == [] then sent else Trailing(Behind(sent))
  }

  lemma TrailingStep(sent: seq<Sent>)
    ensures Trailing(sent) == if Messages(sent) == [] then sent else Trailing(Behind(sent))
  {
  }

  /** For every list of messages and tickles, whatever follows it on the stream, and whether or not a packet without
    a header is looked for: what is received is the first message, with its transaction id; the tickles before it are
    gone, and nothing behind it is touched. */
  lemma {:induction false} FirstIsReceived(sent: seq<Sent>, rest: seq<byte>, peek: bool)
    requires Sendable(sent) && Messages(sent) != []
    ensures var first := Messages(sent)[0];
            first.Message?
              && Receive(Stream(sent) + rest, peek) == Packet(first.bytes, first.id, Stream(Behind(sent)) + rest)
    decreases |sent|
  {
    hide Receive, Frame, FrameOf, Stream;
    SentStep(sent, rest);
    match sent[0] {
      case Tickle =>
        FirstIsReceived(sent[1..], rest, peek);
        TickleIsSkipped(Stream(sent[1..]) + rest, peek);
      case Message(id, bytes) =>
        assert sent[0] in sent;
        MessageIsReceived(id, bytes, Stream(sent[1..]) + rest, peek);
        FrameOfMessage(id, bytes);
    }
  }

  lemma FrameOfMessage(id: byte, bytes: seq<byte>)
    ensures FrameOf(Message(id, bytes)) == Frame(TYPE_DATA, id, bytes)
  {
  }
}
