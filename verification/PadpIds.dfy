/** Transaction ids over a series of calls, in particular while they are frozen for a large read. */
module PadpIds {
  import opened Bytes
  import opened PadpSpec

  /** A call of `padp_tx` or `padp_rx` that returned by way of its `done:` label. */
  datatype Call = Transmitted | Received

  function AfterCall(d: Data, c: Connection, call: Call): Data {
    match call
    case Transmitted => TxFinish(TxPrepare(d, c), c)
    case Received => RxFinish(RxPrepare(d, c))
  }

  function AfterCalls(d: Data, c: Connection, calls: seq<Call>): Data {
    if calls == [] then d else AfterCall(AfterCalls(d, c, calls[..|calls| - 1]), c, calls[|calls| - 1])
  }

  /** The id that the frames of a transmission after these calls carry. */
  function IdSent(d: Data, c: Connection, calls: seq<Call>): byte { TxPrepare(AfterCalls(d, c, calls), c).txid }

  /** While the ids are frozen, every series of calls uses one id, at either end of a connection. Only the end that
    opened it sends its first packets with the id it has; when the two ids agree at the start, that is no exception. */
  lemma {:induction false} FrozenIds(d: Data, c: Connection, calls: seq<Call>)
    requires d.frozen && d.kind == PAD_DATA && (c == Accepted || c == Initiated)
    ensures var r := AfterCalls(d, c, calls);
            && r.frozen && r.kind == PAD_DATA && r.nextTxid == d.nextTxid
            && (calls != [] ==> r.txid == d.nextTxid % 256)
    ensures IdSent(d, c, calls) == if c == Accepted || calls != [] then d.nextTxid % 256 else d.txid
  {
    if calls != [] {
      FrozenIds(d, c, calls[..|calls| - 1]);
    }
  }

  /** The calls for which the count that thawing makes matters: `padp_tx` works out the next id anew from the current
    one, unless that is 0, and `padp_rx` always does. */
  predicate StartsFromNext(d: Data, call: Call) { call == Transmitted && d.txid == 0 && d.kind != PAD_WAKE }

  /** Thawing counts up the next id, and that makes no difference to the next call if and only if it is a reception,
    or the current id is not 0, or it is set to 0xff because the packet is to wake the peer. */
  lemma ThawIsForgotten(d: Data, c: Connection, call: Call)
    requires d.frozen
    ensures AfterCall(Freeze(d, false), c, call) == AfterCall(d.(frozen := false), c, call)
            <==> !StartsFromNext(d, call)
  {
    var t, u := Freeze(d, false), d.(frozen := false);
    assert t == u.(nextTxid := t.nextTxid) && t.nextTxid != u.nextTxid;
    if call == Received {
      assert RxPrepare(t, c) == RxPrepare(u, c);
    } else if !StartsFromNext(d, call) {
      assert TxPrepare(t, c) == TxPrepare(u, c);
    } else {
      assert AfterCall(t, c, call).nextTxid == t.nextTxid;
    }
  }

  /** On the wire it shows at the accepting end alone, in exactly those transmissions. A next id above 0xff, which no
    call sets, could hide it, since only its low byte is sent. */
  lemma ThawOnTheWire(d: Data, c: Connection)
    requires d.frozen
    ensures IdSent(Freeze(d, false), c, []) == IdSent(d.(frozen := false), c, [])
       <==> || !StartsFromNext(d, Transmitted) || c != Accepted || d.kind == PAD_ACK
            || (d.nextTxid > 0xff && d.nextTxid % 256 == 1)
  {
  }

  /** The id of an answer, sent after a reception that acknowledged its fragments under `d.txid`: it is the same id
    if and only if the answering end opened the connection and the id is not 0. So an accepting end never takes the
    repeat of a fragment for the answer to its own. */
  lemma AnswerId(d: Data, c: Connection)
    requires !d.frozen && d.kind == PAD_DATA && (c == Accepted || c == Initiated)
    ensures IdSent(d, c, [Received]) == d.txid <==> c == Initiated && d.txid != 0
  {
    assert [Received][..0] == [];
    assert AfterCalls(d, c, [Received]) == AfterCall(AfterCalls(d, c, []), c, Received);
  }
}
