/** The peek buffer of libpisock/linuxusb.c: `u_read_buf`, `u_read` and `u_flush`. */
module LinuxUsb {
  import opened Bytes
  import opened Common
  import opened PiBuffer

  const PEEK_SIZE := 256
  const TIMED_OUT := -202

  // ---- one call, on values ---------------------------------------------------------------------------------------

  /** The bytes kept from peeks and the bytes the device has not delivered yet. */
  datatype State = State(kept: seq<byte>, unread: seq<byte>)

  function Stream(s: State): seq<byte> { s.kept + s.unread }

  /** A call: `arrived` is how much the device can deliver, or negative when the wait for it times out. */
  datatype Call = Call(len: nat, peek: bool, arrived: int)

  datatype Outcome = Outcome(state: State, got: seq<byte>, result: int)

  /** How much a call takes from the bytes kept. */
  function FromKept(s: State, c: Call): nat { Min(|s.kept|, c.len) }

  /** The device is not asked when what is kept is enough. */
  predicate Asks(s: State, c: Call) { s.kept == [] || FromKept(s, c) < c.len }

  /** How much a call takes from the device. */
  function FromDevice(s: State, c: Call): (m: nat)
    ensures m <= |s.unread| && FromKept(s, c) + m <= c.len
    ensures m > 0 ==> FromKept(s, c) == |s.kept|
  {
    if !Asks(s, c) || c.arrived < 0 then 0
    else
      var more := c.len - FromKept(s, c);
      Min(Min(if c.peek then Min(more, PEEK_SIZE) else more, c.arrived), |s.unread|)
  }

  function Read(s: State, c: Call): Outcome {
    var n, m := FromKept(s, c), FromDevice(s, c);
    Outcome(State(if c.peek then s.kept + s.unread[..m] else s.kept[n..], s.unread[m..]), s.kept[..n] + s.unread[..m],
            if Asks(s, c) && c.arrived < 0 then TIMED_OUT else n + m)
  }

  /** Whatever the call does fits the peek buffer. */
  predicate Safe(s: State, c: Call) { c.peek && s.kept != [] ==> c.len <= PEEK_SIZE }

  /** A peek overruns the buffer for some device if and only if it asks for more than the buffer holds while
    something is kept from an earlier peek. */
  lemma SafeIsExact(kept: seq<byte>, len: nat, peek: bool)
    requires |kept| <= PEEK_SIZE
    ensures Safe(State(kept, []), Call(len, peek, 0))
       <==> forall unread, arrived :: |Read(State(kept, unread), Call(len, peek, arrived)).state.kept| <= PEEK_SIZE
  {
    if Safe(State(kept, []), Call(len, peek, 0)) {
      forall unread, arrived
        ensures |Read(State(kept, unread), Call(len, peek, arrived)).state.kept| <= PEEK_SIZE
      {
      }
    } else {
      var unread := seq(PEEK_SIZE, i => 0);
      assert |Read(State(kept, unread), Call(len, peek, PEEK_SIZE)).state.kept| > PEEK_SIZE;
    }
  }

  /** A peek leaves the stream as it is and shows its front; a plain read takes its front, even when it ends in a
    timeout. */
  lemma OneStream(s: State, c: Call)
    ensures var o := Read(s, c);
            && |o.got| <= |Stream(s)| && |o.got| <= c.len
            && o.got == Stream(s)[..|o.got|]
            && Stream(o.state) == (if c.peek then Stream(s) else Stream(s)[|o.got|..])
            && (o.result == |o.got| || (o.result == TIMED_OUT && c.arrived < 0))
  {
    hide FromDevice;
    Front(s.kept, s.unread, FromKept(s, c), FromDevice(s, c));
  }

  lemma Front(kept: seq<byte>, unread: seq<byte>, n: nat, m: nat)
    requires n <= |kept| && m <= |unread| && (m == 0 || n == |kept|)
    ensures kept[..n] + unread[..m] == (kept + unread)[..n + m] && kept[..n] + unread[..0] == kept[..n]
    ensures kept[n..] + unread[m..] == (kept + unread)[n + m..]
    ensures kept + unread[..m] + unread[m..] == kept + unread && unread[0..] == unread
  {
    assert unread == unread[..m] + unread[m..];
  }

  /** The bytes that plain reads delivered during a run, and the state it leaves. */
  function Run(s: State, calls: seq<Call>): (State, seq<byte>) {
    if calls == [] then (s, [])
    else
      var (before, delivered) := Run(s, calls[..|calls| - 1]);
      var c := calls[|calls| - 1];
      var o := Read(before, c);
      (o.state, if c.peek then delivered else delivered + o.got)
  }

  /** Over every run, what was delivered and what is still to come are the stream: nothing is lost, doubled or
    reordered by peeking. */
  lemma {:induction false} RunConserves(s: State, calls: seq<Call>)
    ensures var (end, delivered) := Run(s, calls); delivered + Stream(end) == Stream(s)
  {
    if calls == [] {
      assert [] + Stream(s) == Stream(s);
    } else {
      hide Read, Stream, Run;
      var front, c := calls[..|calls| - 1], calls[|calls| - 1];
      RunConserves(s, front);
      var (before, delivered) := Run(s, front);
      OneStream(before, c);
      RunStep(s, calls, before, delivered);
      Taken(delivered, Stream(before), |Read(before, c).got|);
    }
  }

  lemma RunStep(s: State, calls: seq<Call>, before: State, delivered: seq<byte>)
    requires calls != [] && Run(s, calls[..|calls| - 1]) == (before, delivered)
    ensures var o := Read(before, calls[|calls| - 1]);
            Run(s, calls) == (o.state, if calls[|calls| - 1].peek then delivered else delivered + o.got)
  {
    hide Read;
  }

  lemma Taken(delivered: seq<byte>, all: seq<byte>, k: nat)
    requires k <= |all|
    ensures delivered + all[..k] + all[k..] == delivered + all
  {
    assert all == all[..k] + all[k..];
  }

  /** Peeks of at most 256 bytes are safe in every run. */
  lemma {:induction false} RunFits(s: State, calls: seq<Call>)
    requires |s.kept| <= PEEK_SIZE && forall i :: 0 <= i < |calls| ==> calls[i].peek ==> calls[i].len <= PEEK_SIZE
    ensures |Run(s, calls).0.kept| <= PEEK_SIZE
  {
    if calls != [] {
      RunFits(s, calls[..|calls| - 1]);
    }
  }

  lemma Split(data: seq<byte>, used: nat, n: nat)
    requires used + n <= |data|
    ensures data[..used + n] == data[..used] + data[used..used + n]
  {
  }

  lemma Grouped(a: seq<byte>, b: seq<byte>, c: seq<byte>)
    ensures a + b + c == a + (b + c) && a + b + [] == a + b
  {
  }

  // ---- the port --------------------------------------------------------------------------------------------------

  class Port {
    const buf: array<byte>
    var bufSize: nat
    var unread: seq<byte>

    ghost predicate Valid()
      reads this, buf
    {
      buf.Length == PEEK_SIZE && bufSize <= PEEK_SIZE
    }

    ghost function Value(): State
      requires Valid()
      reads this, buf
    {
      State(buf[..bufSize], unread)
    }

    constructor (unread: seq<byte>)
      ensures Valid() && Value() == State([], unread) && fresh(buf)
    {
      buf := new byte[PEEK_SIZE];
      bufSize, this.unread := 0, unread;
    }

    /** `u_read_buf` */
    method ReadBuf(dst: Buffer, len: nat, peek: bool) returns (n: nat)
      requires Valid() && dst.Valid() && dst.data != buf
      modifies this`bufSize, buf, dst, dst.data
      ensures Valid() && dst.Valid() && dst.data != buf && (dst.data == old(dst.data) || fresh(dst.data))
      ensures n == Min(old(bufSize), len) && dst.Contents() == old(dst.Contents()) + old(Value()).kept[..n]
      ensures Value() == old(Value()).(kept := if peek then old(Value()).kept else old(Value()).kept[n..])
    {
      n := bufSize;
      if n > len {
        n := len;
      }
      dst.Append(buf[..n]);
      if !peek {
        ghost var was := buf[..];
        bufSize := bufSize - n;
        forall i | 0 <= i < bufSize {
          buf[i] := buf[n + i];
        }
      }
    }

    /** The copy that a peek keeps of the `n` bytes just read. */
    method Keep(dst: Buffer, n: nat)
      requires Valid() && dst.data != buf && dst.used + n <= dst.data.Length && bufSize + n <= PEEK_SIZE
      modifies this`bufSize, buf
      ensures Valid() && Value() == old(Value()).(kept := old(Value()).kept + dst.data[dst.used..dst.used + n])
    {
      forall i | 0 <= i < n {
        buf[bufSize + i] := dst.data[dst.used + i];
      }
      bufSize := bufSize + n;
    }

    /** `read`, straight into the free part of the caller's buffer. */
    method ReadDevice(dst: Buffer, len: nat, peek: bool, arrived: nat) returns (n: nat)
      requires Valid() && dst.Valid() && dst.data != buf
      requires peek ==> bufSize + Min(Min(len, arrived), |unread|) <= PEEK_SIZE
      modifies this`bufSize, this`unread, buf, dst, dst.data
      ensures Valid() && dst.Valid() && dst.data != buf && (dst.data == old(dst.data) || fresh(dst.data))
      ensures n == Min(Min(len, arrived), |old(unread)|)
      ensures dst.Contents() == old(dst.Contents()) + old(unread)[..n]
      ensures Value()
              == State(if peek then old(Value()).kept + old(unread)[..n] else old(Value()).kept, old(unread)[n..])
    {
      dst.Expect(len);
      n := Min(Min(len, arrived), |unread|);
      ghost var was := dst.Contents();
      dst.Store(dst.used, unread[..n]);
      if peek {
        Keep(dst, n);
      }
      Split(dst.data[..], dst.used, n);
      unread := unread[n..];
      dst.used := dst.used + n;
    }

    /** `u_read` */
    method Receive(dst: Buffer, len: nat, peek: bool, arrived: int) returns (result: int)
      requires Valid() && dst.Valid() && dst.data != buf && Safe(Value(), Call(len, peek, arrived))
      modifies this`bufSize, this`unread, buf, dst, dst.data
      ensures Valid() && dst.Valid() && dst.data != buf && (dst.data == old(dst.data) || fresh(dst.data))
      ensures var o := Read(old(Value()), Call(len, peek, arrived));
              Value() == o.state && dst.Contents() == old(dst.Contents()) + o.got && result == o.result
    {
      hide Overlay;
      ghost var s, c, was := Value(), Call(len, peek, arrived), dst.Contents();
      Grouped(was, s.kept[..FromKept(s, c)], s.unread[..FromDevice(s, c)]);
      var got := 0;
      if bufSize > 0 {
        got := ReadBuf(dst, len, peek);
        if got == len {
          return got;
        }
      }
      if arrived < 0 {
        return TIMED_OUT;
      }
      var left := if peek && len - got > PEEK_SIZE then PEEK_SIZE else len - got;
      var n := ReadDevice(dst, left, peek, arrived);
      result := got + n;
    }

    /** `u_flush` of the input */
    method Flush()
      requires Valid()
      modifies this`bufSize, this`unread
      ensures Valid() && Value() == State([], [])
    {
      bufSize, unread := 0, [];
    }
  }
}
