/** basic_socket_streambuf: buffered or unbuffered output, and buffered input with a putback area,
    over a socket that sends and receives in part, blocks and fails. */
module SocketStreambuf {
  import opened Common
  import opened Network
  import opened ConnectRules
  import opened SocketRules

  const BUFFER_SIZE := 512
  const PUTBACK_MAX := 8

  /** What overflow, underflow and the functions over them return. Blocked: not returned yet. */
  datatype Result = Eof | NotEof | Char(c: Byte) | Blocked

  function EndOf(r: Result): End {
    match r
    case Eof => Failed
    case Blocked => Waiting
    case _ => Complete
  }

  /** The socket: what the system will do, and what has gone over the wire so far. */
  class Socket {
    var sends: seq<Round<nat>>
    var receives: seq<Round<seq<Byte>>>
    var sent: seq<Byte>
    var received: seq<Byte>

    constructor (sends: seq<Round<nat>>, receives: seq<Round<seq<Byte>>>)
      ensures this.sends == sends && this.receives == receives && sent == received == []
    {
      this.sends, this.receives := sends, receives;
      sent, received := [], [];
    }
  }

  class Streambuf {
    const socket: Socket
    // Put area: pbase is at 0; empty in unbuffered mode.
    var putBuffer: array<Byte>
    var pptr: nat
    var epptr: nat
    // Get area: eback is at 0.
    var getBuffer: array<Byte>
    var gptr: nat
    var egptr: nat
    var ec: ErrorCode
    ghost var accepted: seq<Byte>   // every character that a put took
    ghost var handedOut: seq<Byte>  // every character that a read returned

    ghost predicate Valid() reads this {
      && (putBuffer.Length == BUFFER_SIZE || putBuffer.Length == 0)
      && pptr <= epptr == putBuffer.Length
      && getBuffer.Length == BUFFER_SIZE && PUTBACK_MAX <= gptr <= egptr <= BUFFER_SIZE
      && getBuffer != putBuffer
    }

    predicate Buffered() reads this { putBuffer.Length != 0 }

    /** What has been taken but not sent: [pbase, pptr). */
    function Pending(): seq<Byte>
      requires Valid()
      reads this, putBuffer
    {
      putBuffer[..pptr]
    }

    /** What has been received but not handed out: [gptr, egptr). */
    function Held(): seq<Byte>
      requires Valid()
      reads this, getBuffer
    {
      getBuffer[gptr..egptr]
    }

    /** Nothing put has been lost, repeated or reordered on its way out. */
    ghost predicate OutputExact()
      requires Valid()
      reads this, putBuffer, socket
    {
      socket.sent + Pending() == accepted
    }

    /** Nothing received has been lost, repeated or reordered on its way in. */
    ghost predicate InputExact()
      requires Valid()
      reads this, getBuffer, socket
    {
      socket.received == handedOut + Held()
    }

    /** The output side as a value. */
    ghost function OutputSide(): (o: Out)
      requires Valid()
      reads this, putBuffer, socket
      ensures WellFormed(o) && (o.Exact() <==> OutputExact())
    {
      Out(putBuffer.Length, Pending(), socket.sends, ec, socket.sent, accepted)
    }

    /** The input side as a value. */
    ghost function InputSide(): (i: In)
      requires Valid()
      reads this, getBuffer, socket
      ensures i.Exact() <==> InputExact()
    {
      In(Held(), socket.receives, ec, socket.received, handedOut)
    }

    constructor (s: Socket)
      requires s.sent == s.received == []
      ensures Valid() && socket == s && fresh(putBuffer) && fresh(getBuffer)
      ensures Buffered() && Pending() == [] && Held() == [] && accepted == handedOut == []
      ensures OutputExact() && InputExact() && ec == Success
      ensures putBuffer.Length == epptr == 512 && getBuffer.Length == 512 && gptr == egptr == 8
    {
      socket, ec := s, Success;
      getBuffer := new Byte[BUFFER_SIZE](_ => 0);
      putBuffer := new Byte[BUFFER_SIZE](_ => 0);
      accepted, handedOut := [], [];
      gptr, egptr := PUTBACK_MAX, PUTBACK_MAX;
      pptr, epptr := 0, BUFFER_SIZE;
    }

    // ----- output -----

    /** What overflow(c) has to send: the put area or, unbuffered, the character itself. */
    function Outgoing(c: Option<Byte>): seq<Byte>
      requires Valid()
      reads this, putBuffer
    {
      if Buffered() then Pending() else if c.Some? then [c.value] else []
    }

    /** The send loop: keeps sending what is left of output until it is gone, or the loop fails. */
    method SendLoop(output: seq<Byte>) returns (k: nat, end: End)
      modifies this`ec, socket`sends, socket`sent
      ensures Transmission(k, end, ec, socket.sends) == Transmit(old(socket.sends), |output|, old(ec))
      ensures k <= |output| && socket.sent == old(socket.sent) + output[..k]
    {
      k := 0;
      ghost var whole := Transmit(socket.sends, |output|, ec);
      while k < |output|
        invariant k <= |output| && socket.sent == old(socket.sent) + output[..k]
        invariant var t := Transmit(socket.sends, |output| - k, ec); t.(sent := k + t.sent) == whole
        decreases |socket.sends|
      {
        if socket.sends == [] { return k, Waiting; }
        var bytes, failed := SendRound(output[k..]);
        if failed { return k, Failed; }
        assert output[..k] + output[k..][..bytes] == output[..k + bytes];
        k := k + bytes;
      }
      end := Complete;
    }

    /** One round of the send loop. */
    method SendRound(output: seq<Byte>) returns (bytes: nat, failed: bool)
      requires output != [] && socket.sends != []
      modifies this`ec, socket`sends, socket`sent
      ensures bytes <= |output| && socket.sends == old(socket.sends)[1..]
      ensures socket.sent == old(socket.sent) + output[..bytes]
      ensures var t := Transmit(old(socket.sends), |output|, old(ec));
        if failed then bytes == 0 && t == Transmission(0, Failed, ec, socket.sends)
        else var rest := Transmit(socket.sends, |output| - bytes, ec); t == rest.(sent := bytes + rest.sent)
    {
      var round := socket.sends[0];
      socket.sends := socket.sends[1..];
      bytes := 0;
      match round
      case Expired =>
        ec := TimedOut;
        failed := true;
      case Moved(most) =>
        bytes := Min(most, |output|);
        ec := Success;
        socket.sent := socket.sent + output[..bytes];
        failed := bytes == 0;
      case Errs(e, poll) =>
        ec := e;
        if ec != WouldBlock && ec != TryAgain { return bytes, true; }
        ec := if poll.Some? then poll.value else Success;
        failed := poll.Some?;
    }

    /** Sends what is outgoing; then, buffered, starts the put area afresh with c. A call that does not
        succeed has sent some proper prefix of it, and neither took c nor moved the put pointers. */
    method Overflow(c: Option<Byte>) returns (r: Result, ghost k: nat)
      requires Valid()
      modifies this`ec, this`pptr, this`accepted, putBuffer, socket`sends, socket`sent
      ensures Valid() && k <= |old(Outgoing(c))| && socket.sent == old(socket.sent) + old(Outgoing(c))[..k]
      ensures var t := Transmit(old(socket.sends), |old(Outgoing(c))|, old(ec));
        && k == t.sent && ec == t.ec && socket.sends == t.rest
        && r == match t.end
                case Complete => (if c.Some? then Char(c.value) else NotEof)
                case Failed => Eof
                case Waiting => Blocked
      ensures r.Char? || r.NotEof? ==>
        && k == |old(Outgoing(c))|
        && Pending() == (if Buffered() && c.Some? then [c.value] else [])
        && accepted == old(accepted) + (if c.Some? then [c.value] else [])
      ensures r.Eof? || r.Blocked? ==>
        k < |old(Outgoing(c))| && Pending() == old(Pending()) && accepted == old(accepted)
      ensures old(OutputExact()) && (r.Char? || r.NotEof?) ==> OutputExact()
      ensures old(OutputExact()) && (r.Eof? || r.Blocked?) ==> (OutputExact() <==> k == 0)
      ensures old(OutputExact()) && (r.Eof? || r.Blocked?) ==> (OutputExact() <==> Supply(old(socket.sends)) == 0)
      ensures OutputSide() == old(OutputSide()).Overflowed(c)
    {
      TransmitIsSupply(socket.sends, |Outgoing(c)|, ec);
      if !Buffered() && c.None? {
        assert Pending() == [];
        return NotEof, 0;
      }
      ghost var outgoing := Outgoing(c);
      var output := if Buffered() then putBuffer[..pptr] else [c.value];
      var end;
      k, end := SendLoop(output);
      assert output == outgoing && outgoing[..|outgoing|] == outgoing;
      if end != Complete {
        RetryRepeats(old(socket.sent), outgoing, k);
        return if end == Failed then Eof else Blocked, k;
      }
      if Buffered() {
        pptr := 0;
        if c.None? { return NotEof, k; }
        putBuffer[pptr] := c.value;
        pptr := pptr + 1;
      }
      accepted := accepted + [c.value];
      r := Char(c.value);
    }

    /** sputc: into the put area when there is room, and otherwise decided by the sending. */
    method Sputc(c: Byte) returns (r: Result)
      requires Valid()
      modifies this`ec, this`pptr, this`accepted, putBuffer, socket`sends, socket`sent
      ensures Valid() && (r == Char(c) || r.Eof? || r.Blocked?)
      ensures accepted == old(accepted) + (if r.Char? then [c] else [])
      ensures old(OutputExact()) && r.Char? ==> OutputExact()
      ensures old(OutputExact()) && !r.Char? ==> socket.sent <= accepted && Pending() == old(Pending())
      ensures !Buffered() && r.Char? ==> socket.sent == old(socket.sent) + [c]
      ensures old(pptr < epptr) ==>
        r == Char(c) && Pending() == old(Pending()) + [c] && unchanged(socket) && ec == old(ec)
      ensures old(pptr == epptr) ==>
        var out := if Buffered() then old(Pending()) else [c];
        var t := Transmit(old(socket.sends), |out|, old(ec));
        && ec == t.ec && socket.sends == t.rest && socket.sent == old(socket.sent) + out[..t.sent]
        && r == (match t.end case Complete => Char(c) case Failed => Eof case Waiting => Blocked)
        && Pending() == (if t.end == Complete && Buffered() then [c] else old(Pending()))
      ensures (OutputSide(), EndOf(r)) == old(OutputSide()).Putting(c)
    {
      if pptr < epptr {
        putBuffer[pptr] := c;
        pptr := pptr + 1;
        accepted := accepted + [c];
        assert Pending() == old(Pending()) + [c];
        return Char(c);
      }
      ghost var k;
      r, k := Overflow(Some(c));
    }

    /** A successful sync leaves nothing pending: everything accepted is on the wire. */
    method Sync() returns (r: Result)
      requires Valid()
      modifies this`ec, this`pptr, this`accepted, putBuffer, socket`sends, socket`sent
      ensures Valid() && (r.NotEof? || r.Eof? || r.Blocked?) && accepted == old(accepted)
      ensures r.NotEof? ==> Pending() == [] && socket.sent == old(socket.sent) + old(Pending())
      ensures old(Pending()) == [] ==> r.NotEof? && socket.sends == old(socket.sends) && ec == old(ec)
      ensures var t := Transmit(old(socket.sends), |old(Pending())|, old(ec));
        && ec == t.ec && socket.sends == t.rest && socket.sent == old(socket.sent) + old(Pending())[..t.sent]
        && r == match t.end case Complete => NotEof case Failed => Eof case Waiting => Blocked
      ensures old(OutputExact()) && r.NotEof? ==> OutputExact() && socket.sent == accepted
      ensures old(OutputExact()) && !r.NotEof? ==> socket.sent <= accepted && Pending() == old(Pending())
      ensures OutputSide() == old(OutputSide()).Overflowed(None) && EndOf(r) == old(OutputSide()).Sending(None).end
    {
      ghost var k;
      r, k := Overflow(None);
      assert r.NotEof? && !Buffered() ==> old(Pending()) == [];
    }

    /** setbuf(0, 0) switches to unbuffered output, if nothing is pending. */
    method SetBuf(isNull: bool, n: int) returns (done: bool)
      requires Valid()
      modifies this`ec, this`putBuffer, this`pptr, this`epptr, this`accepted, putBuffer, socket`sends, socket`sent
      ensures Valid() && accepted == old(accepted) && socket.sent == old(socket.sent)
      ensures socket.sends == old(socket.sends) && ec == old(ec)
      ensures putBuffer == old(putBuffer) || fresh(putBuffer)
      ensures done <==> old(Pending()) == [] && isNull && n == 0
      ensures Pending() == old(Pending()) && Buffered() == (!done && old(Buffered()))
      ensures old(OutputExact()) ==> OutputExact()
      ensures OutputSide() == (if done then old(OutputSide()).(capacity := 0) else old(OutputSide()))
    {
      if pptr == 0 && isNull && n == 0 {
        putBuffer := new Byte[0];
        pptr, epptr := 0, 0;
        var _ := Sync();
        return true;
      }
      done := false;
    }

    // ----- input -----

    /** The receive loop, asking for at most room bytes at a time. */
    method ReceiveLoop(room: nat) returns (data: seq<Byte>, end: End)
      requires room > 0
      modifies this`ec, socket`receives, socket`received
      ensures Reception(data, end, ec, socket.receives) == Receive(old(socket.receives), room, old(ec))
      ensures socket.received == old(socket.received) + data
    {
      data, end := [], Failed;
      while true
        invariant socket.received == old(socket.received) && data == [] && end == Failed
        invariant Receive(socket.receives, room, ec) == Receive(old(socket.receives), room, old(ec))
        decreases |socket.receives|
      {
        if socket.receives == [] { return [], Waiting; }
        var round := socket.receives[0];
        socket.receives := socket.receives[1..];
        match round
        case Expired =>
          ec := TimedOut;
          return;
        case Moved(d) =>
          ec := Success;
          data := d[..Min(|d|, room)];
          socket.received := socket.received + data;
          if |data| > 0 { return data, Complete; }
          ec := EndOfFile;
          return;
        case Errs(e, poll) =>
          ec := e;
          if ec != WouldBlock && ec != TryAgain { return; }
          ec := if poll.Some? then poll.value else Success;
          if poll.Some? { return; }
      }
    }

    /** Refills an empty get area, above the putback area and inside the array. */
    method Underflow() returns (r: Result)
      requires Valid()
      modifies this`ec, this`gptr, this`egptr, getBuffer, socket`receives, socket`received
      ensures Valid() && (r.Char? || r.Eof? || r.Blocked?)
      ensures old(gptr != egptr) ==> r.Eof? && unchanged(this) && unchanged(getBuffer) && unchanged(socket)
      ensures old(gptr == egptr) ==>
        var t := Receive(old(socket.receives), BUFFER_SIZE - PUTBACK_MAX, old(ec));
        && ec == t.ec && socket.receives == t.rest && socket.received == old(socket.received) + t.data
        && Held() == t.data
        && r == match t.end case Complete => Char(t.data[0]) case Failed => Eof case Waiting => Blocked
      ensures r.Char? ==> gptr == PUTBACK_MAX
      ensures getBuffer[..PUTBACK_MAX] == old(getBuffer[..PUTBACK_MAX])
      ensures old(InputExact()) ==> InputExact()
    {
      if gptr != egptr { return Eof; }
      var data, end := ReceiveLoop(BUFFER_SIZE - PUTBACK_MAX);
      if end != Complete { return if end == Failed then Eof else Blocked; }
      FillGetArea(data);
      assert getBuffer[gptr] == Held()[0];
      r := Char(getBuffer[gptr]);
    }

    /** recv writes above the putback area, and setg makes what it wrote the get area. */
    method FillGetArea(data: seq<Byte>)
      requires Valid() && 0 < |data| <= BUFFER_SIZE - PUTBACK_MAX
      modifies this`gptr, this`egptr, getBuffer
      ensures Valid() && gptr == PUTBACK_MAX && Held() == data
      ensures getBuffer[..PUTBACK_MAX] == old(getBuffer[..PUTBACK_MAX])
    {
      forall i | 0 <= i < |data| { getBuffer[PUTBACK_MAX + i] := data[i]; }
      gptr, egptr := PUTBACK_MAX, PUTBACK_MAX + |data|;
      assert Held() == data;
    }

    /** sbumpc: the next character held, or else decided by the receiving. */
    method Sbumpc() returns (r: Result)
      requires Valid()
      modifies this`ec, this`gptr, this`egptr, this`handedOut, getBuffer, socket`receives, socket`received
      ensures Valid() && (r.Char? || r.Eof? || r.Blocked?)
      ensures handedOut == old(handedOut) + (if r.Char? then [r.c] else [])
      ensures old(Held()) != [] ==> r == Char(old(Held())[0]) && Held() == old(Held())[1..] && unchanged(socket)
      ensures !r.Char? ==> Held() == [] && old(Held()) == []
      ensures old(Held()) == [] ==>
        var t := Receive(old(socket.receives), BUFFER_SIZE - PUTBACK_MAX, old(ec));
        && ec == t.ec && socket.receives == t.rest && socket.received == old(socket.received) + t.data
        && r == (match t.end case Complete => Char(t.data[0]) case Failed => Eof case Waiting => Blocked)
        && Held() == if t.end == Complete then t.data[1..] else []
      ensures old(InputExact()) ==> InputExact()
      ensures (InputSide(), EndOf(r)) == old(InputSide()).Reading(BUFFER_SIZE - PUTBACK_MAX)
    {
      if gptr == egptr {
        r := Underflow();
        if !r.Char? { return; }
      }
      r := Char(getBuffer[gptr]);
      handedOut := handedOut + [getBuffer[gptr]];
      gptr := gptr + 1;
    }

    /** sgetc: the next character without handing it out. */
    method Sgetc() returns (r: Result)
      requires Valid()
      modifies this`ec, this`gptr, this`egptr, getBuffer, socket`receives, socket`received
      ensures Valid() && (r.Char? || r.Eof? || r.Blocked?) && handedOut == old(handedOut)
      ensures old(Held()) != [] ==> r.Char? && unchanged(this) && unchanged(getBuffer) && unchanged(socket)
      ensures r.Char? ==> Held() != [] && r.c == Held()[0]
      ensures old(Held()) == [] ==>
        var t := Receive(old(socket.receives), BUFFER_SIZE - PUTBACK_MAX, old(ec));
        && ec == t.ec && socket.receives == t.rest && socket.received == old(socket.received) + t.data
        && r == (match t.end case Complete => Char(t.data[0]) case Failed => Eof case Waiting => Blocked)
        && Held() == t.data
      ensures (InputSide(), EndOf(r)) == old(InputSide()).Looking(BUFFER_SIZE - PUTBACK_MAX)
      ensures old(InputExact()) ==> InputExact()
    {
      if gptr == egptr {
        r := Underflow();
      } else {
        r := Char(getBuffer[gptr]);
      }
    }

    // ----- connecting -----

    /** Tries the endpoints in order until one ends the loop. tried is how many were gone through and
        connects the ones that connect was called on. With ec clear on entry, ec is clear at the end
        exactly if the last attempt is established, if and only if that attempt was not still under
        way when its poll timed out. */
    method ConnectToEndpoints<E>(endpoints: seq<E>, attempts: seq<Attempt>) returns (connects: seq<E>, tried: nat)
      requires |endpoints| == |attempts|
      modifies this`ec
      ensures tried <= |endpoints| && connects == Called(endpoints, attempts, tried)
      ensures old(ec) != Success ==> tried == 0 && ec == old(ec)
      ensures old(ec) == Success ==>
        && tried == Made(attempts) && ec == FinalCode(attempts)
        && ec == (if tried == 0 then NotFound else attempts[tried - 1].Error())
        && (forall i :: 0 <= i < tried - 1 ==>
              !attempts[i].Established() && !attempts[i].StillUnderWay() && !attempts[i].Aborts())
        && (tried < |endpoints| ==> tried > 0 && attempts[tried - 1].Ends())
        && ((ec == Success <==> tried > 0 && attempts[tried - 1].Established())
            <==> !(tried > 0 && attempts[tried - 1].StillUnderWay()))
      ensures old(ec) == Success && endpoints == [] ==> ec == NotFound
      ensures old(ec) == Success && endpoints != [] ==>
        && tried > 0
        && (var a := attempts[tried - 1];
            var waits := a.connect == InProgress || a.connect == WouldBlock;
            && ec == (if a.expired then TimedOut
                      else if a.open != Success then a.open
                      else if !waits then a.connect
                      else if a.wait.PollFails? then a.wait.e
                      else if a.getsockopt.Some? then a.getsockopt.value
                      else a.soError)
            && (tried < |endpoints| && ec != Success ==>
                  a.expired || (a.open == Success && waits && !a.wait.PollFails? && a.getsockopt.Some?)))
      ensures forall i :: 0 <= i < tried - 1 ==>
        var a := attempts[i];
        var waits := a.connect == InProgress || a.connect == WouldBlock;
        && !a.expired
        && (a.open == Success && !waits ==> a.connect != Success)
        && (a.open == Success && waits && !a.wait.PollFails? ==> a.getsockopt.None? && a.soError != Success)
    {
      connects, tried := [], 0;
      if ec != Success { return; }
      ConnectOutcome(attempts);
      ec := NotFound;
      while tried < |endpoints|
        invariant tried <= |endpoints| && connects == Called(endpoints, attempts, tried)
        invariant ec == if tried == 0 then NotFound else attempts[tried - 1].Error()
        invariant Made(attempts) == tried + Made(attempts[tried..])
      {
        assert attempts[tried..][0] == attempts[tried] && attempts[tried..][1..] == attempts[tried + 1..];
        var called, over := TryConnect(attempts[tried]);
        if called { connects := connects + [endpoints[tried]]; }
        AttemptByFields(attempts[tried]);
        tried := tried + 1;
        if over { return; }
      }
    }

    /** One round of the loop: whether connect was called, and whether the loop is over. */
    method TryConnect(a: Attempt) returns (called: bool, over: bool)
      modifies this`ec
      ensures ec == a.Error() && called == a.Calls() && over == a.Ends()
      ensures called <==> !a.expired && a.open == Success
    {
      if a.expired {
        ec := TimedOut;
        return false, true;
      }
      ec := a.open;
      if ec != Success { return false, false; }
      ec := a.connect;
      if ec == Success { return true, true; }
      if ec != InProgress && ec != WouldBlock { return true, false; }
      ec := if a.wait.PollFails? then a.wait.e else Success;
      if a.wait.PollFails? { return true, false; }
      ec := if a.getsockopt.Some? then a.getsockopt.value else Success;
      if a.getsockopt.Some? { return true, true; }
      ec := a.soError;
      return true, ec == Success;
    }
  }

  /** A connect loop that ends without error and without a connection. */
  method ConnectsToNothing() returns (sb: Streambuf, connects: seq<int>, tried: nat)
    ensures sb.ec == Success && connects == [7] && tried == 1 && !SLOW.Established()
  {
    var s := new Socket([], []);
    sb := new Streambuf(s);
    ClearWithoutConnection();
    connects, tried := sb.ConnectToEndpoints([7], [SLOW]);
    assert Called([7], [SLOW], 1) == Called([7], [SLOW], 0) + [7];
  }

  /** A sync that fails after sending a part, and another that succeeds: 1, 2 goes out as 1, 1, 2. */
  method FailedSyncThenRetry() returns (sb: Streambuf)
    ensures sb.Valid() && sb.accepted == [1, 2] && sb.Pending() == []
    ensures sb.socket.sent == [1, 1, 2] && !sb.OutputExact()
  {
    sb := HoldingTwo([Moved(1), Expired, Moved(2)]);
    ghost var o := sb.OutputSide();
    ScriptOfRetry(o);
    var r := sb.Sync();
    r := sb.Sync();
  }

  lemma ScriptOfRetry(o: Out)
    requires o.capacity != 0 && o.pending == [1, 2] && o.sent == [] && o.sends == [Moved(1), Expired, Moved(2)]
    ensures o.Sending(None).end == Failed
    ensures o.Overflowed(None).Sending(None).end == Complete
    ensures o.Overflowed(None).Overflowed(None).sent == [1, 1, 2]
    ensures o.Overflowed(None).Overflowed(None).pending == []
  {
    var rest: seq<Round<nat>> := [Expired, Moved(2)];
    assert o.sends[1..] == rest && rest[1..] == [Moved(2)];
    assert Transmit(rest, 1, Success) == Transmission(0, Failed, TimedOut, [Moved(2)]);
    assert o.Sending(None) == Transmission(1, Failed, TimedOut, [Moved(2)]);
    assert Transmit([Moved(2)], 2, TimedOut).sent == 2;
  }

  /** A new streambuf that has taken 1 and 2. */
  method HoldingTwo(sends: seq<Round<nat>>) returns (sb: Streambuf)
    ensures sb.Valid() && fresh(sb) && fresh(sb.putBuffer) && fresh(sb.socket) && sb.Buffered()
    ensures sb.Pending() == sb.accepted == [1, 2] && sb.socket.sent == [] && sb.socket.sends == sends
  {
    var s := new Socket(sends, []);
    sb := new Streambuf(s);
    var _ := sb.Sputc(1);
    assert sb.Pending() == [1];
    var _ := sb.Sputc(2);
  }

  // ----- whole runs -----

  /** Any run of puts, syncs and setbufs, up to the first that does not succeed, against any script,
      does what the rules say: as long as all succeed the output is exact; when one does not, what is
      on the wire is a prefix of what was accepted. */
  method RunOutput(sb: Streambuf, ops: seq<OutputOp>) returns (done: nat, ghost end: End)
    requires sb.Valid()
    modifies sb, sb.putBuffer, sb.socket
    ensures sb.Valid() && OutputRun(done, sb.OutputSide(), end) == OutputAll(ops, old(sb.OutputSide()))
    ensures old(sb.OutputExact()) ==>
      && (done == |ops| ==> sb.OutputExact())
      && sb.socket.sent <= sb.accepted
      && sb.accepted == old(sb.accepted) + Puts(ops[..done])
  {
    done, end := 0, Complete;
    ghost var whole := OutputAll(ops, sb.OutputSide());
    if sb.OutputExact() { RunExactness(ops, sb.OutputSide()); }
    while done < |ops|
      invariant done <= |ops| && sb.Valid() && end == Complete
      invariant sb.putBuffer == old(sb.putBuffer) || fresh(sb.putBuffer)
      invariant var r := OutputAll(ops[done..], sb.OutputSide()); r.(done := done + r.done) == whole
    {
      assert ops[done..][0] == ops[done] && ops[done..][1..] == ops[done + 1..];
      var r := Perform(sb, ops[done]);
      if EndOf(r) != Complete {
        end := EndOf(r);
        return;
      }
      done := done + 1;
    }
  }

  /** One operation of a run. */
  method Perform(sb: Streambuf, op: OutputOp) returns (r: Result)
    requires sb.Valid()
    modifies sb, sb.putBuffer, sb.socket
    ensures sb.Valid() && (sb.putBuffer == old(sb.putBuffer) || fresh(sb.putBuffer))
    ensures (sb.OutputSide(), EndOf(r)) == Output(op, old(sb.OutputSide()))
    ensures match op
      case Put(c) => r == Char(c) || r.Eof? || r.Blocked?
      case Flush => (r.NotEof? && sb.Pending() == []) || r.Eof? || r.Blocked?
      case Unbuffer => r.NotEof? && sb.Buffered() == (old(sb.Buffered()) && old(sb.Pending()) != [])
      case Refuse(_) => r.NotEof? && sb.Buffered() == old(sb.Buffered()) && sb.Pending() == old(sb.Pending())
    ensures r.Char? ==> sb.accepted == old(sb.accepted) + [r.c]
    ensures !r.Char? ==> sb.accepted == old(sb.accepted)
  {
    match op
    case Put(c) => r := sb.Sputc(c);
    case Flush => r := sb.Sync();
    case Unbuffer =>
      var _ := sb.SetBuf(true, 0);
      r := NotEof;
    case Refuse(n) =>
      var _ := sb.SetBuf(false, n);
      r := NotEof;
  }

  /** Any run of reads and looks against any script does what the rules say; it stops early only when
      everything received has been handed out and the script brings no more. */
  method RunInput(sb: Streambuf, ops: seq<InputOp>) returns (read: seq<Byte>, done: nat, ghost end: End)
    requires sb.Valid()
    modifies sb, sb.getBuffer, sb.socket
    ensures sb.Valid()
    ensures InputRun(done, sb.InputSide(), end) == InputAll(ops, BUFFER_SIZE - PUTBACK_MAX, old(sb.InputSide()))
    ensures sb.handedOut == old(sb.handedOut) + read
    ensures old(sb.InputExact()) ==> sb.InputExact() && (done < |ops| ==> sb.socket.received == sb.handedOut)
  {
    if sb.InputExact() { InputIsExact(ops, BUFFER_SIZE - PUTBACK_MAX, sb.InputSide()); }
    read, done, end := DoInput(sb, ops);
  }

  method DoInput(sb: Streambuf, ops: seq<InputOp>) returns (read: seq<Byte>, done: nat, ghost end: End)
    requires sb.Valid()
    modifies sb, sb.getBuffer, sb.socket
    ensures sb.Valid()
    ensures InputRun(done, sb.InputSide(), end) == InputAll(ops, BUFFER_SIZE - PUTBACK_MAX, old(sb.InputSide()))
    ensures sb.handedOut == old(sb.handedOut) + read
  {
    read, done, end := [], 0, Complete;
    ghost var i := sb.InputSide();
    ghost var whole := InputAll(ops, BUFFER_SIZE - PUTBACK_MAX, i);
    while done < |ops|
      invariant done <= |ops| && sb.Valid() && end == Complete && sb.getBuffer == old(sb.getBuffer)
      invariant sb.handedOut == old(sb.handedOut) + read && i == sb.InputSide()
      invariant var r := InputAll(ops[done..], BUFFER_SIZE - PUTBACK_MAX, i); r.(done := done + r.done) == whole
    {
      assert ops[done..][0] == ops[done] && ops[done..][1..] == ops[done + 1..];
      var r := InputOne(sb, ops[done]);
      i := sb.InputSide();
      if !r.Char? {
        end := EndOf(r);
        return;
      }
      if ops[done] == Read { read := read + [r.c]; }
      done := done + 1;
    }
  }

  /** One operation of a run. */
  method InputOne(sb: Streambuf, op: InputOp) returns (r: Result)
    requires sb.Valid()
    modifies sb, sb.getBuffer, sb.socket
    ensures sb.Valid() && sb.getBuffer == old(sb.getBuffer)
    ensures (sb.InputSide(), EndOf(r)) == Input(op, BUFFER_SIZE - PUTBACK_MAX, old(sb.InputSide()))
    ensures r.Char? <==> EndOf(r) == Complete
    ensures sb.handedOut == old(sb.handedOut) + (if r.Char? && op == Read then [r.c] else [])
    ensures op == Read && old(sb.Held()) != [] ==>
      r == Char(old(sb.Held())[0]) && sb.Held() == old(sb.Held())[1..] && sb.socket.receives == old(sb.socket.receives)
    ensures op == Look && old(sb.Held()) != [] ==>
      r == Char(old(sb.Held())[0]) && sb.Held() == old(sb.Held()) && sb.socket.receives == old(sb.socket.receives)
  {
    if op == Read { r := sb.Sbumpc(); } else { r := sb.Sgetc(); }
  }
}
