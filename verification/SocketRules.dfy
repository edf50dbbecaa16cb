/** What the two sides of a socket streambuf do, on values: characters taken and sent, and characters
    received and handed out, against the script of the socket. */
module SocketRules {
  import opened Common
  import opened Network

  /** The output side. capacity is the size of the put area: 0 in unbuffered mode. */
  datatype Out = Out(capacity: nat, pending: seq<Byte>, sends: seq<Round<nat>>, ec: ErrorCode,
                     sent: seq<Byte>, accepted: seq<Byte>)
  {
    /** Nothing put has been lost, repeated or reordered on its way out. */
    ghost predicate Exact() { sent + pending == accepted }

    /** What overflow(c) has to send: the put area or, unbuffered, the character itself. */
    function Outgoing(c: Option<Byte>): seq<Byte> {
      if capacity != 0 then pending else if c.Some? then [c.value] else []
    }

    /** The send loop that overflow(c) runs. */
    function Sending(c: Option<Byte>): Transmission {
      Transmit(sends, |Outgoing(c)|, ec)
    }

    /** After overflow(c): all that was outgoing is on the wire and c has been taken, or a prefix is
        and nothing else has changed. */
    function Overflowed(c: Option<Byte>): Out {
      var t := Sending(c);
      var moved := this.(sends := t.rest, ec := t.ec, sent := sent + Outgoing(c)[..t.sent]);
      if t.end != Complete then moved
      else
        var taken := if c.Some? then [c.value] else [];
        moved.(pending := if capacity != 0 then taken else pending, accepted := accepted + taken)
    }

    predicate HasRoom() { |pending| < capacity }

    /** After sputc(c). */
    function Putting(c: Byte): (Out, End) {
      if HasRoom() then (this.(pending := pending + [c], accepted := accepted + [c]), Complete)
      else (Overflowed(Some(c)), Sending(Some(c)).end)
    }
  }

  datatype OutputOp = Put(c: Byte) | Flush | Unbuffer | Refuse(n: int)

  /** One operation, and whether it succeeds. */
  function Output(op: OutputOp, o: Out): (Out, End) {
    match op
    case Put(c) => o.Putting(c)
    case Flush => (o.Overflowed(None), o.Sending(None).end)
    case Unbuffer => (if o.pending == [] then o.(capacity := 0) else o, Complete)
    case Refuse(_) => (o, Complete)
  }

  /** A run of operations up to the first that does not succeed. */
  datatype OutputRun = OutputRun(done: nat, o: Out, end: End)

  function OutputAll(ops: seq<OutputOp>, o: Out): (r: OutputRun)
    ensures r.done <= |ops| && (r.end == Complete <==> r.done == |ops|)
  {
    if ops == [] then OutputRun(0, o, Complete)
    else
      var (o', end) := Output(ops[0], o);
      if end != Complete then OutputRun(0, o', end)
      else var r := OutputAll(ops[1..], o'); r.(done := 1 + r.done)
  }

  /** The characters that operations put. */
  function PutBy(op: OutputOp): seq<Byte> {
    if op.Put? then [op.c] else []
  }

  function Puts(ops: seq<OutputOp>): seq<Byte> {
    if ops == [] then [] else PutBy(ops[0]) + Puts(ops[1..])
  }

  /** What each operation does, from the state and the script. A put with room is taken. A put without
      sends what is pending or, unbuffered, the character itself, and is taken if all of that goes out;
      a flush sends what is pending. What does not all go out stays pending, but for nothing: the part
      that went is on the wire. Unbuffer takes effect if nothing is pending; a refused setbuf has none. */
  lemma OutputByKind(op: OutputOp, o: Out)
    requires WellFormed(o)
    ensures match op
      case Put(c) =>
        if |o.pending| < o.capacity then
          Output(op, o) == (o.(pending := o.pending + [c], accepted := o.accepted + [c]), Complete)
        else
          var out := if o.capacity != 0 then o.pending else [c];
          var t := Transmit(o.sends, |out|, o.ec);
          if t.end == Complete then
            Output(op, o) == (Out(o.capacity, if o.capacity != 0 then [c] else [], t.rest, t.ec, o.sent + out,
                                  o.accepted + [c]), Complete)
          else
            Output(op, o) == (Out(o.capacity, o.pending, t.rest, t.ec, o.sent + out[..t.sent], o.accepted), t.end)
      case Flush =>
        var t := Transmit(o.sends, |o.pending|, o.ec);
        if t.end == Complete then
          Output(op, o) == (Out(o.capacity, [], t.rest, t.ec, o.sent + o.pending, o.accepted), Complete)
        else
          Output(op, o) == (Out(o.capacity, o.pending, t.rest, t.ec, o.sent + o.pending[..t.sent], o.accepted), t.end)
      case Unbuffer => Output(op, o) == (if o.pending == [] then o.(capacity := 0) else o, Complete)
      case Refuse(_) => Output(op, o) == (o, Complete)
  {
    var nothing: seq<Byte> := [];
    assert o.pending[..|o.pending|] == o.pending && o.accepted + nothing == o.accepted;
    if op.Put? {
      assert [op.c][..1] == [op.c];
    } else if op.Flush? && o.capacity == 0 {
      assert o.Outgoing(None) == nothing && nothing[..0] == nothing;
    }
  }

  /** A run that has stopped does nothing more; one that has not does the next operation. */
  lemma {:induction false} NextOutput(ops: seq<OutputOp>, op: OutputOp, o: Out)
    requires WellFormed(o)
    ensures var r, r' := OutputAll(ops, o), OutputAll(ops + [op], o);
      && WellFormed(r.o) && (ops == [] ==> r == OutputRun(0, o, Complete))
      && if r.end != Complete then r' == r
         else var (o', end) := Output(op, r.o); r' == OutputRun(if end == Complete then |ops| + 1 else |ops|, o', end)
  {
    if ops == [] {
      assert [op][1..] == [] && ops + [op] == [op];
    } else {
      assert (ops + [op])[1..] == ops[1..] + [op];
      OutputByKind(ops[0], o);
      var (o', end) := Output(ops[0], o);
      if end == Complete { NextOutput(ops[1..], op, o'); }
    }
  }

  /** A run that ends with a flush, and to its end, leaves nothing pending: all it took is on the wire. */
  lemma FlushedRun(ops: seq<OutputOp>, o: Out)
    requires o.Exact() && WellFormed(o) && OutputAll(ops + [Flush], o).end == Complete
    ensures var o' := OutputAll(ops + [Flush], o).o;
      o'.pending == [] && o'.sent == o'.accepted == o.accepted + Puts(ops + [Flush])
  {
    NextOutput(ops, Flush, o);
    OutputByKind(Flush, OutputAll(ops, o).o);
    RunExactness(ops + [Flush], o);
    assert (ops + [Flush])[..|ops| + 1] == ops + [Flush];
  }

  /** An unbuffered streambuf has nothing pending. */
  predicate WellFormed(o: Out) { o.capacity == 0 ==> o.pending == [] }

  /** An overflow that succeeds keeps the output exact. One that does not has sent what the script
      supplied, which was too little, and keeps it exact exactly if that was nothing. */
  lemma OverflowExactness(o: Out, c: Option<Byte>)
    requires o.Exact() && WellFormed(o)
    ensures o.Sending(c).end == Complete ==> o.Overflowed(c).Exact() && WellFormed(o.Overflowed(c))
    ensures o.Sending(c).end != Complete ==>
      && Supply(o.sends) < |o.Outgoing(c)|
      && o.Overflowed(c).sent == o.sent + o.Outgoing(c)[..Supply(o.sends)]
      && o.Overflowed(c).sent <= o.accepted
      && (o.Overflowed(c).Exact() <==> Supply(o.sends) == 0)
  {
    var out := o.Outgoing(c);
    TransmitIsSupply(o.sends, |out|, o.ec);
    if o.Sending(c).end == Complete {
      assert out[..|out|] == out;
    } else {
      assert o.capacity == 0 ==> Supply(o.sends) == 0;
      RetryRepeats(o.sent, o.pending, if o.capacity == 0 then 0 else Supply(o.sends));
    }
  }

  /** A prefix sent in front of the whole repeats it. */
  lemma RetryRepeats(sent: seq<Byte>, pending: seq<Byte>, k: nat)
    requires k <= |pending|
    ensures (sent + pending[..k]) + pending == sent + pending <==> k == 0
    ensures sent + pending[..k] <= sent + pending
  {
    assert |(sent + pending[..k]) + pending| == |sent + pending| + k;
  }

  /** After a failed overflow, a sync that succeeds puts on the wire, after what was there, the part
      that the failed call had sent and then everything that was pending, from the start. */
  lemma SyncAfterFailure(o: Out, c: Option<Byte>)
    requires WellFormed(o) && o.capacity != 0
    requires Supply(o.sends) < |o.pending| && o.Overflowed(c).Sending(None).end == Complete
    ensures o.Overflowed(c).Overflowed(None).sent == o.sent + o.pending[..Supply(o.sends)] + o.pending
  {
    TransmitIsSupply(o.sends, |o.pending|, o.ec);
    assert o.pending[..|o.pending|] == o.pending;
  }

  /** What each operation keeps. */
  lemma OneOperation(op: OutputOp, o: Out)
    requires o.Exact() && WellFormed(o)
    ensures var (o', end) := Output(op, o);
      if end == Complete then o'.Exact() && WellFormed(o') && o'.accepted == o.accepted + PutBy(op)
      else o'.accepted == o.accepted && o'.sent <= o'.accepted && (op.Put? || op.Flush?)
  {
    if op.Put? && o.HasRoom() {
      Regroup(o.sent, o.pending, [op.c]);
    } else if op.Put? {
      OverflowExactness(o, Some(op.c));
    } else {
      OverflowExactness(o, None);
    }
  }

  /** Whatever the operations and the script: as long as all succeed the output is exact and has taken
      what was put; a run stops at a put or a flush whose sending the script cut short, and what is on
      the wire then is a prefix of what was taken. */
  lemma {:induction false} RunExactness(ops: seq<OutputOp>, o: Out)
    requires o.Exact() && WellFormed(o)
    ensures var r := OutputAll(ops, o);
      && r.o.accepted == o.accepted + Puts(ops[..r.done])
      && r.o.sent <= r.o.accepted
      && (r.end == Complete ==> r.o.Exact())
      && (r.end != Complete ==> ops[r.done].Put? || ops[r.done].Flush?)
  {
    if ops == [] {
      assert o.accepted == o.sent + o.pending;
    } else {
      OneOperation(ops[0], o);
      var (o', end) := Output(ops[0], o);
      if end == Complete {
        RunExactness(ops[1..], o');
        var r := OutputAll(ops, o);
        assert ops[..r.done][1..] == ops[1..][..r.done - 1];
      }
    }
  }

  /** A run that stops does so because the script does not supply what the operation it stops at has
      to send. */
  lemma {:induction false} RunStopsForLackOfSupply(ops: seq<OutputOp>, o: Out)
    requires OutputAll(ops, o).end != Complete
    ensures var done := OutputAll(ops, o).done;
      var before := OutputAll(ops[..done], o).o;
      var c := if ops[done].Put? then Some(ops[done].c) else None;
      && OutputAll(ops[..done], o).end == Complete
      && (if ops[done].Put? then !before.HasRoom() else ops[done].Flush?)
      && Supply(before.sends) < |before.Outgoing(c)|
  {
    var (o', end) := Output(ops[0], o);
    var done := OutputAll(ops, o).done;
    if end == Complete {
      RunStopsForLackOfSupply(ops[1..], o');
      assert ops[..done][1..] == ops[1..][..done - 1];
    } else {
      assert ops[..0] == [];
      var c := if ops[0].Put? then Some(ops[0].c) else None;
      TransmitIsSupply(o.sends, |o.Outgoing(c)|, o.ec);
    }
  }

  /** The input side. */
  datatype In = In(held: seq<Byte>, receives: seq<Round<seq<Byte>>>, ec: ErrorCode,
                   received: seq<Byte>, handedOut: seq<Byte>)
  {
    /** Nothing received has been lost, repeated or reordered on its way in. */
    ghost predicate Exact() { received == handedOut + held }

    /** The receive loop that a read from an empty get area runs. */
    function Receiving(room: nat): Reception
      requires room > 0
    {
      Receive(receives, room, ec)
    }

    /** The get area refilled. */
    function Refilled(room: nat): In
      requires room > 0
    {
      var t := Receiving(room);
      this.(held := t.data, receives := t.rest, ec := t.ec, received := received + t.data)
    }

    /** After sbumpc, and whether it hands out a character. */
    function Reading(room: nat): (In, End)
      requires room > 0
    {
      if held != [] then (HandOut(), Complete)
      else if Receiving(room).end != Complete then (Refilled(room), Receiving(room).end)
      else (Refilled(room).HandOut(), Complete)
    }

    /** After sgetc, and whether there is a character to look at. */
    function Looking(room: nat): (In, End)
      requires room > 0
    {
      if held != [] then (this, Complete) else (Refilled(room), Receiving(room).end)
    }

    function HandOut(): In
      requires held != []
    {
      this.(held := held[1..], handedOut := handedOut + [held[0]])
    }
  }

  datatype InputOp = Read | Look

  /** One operation, and whether there was a character. */
  function Input(op: InputOp, room: nat, i: In): (In, End)
    requires room > 0
  {
    if op == Read then i.Reading(room) else i.Looking(room)
  }

  /** A run of reads and looks, up to the first that finds no character. */
  datatype InputRun = InputRun(done: nat, i: In, end: End)

  function InputAll(ops: seq<InputOp>, room: nat, i: In): (r: InputRun)
    requires room > 0
    ensures r.done <= |ops| && (r.end == Complete <==> r.done == |ops|)
  {
    if ops == [] then InputRun(0, i, Complete)
    else
      var (i', end) := Input(ops[0], room, i);
      if end != Complete then InputRun(0, i', end)
      else var r := InputAll(ops[1..], room, i'); r.(done := 1 + r.done)
  }

  /** What each operation does, from the state and the script: with characters held, a read hands out
      the first and a look leaves them; with none, both first receive, and then find what came. */
  lemma InputByKind(op: InputOp, room: nat, i: In)
    requires room > 0
    ensures var t := Receive(i.receives, room, i.ec);
      var received := i.received + t.data;
      if i.held != [] then
        Input(op, room, i) == match op
          case Read => (In(i.held[1..], i.receives, i.ec, i.received, i.handedOut + [i.held[0]]), Complete)
          case Look => (i, Complete)
      else if t.end != Complete then
        Input(op, room, i) == (In([], t.rest, t.ec, received, i.handedOut), t.end)
      else
        Input(op, room, i) == match op
          case Read => (In(t.data[1..], t.rest, t.ec, received, i.handedOut + [t.data[0]]), Complete)
          case Look => (In(t.data, t.rest, t.ec, received, i.handedOut), Complete)
  {
  }

  /** A run that has stopped does nothing more; one that has not does the next operation. */
  lemma {:induction false} NextInput(ops: seq<InputOp>, op: InputOp, room: nat, i: In)
    requires room > 0
    ensures ops == [] ==> InputAll(ops, room, i) == InputRun(0, i, Complete)
    ensures var r, r' := InputAll(ops, room, i), InputAll(ops + [op], room, i);
      if r.end != Complete then r' == r
      else
        var (i', end) := Input(op, room, r.i);
        r' == InputRun(if end == Complete then |ops| + 1 else |ops|, i', end)
  {
    if ops == [] {
      assert [op][1..] == [] && ops + [op] == [op];
    } else {
      assert (ops + [op])[1..] == ops[1..] + [op];
      var (i', end) := Input(ops[0], room, i);
      if end == Complete { NextInput(ops[1..], op, room, i'); }
    }
  }

  /** How many of the operations are reads. */
  function Reads(ops: seq<InputOp>): nat {
    if ops == [] then 0 else (if ops[0] == Read then 1 else 0) + Reads(ops[1..])
  }

  /** Whatever the operations and the script, input stays exact and each read hands out one character;
      a run stops only when all that was received has been handed out and the script brings no more. */
  lemma {:induction false} InputIsExact(ops: seq<InputOp>, room: nat, i: In)
    requires room > 0 && i.Exact()
    ensures var r := InputAll(ops, room, i);
      && r.i.Exact() && i.handedOut <= r.i.handedOut
      && |r.i.handedOut| == |i.handedOut| + Reads(ops[..r.done])
      && (r.end != Complete ==> r.i.held == [] && r.i.received == r.i.handedOut)
  {
    if ops != [] {
      var (i', end) := Input(ops[0], room, i);
      OneReadIsExact(room, i);
      if end == Complete {
        InputIsExact(ops[1..], room, i');
        var d := InputAll(ops, room, i).done;
        assert ops[..d][1..] == ops[1..][..d - 1];
      }
    }
  }

  /** A look sees the character that a read would hand out next, and hands out nothing. */
  lemma LookSeesNextRead(room: nat, i: In)
    requires room > 0
    ensures i.Looking(room).0.Reading(room) == i.Reading(room) || i.Looking(room).1 != Complete
    ensures i.Looking(room).1 == i.Reading(room).1
    ensures i.Looking(room).0.handedOut == i.handedOut
  {
  }

  lemma OneReadIsExact(room: nat, i: In)
    requires room > 0 && i.Exact()
    ensures i.Reading(room).0.Exact() && i.Looking(room).0.Exact()
    ensures i.Reading(room).1 != Complete ==> i.Reading(room).0.held == []
    ensures i.Looking(room).1 != Complete ==> i.Looking(room).0.held == []
  {
    var j := if i.held != [] then i else i.Refilled(room);
    if j.held != [] { assert j.held == [j.held[0]] + j.held[1..]; }
  }
}
