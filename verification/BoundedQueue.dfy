/** A queue of at most so many characters: what a run of streambuf operations does, on values. */
module BoundedQueue {
  import opened Common

  /** Prepare and write nothing; prepare for data and some spare, write data and commit it; consume;
      and the single-character put, take and look. */
  datatype Op =
    | Prepare(n: nat)
    | Feed(data: seq<Byte>, spare: nat)
    | Consume(n: nat)
    | Put(c: Byte)
    | Take
    | Look

  /** Whether there is no length_error. */
  predicate Accepts(op: Op, q: seq<Byte>, max: nat) {
    match op
    case Prepare(n) => |q| + n <= max
    case Feed(data, spare) => |q| + |data| + spare <= max
    case Put(_) => |q| < max
    case _ => true
  }

  /** What an operation appends. */
  function Added(op: Op): seq<Byte> {
    match op
    case Feed(data, _) => data
    case Put(c) => [c]
    case _ => []
  }

  /** How many characters an operation removes. */
  function Dropped(op: Op, q: seq<Byte>): (n: nat)
    ensures n <= |q|
  {
    match op
    case Consume(n) => Min(n, |q|)
    case Take => Min(1, |q|)
    case _ => 0
  }

  /** A queue and its history: what is held, and what has been appended and removed so far. */
  datatype Log = Log(held: seq<Byte>, appended: seq<Byte>, removed: seq<Byte>) {
    /** First in, first out: nothing lost, repeated or reordered. */
    ghost predicate Intact() { appended == removed + held }
  }

  /** After an operation. */
  function Do(op: Op, s: Log): Log {
    var n := Dropped(op, s.held);
    Log(s.held[n..] + Added(op), s.appended + Added(op), s.removed + s.held[..n])
  }

  /** An operation that only removes, or does neither. */
  lemma DoWithoutAdding(op: Op, s: Log)
    requires Added(op) == []
    ensures var n := Dropped(op, s.held); Do(op, s) == Log(s.held[n..], s.appended, s.removed + s.held[..n])
  {
  }

  /** An operation that only adds, or does neither. */
  lemma DoWithoutDropping(op: Op, s: Log)
    requires op.Prepare? || op.Feed? || op.Put?
    ensures Do(op, s) == Log(s.held + Added(op), s.appended + Added(op), s.removed)
  {
    assert s.held[0..] == s.held && s.removed + s.held[..0] == s.removed;
  }

  /** A run up to the first length_error. */
  datatype QueueRun = QueueRun(done: nat, s: Log)

  function RunQueue(ops: seq<Op>, s: Log, max: nat): (r: QueueRun)
    ensures r.done <= |ops|
  {
    if ops == [] || !Accepts(ops[0], s.held, max) then QueueRun(0, s)
    else var r := RunQueue(ops[1..], Do(ops[0], s), max); r.(done := 1 + r.done)
  }

  /** A run that has stopped does nothing more; one that has not does the next operation if the queue
      accepts it. */
  lemma {:induction false} NextOperation(ops: seq<Op>, op: Op, s: Log, max: nat)
    ensures ops == [] ==> RunQueue(ops, s, max) == QueueRun(0, s)
    ensures var r, r' := RunQueue(ops, s, max), RunQueue(ops + [op], s, max);
      r' == if r.done < |ops| || !Accepts(op, r.s.held, max) then r else QueueRun(|ops| + 1, Do(op, r.s))
  {
    if ops == [] {
      assert [op][1..] == [] && ops + [op] == [op];
    } else {
      assert (ops + [op])[1..] == ops[1..] + [op];
      if Accepts(ops[0], s.held, max) { NextOperation(ops[1..], op, Do(ops[0], s), max); }
    }
  }

  /** What each operation does at the end of a run that has not stopped, from what it holds: q is what
      is held by then. */
  lemma NextOperationByKind(ops: seq<Op>, op: Op, s: Log, max: nat)
    requires RunQueue(ops, s, max).done == |ops|
    ensures var r, r' := RunQueue(ops, s, max), RunQueue(ops + [op], s, max);
      var q := r.s.held;
      match op
      case Prepare(n) => r' == if |q| + n > max then r else r.(done := |ops| + 1)
      case Feed(data, spare) =>
        if |q| + |data| + spare > max then r' == r
        else r' == QueueRun(|ops| + 1, Log(q + data, r.s.appended + data, r.s.removed))
      case Put(c) =>
        if |q| >= max then r' == r else r' == QueueRun(|ops| + 1, Log(q + [c], r.s.appended + [c], r.s.removed))
      case Consume(n) =>
        if n >= |q| then r' == QueueRun(|ops| + 1, Log([], r.s.appended, r.s.removed + q))
        else r' == QueueRun(|ops| + 1, Log(q[n..], r.s.appended, r.s.removed + q[..n]))
      case Take =>
        if q == [] then r' == r.(done := |ops| + 1)
        else r' == QueueRun(|ops| + 1, Log(q[1..], r.s.appended, r.s.removed + [q[0]]))
      case Look => r' == r.(done := |ops| + 1)
  {
    NextOperation(ops, op, s, max);
    var q := RunQueue(ops, s, max).s.held;
    assert q[0..] == q && q[..0] == [] && q[..|q|] == q && q[|q|..] == [];
    assert q != [] ==> q[..1] == [q[0]];
    if Added(op) == [] { DoWithoutAdding(op, RunQueue(ops, s, max).s); }
  }

  /** Everything that a list of operations appends. */
  function Fed(ops: seq<Op>): seq<Byte> {
    if ops == [] then [] else Added(ops[0]) + Fed(ops[1..])
  }

  /** Over any run what was removed and what is held is what was appended. The bound is kept, and only
      a length_error stops a run. */
  lemma {:induction false} FirstInFirstOut(ops: seq<Op>, s: Log, max: nat)
    requires |s.held| <= max
    ensures var r := RunQueue(ops, s, max);
      && (s.Intact() ==> r.s.Intact())
      && |r.s.held| <= max
      && (r.done < |ops| ==> !Accepts(ops[r.done], r.s.held, max))
  {
    if ops != [] && Accepts(ops[0], s.held, max) {
      DoKeepsIntact(ops[0], s);
      FirstInFirstOut(ops[1..], Do(ops[0], s), max);
    }
  }

  /** What a run appends is what its operations say. */
  lemma {:induction false} AppendedIsFed(ops: seq<Op>, s: Log, max: nat)
    ensures var r := RunQueue(ops, s, max); r.s.appended == s.appended + Fed(ops[..r.done])
  {
    if ops != [] && Accepts(ops[0], s.held, max) {
      AppendedIsFed(ops[1..], Do(ops[0], s), max);
      var d := RunQueue(ops, s, max).done;
      assert ops[..d][1..] == ops[1..][..d - 1];
    }
  }

  lemma DoKeepsIntact(op: Op, s: Log)
    ensures s.Intact() ==> Do(op, s).Intact()
  {
    var n := Dropped(op, s.held);
    var front, back := s.held[..n], s.held[n..];
    assert s.held == front + back;
    Regroup(s.removed, front, back);
    Regroup(s.removed + front, back, Added(op));
  }
}
