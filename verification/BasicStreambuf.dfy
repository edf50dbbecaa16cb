/** basic_streambuf: a queue of characters in one growing array, with a get area and a put area. */
module BasicStreambuf {
  import opened Common
  import Queue = BoundedQueue

  const BUFFER_DELTA := 128

  /** What an input sequence reads as once its characters have been moved down by g places but the
      pointers still say where they were. */
  function Smeared(c: seq<Byte>, g: nat): seq<Byte> {
    seq(|c|, j requires 0 <= j < |c| => if g + j < |c| then c[g + j] else c[j])
  }

  /** A move without the pointers does no harm to c exactly if c repeats itself every g characters. */
  lemma HarmlessIffPeriodic(c: seq<Byte>, g: nat)
    ensures Smeared(c, g) == c <==> forall j :: 0 <= j < |c| - g ==> c[g + j] == c[j]
  {
    if Smeared(c, g) == c {
      forall j | 0 <= j < |c| - g ensures c[g + j] == c[j] { assert c[j] == Smeared(c, g)[j]; }
    }
  }

  /** It does no harm to any c of some length exactly if nothing is moved, or if the characters are
      moved clear of where they were. */
  lemma AlwaysHarmlessIff(length: nat, g: nat)
    ensures (forall c: seq<Byte> :: |c| == length ==> Smeared(c, g) == c) <==> g == 0 || length <= g
  {
    if 0 < g < length {
      var c := seq(length, i => if i == 0 then 0 else 1 as Byte);
      assert Smeared(c, g)[0] == 1;
    }
  }

  /** Result of overflow: the exception, the character stored, or "not eof" when there was none. */
  datatype OverflowResult = LengthError | Stored(c: Byte) | NotEof

  /** memmove of the n characters at from to the start of a. */
  method MoveDown(a: array<Byte>, from: nat, n: nat)
    requires from + n <= a.Length
    modifies a
    ensures a[..] == old(a[from..from + n]) + old(a[n..])
  {
    for i := 0 to n
      invariant forall k :: 0 <= k < i ==> a[k] == old(a[from + k])
      invariant forall k :: i <= k < a.Length ==> a[k] == old(a[k])
    {
      a[i] := a[from + i];
    }
    assert a[..n] == old(a[from..from + n]);
    assert a[..] == a[..n] + a[n..];
  }

  class Streambuf {
    const maxSize: nat
    var buffer: array<Byte>
    // Pointers as offsets into buffer; eback stays at 0.
    var gptr: nat
    var egptr: nat
    var pptr: nat
    var epptr: nat
    ghost var appended: seq<Byte>  // every character ever committed or put
    ghost var removed: seq<Byte>   // every character ever consumed or extracted

    /** egptr may lag behind pptr: direct puts do not move it. */
    ghost predicate Valid() reads this {
      gptr <= egptr <= pptr <= epptr <= maxSize && buffer.Length == Max(epptr, 1)
    }

    function Size(): nat
      requires Valid()
      reads this
      ensures Size() <= maxSize
    {
      pptr - gptr
    }

    /** The input sequence: what data() refers to. */
    function Contents(): (s: seq<Byte>)
      requires Valid()
      reads this, buffer
      ensures |s| == Size()
    {
      buffer[gptr..pptr]
    }

    /** First in, first out, nothing lost and nothing repeated. */
    ghost predicate Intact()
      requires Valid()
      reads this, buffer
    {
      appended == removed + Contents()
    }

    /** What is held and what has gone in and out. */
    ghost function History(): (s: Queue.Log)
      requires Valid()
      reads this, buffer
      ensures (s.Intact() <==> Intact()) && |s.held| <= maxSize
    {
      Queue.Log(Contents(), appended, removed)
    }

    constructor (maximumSize: nat)
      ensures Valid() && fresh(buffer) && maxSize == maximumSize
      ensures gptr == egptr == pptr == 0 && epptr == (if maximumSize < 128 then maximumSize else 128)
      ensures Contents() == appended == removed == [] && Intact()
    {
      maxSize := maximumSize;
      var pend := Min(maximumSize, BUFFER_DELTA);
      buffer := new Byte[Max(pend, 1)](_ => 0);
      gptr, egptr, pptr, epptr := 0, 0, 0, pend;
      appended, removed := [], [];
    }

    /** vector::resize to a greater size. */
    method Resize(n: nat)
      requires n >= buffer.Length
      modifies this`buffer
      ensures fresh(buffer) && buffer.Length == n && buffer[..old(buffer.Length)] == old(buffer[..])
    {
      var bigger := new Byte[n](_ => 0);
      forall i | 0 <= i < buffer.Length { bigger[i] := buffer[i]; }
      buffer := bigger;
    }

    /** Makes room for n more characters. On failure the characters may already have been moved. */
    method Reserve(n: nat) returns (ok: bool)
      requires Valid()
      modifies this`buffer, this`gptr, this`egptr, this`pptr, this`epptr, buffer
      ensures Valid() && (buffer == old(buffer) || fresh(buffer))
      ensures ok <==> old(Size()) + n <= maxSize
      ensures ok ==> Contents() == old(Contents()) && n <= epptr - pptr
      ensures n <= old(epptr - pptr) ==> unchanged(this) && buffer[..] == old(buffer[..])
      ensures !ok ==> unchanged(this) && Contents() == Smeared(old(Contents()), gptr)
    {
      if n <= epptr - pptr { return true; }
      ok := CompactAndGrow(n);
    }

    /** The part of reserve past the check for room. */
    method CompactAndGrow(n: nat) returns (ok: bool)
      requires Valid() && n > epptr - pptr
      modifies this`buffer, this`gptr, this`egptr, this`pptr, this`epptr, buffer
      ensures Valid() && (buffer == old(buffer) || fresh(buffer))
      ensures ok <==> old(Size()) + n <= maxSize
      ensures ok ==> Contents() == old(Contents()) && n <= epptr - pptr
      ensures !ok ==> unchanged(this) && Contents() == Smeared(old(Contents()), gptr)
    {
      var gnext, pnext, pend := gptr, pptr, epptr;
      if gnext > 0 {
        pnext := pnext - gnext;
        MoveDown(buffer, gnext, pnext);
      }
      assert buffer[..pnext] == old(buffer[gptr..pptr]);
      if n > pend - pnext {
        if n <= maxSize && pnext <= maxSize - n {
          pend := pnext + n;
          Resize(Max(pend, 1));
        } else {
          SmearedByMove(old(buffer[..]), buffer[..], gptr, pptr);
          return false;
        }
      }
      gptr, egptr, pptr, epptr := 0, pnext, pnext, pend;
      ok := true;
    }

    static lemma SmearedByMove(before: seq<Byte>, after: seq<Byte>, g: nat, p: nat)
      requires g <= p <= |before| && after == before[g..p] + before[p - g..]
      ensures after[g..p] == Smeared(before[g..p], g)
    {
    }

    /** The start of an output sequence of n characters, or nothing for length_error. */
    method Prepare(n: nat) returns (output: Option<nat>)
      requires Valid()
      modifies this`buffer, this`gptr, this`egptr, this`pptr, this`epptr, buffer
      ensures Valid() && (buffer == old(buffer) || fresh(buffer))
      ensures output.None? <==> old(Size()) + n > maxSize
      ensures output.Some? ==> output.value == pptr && n <= epptr - pptr && Contents() == old(Contents())
      ensures output.Some? && old(Intact()) ==> Intact()
      ensures output.None? ==> unchanged(this) && Contents() == Smeared(old(Contents()), gptr)
      ensures output.None? ==> forall j :: 0 <= j < Size() ==>
        Contents()[j] == old(Contents())[if gptr + j < Size() then gptr + j else j]
      ensures output.None? ==> (Contents() == old(Contents())
        <==> forall j :: 0 <= j < Size() - gptr ==> old(Contents())[gptr + j] == old(Contents())[j])
      ensures output.None? && (gptr == 0 || Size() <= gptr) ==> Contents() == old(Contents())
    {
      var ok := Reserve(n);
      if ok { return Some(pptr); }
      AlwaysHarmlessIff(Size(), gptr);
      HarmlessIffPeriodic(old(Contents()), gptr);
      output := None;
    }

    /** The user of prepare writes a character of the output sequence. */
    method WriteOutput(i: nat, x: Byte)
      requires Valid() && i < epptr - pptr
      modifies buffer
      ensures Valid() && buffer[..] == old(buffer[..])[pptr + i := x]
      ensures Contents() == old(Contents()) && (old(Intact()) ==> Intact())
    {
      buffer[pptr + i] := x;
    }

    /** Appends up to n characters of the output sequence to the input sequence. */
    method Commit(n: nat)
      requires Valid()
      modifies this`egptr, this`pptr, this`appended
      ensures Valid() && epptr == old(epptr) && gptr == old(gptr)
      ensures pptr == old(pptr) + Min(n, epptr - old(pptr))
      ensures Contents() == old(Contents()) + buffer[old(pptr)..pptr]
      ensures appended == old(appended) + buffer[old(pptr)..pptr]
      ensures old(Intact()) ==> Intact()
    {
      var m := Min(n, epptr - pptr);
      appended := appended + buffer[pptr..pptr + m];
      pptr := pptr + m;
      egptr := pptr;
      assert Contents() == old(Contents()) + buffer[old(pptr)..pptr];
    }

    /** Prepare, write data into the output sequence, and commit it: how a read operation uses the
        streambuf, with spare the part of what it prepared that it did not fill. */
    method Feed(data: seq<Byte>, spare: nat) returns (ok: bool)
      requires Valid()
      modifies this`buffer, this`gptr, this`egptr, this`pptr, this`epptr, this`appended, buffer
      ensures Valid() && (buffer == old(buffer) || fresh(buffer)) && removed == old(removed)
      ensures ok <==> old(Size()) + |data| + spare <= maxSize
      ensures ok ==> Contents() == old(Contents()) + data && appended == old(appended) + data
      ensures !ok ==> unchanged(this) && Contents() == Smeared(old(Contents()), gptr)
    {
      var output := Prepare(|data| + spare);
      if output.None? { return false; }
      WriteAll(data);
      Commit(|data|);
      ok := true;
    }

    /** Writes data at the start of the output sequence. */
    method WriteAll(data: seq<Byte>)
      requires Valid() && |data| <= epptr - pptr
      modifies buffer
      ensures Valid() && Contents() == old(Contents()) && buffer[pptr..pptr + |data|] == data
    {
      for i := 0 to |data|
        invariant Contents() == old(Contents()) && buffer[pptr..pptr + i] == data[..i]
      {
        WriteOutput(i, data[i]);
        assert buffer[pptr..pptr + i + 1] == buffer[pptr..pptr + i] + [data[i]];
      }
    }

    /** Removes up to n characters from the front of the input sequence. */
    method Consume(n: nat)
      requires Valid()
      modifies this`gptr, this`egptr, this`removed
      ensures Valid()
      ensures var m := Min(n, old(Size()));
        gptr == old(gptr) + m && Contents() == old(Contents())[m..] && removed == old(removed) + old(Contents())[..m]
      ensures old(Intact()) ==> Intact()
    {
      if egptr < pptr { egptr := pptr; }
      var m := if gptr + n > pptr then pptr - gptr else n;
      assert Contents() == Contents()[..m] + Contents()[m..];
      Regroup(removed, Contents()[..m], Contents()[m..]);
      removed := removed + Contents()[..m];
      gptr := gptr + m;
      assert Contents() == old(Contents())[m..];
    }

    /** The next character without extracting it; afterwards the get area has it. */
    method Underflow() returns (c: Option<Byte>)
      requires Valid()
      modifies this`egptr
      ensures Valid() && Contents() == old(Contents())
      ensures c == if Contents() == [] then None else Some(Contents()[0])
      ensures c.Some? ==> gptr < egptr == pptr
    {
      if gptr < pptr {
        egptr := pptr;
        return Some(buffer[gptr]);
      }
      c := None;
    }

    /** Called with a full put area by sputc, or by the user. */
    method Overflow(c: Option<Byte>) returns (r: OverflowResult)
      requires Valid()
      modifies this`buffer, this`gptr, this`egptr, this`pptr, this`epptr, this`appended, buffer
      ensures Valid() && (buffer == old(buffer) || fresh(buffer))
      ensures r.LengthError? <==> c.Some? && old(Size()) == maxSize
      ensures r.LengthError? ==> Contents() == old(Contents()) && appended == old(appended)
      ensures r.NotEof? <==> c.None?
      ensures r.NotEof? ==> unchanged(this) && buffer[..] == old(buffer[..])
      ensures r.Stored? ==> c == Some(r.c) && Contents() == old(Contents()) + [r.c] && appended == old(appended) + [r.c]
      ensures old(Intact()) ==> Intact()
    {
      if c.None? { return NotEof; }
      if pptr == epptr {
        var ok := MakeRoom();
        if !ok { return LengthError; }
      }
      Store(c.value);
      r := Stored(c.value);
    }

    /** What overflow does with a full put area. Its choice of amount always fits unless the input
      sequence is as long as it may get, in which case the characters are already at the start. */
    method MakeRoom() returns (ok: bool)
      requires Valid() && pptr == epptr
      modifies this`buffer, this`gptr, this`egptr, this`pptr, this`epptr, buffer
      ensures Valid() && (buffer == old(buffer) || fresh(buffer))
      ensures ok <==> old(Size()) < maxSize
      ensures Contents() == old(Contents())
      ensures if ok then pptr < epptr else gptr == 0 && unchanged(this)
    {
      var bufferSize := pptr - gptr;
      if bufferSize < maxSize && maxSize - bufferSize < BUFFER_DELTA {
        ok := Reserve(maxSize - bufferSize);
      } else {
        ok := Reserve(BUFFER_DELTA);
      }
      if !ok { AlwaysHarmlessIff(Size(), gptr); }
    }

    /** *pptr() = c; pbump(1); egptr is left behind. */
    method Store(c: Byte)
      requires Valid() && pptr < epptr
      modifies this`pptr, this`appended, buffer
      ensures Valid() && pptr == old(pptr) + 1
      ensures Contents() == old(Contents()) + [c] && appended == old(appended) + [c]
      ensures old(Intact()) ==> Intact()
    {
      buffer[pptr] := c;
      pptr := pptr + 1;
      appended := appended + [c];
      assert Contents() == old(Contents()) + [c];
    }

    // ----- std::streambuf functions that reach the overrides -----

    /** sputc: straight into the put area when there is room. */
    method Sputc(c: Byte) returns (r: OverflowResult)
      requires Valid()
      modifies this`buffer, this`gptr, this`egptr, this`pptr, this`epptr, this`appended, buffer
      ensures Valid() && (buffer == old(buffer) || fresh(buffer))
      ensures r == if old(Size()) == maxSize then LengthError else Stored(c)
      ensures Contents() == old(Contents()) + (if r.Stored? then [c] else [])
      ensures appended == old(appended) + (if r.Stored? then [c] else [])
      ensures old(pptr < epptr) ==> gptr == old(gptr) && epptr == old(epptr) && pptr == old(pptr) + 1
      ensures old(Intact()) ==> Intact()
    {
      if pptr < epptr {
        Store(c);
        return Stored(c);
      }
      r := Overflow(Some(c));
    }

    /** sbumpc: extracts the next character. */
    method Sbumpc() returns (c: Option<Byte>)
      requires Valid()
      modifies this`gptr, this`egptr, this`removed
      ensures Valid()
      ensures c == if old(Contents()) == [] then None else Some(old(Contents())[0])
      ensures Contents() == if c.None? then [] else old(Contents())[1..]
      ensures removed == old(removed) + if c.None? then [] else [c.value]
      ensures old(Intact()) ==> Intact()
    {
      if gptr == egptr {
        c := Underflow();
        if c.None? { return; }
      }
      c := Some(buffer[gptr]);
      removed := removed + [buffer[gptr]];
      gptr := gptr + 1;
      assert old(Contents()) == [c.value] + old(Contents())[1..];
    }

    /** k characters are no more than a read asks for, than fit, and than both 512 and what fits without
        reallocation. */
    predicate MayRead(k: nat, max: nat, capacity: nat)
      requires Valid()
      reads this
    {
      k <= max && Size() + k <= maxSize && (k <= 512 || Size() + k <= capacity)
    }

    /** What a read operation prepares: as much as it may. capacity is the vector's. */
    function ReadSizeHelper(max: nat, capacity: nat): (n: nat)
      requires Valid() && buffer.Length <= capacity
      reads this
      ensures Size() + n <= maxSize && n <= max
      ensures n == 0 <==> max == 0 || Size() == maxSize
      ensures MayRead(n, max, capacity) && forall k: nat | MayRead(k, max, capacity) :: k <= n
      ensures n <= 512 || Size() + n <= capacity
      ensures n == max || Size() + n == maxSize || (n >= 512 && Size() + n >= capacity)
    {
      Min(Max(512, capacity - Size()), Min(max, maxSize - Size()))
    }
  }

  // ----- whole runs -----

  /** An operation on the front of the queue: the history becomes what the queue says. */
  method PerformOut(sb: Streambuf, op: Queue.Op)
    requires sb.Valid() && (op.Consume? || op.Take? || op.Look?)
    modifies sb`gptr, sb`egptr, sb`removed
    ensures sb.Valid() && sb.History() == Queue.Do(op, old(sb.History()))
    ensures sb.Contents() == match op
      case Consume(n) => old(sb.Contents())[Min(n, |old(sb.Contents())|)..]
      case Take => if old(sb.Contents()) == [] then [] else old(sb.Contents())[1..]
      case _ => old(sb.Contents())
  {
    ghost var q := sb.Contents();
    Queue.DoWithoutAdding(op, sb.History());
    match op
    case Consume(n) => sb.Consume(n);
    case Take =>
      assert q != [] ==> q[..1] == [q[0]];
      var c := sb.Sbumpc();
    case Look =>
      assert q[..0] == [] && q[0..] == q;
      var c := sb.Underflow();
  }

  /** What an operation that fails with length_error leaves of the input sequence. */
  function LeftOver(op: Queue.Op, q: seq<Byte>, g: nat): seq<Byte> {
    if op.Put? then q else Smeared(q, g)
  }

  /** An operation that needs room, or its length_error. */
  method PerformIn(sb: Streambuf, op: Queue.Op) returns (ok: bool)
    requires sb.Valid() && (op.Prepare? || op.Feed? || op.Put?)
    modifies sb, sb.buffer
    ensures sb.Valid() && (sb.buffer == old(sb.buffer) || fresh(sb.buffer))
    ensures sb.removed == old(sb.removed) && sb.appended == old(sb.appended) + (if ok then Queue.Added(op) else [])
    ensures ok ==> sb.Contents() == old(sb.Contents()) + Queue.Added(op)
    ensures !ok ==> sb.Contents() == LeftOver(op, old(sb.Contents()), sb.gptr)
    ensures ok <==> match op
      case Prepare(n) => old(sb.Size()) + n <= sb.maxSize
      case Feed(data, spare) => old(sb.Size()) + |data| + spare <= sb.maxSize
      case _ => old(sb.Size()) < sb.maxSize
  {
    match op
    case Prepare(n) =>
      var output := sb.Prepare(n);
      ok := output.Some?;
    case Feed(data, spare) => ok := sb.Feed(data, spare);
    case Put(c) =>
      var r := sb.Sputc(c);
      ok := r.Stored?;
  }

  /** One operation, or its length_error. */
  method Perform(sb: Streambuf, op: Queue.Op) returns (ok: bool)
    requires sb.Valid()
    modifies sb, sb.buffer
    ensures sb.Valid() && (sb.buffer == old(sb.buffer) || fresh(sb.buffer))
    ensures ok == Queue.Accepts(op, old(sb.Contents()), sb.maxSize)
    ensures ok ==> sb.History() == Queue.Do(op, old(sb.History()))
    ensures !ok ==> sb.appended == old(sb.appended) && sb.removed == old(sb.removed)
    ensures !ok ==> sb.Contents() == LeftOver(op, old(sb.Contents()), sb.gptr)
    ensures ok ==> sb.Contents() == match op
      case Feed(data, _) => old(sb.Contents()) + data
      case Put(c) => old(sb.Contents()) + [c]
      case Consume(n) => old(sb.Contents())[Min(n, |old(sb.Contents())|)..]
      case Take => if old(sb.Contents()) == [] then [] else old(sb.Contents())[1..]
      case _ => old(sb.Contents())
  {
    ok := true;
    if op.Consume? || op.Take? || op.Look? {
      PerformOut(sb, op);
    } else {
      Queue.DoWithoutDropping(op, sb.History());
      ok := PerformIn(sb, op);
    }
  }

  /** Any run of operations is a run of a bounded queue, up to the first length_error: as many
      operations are done, and what has been appended, what has been removed and what is held are the
      queue's. Only the operation that fails may do harm, and it does none if it is a put, or if the
      get pointer is at the start or no less than size(). */
  method Run(sb: Streambuf, ops: seq<Queue.Op>) returns (done: nat)
    requires sb.Valid()
    modifies sb, sb.buffer
    ensures sb.Valid()
    ensures var r := Queue.RunQueue(ops, old(sb.History()), sb.maxSize);
      && done == r.done
      && sb.History() == (if done == |ops| then r.s else r.s.(held := LeftOver(ops[done], r.s.held, sb.gptr)))
      && (sb.gptr == 0 || sb.Size() <= sb.gptr ==> sb.History() == r.s)
    ensures sb.appended == old(sb.appended) + Queue.Fed(ops[..done])
    ensures old(sb.Intact()) && (done == |ops| || ops[done].Put? || sb.gptr == 0 || sb.Size() <= sb.gptr) ==>
      sb.Intact()
  {
    done := 0;
    ghost var whole := Queue.RunQueue(ops, sb.History(), sb.maxSize);
    Queue.FirstInFirstOut(ops, sb.History(), sb.maxSize);
    Queue.AppendedIsFed(ops, sb.History(), sb.maxSize);
    while done < |ops|
      invariant done <= |ops| && sb.Valid() && (sb.buffer == old(sb.buffer) || fresh(sb.buffer))
      invariant var r := Queue.RunQueue(ops[done..], sb.History(), sb.maxSize); r.(done := done + r.done) == whole
      decreases |ops| - done
    {
      assert ops[done..][0] == ops[done] && ops[done..][1..] == ops[done + 1..];
      var ok := Perform(sb, ops[done]);
      if !ok {
        AlwaysHarmlessIff(sb.Size(), sb.gptr);
        return;
      }
      done := done + 1;
    }
  }

  /** A prepare of what the helper says always succeeds. */
  method PrepareForRead(sb: Streambuf, max: nat, capacity: nat) returns (output: Option<nat>)
    requires sb.Valid() && sb.buffer.Length <= capacity
    modifies sb, sb.buffer
    ensures sb.Valid() && output.Some? && sb.Contents() == old(sb.Contents())
    ensures old(sb.ReadSizeHelper(max, capacity)) <= sb.epptr - sb.pptr
  {
    output := sb.Prepare(sb.ReadSizeHelper(max, capacity));
  }

  /** 1, 2, 3 put and 1 consumed in a streambuf of at most 3. */
  method TwoOfThree() returns (sb: Streambuf)
    ensures sb.Valid() && fresh(sb) && fresh(sb.buffer) && sb.maxSize == 3 && sb.gptr == 1
    ensures sb.appended == [1, 2, 3] && sb.removed == [1] && sb.Contents() == [2, 3]
  {
    sb := new Streambuf(3);
    var _ := sb.Sputc(1);
    assert sb.Contents() == [1] && sb.gptr == 0 && sb.pptr == 1;
    var _ := sb.Sputc(2);
    assert sb.Contents() == [1, 2] && sb.gptr == 0 && sb.pptr == 2;
    var _ := sb.Sputc(3);
    assert sb.Contents() == [1, 2, 3] && sb.gptr == 0;
    sb.Consume(1);
  }

  /** A prepare that fails can spoil what the streambuf holds: here 2, 3 becomes 3, 3. */
  method FailedPrepareSpoils() returns (sb: Streambuf)
    ensures sb.Valid() && sb.appended == [1, 2, 3] && sb.removed == [1]
    ensures sb.Contents() == [3, 3] && !sb.Intact()
  {
    sb := TwoOfThree();
    var output := sb.Prepare(2);
    assert sb.removed + sb.Contents() == [1, 3, 3];
  }
}
