/** buffers_iterator: a random access iterator over the bytes of a buffer sequence. The sequence
    iterators begin_, current_ and end_ are the indices 0, current and |buffers|. */
module BuffersIterator {
  import opened BufferSequence

  class Iterator<T> {
    const buffers: seq<seq<T>>
    var currentBuffer: seq<T>
    var currentBufferPosition: nat
    var current: nat
    var position: nat

    ghost function Coordinates(): Cursor reads this {
      Cursor(current, currentBufferPosition, position)
    }

    /** At the end the cached buffer may be a stale one. */
    ghost predicate Valid() reads this {
      && Canonical(buffers, Coordinates())
      && (current < |buffers| ==> currentBuffer == buffers[current])
    }

    /** begin(): the first non-empty buffer. */
    constructor Begin(bufs: seq<seq<T>>)
      ensures Valid() && buffers == bufs && Coordinates() == At(bufs, 0)
    {
      buffers, current := bufs, 0;
      currentBuffer, currentBufferPosition, position := [], 0, 0;
      new;
      while current != |buffers|
        invariant current <= |buffers| && position == currentBufferPosition == Before(buffers, current) == 0
        decreases |buffers| - current
      {
        currentBuffer := buffers[current];
        if |currentBuffer| > 0 { break; }
        current := current + 1;
      }
      CanonicalIsUnique(bufs, Coordinates(), At(bufs, 0));
    }

    /** end(): past every buffer. */
    constructor End(bufs: seq<seq<T>>)
      ensures Valid() && buffers == bufs && position == Total(bufs) && current == |bufs|
      ensures Coordinates() == At(bufs, Total(bufs))
    {
      buffers, current := bufs, 0;
      currentBuffer, currentBufferPosition, position := [], 0, 0;
      new;
      while current != |buffers|
        invariant current <= |buffers| && currentBufferPosition == 0 && position == Before(buffers, current)
        decreases |buffers| - current
      {
        position := position + |buffers[current]|;
        current := current + 1;
      }
      CanonicalIsUnique(bufs, Coordinates(), At(bufs, Total(bufs)));
    }

    /** Copy construction. */
    constructor Copy(other: Iterator<T>)
      requires other.Valid()
      ensures Valid() && buffers == other.buffers && Coordinates() == other.Coordinates()
    {
      buffers, current := other.buffers, other.current;
      currentBuffer, currentBufferPosition := other.currentBuffer, other.currentBufferPosition;
      position := other.position;
    }

    /** operator*: the byte at the iterator's position. */
    method Dereference() returns (x: T)
      requires Valid() && current != |buffers|
      ensures position < |Flat(buffers)| && x == Flat(buffers)[position]
    {
      FlatAt(buffers, current, currentBufferPosition);
      x := currentBuffer[currentBufferPosition];
    }

    /** operator[]: the byte at a distance, before or after. */
    method Index(difference: int) returns (x: T)
      requires Valid() && 0 <= position + difference < Total(buffers)
      ensures |Flat(buffers)| == Total(buffers) && x == Flat(buffers)[position + difference]
    {
      FlatLength(buffers);
      var tmp := new Iterator.Copy(this);
      tmp.Advance(difference);
      CanonicalIsInRange(buffers, tmp.Coordinates());
      x := tmp.Dereference();
    }

    /** operator+. */
    method Plus(difference: int) returns (r: Iterator<T>)
      requires Valid() && 0 <= position + difference <= Total(buffers)
      ensures fresh(r) && r.Valid() && r.buffers == buffers
      ensures r.Coordinates() == At(buffers, position + difference)
    {
      r := new Iterator.Copy(this);
      r.Advance(difference);
    }

    /** Moves current up to the next non-empty buffer, or to the end. */
    method Increment()
      requires Valid() && current != |buffers|
      modifies this
      ensures Valid() && position == old(position) + 1 <= Total(buffers)
      ensures Coordinates() == At(buffers, old(position) + 1)
    {
      CanonicalIsInRange(buffers, Coordinates());
      ghost var target := At(buffers, position + 1);
      position := position + 1;
      currentBufferPosition := currentBufferPosition + 1;
      if currentBufferPosition == |currentBuffer| {
        current := current + 1;
        currentBufferPosition := 0;
        while current != |buffers|
          invariant current <= |buffers| && currentBufferPosition == 0
          invariant position == Before(buffers, current) == old(position) + 1
          decreases |buffers| - current
        {
          currentBuffer := buffers[current];
          if |currentBuffer| > 0 { break; }
          current := current + 1;
        }
      }
      CanonicalIsUnique(buffers, Coordinates(), target);
    }

    /** The search of decrement and of a backward advance: the last non-empty buffer before current.
        There is one whenever bytes come before current. */
    method PreviousNonEmpty() returns (iter: nat)
      requires current <= |buffers| && Before(buffers, current) > 0
      ensures iter < current && |buffers[iter]| > 0
      ensures Before(buffers, iter) + |buffers[iter]| == Before(buffers, current)
    {
      iter := current;
      while iter != 0
        invariant iter <= current && Before(buffers, iter) == Before(buffers, current)
      {
        iter := iter - 1;
        if |buffers[iter]| > 0 { return; }
      }
      assert false;
    }

    method Decrement()
      requires Valid() && position > 0
      modifies this
      ensures Valid() && position == old(position) - 1 <= Total(buffers)
      ensures Coordinates() == At(buffers, old(position) - 1)
    {
      CanonicalIsInRange(buffers, Coordinates());
      ghost var target := At(buffers, position - 1);
      position := position - 1;
      if currentBufferPosition != 0 {
        currentBufferPosition := currentBufferPosition - 1;
      } else {
        var iter := PreviousNonEmpty();
        current := iter;
        currentBuffer := buffers[iter];
        currentBufferPosition := |currentBuffer| - 1;
      }
      CanonicalIsUnique(buffers, Coordinates(), target);
    }

    /** Moves by n in either direction: wherever it starts and whatever buffers it crosses, it ends in
        the one canonical state of position + n. */
    method Advance(n: int)
      requires Valid() && 0 <= position + n <= Total(buffers)
      modifies this
      ensures Valid() && position == old(position) + n
      ensures Coordinates() == At(buffers, old(position) + n)
    {
      ghost var target := At(buffers, position + n);
      if n > 0 {
        Forward(n);
      } else if n < 0 {
        Backward(-n);
      }
      CanonicalIsUnique(buffers, Coordinates(), target);
    }

    method Forward(n: int)
      requires Valid() && n > 0 && position + n <= Total(buffers)
      modifies this
      ensures Valid() && position == old(position) + n
    {
      CanonicalIsInRange(buffers, Coordinates());
      assert current != |buffers|;
      var left := n;
      while true
        invariant current < |buffers| && currentBuffer == buffers[current]
        invariant currentBufferPosition <= |currentBuffer|
        invariant position == Before(buffers, current) + currentBufferPosition
        invariant left >= 0 && position + left == old(position) + n
        decreases |buffers| - current
      {
        var balance := |currentBuffer| - currentBufferPosition;
        if balance > left {
          position := position + left;
          currentBufferPosition := currentBufferPosition + left;
          return;
        }
        left := left - balance;
        position := position + balance;
        current := current + 1;
        currentBufferPosition := 0;
        if current == |buffers| {
          assert left == 0;
          currentBuffer := [];
          return;
        }
        currentBuffer := buffers[current];
      }
    }

    method Backward(n: nat)
      requires Valid() && 0 < n <= position
      modifies this
      ensures Valid() && position == old(position) - n
    {
      var left := n;
      while true
        invariant current <= |buffers| && left > 0
        invariant position == Before(buffers, current) + currentBufferPosition == old(position) - n + left
        invariant if current < |buffers|
                  then currentBuffer == buffers[current] && currentBufferPosition <= |currentBuffer|
                  else currentBufferPosition == 0
        decreases current
      {
        if currentBufferPosition >= left {
          position := position - left;
          currentBufferPosition := currentBufferPosition - left;
          return;
        }
        left := left - currentBufferPosition;
        position := position - currentBufferPosition;
        // The source returns here when current is the first buffer; the caller's bound on n means that
        // bytes are left before current, so the search below always finds a strictly earlier buffer.
        if current == 0 { assert false; }
        var iter := PreviousNonEmpty();
        current := iter;
        currentBuffer := buffers[iter];
        currentBufferPosition := |currentBuffer|;
      }
    }

    /** distance_to, behind operator- and the comparisons. */
    function DistanceTo(other: Iterator<T>): int
      reads this, other
    {
      other.position - position
    }

    predicate Equal(other: Iterator<T>)
      reads this, other
    {
      position == other.position
    }

    predicate Less(other: Iterator<T>)
      reads this, other
    {
      DistanceTo(other) > 0
    }
  }

  // ----- iterator laws -----

  /** Equality by position is sound, < orders by buffer and then offset, and distances are positions
      in the flat sequence: advancing a by the distance to b gives b. */
  lemma ComparisonsAreSound<T>(a: Iterator<T>, b: Iterator<T>)
    requires a.Valid() && b.Valid() && a.buffers == b.buffers
    ensures a.Equal(b) <==> a.Coordinates() == b.Coordinates()
    ensures a.Equal(b) && a.current < |a.buffers| ==> a.currentBuffer == b.currentBuffer
    ensures a.Less(b) <==>
      a.current < b.current || (a.current == b.current && a.currentBufferPosition < b.currentBufferPosition)
    ensures 0 <= a.position + a.DistanceTo(b) <= Total(a.buffers)
    ensures At(a.buffers, a.position + a.DistanceTo(b)) == b.Coordinates()
  {
    CanonicalIsUnique(a.buffers, a.Coordinates(), b.Coordinates());
    CanonicalIsInRange(a.buffers, b.Coordinates());
    CanonicalIsUnique(a.buffers, At(a.buffers, b.position), b.Coordinates());
  }

  /** Incrementing or decrementing |n| times is advancing by n. */
  method AdvanceBySteps<T>(it: Iterator<T>, n: int) returns (jumped: Iterator<T>)
    requires it.Valid() && 0 <= it.position + n <= Total(it.buffers)
    modifies it
    ensures it.Valid() && jumped.Valid() && fresh(jumped)
    ensures it.Coordinates() == jumped.Coordinates() == At(it.buffers, old(it.position) + n)
  {
    jumped := it.Plus(n);
    var i := 0;
    while i != n
      invariant it.Valid() && jumped.Valid() && fresh(jumped) && it.position == old(it.position) + i
      invariant jumped.Coordinates() == At(it.buffers, old(it.position) + n)
      invariant if n >= 0 then 0 <= i <= n else n <= i <= 0
      decreases if i < n then n - i else i - n
    {
      CanonicalIsInRange(it.buffers, it.Coordinates());
      if n > 0 { it.Increment(); i := i + 1; } else { it.Decrement(); i := i - 1; }
    }
    CanonicalIsUnique(it.buffers, it.Coordinates(), jumped.Coordinates());
  }

  /** Two advances are one, and an advance back undoes an advance: the coordinates are restored. */
  method AdvanceTwiceAndBack<T>(it: Iterator<T>, m: int, n: int) returns (once: Iterator<T>)
    requires it.Valid()
    requires 0 <= it.position + m <= Total(it.buffers) && 0 <= it.position + m + n <= Total(it.buffers)
    modifies it
    ensures fresh(once) && once.Valid() && once.Coordinates() == At(it.buffers, old(it.position) + m + n)
    ensures it.Valid() && it.Coordinates() == old(it.Coordinates())
  {
    once := it.Plus(m + n);
    ghost var start := it.Coordinates();
    it.Advance(m);
    it.Advance(n);
    assert it.Coordinates() == once.Coordinates();
    CanonicalIsInRange(it.buffers, start);
    it.Advance(-(m + n));
    CanonicalIsUnique(it.buffers, it.Coordinates(), start);
  }

  lemma OneMore<T>(s: seq<T>, i: nat)
    requires i < |s|
    ensures s[..i + 1] == s[..i] + [s[i]]
  {
  }

  /** A traversal from begin to end visits the concatenation of the buffers, once and in order. */
  method Traverse<T>(bufs: seq<seq<T>>) returns (visited: seq<T>)
    ensures visited == Flat(bufs)
  {
    var it := new Iterator.Begin(bufs);
    var end := new Iterator.End(bufs);
    FlatLength(bufs);
    ghost var flat := Flat(bufs);
    visited := [];
    while !it.Equal(end)
      invariant it.Valid() && end.Valid() && it.buffers == bufs && end.buffers == bufs && fresh(it) && fresh(end)
      invariant end.position == Total(bufs) && it.position <= Total(bufs)
      invariant visited == flat[..it.position]
      decreases Total(bufs) - it.position
    {
      CanonicalIsInRange(bufs, it.Coordinates());
      var x := it.Dereference();
      OneMore(flat, it.position);
      visited := visited + [x];
      it.Increment();
    }
  }

  /** The traversal in the other direction visits it backwards. */
  method TraverseBack<T>(bufs: seq<seq<T>>) returns (visited: seq<T>)
    ensures |visited| == |Flat(bufs)|
    ensures forall i :: 0 <= i < |visited| ==> visited[i] == Flat(bufs)[|visited| - 1 - i]
  {
    var begin := new Iterator.Begin(bufs);
    var it := new Iterator.End(bufs);
    FlatLength(bufs);
    visited := [];
    while !it.Equal(begin)
      invariant it.Valid() && it.buffers == bufs && fresh(it) && fresh(begin) && begin.position == 0
      invariant |visited| + it.position == |Flat(bufs)|
      invariant forall i :: 0 <= i < |visited| ==> visited[i] == Flat(bufs)[|Flat(bufs)| - 1 - i]
      decreases it.position
    {
      it.Decrement();
      CanonicalIsInRange(bufs, it.Coordinates());
      var x := it.Dereference();
      visited := visited + [x];
    }
  }
}
