/** Positions in a sequence of buffers, any of which may be empty. */
module BufferSequence {

  /** All bytes, in order. */
  function Flat<T>(bufs: seq<seq<T>>): seq<T> {
    if bufs == [] then [] else bufs[0] + Flat(bufs[1..])
  }

  /** The number of bytes in front of buffer i. */
  function Before<T>(bufs: seq<seq<T>>, i: nat): nat
    requires i <= |bufs|
  {
    if i == 0 then 0 else Before(bufs, i - 1) + |bufs[i - 1]|
  }

  function Total<T>(bufs: seq<seq<T>>): nat {
    Before(bufs, |bufs|)
  }

  /** The coordinates of an iterator: a buffer and an offset in it, and the position overall. */
  datatype Cursor = Cursor(current: nat, offset: nat, position: nat)

  /** The coordinates agree, the offset being in a non-empty buffer or both at the end. */
  ghost predicate Canonical<T>(bufs: seq<seq<T>>, c: Cursor) {
    && c.current <= |bufs|
    && c.position == Before(bufs, c.current) + c.offset
    && (if c.current < |bufs| then c.offset < |bufs[c.current]| else c.offset == 0)
  }

  lemma {:induction false} BeforeIsMonotonic<T>(bufs: seq<seq<T>>, i: nat, j: nat)
    requires i <= j <= |bufs|
    ensures Before(bufs, i) <= Before(bufs, j)
  {
    if i < j { BeforeIsMonotonic(bufs, i, j - 1); }
  }

  /** A position has one canonical cursor, so comparing positions compares iterators. */
  lemma CanonicalIsUnique<T>(bufs: seq<seq<T>>, c: Cursor, d: Cursor)
    requires Canonical(bufs, c) && Canonical(bufs, d)
    ensures c.position == d.position <==> c == d
    ensures c.position < d.position <==>
      c.current < d.current || (c.current == d.current && c.offset < d.offset)
  {
    if c.current < d.current {
      BeforeIsMonotonic(bufs, c.current + 1, d.current);
    } else if d.current < c.current {
      BeforeIsMonotonic(bufs, d.current + 1, c.current);
    }
  }

  /** Canonical cursors lie in [0, total], and the end is the last of them. */
  lemma CanonicalIsInRange<T>(bufs: seq<seq<T>>, c: Cursor)
    requires Canonical(bufs, c)
    ensures c.position <= Total(bufs)
    ensures c.position == Total(bufs) <==> c.current == |bufs|
  {
    if c.current < |bufs| { BeforeIsMonotonic(bufs, c.current + 1, |bufs|); }
  }

  lemma {:induction false} BeforeInTail<T>(bufs: seq<seq<T>>, i: nat)
    requires 1 <= i <= |bufs|
    ensures Before(bufs, i) == |bufs[0]| + Before(bufs[1..], i - 1)
  {
    if i > 1 { BeforeInTail(bufs, i - 1); }
  }

  /** The bytes of buffer i are those of the flat sequence from Before(bufs, i). */
  lemma {:induction false} FlatAt<T>(bufs: seq<seq<T>>, i: nat, k: nat)
    requires i < |bufs| && k < |bufs[i]|
    ensures Before(bufs, i) + k < |Flat(bufs)| && Flat(bufs)[Before(bufs, i) + k] == bufs[i][k]
  {
    if i > 0 {
      FlatAt(bufs[1..], i - 1, k);
      BeforeInTail(bufs, i);
    }
  }

  lemma {:induction false} FlatLength<T>(bufs: seq<seq<T>>)
    ensures |Flat(bufs)| == Total(bufs)
  {
    if bufs != [] {
      FlatLength(bufs[1..]);
      BeforeInTail(bufs, |bufs|);
    }
  }

  /** Every position of the flat sequence, and the one past its end, has a canonical cursor. */
  function Locate<T>(bufs: seq<seq<T>>, p: nat, i: nat): (c: Cursor)
    requires i <= |bufs| && Before(bufs, i) <= p <= Total(bufs)
    ensures Canonical(bufs, c) && c.position == p
    decreases |bufs| - i
  {
    if i == |bufs| then Cursor(i, 0, p)
    else if p < Before(bufs, i + 1) then Cursor(i, p - Before(bufs, i), p)
    else Locate(bufs, p, i + 1)
  }

  /** The cursor of a position. */
  function At<T>(bufs: seq<seq<T>>, p: nat): (c: Cursor)
    requires p <= Total(bufs)
    ensures Canonical(bufs, c) && c.position == p
  {
    Locate(bufs, p, 0)
  }
}
