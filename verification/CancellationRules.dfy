/** What cancellation filters do to an emission on its way along a chain of states. */
module CancellationRules {
  import opened Common

  type CancelType = bv32

  const NONE: CancelType := 0
  const TERMINAL: CancelType := 1
  const PARTIAL: CancelType := 2
  const TOTAL: CancelType := 4
  const ALL: CancelType := 0xFFFFFFFF

  /** cancellation_filter<Mask>, or any other function object. */
  datatype Filter = Mask(mask: CancelType) | Custom(f: CancelType -> CancelType) {
    function Apply(t: CancelType): CancelType {
      match this
      case Mask(m) => t & m
      case Custom(f) => f(t)
    }
  }

  const DISABLE := Mask(NONE)
  const ENABLE_TERMINAL := Mask(TERMINAL)
  const ENABLE_PARTIAL := Mask(TERMINAL | PARTIAL)
  const ENABLE_TOTAL := Mask(TERMINAL | PARTIAL | TOTAL)

  /** The in and out filter of a state. */
  datatype Filters = Filters(inward: Filter, outward: Filter) {
    function Relay(t: CancelType): CancelType { outward.Apply(inward.Apply(t)) }
  }

  /** The value that state i would be given: t through all the filters of the states before it. */
  function Delivered(fs: seq<Filters>, t: CancelType, i: nat): CancelType
    requires i <= |fs|
  {
    if i == 0 then t else fs[i - 1].Relay(Delivered(fs, t, i - 1))
  }

  /** No relay before state i yields none. */
  ghost predicate Reaches(fs: seq<Filters>, t: CancelType, i: nat)
    requires i <= |fs|
  {
    forall j :: 0 < j <= i ==> Delivered(fs, t, j) != NONE
  }

  /** What the states show after an emission of t, having shown cs: each records what its in filter
      makes of what it is given, and relays unless its out filter then yields none. */
  function Emitted(fs: seq<Filters>, cs: seq<CancelType>, t: CancelType): (r: seq<CancelType>)
    requires |fs| == |cs|
    ensures |r| == |cs|
  {
    if fs == [] then []
    else [fs[0].inward.Apply(t)]
         + if fs[0].Relay(t) != NONE then Emitted(fs[1..], cs[1..], fs[0].Relay(t)) else cs[1..]
  }

  /** What an emission of t that enters the chain calls the leaf with. */
  function LeafCalls(fs: seq<Filters>, t: CancelType): seq<CancelType> {
    if fs == [] then [t] else if fs[0].Relay(t) != NONE then LeafCalls(fs[1..], fs[0].Relay(t)) else []
  }

  /** A mask filter keeps the bits of its mask; a function object says itself what it makes of t. */
  lemma ApplyByKind(f: Filter, t: CancelType)
    ensures f.Apply(t) == match f case Mask(m) => t & m case Custom(h) => h(t)
  {
  }

  /** What an emission does to a chain, from the filters of its first state, f in and g out: the state
      records f(t), and the rest of the chain and the leaf are given g(f(t)) unless that is none. An
      emission that meets no state calls the leaf. */
  lemma EmissionByFilters(f: Filter, g: Filter, fs: seq<Filters>, c: CancelType, cs: seq<CancelType>, t: CancelType)
    requires |fs| == |cs|
    ensures var chain, out := [Filters(f, g)] + fs, g.Apply(f.Apply(t));
      && Emitted(chain, [c] + cs, t) == [f.Apply(t)] + (if out != NONE then Emitted(fs, cs, out) else cs)
      && LeafCalls(chain, t) == (if out != NONE then LeafCalls(fs, out) else [])
    ensures fs == [] ==> Emitted(fs, cs, t) == [] && LeafCalls(fs, t) == [t]
  {
    var chain := [Filters(f, g)] + fs;
    assert chain[0] == Filters(f, g) && chain[1..] == fs && ([c] + cs)[1..] == cs;
  }

  /** With two function objects, in and then out. */
  lemma EmissionByFunctions(f: CancelType -> CancelType, g: CancelType -> CancelType, c: CancelType, t: CancelType)
    ensures Emitted([Filters(Custom(f), Custom(g))], [c], t) == [f(t)]
    ensures LeafCalls([Filters(Custom(f), Custom(g))], t) == if g(f(t)) != NONE then [g(f(t))] else []
  {
    ApplyByKind(Custom(f), t);
    ApplyByKind(Custom(g), f(t));
    EmissionByFilters(Custom(f), Custom(g), [], c, [], t);
    EmissionByFilters(Custom(f), Custom(g), [], c, [], g(f(t)));
    assert [Filters(Custom(f), Custom(g))] + [] == [Filters(Custom(f), Custom(g))] && [c] + [] == [c];
  }

  /** The next value along a chain of function objects is what the in filter and then the out filter make
      of the last. */
  lemma DeliveredThroughFunctions(fs: seq<Filters>, t: CancelType, i: nat)
    requires i < |fs| && fs[i].inward.Custom? && fs[i].outward.Custom?
    ensures Delivered(fs, t, i + 1) == fs[i].outward.f(fs[i].inward.f(Delivered(fs, t, i)))
  {
  }

  /** Of all types, the four filters that come with the library let through none, the terminal bit, and
      with it the bits of partial and of total cancellation. */
  lemma FiltersOfTheLibrary()
    ensures DISABLE.Apply(0xFFFFFFFF) == 0 && ENABLE_TERMINAL.Apply(0xFFFFFFFF) == 1
    ensures ENABLE_PARTIAL.Apply(0xFFFFFFFF) == 3 && ENABLE_TOTAL.Apply(0xFFFFFFFF) == 7
  {
  }

  lemma {:induction false} DeliveredInTail(fs: seq<Filters>, t: CancelType, i: nat)
    requires 0 < i <= |fs|
    ensures Delivered(fs, t, i) == Delivered(fs[1..], fs[0].Relay(t), i - 1)
  {
    if i > 1 { DeliveredInTail(fs, t, i - 1); }
  }

  /** An emission reaches a later state by being relayed and then reaching it from the next one. */
  lemma ReachesInTail(fs: seq<Filters>, t: CancelType, i: nat)
    requires 0 < i <= |fs|
    ensures Reaches(fs, t, i) <==> fs[0].Relay(t) != NONE && Reaches(fs[1..], fs[0].Relay(t), i - 1)
  {
    forall j | 0 < j <= i ensures Delivered(fs, t, j) == Delivered(fs[1..], fs[0].Relay(t), j - 1) {
      DeliveredInTail(fs, t, j);
    }
    if fs[0].Relay(t) != NONE && Reaches(fs[1..], fs[0].Relay(t), i - 1) {
      assert forall j :: 0 < j <= i ==> Delivered(fs, t, j) != NONE;
    }
    if Reaches(fs, t, i) {
      assert Delivered(fs, t, 1) == fs[0].Relay(t);
      forall j | 0 < j <= i - 1 ensures Delivered(fs[1..], fs[0].Relay(t), j) != NONE {
        assert Delivered(fs, t, j + 1) != NONE;
      }
    }
  }

  /** An emission sets exactly the states it reaches: those before which no relay yields none. */
  lemma {:induction false} EmissionSetsAPrefix(fs: seq<Filters>, cs: seq<CancelType>, t: CancelType, i: nat)
    requires |fs| == |cs| && i < |fs|
    ensures Emitted(fs, cs, t)[i] ==
      if Reaches(fs, t, i) then fs[i].inward.Apply(Delivered(fs, t, i)) else cs[i]
  {
    if i > 0 {
      ReachesInTail(fs, t, i);
      DeliveredInTail(fs, t, i);
      if fs[0].Relay(t) != NONE { EmissionSetsAPrefix(fs[1..], cs[1..], fs[0].Relay(t), i - 1); }
    }
  }

  /** The leaf is called exactly once if every relay yields something, with what the last one yields,
      and otherwise not at all. */
  lemma {:induction false} LeafIsCalledOnce(fs: seq<Filters>, t: CancelType)
    ensures LeafCalls(fs, t) == if Reaches(fs, t, |fs|) then [Delivered(fs, t, |fs|)] else []
  {
    if fs != [] {
      ReachesInTail(fs, t, |fs|);
      DeliveredInTail(fs, t, |fs|);
      if fs[0].Relay(t) != NONE { LeafIsCalledOnce(fs[1..], fs[0].Relay(t)); }
    }
  }

  /** Nothing gets past a state that disables cancellation. */
  lemma DisabledStateStops(fs: seq<Filters>, t: CancelType, d: nat, i: nat)
    requires d < i <= |fs| && fs[d] == Filters(DISABLE, DISABLE)
    ensures !Reaches(fs, t, i)
  {
    var given := fs[d].inward.Apply(Delivered(fs, t, d));
    assert given & NONE == NONE;
    assert Delivered(fs, t, d + 1) == NONE;
  }

  // ----- mask filters -----

  ghost predicate AllMasks(fs: seq<Filters>) {
    forall i :: 0 <= i < |fs| ==> fs[i].inward.Mask? && fs[i].outward.Mask?
  }

  /** The masks of the first i states ANDed together. */
  function Through(fs: seq<Filters>, i: nat): CancelType
    requires i <= |fs| && AllMasks(fs)
  {
    if i == 0 then ALL else Through(fs, i - 1) & fs[i - 1].inward.mask & fs[i - 1].outward.mask
  }

  /** With mask filters, a state is given t ANDed with all the masks so far. */
  lemma {:induction false} MasksIntersect(fs: seq<Filters>, t: CancelType, i: nat)
    requires i <= |fs| && AllMasks(fs)
    ensures Delivered(fs, t, i) == t & Through(fs, i)
  {
    if i == 0 {
      AllKeeps(t);
    } else {
      MasksIntersect(fs, t, i - 1);
      var given, before := Delivered(fs, t, i - 1), Through(fs, i - 1);
      RelayOfMasks(fs[i - 1], given);
      MaskTwice(t, before, fs[i - 1].inward.mask, fs[i - 1].outward.mask);
    }
  }

  lemma AllKeeps(t: CancelType)
    ensures t & ALL == t
  {
  }

  lemma RelayOfMasks(f: Filters, given: CancelType)
    requires f.inward.Mask? && f.outward.Mask?
    ensures f.Relay(given) == (given & f.inward.mask) & f.outward.mask
  {
  }

  lemma MaskTwice(t: CancelType, a: CancelType, m: CancelType, n: CancelType)
    ensures ((t & a) & m) & n == t & (a & m & n)
    ensures ((t & a) & m) & n != 0 ==> t & a != 0
  {
  }

  /** With mask filters, a state past the first has been reached exactly if t shares a bit with all
      the masks so far: a relayed none cannot become something again. */
  lemma {:induction false} ReachedIffSharedBit(fs: seq<Filters>, t: CancelType, i: nat)
    requires 0 < i <= |fs| && AllMasks(fs)
    ensures Reaches(fs, t, i) <==> t & Through(fs, i) != NONE
  {
    MasksIntersect(fs, t, i);
    if i > 1 {
      ReachedIffSharedBit(fs, t, i - 1);
      MaskTwice(t, Through(fs, i - 1), fs[i - 1].inward.mask, fs[i - 1].outward.mask);
      ReachesStep(fs, t, i);
    }
  }

  lemma ReachesStep(fs: seq<Filters>, t: CancelType, i: nat)
    requires 0 < i <= |fs|
    ensures Reaches(fs, t, i) <==> Reaches(fs, t, i - 1) && Delivered(fs, t, i) != NONE
  {
    if Reaches(fs, t, i - 1) && Delivered(fs, t, i) != NONE {
      forall j | 0 < j <= i ensures Delivered(fs, t, j) != NONE {}
    }
  }

  /** States built without filters of their own let through terminal cancellation, and only that. */
  lemma {:induction false} DefaultStatesRelayTerminal(fs: seq<Filters>, t: CancelType, i: nat)
    requires 0 < i <= |fs| && forall j :: 0 <= j < |fs| ==> fs[j] == Filters(ENABLE_TERMINAL, ENABLE_TERMINAL)
    ensures Delivered(fs, t, i) == t & TERMINAL
    ensures Reaches(fs, t, i) <==> t & TERMINAL != NONE
  {
    if i == 1 {
      assert Delivered(fs, t, 1) == fs[0].Relay(t);
      assert (t & TERMINAL) & TERMINAL == t & TERMINAL;
    } else {
      DefaultStatesRelayTerminal(fs, t, i - 1);
      assert ((t & TERMINAL) & TERMINAL) & TERMINAL == t & TERMINAL;
      ReachesStep(fs, t, i);
    }
  }

  // ----- runs of emissions and clears -----

  datatype Op = Emit(t: CancelType) | Clear(i: nat, mask: CancelType)

  function Do(op: Op, fs: seq<Filters>, cs: seq<CancelType>): (r: seq<CancelType>)
    requires |fs| == |cs|
    ensures |r| == |cs|
  {
    match op
    case Emit(t) => Emitted(fs, cs, t)
    case Clear(i, mask) => if i < |cs| then cs[i := Without(cs[i], mask)] else cs
  }

  function DoAll(ops: seq<Op>, fs: seq<Filters>, cs: seq<CancelType>): (r: seq<CancelType>)
    requires |fs| == |cs|
    ensures |r| == |cs|
  {
    if ops == [] then cs else DoAll(ops[1..], fs, Do(ops[0], fs, cs))
  }

  /** What a run calls the leaf with. */
  function LeafCallsOf(ops: seq<Op>, fs: seq<Filters>): seq<CancelType> {
    if ops == [] then [] else CallsBy(ops[0], fs) + LeafCallsOf(ops[1..], fs)
  }

  function CallsBy(op: Op, fs: seq<Filters>): seq<CancelType> {
    if op.Emit? then LeafCalls(fs, op.t) else []
  }

  /** The next operation of a run. */
  lemma NextOp(ops: seq<Op>, n: nat, fs: seq<Filters>, cs: seq<CancelType>, calls: seq<CancelType>)
    requires n < |ops| && |fs| == |cs|
    ensures DoAll(ops[n..], fs, cs) == DoAll(ops[n + 1..], fs, Do(ops[n], fs, cs))
    ensures calls + LeafCallsOf(ops[n..], fs) == (calls + CallsBy(ops[n], fs)) + LeafCallsOf(ops[n + 1..], fs)
  {
    assert ops[n..][0] == ops[n] && ops[n..][1..] == ops[n + 1..];
    assert LeafCallsOf(ops[n..], fs) == CallsBy(ops[n], fs) + LeafCallsOf(ops[n + 1..], fs);
    Regroup(calls, CallsBy(ops[n], fs), LeafCallsOf(ops[n + 1..], fs));
  }

  /** Everything that the clears in ops clear of state d. */
  function Cleared(ops: seq<Op>, d: nat): CancelType {
    if ops == [] then NONE else ClearedBy(ops[0], d) | Cleared(ops[1..], d)
  }

  function ClearedBy(op: Op, d: nat): CancelType {
    if op.Clear? && op.i == d then op.mask else NONE
  }

  /** The assignment in clear: x &= ~mask. */
  function Without(x: CancelType, mask: CancelType): CancelType {
    x & !mask
  }

  /** Of x, exactly the bits of the mask are gone. */
  lemma OnlyTheMask(x: CancelType, mask: CancelType)
    ensures Without(x, mask) & mask == 0 && Without(x, mask) | (x & mask) == x
  {
  }

  /** What each operation does at the end of a run, cs being what the states show by then: an emission is
      one of the whole chain, and a clear takes the bits of its mask, and no others, from its own state. */
  lemma NextOpByKind(ops: seq<Op>, op: Op, fs: seq<Filters>, cs: seq<CancelType>)
    requires |fs| == |cs|
    ensures var before, after := DoAll(ops, fs, cs), DoAll(ops + [op], fs, cs);
      if op.Emit? then after == Emitted(fs, before, op.t)
      else
        && (op.i < |cs| ==> after[op.i] & op.mask == 0 && after[op.i] | (before[op.i] & op.mask) == before[op.i])
        && forall j :: 0 <= j < |cs| && j != op.i ==> after[j] == before[j]
    ensures LeafCallsOf(ops + [op], fs) == LeafCallsOf(ops, fs) + (if op.Emit? then LeafCalls(fs, op.t) else [])
  {
    var before := DoAll(ops, fs, cs);
    DoAllConcat(ops, [op], fs, cs);
    assert [op][1..] == [] && DoAll([op], fs, before) == Do(op, fs, before);
    if op.Clear? && op.i < |cs| { OnlyTheMask(before[op.i], op.mask); }
    CallsConcat(ops, op, fs);
  }

  lemma {:induction false} CallsConcat(ops: seq<Op>, op: Op, fs: seq<Filters>)
    ensures LeafCallsOf(ops + [op], fs) == LeafCallsOf(ops, fs) + CallsBy(op, fs)
  {
    if ops == [] {
      assert [op][1..] == [] && ops + [op] == [op];
    } else {
      assert (ops + [op])[1..] == ops[1..] + [op];
      CallsConcat(ops[1..], op, fs);
      Regroup(CallsBy(ops[0], fs), LeafCallsOf(ops[1..], fs), CallsBy(op, fs));
    }
  }

  ghost predicate Untouched(ops: seq<Op>, fs: seq<Filters>, d: nat)
    requires d < |fs|
  {
    forall i :: 0 <= i < |ops| && ops[i].Emit? ==> !Reaches(fs, ops[i].t, d)
  }

  lemma ClearTwice(c: CancelType, m: CancelType, rest: CancelType)
    ensures Without(Without(c, m), rest) == Without(c, m | rest)
    ensures Without(c, NONE) == c
  {
  }

  lemma OneOnlyClears(op: Op, fs: seq<Filters>, cs: seq<CancelType>, d: nat)
    requires |fs| == |cs| && d < |cs| && (op.Emit? ==> !Reaches(fs, op.t, d))
    ensures Do(op, fs, cs)[d] == Without(cs[d], ClearedBy(op, d))
  {
    ClearTwice(cs[d], NONE, NONE);
    if op.Emit? { EmissionSetsAPrefix(fs, cs, op.t, d); }
  }

  /** While no emission reaches it, a state only loses what is cleared. */
  lemma {:induction false} OnlyClears(ops: seq<Op>, fs: seq<Filters>, cs: seq<CancelType>, d: nat)
    requires |fs| == |cs| && d < |cs| && Untouched(ops, fs, d)
    ensures DoAll(ops, fs, cs)[d] == Without(cs[d], Cleared(ops, d))
  {
    if ops == [] {
      ClearTwice(cs[d], NONE, NONE);
    } else {
      assert forall i :: 0 <= i < |ops[1..]| ==> ops[1..][i] == ops[i + 1];
      OneOnlyClears(ops[0], fs, cs, d);
      OnlyClears(ops[1..], fs, Do(ops[0], fs, cs), d);
      ClearTwice(cs[d], ClearedBy(ops[0], d), Cleared(ops[1..], d));
    }
  }

  lemma {:induction false} DoAllConcat(before: seq<Op>, after: seq<Op>, fs: seq<Filters>, cs: seq<CancelType>)
    requires |fs| == |cs|
    ensures DoAll(before + after, fs, cs) == DoAll(after, fs, DoAll(before, fs, cs))
  {
    if before == [] {
      assert before + after == after;
    } else {
      assert (before + after)[1..] == before[1..] + after;
      DoAllConcat(before[1..], after, fs, Do(before[0], fs, cs));
    }
  }

  /** After any run, a state shows the last emission that reached it, as its in filter left it, less
      what has been cleared since. Emissions overwrite; they do not accumulate. */
  lemma LastEmissionRules(ops: seq<Op>, n: nat, fs: seq<Filters>, cs: seq<CancelType>, d: nat)
    requires |fs| == |cs| && d < |cs|
    requires n < |ops| && ops[n].Emit? && Reaches(fs, ops[n].t, d) && Untouched(ops[n + 1..], fs, d)
    ensures DoAll(ops, fs, cs)[d]
         == Without(fs[d].inward.Apply(Delivered(fs, ops[n].t, d)), Cleared(ops[n + 1..], d))
  {
    var before, after := ops[..n], ops[n + 1..];
    var mid := DoAll(before, fs, cs);
    assert ops == before + ops[n..] && ops[n..][1..] == after;
    DoAllConcat(before, ops[n..], fs, cs);
    EmissionSetsAPrefix(fs, mid, ops[n].t, d);
    OnlyClears(after, fs, Emitted(fs, mid, ops[n].t), d);
  }
}
