/** cancellation_signal, cancellation_slot and cancellation_state: signals with one slot each, chained
    through states. A slot is a reference to its signal, null when it is not connected. */
module Cancellation {
  import opened CancellationRules

  datatype Handler = NoHandler | ToState(impl: StateImpl) | ToLeaf(leaf: LeafHandler)

  /** An operation's own handler, remembering what it was called with. */
  class LeafHandler {
    var calls: seq<CancelType>

    constructor ()
      ensures calls == []
    {
      calls := [];
    }
  }

  /** The signal in front of state i of the chain links that hangs from signal s. */
  ghost function SignalAt(s: Signal, links: seq<StateImpl>, i: nat): Signal
    requires i <= |links|
  {
    if i == 0 then s else links[i - 1].signal
  }

  ghost function Signals(s: Signal, links: seq<StateImpl>): set<Signal> {
    set i | 0 <= i <= |links| :: SignalAt(s, links, i)
  }

  /** The chain that hangs from s is links, and then end. */
  ghost predicate Chained(s: Signal, links: seq<StateImpl>, end: Handler)
    reads Signals(s, links)`handler
  {
    && !end.ToState?
    && (forall i :: 0 <= i <= |links| ==>
          SignalAt(s, links, i).handler == if i < |links| then ToState(links[i]) else end)
    && forall i, j :: 0 <= i < j <= |links| ==> SignalAt(s, links, i) != SignalAt(s, links, j)
  }

  ghost function FiltersOf(links: seq<StateImpl>): (fs: seq<Filters>)
    ensures |fs| == |links|
  {
    if links == [] then [] else [Filters(links[0].inFilter, links[0].outFilter)] + FiltersOf(links[1..])
  }

  /** What the states of a chain show. */
  ghost function Shown(links: seq<StateImpl>): (cs: seq<CancelType>)
    reads links
    ensures |cs| == |links|
  {
    if links == [] then [] else [links[0].cancelled] + Shown(links[1..])
  }

  /** States that have not changed show what they showed. */
  twostate lemma {:induction false} ShownUnchanged(links: seq<StateImpl>)
    requires forall l <- links :: l.cancelled == old(l.cancelled)
    ensures Shown(links) == old(Shown(links))
  {
    if links != [] { ShownUnchanged(links[1..]); }
  }

  lemma {:induction false} ShownAt(links: seq<StateImpl>, i: nat)
    requires i < |links|
    ensures Shown(links)[i] == links[i].cancelled
    ensures FiltersOf(links)[i] == Filters(links[i].inFilter, links[i].outFilter)
  {
    if i > 0 { ShownAt(links[1..], i - 1); }
  }

  ghost function Leaves(end: Handler): set<LeafHandler> {
    if end.ToLeaf? then {end.leaf} else {}
  }

  ghost function CallsOf(end: Handler): seq<CancelType>
    reads Leaves(end)`calls
  {
    if end.ToLeaf? then end.leaf.calls else []
  }

  /** The rest of a chain is a chain. */
  lemma ChainedTail(s: Signal, links: seq<StateImpl>, end: Handler)
    requires Chained(s, links, end) && links != []
    ensures Chained(links[0].signal, links[1..], end) && links[0] !in links[1..]
    ensures FiltersOf(links)[1..] == FiltersOf(links[1..])
  {
    var s', rest := links[0].signal, links[1..];
    forall i | 0 <= i <= |rest| ensures SignalAt(s', rest, i) == SignalAt(s, links, i + 1) {}
    forall i | 0 <= i < |rest| ensures rest[i] != links[0] {
      assert SignalAt(s, links, 1) != SignalAt(s, links, i + 2);
    }
  }

  class Signal {
    var handler: Handler

    constructor ()
      ensures handler == NoHandler && !HasHandler()
    {
      handler := NoHandler;
    }

    /** What has_handler of the signal's slot says. */
    predicate HasHandler()
      reads this
    {
      !handler.NoHandler?
    }

    /** Emits t to the whole chain: exactly the states that t reaches record what they are given,
        and the leaf is called exactly once if it is reached. */
    method Emit(t: CancelType, ghost links: seq<StateImpl>, ghost end: Handler)
      requires Chained(this, links, end)
      modifies links`cancelled, Leaves(end)`calls
      ensures Chained(this, links, end)
      ensures Shown(links) == Emitted(FiltersOf(links), old(Shown(links)), t)
      ensures end.ToLeaf? ==> CallsOf(end) == old(CallsOf(end)) + LeafCalls(FiltersOf(links), t)
      decreases |links|, 1
    {
      assert SignalAt(this, links, 0) == this;
      match handler
      case NoHandler =>
      case ToState(impl) => impl.Call(t, this, links, end);
      case ToLeaf(leaf) => leaf.calls := leaf.calls + [t];
    }
  }

  /** The handler that a cancellation_state installs. */
  class StateImpl {
    const inFilter: Filter
    const outFilter: Filter
    const signal: Signal
    var cancelled: CancelType

    constructor (inFilter: Filter, outFilter: Filter)
      ensures fresh(signal) && signal.handler == NoHandler && cancelled == NONE
      ensures this.inFilter == inFilter && this.outFilter == outFilter
    {
      this.inFilter, this.outFilter, cancelled := inFilter, outFilter, NONE;
      signal := new Signal();
    }

    /** As a constructor of cancellation_state leaves it. */
    ghost predicate IsNew(inFilter: Filter, outFilter: Filter)
      reads this, signal
    {
      this.inFilter == inFilter && this.outFilter == outFilter && cancelled == NONE && !signal.HasHandler()
    }

    /** operator(): record, and relay unless the relayed value is none. */
    method Call(t: CancelType, ghost s: Signal, ghost links: seq<StateImpl>, ghost end: Handler)
      requires Chained(s, links, end) && links != [] && links[0] == this
      modifies links`cancelled, Leaves(end)`calls
      ensures Chained(s, links, end)
      ensures cancelled == match inFilter case Mask(m) => t & m case Custom(f) => f(t)
      ensures Shown(links) == Emitted(FiltersOf(links), old(Shown(links)), t)
      ensures end.ToLeaf? ==> CallsOf(end) == old(CallsOf(end)) + LeafCalls(FiltersOf(links), t)
      decreases |links|, 0
    {
      ChainedTail(s, links, end);
      cancelled := inFilter.Apply(t);
      ShownUnchanged(links[1..]);
      Relay(outFilter.Apply(cancelled), links[1..], end);
    }

    /** Emits out to the rest of the chain, unless it is none. */
    method Relay(out: CancelType, ghost rest: seq<StateImpl>, ghost end: Handler)
      requires Chained(signal, rest, end)
      modifies rest`cancelled, Leaves(end)`calls
      ensures Chained(signal, rest, end)
      ensures Shown(rest) == if out != NONE then Emitted(FiltersOf(rest), old(Shown(rest)), out) else old(Shown(rest))
      ensures end.ToLeaf? ==>
        CallsOf(end) == old(CallsOf(end)) + if out != NONE then LeafCalls(FiltersOf(rest), out) else []
      decreases |rest|, 2
    {
      if out != NONE { signal.Emit(out, rest, end); }
    }
  }

  class State {
    const impl: StateImpl?

    /** A disconnected state. */
    constructor Disconnected()
      ensures impl == null
    {
      impl := null;
    }

    /** Attaches to a parent slot, if connected, by emplacing a handler there. */
    constructor Attach(slot: Signal?, inFilter: Filter, outFilter: Filter)
      modifies if slot == null then {} else {slot}
      ensures slot == null ==> impl == null && Slot() == null && Cancelled() == NONE
      ensures slot != null ==> impl != null && fresh(impl) && fresh(impl.signal)
      ensures slot != null ==> slot.handler == ToState(impl) && slot.HasHandler() && impl.IsNew(inFilter, outFilter)
      ensures slot != null ==> impl.inFilter == inFilter && impl.outFilter == outFilter && impl.cancelled == NONE
    {
      var installed: StateImpl? := null;
      if slot != null { installed := new StateImpl(inFilter, outFilter); }
      impl := installed;
      new;
      if slot != null { slot.handler := ToState(installed); }
    }

    /** With one filter, which is used both ways. */
    constructor AttachFiltered(slot: Signal?, filter: Filter)
      modifies if slot == null then {} else {slot}
      ensures slot == null ==> impl == null && Slot() == null && Cancelled() == NONE
      ensures slot != null ==> impl != null && fresh(impl) && fresh(impl.signal)
      ensures slot != null ==> slot.handler == ToState(impl) && slot.HasHandler() && impl.IsNew(filter, filter)
      ensures slot != null ==> impl.inFilter == impl.outFilter == filter && impl.cancelled == NONE
    {
      var installed: StateImpl? := null;
      if slot != null { installed := new StateImpl(filter, filter); }
      impl := installed;
      new;
      if slot != null { slot.handler := ToState(installed); }
    }

    /** Without filters: terminal cancellation only, both ways. */
    constructor AttachTerminal(slot: Signal?)
      modifies if slot == null then {} else {slot}
      ensures slot == null ==> impl == null && Slot() == null && Cancelled() == NONE
      ensures slot != null ==> impl != null && fresh(impl) && fresh(impl.signal)
      ensures slot != null ==>
        slot.handler == ToState(impl) && slot.HasHandler() && impl.IsNew(ENABLE_TERMINAL, ENABLE_TERMINAL)
      ensures slot != null ==> impl.inFilter == impl.outFilter == Mask(1) && impl.cancelled == NONE
    {
      var installed: StateImpl? := null;
      if slot != null { installed := new StateImpl(ENABLE_TERMINAL, ENABLE_TERMINAL); }
      impl := installed;
      new;
      if slot != null { slot.handler := ToState(installed); }
    }

    /** The child slot; a state on a disconnected slot has a disconnected one. */
    function Slot(): (slot: Signal?)
      ensures impl == null <==> slot == null
    {
      if impl != null then impl.signal else null
    }

    function Cancelled(): CancelType
      reads impl
    {
      if impl != null then impl.cancelled else NONE
    }

    method Clear(mask: CancelType)
      modifies (if impl == null then {} else {impl})`cancelled
      ensures Cancelled() == Without(old(Cancelled()), mask)
      ensures Cancelled() & mask == 0 && Cancelled() | (old(Cancelled()) & mask) == old(Cancelled())
    {
      OnlyTheMask(Cancelled(), mask);
      if impl != null {
        impl.cancelled := Without(impl.cancelled, mask);
      } else {
        assert Without(NONE, mask) == NONE;
      }
    }
  }

  /** Cutting a chain keeps the signals in front of the cut. */
  lemma SignalsWhenCut(root: Signal, links: seq<StateImpl>, d: nat, impl: StateImpl, i: nat)
    requires d <= |links| && i <= d + 1
    ensures SignalAt(root, links[..d] + [impl], i) == if i <= d then SignalAt(root, links, i) else impl.signal
  {
  }

  /** A chain cut after its first d states, with impl linked in there. */
  lemma ChainedWhenCut(root: Signal, links: seq<StateImpl>, d: nat, impl: StateImpl)
    requires d <= |links|
    requires forall i :: 0 <= i < d ==> SignalAt(root, links, i).handler == ToState(links[i])
    requires SignalAt(root, links, d).handler == ToState(impl) && impl.signal.handler == NoHandler
    requires forall i, j :: 0 <= i < j <= d ==> SignalAt(root, links, i) != SignalAt(root, links, j)
    requires forall i :: 0 <= i <= d ==> SignalAt(root, links, i) != impl.signal
    ensures Chained(root, links[..d] + [impl], NoHandler)
  {
    var cut := links[..d] + [impl];
    forall i | 0 <= i <= d + 1
      ensures SignalAt(root, cut, i).handler == if i < |cut| then ToState(cut[i]) else NoHandler
    {
      SignalsWhenCut(root, links, d, impl, i);
    }
    forall i, j | 0 <= i < j <= d + 1 ensures SignalAt(root, cut, i) != SignalAt(root, cut, j) {
      SignalsWhenCut(root, links, d, impl, i);
      SignalsWhenCut(root, links, d, impl, j);
    }
  }

  /** A state attached in the middle of a chain replaces everything after that point: the chain is cut
      there and ends with the new state, whose own slot is empty. */
  method AttachAt(root: Signal, links: seq<StateImpl>, ghost end: Handler, d: nat, inFilter: Filter, outFilter: Filter)
    returns (st: State)
    requires Chained(root, links, end) && d <= |links|
    modifies Signals(root, links)
    ensures st.impl != null && fresh(st.impl)
    ensures st.impl.inFilter == inFilter && st.impl.outFilter == outFilter && st.impl.cancelled == NONE
    ensures Chained(root, links[..d] + [st.impl], NoHandler)
    ensures forall l <- links :: l.cancelled == old(l.cancelled)
  {
    var slot := if d == 0 then root else links[d - 1].signal;
    SignalsInFront(root, links, end, d);
    label before:
    st := AttachTo(slot, inFilter, outFilter);
    assert Chained(root, links[..d] + [st.impl], NoHandler) by {
      forall i | 0 <= i < d ensures SignalAt(root, links, i).handler == ToState(links[i]) {
        assert old@before(SignalAt(root, links, i).handler) == ToState(links[i]);
      }
      ChainedWhenCut(root, links, d, st.impl);
    }
  }

  /** A state attached to a slot that is connected. */
  method AttachTo(slot: Signal, inFilter: Filter, outFilter: Filter) returns (st: State)
    modifies slot
    ensures st.impl != null && fresh(st.impl) && fresh(st.impl.signal)
    ensures slot.handler == ToState(st.impl) && st.impl.IsNew(inFilter, outFilter)
  {
    st := new State.Attach(slot, inFilter, outFilter);
  }

  /** The slot at depth d, and how the signals in front of it differ from it and from each other. */
  lemma SignalsInFront(root: Signal, links: seq<StateImpl>, end: Handler, d: nat)
    requires Chained(root, links, end) && d <= |links|
    ensures SignalAt(root, links, d) in Signals(root, links)
    ensures forall i :: 0 <= i < d ==>
      SignalAt(root, links, i).handler == ToState(links[i]) && SignalAt(root, links, i) != SignalAt(root, links, d)
  {
  }

  /** One emission at the root, or one clear of a state. */
  method DoOp(root: Signal, states: seq<State>, ghost links: seq<StateImpl>, ghost end: Handler, op: Op)
    requires Chained(root, links, end)
    requires |states| == |links| && forall i :: 0 <= i < |links| ==> states[i].impl == links[i]
    modifies links`cancelled, Leaves(end)`calls
    ensures Chained(root, links, end)
    ensures Shown(links) == Do(op, FiltersOf(links), old(Shown(links)))
    ensures end.ToLeaf? ==> CallsOf(end) == old(CallsOf(end)) + CallsBy(op, FiltersOf(links))
  {
    match op
    case Emit(t) => root.Emit(t, links, end);
    case Clear(i, mask) =>
      if i < |states| {
        DistinctStates(root, links, end);
        ClearOne(states[i], links, i, mask);
      }
  }

  method ClearOne(st: State, ghost links: seq<StateImpl>, ghost i: nat, mask: CancelType)
    requires i < |links| && st.impl == links[i] && forall j :: 0 <= j < |links| && j != i ==> links[j] != links[i]
    modifies (if st.impl == null then {} else {st.impl})`cancelled
    ensures Shown(links) == Do(Clear(i, mask), FiltersOf(links), old(Shown(links)))
  {
    ghost var before := Shown(links);
    forall j | 0 <= j < |links| ensures before[j] == links[j].cancelled { ShownAt(links, j); }
    st.Clear(mask);
    assert links[i].cancelled == st.Cancelled();
    forall j | 0 <= j < |links| ensures Shown(links)[j] == links[j].cancelled { ShownAt(links, j); }
  }

  /** Any run of emissions and clears on a fixed chain does what the rules say. */
  method RunOps(root: Signal, states: seq<State>, ghost links: seq<StateImpl>, ghost end: Handler, ops: seq<Op>)
    requires Chained(root, links, end)
    requires |states| == |links| && forall i :: 0 <= i < |links| ==> states[i].impl == links[i]
    modifies links`cancelled, Leaves(end)`calls
    ensures Chained(root, links, end)
    ensures Shown(links) == DoAll(ops, FiltersOf(links), old(Shown(links)))
    ensures end.ToLeaf? ==> CallsOf(end) == old(CallsOf(end)) + LeafCallsOf(ops, FiltersOf(links))
  {
    for n := 0 to |ops|
      invariant Chained(root, links, end)
      invariant end.ToLeaf? ==>
        CallsOf(end) + LeafCallsOf(ops[n..], FiltersOf(links)) == old(CallsOf(end)) + LeafCallsOf(ops, FiltersOf(links))
      invariant DoAll(ops[n..], FiltersOf(links), Shown(links)) == DoAll(ops, FiltersOf(links), old(Shown(links)))
    {
      NextOp(ops, n, FiltersOf(links), Shown(links), CallsOf(end));
      DoOp(root, states, links, end, ops[n]);
    }
  }

  lemma DistinctStates(s: Signal, links: seq<StateImpl>, end: Handler)
    requires Chained(s, links, end)
    ensures forall i, j :: 0 <= i < j < |links| ==> links[i] != links[j]
  {
    forall i, j | 0 <= i < j < |links| ensures links[i] != links[j] {
      assert SignalAt(s, links, i + 1) != SignalAt(s, links, j + 1);
    }
  }
}
