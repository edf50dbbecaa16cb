/** The macros implement the semantics: one step of CoroutineSemantics is one or more steps of the
    switch, loops and gotos that the macros expand to. */
module CoroutineSimulation {
  import opened Common
  import opened CoroutineSyntax
  import opened MacroMachine
  import opened CoroutineSemantics

  /** The control stack that stands for a continuation; at the bottom is the reenter switch. */
  function EmbedStack<S>(k: Continuation<S>): Stack<S> {
    match k
    case Stop => InSwitch(Bottom)
    case Next(s, rest) => Then(Expand(s), EmbedStack(rest))
    case Loop(test, body, rest) => InFor(User(test), Empty, Expand(body), EmbedStack(rest))
  }

  function Embed<S>(m: Config<S>): Machine<S> {
    match m
    case Run(s, k, value, forked, store) => Running(Expand(s), EmbedStack(k), value, forked, store)
    case Exit(c, store) => Left(Code(c), store)
  }

  /** Two stretches of a run, the second from where the first has come to. */
  lemma Stretches<S>(p: CStmt<S>, i: nat, j: nat, m: Machine<S>, mid: Machine<S>, end: Machine<S>)
    requires Steps(p, i, m) == mid && Steps(p, j, mid) == end
    ensures Steps(p, i + j, m) == end
  {
    StepsAdd(p, i, j, m);
  }

  lemma BailOutTarget<S>(b: Stmt<S>)
    ensures FindLabel(BailOut, Reenter(b), Bottom) == Some((Break, InSwitch(Bottom)))
  {
    var k: Stack<S> := InSwitch(Bottom);
    var tail: CStmt<S> := Block(Goto(BailOut), Labelled(BailOut, Break));
    assert FindLabel(BailOut, tail, k) == Some((Break, k));
    var mid: CStmt<S> := Block(Labelled(Terminate, AssignValue(-1)), tail);
    assert FindLabel(BailOut, Labelled(Terminate, AssignValue(-1)), Then(tail, k)) == None;
    assert FindLabel(BailOut, mid, k) == Some((Break, k));
    assert FindLabel(BailOut, TerminateBlock(), k) == Some((Break, k));
    assert FindLabel(BailOut, Reenter(b).body, k) == Some((Break, k));
  }

  lemma TerminateTarget<S>(b: Stmt<S>)
    ensures FindLabel(Terminate, Reenter(b), Bottom)
         == Some((AssignValue(-1), Then(Block(Goto(BailOut), Labelled(BailOut, Break)), InSwitch(Bottom))))
  {
    var k: Stack<S> := InSwitch(Bottom);
    var tail: CStmt<S> := Block(Goto(BailOut), Labelled(BailOut, Break));
    var mid: CStmt<S> := Block(Labelled(Terminate, AssignValue(-1)), tail);
    assert FindLabel(Terminate, mid, k) == Some((AssignValue(-1), Then(tail, k)));
    assert FindLabel(Terminate, TerminateBlock(), k) == Some((AssignValue(-1), Then(tail, k)));
    assert FindLabel(Terminate, Reenter(b).body, k) == Some((AssignValue(-1), Then(tail, k)));
  }

  /** goto bail_out_of_coroutine leaves the reenter statement with the integer as it is. */
  lemma BailsOut<S>(b: Stmt<S>, k: Stack<S>, value: int, store: S)
    ensures Steps(Reenter(b), 3, Running(Goto(BailOut), k, value, true, store)) == Left(value, store)
  {
    BailOutTarget(b);
  }

  /** goto terminate_coroutine leaves it with -1. */
  lemma Terminates<S>(b: Stmt<S>, k: Stack<S>, value: int, modified: bool, store: S)
    ensures Steps(Reenter(b), 7, Running(Goto(Terminate), k, value, modified, store)) == Left(-1, store)
  {
    TerminateTarget(b);
    var m0 := Running(Goto(Terminate), k, value, modified, store);
    var rest := Then(Labelled(BailOut, Break), InSwitch(Bottom));
    assert Steps(Reenter(b), 4, m0) == Running(Goto(BailOut), rest, -1, true, store);
    BailsOut(b, rest, -1, store);
    Stretches(Reenter(b), 4, 3, m0, Running(Goto(BailOut), rest, -1, true, store), Left(-1, store));
  }

  /** What surrounds the user's statement in a yield. */
  function AroundStatement<S>(f: (S, int) -> (S, Departure), k: Stack<S>): Stack<S> {
    InFor(Always, Empty, YieldInner(f).body, InFor(Always, Empty, YieldOuter(f).body, k))
  }

  /** The inner switch of a yield jumps over both of its loops to the user's statement. */
  lemma YieldSwitchTarget<S>(f: (S, int) -> (S, Departure), k: Stack<S>)
    ensures FindCase(0, YieldOuter(f), k) == Some((Statement(f), AroundStatement(f, k)))
  {
    var k1, k2 := InFor(Always, Empty, YieldOuter(f).body, k), AroundStatement(f, k);
    var one := YieldInner(f).body;
    assert FindCase(0, one.s, k2) == Some((Statement(f), k2));
    assert FindCase(0, one, k2) == Some((Statement(f), k2));
    assert FindCase(0, YieldInner(f), k1) == Some((Statement(f), k2));
    assert FindCase(0, YieldOuter(f).body.s, k1) == Some((Statement(f), k2));
    assert FindCase(0, YieldOuter(f).body, k1) == Some((Statement(f), k2));
  }

  /** After the user's statement: falling through reaches "case 1" of the inner loop, which bails out;
      breaking out of that loop reaches "case -1" of the outer one, which terminates. */
  lemma YieldLeaves<S>(b: Stmt<S>, f: (S, int) -> (S, Departure), k: Stack<S>, d: Departure, n: int, store: S)
    returns (j: nat)
    requires n != 0
    ensures Steps(Reenter(b), j, Running(Departing(d), AroundStatement(f, k), n, true, store))
         == Left(if d == Breaks then -1 else n, store)
  {
    var p, m0 := Reenter(b), Running(Departing(d), AroundStatement(f, k), n, true, store);
    var outer := InFor(Always, Empty, YieldOuter(f).body, k);
    match d
    case Returns =>
      j := 1;
      assert Steps(p, 1, m0) == Left(n, store);
    case Falls =>
      var m := Running(Goto(BailOut), AroundStatement(f, k), n, true, store);
      assert Steps(p, 3, m0) == Running(YieldInner(f), outer, n, true, store);
      assert Steps(p, 3, Running(YieldInner(f), outer, n, true, store)) == m;
      Stretches(p, 3, 3, m0, Running(YieldInner(f), outer, n, true, store), m);
      BailsOut(b, AroundStatement(f, k), n, store);
      Stretches(p, 6, 3, m0, m, Left(n, store));
      j := 9;
    case Breaks =>
      var m := Running(Goto(Terminate), outer, n, true, store);
      assert Steps(p, 4, m0) == Running(YieldOuter(f), k, n, true, store);
      assert Steps(p, 3, Running(YieldOuter(f), k, n, true, store)) == m;
      Stretches(p, 4, 3, m0, Running(YieldOuter(f), k, n, true, store), m);
      Terminates(b, outer, n, true, store);
      Stretches(p, 7, 7, m0, m, Left(-1, store));
      j := 14;
  }

  /** A yield runs its statement with the integer at its line, and then leaves. */
  lemma YieldRuns<S>(b: Stmt<S>, m0: Machine<S>, n: int, f: (S, int) -> (S, Departure)) returns (j: nat)
    requires n >= 1 && m0.Running? && m0.s == Expand(Yield(n, f))
    ensures j >= 1
    ensures var (store', d) := f(m0.store, n);
      Steps(Reenter(b), j, m0) == Left(if d == Breaks then -1 else n, store')
  {
    var p := Reenter(b);
    var (store', d) := f(m0.store, n);
    var k := InSwitch(InFor(Always, Empty, YieldBody(n, f), m0.k));
    var m1 := Running(Switch(ZeroIfSet, YieldOuter(f)), k.rest, n, true, m0.store);
    var m2 := Running(Departing(d), AroundStatement(f, k), n, true, store');
    assert Steps(p, 5, m0) == m1;
    YieldSwitchTarget(f, k);
    assert Steps(p, 2, m1) == m2;
    Stretches(p, 5, 2, m0, m1, m2);
    j := YieldLeaves(b, f, k, d, n, store');
    Stretches(p, 7, j, m0, m2, Left(if d == Breaks then -1 else n, store'));
    j := 7 + j;
  }

  /** A fork runs its statement with the integer at minus its line; then the parent goes on after
      the fork with the integer at its line. */
  lemma ForkRuns<S>(b: Stmt<S>, m0: Machine<S>, n: int, f: (S, int) -> S) returns (i: nat, j: nat)
    requires n >= 2 && m0.Running? && m0.s == Expand(Fork(n, f))
    ensures 1 <= i < j
    ensures var m := Steps(Reenter(b), i, m0);
      m.Running? && m.s == Expression(f) && m.value == -n && m.store == m0.store
    ensures Steps(Reenter(b), j, m0) == Running(Empty, m0.k, n, true, f(m0.store, -n))
  {
    var p, store' := Reenter(b), f(m0.store, -n);
    var loop := For(Always, AssignValue(n), ForkBody(n, f));
    var m1 := Running(Expression(f), InFor(Always, AssignValue(n), ForkBody(n, f), m0.k), -n, true, m0.store);
    var m2 := Running(loop, m0.k, n, true, store');
    var m3 := Running(Empty, m0.k, n, true, store');
    assert Steps(p, 5, m0) == m1;
    assert Steps(p, 5, m1) == m2;
    assert Steps(p, 6, m2) == m3;
    Stretches(p, 5, 5, m0, m1, m2);
    Stretches(p, 10, 6, m0, m2, m3);
    i, j := 5, 16;
  }

  /** One step of the semantics is j >= 1 steps of the macros. */
  lemma StepIsSimulated<S>(b: Stmt<S>, m: Config<S>) returns (j: nat)
    requires Reached(b, m)
    ensures j >= 1
    ensures Steps(Reenter(b), j, Embed(m)) == Embed(Advance(m))
  {
    var p, m0 := Reenter(b), Embed(m);
    if m.Run? && m.s.Yield? {
      j := YieldRuns(b, m0, m.s.line, m.s.statement);
    } else if m.Run? && m.s.Fork? {
      var i;
      i, j := ForkRuns(b, m0, m.s.line, m.s.f);
    } else if m.Run? && m.k == Stop && m.s in {Skip, Leave} {
      j := 2;
      assert Steps(p, 2, m0) == Embed(Advance(m));
    } else if m.Run? && m.s == Skip && m.k.Loop? {
      j := 3;
      assert Steps(p, 3, m0) == Embed(Advance(m));
    } else {
      j := 1;
      assert Steps(p, 1, m0) == Embed(Advance(m));
    }
  }

  /** n steps of the semantics are at least n steps of the macros. */
  lemma {:induction false} RunIsSimulated<S>(b: Stmt<S>, m: Config<S>, n: nat) returns (j: nat)
    requires Reached(b, m)
    ensures j >= n
    ensures Steps(Reenter(b), j, Embed(m)) == Embed(AdvanceBy(n, m))
    ensures Reached(b, AdvanceBy(n, m))
  {
    if n == 0 {
      j := 0;
    } else {
      j := RunIsSimulated(b, m, n - 1);
      var m' := AdvanceBy(n - 1, m);
      var j' := StepIsSimulated(b, m');
      ReachedAdvances(b, m');
      StepsAdd(Reenter(b), j, j', Embed(m));
      j := j + j';
    }
  }

  /** The control stack at a resume point: just inside the pseudo-keyword's loop. */
  function LandingStack<S>(node: Stmt<S>, k: Continuation<S>): Stack<S> {
    match node
    case Yield(n, f) => Then(Break, InFor(Always, Empty, YieldBody(n, f), EmbedStack(k)))
    case Fork(n, f) => Then(Break, InFor(Always, AssignValue(n), ForkBody(n, f), EmbedStack(k)))
    case _ => EmbedStack(k)
  }

  /** A switch on v into the expansion of s lands where Find says, or nowhere. */
  lemma {:induction false} SwitchLands<S>(v: int, s: Stmt<S>, k: Continuation<S>)
    ensures FindCase(v, Expand(s), EmbedStack(k)) ==
      match Find(v, s, k)
      case None => None
      case Some((node, rest)) => Some((Empty, LandingStack(node, rest)))
  {
    match s
    case Seq(a, b) => SwitchLands(v, a, Next(b, k)); SwitchLands(v, b, k);
    case If(_, a, b) => SwitchLands(v, a, k); SwitchLands(v, b, k);
    case While(test, body) => SwitchLands(v, body, Loop(test, body, k));
    case Yield(n, f) =>
      var loop := InFor(Always, Empty, YieldBody(n, f), EmbedStack(k));
      var landing := if n == v then Some((Empty, Then(Break, loop))) else None;
      assert FindCase(v, Case(n, Empty), Then(Break, loop)) == landing;
      assert FindCase(v, YieldBody(n, f).thn, loop) == landing;
      assert FindCase(v, YieldBody(n, f), loop) == landing;
    case Fork(n, f) =>
      var loop := InFor(Always, AssignValue(n), ForkBody(n, f), EmbedStack(k));
      var landing := if -n == v then Some((Empty, Then(Break, loop))) else None;
      assert FindCase(v, Case(-n, Empty), Then(Break, loop)) == landing;
      assert FindCase(v, ForkBody(n, f).thn, loop) == landing;
      assert FindCase(v, ForkBody(n, f), loop) == landing;
    case _ =>
  }

  /** The jump of the reenter switch: to the top, to a resume point, to the terminate block, or
      past the whole body. */
  lemma ReenterTarget<S>(b: Stmt<S>, v: int)
    ensures FindCase(v, Reenter(b).body, InSwitch(Bottom)) ==
      if v == -1 then Some((Reenter(b).body.s, InSwitch(Bottom)))
      else if v == 0 then Some((Expand(b), InSwitch(Bottom)))
      else match Find(v, b, Stop)
           case None => None
           case Some((node, rest)) => Some((Empty, LandingStack(node, rest)))
  {
    var k: Stack<S> := InSwitch(Bottom);
    SwitchLands(v, b, Stop);
    NoCaseInTerminateBlock(v, k);
    if v != -1 {
      var entry := Reenter(b).body.s;
      assert FindCase(v, Reenter(b).body, k) == FindCase(v, entry, k) == FindCase(v, entry.els, k);
    }
  }

  lemma NoCaseInTerminateBlock<S>(v: int, k: Stack<S>)
    ensures FindCase(v, TerminateBlock(), k) == None
  {
    var tail: CStmt<S> := Block(Goto(BailOut), Labelled(BailOut, Break));
    assert FindCase(v, Labelled(BailOut, Break), k) == FindCase(v, Break, k) == None;
    assert FindCase(v, tail, k) == None;
    assert FindCase(v, Labelled(Terminate, AssignValue(-1)), Then(tail, k))
        == FindCase(v, AssignValue(-1), Then(tail, k));
    assert FindCase(v, Block(Labelled(Terminate, AssignValue(-1)), tail), k) == None;
  }

  /** Resuming is continuing: re-entered with the integer of c, the macros jump to where c's
      continuation starts, whatever the store is by then. */
  lemma ReenterResumes<S>(b: Stmt<S>, c: Coroutine<S>, store: S) returns (j: nat)
    requires WellLabelled(b) && Sound(b, c)
    ensures Steps(Reenter(b), j, Start(b, Code(c), store)) == Embed(Resume(b, c, store))
  {
    var p, m0 := Reenter(b), Start(b, Code(c), store);
    ReenterTarget(b, Code(c));
    if c.Stale? {
      ForkLineIsNotACase(b, c.line);
    }
    FindIff(Code(c), b, Stop);
    match c
    case Fresh =>
      if Find(0, b, Stop).Some? { LabelsComeFromLines(b, 0); }
      j := 1;
      assert Steps(p, 1, m0) == Embed(Resume(b, c, store));
    case Suspended(n, k) =>
      LabelsComeFromLines(b, n);
      FoundIsLabelled(n, b, Stop);
      assert Steps(p, 1, m0) == Running(Empty, LandingStack(Find(n, b, Stop).value.0, k), n, false, store);
      j := 3;
      assert Steps(p, 3, m0) == Running(Empty, EmbedStack(k), n, false, store);
    case Stale(n) =>
      j := 2;
      assert Steps(p, 2, m0) == Left(-1, store);
    case Ended =>
      var k := Then(TerminateBlock<S>().second, InSwitch(Bottom));
      var m := Running(Goto(Terminate), k, -1, false, store);
      assert Steps(p, 3, m0) == m;
      Terminates(b, k, -1, false, store);
      Stretches(p, 3, 7, m0, m, Left(-1, store));
      j := 10;
  }
}
