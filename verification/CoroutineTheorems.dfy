/** What the reenter, yield and fork macros guarantee, over single activations and whole runs. */
module CoroutineTheorems {
  import opened CoroutineSyntax
  import opened MacroMachine
  import opened CoroutineSemantics
  import opened CoroutineSimulation

  lemma ActivationEndsSound<S>(b: Stmt<S>, c: Coroutine<S>, s: S, c': Coroutine<S>, s': S)
    requires WellLabelled(b) && Sound(b, c) && Activation(b, c, s, c', s')
    ensures Sound(b, c')
  {
    var j: nat :| AdvanceBy(j, Resume(b, c, s)) == Exit(c', s');
    ActivationsStaySound(b, c, s, j);
  }

  lemma ActivationIsSimulated<S>(b: Stmt<S>, c: Coroutine<S>, s: S, c': Coroutine<S>, s': S)
    requires WellLabelled(b) && Sound(b, c) && Activation(b, c, s, c', s')
    ensures MacroActivation(b, Code(c), s, Code(c'), s')
  {
    var n: nat :| AdvanceBy(n, Resume(b, c, s)) == Exit(c', s');
    ActivationsStaySound(b, c, s, 0);
    var i := ReenterResumes(b, c, s);
    var j := RunIsSimulated(b, Resume(b, c, s), n);
    StepsAdd(Reenter(b), i, j, Start(b, Code(c), s));
    assert Steps(Reenter(b), i + j, Start(b, Code(c), s)) == Left(Code(c'), s');
  }

  /** An activation of the macros that ends is an activation of the semantics that ends: the
      macros never loop, jump elsewhere or stop early on their own account. */
  lemma MacrosOnlySimulate<S>(b: Stmt<S>, c: Coroutine<S>, s: S, v': int, s': S) returns (n: nat, c': Coroutine<S>)
    requires WellLabelled(b) && Sound(b, c) && MacroActivation(b, Code(c), s, v', s')
    ensures AdvanceBy(n, Resume(b, c, s)) == Exit(c', s') && Code(c') == v'
  {
    var p, m0 := Reenter(b), Start(b, Code(c), s);
    n :| Steps(p, n, m0) == Left(v', s');
    ActivationsStaySound(b, c, s, 0);
    var i := ReenterResumes(b, c, s);
    var j := RunIsSimulated(b, Resume(b, c, s), n);
    StepsAdd(p, i, j, m0);
    LeftIsFinal(p, n, i + j, m0);
    assert Embed(AdvanceBy(n, Resume(b, c, s))) == Left(v', s');
    c' := AdvanceBy(n, Resume(b, c, s)).c;
  }

  /** Resuming is continuing. For every body, every state a coroutine of that body can be in and
      every store, the macros entered with its integer do what continuing the coroutine does, and
      leave the integer of the state it is then in. */
  lemma ResumingIsContinuing<S(!new)>(b: Stmt<S>, c: Coroutine<S>, s: S, v': int, s': S)
    requires WellLabelled(b) && Sound(b, c)
    ensures MacroActivation(b, Code(c), s, v', s')
       <==> exists c' :: Activation(b, c, s, c', s') && Code(c') == v'
  {
    if MacroActivation(b, Code(c), s, v', s') {
      var n, c' := MacrosOnlySimulate(b, c, s, v', s');
      assert Activation(b, c, s, c', s');
    }
    if c' :| Activation(b, c, s, c', s') && Code(c') == v' {
      ActivationIsSimulated(b, c, s, c', s');
    }
  }

  /** Whatever body and store, no break is ever outside a loop or switch, and no goto without a label. */
  lemma NeverIllFormed<S>(b: Stmt<S>, c: Coroutine<S>, s: S, n: nat)
    requires WellLabelled(b) && Sound(b, c)
    ensures Steps(Reenter(b), n, Start(b, Code(c), s)) != IllFormed
  {
    var p, m0 := Reenter(b), Start(b, Code(c), s);
    ActivationsStaySound(b, c, s, 0);
    var i := ReenterResumes(b, c, s);
    var j := RunIsSimulated(b, Resume(b, c, s), n);
    StepsAdd(p, i, j, m0);
    if Steps(p, n, m0) == IllFormed { IllFormedIsFinal(p, n, i + j, m0); }
  }

  // ----- whole runs; a run lists the store before and after each activation -----

  ghost predicate MacroRun<S>(b: Stmt<S>, v: int, acts: seq<(S, S)>, v': int)
    decreases |acts|
  {
    if acts == [] then v' == v
    else exists v1 :: MacroActivation(b, v, acts[0].0, v1, acts[0].1) && MacroRun(b, v1, acts[1..], v')
  }

  ghost predicate CoroutineRun<S(!new)>(b: Stmt<S>, c: Coroutine<S>, acts: seq<(S, S)>, c': Coroutine<S>)
    decreases |acts|
  {
    if acts == [] then c' == c
    else exists c1 :: Activation(b, c, acts[0].0, c1, acts[0].1) && CoroutineRun(b, c1, acts[1..], c')
  }

  lemma {:induction false} RunsStaySound<S(!new)>(b: Stmt<S>, c: Coroutine<S>, acts: seq<(S, S)>, c': Coroutine<S>)
    requires WellLabelled(b) && Sound(b, c) && CoroutineRun(b, c, acts, c')
    ensures Sound(b, c')
    decreases |acts|
  {
    if acts != [] {
      var c1 :| Activation(b, c, acts[0].0, c1, acts[0].1) && CoroutineRun(b, c1, acts[1..], c');
      ActivationEndsSound(b, c, acts[0].0, c1, acts[0].1);
      RunsStaySound(b, c1, acts[1..], c');
    }
  }

  lemma {:induction false} MacroRunIsCoroutineRun<S(!new)>(b: Stmt<S>, c: Coroutine<S>, acts: seq<(S, S)>, v': int)
    returns (c': Coroutine<S>)
    requires WellLabelled(b) && Sound(b, c) && MacroRun(b, Code(c), acts, v')
    ensures CoroutineRun(b, c, acts, c') && Code(c') == v'
    decreases |acts|
  {
    if acts == [] { return c; }
    var s, s1 := acts[0].0, acts[0].1;
    var v1 :| MacroActivation(b, Code(c), s, v1, s1) && MacroRun(b, v1, acts[1..], v');
    var n, c1 := MacrosOnlySimulate(b, c, s, v1, s1);
    assert Activation(b, c, s, c1, s1);
    ActivationEndsSound(b, c, s, c1, s1);
    c' := MacroRunIsCoroutineRun(b, c1, acts[1..], v');
  }

  lemma {:induction false} CoroutineRunIsMacroRun<S(!new)>(
      b: Stmt<S>, c: Coroutine<S>, acts: seq<(S, S)>, c': Coroutine<S>)
    requires WellLabelled(b) && Sound(b, c) && CoroutineRun(b, c, acts, c')
    ensures MacroRun(b, Code(c), acts, Code(c'))
    decreases |acts|
  {
    if acts != [] {
      var s, s1 := acts[0].0, acts[0].1;
      var c1 :| Activation(b, c, s, c1, s1) && CoroutineRun(b, c1, acts[1..], c');
      ActivationEndsSound(b, c, s, c1, s1);
      ActivationIsSimulated(b, c, s, c1, s1);
      CoroutineRunIsMacroRun(b, c1, acts[1..], c');
    }
  }

  /** Over any number of activations, with the store changed in any way in between, a coroutine
      kept as one integer behaves as a coroutine kept as a continuation. */
  lemma RunsAgree<S(!new)>(b: Stmt<S>, c: Coroutine<S>, acts: seq<(S, S)>, v': int)
    requires WellLabelled(b) && Sound(b, c)
    ensures MacroRun(b, Code(c), acts, v') <==> exists c' :: CoroutineRun(b, c, acts, c') && Code(c') == v'
  {
    if MacroRun(b, Code(c), acts, v') {
      var c' := MacroRunIsCoroutineRun(b, c, acts, v');
    }
    if c' :| CoroutineRun(b, c, acts, c') && Code(c') == v' {
      CoroutineRunIsMacroRun(b, c, acts, c');
    }
  }

  // ----- completion -----

  /** A value with no case, -1 among them, runs no statement of the body and ends at -1: a complete
      coroutine stays complete, and so becomes the parent of a fork that had left the body. */
  lemma ValueWithoutCaseRunsNothing<S>(b: Stmt<S>, v: int, s: S, v': int, s': S)
    requires WellLabelled(b) && v != 0 && v !in CaseLabels(b)
    ensures MacroActivation(b, v, s, v', s') <==> v' == -1 && s' == s
  {
    var p, m0 := Reenter(b), Start(b, v, s);
    var j := 2;
    if v == -1 {
      j := ReenterResumes(b, Ended, s);
    } else {
      ReenterTarget(b, v);
      FindIff(v, b, Stop);
      assert Steps(p, 2, m0) == Left(-1, s);
    }
    assert Steps(p, j, m0) == Left(-1, s);
    if MacroActivation(b, v, s, v', s') {
      ActivationIsDeterministic(b, v, s, v', s', -1, s);
    }
  }

  /** What the queries on the integer tell: -1 is exactly completion; a negative integer is the child
      of a fork, or completion. */
  lemma QueriesTellTheState<S>(b: Stmt<S>, c: Coroutine<S>)
    requires WellLabelled(b) && Sound(b, c)
    ensures Code(c) == -1 <==> c == Ended
    ensures Code(c) < 0 <==> c == Ended || (c.Suspended? && Find(c.code, b, Stop).value.0.Fork?)
    ensures Code(c) == 0 <==> c == Fresh
  {
    if c.Suspended? {
      FindIff(c.code, b, Stop);
      LabelsComeFromLines(b, c.code);
      FoundIsLabelled(c.code, b, Stop);
    }
  }

  /** A yield, with how its statement left, or a fork. */
  datatype Keyword = Yielded(line: int, departure: Departure) | Forked(line: int)

  /** The keyword that the next step from m executes, if it is one. */
  function NextKeyword<S>(m: Config<S>): seq<Keyword> {
    if m.Run? && m.s.Yield? then [Yielded(m.s.line, m.s.statement(m.store, m.s.line).1)]
    else if m.Run? && m.s.Fork? then [Forked(m.s.line)]
    else []
  }

  /** The yields and forks that j steps from m execute, in order. */
  function Executed<S>(j: nat, m: Config<S>): seq<Keyword> {
    if j == 0 then [] else Executed(j - 1, m) + NextKeyword(AdvanceBy(j - 1, m))
  }

  /** The integer after an activation that executed these yields and forks. */
  function ValueLeftBy(executed: seq<Keyword>): int {
    if executed == [] then -1 else
      match executed[|executed| - 1]
      case Yielded(n, d) => if d == Breaks then -1 else n
      case Forked(n) => n
  }

  lemma {:induction false} ValueFollowsExecuted<S>(b: Stmt<S>, c: Coroutine<S>, s: S, j: nat)
    ensures var m, e := AdvanceBy(j, Resume(b, c, s)), Executed(j, Resume(b, c, s));
      match m
      case Run(_, _, value, forked, _) =>
        if forked then e != [] && e[|e| - 1].Forked? && value == e[|e| - 1].line else e == []
      case Exit(c', _) =>
        Code(c') == ValueLeftBy(e) && (e != [] && e[|e| - 1].Forked? ==> c'.Stale?)
  {
    if j > 0 { ValueFollowsExecuted(b, c, s, j - 1); }
  }

  /** The last yield or fork of an activation decides the integer it leaves: none, -1; a yield, its
      line; a yield break, -1; a fork that the parent left the body after, its line. So leaving the
      body without a yield completes the coroutine exactly if the activation has not forked. */
  lemma LastKeywordDecides<S>(b: Stmt<S>, c: Coroutine<S>, s: S, v': int, s': S) returns (n: nat)
    requires WellLabelled(b) && Sound(b, c) && MacroActivation(b, Code(c), s, v', s')
    ensures AdvanceBy(n, Resume(b, c, s)).Exit?
    ensures var e := Executed(n, Resume(b, c, s));
      v' == ValueLeftBy(e) && (e == [] || e[|e| - 1].Forked? ==> (v' == -1 <==> e == []))
  {
    var c';
    n, c' := MacrosOnlySimulate(b, c, s, v', s');
    ValueFollowsExecuted(b, c, s, n);
    ActivationsStaySound(b, c, s, n);
  }

  /** What coroutine.hpp documents holds of every body without a fork: whenever an activation leaves
      it without a yield, the coroutine is complete. */
  lemma ForkFreeCompletes<S>(b: Stmt<S>, c: Coroutine<S>, s: S, v': int, s': S) returns (n: nat)
    requires WellLabelled(b) && ForkFree(b) && Sound(b, c) && MacroActivation(b, Code(c), s, v', s')
    ensures AdvanceBy(n, Resume(b, c, s)).Exit?
    ensures var e := Executed(n, Resume(b, c, s));
      v' == -1 || (e != [] && e[|e| - 1].Yielded? && e[|e| - 1].departure != Breaks && v' == e[|e| - 1].line)
  {
    var c';
    n, c' := MacrosOnlySimulate(b, c, s, v', s');
    ValueFollowsExecuted(b, c, s, n);
    ActivationsStaySound(b, c, s, n);
    if c'.Stale? { ForkFreeLabels(b, -c'.line); }
  }

  /** A body that only forks leaves the parent incomplete, though it has run to its end. */
  lemma ForkingParentIsNotComplete<S>(f: (S, int) -> S, s: S)
    ensures MacroActivation(Fork(2, f), 0, s, 2, f(s, -2))
  {
    var b := Fork(2, f);
    var m0 := Resume(b, Fresh, s);
    assert AdvanceBy(1, m0) == Advance(AdvanceBy(0, m0)) == Run(Skip, Stop, 2, true, f(s, -2));
    assert AdvanceBy(2, m0) == Exit(Stale(2), f(s, -2));
    ActivationIsSimulated(b, Fresh, s, Stale(2), f(s, -2));
  }

  // ----- fork -----

  /** When any activation comes to a fork, the macros run the forked statement with the integer at
      minus the fork's line, and the parent then goes on after the fork with the line itself. */
  lemma ForkSplits<S>(b: Stmt<S>, c: Coroutine<S>, s: S, n: nat) returns (i: nat, j: nat)
    requires WellLabelled(b) && Sound(b, c)
    requires var m := AdvanceBy(n, Resume(b, c, s)); m.Run? && m.s.Fork?
    ensures i < j
    ensures var m, at := AdvanceBy(n, Resume(b, c, s)), Steps(Reenter(b), i, Start(b, Code(c), s));
      at.Running? && at.s == Expression(m.s.f) && at.value == -m.s.line < -1 && at.store == m.store
    ensures var m := AdvanceBy(n, Resume(b, c, s));
      Steps(Reenter(b), j, Start(b, Code(c), s)) == Embed(Run(Skip, m.k, m.s.line, true, m.s.f(m.store, -m.s.line)))
  {
    var m, m0 := AdvanceBy(n, Resume(b, c, s)), Start(b, Code(c), s);
    ActivationsStaySound(b, c, s, 0);
    ActivationsStaySound(b, c, s, n);
    var i0 := ReenterResumes(b, c, s);
    var i1 := RunIsSimulated(b, Resume(b, c, s), n);
    StepsAdd(Reenter(b), i0, i1, m0);
    i, j := ForkRuns(b, Embed(m), m.s.line, m.s.f);
    StepsAdd(Reenter(b), i0 + i1, i, m0);
    StepsAdd(Reenter(b), i0 + i1, j, m0);
    i, j := i0 + i1 + i, i0 + i1 + j;
  }

  /** A copy that the forked statement took, entered later on any store, goes on with what follows
      the fork, just as the parent does. */
  lemma ForkedCopyGoesOn<S(!new)>(b: Stmt<S>, c: Coroutine<S>, s: S, n: nat, later: S, v': int, s': S)
    requires WellLabelled(b) && Sound(b, c)
    requires var m := AdvanceBy(n, Resume(b, c, s)); m.Run? && m.s.Fork?
    ensures var m := AdvanceBy(n, Resume(b, c, s));
      && Sound(b, Suspended(-m.s.line, m.k))
      && (MacroActivation(b, -m.s.line, later, v', s')
          <==> exists c' :: Activation(b, Suspended(-m.s.line, m.k), later, c', s') && Code(c') == v')
  {
    var m := AdvanceBy(n, Resume(b, c, s));
    ActivationsStaySound(b, c, s, n);
    var child := Suspended(-m.s.line, m.k);
    assert -m.s.line in CaseLabels(m.s);
    FindIff(-m.s.line, b, Stop);
    assert Find(-m.s.line, b, Stop) == Find(-m.s.line, m.s, m.k);
    ResumingIsContinuing(b, child, later, v', s');
  }
}
