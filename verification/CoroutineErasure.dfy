/** Yields only cut a body into activations. Driven to completion, the macros compute what the same
    body computes as an ordinary program in which a yield does not leave; and of a body that never
    completes they do, across its activations, what that program does. */
module CoroutineErasure {
  import opened CoroutineSyntax
  import opened MacroMachine
  import opened CoroutineSemantics
  import opened CoroutineSimulation
  import opened CoroutineTheorems

  /** OutOfFuel: more loop iterations than the fuel allows; store is what the program has come to by
      then. Broke: left by a break that is not yet in its loop. Over: return, or yield break. */
  datatype Outcome<!S> =
    | OutOfFuel(store: S)
    | Normal(value: int, store: S)
    | Broke(value: int, store: S)
    | Over(store: S)

  /** The body as an ordinary program. A yield runs its statement and goes on; a fork goes on as the
      parent. The integer is kept for the statements and tests that look at it. */
  function Exec<S>(fuel: nat, s: Stmt<S>, value: int, store: S): Outcome<S>
    decreases fuel, s
  {
    match s
    case Skip => Normal(value, store)
    case Act(f) => Normal(value, f(store, value))
    case Seq(a, b) => (
      match Exec(fuel, a, value, store)
      case Normal(v, st) => Exec(fuel, b, v, st)
      case other => other)
    case If(test, a, b) => Exec(fuel, if test(store, value) then a else b, value, store)
    case While(test, body) =>
      if fuel == 0 then OutOfFuel(store)
      else if !test(store, value) then Normal(value, store)
      else (
        match Exec(fuel - 1, body, value, store)
        case Normal(v, st) => Exec(fuel - 1, s, v, st)
        case Broke(v, st) => Normal(v, st)
        case other => other)
    case Leave => Broke(value, store)
    case Return => Over(store)
    case Yield(n, f) =>
      var (store', d) := f(store, n);
      if d == Breaks then Over(store') else Normal(n, store')
    case Fork(n, f) => Normal(n, f(store, -n))
  }

  /** Run as an ordinary program from value 0, b ends with store'. */
  ghost predicate Computes<S>(b: Stmt<S>, store: S, store': S) {
    exists fuel: nat :: var r := Exec(fuel, b, 0, store); !r.OutOfFuel? && r.store == store'
  }

  /** Each activation starts from the store that the one before it left. */
  ghost predicate Threaded<S>(acts: seq<(S, S)>, store: S, store': S) {
    if acts == [] then store == store'
    else acts[0].0 == store && Threaded(acts[1..], acts[0].1, store')
  }

  /** Re-entered each time it leaves, until it is complete, a new coroutine over b ends with store'. */
  ghost predicate Drives<S(!new)>(b: Stmt<S>, store: S, store': S) {
    exists acts :: Threaded(acts, store, store') && MacroRun(b, 0, acts, -1)
  }

  // ----- the semantics, re-entered at once whenever it leaves -----

  function Onward<S>(b: Stmt<S>, m: Config<S>): Config<S> {
    if m.Run? then Advance(m) else if m.c == Ended then m else Resume(b, m.c, m.store)
  }

  function OnwardBy<S>(b: Stmt<S>, j: nat, m: Config<S>): Config<S> {
    if j == 0 then m else Onward(b, OnwardBy(b, j - 1, m))
  }

  lemma {:induction false} OnwardAdd<S>(b: Stmt<S>, i: nat, j: nat, m: Config<S>)
    ensures OnwardBy(b, i + j, m) == OnwardBy(b, j, OnwardBy(b, i, m))
  {
    if j > 0 { OnwardAdd(b, i, j - 1, m); }
  }

  lemma {:induction false} EndedIsFinal<S>(b: Stmt<S>, i: nat, j: nat, m: Config<S>)
    requires OnwardBy(b, i, m).Exit? && OnwardBy(b, i, m).c == Ended && i <= j
    ensures OnwardBy(b, j, m) == OnwardBy(b, i, m)
  {
    if i < j { EndedIsFinal(b, i, j - 1, m); }
  }

  /** m is where the re-entered coroutine has come to when a statement followed by k has had outcome r. */
  ghost predicate Reaches<S>(r: Outcome<S>, j: nat, fuel: nat, k: Continuation<S>, forked: bool, m: Config<S>) {
    match r
    case OutOfFuel(st) => j >= fuel && m.Run? && m.store == st
    case Normal(v, st) => m == Run(Skip, k, v, forked, st)
    case Broke(v, st) => m == Run(Leave, k, v, forked, st)
    case Over(st) => m == Exit(Ended, st)
  }

  /** A statement runs, across however many activations, as Exec says. */
  lemma {:induction false} ExecIsOnward<S>(
      b: Stmt<S>, fuel: nat, s: Stmt<S>, k: Continuation<S>, value: int, forked: bool, store: S)
    returns (j: nat, forked': bool)
    ensures Reaches(Exec(fuel, s, value, store), j, fuel, k, forked',
                    OnwardBy(b, j, Run(s, k, value, forked, store)))
    decreases fuel, s, 1
  {
    var m0 := Run(s, k, value, forked, store);
    forked' := forked;
    match s
    case Skip => j := 0;
    case Act(f) => j := One(b, m0);
    case Seq(x, y) => j, forked' := SeqIsOnward(b, fuel, s, k, value, forked, store);
    case If(test, x, y) =>
      var i;
      i, forked' := ExecIsOnward(b, fuel, if test(store, value) then x else y, k, value, forked, store);
      j := OnceThen(b, m0, i);
    case While(test, body) => j, forked' := LoopIsOnward(b, fuel, s, k, value, forked, store);
    case Leave => j := 0;
    case Return =>
      j := One(b, m0);
      if forked { j := OneMore(b, j, m0); }
    case Yield(n, f) =>
      j := One(b, m0);
      if f(store, n).1 != Breaks { j := OneMore(b, j, m0); forked' := false; }
    case Fork(n, f) =>
      j := One(b, m0);
      forked' := true;
  }

  lemma {:induction false} SeqIsOnward<S>(
      b: Stmt<S>, fuel: nat, s: Stmt<S>, k: Continuation<S>, value: int, forked: bool, store: S)
    returns (j: nat, forked': bool)
    requires s.Seq?
    ensures Reaches(Exec(fuel, s, value, store), j, fuel, k, forked',
                    OnwardBy(b, j, Run(s, k, value, forked, store)))
    decreases fuel, s, 0
  {
    var m0 := Run(s, k, value, forked, store);
    var i;
    i, forked' := ExecIsOnward(b, fuel, s.first, Next(s.second, k), value, forked, store);
    j := OnceThen(b, m0, i);
    var r := Exec(fuel, s.first, value, store);
    if r.Normal? || r.Broke? {
      j := OneMore(b, j, m0);
      if r.Normal? {
        i, forked' := ExecIsOnward(b, fuel, s.second, k, r.value, forked', r.store);
        OnwardAdd(b, j, i, m0);
        j := j + i;
      }
    }
  }

  lemma {:induction false} LoopIsOnward<S>(
      b: Stmt<S>, fuel: nat, s: Stmt<S>, k: Continuation<S>, value: int, forked: bool, store: S)
    returns (j: nat, forked': bool)
    requires s.While?
    ensures Reaches(Exec(fuel, s, value, store), j, fuel, k, forked',
                    OnwardBy(b, j, Run(s, k, value, forked, store)))
    decreases fuel, s, 0
  {
    var m0 := Run(s, k, value, forked, store);
    j, forked' := 0, forked;
    if fuel > 0 {
      j := One(b, m0);
      if s.test(store, value) {
        var i;
        i, forked' := ExecIsOnward(b, fuel - 1, s.body, Loop(s.test, s.body, k), value, forked, store);
        j := OnceThen(b, m0, i);
        var r := Exec(fuel - 1, s.body, value, store);
        if r.Normal? || r.Broke? {
          j := OneMore(b, j, m0);
          if r.Normal? {
            i, forked' := ExecIsOnward(b, fuel - 1, s, k, r.value, forked', r.store);
            OnwardAdd(b, j, i, m0);
            j := j + i;
          }
        }
      }
    }
  }

  lemma OnceThen<S>(b: Stmt<S>, m: Config<S>, i: nat) returns (j: nat)
    ensures j == i + 1 && OnwardBy(b, j, m) == OnwardBy(b, i, Onward(b, m))
  {
    var one := One(b, m);
    OnwardAdd(b, 1, i, m);
    j := i + 1;
  }

  lemma One<S>(b: Stmt<S>, m: Config<S>) returns (j: nat)
    ensures j == 1 && OnwardBy(b, j, m) == Onward(b, m)
  {
    j := 1;
    assert OnwardBy(b, 0, m) == m;
  }

  lemma OneMore<S>(b: Stmt<S>, i: nat, m: Config<S>) returns (j: nat)
    ensures j == i + 1 && OnwardBy(b, j, m) == Onward(b, OnwardBy(b, i, m))
  {
    j := i + 1;
  }

  /** The whole body runs, across its activations, as Exec says. */
  lemma BodyIsOnward<S>(b: Stmt<S>, fuel: nat, store: S) returns (j: nat)
    ensures var m := OnwardBy(b, j, Resume(b, Fresh, store));
      match Exec(fuel, b, 0, store)
      case OutOfFuel(st) => j >= fuel && m.Run? && m.store == st
      case r => m == Exit(Ended, r.store)
  {
    var m0 := Resume(b, Fresh, store);
    var forked;
    j, forked := ExecIsOnward(b, fuel, b, Stop, 0, false, store);
    var r := Exec(fuel, b, 0, store);
    if r.Normal? || r.Broke? {
      j := OneMore(b, j, m0);
      if forked { j := OneMore(b, j, m0); }
    }
  }

  // ----- activations are stretches of Onward -----

  lemma {:induction false} ActivationIsOnward<S>(b: Stmt<S>, j: nat, m: Config<S>) returns (i: nat)
    ensures OnwardBy(b, i, m) == AdvanceBy(j, m)
  {
    if j == 0 {
      i := 0;
    } else {
      i := ActivationIsOnward(b, j - 1, m);
      if AdvanceBy(j - 1, m).Run? { i := OneMore(b, i, m); }
    }
  }

  lemma {:induction false} RunIsOnward<S(!new)>(
      b: Stmt<S>, c: Coroutine<S>, acts: seq<(S, S)>, c': Coroutine<S>, s: S, s': S)
    returns (j: nat)
    requires CoroutineRun(b, c, acts, c') && Threaded(acts, s, s')
    ensures OnwardBy(b, j, Exit(c, s)) == Exit(c', s')
    decreases |acts|
  {
    if acts == [] {
      j := 0;
    } else {
      var c1 :| Activation(b, c, s, c1, acts[0].1) && CoroutineRun(b, c1, acts[1..], c');
      j := OneActivationIsOnward(b, c, s, c1, acts[0].1);
      var i := RunIsOnward(b, c1, acts[1..], c', acts[0].1, s');
      OnwardAdd(b, j, i, Exit(c, s));
      j := j + i;
    }
  }

  lemma OneActivationIsOnward<S>(b: Stmt<S>, c: Coroutine<S>, s: S, c1: Coroutine<S>, s1: S) returns (j: nat)
    requires Activation(b, c, s, c1, s1)
    ensures OnwardBy(b, j, Exit(c, s)) == Exit(c1, s1)
  {
    if c == Ended {
      EndedStaysEnded(b, s, c1, s1);
      j := 0;
    } else {
      var n: nat :| AdvanceBy(n, Resume(b, c, s)) == Exit(c1, s1);
      var i := ActivationIsOnward(b, n, Resume(b, c, s));
      j := OnceThen(b, Exit(c, s), i);
    }
  }

  lemma EndedStaysEnded<S>(b: Stmt<S>, s: S, c1: Coroutine<S>, s1: S)
    requires Activation(b, Ended, s, c1, s1)
    ensures c1 == Ended && s1 == s
  {
    var n: nat :| AdvanceBy(n, Resume(b, Ended, s)) == Exit(c1, s1);
    ExitIsFinal(n, Exit(Ended, s));
  }

  lemma {:induction false} ExitIsFinal<S>(n: nat, m: Config<S>)
    requires m.Exit?
    ensures AdvanceBy(n, m) == m
  {
    if n > 0 { ExitIsFinal(n - 1, m); }
  }

  /** One more activation at the end of a run. */
  lemma {:induction false} AddActivation<S(!new)>(
      b: Stmt<S>, c: Coroutine<S>, acts: seq<(S, S)>, c1: Coroutine<S>, s: S, s1: S, c2: Coroutine<S>, s2: S)
    requires CoroutineRun(b, c, acts, c1) && Threaded(acts, s, s1) && Activation(b, c1, s1, c2, s2)
    ensures CoroutineRun(b, c, acts + [(s1, s2)], c2) && Threaded(acts + [(s1, s2)], s, s2)
    decreases |acts|
  {
    if acts != [] {
      var c' :| Activation(b, c, s, c', acts[0].1) && CoroutineRun(b, c', acts[1..], c1);
      AddActivation(b, c', acts[1..], c1, acts[0].1, s1, c2, s2);
      assert (acts + [(s1, s2)])[1..] == acts[1..] + [(s1, s2)];
    } else {
      var one := [(s1, s2)];
      assert acts + one == one && one[1..] == [];
      assert CoroutineRun(b, c2, one[1..], c2);
    }
  }

  /** Cutting an Onward run into activations: after those that have ended, with coroutine c1 and store
      s1, it is n steps into the next one, or between two. */
  lemma {:induction false} OnwardIsRun<S(!new)>(b: Stmt<S>, j: nat, c: Coroutine<S>, s: S)
    returns (acts: seq<(S, S)>, c1: Coroutine<S>, s1: S, n: nat)
    ensures CoroutineRun(b, c, acts, c1) && Threaded(acts, s, s1)
    ensures var m := OnwardBy(b, j, Exit(c, s)); m == if m.Run? then AdvanceBy(n, Resume(b, c1, s1)) else Exit(c1, s1)
  {
    if j == 0 {
      acts, c1, s1, n := [], c, s, 0;
    } else {
      acts, c1, s1, n := OnwardIsRun(b, j - 1, c, s);
      var m, m' := OnwardBy(b, j - 1, Exit(c, s)), OnwardBy(b, j, Exit(c, s));
      n := if m.Run? then n + 1 else 0;
      if (m.Run? || c1 != Ended) && m'.Exit? {
        assert AdvanceBy(n, Resume(b, c1, s1)) == m';
        AddActivation(b, c, acts, c1, s, s1, m'.c, m'.store);
        acts, c1, s1 := acts + [(s1, m'.store)], m'.c, m'.store;
      }
    }
  }

  /** Driven to completion, a coroutine ends as the body with its yields erased. */
  lemma DrivenIsComputed<S(!new)>(b: Stmt<S>, s: S, s': S)
    requires WellLabelled(b) && Drives(b, s, s')
    ensures Computes(b, s, s')
  {
    var acts :| Threaded(acts, s, s') && MacroRun(b, 0, acts, -1);
    var c' := MacroRunIsCoroutineRun(b, Fresh, acts, -1);
    RunsStaySound(b, Fresh, acts, c');
    QueriesTellTheState(b, c');
    var j := RunIsOnward(b, Fresh, acts, Ended, s, s');
    FreshExitIsResumed(b, j, s, s');
    OnwardEndIsComputed(b, j, s, s');
  }

  /** Fuel beyond the length of a run that ends is enough for Exec. */
  lemma OnwardEndIsComputed<S>(b: Stmt<S>, j: nat, s: S, s': S)
    requires OnwardBy(b, j, Resume(b, Fresh, s)) == Exit(Ended, s')
    ensures Computes(b, s, s')
  {
    var m0 := Resume(b, Fresh, s);
    var i := BodyIsOnward(b, j + 1, s);
    if Exec(j + 1, b, 0, s).OutOfFuel? || i >= j {
      EndedIsFinal(b, j, i, m0);
    } else {
      EndedIsFinal(b, i, j, m0);
    }
  }

  /** A body whose yields are erased ends as the coroutine driven to completion. */
  lemma ComputedIsDriven<S(!new)>(b: Stmt<S>, s: S, s': S)
    requires WellLabelled(b) && Computes(b, s, s')
    ensures Drives(b, s, s')
  {
    var fuel: nat :| var r := Exec(fuel, b, 0, s); !r.OutOfFuel? && r.store == s';
    var j := BodyIsOnward(b, fuel, s);
    j := OnceThen(b, Exit(Fresh, s), j);
    var acts, c1, s1, n := OnwardIsRun(b, j, Fresh, s);
    CoroutineRunIsMacroRun(b, Fresh, acts, Ended);
  }

  /** Re-entered each time it leaves, from value v and store s, the macros come to a state inside the
      body with store st. */
  ghost predicate Passes<S(!new)>(b: Stmt<S>, v: int, s: S, st: S) {
    exists acts, v1, s1, j: nat ::
      Threaded(acts, s, s1) && MacroRun(b, v, acts, v1) && InBodyWith(Steps(Reenter(b), j, Start(b, v1, s1)), st)
  }

  ghost predicate InBodyWith<S>(m: Machine<S>, st: S) {
    m.Running? && m.store == st
  }

  /** What the re-entered semantics comes to, the re-entered macros come to. */
  lemma OnwardIsPassed<S(!new)>(b: Stmt<S>, j: nat, c: Coroutine<S>, s: S)
    requires WellLabelled(b) && Sound(b, c) && OnwardBy(b, j, Exit(c, s)).Run?
    ensures Passes(b, Code(c), s, OnwardBy(b, j, Exit(c, s)).store)
  {
    var acts, c1, s1, n := OnwardIsRun(b, j, c, s);
    CoroutineRunIsMacroRun(b, c, acts, c1);
    RunsStaySound(b, c, acts, c1);
    ActivationsStaySound(b, c1, s1, 0);
    var i := ReenterResumes(b, c1, s1);
    var i' := RunIsSimulated(b, Resume(b, c1, s1), n);
    StepsAdd(Reenter(b), i, i', Start(b, Code(c1), s1));
    assert InBodyWith(Steps(Reenter(b), i + i', Start(b, Code(c1), s1)), OnwardBy(b, j, Exit(c, s)).store);
  }

  /** However far the erased body is run, the macros come to where it is: a body that never completes
      does, across its activations, all that it does as an ordinary program. */
  lemma ErasedRunIsPassed<S(!new)>(b: Stmt<S>, fuel: nat, s: S)
    requires WellLabelled(b) && Exec(fuel, b, 0, s).OutOfFuel?
    ensures Passes(b, 0, s, Exec(fuel, b, 0, s).store)
  {
    var j := BodyIsOnward(b, fuel, s);
    j := OnceThen(b, Exit(Fresh, s), j);
    OnwardIsPassed(b, j, Fresh, s);
  }

  /** However many activations the macros have made of a body that never completes, the erased body,
      run far enough, is at a point that they have yet to come to: they do nothing besides. */
  lemma MacrosAreOvertaken<S(!new)>(b: Stmt<S>, acts: seq<(S, S)>, v1: int, s: S, s1: S) returns (enough: nat)
    requires WellLabelled(b) && Threaded(acts, s, s1) && MacroRun(b, 0, acts, v1)
    requires forall n: nat :: Exec(n, b, 0, s).OutOfFuel?
    ensures forall n :: n >= enough ==> Passes(b, v1, s1, Exec(n, b, 0, s).store)
  {
    var c1 := MacroRunIsCoroutineRun(b, Fresh, acts, v1);
    RunsStaySound(b, Fresh, acts, c1);
    enough := RunIsOnward(b, Fresh, acts, c1, s, s1);
    forall n | n >= enough ensures Passes(b, v1, s1, Exec(n, b, 0, s).store) {
      assert Exec(n, b, 0, s).OutOfFuel?;
      var i := BodyIsOnward(b, n, s);
      i := OnceThen(b, Exit(Fresh, s), i);
      OnwardAdd(b, enough, i - enough, Exit(Fresh, s));
      OnwardIsPassed(b, i - enough, c1, s1);
    }
  }

  /** Erasing the yields: for every body and store, re-entering a new coroutine until it is complete
      ends, and ends with store', exactly when the body run as an ordinary program does. */
  lemma ErasingYields<S(!new)>(b: Stmt<S>, s: S, s': S)
    requires WellLabelled(b)
    ensures Drives(b, s, s') <==> Computes(b, s, s')
  {
    if Drives(b, s, s') { DrivenIsComputed(b, s, s'); }
    if Computes(b, s, s') { ComputedIsDriven(b, s, s'); }
  }

  lemma FreshExitIsResumed<S>(b: Stmt<S>, j: nat, s: S, s': S)
    requires OnwardBy(b, j, Exit(Fresh, s)) == Exit(Ended, s')
    ensures OnwardBy(b, j, Resume(b, Fresh, s)) == Exit(Ended, s')
  {
    OnwardAdd(b, 1, j, Exit(Fresh, s));
    var i := One(b, Exit(Fresh, s));
    EndedIsFinal(b, j, j + 1, Exit(Fresh, s));
  }
}
