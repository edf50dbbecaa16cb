/** Control flow of the C++ statements in CoroutineSyntax: a small-step machine whose control
    stack says what is left to do after the current statement. A switch jumps to the first
    matching case anywhere inside its body, a goto to its label anywhere in the program; both
    enter enclosing loops and conditionals in the middle. */
module MacroMachine {
  import opened Common
  import opened CoroutineSyntax

  datatype Stack<!S> =
    | Bottom
    | Then(s: CStmt<S>, rest: Stack<S>)
    | InFor(c: Test<S>, step: CStmt<S>, body: CStmt<S>, rest: Stack<S>)
    | InSwitch(rest: Stack<S>)

  /** Running: value is the coroutine's integer, modified the flag of the coroutine_ref.
      Left: the reenter statement is over and the coroutine_ref has been destroyed.
      IllFormed: a break outside every loop and switch, or a goto to a label that is not there. */
  datatype Machine<!S> =
    | Running(s: CStmt<S>, k: Stack<S>, value: int, modified: bool, store: S)
    | Left(value: int, store: S)
    | IllFormed

  function Holds<S>(c: Test<S>, value: int, store: S): bool {
    match c
    case Always => true
    case ValueIs(n) => value == n
    case ValueSet => value != 0
    case User(p) => p(store, value)
  }

  function Scrutinised(e: Scrutinee, value: int): int {
    match e
    case Value => value
    case ZeroIfSet => if value != 0 then 0 else 1
  }

  /** Where "case v" is in s, and what follows it there. Cases inside a nested switch belong to
      that switch. */
  function FindCase<S>(v: int, s: CStmt<S>, k: Stack<S>): Option<(CStmt<S>, Stack<S>)> {
    match s
    case Case(n, t) => if n == v then Some((t, k)) else FindCase(v, t, k)
    case Labelled(_, t) => FindCase(v, t, k)
    case Block(a, b) =>
      var inA := FindCase(v, a, Then(b, k));
      if inA.Some? then inA else FindCase(v, b, k)
    case IfElse(_, a, b) =>
      var inA := FindCase(v, a, k);
      if inA.Some? then inA else FindCase(v, b, k)
    case For(c, step, body) => FindCase(v, body, InFor(c, step, body, k))
    case _ => None
  }

  /** Where label l is in s, and what follows it there. */
  function FindLabel<S>(l: Label, s: CStmt<S>, k: Stack<S>): Option<(CStmt<S>, Stack<S>)> {
    match s
    case Case(_, t) => FindLabel(l, t, k)
    case Labelled(l', t) => if l' == l then Some((t, k)) else FindLabel(l, t, k)
    case Block(a, b) =>
      var inA := FindLabel(l, a, Then(b, k));
      if inA.Some? then inA else FindLabel(l, b, k)
    case IfElse(_, a, b) =>
      var inA := FindLabel(l, a, k);
      if inA.Some? then inA else FindLabel(l, b, k)
    case For(c, step, body) => FindLabel(l, body, InFor(c, step, body, k))
    case Switch(_, body) => FindLabel(l, body, InSwitch(k))
    case _ => None
  }

  /** ~coroutine_ref: a coroutine that was not assigned to becomes complete. */
  function Destroyed<S>(value: int, modified: bool, store: S): Machine<S> {
    Left(if modified then value else -1, store)
  }

  function JumpTo<S>(m: Machine<S>, target: Option<(CStmt<S>, Stack<S>)>): Machine<S>
    requires m.Running?
  {
    match target
    case Some((s, k)) => m.(s := s, k := k)
    case None => IllFormed
  }

  /** One step of program p. */
  function Step<S>(p: CStmt<S>, m: Machine<S>): Machine<S> {
    match m
    case Left(_, _) => m
    case IllFormed => m
    case Running(s, k, value, modified, store) =>
      match s
      case Empty => (
        match k
        case Bottom => Destroyed(value, modified, store)
        case Then(next, rest) => m.(s := next, k := rest)
        case InFor(c, step, body, rest) => m.(s := Block(step, For(c, step, body)), k := rest)
        case InSwitch(rest) => m.(k := rest))
      case Expression(f) => m.(s := Empty, store := f(store, value))
      case Statement(f) =>
        var (store', d) := f(store, value);
        m.(s := Departing(d), store := store')
      case AssignValue(v) => m.(s := Empty, value := v, modified := true)
      case Block(a, b) => m.(s := a, k := Then(b, k))
      case IfElse(c, a, b) => m.(s := if Holds(c, value, store) then a else b)
      case For(c, step, body) =>
        if Holds(c, value, store) then m.(s := body, k := InFor(c, step, body, k)) else m.(s := Empty)
      case Switch(e, body) =>
        var target := FindCase(Scrutinised(e, value), body, InSwitch(k));
        if target.Some? then JumpTo(m, target) else m.(s := Empty)
      case Case(_, t) => m.(s := t)
      case Labelled(_, t) => m.(s := t)
      case Goto(l) => JumpTo(m, FindLabel(l, p, Bottom))
      case Break => (
        match k
        case Bottom => IllFormed
        case Then(_, rest) => m.(k := rest)
        case InFor(_, _, _, rest) => m.(s := Empty, k := rest)
        case InSwitch(rest) => m.(s := Empty, k := rest))
      case ReturnStmt => Destroyed(value, modified, store)
  }

  /** j steps of program p. */
  function Steps<S>(p: CStmt<S>, j: nat, m: Machine<S>): Machine<S>
    decreases j
  {
    if j == 0 then m else Step(p, Steps(p, j - 1, m))
  }

  /** Executing "reenter (c) b" for a coroutine whose integer is value: a fresh coroutine_ref. */
  function Start<S>(b: Stmt<S>, value: int, store: S): Machine<S> {
    Running(Reenter(b), Bottom, value, false, store)
  }

  /** One activation of the macros over body b takes (value, store) to (value', store'). */
  ghost predicate MacroActivation<S>(b: Stmt<S>, value: int, store: S, value': int, store': S) {
    exists j: nat :: Steps(Reenter(b), j, Start(b, value, store)) == Left(value', store')
  }

  lemma {:induction false} StepsAdd<S>(p: CStmt<S>, i: nat, j: nat, m: Machine<S>)
    ensures Steps(p, i + j, m) == Steps(p, j, Steps(p, i, m))
  {
    if j > 0 { StepsAdd(p, i, j - 1, m); }
  }

  lemma {:induction false} LeftIsFinal<S>(p: CStmt<S>, i: nat, j: nat, m: Machine<S>)
    requires Steps(p, i, m).Left? && i <= j
    ensures Steps(p, j, m) == Steps(p, i, m)
  {
    if i < j { LeftIsFinal(p, i, j - 1, m); }
  }

  lemma {:induction false} IllFormedIsFinal<S>(p: CStmt<S>, i: nat, j: nat, m: Machine<S>)
    requires Steps(p, i, m) == IllFormed && i <= j
    ensures Steps(p, j, m) == IllFormed
  {
    if i < j { IllFormedIsFinal(p, i, j - 1, m); }
  }

  lemma ActivationIsDeterministic<S>(b: Stmt<S>, v: int, s: S, v1: int, s1: S, v2: int, s2: S)
    requires MacroActivation(b, v, s, v1, s1) && MacroActivation(b, v, s, v2, s2)
    ensures v1 == v2 && s1 == s2
  {
    var p, m := Reenter(b), Start(b, v, s);
    var i: nat :| Steps(p, i, m) == Left(v1, s1);
    var j: nat :| Steps(p, j, m) == Left(v2, s2);
    if i <= j { LeftIsFinal(p, i, j, m); } else { LeftIsFinal(p, j, i, m); }
  }
}
