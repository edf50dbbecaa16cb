/** The bodies a user writes inside reenter, and the statements the macros turn them into.
    S is the type of everything a body can read and write other than the coroutine's integer. */
module CoroutineSyntax {

  /** How the statement under a yield is left: yield statement; yield break; yield return e; */
  datatype Departure = Falls | Breaks | Returns

  /** A coroutine body. Statements and tests see the store and the coroutine's current integer
      (which is what is_child, is_parent and a copy of the coroutine observe). The number of a
      Yield or a Fork is its line number. The statement under a yield changes the store and departs
      as it likes, depending on both. */
  datatype Stmt<!S> =
    | Skip
    | Act(f: (S, int) -> S)
    | Seq(first: Stmt<S>, second: Stmt<S>)
    | If(test: (S, int) -> bool, thn: Stmt<S>, els: Stmt<S>)
    | While(test: (S, int) -> bool, body: Stmt<S>)
    | Leave                       // break of the innermost user loop, or of the reenter body
    | Return
    | Yield(line: int, statement: (S, int) -> (S, Departure))
    | Fork(line: int, f: (S, int) -> S)

  /** Tests the macros write on the coroutine's integer, and the tests of the body. */
  datatype Test<!S> = Always | ValueIs(n: int) | ValueSet | User(p: (S, int) -> bool)

  /** The two expressions the macros switch on: the integer itself, or (value ? 0 : 1). */
  datatype Scrutinee = Value | ZeroIfSet

  datatype Label = Terminate | BailOut

  /** The C++ statements that the macros are made of. */
  datatype CStmt<!S> =
    | Empty
    | Expression(f: (S, int) -> S)
    | Statement(g: (S, int) -> (S, Departure))
    | AssignValue(v: int)
    | Block(first: CStmt<S>, second: CStmt<S>)
    | IfElse(c: Test<S>, thn: CStmt<S>, els: CStmt<S>)
    | For(c: Test<S>, step: CStmt<S>, body: CStmt<S>)
    | Switch(e: Scrutinee, body: CStmt<S>)
    | Case(k: int, s: CStmt<S>)
    | Labelled(l: Label, s: CStmt<S>)
    | Goto(l: Label)
    | Break
    | ReturnStmt

  /** How a statement leaves, as a statement. */
  function Departing<S>(d: Departure): CStmt<S> {
    match d
    case Falls => Empty
    case Breaks => Break
    case Returns => ReturnStmt
  }

  /** The innermost loop of ASIO_CORO_YIELD_IMPL, around the user's statement. */
  function YieldInner<S>(f: (S, int) -> (S, Departure)): CStmt<S> {
    For(Always, Empty, Case(1, IfElse(ValueSet, Goto(BailOut), Case(0, Statement(f)))))
  }

  /** The loop under the inner switch of ASIO_CORO_YIELD_IMPL. */
  function YieldOuter<S>(f: (S, int) -> (S, Departure)): CStmt<S> {
    For(Always, Empty, Case(-1, IfElse(ValueSet, Goto(Terminate), YieldInner(f))))
  }

  /** The body of the outermost loop of ASIO_CORO_YIELD_IMPL. */
  function YieldBody<S>(n: int, f: (S, int) -> (S, Departure)): CStmt<S> {
    IfElse(ValueIs(0), Block(Case(n, Empty), Break), Switch(ZeroIfSet, YieldOuter(f)))
  }

  /** The body of the loop of ASIO_CORO_FORK_IMPL. */
  function ForkBody<S>(n: int, f: (S, int) -> S): CStmt<S> {
    IfElse(ValueIs(n), Block(Case(-n, Empty), Break), Expression(f))
  }

  /** Macro expansion of a coroutine body. */
  function Expand<S>(s: Stmt<S>): CStmt<S> {
    match s
    case Skip => Empty
    case Act(f) => Expression(f)
    case Seq(a, b) => Block(Expand(a), Expand(b))
    case If(c, a, b) => IfElse(User(c), Expand(a), Expand(b))
    case While(c, b) => For(User(c), Empty, Expand(b))
    case Leave => Break
    case Return => ReturnStmt
    case Yield(n, f) => Block(AssignValue(n), For(Always, Empty, YieldBody(n, f)))
    case Fork(n, f) => Block(AssignValue(-n), For(Always, AssignValue(n), ForkBody(n, f)))
  }

  /** The block guarded by "case -1" in ASIO_CORO_REENTER. */
  function TerminateBlock<S>(): CStmt<S> {
    Block(Goto(Terminate),
          Block(Labelled(Terminate, AssignValue(-1)),
                Block(Goto(BailOut), Labelled(BailOut, Break))))
  }

  /** ASIO_CORO_REENTER applied to a body. */
  function Reenter<S>(b: Stmt<S>): CStmt<S> {
    Switch(Value, Case(-1, IfElse(ValueSet, TerminateBlock(), Case(0, Expand(b)))))
  }

  /** The line numbers of the yields and forks of a body. */
  function Lines<S>(s: Stmt<S>): set<int> {
    match s
    case Seq(a, b) => Lines(a) + Lines(b)
    case If(_, a, b) => Lines(a) + Lines(b)
    case While(_, b) => Lines(b)
    case Yield(n, _) => {n}
    case Fork(n, _) => {n}
    case _ => {}
  }

  /** The case labels that a body adds to the reenter switch. */
  function CaseLabels<S>(s: Stmt<S>): set<int> {
    match s
    case Seq(a, b) => CaseLabels(a) + CaseLabels(b)
    case If(_, a, b) => CaseLabels(a) + CaseLabels(b)
    case While(_, b) => CaseLabels(b)
    case Yield(n, _) => {n}
    case Fork(n, _) => {-n}
    case _ => {}
  }

  /** At most one pseudo-keyword a line, and no label that collides with "case 0" or "case -1". */
  predicate WellLabelled<S>(s: Stmt<S>) {
    match s
    case Seq(a, b) => WellLabelled(a) && WellLabelled(b) && Lines(a) !! Lines(b)
    case If(_, a, b) => WellLabelled(a) && WellLabelled(b) && Lines(a) !! Lines(b)
    case While(_, b) => WellLabelled(b)
    case Yield(n, _) => n >= 1
    case Fork(n, _) => n >= 2
    case _ => true
  }

  /** A body that does not fork. */
  predicate ForkFree<S>(s: Stmt<S>) {
    match s
    case Seq(a, b) => ForkFree(a) && ForkFree(b)
    case If(_, a, b) => ForkFree(a) && ForkFree(b)
    case While(_, b) => ForkFree(b)
    case Fork(_, _) => false
    case _ => true
  }

  lemma {:induction false} ForkFreeLabels<S>(s: Stmt<S>, v: int)
    requires WellLabelled(s) && ForkFree(s) && v in CaseLabels(s)
    ensures v >= 1
  {
    match s
    case Seq(a, b) => if v in CaseLabels(a) { ForkFreeLabels(a, v); } else { ForkFreeLabels(b, v); }
    case If(_, a, b) => if v in CaseLabels(a) { ForkFreeLabels(a, v); } else { ForkFreeLabels(b, v); }
    case While(_, b) => ForkFreeLabels(b, v);
    case _ =>
  }

  lemma {:induction false} LabelsComeFromLines<S>(s: Stmt<S>, v: int)
    requires WellLabelled(s) && v in CaseLabels(s)
    ensures v >= 1 || v <= -2
    ensures (if v < 0 then -v else v) in Lines(s)
  {
    match s
    case Seq(a, b) => if v in CaseLabels(a) { LabelsComeFromLines(a, v); } else { LabelsComeFromLines(b, v); }
    case If(_, a, b) => if v in CaseLabels(a) { LabelsComeFromLines(a, v); } else { LabelsComeFromLines(b, v); }
    case While(_, b) => LabelsComeFromLines(b, v);
    case _ =>
  }

  /** The line of a fork is not also the line of a yield. */
  lemma {:induction false} ForkLineIsNotACase<S>(s: Stmt<S>, n: int)
    requires WellLabelled(s) && n >= 2
    ensures -n in CaseLabels(s) ==> n !in CaseLabels(s)
  {
    match s
    case Seq(a, b) => ForkLineIsNotACase(a, n); ForkLineIsNotACase(b, n); ForkLineApart(a, b, n);
    case If(_, a, b) => ForkLineIsNotACase(a, n); ForkLineIsNotACase(b, n); ForkLineApart(a, b, n);
    case While(_, b) => ForkLineIsNotACase(b, n);
    case _ =>
  }

  lemma ForkLineApart<S>(a: Stmt<S>, b: Stmt<S>, n: int)
    requires WellLabelled(a) && WellLabelled(b) && Lines(a) !! Lines(b) && n >= 2
    ensures -n in CaseLabels(a) ==> n !in CaseLabels(b)
    ensures -n in CaseLabels(b) ==> n !in CaseLabels(a)
  {
    forall s, v | s in [a, b] && v in [n, -n] && v in CaseLabels(s) ensures n in Lines(s) {
      LabelsComeFromLines(s, v);
    }
    assert a in [a, b] && b in [a, b] && n in [n, -n] && -n in [n, -n];
  }
}
