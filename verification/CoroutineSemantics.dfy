/** What reenter, yield and fork mean, said without labels or jumps: a suspended coroutine holds
    the continuation of its last yield or fork, and resuming it runs that continuation. */
module CoroutineSemantics {
  import opened Common
  import opened CoroutineSyntax

  /** The rest of the body after the current statement. */
  datatype Continuation<!S> =
    | Stop
    | Next(s: Stmt<S>, rest: Continuation<S>)
    | Loop(test: (S, int) -> bool, body: Stmt<S>, rest: Continuation<S>)

  /** Suspended: at the yield or fork with case label code, to go on with rest.
      Stale: the parent of a fork that left the body without another yield. */
  datatype Coroutine<!S> =
    | Fresh
    | Suspended(code: int, rest: Continuation<S>)
    | Stale(line: int)
    | Ended

  /** The integer that the class coroutine keeps. */
  function Code<S>(c: Coroutine<S>): int {
    match c
    case Fresh => 0
    case Suspended(n, _) => n
    case Stale(n) => n
    case Ended => -1
  }

  datatype Config<!S> =
    | Run(s: Stmt<S>, k: Continuation<S>, value: int, forked: bool, store: S)
    | Exit(c: Coroutine<S>, store: S)

  /** Leaving the body other than by a yield. */
  function LeaveBody<S>(value: int, forked: bool, store: S): Config<S> {
    Exit(if forked then Stale(value) else Ended, store)
  }

  function Advance<S>(m: Config<S>): Config<S> {
    match m
    case Exit(_, _) => m
    case Run(s, k, value, forked, store) =>
      match s
      case Skip => (
        match k
        case Stop => LeaveBody(value, forked, store)
        case Next(next, rest) => m.(s := next, k := rest)
        case Loop(test, body, rest) => m.(s := While(test, body), k := rest))
      case Act(f) => m.(s := Skip, store := f(store, value))
      case Seq(a, b) => m.(s := a, k := Next(b, k))
      case If(test, a, b) => m.(s := if test(store, value) then a else b)
      case While(test, body) =>
        if test(store, value) then m.(s := body, k := Loop(test, body, k)) else m.(s := Skip)
      case Leave => (
        match k
        case Stop => LeaveBody(value, forked, store)
        case Next(_, rest) => m.(k := rest)
        case Loop(_, _, rest) => m.(s := Skip, k := rest))
      case Return => LeaveBody(value, forked, store)
      case Yield(n, f) =>
        var (store', d) := f(store, n);
        Exit(if d == Breaks then Ended else Suspended(n, k), store')
      case Fork(n, f) => Run(Skip, k, n, true, f(store, -n))
  }

  function AdvanceBy<S>(j: nat, m: Config<S>): Config<S>
    decreases j
  {
    if j == 0 then m else Advance(AdvanceBy(j - 1, m))
  }

  /** Resuming c: a fresh coroutine starts the body, a suspended one its continuation. */
  function Resume<S>(b: Stmt<S>, c: Coroutine<S>, store: S): Config<S> {
    match c
    case Fresh => Run(b, Stop, 0, false, store)
    case Suspended(n, k) => Run(Skip, k, n, false, store)
    case _ => Exit(Ended, store)
  }

  ghost predicate Activation<S>(b: Stmt<S>, c: Coroutine<S>, store: S, c': Coroutine<S>, store': S) {
    exists j: nat :: AdvanceBy(j, Resume(b, c, store)) == Exit(c', store')
  }

  lemma {:induction false} AdvanceAdd<S>(i: nat, j: nat, m: Config<S>)
    ensures AdvanceBy(i + j, m) == AdvanceBy(j, AdvanceBy(i, m))
  {
    if j > 0 { AdvanceAdd(i, j - 1, m); }
  }

  // ----- which configurations a body can reach -----

  /** The yield or fork with case label v that a search of s comes to first, and its continuation
      when s is followed by k. */
  function Find<S>(v: int, s: Stmt<S>, k: Continuation<S>): Option<(Stmt<S>, Continuation<S>)> {
    match s
    case Seq(a, b) =>
      var inA := Find(v, a, Next(b, k));
      if inA.Some? then inA else Find(v, b, k)
    case If(_, a, b) =>
      var inA := Find(v, a, k);
      if inA.Some? then inA else Find(v, b, k)
    case While(test, body) => Find(v, body, Loop(test, body, k))
    case Yield(n, _) => if v == n then Some((s, k)) else None
    case Fork(n, _) => if v == -n then Some((s, k)) else None
    case _ => None
  }

  /** s followed by k is a part of b: every yield and fork of s goes on, from there, as b says. */
  ghost predicate PartOf<S>(b: Stmt<S>, s: Stmt<S>, k: Continuation<S>) {
    && WellLabelled(s)
    && forall v :: v in CaseLabels(s) ==> Find(v, s, k) == Find(v, b, Stop)
  }

  ghost predicate Continues<S>(b: Stmt<S>, k: Continuation<S>) {
    match k
    case Stop => true
    case Next(s, rest) => PartOf(b, s, rest) && Continues(b, rest)
    case Loop(test, body, rest) => PartOf(b, While(test, body), rest) && Continues(b, rest)
  }

  /** The states that activations of b leave behind. */
  ghost predicate Sound<S>(b: Stmt<S>, c: Coroutine<S>) {
    match c
    case Fresh => true
    case Suspended(n, k) =>
      Find(n, b, Stop).Some? && Find(n, b, Stop).value.1 == k && Continues(b, k)
    case Stale(n) => -n in CaseLabels(b) && n >= 2
    case Ended => true
  }

  ghost predicate Reached<S>(b: Stmt<S>, m: Config<S>) {
    match m
    case Run(s, k, value, forked, _) =>
      PartOf(b, s, k) && Continues(b, k) && (forked ==> value >= 2 && -value in CaseLabels(b))
    case Exit(c, _) => Sound(b, c)
  }

  lemma {:induction false} FindIff<S>(v: int, s: Stmt<S>, k: Continuation<S>)
    ensures Find(v, s, k).Some? <==> v in CaseLabels(s)
  {
    match s
    case Seq(a, b) => FindIff(v, a, Next(b, k)); FindIff(v, b, k);
    case If(_, a, b) => FindIff(v, a, k); FindIff(v, b, k);
    case While(test, body) => FindIff(v, body, Loop(test, body, k));
    case _ =>
  }

  /** The node that Find comes to carries the label, and keeps the labelling rules. */
  lemma {:induction false} FoundIsLabelled<S>(v: int, s: Stmt<S>, k: Continuation<S>)
    requires WellLabelled(s) && Find(v, s, k).Some?
    ensures var node := Find(v, s, k).value.0;
      WellLabelled(node) && (if v > 0 then node.Yield? && node.line == v else node.Fork? && node.line == -v)
  {
    match s
    case Seq(a, b) =>
      if Find(v, a, Next(b, k)).Some? { FoundIsLabelled(v, a, Next(b, k)); } else { FoundIsLabelled(v, b, k); }
    case If(_, a, b) => if Find(v, a, k).Some? { FoundIsLabelled(v, a, k); } else { FoundIsLabelled(v, b, k); }
    case While(test, body) => FoundIsLabelled(v, body, Loop(test, body, k));
    case _ =>
  }

  /** The two halves of a statement are found independently of each other. */
  lemma HalvesArePartOf<S>(b: Stmt<S>, s: Stmt<S>, k: Continuation<S>)
    requires PartOf(b, s, k)
    ensures s.Seq? ==> PartOf(b, s.first, Next(s.second, k)) && PartOf(b, s.second, k)
    ensures s.If? ==> PartOf(b, s.thn, k) && PartOf(b, s.els, k)
    ensures s.While? ==> PartOf(b, s.body, Loop(s.test, s.body, k))
  {
    if s.Seq? || s.If? {
      var x, y := if s.Seq? then s.first else s.thn, if s.Seq? then s.second else s.els;
      var kx := if s.Seq? then Next(y, k) else k;
      forall v | v in CaseLabels(x) ensures Find(v, x, kx) == Find(v, s, k) { FindIff(v, x, kx); }
      forall v | v in CaseLabels(y) ensures Find(v, y, k) == Find(v, s, k) {
        LabelsComeFromLines(y, v);
        if v in CaseLabels(x) { LabelsComeFromLines(x, v); }
        FindIff(v, x, kx);
      }
    }
  }

  lemma ReachedAdvances<S>(b: Stmt<S>, m: Config<S>)
    requires Reached(b, m)
    ensures Reached(b, Advance(m))
  {
    if m.Run? {
      HalvesArePartOf(b, m.s, m.k);
      if m.s.Yield? || m.s.Fork? {
        var v := if m.s.Yield? then m.s.line else -m.s.line;
        assert v in CaseLabels(m.s);
        FindIff(v, b, Stop);
      }
    }
  }

  /** Every configuration of every activation is Reached, so every activation ends in a Sound state. */
  lemma {:induction false} ActivationsStaySound<S>(b: Stmt<S>, c: Coroutine<S>, store: S, j: nat)
    requires WellLabelled(b) && Sound(b, c)
    ensures Reached(b, AdvanceBy(j, Resume(b, c, store)))
  {
    if j > 0 {
      ActivationsStaySound(b, c, store, j - 1);
      ReachedAdvances(b, AdvanceBy(j - 1, Resume(b, c, store)));
    }
  }
}
