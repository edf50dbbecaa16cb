/** The class coroutine, the coroutine_ref that the reenter macro switches on, and the execution of
    a reenter statement against them. */
module CoroutineObject {
  import opened CoroutineSyntax
  import opened MacroMachine
  import Semantics = CoroutineSemantics
  import Theorems = CoroutineTheorems

  class Coroutine {
    var value: int

    constructor ()
      ensures value == 0
    {
      value := 0;
    }

    predicate IsChild()
      reads this
    {
      value < 0
    }

    predicate IsParent()
      reads this
    {
      !IsChild()
    }

    predicate IsComplete()
      reads this
    {
      value == -1
    }
  }

  /** What the queries say of an object that keeps the integer of a coroutine over b: is_complete, that
      it has ended; is_parent, that it has not and is not suspended as the child of a fork. */
  lemma QueriesOfObject<S>(c: Coroutine, b: Stmt<S>, state: Semantics.Coroutine<S>)
    requires WellLabelled(b) && Semantics.Sound(b, state) && c.value == Semantics.Code(state)
    ensures c.IsComplete() <==> state == Semantics.Ended
    ensures c.IsParent() <==>
      state != Semantics.Ended
      && (state.Suspended? ==> !Semantics.Find(state.code, b, Semantics.Stop).value.0.Fork?)
    ensures c.IsChild() <==> !c.IsParent()
  {
    Theorems.QueriesTellTheState(b, state);
  }

  class CoroutineRef {
    const target: Coroutine
    var modified: bool

    constructor (c: Coroutine)
      ensures target == c && !modified
    {
      target, modified := c, false;
    }

    method Assign(v: int)
      modifies this`modified, target`value
      ensures modified && target.value == v
    {
      modified := true;
      target.value := v;
    }

    /** The destructor. */
    method Destroy()
      modifies target`value
      ensures target.value == if modified then old(target.value) else -1
    {
      if !modified { target.value := -1; }
    }
  }

  /** Executes reenter (c) b for at most budget steps; left says whether it came to its end. It does
      within the budget exactly if the machine does, and then with the machine's integer and store. */
  method Execute<S>(c: Coroutine, b: Stmt<S>, store: S, budget: nat) returns (left: bool, store': S)
    modifies c
    ensures left <==> Steps(Reenter(b), budget, Start(b, old(c.value), store)).Left?
    ensures left ==> Steps(Reenter(b), budget, Start(b, old(c.value), store)) == Left(c.value, store')
    ensures left ==> MacroActivation(b, old(c.value), store, c.value, store')
  {
    var p := Reenter(b);
    ghost var start := Start(b, c.value, store);
    var stmt, stack := p, Bottom;
    var ref := new CoroutineRef(c);
    var n := 0;
    left, store' := false, store;
    while n < budget && !left
      invariant n <= budget && ref.target == c && fresh(ref)
      invariant Steps(p, n, start) ==
                if left then Left(c.value, store') else Running(stmt, stack, c.value, ref.modified, store')
    {
      if stmt.ReturnStmt? || (stmt.Empty? && stack.Bottom?) {
        ref.Destroy();
        left := true;
      } else if stmt.AssignValue? {
        ref.Assign(stmt.v);
        stmt := Empty;
      } else {
        var next := Step(p, Running(stmt, stack, c.value, ref.modified, store'));
        if next.IllFormed? {
          assert Steps(p, n + 1, start) == IllFormed;
          IllFormedIsFinal(p, n + 1, budget, start);
          return;
        }
        stmt, stack, store' := next.s, next.k, next.store;
      }
      n := n + 1;
    }
    if left { LeftIsFinal(p, n, budget, start); }
  }
}
