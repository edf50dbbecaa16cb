/** Connecting to a list of endpoints, one attempt each. */
module ConnectRules {
  import opened Common
  import opened Network

  /** How waiting for a connect ends. A poll that times out returns zero, which is not an error. */
  datatype Wait = PollFails(e: Failure) | PollTimedOut | Ready

  /** What connecting to one endpoint will meet: the clock, open, connect, the poll if connect is
      under way, getsockopt, and the connection's own error. */
  datatype Attempt = Attempt(expired: bool, open: ErrorCode, connect: ErrorCode,
                             wait: Wait, getsockopt: Option<Failure>, soError: ErrorCode)
  {
    /** Whether connect is called. */
    predicate Calls() { !expired && open == Success }

    /** Whether connect has to be waited for. */
    predicate UnderWay() { Calls() && (connect == InProgress || connect == WouldBlock) }

    /** There is a connection: made at once, or waited for and then found without error. */
    predicate Established() {
      Calls() && (connect == Success || (UnderWay() && wait.Ready? && getsockopt.None? && soError == Success))
    }

    /** There is none yet, and no error yet either: still under way when the poll timed out. */
    predicate StillUnderWay() {
      UnderWay() && wait.PollTimedOut? && getsockopt.None? && soError == Success
    }

    /** The whole loop gives up: out of time, or the outcome cannot be read. */
    predicate Aborts() { expired || (UnderWay() && !wait.PollFails? && getsockopt.Some?) }

    /** The error code that the attempt leaves. */
    function Error(): ErrorCode {
      if expired then TimedOut
      else if open != Success then open
      else if !UnderWay() then connect
      else if wait.PollFails? then wait.e
      else if getsockopt.Some? then getsockopt.value
      else soError
    }

    /** Nothing is tried after the attempt. */
    predicate Ends() { Error() == Success || Aborts() }
  }

  /** An attempt leaves no error exactly if it is established or still under way. */
  lemma NoErrorIff(a: Attempt)
    ensures a.Error() == Success <==> a.Established() || a.StillUnderWay()
    ensures !(a.Established() && a.StillUnderWay())
    ensures a.Aborts() ==> a.Error() != Success
  {
  }

  /** What an attempt comes to, from its fields: past the expiry time, timed_out; with a failed open,
      its error; with a connect that is neither in_progress nor would_block, connect's; with a failed
      poll, the poll's; with a failed getsockopt, that; and otherwise the connection's own. Nothing is
      tried after it if the time is past, there is no error, or getsockopt failed. */
  lemma AttemptByFields(a: Attempt)
    ensures var called, waits := !a.expired && a.open == Success, a.connect == InProgress || a.connect == WouldBlock;
      && (a.expired ==> a.Error() == TimedOut && a.Ends())
      && (!a.expired && a.open != Success ==> a.Error() == a.open && !a.Ends())
      && (called && !waits ==> a.Error() == a.connect && (a.Ends() <==> a.connect == Success))
      && (called && waits && a.wait.PollFails? ==> a.Error() == a.wait.e && !a.Ends())
      && (called && waits && !a.wait.PollFails? && a.getsockopt.Some? ==> a.Error() == a.getsockopt.value && a.Ends())
      && (called && waits && !a.wait.PollFails? && a.getsockopt.None? ==>
            a.Error() == a.soError && (a.Ends() <==> a.soError == Success))
      && (a.Aborts() <==> a.expired || (called && waits && !a.wait.PollFails? && a.getsockopt.Some?))
  {
  }

  /** How many of the attempts are made. */
  function Made(attempts: seq<Attempt>): (n: nat)
    ensures n <= |attempts| && (n == 0 <==> attempts == [])
  {
    if attempts == [] then 0
    else if attempts[0].Ends() then 1
    else 1 + Made(attempts[1..])
  }

  /** The error code at the end. */
  function FinalCode(attempts: seq<Attempt>): ErrorCode {
    if attempts == [] then NotFound else attempts[Made(attempts) - 1].Error()
  }

  /** Only the last attempt made ends the loop, unless none does. */
  lemma {:induction false} MadeUpToTheEnd(attempts: seq<Attempt>)
    ensures forall i :: 0 <= i < Made(attempts) - 1 ==> !attempts[i].Ends()
    ensures Made(attempts) < |attempts| ==> attempts[Made(attempts) - 1].Ends()
  {
    if attempts != [] && !attempts[0].Ends() {
      MadeUpToTheEnd(attempts[1..]);
      forall i | 0 <= i < Made(attempts) - 1 ensures !attempts[i].Ends() {
        if i > 0 { assert attempts[i] == attempts[1..][i - 1]; }
      }
    }
  }

  /** The code at the end is clear exactly if the last attempt made is established, if and only if
      that attempt is not one that was still under way when its poll timed out. */
  lemma ClearMeansEstablishedIff(attempts: seq<Attempt>)
    ensures var n := Made(attempts);
      (FinalCode(attempts) == Success <==> n > 0 && attempts[n - 1].Established())
      <==> !(n > 0 && attempts[n - 1].StillUnderWay())
  {
    if attempts != [] { NoErrorIff(attempts[Made(attempts) - 1]); }
  }

  /** The attempts before the last one made neither connect nor abort; the last one ends the loop if
      attempts are left. */
  lemma ConnectOutcome(attempts: seq<Attempt>)
    ensures var n := Made(attempts);
      && (forall i :: 0 <= i < n - 1 ==>
            !attempts[i].Established() && !attempts[i].StillUnderWay() && !attempts[i].Aborts())
      && (n < |attempts| ==> attempts[n - 1].Ends())
      && ((FinalCode(attempts) == Success <==> n > 0 && attempts[n - 1].Established())
          <==> !(n > 0 && attempts[n - 1].StillUnderWay()))
  {
    MadeUpToTheEnd(attempts);
    ClearMeansEstablishedIff(attempts);
    forall i | 0 <= i < Made(attempts) - 1
      ensures !attempts[i].Established() && !attempts[i].StillUnderWay() && !attempts[i].Aborts()
    {
      NoErrorIff(attempts[i]);
    }
  }

  /** If no poll times out, the code at the end is clear exactly if some attempt is established and
      none before it aborts. */
  lemma ClearWithoutTimeouts(attempts: seq<Attempt>)
    requires forall i :: 0 <= i < |attempts| ==> !attempts[i].wait.PollTimedOut?
    ensures FinalCode(attempts) == Success <==>
      exists i :: 0 <= i < |attempts| && attempts[i].Established() && forall j :: 0 <= j < i ==> !attempts[j].Aborts()
  {
    var n := Made(attempts);
    MadeUpToTheEnd(attempts);
    forall a | a in attempts ensures a.Error() == Success <==> a.Established() { NoErrorIff(a); }
    if FinalCode(attempts) == Success {
      assert attempts[n - 1].Established();
    }
    if i :| 0 <= i < |attempts| && attempts[i].Established() && forall j :: 0 <= j < i ==> !attempts[j].Aborts() {
      assert attempts[i].Ends() && i >= n - 1;
      if i > n - 1 { assert attempts[n - 1].Ends(); }
    }
  }

  /** One endpoint, under way when the poll times out. */
  const SLOW := Attempt(false, Success, InProgress, PollTimedOut, None, Success)

  /** With it the code at the end is clear, and there is no connection. */
  lemma ClearWithoutConnection()
    ensures FinalCode([SLOW]) == Success && Made([SLOW]) == 1 && !SLOW.Established()
  {
    assert SLOW.Ends();
  }

  /** The endpoints among the first n on which connect is called. */
  function Called<E>(endpoints: seq<E>, attempts: seq<Attempt>, n: nat): seq<E>
    requires n <= |endpoints| == |attempts|
  {
    if n == 0 then [] else
      Called(endpoints, attempts, n - 1) + if attempts[n - 1].Calls() then [endpoints[n - 1]] else []
  }

  /** connect is called on the endpoints whose clock had not run out and whose open succeeded, and on
      no others, in order and once each: at holds their places. */
  lemma {:induction false} CalledInOrder<E>(endpoints: seq<E>, attempts: seq<Attempt>, n: nat) returns (at: seq<nat>)
    requires n <= |endpoints| == |attempts|
    ensures forall k :: 0 <= k < |at| ==> at[k] < n && !attempts[at[k]].expired && attempts[at[k]].open == Success
    ensures forall k, l :: 0 <= k < l < |at| ==> at[k] < at[l]
    ensures forall i :: 0 <= i < n && !attempts[i].expired && attempts[i].open == Success ==> i in at
    ensures |Called(endpoints, attempts, n)| == |at|
    ensures forall k :: 0 <= k < |at| ==> Called(endpoints, attempts, n)[k] == endpoints[at[k]]
  {
    at := [];
    if n > 0 {
      at := CalledInOrder(endpoints, attempts, n - 1);
      if attempts[n - 1].Calls() { at := at + [n - 1]; }
    }
  }
}
