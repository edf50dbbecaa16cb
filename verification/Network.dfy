/** The operating system as the socket streambuf sees it: a script of what each round of a loop will
    meet. Every statement over scripts is a statement over everything the system may do. */
module Network {
  import opened Common

  datatype ErrorCode =
    | Success | NotFound | TimedOut | WouldBlock | TryAgain | InProgress | EndOfFile
    | Other(code: int)

  /** What a failed system call leaves. */
  type Failure = e: ErrorCode | e != Success witness TimedOut

  /** One round of a transfer loop. Expired: the clock is past the expiry time. Moved: the call moves
      up to this many bytes (not more than asked for). Errs: the call fails and, where the loop then
      polls, the poll fails as given or else does not: the loop does not tell a socket that is ready
      from a poll that times out, and goes round again. */
  datatype Round<+T> = Expired | Moved(amount: T) | Errs(e: Failure, poll: Option<Failure>)

  predicate Retryable(e: ErrorCode) {
    e == WouldBlock || e == TryAgain
  }

  /** How a loop ends. Waiting: the script is over and the call has not returned. */
  datatype End = Complete | Failed | Waiting

  datatype Transmission = Transmission(sent: nat, end: End, ec: ErrorCode, rest: seq<Round<nat>>)

  /** The send loop over n bytes, with ec the error code on entry. */
  function Transmit(rounds: seq<Round<nat>>, n: nat, ec: ErrorCode): (t: Transmission)
    ensures t.sent <= n && (t.end == Complete <==> t.sent == n)
    decreases |rounds|
  {
    if n == 0 then Transmission(0, Complete, ec, rounds)
    else if rounds == [] then Transmission(0, Waiting, ec, rounds)
    else
      var rest := rounds[1..];
      match rounds[0]
      case Expired => Transmission(0, Failed, TimedOut, rest)
      case Moved(k) =>
        if k == 0 then Transmission(0, Failed, Success, rest)
        else
          var t := Transmit(rest, n - Min(k, n), Success);
          t.(sent := Min(k, n) + t.sent)
      case Errs(e, poll) =>
        if !Retryable(e) then Transmission(0, Failed, e, rest)
        else if poll.Some? then Transmission(0, Failed, poll.value, rest)
        else Transmit(rest, n, Success)
  }

  /** Rounds that end a send loop, and the error code they leave. */
  predicate Fatal(r: Round<nat>) {
    match r
    case Expired => true
    case Moved(k) => k == 0
    case Errs(e, poll) => !Retryable(e) || poll.Some?
  }

  function FatalCode(r: Round<nat>): ErrorCode
    requires Fatal(r)
  {
    match r
    case Expired => TimedOut
    case Moved(_) => Success
    case Errs(e, poll) => if Retryable(e) then poll.value else e
  }

  /** The bytes that rounds can move. */
  function Capacity(rounds: seq<Round<nat>>): nat {
    if rounds == [] then 0 else Amount(rounds[0]) + Capacity(rounds[1..])
  }

  /** The bytes that rounds can move add up: the amounts of those that move some. */
  lemma {:induction false} CapacityAddsUp(a: seq<Round<nat>>, b: seq<Round<nat>>)
    ensures Capacity(a + b) == Capacity(a) + Capacity(b)
    ensures |a| == 1 ==> Capacity(a) == match a[0] case Moved(k) => k case _ => 0
  {
    if a == [] {
      assert a + b == b;
    } else {
      assert (a + b)[1..] == a[1..] + b;
      CapacityAddsUp(a[1..], b);
    }
  }

  /** The first m rounds are harmless and the loop wants more after each of them. */
  ghost predicate GoesOn(rounds: seq<Round<nat>>, m: nat, n: nat) {
    m <= |rounds| && Capacity(rounds[..m]) < n && forall i :: 0 <= i < m ==> !Fatal(rounds[i])
  }

  /** A send loop ends in one of three ways, told apart by the script: it fails at the first fatal
      round that comes before the bytes are out, it waits if the script runs out first, and otherwise
      it completes. What it has sent by then is what the harmless rounds before could move. */
  lemma TransmitOutcome(rounds: seq<Round<nat>>, n: nat, ec: ErrorCode) returns (m: nat)
    ensures EndsAt(rounds, n, Transmit(rounds, n, ec), m)
    ensures Transmit(rounds, n, ec).end == Complete ==> (n == 0 <==> m == 0)
  {
    TransmitIsSupply(rounds, n, ec);
    if Transmit(rounds, n, ec).end == Complete {
      m := CompletesAt(rounds, n, ec);
    } else {
      m := FirstFatal(rounds);
      NoneFatalBefore(rounds);
    }
  }

  /** The round at which a send loop that completes has sent its last byte. */
  lemma {:induction false} CompletesAt(rounds: seq<Round<nat>>, n: nat, ec: ErrorCode) returns (m: nat)
    requires Transmit(rounds, n, ec).end == Complete
    ensures EndsAt(rounds, n, Transmit(rounds, n, ec), m)
    ensures n == 0 <==> m == 0
    decreases |rounds|
  {
    m := 0;
    if n > 0 {
      var left := n - Min(Amount(rounds[0]), n);
      var m' := CompletesAt(rounds[1..], left, Success);
      m := m' + 1;
      CapacityOfPrefix(rounds, m);
      assert rounds[1..][m'..] == rounds[m..];
      if m' > 0 {
        GoesOnShifts(rounds, m' - 1, n);
        assert rounds[1..][m' - 1] == rounds[m - 1];
      } else {
        assert Capacity(rounds[..0]) == 0;
      }
    }
  }

  lemma {:induction false} NoneFatalBefore(rounds: seq<Round<nat>>)
    ensures forall i :: 0 <= i < FirstFatal(rounds) ==> !Fatal(rounds[i])
  {
    if rounds != [] && !Fatal(rounds[0]) {
      NoneFatalBefore(rounds[1..]);
      forall i | 0 <= i < FirstFatal(rounds) ensures !Fatal(rounds[i]) {
        if i > 0 { assert rounds[i] == rounds[1..][i - 1]; }
      }
    }
  }

  /** t is how a send loop over n bytes ends that goes through the first m rounds. */
  ghost predicate EndsAt(rounds: seq<Round<nat>>, n: nat, t: Transmission, m: nat) {
    && m <= |rounds|
    && match t.end
       case Failed => m < |rounds| && GoesOn(rounds, m, n) && Fatal(rounds[m]) && t.ec == FatalCode(rounds[m])
                      && t.sent == Capacity(rounds[..m]) && t.rest == rounds[m + 1..]
       case Waiting => m == |rounds| && GoesOn(rounds, m, n) && t.sent == Capacity(rounds[..m]) && t.rest == []
       case Complete => Capacity(rounds[..m]) >= n && t.rest == rounds[m..]
                        && (m > 0 ==> GoesOn(rounds, m - 1, n) && !Fatal(rounds[m - 1]) && t.ec == Success)
  }

  function Amount(r: Round<nat>): nat {
    if r.Moved? then r.amount else 0
  }

  lemma GoesOnShifts(rounds: seq<Round<nat>>, j: nat, n: nat)
    requires rounds != [] && !Fatal(rounds[0])
    requires GoesOn(rounds[1..], j, n - Min(Amount(rounds[0]), n))
    ensures GoesOn(rounds, j + 1, n)
    ensures Capacity(rounds[..j + 1]) == Amount(rounds[0]) + Capacity(rounds[1..][..j])
  {
    CapacityOfPrefix(rounds, j + 1);
    forall i | 0 <= i < j + 1 ensures !Fatal(rounds[i]) {
      if i > 0 { assert rounds[i] == rounds[1..][i - 1]; }
    }
  }

  lemma CapacityOfPrefix(rounds: seq<Round<nat>>, m: nat)
    requires 0 < m <= |rounds|
    ensures Capacity(rounds[..m]) == Amount(rounds[0]) + Capacity(rounds[1..][..m - 1])
  {
    assert rounds[..m][1..] == rounds[1..][..m - 1];
  }

  /** The first fatal round, or the length of the script. */
  function FirstFatal(rounds: seq<Round<nat>>): (f: nat)
    ensures f <= |rounds| && (f < |rounds| ==> Fatal(rounds[f]))
  {
    if rounds == [] || Fatal(rounds[0]) then 0 else 1 + FirstFatal(rounds[1..])
  }

  /** The bytes that a script can move before its first fatal round. */
  function Supply(rounds: seq<Round<nat>>): nat {
    Capacity(rounds[..FirstFatal(rounds)])
  }

  lemma SupplyOfTail(rounds: seq<Round<nat>>)
    ensures rounds == [] || Fatal(rounds[0]) ==> Supply(rounds) == 0
    ensures rounds != [] && !Fatal(rounds[0]) ==> Supply(rounds) == Amount(rounds[0]) + Supply(rounds[1..])
  {
    if rounds != [] && !Fatal(rounds[0]) { CapacityOfPrefix(rounds, FirstFatal(rounds)); }
  }

  lemma {:induction false} TransmitSends(rounds: seq<Round<nat>>, n: nat, ec: ErrorCode)
    ensures Transmit(rounds, n, ec).sent == Min(Supply(rounds), n)
    decreases |rounds|
  {
    SupplyOfTail(rounds);
    if n > 0 && rounds != [] && !Fatal(rounds[0]) {
      TransmitSends(rounds[1..], n - Min(Amount(rounds[0]), n), Success);
    }
  }

  lemma {:induction false} TransmitStops(rounds: seq<Round<nat>>, n: nat, ec: ErrorCode)
    requires Supply(rounds) < n
    ensures var t, f := Transmit(rounds, n, ec), FirstFatal(rounds);
      if f < |rounds| then t.end == Failed && t.ec == FatalCode(rounds[f]) && t.rest == rounds[f + 1..]
      else t.end == Waiting && t.rest == []
    decreases |rounds|
  {
    SupplyOfTail(rounds);
    if rounds != [] && !Fatal(rounds[0]) {
      TransmitStops(rounds[1..], n - Amount(rounds[0]), Success);
      var f := FirstFatal(rounds);
      if f < |rounds| { assert rounds[1..][f - 1] == rounds[f] && rounds[1..][f..] == rounds[f + 1..]; }
    }
  }

  /** How a send loop ends, from its script alone: it sends what the script supplies, up to n; it
      completes exactly if the supply is enough, and otherwise fails at the first fatal round, with
      that round's code, or waits if there is none. */
  lemma TransmitIsSupply(rounds: seq<Round<nat>>, n: nat, ec: ErrorCode)
    ensures var t, f := Transmit(rounds, n, ec), FirstFatal(rounds);
      && t.sent == Min(Supply(rounds), n)
      && t.end == (if Supply(rounds) >= n then Complete else if f < |rounds| then Failed else Waiting)
      && (t.end == Failed ==> t.ec == FatalCode(rounds[f]) && t.rest == rounds[f + 1..])
      && (t.end == Waiting ==> t.rest == [])
  {
    TransmitSends(rounds, n, ec);
    if Supply(rounds) < n { TransmitStops(rounds, n, ec); }
  }

  /** The rounds that decide a send loop, by what they hold. It fails at a round past the expiry time
      (timed_out), at one that moves nothing (no error), at an error that is not would_block or
      try_again (that error) and at a failed poll (its error); the rounds before the first such one move
      something or are waited for, and what they move is the supply. */
  lemma {:induction false} FirstFatalByKind(rounds: seq<Round<nat>>)
    ensures var f := FirstFatal(rounds);
      && (forall i :: 0 <= i < f ==>
            match rounds[i]
            case Expired => false
            case Moved(k) => k > 0 && Amount(rounds[i]) == k
            case Errs(e, poll) => (e == WouldBlock || e == TryAgain) && poll == None && Amount(rounds[i]) == 0)
      && (f < |rounds| ==>
            match rounds[f]
            case Expired => FatalCode(rounds[f]) == TimedOut
            case Moved(k) => k == 0 && FatalCode(rounds[f]) == Success
            case Errs(e, poll) =>
              if e != WouldBlock && e != TryAgain then FatalCode(rounds[f]) == e
              else poll == Some(FatalCode(rounds[f])))
  {
    if rounds != [] && !Fatal(rounds[0]) {
      FirstFatalByKind(rounds[1..]);
      var f := FirstFatal(rounds);
      assert forall i :: 0 < i < |rounds| ==> rounds[i] == rounds[1..][i - 1];
    }
  }

  datatype Reception = Reception(data: seq<Byte>, end: End, ec: ErrorCode, rest: seq<Round<seq<Byte>>>)

  /** The receive loop with room for that many bytes. */
  function Receive(rounds: seq<Round<seq<Byte>>>, room: nat, ec: ErrorCode): (t: Reception)
    requires room > 0
    ensures |t.data| <= room && (t.end == Complete <==> t.data != [])
    decreases |rounds|
  {
    if rounds == [] then Reception([], Waiting, ec, rounds)
    else
      var rest := rounds[1..];
      match rounds[0]
      case Expired => Reception([], Failed, TimedOut, rest)
      case Moved(d) =>
        if d == [] then Reception([], Failed, EndOfFile, rest)
        else Reception(d[..Min(|d|, room)], Complete, Success, rest)
      case Errs(e, poll) =>
        if !Retryable(e) then Reception([], Failed, e, rest)
        else if poll.Some? then Reception([], Failed, poll.value, rest)
        else Receive(rest, room, Success)
  }

  /** Rounds after which a receive loop asks again. */
  predicate AsksAgain(r: Round<seq<Byte>>) {
    r.Errs? && Retryable(r.e) && r.poll.None?
  }

  /** A receive loop is decided by the first round it does not ask again after: it completes with the
      front of what arrives, as much as there is room for, and fails at end of file, at the expiry
      time and at any error that is not would_block or try_again, or else at a failed poll. */
  lemma {:induction false} ReceiveOutcome(rounds: seq<Round<seq<Byte>>>, room: nat, ec: ErrorCode) returns (m: nat)
    requires room > 0
    ensures m <= |rounds|
    ensures forall i :: 0 <= i < m ==> rounds[i].Errs? && rounds[i].e in {WouldBlock, TryAgain} && rounds[i].poll.None?
    ensures var t := Receive(rounds, room, ec);
      if m == |rounds| then t.end == Waiting && t.data == []
      else
        && t.rest == rounds[m + 1..]
        && (t.end == Complete <==> rounds[m].Moved? && rounds[m].amount != [])
        && (t.end == Complete ==> t.ec == Success && t.data == rounds[m].amount[..Min(|rounds[m].amount|, room)])
        && (t.end != Complete ==> t.end == Failed && t.data == [])
        && (t.end != Complete ==>
              match rounds[m]
              case Expired => t.ec == TimedOut
              case Moved(d) => d == [] && t.ec == EndOfFile
              case Errs(e, poll) =>
                if e != WouldBlock && e != TryAgain then t.ec == e else poll == Some(t.ec))
    decreases |rounds|
  {
    m := 0;
    if rounds != [] && AsksAgain(rounds[0]) {
      var m' := ReceiveOutcome(rounds[1..], room, Success);
      m := m' + 1;
      if m' < |rounds[1..]| { assert rounds[1..][m' + 1..] == rounds[m + 1..]; }
    }
  }
}
