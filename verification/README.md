# Verified model of five Asio components

A Dafny model of the parts of Asio 1.22.1 that carry their own control flow and state, with proofs
of what they promise. `dafny verify dfyconfig.toml` checks all of it.

**Stackless coroutines** (`coroutine.hpp`). `CoroutineSyntax` has the bodies a user writes (actions,
sequences, conditionals, loops, break, return, `yield`, `yield break`, `yield return`, `fork`), over
any store, and expands the `reenter`, `yield` and `fork` macros into the C++ statements they are made
of, loop for loop and label for label. `MacroMachine` runs such statements: a switch jumps to a case
in the middle of loops, a goto to its label. `CoroutineSemantics` says, with no labels, what a
coroutine is: a suspended one holds a continuation. `CoroutineSimulation` and `CoroutineTheorems` prove
that the integer does the continuation's work, `CoroutineErasure` that cutting a body into activations
does not change what it computes, whether it completes or never does, and `CoroutineObject` has the
classes `coroutine` and `coroutine_ref` and executes the macros against them.

**`buffers_iterator`**. `BufferSequence` has positions in a list of buffers, `BuffersIterator` the
iterator with its three coordinates and its cached buffer, moved in place by the source's loops.

**`basic_streambuf`**. `BasicStreambuf` has the growing array and its four moving offsets; `BoundedQueue`
is the queue of at most so many characters that a run of its operations is proved to be.

**`basic_socket_streambuf`**. `Network` has what the system may do, as scripts: every statement is for
every script, and a script that runs out leaves the call blocked, so the loops need no other bound.
`SocketRules` says on values what puts, syncs and reads do against a script, `ConnectRules` what
attempts to connect come to, and `SocketStreambuf` has the buffers and loops that do it.

**Cancellation**. `CancellationRules` says what filters do to an emission along a chain;
`Cancellation` has signals, slots and states as linked objects. The mask type is a 32-bit vector, with
Dafny's own bit operators for those of `cancellation_type.hpp`.

`Common` has what several of them use.

## What the proofs brought to light

- A `prepare` that throws `length_error` may already have moved the characters without moving the
  pointers, which spoils the input sequence (`BasicStreambuf.FailedPrepareSpoils`). It leaves every
  input sequence alone exactly if nothing has been consumed since the last compaction (`gptr` at the
  start) or `size()` is at most what has been (`BasicStreambuf.AlwaysHarmlessIff`), and a given one
  exactly if it repeats itself with that period (`BasicStreambuf.HarmlessIffPeriodic`). An `overflow`
  that throws never does harm.
- `coroutine.hpp` documents that leaving the body without a yield completes the coroutine. The parent
  of a fork that does so keeps the fork's line and is not complete; its next activation runs nothing
  and completes it (`CoroutineTheorems.LastKeywordDecides`, `CoroutineTheorems.ForkingParentIsNotComplete`,
  `CoroutineTheorems.ValueWithoutCaseRunsNothing`). The model follows the code.
- `is_child()` is also true of a complete coroutine (`CoroutineTheorems.QueriesTellTheState`).
- After an `overflow` of `basic_socket_streambuf` fails, the output stays exact if and only if the
  script supplies nothing before its first fatal round (`SocketRules.OverflowExactness`). Otherwise a
  retry sends a part again: 1, 2 can go out as 1, 1, 2 (`SocketStreambuf.FailedSyncThenRetry`).
- The connect loop treats a poll that times out like one that finds the socket ready, so a connect
  that is still under way and has no error yet ends the loop without an error
  (`SocketStreambuf.ConnectsToNothing`). The error code is clear exactly if the last attempt is
  established, if and only if that attempt is not such a one (`ConnectRules.ClearMeansEstablishedIff`);
  if no poll times out it is always so (`ConnectRules.ClearWithoutTimeouts`).

## Model

| member | source | states |
|---|---|---|
| CoroutineSimulation.ReenterTarget | Asio/include/asio/coroutine.hpp:281-292 | the reenter switch goes to the top for 0, to the terminate block for -1, to just inside the loop of the yield or fork with that label, wherever it is nested, and past the body for any other value |
| CoroutineSimulation.YieldRuns | Asio/include/asio/coroutine.hpp:294-309 | the two nested loops, inner switch and gotos of yield run the user's statement once with the integer at the line, then leave with the line, or with -1 if the statement was a break |
| CoroutineSimulation.ForkRuns | Asio/include/asio/coroutine.hpp:311-318 | fork runs its statement with the integer at minus the line and goes on after it with the line |
| CoroutineSimulation.StepIsSimulated | Asio/include/asio/coroutine.hpp:281-318 | each step of the continuation semantics is one or more steps of the expanded macros, ending in the same state |
| CoroutineSimulation.ReenterResumes | Asio/include/asio/coroutine.hpp:281-318 | entered with the integer of a coroutine on any store, the macros come to the start of that coroutine's continuation |
| CoroutineTheorems.ResumingIsContinuing | Asio/include/asio/coroutine.hpp:281-309 | for every body with distinct lines, every reachable coroutine state, every store: an activation of the macros ends with a value and store if and only if continuing the coroutine ends with them |
| CoroutineTheorems.ActivationEndsSound | Asio/include/asio/coroutine.hpp:241-259 | every activation leaves the coroutine in a state to which these theorems apply again |
| CoroutineTheorems.RunsAgree | Asio/include/asio/coroutine.hpp:281-318 | over any number of activations, the store changed arbitrarily in between, the integer behaves as the continuation |
| CoroutineTheorems.NeverIllFormed | Asio/include/asio/coroutine.hpp:281-318 | no break of the macros is ever outside a loop or switch and no goto misses its label, in any run |
| CoroutineErasure.ErasingYields | Asio/include/asio/coroutine.hpp:83-105 | a new coroutine re-entered until complete ends, with some store, if and only if the body with its yields erased, interpreted as an ordinary program, ends with that store |
| CoroutineErasure.ErasedRunIsPassed | Asio/include/asio/coroutine.hpp:83-105 | however far the erased body is run, completing or not, the re-entered macros come to a state inside the body with the store it has then |
| CoroutineErasure.MacrosAreOvertaken | Asio/include/asio/coroutine.hpp:83-105 | of a body that never completes: after any number of activations, what the erased body has come to, if run far enough, is still ahead of the macros and they come to it |
| CoroutineErasure.BodyIsOnward | Asio/include/asio/coroutine.hpp:83-105 | for every fuel the interpreter of the erased body agrees with the re-entered semantics: on how it ends, and when the fuel runs out first, on the store at a point at least that many steps on |
| CoroutineTheorems.ForkSplits | Asio/include/asio/coroutine.hpp:311-318 | whenever any activation reaches a fork, in any nest of loops, the forked statement runs with minus the line, and the parent goes on after the fork with the line |
| CoroutineTheorems.ForkedCopyGoesOn | Asio/include/asio/coroutine.hpp:207-220 | a copy taken in the forked statement, entered later on any store, does exactly what follows the fork |
| CoroutineTheorems.ValueWithoutCaseRunsNothing | Asio/include/asio/coroutine.hpp:281-292 | entered with -1, or any value without a case, the macros run no statement and end at -1 |
| CoroutineTheorems.LastKeywordDecides | Asio/include/asio/coroutine.hpp:264-276 | the integer an activation leaves is decided by the last yield or fork it executed; leaving without a yield gives -1 exactly if it did not fork |
| CoroutineTheorems.ForkFreeCompletes | Asio/include/asio/coroutine.hpp:169-171 | whenever an activation leaves a body without forks without a yield, the coroutine is complete |
| CoroutineTheorems.ForkingParentIsNotComplete | Asio/include/asio/coroutine.hpp:169-171 | an input for which leaving the body without a yield does not complete the coroutine |
| CoroutineTheorems.QueriesTellTheState | Asio/include/asio/coroutine.hpp:247-254 | the integer -1 means ended; a negative one means suspended as the child of a fork, or ended |
| CoroutineObject.QueriesOfObject | Asio/include/asio/coroutine.hpp:247-254 | is_complete, is_parent and is_child of an object in terms of the state that its integer stands for |
| CoroutineObject.CoroutineRef.Assign | Asio/include/asio/coroutine.hpp:271-271 | writes through to the coroutine and remembers that it did |
| CoroutineObject.CoroutineRef.Destroy | Asio/include/asio/coroutine.hpp:269-269 | completes a coroutine that was not assigned to |
| CoroutineObject.Execute | Asio/include/asio/coroutine.hpp:281-318 | executing a reenter statement on the two objects does, within any budget of steps, exactly what the machine does |
| BufferSequence.CanonicalIsUnique | Asio/include/asio/buffers_iterator.hpp:348-351 | iterators over the same buffers have equal positions exactly if all coordinates are equal, and positions are ordered as buffers and then offsets |
| BufferSequence.CanonicalIsInRange | Asio/include/asio/buffers_iterator.hpp:186-203 | positions lie between 0 and the total, and only the end is at the total |
| BufferSequence.FlatAt | Asio/include/asio/buffers_iterator.hpp:341-345 | the byte at an offset in a buffer is the byte of the concatenation at the position |
| BuffersIterator.Iterator.Begin | Asio/include/asio/buffers_iterator.hpp:167-184 | the coordinates of position 0, past leading empty buffers |
| BuffersIterator.Iterator.End | Asio/include/asio/buffers_iterator.hpp:187-203 | the coordinates of the total |
| BuffersIterator.Iterator.Dereference | Asio/include/asio/buffers_iterator.hpp:341-345 | the byte of the concatenation at the position |
| BuffersIterator.Iterator.Index | Asio/include/asio/buffers_iterator.hpp:218-223 | it[n] is the byte of the concatenation at position + n, n of either sign |
| BuffersIterator.Iterator.Plus | Asio/include/asio/buffers_iterator.hpp:270-294 | a copy at position + n; the original is unchanged |
| BuffersIterator.Iterator.Increment | Asio/include/asio/buffers_iterator.hpp:354-374 | the coordinates of the next position, across empty buffers |
| BuffersIterator.Iterator.PreviousNonEmpty | Asio/include/asio/buffers_iterator.hpp:468-482 | whenever bytes come before, the backward scan finds a strictly earlier non-empty buffer, the nearest one |
| BuffersIterator.Iterator.Decrement | Asio/include/asio/buffers_iterator.hpp:377-404 | the coordinates of the previous position |
| BuffersIterator.Iterator.Advance | Asio/include/asio/buffers_iterator.hpp:407-485 | for any n that stays in bounds, the coordinates of position + n; both loops terminate and the assertions in them hold |
| BuffersIterator.Iterator.Forward | Asio/include/asio/buffers_iterator.hpp:409-441 | the forward loop |
| BuffersIterator.Iterator.Backward | Asio/include/asio/buffers_iterator.hpp:442-484 | the backward loop; its exit at the first buffer is unreachable |
| BuffersIterator.ComparisonsAreSound | Asio/include/asio/buffers_iterator.hpp:297-337 | equality and less-than by position are equality and order of the coordinates, and a advanced by b - a is b |
| BuffersIterator.AdvanceBySteps | Asio/include/asio/buffers_iterator.hpp:354-485 | advancing by n is n increments or -n decrements |
| BuffersIterator.AdvanceTwiceAndBack | Asio/include/asio/buffers_iterator.hpp:407-485 | advancing by m and then n is advancing by m + n, and advancing back restores all coordinates |
| BuffersIterator.Traverse | Asio/include/asio/buffers_iterator.hpp:167-203 | from begin to end an iterator visits exactly the concatenation of the buffers, in order |
| BuffersIterator.TraverseBack | Asio/include/asio/buffers_iterator.hpp:377-404 | and from end to begin its reverse |
| BasicStreambuf.Streambuf.constructor | Asio/include/asio/basic_streambuf.hpp:131-141 | an empty queue with at most 128 characters of room |
| BasicStreambuf.MoveDown | Asio/include/asio/basic_streambuf.hpp:321-326 | the overlapping move of the contents to the start of the array |
| BasicStreambuf.Streambuf.Reserve | Asio/include/asio/basic_streambuf.hpp:308-346 | fails exactly if size + n exceeds the maximum; on success nothing of the contents changes and there is room; on failure the exact damage |
| BasicStreambuf.Streambuf.Prepare | Asio/include/asio/basic_streambuf.hpp:214-219 | length_error exactly if size + n exceeds the maximum, else n characters of output at the put pointer, contents kept; after a length_error, each character of the contents, and that they are kept exactly if they repeat with the period of the get pointer |
| BasicStreambuf.Streambuf.Commit | Asio/include/asio/basic_streambuf.hpp:233-238 | appends the first n characters of the output sequence, or all of them |
| BasicStreambuf.Streambuf.Consume | Asio/include/asio/basic_streambuf.hpp:247-254 | removes the first n characters, or all of them, even those that egptr has not caught up with |
| BasicStreambuf.Streambuf.Underflow | Asio/include/asio/basic_streambuf.hpp:263-274 | the front character or eof, and a get area that reaches the put pointer |
| BasicStreambuf.Streambuf.MakeRoom | Asio/include/asio/basic_streambuf.hpp:287-298 | the amount overflow reserves fits unless the streambuf is full, always leaves room for a character, and a failure does no harm |
| BasicStreambuf.Streambuf.Overflow | Asio/include/asio/basic_streambuf.hpp:283-306 | fails exactly if size is the maximum, else appends exactly the character |
| BasicStreambuf.Streambuf.Sputc | Asio/include/asio/basic_streambuf.hpp:283-306 | a put appends the character unless the streambuf is full, with or without overflow |
| BasicStreambuf.Streambuf.Sbumpc | Asio/include/asio/basic_streambuf.hpp:263-274 | a read takes the front character, if any, with or without underflow |
| BasicStreambuf.Streambuf.ReadSizeHelper | Asio/include/asio/basic_streambuf.hpp:353-359 | the most that is no more than asked for, than fits, and than both 512 and what fits without reallocation; zero only if nothing fits or was asked for |
| BasicStreambuf.PrepareForRead | Asio/include/asio/basic_streambuf.hpp:353-359 | preparing what the helper says always succeeds |
| BasicStreambuf.Run | Asio/include/asio/basic_streambuf.hpp:214-346 | any run of operations, with prepare, write and commit as one that appends what was written, is a run of a bounded queue up to the first length_error: the same operations are done and the same characters are appended, removed and held; the failing one does harm only if it is a prepare with the get pointer between the start and size |
| BasicStreambuf.Streambuf.Feed | Asio/include/asio/basic_streambuf.hpp:209-238 | preparing, writing data and committing it appends exactly the data, or fails because it does not fit with the spare |
| BasicStreambuf.Perform | Asio/include/asio/basic_streambuf.hpp:214-346 | each operation succeeds exactly if the queue accepts it and then does what the queue does; the contents afterwards, operation by operation, from the contents before |
| BoundedQueue.FirstInFirstOut | Asio/include/asio/basic_streambuf.hpp:39-67 | over any run of the queue what was removed and what is held is what was appended, in order, within the bound, and only a length_error stops it |
| BoundedQueue.AppendedIsFed | Asio/include/asio/basic_streambuf.hpp:221-238 | what a run appends is what its operations say, in order |
| BoundedQueue.NextOperation | Asio/include/asio/basic_streambuf.hpp:214-346 | a run goes on with its next operation exactly if it has not stopped and the queue accepts it |
| BoundedQueue.NextOperationByKind | Asio/include/asio/basic_streambuf.hpp:214-346 | at the end of any run each operation fails exactly for lack of space, or appends its data or character at the back, or moves the first n characters, or all, or the first one, from what is held to what was removed, or changes nothing |
| BasicStreambuf.HarmlessIffPeriodic | Asio/include/asio/basic_streambuf.hpp:321-340 | when a failed reserve leaves a given input sequence as it was |
| BasicStreambuf.AlwaysHarmlessIff | Asio/include/asio/basic_streambuf.hpp:321-340 | when it does so for every input sequence of that length, in terms of the get pointer and size |
| BasicStreambuf.FailedPrepareSpoils | Asio/include/asio/basic_streambuf.hpp:321-340 | a run after which a failed prepare has changed the contents |
| Network.TransmitOutcome | Asio/include/asio/basic_socket_streambuf.hpp:490-523 | the send loop fails at the first fatal round before the bytes are out and has then sent what the rounds before could move, waits if the script runs out first, and completes otherwise |
| Network.TransmitIsSupply | Asio/include/asio/basic_socket_streambuf.hpp:490-523 | how a send loop ends, from the script alone: it sends what the rounds before the first fatal one supply, up to what is asked, completes exactly if that is enough, and otherwise fails with the fatal round's code or waits |
| Network.FirstFatalByKind | Asio/include/asio/basic_socket_streambuf.hpp:490-523 | which rounds end a send loop, with which code, and what the others supply: past the expiry time timed_out, a send of nothing no error, an error that is not would_block or try_again itself, a failed poll its own |
| Network.CapacityAddsUp | Asio/include/asio/basic_socket_streambuf.hpp:508-512 | what rounds supply is the sum of what their sends move |
| Network.ReceiveOutcome | Asio/include/asio/basic_socket_streambuf.hpp:423-464 | the receive loop is decided by the first round that is not a retry |
| SocketStreambuf.Streambuf.SendLoop | Asio/include/asio/basic_socket_streambuf.hpp:490-523 | sends a prefix of the output, as far as the loop's rules say |
| SocketStreambuf.Streambuf.Overflow | Asio/include/asio/basic_socket_streambuf.hpp:468-540 | success sends all that was pending and keeps the output exact, buffered or not; failure has sent a proper prefix and changed nothing else; which of the two, and the prefix, is decided by the script |
| SocketRules.OverflowExactness | Asio/include/asio/basic_socket_streambuf.hpp:468-540 | an overflow that fails has sent what the script supplied, and the output is then exact if and only if that was nothing |
| SocketRules.SyncAfterFailure | Asio/include/asio/basic_socket_streambuf.hpp:542-545 | a sync that succeeds after an overflow that failed repeats what the failed one had sent |
| SocketStreambuf.FailedSyncThenRetry | Asio/include/asio/basic_socket_streambuf.hpp:542-545 | a run in which a failed sync and another repeat a character |
| SocketStreambuf.Streambuf.Sputc | Asio/include/asio/basic_socket_streambuf.hpp:468-540 | with room a put takes the character and leaves the socket alone; without, the send loop decides what goes out, the code left and whether the character is taken; it keeps the output exact, or fails with a prefix of what was accepted on the wire |
| SocketStreambuf.Streambuf.Sync | Asio/include/asio/basic_socket_streambuf.hpp:542-545 | succeeds exactly if the script lets all that is pending out; then nothing is pending and everything accepted is on the wire |
| SocketStreambuf.Streambuf.SetBuf | Asio/include/asio/basic_socket_streambuf.hpp:547-558 | switches to unbuffered exactly if nothing is pending and both arguments are zero; loses and sends nothing |
| SocketStreambuf.RunOutput | Asio/include/asio/basic_socket_streambuf.hpp:468-558 | any run of puts, syncs and setbufs against any script does what the rules say: the same operations succeed, the same characters are pending, sent and accepted; output is exact until a call fails, and a prefix of what was accepted is on the wire then |
| SocketRules.RunExactness | Asio/include/asio/basic_socket_streambuf.hpp:468-558 | for all operations and scripts: exact as long as all succeed, and a prefix of what was accepted on the wire when one does not |
| SocketRules.OutputByKind | Asio/include/asio/basic_socket_streambuf.hpp:468-558 | what a put, a flush and a setbuf leave pending, sent, accepted and as error code, from the state and how the send loop ends |
| SocketRules.NextOutput | Asio/include/asio/basic_socket_streambuf.hpp:468-558 | a run goes on with its next operation exactly if all before it succeeded |
| SocketRules.FlushedRun | Asio/include/asio/basic_socket_streambuf.hpp:542-545 | any run that ends with a flush, and succeeds, leaves nothing pending: all that was ever accepted is on the wire |
| SocketRules.RunStopsForLackOfSupply | Asio/include/asio/basic_socket_streambuf.hpp:468-558 | a run stops only at a put without room or a flush for which the script supplies less than it has to send |
| SocketStreambuf.Streambuf.ReceiveLoop | Asio/include/asio/basic_socket_streambuf.hpp:423-464 | the receive loop, as its rules say |
| SocketStreambuf.Streambuf.FillGetArea | Asio/include/asio/basic_socket_streambuf.hpp:441-446 | a refill lands above the putback area, inside the array, and becomes the get area |
| SocketStreambuf.Streambuf.Underflow | Asio/include/asio/basic_socket_streambuf.hpp:414-466 | refills an empty get area with what arrives, or fails; refuses if characters are left |
| SocketStreambuf.Streambuf.Sbumpc | Asio/include/asio/basic_socket_streambuf.hpp:414-466 | a read hands out the next character held or, with none, the first that the receive loop brings, from the first round of the script on, keeping the rest; else the code that the loop leaves |
| SocketStreambuf.Streambuf.Sgetc | Asio/include/asio/basic_socket_streambuf.hpp:414-466 | a look shows the next character held or, with none, the first that the receive loop brings, and hands out nothing |
| SocketStreambuf.RunInput | Asio/include/asio/basic_socket_streambuf.hpp:414-466 | any run of reads and looks against any script does what the rules say; what was received is what was handed out followed by what is held |
| SocketRules.InputIsExact | Asio/include/asio/basic_socket_streambuf.hpp:414-466 | for all runs of reads and looks and all scripts: input stays exact, a read hands out one character and a look none, and a run stops only when all that was received has been handed out and the script brings no more |
| SocketRules.InputByKind | Asio/include/asio/basic_socket_streambuf.hpp:414-466 | what a read and a look leave held, received, handed out and as error code, from the state and how the receive loop ends |
| SocketRules.NextInput | Asio/include/asio/basic_socket_streambuf.hpp:414-466 | a run goes on with its next read or look exactly if all before it found a character |
| SocketRules.LookSeesNextRead | Asio/include/asio/basic_socket_streambuf.hpp:414-466 | a read after a look is the read without it |
| SocketStreambuf.Streambuf.ConnectToEndpoints | Asio/include/asio/basic_socket_streambuf.hpp:597-657 | goes through the endpoints in order up to the first that ends the loop; leaves not_found for none and else, from what the last attempt met: timed_out past the expiry time, the error of open, of connect, of the poll or of getsockopt, or the connection's own; none before was out of time, connected, or unreadable; clear means established unless the last was still under way when its poll timed out |
| ConnectRules.NoErrorIff | Asio/include/asio/basic_socket_streambuf.hpp:608-655 | an attempt leaves no error exactly if it is established, or still under way when its poll timed out |
| ConnectRules.AttemptByFields | Asio/include/asio/basic_socket_streambuf.hpp:608-655 | the code an attempt leaves and whether anything is tried after it, case by case from the clock, open, connect, poll, getsockopt and the connection's own error |
| ConnectRules.CalledInOrder | Asio/include/asio/basic_socket_streambuf.hpp:608-629 | connect is called on exactly the endpoints before whose turn the clock had not run out and whose open succeeded, in order, once each |
| ConnectRules.ClearMeansEstablishedIff | Asio/include/asio/basic_socket_streambuf.hpp:597-657 | for all attempts: the final code is clear exactly if the last attempt made is established, if and only if that attempt was not still under way when its poll timed out |
| ConnectRules.ClearWithoutTimeouts | Asio/include/asio/basic_socket_streambuf.hpp:597-657 | if no poll times out, the final code is clear exactly if some attempt is established and none before it aborts |
| ConnectRules.ClearWithoutConnection | Asio/include/asio/basic_socket_streambuf.hpp:637-654 | an attempt after which the code is clear and there is no connection |
| ConnectRules.MadeUpToTheEnd | Asio/include/asio/basic_socket_streambuf.hpp:606-655 | attempts are made up to and including the first that ends the loop |
| SocketStreambuf.ConnectsToNothing | Asio/include/asio/basic_socket_streambuf.hpp:597-657 | a run of the connect loop that ends with the code clear and no connection |
| CancellationRules.EmissionSetsAPrefix | Asio/include/asio/cancellation_state.hpp:216-222 | an emission sets exactly the states before which no relay yields none, each to what its in filter makes of the value through all filters before it |
| CancellationRules.LeafIsCalledOnce | Asio/include/asio/cancellation_signal.hpp:115-119 | the leaf is called once, with the last relayed value, exactly if no relay yields none |
| CancellationRules.ApplyByKind | Asio/include/asio/cancellation_state.hpp:34-38 | a mask filter keeps the bits of its mask, and any other function object decides itself |
| CancellationRules.EmissionByFilters | Asio/include/asio/cancellation_state.hpp:216-222 | the first state records what its in filter makes of the emitted value; the rest of the chain, and the leaf, are given what the out filter makes of that, unless it is none |
| CancellationRules.EmissionByFunctions | Asio/include/asio/cancellation_state.hpp:216-222 | with any two functions f in and g out, a state records f(t) and the leaf is called with g(f(t)) unless that is none |
| CancellationRules.MasksIntersect | Asio/include/asio/cancellation_state.hpp:34-38 | with mask filters the delivered value is the emitted one ANDed with the masks so far |
| CancellationRules.ReachedIffSharedBit | Asio/include/asio/cancellation_state.hpp:216-222 | with mask filters a state is reached exactly if the emitted type shares a bit with all masks before it |
| CancellationRules.DefaultStatesRelayTerminal | Asio/include/asio/cancellation_state.hpp:97-101 | through states with the default filters exactly terminal cancellation is delivered |
| CancellationRules.DisabledStateStops | Asio/include/asio/cancellation_state.hpp:42-43 | nothing is reached past a state with disable_cancellation |
| CancellationRules.LastEmissionRules | Asio/include/asio/cancellation_state.hpp:174-185 | after any run a state shows the last emission that reached it, in-filtered, less the bits cleared since |
| CancellationRules.OnlyClears | Asio/include/asio/cancellation_state.hpp:180-185 | a state that no emission reaches shows what it did, less what was cleared |
| CancellationRules.OnlyTheMask | Asio/include/asio/cancellation_state.hpp:180-185 | what a clear leaves has no bit of the mask and every other bit it had |
| CancellationRules.NextOpByKind | Asio/include/asio/cancellation_state.hpp:174-222 | after any run, an emission is one of the whole chain and calls the leaf as such, and a clear takes the bits of its mask, and no others, from its own state only |
| Cancellation.Signal.Emit | Asio/include/asio/cancellation_signal.hpp:115-119 | emission over linked objects sets the states and calls the leaf as the rules say, and relinks nothing |
| Cancellation.StateImpl.Call | Asio/include/asio/cancellation_state.hpp:216-222 | records what the in filter, a mask or any function, makes of the value, then relays what the out filter makes of that unless it is none |
| Cancellation.State.Attach | Asio/include/asio/cancellation_state.hpp:153-162 | installs a fresh state in a connected slot; on a disconnected slot the state is disconnected and shows none |
| Cancellation.State.AttachFiltered | Asio/include/asio/cancellation_state.hpp:121-127 | the same with one filter for both ways |
| Cancellation.State.AttachTerminal | Asio/include/asio/cancellation_state.hpp:97-101 | the same with terminal cancellation only, both ways |
| Cancellation.State.Slot | Asio/include/asio/cancellation_state.hpp:168-171 | the child slot is disconnected exactly if the state is |
| Cancellation.State.Clear | Asio/include/asio/cancellation_state.hpp:180-185 | removes exactly the bits of the mask from what is shown |
| Cancellation.AttachAt | Asio/include/asio/cancellation_signal.hpp:147-178 | attaching in the middle of a chain cuts it there: it ends with the new state, the earlier ones unchanged |
| Cancellation.RunOps | Asio/include/asio/cancellation_state.hpp:174-222 | any run of emissions and clears on linked objects shows what the rules say, and calls the leaf as they say, in order |

## Left out

- Sockets, acceptors, files, timers, signal sets and their services: every method forwards to code outside this model.
- async_result, associated_* and bind_* headers: template selection and forwarding.
- connect and close of the socket streambuf, and its move operations: init_buffers and setp drop pending output, so no conservation holds across them.
- Putback reads on both stream buffers, and reading blocks at a time: the std::streambuf functions other than sputc, sbumpc and sgetc are not part of this model.
- The clamping in timeout() and the Windows Runtime branches; native_non_blocking, whose error code the next call overwrites.
- The integer width of sizes, of pbump and gbump, and of pointer addition in consume: sizes are mathematical integers.
- BasicStreambuf.Run: commits only what has been written after a prepare, as the source requires of callers; BasicStreambuf.Streambuf.Commit covers any n.
- Vector capacity: resize is modelled as a new array with the old contents, and read_size_helper takes the capacity as a parameter.
- Coroutine bodies: the statement under a yield is any function of the store to a store and a way to leave (through its end, break or return), that under a fork one that falls through; neither assigns to its own coroutine. User switch and goto statements, continue and throw are not in the language (do and for loops are written with while and break).
- CoroutineObject.Execute: stops after a budget of steps, because a body may run for ever; every budget is covered.
- Two pseudo-keywords on one line: bodies are required to have distinct lines, and forks a line of at least 2, since fork on line 1 would be a second case -1.
- Object lifetimes and memory reuse in cancellation_slot: emplace is modelled as replacing the handler; a slot that is cleared or outlives its signal is not.
