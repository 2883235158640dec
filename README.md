# Request lifetime monitor of the HttpListener wrapper

This project models `RequestLifetimeMonitor`, the object that coordinates the lifetime of one
accepted `HttpListener` connection. It holds:

- a three-valued state word: `RequestInProgress` = 1, `ResponseInProgress` = 2, `Completed` = 3;
- a cancellation token source and a one-shot timeout timer.

The response path claims the response with a compare-and-swap from 1 to 2
(`TryStartResponse`). Every way of ending the request goes through one finalizer, `End()`:

- normal completion (`CompleteResponse`);
- the timer callback (`Cancel`);
- an error (`End(Exception)`);
- `Dispose`.

The finalizer disposes the timer and the token source, then swaps the state to `Completed`. What
it does next depends on the prior state:

- prior `RequestInProgress`: it sends a synthesized error response (status 500, content length 0,
  headers cleared, then close);
- prior `ResponseInProgress`: it aborts the connection;
- prior `Completed`: it does nothing.

The project has three files:

- `lifetime_spec.dfy` (module `LifetimeSpec`) is the state machine on values. A `Monitor` holds
  the state word, whether the token source is cancelled, whether it is disposed, whether the timer
  is disposed, and the log of calls issued on the native response object. There is one function
  per operation. `Run` applies any sequence of operations. A sequence of calls stands in for any
  interleaving of the handler and the timer, because each operation is one atomic step.
- `lifetime_properties.dfy` (module `LifetimeProperties`) proves what the monitor promises over
  every sequence of calls.
- `request_lifetime_monitor.dfy` (module `HttpListenerWrapper`) is the class
  `RequestLifetimeMonitor`. It has mutable fields for the state word, the token source and the
  timer, and a ghost field for the response log. Each method is proved to perform exactly the
  matching step of `LifetimeSpec` and to keep the invariant `Valid`.

The invariant `LifetimeSpec.Valid` says five things:

- the state word is 1, 2 or 3;
- the token source and the timer are disposed exactly when the state is `Completed`;
- a cancelled token implies `Completed`;
- nothing has been sent on the response before `Completed`;
- the response log holds exactly one terminal action (the 500 or the abort) once `Completed`, and
  none before.

The `Contract.Requires(priorState == Completed)` in the last branch of `End()` becomes an
`assert` in `RequestLifetimeMonitor.Finish`. It is discharged from that invariant. The invariant
holds from construction on only because the model stores `RequestInProgress` before the timer is
armed. The constructor as written does it the other way round (lines 32-33); see "## Findings".

The model follows the code as written:

- `CompleteResponse` has no "already completed" guard. It always issues `Close` and then
  `End(null)`. So on a claimed response the log reads `Close, Abort`. On an unclaimed one it reads
  `Close` followed by the 500 sequence. On a completed monitor it reads one more `Close`.
- The comment above `CompleteResponse` (line 55) says the token is cancelled even on success. The
  code does not do that: `End(null)` skips the cancel and then disposes the source. The model
  follows the code. `CancelledIffFirstEndRaises` shows that the success path never cancels.
- If `End(null)` itself raised a listener exception inside `CompleteResponse`, the catch would run
  `End(ex)` on a monitor that is already `Completed` and disposed. `SecondEndIsNoop` shows that this
  call changes nothing.

## Model

| member | source | states |
|---|---|---|
| LifetimeSpec.TryStartResponse | src/Katana.Server.HttpListenerWrapper/RequestLifetimeMonitor.cs:44-47 | returns true iff the state was RequestInProgress; then the state becomes ResponseInProgress, otherwise the monitor is unchanged |
| LifetimeSpec.Finish | src/Katana.Server.HttpListenerWrapper/RequestLifetimeMonitor.cs:94-116 | afterwards the state is Completed and timer and token source are disposed, the token is untouched; the log gains exactly status 500, length 0, clear headers, Close from RequestInProgress, exactly Abort from ResponseInProgress, nothing from Completed |
| LifetimeSpec.EndWith | src/Katana.Server.HttpListenerWrapper/RequestLifetimeMonitor.cs:70-92 | ends in Completed with everything disposed; the token is cancelled afterwards iff it was before or an error was passed while the source was not yet disposed; the response calls are those of the finalizer |
| LifetimeSpec.CompleteResponse | src/Katana.Server.HttpListenerWrapper/RequestLifetimeMonitor.cs:56-68 | always ends in Completed; the log gains Close then the 500 sequence (from RequestInProgress), Close then Abort (from ResponseInProgress), or Close alone (from Completed); the token becomes cancelled only when the close fails and the source is not yet disposed |
| LifetimeProperties.FreshIsValid | src/Katana.Server.HttpListenerWrapper/RequestLifetimeMonitor.cs:27-34 | a fresh monitor is in RequestInProgress, token not cancelled, nothing disposed, nothing sent, and satisfies the invariant |
| LifetimeSpec.ConstructArmingFirst | src/Katana.Server.HttpListenerWrapper/RequestLifetimeMonitor.cs:27-34 | the constructor as written, in two steps (arm the timer, then store RequestInProgress): without an early callback it yields the fresh monitor; with one, the result is in RequestInProgress yet cancelled, disposed, and with nothing sent on the response |
| LifetimeProperties.EarlyTimeoutIsLost | src/Katana.Server.HttpListenerWrapper/RequestLifetimeMonitor.cs:32-33 | a timeout firing between arming the timer and storing the state meets prior state 0: no 500 and no abort is sent; the state is then reset from Completed to RequestInProgress, the invariant fails, and a claim still succeeds with the timer already disposed |
| LifetimeProperties.ApplyPreservesValid | src/Katana.Server.HttpListenerWrapper/RequestLifetimeMonitor.cs:44-129 | every public operation keeps the invariant: state in 1..3, disposed exactly when Completed, cancelled only when Completed, silent response before Completed, exactly one terminal action once Completed |
| LifetimeProperties.RunPreservesValid | src/Katana.Server.HttpListenerWrapper/RequestLifetimeMonitor.cs:44-129 | every sequence of operations keeps the invariant, so after the (atomic) construction the state word only ever holds 1, 2 or 3 |
| LifetimeProperties.ClaimAtMostOnce | src/Katana.Server.HttpListenerWrapper/RequestLifetimeMonitor.cs:44-47 | over any sequence of calls TryStartResponse returns true at most once: exactly once iff the monitor was in RequestInProgress and a claim precedes the first call that ends the request; never from Completed |
| LifetimeProperties.CompletedAbsorbs | src/Katana.Server.HttpListenerWrapper/RequestLifetimeMonitor.cs:94-116 | from Completed no sequence of calls leaves Completed, changes the token or the disposal flags, or adds anything to the response but further Close calls, so no further terminal action |
| LifetimeProperties.SecondEndIsNoop | src/Katana.Server.HttpListenerWrapper/RequestLifetimeMonitor.cs:94-116 | a second End() or End(ex) on a completed monitor leaves state, token, disposal flags and response unchanged |
| LifetimeProperties.CompletedIffFinalized | src/Katana.Server.HttpListenerWrapper/RequestLifetimeMonitor.cs:49-129 | the state is Completed after a sequence of calls iff it was already, or some call (timer, CompleteResponse, End(ex), Dispose, Dispose(true)) reached the finalizer |
| LifetimeProperties.ExactlyOneTerminal | src/Katana.Server.HttpListenerWrapper/RequestLifetimeMonitor.cs:98-115 | from construction, any sequence of calls issues at most one terminal action, and exactly one iff some call reached the finalizer |
| LifetimeProperties.CancelledIffFirstEndRaises | src/Katana.Server.HttpListenerWrapper/RequestLifetimeMonitor.cs:56-91 | the token ends cancelled iff it already was, or the request was running and the first call that ends it is the timer, a failed close or End with an error; the success path never cancels |
| LifetimeProperties.TerminalOutcome | src/Katana.Server.HttpListenerWrapper/RequestLifetimeMonitor.cs:98-111 | for a running request the log contains Abort iff it completed after the response was claimed, and the 500 status iff it completed before any claim |
| HttpListenerWrapper.RequestLifetimeMonitor.constructor | src/Katana.Server.HttpListenerWrapper/RequestLifetimeMonitor.cs:27-34 | starts in RequestInProgress, token live, timer and source undisposed, nothing sent; invariant holds |
| HttpListenerWrapper.RequestLifetimeMonitor.TryStartResponse | src/Katana.Server.HttpListenerWrapper/RequestLifetimeMonitor.cs:44-47 | the compare-and-swap on the field: returns true iff the old state was RequestInProgress, moves it to ResponseInProgress then, changes nothing else; keeps the invariant |
| HttpListenerWrapper.RequestLifetimeMonitor.Cancel | src/Katana.Server.HttpListenerWrapper/RequestLifetimeMonitor.cs:49-53 | the timer callback takes the error path: ends in Completed, token cancelled iff it was or the request was still running; keeps the invariant |
| HttpListenerWrapper.RequestLifetimeMonitor.CompleteResponse | src/Katana.Server.HttpListenerWrapper/RequestLifetimeMonitor.cs:56-68 | performs exactly the CompleteResponse step on the fields: ends in Completed, never cancels when the close succeeds; keeps the invariant |
| HttpListenerWrapper.RequestLifetimeMonitor.End | src/Katana.Server.HttpListenerWrapper/RequestLifetimeMonitor.cs:70-92 | performs exactly the End(ex) step on the fields, ending in Completed; keeps the invariant when it held before |
| HttpListenerWrapper.RequestLifetimeMonitor.Finish | src/Katana.Server.HttpListenerWrapper/RequestLifetimeMonitor.cs:94-116 | performs exactly the End() step on the fields; proves the prior state is Completed in the last branch |
| HttpListenerWrapper.RequestLifetimeMonitor.Dispose | src/Katana.Server.HttpListenerWrapper/RequestLifetimeMonitor.cs:118-121 | runs the finalizer: ends in Completed with timer and source disposed; keeps the invariant |
| HttpListenerWrapper.RequestLifetimeMonitor.DisposeWith | src/Katana.Server.HttpListenerWrapper/RequestLifetimeMonitor.cs:123-129 | runs the finalizer when disposing, changes nothing otherwise; keeps the invariant |

## Findings

| source | as written | input that shows it | evidently intended | confidence | as-written member | corrected member |
|---|---|---|---|---|---|---|
| src/Katana.Server.HttpListenerWrapper/RequestLifetimeMonitor.cs:32-33 | the timer is armed with `this` before `requestState` is set to `RequestInProgress`, so the field still holds 0 | a time limit short enough that the callback runs between lines 32 and 33: `End()` sees prior state 0 and sends neither the 500 nor the abort, the `Contract.Requires` at line 114 fails, and line 33 then resets `Completed` to `RequestInProgress` with timer and token source already disposed | the state is `RequestInProgress` before any callback can run, so every timeout ends in exactly one terminal action | low (needs a near-zero time limit or an unlucky schedule); not executed | LifetimeSpec.ConstructArmingFirst, LifetimeProperties.EarlyTimeoutIsLost | LifetimeProperties.FreshIsValid |

## Left out

- Concurrency: the timer's thread, races between the timer and the handler, and the atomicity of
  `Interlocked.CompareExchange` and `Interlocked.Exchange`. Each operation is modelled as one
  atomic step, and the properties hold for every sequence of steps.
- HttpListenerWrapper.RequestLifetimeMonitor.constructor: construction is one atomic step that stores the state word
  before the timer can fire. The source arms the timer first (lines 32-33). That window is modelled
  only by `ConstructArmingFirst` and `EarlyTimeoutIsLost`, not by the class.
- The timeout itself (`TimeSpan timeLimit`, the timer's schedule). The timer callback is an
  operation that may come at any point. A disposed timer is not prevented from firing, since
  `Timer.Dispose` does not stop a callback already queued.
- The `HttpListenerContext` and its response object. The response is an abstract log of the calls
  issued on it: status code, content length, header clear, close, abort.
- The exceptions of the native response. A `HttpListenerException` from the first `Close` in
  `CompleteResponse` is the boolean input `closeFails`. The failed `Close` is still logged, as a
  call that was issued. Exceptions from the finalizer's own response calls are not modelled: the
  model treats those calls as succeeding. The `ObjectDisposedException` that the native response
  would raise when a status is set after `Close` is not modelled either.
- The `AggregateException` that `CancellationTokenSource.Cancel` can raise from registered
  callbacks. The token is cancelled either way and the exception is swallowed, so the model has
  nothing to show for it. Token callbacks are not modelled.
- The `Token` property (lines 36-42). It only reads the token source, and the model exposes the
  token's state as the field `cancelled`.
- The exception objects. `End(Exception)` takes `Option<Error>`: `None` stands for `null`, and
  `TimeoutError` and `ListenerError` stand for the two exceptions the class itself passes.
