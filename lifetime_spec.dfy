/** The request lifecycle of one accepted connection, as a value-level state machine.

    Each public operation of the lifetime monitor is one atomic step on a `Monitor`
    value; a run is any sequence of such steps, which stands in for any interleaving of
    the request handler and the timeout timer.  The class in request_lifetime_monitor.dfy
    is proved to perform exactly these steps. */
module LifetimeSpec {

  // The three values of the `requestState` field.
  const RequestInProgress: int := 1
  const ResponseInProgress: int := 2
  const Completed: int := 3

  /** A call issued on the native response object. */
  datatype Action =
    | SetStatusCode(code: int)
    | SetContentLength(length: int)
    | ClearHeaders
    | Close
    | Abort

  /** The errors that reach `End(Exception)`: the timer's timeout and a listener failure
      raised while closing the response. */
  datatype Error = TimeoutError | ListenerError

  datatype Option<T> = None | Some(value: T)

  /** Everything the monitor owns: the state field, the cancellation source (whether it is
      cancelled and whether it is disposed), the timer (whether it is disposed), and the
      calls issued so far on the response. */
  datatype Monitor = Monitor(
    requestState: int,
    cancelled: bool,
    ctsDisposed: bool,
    timerDisposed: bool,
    response: seq<Action>)

  /** The synthesized error response that `End()` sends when no response was started. */
  function ErrorResponse(): seq<Action> {
    [SetStatusCode(500), SetContentLength(0), ClearHeaders, Close]
  }

  /** A terminal action of the finalizer: the synthesized 500 or the forced abort. */
  predicate IsTerminal(a: Action) {
    a.SetStatusCode? || a.Abort?
  }

  /** Number of terminal actions in a response log. */
  function Terminals(log: seq<Action>): nat {
    if log == [] then 0 else (if IsTerminal(log[0]) then 1 else 0) + Terminals(log[1..])
  }

  /** The state just after construction: request in progress, token live, nothing disposed.
      The rest of the model builds the monitor in one step, as if the state word were stored
      before the timer is armed. */
  function Fresh(): Monitor {
    Monitor(RequestInProgress, false, false, false, [])
  }

  /** The constructor as written: the timer is armed while the state word still holds its
      default 0, and RequestInProgress is stored afterwards.  `timerFiresBetween` says whether
      the timer callback runs between the two steps. */
  function ConstructArmingFirst(timerFiresBetween: bool): (r: Monitor)
    ensures r.requestState == RequestInProgress
    ensures !timerFiresBetween ==> r == Fresh()
    ensures timerFiresBetween ==>
              r.cancelled && r.ctsDisposed && r.timerDisposed && r.response == []
  {
    var armed := Monitor(0, false, false, false, []);
    var afterCallback := if timerFiresBetween then EndWith(armed, Some(TimeoutError)) else armed;
    afterCallback.(requestState := RequestInProgress)
  }

  /** The invariant every reachable monitor keeps between operations. */
  predicate Valid(m: Monitor) {
    && RequestInProgress <= m.requestState <= Completed
    && m.ctsDisposed == (m.requestState == Completed)
    && m.timerDisposed == (m.requestState == Completed)
    && (m.cancelled ==> m.requestState == Completed)
    && (m.requestState != Completed ==> m.response == [])
    && Terminals(m.response) == (if m.requestState == Completed then 1 else 0)
  }

  /** `TryStartResponse`: compare-and-swap of the state from RequestInProgress to
      ResponseInProgress; returns whether the swap happened, with the new monitor. */
  function TryStartResponse(m: Monitor): (r: (bool, Monitor))
    ensures r.0 <==> m.requestState == RequestInProgress
    ensures r.0 ==> r.1 == m.(requestState := ResponseInProgress)
    ensures !r.0 ==> r.1 == m
  {
    var original := m.requestState;
    if original == RequestInProgress then (true, m.(requestState := ResponseInProgress))
    else (false, m)
  }

  /** The private finalizer `End()`: dispose the timer and the token source, swap the state
      to Completed and act on the prior state. */
  function Finish(m: Monitor): (r: Monitor)
    ensures r.requestState == Completed && r.ctsDisposed && r.timerDisposed
    ensures r.cancelled == m.cancelled
    ensures m.requestState == RequestInProgress ==> r.response == m.response + ErrorResponse()
    ensures m.requestState == ResponseInProgress ==> r.response == m.response + [Abort]
    ensures m.requestState != RequestInProgress && m.requestState != ResponseInProgress ==>
              r.response == m.response
  {
    var disposed := m.(timerDisposed := true, ctsDisposed := true);
    var priorState := disposed.requestState;
    var swapped := disposed.(requestState := Completed);
    if priorState == RequestInProgress then
      swapped.(response := swapped.response + [SetStatusCode(500), SetContentLength(0), ClearHeaders, Close])
    else if priorState == ResponseInProgress then
      swapped.(response := swapped.response + [Abort])
    else
      swapped
  }

  /** `End(Exception)`: on an error, cancel the token (a disposed source swallows the
      cancel), then finalize. */
  function EndWith(m: Monitor, ex: Option<Error>): (r: Monitor)
    ensures r.requestState == Completed && r.ctsDisposed && r.timerDisposed
    ensures r.cancelled <==> m.cancelled || (ex.Some? && !m.ctsDisposed)
    ensures r.response == Finish(m).response
  {
    var signalled := if ex.Some? && !m.ctsDisposed then m.(cancelled := true) else m;
    Finish(signalled)
  }

  /** `CompleteResponse`: close the response, then `End(null)`; when the close throws a
      listener exception, `End(ex)` instead.  There is no guard on the state. */
  function CompleteResponse(m: Monitor, closeFails: bool): (r: Monitor)
    ensures r.requestState == Completed && r.ctsDisposed && r.timerDisposed
    ensures r.cancelled <==> m.cancelled || (closeFails && !m.ctsDisposed)
    ensures m.requestState == RequestInProgress ==> r.response == m.response + [Close] + ErrorResponse()
    ensures m.requestState == ResponseInProgress ==> r.response == m.response + [Close, Abort]
    ensures m.requestState != RequestInProgress && m.requestState != ResponseInProgress ==>
              r.response == m.response + [Close]
  {
    var closed := m.(response := m.response + [Close]);
    if closeFails then EndWith(closed, Some(ListenerError)) else EndWith(closed, None)
  }

  /** One call on the monitor, from the handler, the timer or the host. */
  datatype Op =
    | StartResponse                  // TryStartResponse()
    | TimerFires                     // the timer callback Cancel(state)
    | Complete(closeFails: bool)     // CompleteResponse()
    | EndRequest(ex: Option<Error>)  // End(Exception)
    | Dispose                        // Dispose()
    | DisposeWith(disposing: bool)   // Dispose(bool)

  /** The effect of one call on the monitor. */
  function Apply(m: Monitor, op: Op): Monitor {
    match op
    case StartResponse => TryStartResponse(m).1
    case TimerFires => EndWith(m, Some(TimeoutError))
    case Complete(closeFails) => CompleteResponse(m, closeFails)
    case EndRequest(ex) => EndWith(m, ex)
    case Dispose => Finish(m)
    case DisposeWith(disposing) => if disposing then Finish(m) else m
  }

  /** Whether the call is a `TryStartResponse` that returns true. */
  predicate Claims(m: Monitor, op: Op) {
    op.StartResponse? && TryStartResponse(m).0
  }

  /** Whether the call reaches the finalizer `End()`. */
  predicate Finalizes(op: Op) {
    op.TimerFires? || op.Complete? || op.EndRequest? || op.Dispose? || (op.DisposeWith? && op.disposing)
  }

  /** Whether the call reaches the finalizer through `End(ex)` with a non-null `ex`. */
  predicate RaisesError(op: Op) {
    op.TimerFires? || (op.Complete? && op.closeFails) || (op.EndRequest? && op.ex.Some?)
  }

  /** The monitor after a sequence of calls. */
  function Run(m: Monitor, ops: seq<Op>): Monitor
    decreases |ops|
  {
    if ops == [] then m else Run(Apply(m, ops[0]), ops[1..])
  }

  /** How many calls of the sequence are `TryStartResponse` calls that return true. */
  function ClaimCount(m: Monitor, ops: seq<Op>): nat
    decreases |ops|
  {
    if ops == [] then 0
    else (if Claims(m, ops[0]) then 1 else 0) + ClaimCount(Apply(m, ops[0]), ops[1..])
  }

  /** Whether some `TryStartResponse` comes before the first call that finalizes. */
  predicate StartBeforeEnd(ops: seq<Op>)
    decreases |ops|
  {
    ops != [] && !Finalizes(ops[0]) && (ops[0].StartResponse? || StartBeforeEnd(ops[1..]))
  }

  /** Whether the first call that finalizes takes the error path. */
  predicate FirstEndRaises(ops: seq<Op>)
    decreases |ops|
  {
    ops != [] && (if Finalizes(ops[0]) then RaisesError(ops[0]) else FirstEndRaises(ops[1..]))
  }
}
