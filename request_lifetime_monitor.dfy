/** The lifetime monitor of one accepted connection, as an object whose methods update its
    fields in place.  Each method is one atomic step; its postcondition ties the new state
    to the matching step of the state machine in LifetimeSpec, whose properties over any
    sequence of calls are proved in LifetimeProperties. */
module HttpListenerWrapper {
  import opened LifetimeSpec
  import LifetimeProperties

  class RequestLifetimeMonitor {
    // The state word updated with compare-exchange and exchange: 1, 2 or 3.
    var requestState: int
    // The cancellation token source: whether it was cancelled and whether it was disposed.
    var cancelled: bool
    var ctsDisposed: bool
    // The one-shot timeout timer: whether it was disposed.
    var timerDisposed: bool
    // The calls issued on the native response object, in order.
    ghost var response: seq<Action>

    ghost function Snapshot(): Monitor
      reads this
    {
      Monitor(requestState, cancelled, ctsDisposed, timerDisposed, response)
    }

    ghost predicate Valid()
      reads this
    {
      LifetimeSpec.Valid(Snapshot())
    }

    /** Creates the token source, stores RequestInProgress and arms the timer, in one step;
        storing the state before arming the timer is what keeps an early timeout from being
        lost (see LifetimeProperties.EarlyTimeoutIsLost for the other order). */
    constructor ()
      ensures Valid()
      ensures Snapshot() == Fresh()
      ensures requestState == RequestInProgress && !cancelled && !ctsDisposed && !timerDisposed
      ensures response == []
    {
      cancelled := false;
      ctsDisposed := false;
      requestState := RequestInProgress;
      timerDisposed := false;
      response := [];
      LifetimeProperties.FreshIsValid();
    }

    /** Claims the response: succeeds only from RequestInProgress, which it leaves for
        ResponseInProgress; otherwise nothing changes. */
    method TryStartResponse() returns (started: bool)
      requires Valid()
      modifies this
      ensures Valid()
      ensures started <==> old(requestState) == RequestInProgress
      ensures requestState == (if started then ResponseInProgress else old(requestState))
      ensures cancelled == old(cancelled) && ctsDisposed == old(ctsDisposed)
      ensures timerDisposed == old(timerDisposed) && response == old(response)
      ensures (started, Snapshot()) == LifetimeSpec.TryStartResponse(old(Snapshot()))
    {
      // One compare-exchange of ResponseInProgress for RequestInProgress.
      var original := requestState;
      if original == RequestInProgress {
        requestState := ResponseInProgress;
      }
      started := original == RequestInProgress;
    }

    /** The timer callback: ends the request with a timeout error. */
    method Cancel()
      requires Valid()
      modifies this
      ensures Valid()
      ensures Snapshot() == Apply(old(Snapshot()), TimerFires)
      ensures requestState == Completed
      ensures cancelled <==> old(requestState) != Completed || old(cancelled)
    {
      End(Some(TimeoutError));
    }

    /** Closes the response and ends the request; a close that throws a listener exception
        (`closeFails`) ends it with that error instead. */
    method CompleteResponse(closeFails: bool)
      requires Valid()
      modifies this
      ensures Valid()
      ensures Snapshot() == LifetimeSpec.CompleteResponse(old(Snapshot()), closeFails)
      ensures requestState == Completed
      ensures !closeFails ==> cancelled == old(cancelled)
    {
      response := response + [Close];
      if !closeFails {
        End(None);
      } else {
        End(Some(ListenerError));
      }
      LifetimeProperties.ApplyPreservesValid(old(Snapshot()), Complete(closeFails));
    }

    /** Ends the request; with an error, first cancels the token, where a disposed token
        source swallows the cancel. */
    method End(ex: Option<Error>)
      requires RequestInProgress <= requestState <= Completed
      modifies this
      ensures old(Valid()) ==> Valid()
      ensures Snapshot() == EndWith(old(Snapshot()), ex)
      ensures requestState == Completed
    {
      if ex.Some? {
        if !ctsDisposed {
          cancelled := true;
        }
      }
      Finish();
      if old(Valid()) {
        LifetimeProperties.ApplyPreservesValid(old(Snapshot()), EndRequest(ex));
      }
    }

    /** The finalizer: disposes the timer and the token source, swaps the state to
        Completed and acts on the prior state. */
    method Finish()
      requires RequestInProgress <= requestState <= Completed
      modifies this
      ensures Snapshot() == LifetimeSpec.Finish(old(Snapshot()))
      ensures old(Valid()) ==> Valid()
    {
      timerDisposed := true;
      ctsDisposed := true;
      // One exchange of Completed into the state word.
      var priorState := requestState;
      requestState := Completed;
      if priorState == RequestInProgress {
        response := response + [SetStatusCode(500)];
        response := response + [SetContentLength(0)];
        response := response + [ClearHeaders];
        response := response + [Close];
      } else if priorState == ResponseInProgress {
        response := response + [Abort];
      } else {
        // The runtime contract on the remaining case is a proof obligation here.
        assert priorState == Completed;
      }
      if old(Valid()) {
        LifetimeProperties.ApplyPreservesValid(old(Snapshot()), Op.Dispose);
      }
    }

    method Dispose()
      requires Valid()
      modifies this
      ensures Valid()
      ensures Snapshot() == LifetimeSpec.Finish(old(Snapshot()))
      ensures requestState == Completed && ctsDisposed && timerDisposed
    {
      DisposeWith(true);
    }

    method DisposeWith(disposing: bool)
      requires Valid()
      modifies this
      ensures Valid()
      ensures Snapshot() == Apply(old(Snapshot()), Op.DisposeWith(disposing))
      ensures !disposing ==> Snapshot() == old(Snapshot())
    {
      if disposing {
        Finish();
      }
    }
  }

  /** The race the monitor exists for: the handler claims the response, the timer fires
      while it is writing, and the handler's own completion comes last. */
  method TimeoutWhileResponding() {
    var monitor := new RequestLifetimeMonitor();
    var started := monitor.TryStartResponse();
    assert started;
    monitor.Cancel();
    assert monitor.cancelled && monitor.response == [Abort];
    var again := monitor.TryStartResponse();
    assert !again;
    monitor.CompleteResponse(false);
    assert monitor.response == [Abort, Close];
    assert monitor.requestState == Completed && monitor.cancelled;
  }
}
