/** What the lifetime monitor promises over any sequence of calls: at most one successful
    claim of the response, a terminal Completed state that absorbs, exactly one terminal
    action once the request has ended, and cancellation exactly when the first call that
    ends the request takes the error path. */
module LifetimeProperties {
  import opened LifetimeSpec

  lemma {:induction false} TerminalsAppend(a: seq<Action>, b: seq<Action>)
    ensures Terminals(a + b) == Terminals(a) + Terminals(b)
  {
    if a != [] {
      assert (a + b)[1..] == a[1..] + b;
      TerminalsAppend(a[1..], b);
    } else {
      assert a + b == b;
    }
  }

  lemma TerminalsOfErrorResponse()
    ensures Terminals(ErrorResponse()) == 1
  {
  }

  /** A fresh monitor satisfies the invariant. */
  lemma FreshIsValid()
    ensures Valid(Fresh())
    ensures Fresh().requestState == RequestInProgress
    ensures !Fresh().cancelled && !Fresh().ctsDisposed && !Fresh().timerDisposed
    ensures Fresh().response == []
  {
  }

  /** The constructor as written loses a timeout that fires before the state word is set:
      the finalizer sees prior state 0, so neither the 500 nor the abort is sent; the state
      word then goes from Completed back to RequestInProgress, the invariant is broken, and
      a later claim succeeds on a monitor whose timer and token source are already disposed. */
  lemma EarlyTimeoutIsLost()
    ensures Finish(Monitor(0, false, false, false, [])).response == []
    ensures EndWith(Monitor(0, false, false, false, []), Some(TimeoutError)).requestState == Completed
    ensures !Valid(ConstructArmingFirst(true))
    ensures TryStartResponse(ConstructArmingFirst(true)).0
    ensures Run(ConstructArmingFirst(true), [StartResponse]).timerDisposed
  {
  }

  /** Every call keeps the invariant. */
  lemma ApplyPreservesValid(m: Monitor, op: Op)
    requires Valid(m)
    ensures Valid(Apply(m, op))
  {
    TerminalsOfErrorResponse();
    assert Terminals([Abort]) == 1;
    if m.requestState == Completed {
      // Only CompleteResponse changes anything here: it appends one Close.
      TerminalsAppend(m.response, [Close]);
      assert Terminals([Close]) == 0;
    } else {
      assert m.response == [];
      assert [] + ErrorResponse() == ErrorResponse();
      assert [] + [Abort] == [Abort];
      assert [] + [Close] + ErrorResponse() == [Close] + ErrorResponse();
      TerminalsAppend([Close], ErrorResponse());
      TerminalsAppend([Close], [Abort]);
    }
  }

  /** Every sequence of calls keeps the invariant. */
  lemma {:induction false} RunPreservesValid(m: Monitor, ops: seq<Op>)
    requires Valid(m)
    ensures Valid(Run(m, ops))
    decreases |ops|
  {
    if ops != [] {
      ApplyPreservesValid(m, ops[0]);
      RunPreservesValid(Apply(m, ops[0]), ops[1..]);
    }
  }

  /** `TryStartResponse` returns true at most once over any sequence of calls: exactly once
      when the request was still in progress and a claim comes before the first call that
      ends the request, never otherwise, and never once the state is Completed. */
  lemma {:induction false} ClaimAtMostOnce(m: Monitor, ops: seq<Op>)
    ensures ClaimCount(m, ops) ==
              (if m.requestState == RequestInProgress && StartBeforeEnd(ops) then 1 else 0)
    ensures ClaimCount(m, ops) <= 1
    ensures m.requestState == Completed ==> ClaimCount(m, ops) == 0
    decreases |ops|
  {
    if ops != [] {
      ClaimAtMostOnce(Apply(m, ops[0]), ops[1..]);
    }
  }

  /** Completed absorbs: once the state is Completed, no call leaves it, the token does not
      change, nothing is claimed, and the only further response calls are the unguarded
      `Close` calls of `CompleteResponse`, so no further terminal action is issued. */
  lemma {:induction false} CompletedAbsorbs(m: Monitor, ops: seq<Op>)
    requires Valid(m) && m.requestState == Completed
    ensures Run(m, ops).requestState == Completed
    ensures Run(m, ops).cancelled == m.cancelled
    ensures Run(m, ops).ctsDisposed && Run(m, ops).timerDisposed
    ensures |m.response| <= |Run(m, ops).response|
    ensures Run(m, ops).response[..|m.response|] == m.response
    ensures forall i :: |m.response| <= i < |Run(m, ops).response| ==> Run(m, ops).response[i] == Close
    ensures Terminals(Run(m, ops).response) == Terminals(m.response)
    decreases |ops|
  {
    if ops != [] {
      var n := Apply(m, ops[0]);
      ApplyPreservesValid(m, ops[0]);
      CompletedAbsorbs(n, ops[1..]);
      var r := Run(n, ops[1..]);
      assert r == Run(m, ops);
      assert n.response == m.response || n.response == m.response + [Close];
      assert r.response[..|n.response|] == n.response;
      assert r.response[..|m.response|] == n.response[..|m.response|];
    }
  }

  /** A second `End()`, or an `End(ex)` after completion, changes nothing: the state, the
      token and the response are as they were, and disposing again is harmless. */
  lemma SecondEndIsNoop(m: Monitor, ex: Option<Error>)
    requires Valid(m) && m.requestState == Completed
    ensures Finish(m) == m
    ensures EndWith(m, ex) == m
    ensures Finish(Finish(m)) == Finish(m)
  {
  }

  /** The monitor reaches Completed exactly when some call of the sequence finalizes (or it
      was already Completed). */
  lemma {:induction false} CompletedIffFinalized(m: Monitor, ops: seq<Op>)
    ensures Run(m, ops).requestState == Completed <==>
              m.requestState == Completed || exists i :: 0 <= i < |ops| && Finalizes(ops[i])
    decreases |ops|
  {
    if ops != [] {
      var n := Apply(m, ops[0]);
      CompletedIffFinalized(n, ops[1..]);
      if n.requestState == Completed {
        if !Finalizes(ops[0]) {
          assert m.requestState == Completed;
        }
      } else {
        assert !Finalizes(ops[0]);
        assert (exists i :: 0 <= i < |ops| && Finalizes(ops[i])) <==>
               (exists j :: 0 <= j < |ops[1..]| && Finalizes(ops[1..][j])) by {
          forall i | 0 <= i < |ops| && Finalizes(ops[i])
            ensures 0 <= i - 1 < |ops[1..]| && Finalizes(ops[1..][i - 1])
          {
            assert i != 0;
          }
          forall j | 0 <= j < |ops[1..]| && Finalizes(ops[1..][j])
            ensures Finalizes(ops[j + 1])
          {
          }
        }
      }
    }
  }

  /** Exactly one terminal action: from any reachable monitor, the response log holds one
      terminal action (the synthesized 500 or the abort) once the request has ended, and
      none before. */
  lemma ExactlyOneTerminal(ops: seq<Op>)
    ensures Terminals(Run(Fresh(), ops).response) <= 1
    ensures Terminals(Run(Fresh(), ops).response) == 1 <==> exists i :: 0 <= i < |ops| && Finalizes(ops[i])
  {
    RunPreservesValid(Fresh(), ops);
    CompletedIffFinalized(Fresh(), ops);
  }

  /** The token ends up cancelled exactly when it already was, or when the request had not
      ended and the first call that ends it takes the error path (timeout, failed close, or
      `End(ex)` with an error).  In particular the success path never cancels. */
  lemma {:induction false} CancelledIffFirstEndRaises(m: Monitor, ops: seq<Op>)
    requires Valid(m)
    ensures Run(m, ops).cancelled <==>
              m.cancelled || (m.requestState != Completed && FirstEndRaises(ops))
    decreases |ops|
  {
    if ops != [] {
      var n := Apply(m, ops[0]);
      ApplyPreservesValid(m, ops[0]);
      if Finalizes(ops[0]) {
        CompletedAbsorbs(n, ops[1..]);
      } else {
        CancelledIffFirstEndRaises(n, ops[1..]);
      }
    }
  }

  /** Appending only `Close` calls adds no action other than `Close`. */
  lemma ClosesAddNothingElse(p: seq<Action>, s: seq<Action>, a: Action)
    requires |p| <= |s| && s[..|p|] == p
    requires forall i :: |p| <= i < |s| ==> s[i] == Close
    requires a != Close
    ensures a in s <==> a in p
  {
  }

  /** Which terminal action a request gets: the abort when the response had been claimed
      before the request ended, the synthesized 500 otherwise; neither while it is running. */
  lemma {:induction false} TerminalOutcome(m: Monitor, ops: seq<Op>)
    requires Valid(m) && m.requestState != Completed
    ensures Abort in Run(m, ops).response <==>
              Run(m, ops).requestState == Completed &&
              (m.requestState == ResponseInProgress || StartBeforeEnd(ops))
    ensures SetStatusCode(500) in Run(m, ops).response <==>
              Run(m, ops).requestState == Completed &&
              !(m.requestState == ResponseInProgress || StartBeforeEnd(ops))
    decreases |ops|
  {
    if ops != [] {
      var n := Apply(m, ops[0]);
      ApplyPreservesValid(m, ops[0]);
      if Finalizes(ops[0]) {
        CompletedAbsorbs(n, ops[1..]);
        var r := Run(n, ops[1..]);
        assert r == Run(m, ops);
        ClosesAddNothingElse(n.response, r.response, Abort);
        ClosesAddNothingElse(n.response, r.response, SetStatusCode(500));
        assert m.response == [];
        if m.requestState == RequestInProgress {
          assert n.response == [Close] + ErrorResponse() || n.response == ErrorResponse();
          assert n.response[|n.response| - 4] == SetStatusCode(500);
        } else {
          assert n.response == [Close, Abort] || n.response == [Abort];
          assert n.response[|n.response| - 1] == Abort;
        }
      } else {
        TerminalOutcome(n, ops[1..]);
      }
    }
  }
}
