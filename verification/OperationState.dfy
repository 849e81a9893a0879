/**
 The operation state as the object it is: a counter, an optional holding the stop callback, the
 event, and the receiver. Its methods are the program's own, each from beginning to end with
 nobody in between, and each such stretch is one of the runs that the transition system allows.
 */
module OperationState {
  import opened Operations
  import opened Protocol
  import opened Stretches

  class CpoState {
    const kind: Kind
    var outstanding: int
    var stopRequested: bool  // what the stop token says
    var engaged: bool        // the optional holding the callback has a value
    var extra: bool          // the operation owns its event
    var armed: bool          // the event is pending
    var signals: seq<Signal> // what the receiver got

    /** The state of the transition system when the parties have come this far. */
    function View(starter: StarterPc, callback: CallbackPc, loop: LoopPc): State
      reads this
    {
      State(kind, outstanding, stopRequested, engaged, extra, armed, starter, callback, loop, [], signals)
    }

    constructor (kind: Kind)
      ensures View(Upstream, Unregistered, Idle) == Init(kind)
    {
      this.kind := kind;
      outstanding, stopRequested, engaged, extra, armed, signals := 0, false, false, false, false, [];
    }

    /** `_Complete`: it destroys the callback, and sends a value only if it is the last to let go. */
    method Complete()
      modifies `outstanding, `engaged, `signals
      ensures outstanding == old(outstanding) - 1 && !engaged
      ensures signals == old(signals) + if outstanding == 0 then [SetValue] else []
    {
      engaged := false;
      outstanding := outstanding - 1;
      if 0 == outstanding {
        signals := signals + [SetValue];
      }
    }

    /** `_Error`, likewise. */
    method Error()
      modifies `outstanding, `engaged, `signals
      ensures outstanding == old(outstanding) - 1 && !engaged
      ensures signals == old(signals) + if outstanding == 0 then [SetError] else []
    {
      engaged := false;
      outstanding := outstanding - 1;
      if 0 == outstanding {
        signals := signals + [SetError];
      }
    }

    /** `_Cancel` of the operation and, with the same effect, of the callback object. */
    method Cancel()
      modifies `outstanding, `signals
      ensures outstanding == old(outstanding) - 1
      ensures signals == old(signals) + if outstanding == 0 then [SetStopped] else []
    {
      outstanding := outstanding - 1;
      if 0 == outstanding {
        signals := signals + [SetStopped];
      }
    }

    /**
     The stop callback, wherever the starter and the loop are. Its guard holds, it deletes the
     event, only the second of its two releases reaches zero, and stopped is all it can send.
     */
    method StopCallback(ghost starter: StarterPc, ghost loop: LoopPc) returns (ghost steps: seq<Step>)
      requires Inv(View(starter, CountCancel, loop))
      modifies `outstanding, `armed, `signals
      ensures old(outstanding) == 1 && outstanding == 0 && !armed
      ensures old(signals) == [] && signals == [SetStopped]
      ensures Run(old(View(starter, CountCancel, loop)), steps, View(starter, Ran, loop))
    {
      CallbackFinds(View(starter, CountCancel, loop));
      hide Run, Inv;
      steps := CallbackStretch(View(starter, CountCancel, loop));
      outstanding := outstanding + 1;
      if 1 < outstanding {
        if extra {
          armed := false;
        }
        Cancel();
        Cancel();
      }
    }

    /** `_Submit`. True means that the operation waits for its event. */
    method Submit(answers: SubmitAnswers, addOk: bool) returns (queued: bool)
      modifies `outstanding, `engaged, `extra, `armed, `signals
      ensures match Operations.Submit(kind, answers)
        case Finished(how) =>
          && !queued && outstanding == old(outstanding) - 1 && !engaged
          && signals == old(signals) + (if outstanding == 0 then [SignalOf(how)] else [])
          && extra == old(extra) && armed == old(armed)
        case Prepared =>
          && queued && extra && armed == addOk
          && outstanding == old(outstanding) && engaged == old(engaged) && signals == old(signals)
    {
      match Operations.Submit(kind, answers) {
        case Finished(Value) =>
          Complete();
          return false;
        case Finished(Error) =>
          Error();
          return false;
        case Prepared =>
          extra, armed := true, addOk;
          return true;
      }
    }

    /**
     `_Start`. Stopped before the start, it answers set_stopped at once and lets go once too often;
     finished by its submit, it answers how the submit finished, not the set_value of its own
     second completion; otherwise it leaves the operation to the event. The parties are left at
     `path` and `callback`.
     */
    method Start(answers: SubmitAnswers, addOk: bool)
      returns (ghost path: Path, ghost callback: CallbackPc, ghost steps: seq<Step>)
      requires View(Upstream, Unregistered, Idle) == Init(kind).(stopRequested := stopRequested)
      modifies this
      ensures stopRequested == old(stopRequested)
      ensures if stopRequested then
                signals == [SetStopped] && outstanding == -1 && !engaged && path == StopSeen && callback == Ran
              else match Operations.Submit(kind, answers)
                case Finished(how) =>
                  && signals == [SignalOf(how)] && outstanding == -1 && !engaged
                  && path == Synchronous(how) && callback == Deregistered
                case Prepared =>
                  && signals == [] && outstanding == 1 && engaged && extra && armed == addOk
                  && path == (if addOk then Armed else AddIgnored) && callback == Registered
      // what is sent without a stop request, from the answers that the submit got
      ensures signals == [SetValue] <==>
        && !stopRequested
        && ((kind == Connect && answers.fcntlOk && answers.connect == Connected) || (kind == ResumeAt && answers.due))
      ensures signals == [SetError] <==>
        && !stopRequested
        && ((kind == Connect && (!answers.fcntlOk || answers.connect == Refused))
            || (!answers.eventNew
                && (kind == Connect ==> answers.connect in {InProgress, Interrupted})
                && (kind == ResumeAt ==> !answers.due)))
      ensures Run(old(View(CountStart, Unregistered, Idle)), steps, View(Left(path), callback, Idle))
    {
      SubmitSucceedsExactly(kind, answers);
      SubmitFailsExactly(kind, answers);
      hide Operations.Submit, Run;
      outstanding := outstanding + 1;
      if stopRequested {
        steps := StopCallback(AwaitInline, Idle);
      }
      engaged := true;
      if stopRequested {
        engaged := false;
        Cancel();
        path, callback := StopSeen, Ran;
        steps := StoppedStretch(kind, answers, addOk);
        return;
      }
      ghost var rest;
      ghost var begin := UpToSubmit(kind, answers, addOk);
      var queued := Submit(answers, addOk);
      if !queued {
        Complete();
        ghost var how := Operations.Submit(kind, answers).how;
        path, callback := Synchronous(how), Deregistered;
        rest := FinishedStretch(kind, answers, addOk, how);
        assert signals == [SignalOf(how)];
      } else {
        path, callback := if addOk then Armed else AddIgnored, Registered;
        rest := ArmedStretch(AtReadStop(kind).(starter := CallSubmit), answers, addOk);
        assert View(Left(path), callback, Idle) ==
          AtReadStop(kind).(starter := Left(path), extra := true, armed := addOk);
      }
      ghost var end := View(Left(path), callback, Idle);
      steps := begin + rest;
      RunsJoin(Init(kind).(starter := CountStart), begin, AtReadStop(kind).(starter := CallSubmit), rest, end);
    }

    /**
     The event loop calls the handler of the armed operation, before the stop callback or after it
     ran. It completes with what the first answer that is no interruption makes of it, which sends a
     signal exactly if the callback has not sent its own. After a call that would block the operation
     keeps its callback and its count, and nothing is armed any more.
     */
    method HandleEvent(answers: seq<CallAnswer>, ghost before: CallbackPc)
      returns (outcome: WorkOutcome, used: nat, ghost after: CallbackPc, ghost loop: LoopPc, ghost steps: seq<Step>)
      requires before in {Registered, Ran}
      requires Inv(View(Left(Armed), before, Idle)) && armed && |answers| > 0
      modifies `outstanding, `engaged, `armed, `signals
      ensures 0 < used <= |answers| && outcome == WorkRound(kind, answers[used - 1]) && !armed
      ensures forall i :: 0 <= i < used - 1 ==> answers[i] == Failed(EINTR)
      ensures if before == Registered then old(outstanding) == 1 && old(signals) == []
              else old(outstanding) == 0 && old(signals) == [SetStopped]
      ensures match outcome
        case Finishes(how) =>
          && outstanding == old(outstanding) - 1 && !engaged && loop == Completed(how)
          && signals == (if before == Registered then [SignalOf(how)] else [SetStopped])
          && after == (if before == Registered then Deregistered else Ran)
        case Retries =>
          && outstanding == old(outstanding) && engaged && signals == old(signals) && after == before && loop == Working
        case GivesUp =>
          && outstanding == old(outstanding) && engaged && signals == old(signals) && after == before && loop == GaveUp
      // what is sent, from the kind of the operation and the answer that decided
      ensures signals == [SetValue] <==>
        && before == Registered
        && (|| kind in {ResumeAfter, ResumeAt}
            || (kind == Connect && answers[used - 1] == Returned(0))
            || (kind in {Accept, Receive, Send} && answers[used - 1].Returned?)
            || (kind in {Receive, Send} && answers[used - 1] in {Failed(ECONNRESET), Failed(EPIPE)}))
      ensures signals == [SetError] <==>
        && before == Registered
        && (|| (kind == Connect && answers[used - 1] != Returned(0))
            || (kind == Accept && answers[used - 1].Failed? && answers[used - 1].errno !in {EINTR, EWOULDBLOCK})
            || (kind in {Receive, Send} && answers[used - 1].Failed?
                && answers[used - 1].errno !in {EINTR, EWOULDBLOCK, ECONNRESET, EPIPE}))
      ensures Run(old(View(Left(Armed), before, Idle)), steps, View(Left(Armed), after, loop))
    {
      ghost var s := View(Left(Armed), before, Idle);
      HandlerFinds(s);
      hide WorkRound, Run, Inv;
      armed := false;
      outcome, used := Work(kind, answers);
      steps := WholeHandlerStretch(s, answers, used);
      HandlerSucceedsExactly(kind, answers[used - 1]);
      HandlerFailsExactly(kind, answers[used - 1]);
      after := HandlerEnd(s, answers[used - 1]).callback;
      loop := HandlerEnd(s, answers[used - 1]).loop;
      match outcome {
        case Finishes(Value) => Complete();
        case Finishes(Error) => Error();
        case Retries =>
        case GivesUp =>
      }
    }
  }
}
