/**
 Which signal an operation ends with, from the answers that its system calls got: for every
 interleaving, and in terms of what the environment answered only.
 */
module Outcomes {
  import opened Operations
  import opened Protocol
  import opened ProtocolRuns

  /** The submit in this run got these answers. */
  ghost predicate Submitted(s: State, steps: seq<Step>, answers: SubmitAnswers)
    decreases |steps|
  {
    && steps != [] && Enabled(s, steps[0])
    && (|| (s.starter == CallSubmit && steps[0].StarterStep? && steps[0].answers == answers)
        || Submitted(Next(s, steps[0]), steps[1..], answers))
  }

  /** A call of the handler in this run got this answer. */
  ghost predicate Called(s: State, steps: seq<Step>, answer: CallAnswer)
    decreases |steps|
  {
    && steps != [] && Enabled(s, steps[0])
    && (|| (s.loop == Working && steps[0] == LoopStep(answer))
        || Called(Next(s, steps[0]), steps[1..], answer))
  }

  /** How the submit finished the operation, once it has. */
  function SubmitHow(pc: StarterPc): seq<Completion> {
    match pc
    case FirstReset(how) => [how]
    case FirstDecrement(how) => [how]
    case SecondReset(how) => [how]
    case SecondDecrement(how) => [how]
    case Left(Synchronous(how)) => [how]
    case _ => []
  }

  /** How the handler finished the operation, once it has. */
  function LoopHow(pc: LoopPc): seq<Completion> {
    match pc
    case Reset(how) => [how]
    case Decrement(how) => [how]
    case Completed(how) => [how]
    case _ => []
  }

  lemma SubmitHowAfter(s: State, step: Step)
    requires Enabled(s, step)
    ensures SubmitHow(Next(s, step).starter) ==
      if s.starter == CallSubmit && step.StarterStep? then
        match Submit(s.kind, step.answers) case Finished(how) => [how] case Prepared => []
      else SubmitHow(s.starter)
  {
    hide Submit, WorkRound;
    match step
    case StarterStep(answers, addOk) => SubmitHowAfterStart(s, answers, addOk);
    case CallbackStep => CallbackLeavesOthers(s);
    case LoopStep(answer) => LoopLeavesStarter(s, answer);
    case _ =>
  }

  lemma SubmitHowAfterStart(s: State, answers: SubmitAnswers, addOk: bool)
    requires StarterEnabled(s)
    ensures SubmitHow(NextStarter(s, answers, addOk).starter) ==
      if s.starter == CallSubmit then
        match Submit(s.kind, answers) case Finished(how) => [how] case Prepared => []
      else SubmitHow(s.starter)
  {
    hide Submit, ResetCallback, Release, MayReset;
  }

  lemma StarterLeavesLoop(s: State, answers: SubmitAnswers, addOk: bool)
    requires StarterEnabled(s)
    ensures NextStarter(s, answers, addOk).loop == s.loop
  {
    hide Submit, MayReset;
  }

  lemma CallbackLeavesOthers(s: State)
    requires CallbackRuns(s)
    ensures NextCallback(s).starter == s.starter && NextCallback(s).loop == s.loop
  {
  }

  lemma LoopLeavesStarter(s: State, answer: CallAnswer)
    requires LoopEnabled(s)
    ensures NextLoop(s, answer).starter == s.starter
  {
    hide WorkRound;
  }

  lemma LoopHowAfter(s: State, step: Step)
    requires Enabled(s, step)
    ensures LoopHow(Next(s, step).loop) ==
      if s.loop == Working && step.LoopStep? then
        match WorkRound(s.kind, step.answer) case Finishes(how) => [how] case Retries => [] case GivesUp => []
      else LoopHow(s.loop)
  {
    hide WorkRound, Submit;
    match step
    case StarterStep(answers, addOk) => StarterLeavesLoop(s, answers, addOk);
    case CallbackStep => CallbackLeavesOthers(s);
    case LoopStep(answer) =>
    case _ =>
  }

  /** Nothing calls the submit after it has finished the operation. */
  lemma {:induction false} SubmitHowStays(s: State, steps: seq<Step>, t: State)
    requires Run(s, steps, t) && SubmitHow(s.starter) != []
    ensures SubmitHow(t.starter) == SubmitHow(s.starter)
    decreases |steps|
  {
    hide Enabled, Next;
    if steps != [] {
      SubmitHowAfter(s, steps[0]);
      SubmitHowStays(Next(s, steps[0]), steps[1..], t);
    }
  }

  lemma {:induction false} LoopHowStays(s: State, steps: seq<Step>, t: State)
    requires Run(s, steps, t) && LoopHow(s.loop) != []
    ensures LoopHow(t.loop) == LoopHow(s.loop)
    decreases |steps|
  {
    hide Enabled, Next;
    if steps != [] {
      LoopHowAfter(s, steps[0]);
      LoopHowStays(Next(s, steps[0]), steps[1..], t);
    }
  }

  /** The submit finished the operation in a way exactly if it got answers that finish it so. */
  lemma {:induction false} SubmitHowIff(s: State, steps: seq<Step>, t: State, how: Completion)
    requires Run(s, steps, t) && SubmitHow(s.starter) == []
    ensures SubmitHow(t.starter) == [how] <==>
      exists a :: Submitted(s, steps, a) && Submit(s.kind, a) == Finished(how)
    decreases |steps|
  {
    hide Enabled, Next, Submit;
    if steps != [] {
      var step, next := steps[0], Next(s, steps[0]);
      SubmitHowAfter(s, step);
      StepKeepsKind(s, step);
      if SubmitHow(next.starter) == [] {
        SubmitHowIff(next, steps[1..], t, how);
        forall a ensures Submitted(s, steps, a) && Submit(s.kind, a) == Finished(how) <==>
                         Submitted(next, steps[1..], a) && Submit(s.kind, a) == Finished(how) {
        }
      } else {
        SubmitHowStays(next, steps[1..], t);
        forall a | Submitted(s, steps, a) ensures a == step.answers {
          SubmittedOnce(next, steps[1..], a);
        }
        assert Submitted(s, steps, step.answers);
      }
    }
  }

  lemma {:induction false} SubmittedOnce(s: State, steps: seq<Step>, a: SubmitAnswers)
    requires SubmitHow(s.starter) != []
    ensures !Submitted(s, steps, a)
    decreases |steps|
  {
    hide Enabled, Next;
    if steps != [] && Enabled(s, steps[0]) {
      SubmitHowAfter(s, steps[0]);
      SubmittedOnce(Next(s, steps[0]), steps[1..], a);
    }
  }

  /** And so did the handler, by the answer of its last call. */
  lemma {:induction false} LoopHowIff(s: State, steps: seq<Step>, t: State, how: Completion)
    requires Run(s, steps, t) && LoopHow(s.loop) == []
    ensures LoopHow(t.loop) == [how] <==>
      exists a :: Called(s, steps, a) && WorkRound(s.kind, a) == Finishes(how)
    decreases |steps|
  {
    hide Enabled, Next, WorkRound;
    if steps != [] {
      var step, next := steps[0], Next(s, steps[0]);
      LoopHowAfter(s, step);
      StepKeepsKind(s, step);
      if LoopHow(next.loop) == [] {
        LoopHowIff(next, steps[1..], t, how);
        forall a ensures Called(s, steps, a) && WorkRound(s.kind, a) == Finishes(how) <==>
                         Called(next, steps[1..], a) && WorkRound(s.kind, a) == Finishes(how) {
        }
      } else {
        LoopHowStays(next, steps[1..], t);
        forall a | Called(s, steps, a) ensures step == LoopStep(a) {
          CalledNoMore(next, steps[1..], a);
        }
        assert Called(s, steps, step.answer);
      }
    }
  }

  lemma {:induction false} CalledNoMore(s: State, steps: seq<Step>, a: CallAnswer)
    requires LoopHow(s.loop) != []
    ensures !Called(s, steps, a)
    decreases |steps|
  {
    hide Enabled, Next;
    if steps != [] && Enabled(s, steps[0]) {
      LoopHowAfter(s, steps[0]);
      CalledNoMore(Next(s, steps[0]), steps[1..], a);
    }
  }

  // ---- the upstream sender -------------------------------------------------------------

  lemma {:induction false} UpstreamIsOver(s: State, steps: seq<Step>, t: State)
    requires Run(s, steps, t) && s.starter != Upstream
    ensures forall sig :: CompleteUpstream(sig) !in steps
    ensures forall sig :: t.starter == Bypassed(sig) <==> s.starter == Bypassed(sig)
    decreases |steps|
  {
    hide Submit, WorkRound;
    if steps != [] {
      StillNotUpstream(s, steps[0]);
      UpstreamIsOver(Next(s, steps[0]), steps[1..], t);
      assert forall step :: step in steps <==> step == steps[0] || step in steps[1..];
    }
  }

  lemma StillNotUpstream(s: State, step: Step)
    requires Enabled(s, step) && s.starter != Upstream
    ensures Next(s, step).starter != Upstream && !step.CompleteUpstream?
    ensures forall sig :: Next(s, step).starter == Bypassed(sig) <==> s.starter == Bypassed(sig)
  {
    hide Submit, WorkRound;
    match step
    case StarterStep(answers, addOk) => StarterIsPastUpstream(s, answers, addOk);
    case CallbackStep => CallbackLeavesOthers(s);
    case LoopStep(answer) => LoopLeavesStarter(s, answer);
    case _ =>
  }

  lemma StarterIsPastUpstream(s: State, answers: SubmitAnswers, addOk: bool)
    requires StarterEnabled(s)
    ensures NextStarter(s, answers, addOk).starter != Upstream && !NextStarter(s, answers, addOk).starter.Bypassed?
    ensures s.starter != Upstream && !s.starter.Bypassed?
  {
    hide Submit, ResetCallback, Release, MayReset;
    match s.starter
    case CallSubmit =>
    case StopReset =>
    case FirstReset(how) =>
    case SecondReset(how) =>
    case StopDecrement =>
    case FirstDecrement(how) =>
    case SecondDecrement(how) =>
    case _ =>
  }

  /** An operation is bypassed exactly by an upstream sender that completes without a value. */
  lemma {:induction false} BypassedIff(s: State, steps: seq<Step>, t: State, sig: Signal)
    requires Run(s, steps, t) && s.starter == Upstream
    ensures t.starter == Bypassed(sig) <==> sig != SetValue && CompleteUpstream(sig) in steps
    decreases |steps|
  {
    hide Submit, WorkRound;
    if steps != [] {
      var next := Next(s, steps[0]);
      assert forall step :: step in steps <==> step == steps[0] || step in steps[1..];
      if steps[0].CompleteUpstream? {
        UpstreamIsOver(next, steps[1..], t);
      } else {
        UpstreamWaits(s, steps[0]);
        BypassedIff(next, steps[1..], t, sig);
      }
    }
  }

  lemma UpstreamWaits(s: State, step: Step)
    requires Enabled(s, step) && s.starter == Upstream && !step.CompleteUpstream?
    ensures Next(s, step).starter == Upstream
  {
    hide WorkRound;
  }

  /** An upstream error or stop is passed on as it is, and nothing else is ever sent. */
  lemma UpstreamPassesOn(kind: Kind, steps: seq<Step>, t: State, sig: Signal)
    requires Run(Init(kind), steps, t) && CompleteUpstream(sig) in steps && sig != SetValue
    ensures t.signals == [sig] && t.decided == []
  {
    BypassedIff(Init(kind), steps, t, sig);
    RunKeepsInv(Init(kind), steps, t);
  }

  // ---- the outcome ---------------------------------------------------------------------

  /** What a settled operation has sent, from how its parties ended. */
  lemma SettledSignal(t: State)
    requires Inv(t) && Settled(t)
    ensures t.signals == [SetValue] <==>
      || t.starter == Bypassed(SetValue)
      || (t.callback != Ran && (SubmitHow(t.starter) == [Value] || LoopHow(t.loop) == [Value]))
    ensures t.signals == [SetError] <==>
      || t.starter == Bypassed(SetError)
      || (t.callback != Ran && (SubmitHow(t.starter) == [Error] || LoopHow(t.loop) == [Error]))
  {
  }

  /**
   Exactly when a run that cannot go on has sent a value: its stop callback did not run, and the
   submit connected at once or was due, or the call of the handler succeeded.
   */
  lemma ValueIsSentIff(kind: Kind, steps: seq<Step>, t: State)
    requires Run(Init(kind), steps, t) && Stuck(t)
    ensures t.signals == [SetValue] <==>
      && t.callback != Ran
      && (|| (exists a :: Submitted(Init(kind), steps, a)
                && ((kind == Connect && a.fcntlOk && a.connect == Connected) || (kind == ResumeAt && a.due)))
          || (exists a :: Called(Init(kind), steps, a)
                && (|| kind in {ResumeAfter, ResumeAt}
                    || (kind == Connect && a == Returned(0))
                    || (kind in {Accept, Receive, Send} && a.Returned?)
                    || (kind in {Receive, Send} && a in {Failed(ECONNRESET), Failed(EPIPE)}))))
  {
    var s := Init(kind);
    hide Run, Submitted, Called, Submit, WorkRound;
    SignalIff(kind, steps, t, Value);
    forall a ensures Submit(kind, a) == Finished(Value) <==>
                     (kind == Connect && a.fcntlOk && a.connect == Connected) || (kind == ResumeAt && a.due) {
      SubmitSucceedsExactly(kind, a);
    }
    forall a { HandlerSucceedsExactly(kind, a); }
  }

  /**
   And when it has sent an error: the upstream sender did, or the stop callback did not run and the
   submit or the call of the handler failed for good.
   */
  lemma ErrorIsSentIff(kind: Kind, steps: seq<Step>, t: State)
    requires Run(Init(kind), steps, t) && Stuck(t)
    ensures t.signals == [SetError] <==>
      || CompleteUpstream(SetError) in steps
      || (&& t.callback != Ran
          && (|| (exists a :: Submitted(Init(kind), steps, a)
                    && (|| (kind == Connect && (!a.fcntlOk || a.connect == Refused))
                        || (!a.eventNew && (kind == Connect ==> a.connect in {InProgress, Interrupted})
                            && (kind == ResumeAt ==> !a.due))))
              || (exists a :: Called(Init(kind), steps, a)
                    && (|| (kind == Connect && a != Returned(0))
                        || (kind == Accept && a.Failed? && a.errno !in {EINTR, EWOULDBLOCK})
                        || (kind in {Receive, Send} && a.Failed?
                            && a.errno !in {EINTR, EWOULDBLOCK, ECONNRESET, EPIPE})))))
  {
    var s := Init(kind);
    hide Run, Submitted, Called, Submit, WorkRound;
    SignalIff(kind, steps, t, Error);
    forall a { SubmitFailsExactly(kind, a); }
    forall a { HandlerFailsExactly(kind, a); }
  }

  lemma SignalIff(kind: Kind, steps: seq<Step>, t: State, how: Completion)
    requires Run(Init(kind), steps, t) && Stuck(t)
    ensures t.signals == [if how == Value then SetValue else SetError] <==>
      || (how == Error && CompleteUpstream(SetError) in steps)
      || (&& t.callback != Ran
          && (|| (exists a :: Submitted(Init(kind), steps, a) && Submit(kind, a) == Finished(how))
              || (exists a :: Called(Init(kind), steps, a) && WorkRound(kind, a) == Finishes(how))))
  {
    var s := Init(kind);
    RunKeepsInv(s, steps, t);
    StuckIffSettled(t);
    SettledSignal(t);
    BypassedIff(s, steps, t, SetError);
    BypassedIff(s, steps, t, SetValue);
    SubmitHowIff(s, steps, t, how);
    LoopHowIff(s, steps, t, how);
  }
}
