/**
 Stretches of runs: what a party does from beginning to end when nobody comes in between, and
 the runs in which an operation ends without its signal.
 */
module Stretches {
  import opened Operations
  import opened Protocol
  import opened ProtocolRuns

  /** One more step at the end of a run. */
  lemma {:induction false} Then(s: State, steps: seq<Step>, t: State, step: Step) returns (more: seq<Step>, u: State)
    requires Run(s, steps, t) && Enabled(t, step)
    ensures more == steps + [step] && u == Next(t, step) && Run(s, more, u)
    decreases |steps|
  {
    hide Enabled, Next;
    more, u := steps + [step], Next(t, step);
    if steps == [] {
      assert more[1..] == [];
    } else {
      var rest, v := Then(Next(s, steps[0]), steps[1..], t, step);
      assert more[0] == steps[0] && more[1..] == rest;
    }
  }

  lemma Begin(s: State) returns (steps: seq<Step>, t: State)
    ensures steps == [] && t == s && Run(s, steps, t)
  {
    steps, t := [], s;
  }

  lemma {:induction false} RunsJoin(s: State, a: seq<Step>, t: State, b: seq<Step>, u: State)
    requires Run(s, a, t) && Run(t, b, u)
    ensures Run(s, a + b, u)
    decreases |a|
  {
    hide Enabled, Next;
    if a == [] {
      assert a + b == b;
    } else {
      RunsJoin(Next(s, a[0]), a[1..], t, b, u);
      assert (a + b)[0] == a[0] && (a + b)[1..] == a[1..] + b;
    }
  }

  /** What the callback finds when it begins. */
  lemma CallbackFinds(s: State)
    requires Inv(s) && s.callback == CountCancel
    ensures s.outstanding == 1 && s.signals == [] && s.decided == [] && (s.armed ==> s.extra)
  {
  }

  /** The stop callback from its first action to its last. */
  lemma CallbackStretch(s: State) returns (steps: seq<Step>)
    requires Inv(s) && s.callback == CountCancel
    ensures Run(s, steps, s.(outstanding := 0, armed := false, callback := Ran, signals := [SetStopped]))
    ensures s.outstanding == 1 && s.signals == [] && s.decided == []
  {
    CallbackFinds(s);
    hide Run, Inv;
    var t;
    steps, t := Begin(s);
    steps, t := Then(s, steps, t, CallbackStep);
    steps, t := Then(s, steps, t, CallbackStep);
    steps, t := Then(s, steps, t, CallbackStep);
    steps, t := Then(s, steps, t, CallbackStep);
    assert t.outstanding == 0 && !t.armed && t.decided == [SetStopped];
    steps, t := Then(s, steps, t, Deliver);
    steps, t := Then(s, steps, t, CallbackStep);
    assert t.signals == [SetStopped] && t.decided == [];
  }

  /** An operation that has been started, up to the construction of its stop callback. */
  function AtEmplace(kind: Kind, stopRequested: bool): State {
    Init(kind).(outstanding := 1, stopRequested := stopRequested, starter := Emplace)
  }

  function AtReadStop(kind: Kind): State {
    AtEmplace(kind, false).(callback := Registered, engaged := true, starter := ReadStop)
  }

  /** What a start that found stop requested does when the callback has run. */
  lemma StopExit(s: State, before: seq<Step>, t: State, next: Step) returns (steps: seq<Step>)
    requires Run(s, before, t) && next.StarterStep? && t.stopRequested
    requires t.starter == AwaitInline && t.callback == Ran && t.outstanding == 0 && t.decided == []
    ensures Run(s, steps, t.(outstanding := -1, engaged := false, starter := Left(StopSeen)))
  {
    hide Run, Submit;
    var u;
    steps, u := Then(s, before, t, next);
    assert u == t.(engaged := true, starter := ReadStop);
    steps, u := Then(s, steps, u, next);
    assert u == t.(engaged := true, starter := StopReset);
    steps, u := Then(s, steps, u, next);
    assert u == t.(engaged := false, starter := StopDecrement);
    steps, u := Then(s, steps, u, next);
  }

  /** A start that finds stop requested: the constructor of the callback runs it. */
  lemma StoppedStretch(kind: Kind, answers: SubmitAnswers, addOk: bool) returns (steps: seq<Step>)
    ensures Run(Init(kind).(stopRequested := true, starter := CountStart), steps,
                AtEmplace(kind, true).(outstanding := -1, starter := Left(StopSeen), callback := Ran,
                                       signals := [SetStopped]))
  {
    hide Run, Submit;
    var s, next := Init(kind).(stopRequested := true, starter := CountStart), StarterStep(answers, addOk);
    var t;
    steps, t := Begin(s);
    steps, t := Then(s, steps, t, next);
    steps, t := Then(s, steps, t, next);
    assert t == AtEmplace(kind, true).(starter := AwaitInline, callback := CountCancel);
    var inline := CallbackStretch(t);
    var u := t.(outstanding := 0, armed := false, callback := Ran, signals := [SetStopped]);
    RunsJoin(s, steps, t, inline, u);
    steps := StopExit(s, steps + inline, u, next);
  }

  lemma UpToSubmit(kind: Kind, answers: SubmitAnswers, addOk: bool) returns (steps: seq<Step>)
    ensures Run(Init(kind).(starter := CountStart), steps, AtReadStop(kind).(starter := CallSubmit))
  {
    hide Run;
    var s, next := Init(kind).(starter := CountStart), StarterStep(answers, addOk);
    var t;
    steps, t := Begin(s);
    steps, t := Then(s, steps, t, next);
    steps, t := Then(s, steps, t, next);
    steps, t := Then(s, steps, t, next);
  }

  /** The second completion finds the counter at 0 or below, and only lowers it. */
  lemma SecondCompletion(s: State, before: seq<Step>, t: State, how: Completion, next: Step) returns (steps: seq<Step>)
    requires Run(s, before, t) && next.StarterStep?
    requires t.starter == SecondReset(how) && !t.engaged && t.outstanding <= 0
    ensures Run(s, steps, t.(outstanding := t.outstanding - 1, starter := Left(Synchronous(how))))
  {
    hide Run, Submit;
    var u;
    steps, u := Then(s, before, t, next);
    steps, u := Then(s, steps, u, next);
  }

  /** The first completion, with the callback in place, sends how the operation finished. */
  lemma FirstCompletion(s: State, before: seq<Step>, t: State, how: Completion, next: Step) returns (steps: seq<Step>)
    requires Run(s, before, t) && next.StarterStep?
    requires t.starter == FirstReset(how) && t.callback == Registered && t.engaged
    requires t.outstanding == 1 && t.signals == t.decided == []
    ensures Run(s, steps, t.(outstanding := 0, engaged := false, callback := Deregistered, starter := SecondReset(how),
                             signals := [SignalOf(how)]))
  {
    hide Run, Submit;
    var u;
    steps, u := Then(s, before, t, next);
    assert u == t.(engaged := false, callback := Deregistered, starter := FirstDecrement(how));
    steps, u := Then(s, steps, u, next);
    assert u.decided == [SignalOf(how)] && u.outstanding == 0;
    steps, u := Then(s, steps, u, Deliver);
    assert u.signals == [SignalOf(how)] && u.decided == [];
  }

  /** A submit that finishes the operation, which `_Start` then completes once more. */
  lemma FinishedStretch(kind: Kind, answers: SubmitAnswers, addOk: bool, how: Completion) returns (steps: seq<Step>)
    requires Submit(kind, answers) == Finished(how)
    ensures Run(AtReadStop(kind).(starter := CallSubmit), steps,
                AtEmplace(kind, false).(outstanding := -1, starter := Left(Synchronous(how)), callback := Deregistered,
                                        signals := [SignalOf(how)]))
  {
    hide Submit, Run;
    var s, next := AtReadStop(kind).(starter := CallSubmit), StarterStep(answers, addOk);
    var t;
    steps, t := Begin(s);
    steps, t := Then(s, steps, t, next);
    assert t == s.(starter := FirstReset(how));
    steps := FirstCompletion(s, steps, t, how, next);
    t := t.(outstanding := 0, engaged := false, callback := Deregistered, starter := SecondReset(how),
            signals := [SignalOf(how)]);
    steps := SecondCompletion(s, steps, t, how, next);
  }

  /** A submit that prepares its event, whether the stop callback has run by then or not. */
  lemma ArmedStretch(s: State, answers: SubmitAnswers, addOk: bool) returns (steps: seq<Step>)
    requires s.starter == CallSubmit && Submit(s.kind, answers) == Prepared
    ensures Run(s, steps, s.(starter := Left(if addOk then Armed else AddIgnored), extra := true, armed := addOk))
  {
    hide Submit, Run;
    var next := StarterStep(answers, addOk);
    var t;
    steps, t := Begin(s);
    steps, t := Then(s, steps, t, next);
    steps, t := Then(s, steps, t, next);
    steps, t := Then(s, steps, t, next);
  }

  function LoopSteps(answers: seq<CallAnswer>): seq<Step> {
    if answers == [] then [] else [LoopStep(answers[0])] + LoopSteps(answers[1..])
  }

  lemma {:induction false} InterruptedStretch(s: State, answers: seq<CallAnswer>)
    requires s.loop == Working && Transfers(s.kind)
    requires forall i :: 0 <= i < |answers| ==> answers[i] == Failed(EINTR)
    ensures Run(s, LoopSteps(answers), s)
  {
    if answers != [] {
      InterruptedStretch(s, answers[1..]);
      assert Next(s, LoopStep(answers[0])) == s;
    }
  }

  /** The handler after its event fired, up to the answer that is no interruption. */
  lemma HandlerStretch(s: State, answers: seq<CallAnswer>, used: nat) returns (steps: seq<Step>, t: State)
    requires s.armed && s.loop == Idle && 0 < used <= |answers|
    requires forall i :: 0 <= i < used - 1 ==> answers[i] == Failed(EINTR)
    requires used > 1 ==> Transfers(s.kind)
    ensures t == NextLoop(s.(armed := false, loop := Working), answers[used - 1])
    ensures Run(s, steps, t)
  {
    hide WorkRound, Run;
    var fired := s.(armed := false, loop := Working);
    steps, t := Begin(s);
    steps, t := Then(s, steps, t, FireEvent);
    if used > 1 {
      InterruptedStretch(fired, answers[..used - 1]);
      RunsJoin(s, steps, fired, LoopSteps(answers[..used - 1]), fired);
      steps := steps + LoopSteps(answers[..used - 1]);
    }
    steps, t := Then(s, steps, fired, LoopStep(answers[used - 1]));
  }

  /** What a handler does that has finished its operation. */
  lemma CompletionStretch(s: State, before: seq<Step>, t: State, how: Completion) returns (steps: seq<Step>)
    requires Run(s, before, t) && t.loop == Reset(how) && t.callback == Registered && t.engaged
    requires t.outstanding == 1 && t.signals == t.decided == []
    ensures Run(s, steps, t.(outstanding := 0, engaged := false, callback := Deregistered, loop := Completed(how),
                             signals := [SignalOf(how)]))
  {
    hide Run;
    var u;
    steps, u := Then(s, before, t, LoopStep(Returned(0)));
    steps, u := Then(s, steps, u, LoopStep(Returned(0)));
    assert u.decided == [SignalOf(how)];
    steps, u := Then(s, steps, u, Deliver);
    assert u.signals == [SignalOf(how)] && u.decided == [];
  }

  /** What the handler of an armed operation finds when the stop callback is not running. */
  lemma HandlerFinds(s: State)
    requires Inv(s) && s.starter == Left(Armed) && s.loop == Idle && s.callback in {Registered, Ran}
    requires s.decided == []
    ensures s.engaged
    ensures s.callback == Registered ==> s.outstanding == 1 && s.signals == []
    ensures s.callback == Ran ==> s.outstanding == 0 && s.signals == [SetStopped]
  {
  }

  /** The same after the stop callback ran: the completion only lowers the counter. */
  lemma StoppedCompletionStretch(s: State, before: seq<Step>, t: State, how: Completion) returns (steps: seq<Step>)
    requires Run(s, before, t) && t.loop == Reset(how) && t.callback == Ran && t.engaged && t.outstanding == 0
    ensures Run(s, steps, t.(outstanding := -1, engaged := false, loop := Completed(how)))
  {
    hide Run;
    var u;
    steps, u := Then(s, before, t, LoopStep(Returned(0)));
    assert u == t.(engaged := false, loop := Decrement(how));
    steps, u := Then(s, steps, u, LoopStep(Returned(0)));
  }

  /** Where the handler leaves an operation whose stop callback is not running. */
  function HandlerEnd(s: State, answer: CallAnswer): State {
    match WorkRound(s.kind, answer)
    case Retries => s.(armed := false, loop := Working)
    case GivesUp => s.(armed := false, loop := GaveUp)
    case Finishes(how) =>
      if s.callback == Registered then
        s.(armed := false, outstanding := 0, engaged := false, callback := Deregistered, loop := Completed(how),
           signals := [SignalOf(how)])
      else s.(armed := false, outstanding := -1, engaged := false, loop := Completed(how))
  }

  lemma WholeHandlerStretch(s: State, answers: seq<CallAnswer>, used: nat) returns (steps: seq<Step>)
    requires Inv(s) && s.starter == Left(Armed) && s.armed && s.loop == Idle && s.decided == []
    requires s.callback in {Registered, Ran} && 0 < used <= |answers|
    requires forall i :: 0 <= i < used - 1 ==> answers[i] == Failed(EINTR)
    requires used > 1 ==> Transfers(s.kind)
    ensures Run(s, steps, HandlerEnd(s, answers[used - 1]))
  {
    HandlerFinds(s);
    hide WorkRound, Run, Inv;
    var t;
    steps, t := HandlerStretch(s, answers, used);
    var outcome := WorkRound(s.kind, answers[used - 1]);
    if outcome.Finishes? {
      if s.callback == Registered {
        steps := CompletionStretch(s, steps, t, outcome.how);
      } else {
        steps := StoppedCompletionStretch(s, steps, t, outcome.how);
      }
    }
  }

  // ---- runs that lose their operation --------------------------------------------------

  lemma StartStretch(kind: Kind, answers: SubmitAnswers, addOk: bool) returns (steps: seq<Step>, t: State)
    requires Submit(kind, answers) == Prepared
    ensures t == AtReadStop(kind).(starter := Left(if addOk then Armed else AddIgnored), extra := true, armed := addOk)
    ensures Run(Init(kind), steps, t)
  {
    hide Run, Submit;
    var s := Init(kind);
    steps, t := Begin(s);
    steps, t := Then(s, steps, t, CompleteUpstream(SetValue));
    var start := UpToSubmit(kind, answers, addOk);
    RunsJoin(s, steps, t, start, AtReadStop(kind).(starter := CallSubmit));
    var rest := ArmedStretch(AtReadStop(kind).(starter := CallSubmit), answers, addOk);
    t := AtReadStop(kind).(starter := Left(if addOk then Armed else AddIgnored), extra := true, armed := addOk);
    RunsJoin(s, steps + start, AtReadStop(kind).(starter := CallSubmit), rest, t);
    steps := steps + start + rest;
  }

  /** An accept, receive or send whose call would block after all is lost: the event is gone and no signal comes. */
  lemma WouldBlockLoses(kind: Kind) returns (steps: seq<Step>, t: State)
    requires Transfers(kind)
    ensures Run(Init(kind), steps, t) && Stuck(t) && !t.stopRequested
    ensures t.loop == GaveUp && !t.armed && t.signals == []
  {
    hide Run;
    var s := Init(kind);
    steps, t := StartStretch(kind, SubmitAnswers(true, InProgress, false, true), true);
    steps, t := Then(s, steps, t, FireEvent);
    steps, t := Then(s, steps, t, LoopStep(Failed(EWOULDBLOCK)));
  }

  /** So is an operation of any kind whose event could not be added. */
  lemma IgnoredAddLoses(kind: Kind) returns (steps: seq<Step>, t: State)
    ensures Run(Init(kind), steps, t) && Stuck(t) && !t.stopRequested
    ensures t.starter == Left(AddIgnored) && !t.armed && t.signals == []
  {
    hide Run;
    steps, t := StartStretch(kind, SubmitAnswers(true, InProgress, false, true), false);
  }

  /** Stop is requested, and its callback runs, between the start's check and the submit. */
  function StoppedAtSubmit(kind: Kind): State {
    AtReadStop(kind).(starter := CallSubmit, stopRequested := true, outstanding := 0, callback := Ran,
                      signals := [SetStopped])
  }

  lemma LateStopStretch(kind: Kind, answers: SubmitAnswers, addOk: bool) returns (steps: seq<Step>)
    ensures Run(Init(kind), steps, StoppedAtSubmit(kind))
  {
    hide Run, Submit;
    var s, t := Init(kind), Init(kind);
    steps, t := Begin(s);
    steps, t := Then(s, steps, t, CompleteUpstream(SetValue));
    var start := UpToSubmit(kind, answers, addOk);
    RunsJoin(s, steps, t, start, AtReadStop(kind).(starter := CallSubmit));
    steps, t := Then(s, steps + start, AtReadStop(kind).(starter := CallSubmit), RequestStop);
    steps, t := Then(s, steps, t, InvokeCallback);
    assert t == AtReadStop(kind).(starter := CallSubmit, stopRequested := true, callback := CountCancel);
    var callback := CallbackStretch(t);
    RunsJoin(s, steps, t, callback, StoppedAtSubmit(kind));
    steps := steps + callback;
  }

  /** A submit that then prepares its event arms it behind the stop: the event can still fire. */
  lemma EventCanFireAfterStop(kind: Kind) returns (steps: seq<Step>, t: State)
    ensures Run(Init(kind), steps, t) && Enabled(t, FireEvent)
    ensures t.starter == Left(Armed) && t.loop == Idle && t.callback == Ran && t.signals == [SetStopped]
  {
    hide Run;
    var answers := SubmitAnswers(true, InProgress, false, true);
    assert Submit(kind, answers) == Prepared;
    hide Submit;
    steps := LateStopStretch(kind, answers, true);
    var rest := ArmedStretch(StoppedAtSubmit(kind), answers, true);
    t := StoppedAtSubmit(kind).(starter := Left(Armed), extra := true, armed := true);
    RunsJoin(Init(kind), steps, StoppedAtSubmit(kind), rest, t);
    steps := steps + rest;
  }

  /** After the callback ran, the first completion finds the counter at 0 already. */
  lemma LateCompletion(s: State, before: seq<Step>, t: State, how: Completion, next: Step) returns (steps: seq<Step>)
    requires Run(s, before, t) && next.StarterStep?
    requires t.starter == FirstReset(how) && t.callback == Ran && t.outstanding == 0
    ensures Run(s, steps, t.(outstanding := -1, engaged := false, starter := SecondReset(how)))
  {
    hide Run, Submit;
    var u;
    steps, u := Then(s, before, t, next);
    assert u == t.(engaged := false, starter := FirstDecrement(how));
    steps, u := Then(s, steps, u, next);
  }

  /** A submit that then fails drives the counter to its lowest value. */
  lemma CounterReachesItsLowest(kind: Kind) returns (steps: seq<Step>, t: State)
    ensures Run(Init(kind), steps, t) && Stuck(t)
    ensures t.outstanding == -2 && t.signals == [SetStopped]
  {
    hide Run;
    var s, how := Init(kind), Completion.Error;
    var answers := SubmitAnswers(false, Refused, false, false);
    assert Submit(kind, answers) == Finished(how);
    hide Submit;
    t := StoppedAtSubmit(kind);
    steps := LateStopStretch(kind, answers, true);
    steps, t := Then(s, steps, t, StarterStep(answers, true));
    assert t == StoppedAtSubmit(kind).(starter := FirstReset(how));
    steps := LateCompletion(s, steps, t, how, StarterStep(answers, true));
    t := t.(outstanding := -1, engaged := false, starter := SecondReset(how));
    steps := SecondCompletion(s, steps, t, how, StarterStep(answers, true));
    t := t.(outstanding := -2, starter := Left(Synchronous(how)));
  }
}
