/**
 What every interleaving of starter, stop callback and event loop promises: safety over all
 runs, a bound on their length, and how they end.
 */
module ProtocolRuns {
  import opened Operations
  import opened Protocol

  lemma {:induction false} RunKeepsInv(s: State, steps: seq<Step>, t: State)
    requires Inv(s) && Run(s, steps, t)
    ensures Inv(t)
    decreases |steps|
  {
    if steps != [] {
      StepKeepsInv(s, steps[0]);
      RunKeepsInv(Next(s, steps[0]), steps[1..], t);
    }
  }

  // ---- safety --------------------------------------------------------------------------

  lemma InvCountsSignals(t: State)
    requires Inv(t)
    ensures |t.signals| + |t.decided| <= 1
    ensures Started(t) ==> (|t.signals| + |t.decided| == 1 <==> t.outstanding <= 0)
    ensures !Started(t) ==> t.decided == [] && (|t.signals| == 1 <==> t.starter.Bypassed?)
    ensures -2 <= t.outstanding <= 2
  {
  }

  /** At most one signal, sent or decided, and the counter tells whether there is one. */
  lemma AtMostOneSignal(kind: Kind, steps: seq<Step>, t: State)
    requires Run(Init(kind), steps, t)
    ensures |t.signals| + |t.decided| <= 1
    ensures Started(t) ==> (|t.signals| + |t.decided| == 1 <==> t.outstanding <= 0)
    ensures !Started(t) ==> t.decided == [] && (|t.signals| == 1 <==> t.starter.Bypassed?)
    ensures -2 <= t.outstanding <= 2
  {
    RunKeepsInv(Init(kind), steps, t);
    InvCountsSignals(t);
  }

  predicate CallbackBegan(s: State) {
    CallbackRuns(s) || s.callback == Ran
  }

  /** What each phase of the callback finds and does. */
  predicate CallbackPhases(t: State) {
    && (t.callback == CountCancel ==> t.outstanding == 1 && Decision(t) == [])
    && (t.callback == OwnDecrement ==> t.outstanding == 2 && NextCallback(t).decided == [])
    && (t.callback == OperationDecrement ==> t.outstanding == 1 && NextCallback(t).decided == [SetStopped])
    && (t.callback in {Leave, Ran} ==> Decision(t) == [SetStopped])
  }

  lemma InvCallbackPhases(t: State)
    requires Inv(t)
    ensures CallbackPhases(t)
    ensures CallbackBegan(t) ==> t.signals == [] || t.signals == [SetStopped]
    ensures Started(t) && t.signals in {[SetValue], [SetError]} ==> t.callback == Deregistered
  {
  }

  /**
   The callback wins or never runs. Its increment takes the counter from 1 to 2, so its guard
   always holds; its own decrement never reaches zero, and the operation's always does.
   */
  lemma CallbackWinsOrNeverRuns(kind: Kind, steps: seq<Step>, t: State)
    requires Run(Init(kind), steps, t)
    ensures t.callback == CountCancel ==> t.outstanding == 1 && NextCallback(t).outstanding == 2
    ensures t.callback == CountCancel ==> t.signals == t.decided == []
    ensures t.callback == OwnDecrement ==> t.outstanding == 2 && NextCallback(t).decided == []
    ensures t.callback == OperationDecrement ==> t.outstanding == 1 && NextCallback(t).decided == [SetStopped]
    ensures t.callback in {Leave, Ran} ==> t.signals + t.decided == [SetStopped]
    ensures CallbackBegan(t) ==> t.signals == [] || t.signals == [SetStopped]
    ensures Started(t) && t.signals in {[SetValue], [SetError]} ==> t.callback == Deregistered
  {
    RunKeepsInv(Init(kind), steps, t);
    InvCallbackPhases(t);
    InvCountsSignals(t);
  }

  lemma StepKeepsBegun(s: State, step: Step)
    requires Inv(s) && Enabled(s, step) && CallbackBegan(s)
    ensures CallbackBegan(Next(s, step))
  {
  }

  lemma {:induction false} BegunStaysBegun(s: State, steps: seq<Step>, t: State)
    requires Inv(s) && Run(s, steps, t) && CallbackBegan(s)
    ensures CallbackBegan(t)
    decreases |steps|
  {
    if steps != [] {
      StepKeepsInv(s, steps[0]);
      StepKeepsBegun(s, steps[0]);
      BegunStaysBegun(Next(s, steps[0]), steps[1..], t);
    }
  }

  /** Once the callback began, the whole rest of the run can only end stopped. */
  lemma BegunCallbackDecides(kind: Kind, before: seq<Step>, s: State, after: seq<Step>, t: State)
    requires Run(Init(kind), before, s) && CallbackBegan(s)
    requires Run(s, after, t)
    ensures t.signals == [] || t.signals == [SetStopped]
  {
    RunKeepsInv(Init(kind), before, s);
    RunKeepsInv(s, after, t);
    BegunStaysBegun(s, after, t);
    InvCallbackPhases(t);
  }

  lemma StepKeepsDecision(s: State, step: Step)
    requires Inv(s) && Enabled(s, step) && Decision(s) != []
    ensures Decision(Next(s, step)) == Decision(s)
    ensures s.signals <= Next(s, step).signals
  {
  }

  /** A decision is final: whatever the parties still do, that signal and no other one is sent. */
  lemma {:induction false} DecisionIsFinal(s: State, steps: seq<Step>, t: State)
    requires Inv(s) && Run(s, steps, t) && Decision(s) != []
    ensures Decision(t) == Decision(s)
    ensures s.signals <= t.signals
    decreases |steps|
  {
    if steps != [] {
      StepKeepsInv(s, steps[0]);
      StepKeepsDecision(s, steps[0]);
      DecisionIsFinal(Next(s, steps[0]), steps[1..], t);
    }
  }

  predicate StarterHoldsCallback(s: State) {
    s.starter in {Emplace, AwaitInline, StopReset} || s.starter.FirstReset? || s.starter.SecondReset?
  }

  /** The optional that holds the callback is never constructed or destroyed by two parties at once. */
  lemma CallbackStorageIsNotShared(kind: Kind, steps: seq<Step>, t: State)
    requires Run(Init(kind), steps, t)
    ensures !(StarterHoldsCallback(t) && t.loop.Reset?)
    ensures t.starter == Emplace ==> !t.engaged
    ensures t.starter == AwaitInline ==> !t.engaged
  {
    RunKeepsInv(Init(kind), steps, t);
  }

  // ---- progress ------------------------------------------------------------------------

  function StarterRank(pc: StarterPc): nat {
    match pc
    case Upstream => 12
    case CountStart => 11
    case Emplace => 10
    case AwaitInline => 9
    case ReadStop => 8
    case CallSubmit => 7
    case StoreExtra => 6
    case AddEvent => 5
    case FirstReset(_) => 4
    case FirstDecrement(_) => 3
    case SecondReset(_) => 2
    case SecondDecrement(_) => 1
    case StopReset => 2
    case StopDecrement => 1
    case Bypassed(_) => 0
    case Left(_) => 0
  }

  function CallbackRank(pc: CallbackPc): nat {
    match pc
    case Unregistered => 7
    case Registered => 6
    case CountCancel => 5
    case DeleteEvent => 4
    case OwnDecrement => 3
    case OperationDecrement => 2
    case Leave => 1
    case Ran => 0
    case Deregistered => 0
  }

  function LoopRank(pc: LoopPc): nat {
    match pc
    case Idle => 4
    case Working => 3
    case Reset(_) => 2
    case Decrement(_) => 1
    case Completed(_) => 0
    case GaveUp => 0
  }

  function Measure(s: State): nat {
    StarterRank(s.starter) + CallbackRank(s.callback) + LoopRank(s.loop)
    + (if s.stopRequested then 0 else 1) + (if s.signals == [] then 1 else 0)
  }

  /** The one step that can repeat: the handler's system call was interrupted. */
  predicate IsRetry(s: State, step: Step) {
    s.loop == Working && step.LoopStep? && WorkRound(s.kind, step.answer) == Retries
  }

  lemma StepMakesProgress(s: State, step: Step)
    requires Inv(s) && Enabled(s, step)
    ensures IsRetry(s, step) ==> Next(s, step) == s
    ensures !IsRetry(s, step) ==> Measure(Next(s, step)) < Measure(s)
  {
    match step
    case StarterStep(answers, addOk) => StarterMakesProgress(s, answers, addOk);
    case LoopStep(answer) => LoopMakesProgress(s, answer);
    case _ =>
  }

  lemma LoopMakesProgress(s: State, answer: CallAnswer)
    requires Inv(s) && LoopEnabled(s)
    ensures IsRetry(s, LoopStep(answer)) ==> NextLoop(s, answer) == s
    ensures !IsRetry(s, LoopStep(answer)) ==> Measure(NextLoop(s, answer)) < Measure(s)
  {
  }

  lemma StarterMakesProgress(s: State, answers: SubmitAnswers, addOk: bool)
    requires Inv(s) && StarterEnabled(s)
    ensures Measure(NextStarter(s, answers, addOk)) < Measure(s)
  {
    match s.starter
    case StopReset =>
    case FirstReset(how) =>
    case SecondReset(how) =>
    case _ =>
  }

  ghost function Interruptions(s: State, steps: seq<Step>): nat
    decreases |steps|
  {
    if steps == [] || !Enabled(s, steps[0]) then 0
    else (if IsRetry(s, steps[0]) then 1 else 0) + Interruptions(Next(s, steps[0]), steps[1..])
  }

  lemma {:induction false} RunIsBounded(s: State, steps: seq<Step>, t: State)
    requires Inv(s) && Run(s, steps, t)
    ensures |steps| + Measure(t) <= Measure(s) + Interruptions(s, steps)
    decreases |steps|
  {
    if steps != [] {
      StepKeepsInv(s, steps[0]);
      StepMakesProgress(s, steps[0]);
      RunIsBounded(Next(s, steps[0]), steps[1..], t);
    }
  }

  /** Steps the parties take by themselves. The environment chooses to request stop or to fire an event. */
  predicate Internal(step: Step) {
    !step.RequestStop? && !step.FireEvent?
  }

  ghost predicate Stuck(s: State) {
    forall step :: Internal(step) ==> !Enabled(s, step)
  }

  /** Nobody has anything left to do, and in particular nobody waits for the callback. */
  predicate Settled(s: State) {
    && (s.starter.Left? || s.starter.Bypassed?)
    && !CallbackRuns(s)
    && !(s.stopRequested && s.callback == Registered)
    && (s.loop == Idle || s.loop == GaveUp || s.loop.Completed?)
    && s.decided == []
  }

  /** The step that some party can take in a state that is not settled. */
  function Helpful(s: State): Step {
    if s.decided != [] then Deliver
    else if CallbackRuns(s) then CallbackStep
    else if s.stopRequested && s.callback == Registered then InvokeCallback
    else if s.starter == Upstream then CompleteUpstream(SetValue)
    else if !s.starter.Left? && !s.starter.Bypassed? then StarterStep(SubmitAnswers(true, Connected, true, true), true)
    else LoopStep(Returned(0))
  }

  lemma HelpfulHelps(s: State)
    requires Inv(s) && !Settled(s)
    ensures Internal(Helpful(s)) && Enabled(s, Helpful(s)) && !IsRetry(s, Helpful(s))
  {
  }

  lemma RunFrom(s: State, step: Step, rest: seq<Step>, t: State)
    requires Enabled(s, step) && Run(Next(s, step), rest, t)
    ensures Run(s, [step] + rest, t)
  {
    assert ([step] + rest)[1..] == rest;
  }

  /** No deadlock: the parties stop only when all of them are done. */
  lemma StuckIffSettled(s: State)
    requires Inv(s)
    ensures Stuck(s) <==> Settled(s)
  {
    if !Settled(s) {
      HelpfulHelps(s);
    }
  }

  /** Why an operation that was not stopped can still be without a signal. */
  predicate StillWaiting(s: State) {
    s.armed || s.loop == GaveUp || s.starter == Left(AddIgnored)
  }

  lemma SettledHasItsSignal(t: State)
    requires Inv(t) && Settled(t)
    ensures t.stopRequested ==> |t.signals| == 1
    ensures !t.stopRequested ==> (|t.signals| == 1 <==> !StillWaiting(t))
  {
    if t.starter.Left? {
      match t.starter.path
      case StopSeen =>
      case Synchronous(how) =>
      case Armed =>
      case AddIgnored =>
    }
  }

  lemma InitialMeasure(kind: Kind)
    ensures Inv(Init(kind)) && Measure(Init(kind)) == 25
  {
  }

  /**
   How runs end. A run has at most 25 steps besides its interrupted system calls. A run that
   cannot go on leaves no party blocked. With stop requested it has sent exactly one signal.
   Without, it has sent one exactly unless the event is still pending, the handler gave up on
   a call that would block, or adding the event failed unnoticed.
   */
  lemma EveryRunEndsWell(kind: Kind, steps: seq<Step>, t: State)
    requires Run(Init(kind), steps, t)
    ensures |steps| <= 25 + Interruptions(Init(kind), steps)
    ensures Stuck(t) ==> Settled(t) && MayReset(t)
    ensures Stuck(t) && t.stopRequested ==> |t.signals| == 1
    ensures Stuck(t) && !t.stopRequested ==> (|t.signals| == 1 <==> !StillWaiting(t))
    ensures t.loop == GaveUp ==> Transfers(kind)
  {
    var s := Init(kind);
    InitialMeasure(kind);
    RunIsBounded(s, steps, t);
    RunKeepsInv(s, steps, t);
    RunKeepsKind(s, steps, t);
    StuckIffSettled(t);
    if Stuck(t) {
      SettledHasItsSignal(t);
    }
  }

  lemma StepKeepsKind(s: State, step: Step)
    requires Enabled(s, step)
    ensures Next(s, step).kind == s.kind
    ensures s.stopRequested ==> Next(s, step).stopRequested
  {
    match step
    case StarterStep(answers, addOk) => StarterKeepsKind(s, answers, addOk);
    case _ =>
  }

  lemma StarterKeepsKind(s: State, answers: SubmitAnswers, addOk: bool)
    requires StarterEnabled(s)
    ensures NextStarter(s, answers, addOk).kind == s.kind
    ensures NextStarter(s, answers, addOk).stopRequested == s.stopRequested
  {
    hide Submit;
    match s.starter
    case StopReset =>
    case StopDecrement =>
    case FirstReset(how) =>
    case FirstDecrement(how) =>
    case SecondReset(how) =>
    case SecondDecrement(how) =>
    case _ =>
  }

  lemma {:induction false} RunKeepsKind(s: State, steps: seq<Step>, t: State)
    requires Run(s, steps, t)
    ensures t.kind == s.kind
    decreases |steps|
  {
    if steps != [] {
      StepKeepsKind(s, steps[0]);
      RunKeepsKind(Next(s, steps[0]), steps[1..], t);
    }
  }

  /**
   Progress under stop: from any reachable state in which stop is requested the parties can by
   themselves, without the event ever firing, come to the end with exactly one signal sent.
   */
  lemma {:induction false} StopIsAnswered(s: State) returns (steps: seq<Step>, t: State)
    requires Inv(s) && s.stopRequested
    ensures Run(s, steps, t) && (forall step :: step in steps ==> Internal(step))
    ensures Stuck(t) && |t.signals| == 1
    decreases Measure(s)
  {
    StuckIffSettled(s);
    if Settled(s) {
      steps, t := [], s;
      SettledHasItsSignal(s);
    } else {
      var step := Helpful(s);
      HelpfulHelps(s);
      StepKeepsInv(s, step);
      StepKeepsKind(s, step);
      StepMakesProgress(s, step);
      var rest;
      rest, t := StopIsAnswered(Next(s, step));
      steps := [step] + rest;
      RunFrom(s, step, rest, t);
    }
  }
}
