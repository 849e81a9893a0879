/**
 The completion protocol of one operation: the starter, the stop callback and the event loop
 race for a single completion signal, arbitrated by a counter and by destroying the callback.
 */
module Protocol {
  import opened Operations

  datatype Signal = SetValue | SetError | SetStopped

  function SignalOf(how: Completion): Signal {
    match how
    case Value => SetValue
    case Error => SetError
  }

  /** How the starter came to the end of `_Start`. */
  datatype Path =
    | StopSeen             // stop was requested before the submit
    | Synchronous(how: Completion)  // the submit finished the operation itself
    | Armed                // the event was added
    | AddIgnored           // adding the event failed, which the submit does not look at

  /** The next atomic action of the starter. */
  datatype StarterPc =
    | Upstream             // the upstream sender has not completed
    | Bypassed(sig: Signal)  // it completed with an error or stopped: no start
    | CountStart           // ++outstanding
    | Emplace              // construct the stop callback
    | AwaitInline          // the constructor is running the callback
    | ReadStop             // stop_requested()
    | StopReset | StopDecrement
    | CallSubmit
    | FirstReset(how: Completion) | FirstDecrement(how: Completion)
    | SecondReset(how: Completion) | SecondDecrement(how: Completion)
    | StoreExtra | AddEvent
    | Left(path: Path)

  /** The life of the stop callback and, while it runs, its next atomic action. */
  datatype CallbackPc =
    | Unregistered | Registered
    | CountCancel          // ++outstanding
    | DeleteEvent          // event_del
    | OwnDecrement         // the callback object's --outstanding
    | OperationDecrement   // the operation's --outstanding
    | Leave
    | Ran                  // it ran
    | Deregistered         // it was destroyed before it could run

  /** The next atomic action of the event loop on this operation's event. */
  datatype LoopPc =
    | Idle | Working | Reset(how: Completion) | Decrement(how: Completion)
    | Completed(how: Completion) | GaveUp

  datatype State = State(
    kind: Kind,
    outstanding: int,
    stopRequested: bool,
    engaged: bool,         // the optional holding the callback has a value
    extra: bool,           // the operation owns its event
    armed: bool,           // the event is pending
    starter: StarterPc,
    callback: CallbackPc,
    loop: LoopPc,
    decided: seq<Signal>,  // a decrement reached zero, and its party is about to send this
    signals: seq<Signal>)

  datatype Step =
    | CompleteUpstream(sig: Signal)
    | StarterStep(answers: SubmitAnswers, addOk: bool)
    | RequestStop
    | InvokeCallback
    | CallbackStep
    | FireEvent
    | LoopStep(answer: CallAnswer)
    | Deliver              // the party whose decrement reached zero sends its signal

  function Init(kind: Kind): State {
    State(kind, 0, false, false, false, false, Upstream, Unregistered, Idle, [], [])
  }

  // ---- the shared atomic actions -------------------------------------------------------

  predicate CallbackRuns(s: State) {
    s.callback in {CountCancel, DeleteEvent, OwnDecrement, OperationDecrement, Leave}
  }

  /** Destroying the callback waits for one that is running on another thread. */
  predicate MayReset(s: State) {
    s.engaged ==> !CallbackRuns(s)
  }

  function ResetCallback(s: State): State
    requires MayReset(s)
  {
    if !s.engaged then s
    else s.(engaged := false, callback := if s.callback == Registered then Deregistered else s.callback)
  }

  /**
   `if (0 == --outstanding)`: what reaches zero decides for its signal. It is sent in a step of its
   own, which the model lets come as late as it may, between any steps of all parties.
   */
  function Release(s: State, sig: Signal): State {
    s.(outstanding := s.outstanding - 1,
       decided := if s.outstanding - 1 == 0 then s.decided + [sig] else s.decided)
  }

  // ---- the parties ---------------------------------------------------------------------

  predicate StarterEnabled(s: State) {
    match s.starter
    case Upstream => false
    case Bypassed(_) => false
    case Left(_) => false
    case AwaitInline => s.callback == Ran
    case StopReset => MayReset(s)
    case FirstReset(_) => MayReset(s)
    case SecondReset(_) => MayReset(s)
    case _ => true
  }

  function NextStarter(s: State, answers: SubmitAnswers, addOk: bool): State
    requires StarterEnabled(s)
  {
    match s.starter
    case CountStart => s.(outstanding := s.outstanding + 1, starter := Emplace)
    case Emplace =>
      if s.stopRequested then s.(callback := CountCancel, starter := AwaitInline)
      else s.(callback := Registered, engaged := true, starter := ReadStop)
    case AwaitInline => s.(engaged := true, starter := ReadStop)
    case ReadStop => s.(starter := if s.stopRequested then StopReset else CallSubmit)
    case StopReset => ResetCallback(s).(starter := StopDecrement)
    case StopDecrement => Release(s, SetStopped).(starter := Left(StopSeen))
    case CallSubmit =>
      (match Submit(s.kind, answers)
       case Finished(how) => s.(starter := FirstReset(how))
       case Prepared => s.(starter := StoreExtra))
    case FirstReset(how) => ResetCallback(s).(starter := FirstDecrement(how))
    case FirstDecrement(how) => Release(s, SignalOf(how)).(starter := SecondReset(how))
    case SecondReset(how) => ResetCallback(s).(starter := SecondDecrement(how))
    case SecondDecrement(how) => Release(s, SetValue).(starter := Left(Synchronous(how)))
    case StoreExtra => s.(extra := true, starter := AddEvent)
    case AddEvent => s.(armed := addOk, starter := Left(if addOk then Armed else AddIgnored))
  }

  function NextCallback(s: State): State
    requires CallbackRuns(s)
  {
    match s.callback
    case CountCancel =>
      s.(outstanding := s.outstanding + 1, callback := if 1 < s.outstanding + 1 then DeleteEvent else Leave)
    case DeleteEvent => s.(armed := s.armed && !s.extra, callback := OwnDecrement)
    case OwnDecrement => Release(s, SetStopped).(callback := OperationDecrement)
    case OperationDecrement => Release(s, SetStopped).(callback := Leave)
    case Leave => s.(callback := Ran)
  }

  predicate LoopEnabled(s: State) {
    match s.loop
    case Working => true
    case Reset(_) => MayReset(s)
    case Decrement(_) => true
    case _ => false
  }

  function NextLoop(s: State, answer: CallAnswer): State
    requires LoopEnabled(s)
  {
    match s.loop
    case Working =>
      (match WorkRound(s.kind, answer)
       case Finishes(how) => s.(loop := Reset(how))
       case Retries => s
       case GivesUp => s.(loop := GaveUp))
    case Reset(how) => ResetCallback(s).(loop := Decrement(how))
    case Decrement(how) => Release(s, SignalOf(how)).(loop := Completed(how))
  }

  predicate Enabled(s: State, step: Step) {
    match step
    case CompleteUpstream(_) => s.starter == Upstream
    case StarterStep(_, _) => StarterEnabled(s)
    case RequestStop => !s.stopRequested
    case InvokeCallback => s.stopRequested && s.callback == Registered
    case CallbackStep => CallbackRuns(s)
    case FireEvent => s.armed && s.loop == Idle
    case LoopStep(_) => LoopEnabled(s)
    case Deliver => s.decided != []
  }

  function Next(s: State, step: Step): State
    requires Enabled(s, step)
  {
    match step
    case CompleteUpstream(sig) =>
      if sig == SetValue then s.(starter := CountStart)
      else s.(starter := Bypassed(sig), signals := s.signals + [sig])
    case StarterStep(answers, addOk) => NextStarter(s, answers, addOk)
    case RequestStop => s.(stopRequested := true)
    case InvokeCallback => s.(callback := CountCancel)
    case CallbackStep => NextCallback(s)
    case FireEvent => s.(armed := false, loop := Working)
    case LoopStep(answer) => NextLoop(s, answer)
    case Deliver => s.(decided := s.decided[1..], signals := s.signals + [s.decided[0]])
  }

  /** `steps` is an interleaving that leads from `s` to `t`. */
  ghost predicate Run(s: State, steps: seq<Step>, t: State)
    decreases |steps|
  {
    if steps == [] then t == s
    else Enabled(s, steps[0]) && Run(Next(s, steps[0]), steps[1..], t)
  }

  // ---- the inductive invariant ---------------------------------------------------------

  predicate Started(s: State) {
    s.starter != Upstream && !s.starter.Bypassed? && s.starter != CountStart
  }

  function StarterPart(pc: StarterPc): int {
    match pc
    case Upstream => 0
    case Bypassed(_) => 0
    case CountStart => 0
    case SecondReset(_) => 0
    case SecondDecrement(_) => 0
    case Left(StopSeen) => 0
    case Left(Synchronous(_)) => -1
    case _ => 1
  }

  function CallbackPart(pc: CallbackPc): int {
    match pc
    case DeleteEvent => 1
    case OwnDecrement => 1
    case Leave => -1
    case Ran => -1
    case _ => 0
  }

  function LoopPart(pc: LoopPc): int {
    match pc
    case Completed(_) => -1
    case _ => 0
  }

  /** The starter or the loop is past its first destruction of the callback. */
  predicate PastReset(s: State) {
    || s.starter in {StopDecrement, Left(StopSeen)}
    || s.starter.FirstDecrement? || s.starter.SecondReset? || s.starter.SecondDecrement?
    || (s.starter.Left? && s.starter.path.Synchronous?)
    || s.loop.Decrement? || s.loop.Completed?
  }

  /** The stop callback exists: its construction is over and nobody has destroyed it. */
  predicate CallbackExists(s: State) {
    Started(s) && s.starter != Emplace && s.starter != AwaitInline && !PastReset(s)
  }

  /** The one signal, when the counter says that it has been decided. */
  function Winner(s: State): Signal {
    if s.callback == Leave || s.callback == Ran then SetStopped
    else match s.starter
      case SecondReset(how) => SignalOf(how)
      case SecondDecrement(how) => SignalOf(how)
      case Left(Synchronous(how)) => SignalOf(how)
      case Left(Armed) => (match s.loop case Completed(how) => SignalOf(how) case _ => SetStopped)
      case _ => SetStopped
  }

  function SignalsDecided(s: State): seq<Signal> {
    match s.starter
    case Bypassed(sig) => [sig]
    case _ => if Started(s) && s.outstanding <= 0 then [Winner(s)] else []
  }

  /** The decision, before or after it was sent. */
  function Decision(s: State): seq<Signal> {
    if s.signals == [] then s.decided else s.signals
  }

  predicate Inv(s: State) {
    // the counter is the sum of what the three parties have done to it
    && s.outstanding == StarterPart(s.starter) + CallbackPart(s.callback) + LoopPart(s.loop)
    && Decision(s) == SignalsDecided(s)
    && (s.signals != [] ==> s.decided == [])
    && (s.starter.Bypassed? ==> s.signals != [])
    // the callback is constructed by the starter and destroyed by one party only
    && (s.callback == Unregistered <==> !Started(s) || s.starter == Emplace)
    && (s.engaged <==> CallbackExists(s))
    && (s.callback == Deregistered ==> PastReset(s))
    && (PastReset(s) ==> s.callback in {Ran, Deregistered})
    && (s.starter == AwaitInline ==> CallbackRuns(s) || s.callback == Ran)
    // the callback and the starter's early exit need a stop request
    && (CallbackRuns(s) || s.callback == Ran ==> s.stopRequested)
    && (s.starter in {StopReset, StopDecrement, Left(StopSeen)} ==> s.stopRequested)
    // the loop works on this operation only after the starter has armed the event
    && (s.extra <==> s.starter in {AddEvent, Left(Armed), Left(AddIgnored)})
    && (s.armed ==> s.starter == Left(Armed) && s.loop == Idle)
    && (s.loop != Idle ==> s.starter == Left(Armed))
    && (s.loop == GaveUp ==> Transfers(s.kind))
    // an event that is neither pending nor in its handler was fired or deleted
    && (s.starter == Left(Armed) && !s.armed && s.loop == Idle ==>
          s.callback in {OwnDecrement, OperationDecrement, Leave, Ran})
  }

  predicate Finishing(pc: StarterPc) {
    pc in {StopReset, StopDecrement} || pc.FirstReset? || pc.FirstDecrement? || pc.SecondReset? || pc.SecondDecrement?
  }

  lemma StartingKeepsInv(s: State, answers: SubmitAnswers, addOk: bool)
    requires Inv(s) && StarterEnabled(s) && !Finishing(s.starter)
    ensures Inv(NextStarter(s, answers, addOk))
  {
    match s.starter
    case CountStart =>
    case Emplace =>
    case AwaitInline =>
    case ReadStop =>
    case CallSubmit =>
    case StoreExtra =>
    case AddEvent =>
  }

  lemma FinishingKeepsInv(s: State, answers: SubmitAnswers, addOk: bool)
    requires Inv(s) && StarterEnabled(s) && Finishing(s.starter)
    ensures Inv(NextStarter(s, answers, addOk))
  {
    match s.starter
    case StopReset =>
    case StopDecrement =>
    case FirstReset(how) =>
    case FirstDecrement(how) =>
    case SecondReset(how) =>
    case SecondDecrement(how) =>
  }

  lemma StarterKeepsInv(s: State, answers: SubmitAnswers, addOk: bool)
    requires Inv(s) && StarterEnabled(s)
    ensures Inv(NextStarter(s, answers, addOk))
  {
    if Finishing(s.starter) {
      FinishingKeepsInv(s, answers, addOk);
    } else {
      StartingKeepsInv(s, answers, addOk);
    }
  }

  lemma CallbackKeepsInv(s: State)
    requires Inv(s) && CallbackRuns(s)
    ensures Inv(NextCallback(s))
  {
  }

  lemma LoopKeepsInv(s: State, answer: CallAnswer)
    requires Inv(s) && LoopEnabled(s)
    ensures Inv(NextLoop(s, answer))
  {
    hide WorkRound;
    OnlyWouldBlockGivesUp(s.kind, answer);
    match s.loop
    case Working =>
    case Reset(how) =>
    case Decrement(how) =>
  }

  lemma DeliverKeepsInv(s: State)
    requires Inv(s) && s.decided != []
    ensures Inv(Next(s, Deliver))
    ensures Next(s, Deliver).signals == Decision(s) && Next(s, Deliver).decided == []
  {
    assert |s.decided| == 1;
    assert s.decided[1..] == [] && [] + [s.decided[0]] == s.decided;
  }

  /** What the outside does to an operation. */
  predicate Outside(step: Step) {
    step.CompleteUpstream? || step.RequestStop? || step.InvokeCallback? || step.FireEvent?
  }

  lemma OutsideKeepsInv(s: State, step: Step)
    requires Inv(s) && Enabled(s, step) && Outside(step)
    ensures Inv(Next(s, step))
  {
    match step
    case CompleteUpstream(sig) =>
    case RequestStop =>
    case InvokeCallback =>
    case FireEvent =>
  }

  lemma StepKeepsInv(s: State, step: Step)
    requires Inv(s) && Enabled(s, step)
    ensures Inv(Next(s, step))
  {
    hide Inv;
    match step
    case StarterStep(answers, addOk) => StarterKeepsInv(s, answers, addOk);
    case CallbackStep => CallbackKeepsInv(s);
    case LoopStep(answer) => LoopKeepsInv(s, answer);
    case Deliver => DeliverKeepsInv(s);
    case _ => OutsideKeepsInv(s, step);
  }
}
