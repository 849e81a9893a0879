/**
 What one libevent operation does when it is submitted and when its handler runs.
 Every system call is an answer chosen by the environment.
 */
module Operations {

  datatype Kind = Accept | Connect | Receive | Send | ResumeAfter | ResumeAt

  /** How a submit or a handler finishes an operation: `_Complete()` or `_Error(...)`. */
  datatype Completion = Value | Error

  /** The errno values the handlers tell apart. */
  datatype Errno = EINTR | EWOULDBLOCK | ECONNRESET | EPIPE | OtherErrno

  datatype ConnectAnswer = Connected | InProgress | Interrupted | Refused

  /** Everything a submit asks of its surroundings before it arms an event. */
  datatype SubmitAnswers = SubmitAnswers(fcntlOk: bool, connect: ConnectAnswer, due: bool, eventNew: bool)

  datatype SubmitOutcome = Finished(how: Completion) | Prepared

  /** The answer of the handler's system call. For Connect, `Returned(n)` is SO_ERROR. */
  datatype CallAnswer = Returned(n: nat) | Failed(errno: Errno)

  datatype WorkOutcome = Finishes(how: Completion) | Retries | GivesUp

  /** The event is created last, and only its creation can still fail. */
  function CreateEvent(answers: SubmitAnswers): SubmitOutcome {
    if answers.eventNew then Prepared else Finished(Error)
  }

  function Submit(kind: Kind, answers: SubmitAnswers): SubmitOutcome {
    match kind
    case Connect =>
      if !answers.fcntlOk then Finished(Error)
      else (match answers.connect
            case Connected => Finished(Value)
            case Refused => Finished(Error)
            case InProgress => CreateEvent(answers)
            case Interrupted => CreateEvent(answers))
    case ResumeAt => if answers.due then Finished(Value) else CreateEvent(answers)
    case Accept => CreateEvent(answers)
    case Receive => CreateEvent(answers)
    case Send => CreateEvent(answers)
    case ResumeAfter => CreateEvent(answers)
  }

  /** One round of the handler: one system call and the branch taken on its answer. */
  function WorkRound(kind: Kind, answer: CallAnswer): WorkOutcome {
    match kind
    case Accept => TransferRound(answer, false)
    case Receive => TransferRound(answer, true)
    case Send => TransferRound(answer, true)
    case Connect => Finishes(if answer == Returned(0) then Value else Error)
    case ResumeAfter => Finishes(Value)
    case ResumeAt => Finishes(Value)
  }

  /** accept, recvmsg and sendmsg; only the last two take a reset peer for an end of data. */
  function TransferRound(answer: CallAnswer, resetIsEnd: bool): WorkOutcome {
    match answer
    case Returned(_) => Finishes(Value)
    case Failed(EINTR) => Retries
    case Failed(EWOULDBLOCK) => GivesUp
    case Failed(errno) =>
      if resetIsEnd && (errno == ECONNRESET || errno == EPIPE) then Finishes(Value) else Finishes(Error)
  }

  /** The operations whose handler can return without finishing. */
  predicate Transfers(kind: Kind) {
    kind == Accept || kind == Receive || kind == Send
  }

  /**
   The handler's retry loop against a script of answers. It uses up exactly the interrupted
   calls in front of the first answer that is not an interruption, and that one decides.
   */
  method Work(kind: Kind, answers: seq<CallAnswer>) returns (outcome: WorkOutcome, used: nat)
    requires |answers| > 0
    ensures 0 < used <= |answers|
    ensures forall i :: 0 <= i < used - 1 ==> answers[i] == Failed(EINTR)
    ensures used > 1 ==> Transfers(kind)
    ensures outcome == Retries ==> used == |answers| && Transfers(kind) && answers[used - 1] == Failed(EINTR)
    ensures outcome == GivesUp <==> Transfers(kind) && answers[used - 1] == Failed(EWOULDBLOCK)
    ensures outcome == WorkRound(kind, answers[used - 1])
  {
    used := 0;
    while true
      invariant 0 <= used < |answers|
      invariant forall i :: 0 <= i < used ==> answers[i] == Failed(EINTR)
      invariant used > 0 ==> Transfers(kind)
      decreases |answers| - used
    {
      outcome := WorkRound(kind, answers[used]);
      used := used + 1;
      if outcome != Retries || used == |answers| {
        return;
      }
    }
  }

  /** No handler loses an operation except by a call that would block. */
  lemma OnlyWouldBlockGivesUp(kind: Kind, answer: CallAnswer)
    ensures WorkRound(kind, answer) == GivesUp <==> Transfers(kind) && answer == Failed(EWOULDBLOCK)
    ensures WorkRound(kind, answer) == Retries <==> Transfers(kind) && answer == Failed(EINTR)
  {
  }

  /**
   What finishing with a value means. A handler does so when its call succeeded, with SO_ERROR 0
   for Connect, or when the peer of a Receive or Send is gone; a timer always does.
   */
  lemma HandlerSucceedsExactly(kind: Kind, answer: CallAnswer)
    ensures WorkRound(kind, answer) == Finishes(Value) <==>
      || kind in {ResumeAfter, ResumeAt}
      || (kind == Connect && answer == Returned(0))
      || (Transfers(kind) && answer.Returned?)
      || (kind in {Receive, Send} && answer in {Failed(ECONNRESET), Failed(EPIPE)})
  {
  }

  /** A submit succeeds at once only when a connect does or a deadline is past; otherwise it needs its event. */
  lemma SubmitSucceedsExactly(kind: Kind, answers: SubmitAnswers)
    ensures Submit(kind, answers) == Finished(Value) <==>
      || (kind == Connect && answers.fcntlOk && answers.connect == Connected)
      || (kind == ResumeAt && answers.due)
    ensures Submit(kind, answers) == Prepared <==>
      && answers.eventNew
      && (kind == Connect ==> answers.fcntlOk && answers.connect in {InProgress, Interrupted})
      && (kind == ResumeAt ==> !answers.due)
  {
  }

  /** And finishing with an error: what neither succeeds nor waits nor would be called again. */
  lemma HandlerFailsExactly(kind: Kind, answer: CallAnswer)
    ensures WorkRound(kind, answer) == Finishes(Error) <==>
      || (kind == Connect && answer != Returned(0))
      || (kind == Accept && answer.Failed? && answer.errno !in {EINTR, EWOULDBLOCK})
      || (kind in {Receive, Send} && answer.Failed? && answer.errno !in {EINTR, EWOULDBLOCK, ECONNRESET, EPIPE})
  {
  }

  lemma SubmitFailsExactly(kind: Kind, answers: SubmitAnswers)
    ensures Submit(kind, answers) == Finished(Error) <==>
      || (kind == Connect && (!answers.fcntlOk || answers.connect == Refused))
      || (!answers.eventNew
          && (kind == Connect ==> answers.connect in {InProgress, Interrupted})
          && (kind == ResumeAt ==> !answers.due))
  {
  }
}
