/**
 The poll loop: two parallel vectors, one of poll entries and one of operations, shrunk by
 moving the last entry into the hole, and grown by handlers that add operations while they run.
 */
module PollLoop {

  type Operation = nat

  datatype PollFd = PollFd(fd: int, events: bv16)

  /** What one `_Add_Outstanding` call puts at the same index of both vectors. */
  datatype Entry = Entry(pollfd: PollFd, op: Operation)

  /**
   One `_Add_Outstanding` call. On a non-blocking socket it tries the work first, which can make
   calls of its own; `done` is what the work returns.
   */
  datatype Add = Add(entry: Entry, blocking: bool, work: seq<Add>, done: bool)

  /** What `poll` answers, and the calls that the handler of the chosen operation makes. */
  datatype PollAnswer =
    | PollFailed
    | PollInterrupted
    | PollReady(revents: seq<bv16>, handler: seq<Add>)

  const POLLERR: bv16 := 8

  // ---- specification -------------------------------------------------------------------

  function Queued(a: Add): seq<Entry> {
    if a.blocking then [a.entry]
    else QueuedAll(a.work) + if a.done then [] else [a.entry]
  }

  function QueuedAll(adds: seq<Add>): seq<Entry> {
    if adds == [] then [] else Queued(adds[0]) + QueuedAll(adds[1..])
  }

  /** The calls that one call makes, its own last. On a blocking socket the work is not tried, and makes none. */
  function Calls(a: Add): seq<Add> {
    if a.blocking then [a] else CallsOfAll(a.work) + [a]
  }

  function CallsOfAll(adds: seq<Add>): seq<Add> {
    if adds == [] then [] else Calls(adds[0]) + CallsOfAll(adds[1..])
  }

  /** The entries of those calls that are blocking or whose work is not done. */
  function Unfinished(calls: seq<Add>): seq<Entry> {
    if calls == [] then []
    else
      var last := calls[|calls| - 1];
      Unfinished(calls[..|calls| - 1]) + if last.blocking || !last.done then [last.entry] else []
  }

  lemma {:induction false} UnfinishedJoin(a: seq<Add>, b: seq<Add>)
    ensures Unfinished(a + b) == Unfinished(a) + Unfinished(b)
  {
    if b == [] {
      assert a + b == a;
    } else {
      var n := |b| - 1;
      assert (a + b)[..|a| + n] == a + b[..n];
      UnfinishedJoin(a, b[..n]);
    }
  }

  /** A call queues just the entries of the calls it makes that are not finished by their work, in their order. */
  lemma {:induction false} QueuedAreUnfinished(a: Add)
    ensures Queued(a) == Unfinished(Calls(a))
    decreases a, 0
  {
    assert Unfinished([a]) == if a.blocking || !a.done then [a.entry] else [] by {
      assert [a][..0] == [];
    }
    if !a.blocking {
      QueuedAllAreUnfinished(a.work);
      UnfinishedJoin(CallsOfAll(a.work), [a]);
    }
  }

  lemma {:induction false} QueuedAllAreUnfinished(adds: seq<Add>)
    ensures QueuedAll(adds) == Unfinished(CallsOfAll(adds))
    decreases adds, 1
  {
    if adds != [] {
      QueuedAreUnfinished(adds[0]);
      QueuedAllAreUnfinished(adds[1..]);
      UnfinishedJoin(Calls(adds[0]), CallsOfAll(adds[1..]));
    }
  }

  /** No unfinished call is lost, and nothing else is queued. */
  lemma {:induction false} UnfinishedIff(calls: seq<Add>, e: Entry)
    ensures e in Unfinished(calls) <==>
      exists i :: 0 <= i < |calls| && calls[i].entry == e && (calls[i].blocking || !calls[i].done)
  {
    if calls != [] {
      var n := |calls| - 1;
      UnfinishedIff(calls[..n], e);
      assert forall i :: 0 <= i < n ==> calls[..n][i] == calls[i];
    }
  }

  /** The test of the scan: what is reported against what is waited for, errors always included. */
  predicate Reported(revents: bv16, events: bv16) {
    revents & (events | POLLERR) != 0
  }

  predicate IsReady(entry: Entry, revents: seq<bv16>, i: nat) {
    i < |revents| && Reported(revents[i], entry.pollfd.events)
  }

  lemma ReportedIff(r: bv16, e: bv16)
    ensures Reported(r, e) <==> r & e != 0 || r & 8 != 0
  {
  }

  /** An entry is ready exactly if an event it waits for is reported, or POLLERR, which is 8, whatever it waits for. */
  lemma ReadyIff(fd: int, e: bv16, op: Operation, before: seq<bv16>, r: bv16, behind: seq<bv16>)
    ensures IsReady(Entry(PollFd(fd, e), op), before + [r] + behind, |before|) <==> r & e != 0 || r & 8 != 0
  {
    ReportedIff(r, e);
    assert (before + [r] + behind)[|before|] == r;
  }

  /** The index of the last ready entry among the first `n`, or -1. */
  function LastReady(entries: seq<Entry>, revents: seq<bv16>, n: nat): (i: int)
    requires n <= |entries|
    ensures -1 <= i < n
    ensures 0 <= i ==> IsReady(entries[i], revents, i)
    ensures forall j :: i < j < n ==> !IsReady(entries[j], revents, j)
  {
    if n == 0 then -1
    else if IsReady(entries[n - 1], revents, n - 1) then n - 1
    else LastReady(entries, revents, n - 1)
  }

  lemma LastReadyStep(entries: seq<Entry>, revents: seq<bv16>, i: nat)
    requires i < |entries|
    ensures LastReady(entries, revents, i + 1) ==
      if IsReady(entries[i], revents, i) then i else LastReady(entries, revents, i)
  {
    hide IsReady;
  }

  function SwapRemove<T>(s: seq<T>, i: nat): seq<T>
    requires i < |s|
  {
    if i + 1 != |s| then s[i := s[|s| - 1]][..|s| - 1] else s[..|s| - 1]
  }

  /** One round of the loop: the entry it handled, where that stood, what `poll` said and what its handler called. */
  datatype Round = Round(entry: Entry, index: nat, revents: seq<bv16>, handler: seq<Add>)

  /** `run_one` returns 0, returns 1 after a round, or is still waiting when the answers end. */
  datatype Outcome =
    | Zero(entries: seq<Entry>, rest: seq<PollAnswer>)
    | One(entries: seq<Entry>, rest: seq<PollAnswer>, round: Round)
    | Waiting(entries: seq<Entry>)

  function RunOneSpec(entries: seq<Entry>, answers: seq<PollAnswer>): (o: Outcome)
    ensures o.One? ==> |o.rest| < |answers|
  {
    if entries == [] then Zero(entries, answers)
    else if answers == [] then Waiting(entries)
    else
      match answers[0]
      case PollFailed => Zero(entries, answers[1..])
      case PollInterrupted => RunOneSpec(entries, answers[1..])
      case PollReady(revents, handler) =>
        var i := LastReady(entries, revents, |entries|);
        if i < 0 then RunOneSpec(entries, answers[1..])
        else One(SwapRemove(entries, i) + QueuedAll(handler), answers[1..], Round(entries[i], i, revents, handler))
  }

  /** What a whole `run` does: its rounds, the entries left over, and whether it is still waiting. */
  datatype RunOutcome = RunOutcome(rounds: seq<Round>, left: seq<Entry>, waiting: bool)

  function RunSpec(entries: seq<Entry>, answers: seq<PollAnswer>): RunOutcome
    decreases |answers|
  {
    match RunOneSpec(entries, answers)
    case Zero(after, _) => RunOutcome([], after, false)
    case Waiting(after) => RunOutcome([], after, true)
    case One(after, rest, round) => Behind([round], RunSpec(after, rest))
  }

  function Behind(rounds: seq<Round>, run: RunOutcome): RunOutcome {
    run.(rounds := rounds + run.rounds)
  }

  lemma RunBegins(entries: seq<Entry>, answers: seq<PollAnswer>)
    ensures Behind([], RunSpec(entries, answers)) == RunSpec(entries, answers)
  {
  }

  lemma RunGoesOn(rounds: seq<Round>, entries: seq<Entry>, answers: seq<PollAnswer>)
    ensures match RunOneSpec(entries, answers)
      case One(after, rest, round) =>
        Behind(rounds, RunSpec(entries, answers)) == Behind(rounds + [round], RunSpec(after, rest))
      case Zero(after, _) => Behind(rounds, RunSpec(entries, answers)) == RunOutcome(rounds, after, false)
      case Waiting(after) => Behind(rounds, RunSpec(entries, answers)) == RunOutcome(rounds, after, true)
  {
    var o := RunOneSpec(entries, answers);
    if o.One? {
      var more := RunSpec(o.entries, o.rest).rounds;
      assert rounds + ([o.round] + more) == (rounds + [o.round]) + more;
    } else {
      assert rounds + [] == rounds;
    }
  }

  function Handled(rounds: seq<Round>): (entries: seq<Entry>)
    ensures |entries| == |rounds|
  {
    if rounds == [] then [] else [rounds[0].entry] + Handled(rounds[1..])
  }

  /** Everything that the handlers of these rounds queued. */
  function Added(rounds: seq<Round>): seq<Entry> {
    if rounds == [] then [] else QueuedAll(rounds[0].handler) + Added(rounds[1..])
  }

  lemma SwapRemoveTakesOne<T>(s: seq<T>, i: nat)
    requires i < |s|
    ensures multiset(SwapRemove(s, i)) + multiset{s[i]} == multiset(s)
    ensures |SwapRemove(s, i)| == |s| - 1
    ensures forall j :: 0 <= j < |s| - 1 ==> SwapRemove(s, i)[j] == if j == i then s[|s| - 1] else s[j]
  {
    var last := |s| - 1;
    assert s == s[..last] + [s[last]];
    if i != last {
      assert s[..last] == s[..i] + [s[i]] + s[i + 1..last];
      assert SwapRemove(s, i) == s[..i] + [s[last]] + s[i + 1..last];
    }
  }

  /** The round answers `answers[k]`, and the answers behind that one are still to come. */
  predicate Answers(answers: seq<PollAnswer>, k: nat, round: Round, rest: seq<PollAnswer>) {
    k < |answers| && answers[k] == PollReady(round.revents, round.handler) && rest == answers[k + 1..]
  }

  /** The round took the last ready entry. */
  predicate TakesLastReady(entries: seq<Entry>, round: Round) {
    && round.index < |entries| && round.entry == entries[round.index]
    && IsReady(round.entry, round.revents, round.index)
    && forall j :: round.index < j < |entries| ==> !IsReady(entries[j], round.revents, j)
  }

  /**
   A round that returns 1 takes exactly one ready operation out, keeps every other, and adds
   what its handler queued; a round that returns 0 changes nothing.
   */
  lemma {:induction false} RunOneTakesOneReady(entries: seq<Entry>, answers: seq<PollAnswer>)
    ensures match RunOneSpec(entries, answers)
      case One(after, rest, round) =>
        && multiset(after) + multiset{round.entry} == multiset(entries) + multiset(QueuedAll(round.handler))
        && TakesLastReady(entries, round)
        && PollFailed !in answers[..|answers| - |rest|]
        && exists k: nat :: Answers(answers, k, round, rest)
      case Zero(after, _) => after == entries && (entries == [] || PollFailed in answers)
      case Waiting(after) => after == entries && entries != [] && PollFailed !in answers
  {
    if entries != [] && answers != [] {
      var tail := answers[1..];
      assert answers == [answers[0]] + tail;
      if answers[0].PollReady? && LastReady(entries, answers[0].revents, |entries|) >= 0 {
        var i := LastReady(entries, answers[0].revents, |entries|);
        var added := QueuedAll(answers[0].handler);
        SwapRemoveTakesOne(entries, i);
        assert multiset(SwapRemove(entries, i) + added) == multiset(SwapRemove(entries, i)) + multiset(added);
        assert Answers(answers, 0, RunOneSpec(entries, answers).round, tail);
      } else if !answers[0].PollFailed? {
        RunOneTakesOneReady(entries, tail);
        var o := RunOneSpec(entries, tail);
        if o.One? {
          var k: nat :| Answers(tail, k, o.round, o.rest);
          assert Answers(answers, k + 1, o.round, o.rest);
          assert answers[..|answers| - |o.rest|] == [answers[0]] + tail[..|tail| - |o.rest|];
        }
      }
    }
  }

  lemma OneMoreExchange(start: multiset<Entry>, taken: Entry, queued: seq<Entry>, middle: multiset<Entry>,
                        added: seq<Entry>, handled: seq<Entry>, end: multiset<Entry>)
    requires middle + multiset{taken} == start + multiset(queued)
    requires middle + multiset(added) == multiset(handled) + end
    ensures start + multiset(queued + added) == multiset([taken] + handled) + end
  {
    var q, a, h, t := multiset(queued), multiset(added), multiset(handled), multiset{taken};
    assert multiset(queued + added) == q + a && multiset([taken] + handled) == t + h;
    assert start + (q + a) == (start + q) + a == (middle + t) + a == (middle + a) + t == (h + end) + t == (t + h) + end;
  }

  /** Over a whole run, entries there at the start and entries added are those handled and those left over. */
  lemma {:induction false} RunBalances(entries: seq<Entry>, answers: seq<PollAnswer>)
    ensures var run := RunSpec(entries, answers);
      && multiset(entries) + multiset(Added(run.rounds)) == multiset(Handled(run.rounds)) + multiset(run.left)
      && |run.rounds| == |entries| + |Added(run.rounds)| - |run.left|
    decreases |answers|
  {
    RunOneTakesOneReady(entries, answers);
    var o, run := RunOneSpec(entries, answers), RunSpec(entries, answers);
    if o.One? {
      RunBalances(o.entries, o.rest);
      var more := RunSpec(o.entries, o.rest);
      assert run.rounds[1..] == more.rounds;
      OneMoreExchange(multiset(entries), o.round.entry, QueuedAll(o.round.handler), multiset(o.entries),
                      Added(more.rounds), Handled(more.rounds), multiset(more.left));
    }
    SameSize(entries + Added(run.rounds), Handled(run.rounds) + run.left);
  }

  lemma SameSize(a: seq<Entry>, b: seq<Entry>)
    requires multiset(a) == multiset(b)
    ensures |a| == |b|
  {
    assert |multiset(a)| == |a| && |multiset(b)| == |b|;
  }

  /** The entries in front of round `k`. */
  function EntriesAt(entries: seq<Entry>, rounds: seq<Round>, k: nat): seq<Entry>
    requires k <= |rounds|
  {
    if k == 0 then entries
    else
      var before := EntriesAt(entries, rounds, k - 1);
      if rounds[k - 1].index < |before| then
        SwapRemove(before, rounds[k - 1].index) + QueuedAll(rounds[k - 1].handler)
      else before
  }

  lemma {:induction false} EntriesShift(entries: seq<Entry>, rounds: seq<Round>, k: nat)
    requires 0 < k <= |rounds| && rounds[0].index < |entries|
    ensures EntriesAt(entries, rounds, k) ==
      EntriesAt(SwapRemove(entries, rounds[0].index) + QueuedAll(rounds[0].handler), rounds[1..], k - 1)
  {
    if k > 1 {
      EntriesShift(entries, rounds, k - 1);
    }
  }

  lemma {:induction false} OneReplaces(entries: seq<Entry>, answers: seq<PollAnswer>)
    requires RunOneSpec(entries, answers).One?
    ensures var o := RunOneSpec(entries, answers);
      o.round.index < |entries| && o.entries == SwapRemove(entries, o.round.index) + QueuedAll(o.round.handler)
  {
    if !(answers[0].PollReady? && LastReady(entries, answers[0].revents, |entries|) >= 0) {
      OneReplaces(entries, answers[1..]);
    }
  }

  /** Each round of a run took the last entry that the answer to its `poll` called ready. */
  lemma {:induction false} RunHandlesReady(entries: seq<Entry>, answers: seq<PollAnswer>, k: nat)
    requires k < |RunSpec(entries, answers).rounds|
    ensures var rounds := RunSpec(entries, answers).rounds;
      && TakesLastReady(EntriesAt(entries, rounds, k), rounds[k])
      && PollReady(rounds[k].revents, rounds[k].handler) in answers
    decreases |answers|
  {
    hide RunOneSpec, SwapRemove, QueuedAll;
    RunOneTakesOneReady(entries, answers);
    OneReplaces(entries, answers);
    var o, rounds := RunOneSpec(entries, answers), RunSpec(entries, answers).rounds;
    var n: nat :| Answers(answers, n, o.round, o.rest);
    if k > 0 {
      assert rounds[1..] == RunSpec(o.entries, o.rest).rounds;
      RunHandlesReady(o.entries, o.rest, k - 1);
      EntriesShift(entries, rounds, k);
    }
  }

  /** A run is still waiting exactly if entries are left and no `poll` failed. */
  lemma {:induction false} RunWaitsIff(entries: seq<Entry>, answers: seq<PollAnswer>)
    ensures RunSpec(entries, answers).waiting <==> RunSpec(entries, answers).left != [] && PollFailed !in answers
    decreases |answers|
  {
    RunOneTakesOneReady(entries, answers);
    var o := RunOneSpec(entries, answers);
    if o.One? {
      var n := |answers| - |o.rest|;
      var k: nat :| Answers(answers, k, o.round, o.rest);
      assert answers == answers[..n] + o.rest;
      RunWaitsIff(o.entries, o.rest);
    }
  }

  // ---- the object ----------------------------------------------------------------------

  class PollContext {
    var poll: seq<PollFd>
    var outstanding: seq<Operation>

    predicate Valid()
      reads this
    {
      |poll| == |outstanding|
    }

    /** Both vectors read together: index by index, what one call added. */
    function Entries(): (entries: seq<Entry>)
      requires Valid()
      reads this
      ensures |entries| == |poll|
      ensures forall i :: 0 <= i < |poll| ==> entries[i] == Entry(poll[i], outstanding[i])
    {
      seq(|poll|, i requires 0 <= i < |poll| && Valid() reads this => Entry(poll[i], outstanding[i]))
    }

    constructor ()
      ensures Valid() && Entries() == []
    {
      poll, outstanding := [], [];
    }

    /** `_Add_Outstanding`: true means that the operation finished and was not queued. */
    method AddOutstanding(a: Add) returns (done: bool)
      requires Valid()
      modifies this
      ensures Valid() && Entries() == old(Entries()) + Queued(a)
      ensures done <==> !a.blocking && a.done
      // what is not done is queued, behind all that was there and all that its work queued
      ensures !done ==>
        && Entries() != [] && Entries()[|Entries()| - 1] == a.entry
        && old(Entries()) <= Entries()[..|Entries()| - 1]
      ensures a.blocking ==> Entries() == old(Entries()) + [a.entry]
      ensures done ==> Entries() == old(Entries()) + Unfinished(CallsOfAll(a.work))
      decreases a, 0
    {
      QueuedAreUnfinished(a);
      QueuedAllAreUnfinished(a.work);
      if !a.blocking {
        Work(a.work);
        if a.done {
          return true;
        }
      }
      poll := poll + [a.entry.pollfd];
      outstanding := outstanding + [a.entry.op];
      return false;
    }

    /** A handler, as far as this context sees it: the calls it makes. */
    method Work(adds: seq<Add>)
      requires Valid()
      modifies this
      ensures Valid() && Entries() == old(Entries()) + QueuedAll(adds)
      decreases adds, 1
    {
      if adds != [] {
        var _ := AddOutstanding(adds[0]);
        Work(adds[1..]);
      }
    }

    /** The scan from the back for an entry that is ready. */
    method FindReady(revents: seq<bv16>) returns (i: int)
      requires Valid()
      ensures i == LastReady(Entries(), revents, |poll|)
    {
      hide LastReady;
      i := |poll|;
      ghost var entries := Entries();
      while 0 < i
        invariant 0 <= i <= |poll|
        invariant LastReady(entries, revents, i) == LastReady(entries, revents, |poll|)
      {
        i := i - 1;
        LastReadyStep(entries, revents, i);
        if i < |revents| && revents[i] & (poll[i].events | POLLERR) != 0 {
          assert IsReady(entries[i], revents, i);
          return;
        }
        assert !IsReady(entries[i], revents, i);
      }
      i := -1;
    }

    /** The last entry moves into the hole at `i`, in both vectors. */
    method TakeOut(i: nat)
      requires Valid() && i < |poll|
      modifies this
      ensures Valid() && Entries() == SwapRemove(old(Entries()), i)
    {
      if i + 1 != |poll| {
        poll := poll[i := poll[|poll| - 1]];
        outstanding := outstanding[i := outstanding[|outstanding| - 1]];
      }
      poll := poll[..|poll| - 1];
      outstanding := outstanding[..|outstanding| - 1];
    }

    /** `run_one`. A negative count says that `poll` is still waiting after all `answers`. */
    method RunOne(answers: seq<PollAnswer>) returns (count: int, rest: seq<PollAnswer>)
      requires Valid()
      modifies this
      ensures Valid()
      ensures match RunOneSpec(old(Entries()), answers)
        case Zero(after, r) => count == 0 && Entries() == after && rest == r
        case One(after, r, _) => count == 1 && Entries() == after && rest == r
        case Waiting(after) => count == -1 && Entries() == after
    {
      rest := answers;
      if |poll| == 0 {
        return 0, rest;
      }
      while true
        invariant Valid() && Entries() == old(Entries()) && |poll| > 0
        invariant |rest| <= |answers|
        invariant RunOneSpec(Entries(), rest) == RunOneSpec(old(Entries()), answers)
        decreases |rest|
      {
        if rest == [] {
          return -1, rest;
        }
        var answer := rest[0];
        rest := rest[1..];
        match answer {
          case PollFailed => return 0, rest;
          case PollInterrupted =>
          case PollReady(revents, handler) =>
            var i := FindReady(revents);
            if 0 <= i {
              TakeOut(i);
              Work(handler);
              return 1, rest;
            }
        }
      }
    }

    /**
     `io_context::run` over this context: the rounds that the answers of `poll` lead to. It
     counts the operations there at the start and those added on the way, less those left over.
     */
    method Run(answers: seq<PollAnswer>) returns (count: nat, waiting: bool)
      requires Valid()
      modifies this
      ensures Valid()
      ensures var run := RunSpec(old(Entries()), answers);
        && count == |run.rounds| == |old(Entries())| + |Added(run.rounds)| - |Entries()|
        && Entries() == run.left && waiting == run.waiting
    {
      hide RunSpec, RunOneSpec, Behind;
      RunBalances(Entries(), answers);
      RunBegins(Entries(), answers);
      count, waiting := 0, false;
      var rest := answers;
      ghost var rounds: seq<Round> := [];
      while true
        invariant Valid() && count == |rounds|
        invariant RunSpec(old(Entries()), answers) == Behind(rounds, RunSpec(Entries(), rest))
        decreases |rest|
      {
        ghost var o := RunOneSpec(Entries(), rest);
        RunGoesOn(rounds, Entries(), rest);
        var c;
        c, rest := RunOne(rest);
        if c <= 0 {
          waiting := c < 0;
          return;
        }
        rounds := rounds + [o.round];
        count := count + c;
      }
    }
  }
}
