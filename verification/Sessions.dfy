/**
 Reading one request after the other from a connection: what is read does not depend on how
 the bytes arrive.
 */
module Sessions {
  import opened Text
  import opened Framing
  import opened Reading
  import opened Buffering
  import opened RequestParser
  import opened RequestRoundTrip

  /** The request in a head, or none in an empty one. */
  function ParseOf(head: string): Request {
    if |head| < 2 then NO_REQUEST else ParseRequest(head[..|head| - 2])
  }

  /**
   `read_http_request`. The second result says whether its final consume was defined; if it was
   not, the program has no defined state to go on from. For receives that always bring something
   that can be told before the call: bytes are coming, and the stream ends before its next head does.
   */
  method ReadHttpRequest(s: BufferedStream) returns (r: Request, consumed: bool, head: string)
    requires s.Ready()
    modifies s, s.stream`receives, s.stream`incoming
    ensures s.Valid() && (consumed ==> s.Ready())
    ensures r == ParseOf(head)
    ensures match ReadRequest(s.stream.want, old(s.View()))
      case Read(h, after) => consumed && head == h && s.View() == after
      case Nothing(after) => consumed && head == "" && s.View() == after
      case Undefined(after) => !consumed && head == "" && s.View() == after
    ensures (forall t :: s.stream.want(t) > 0) ==>
      var (fed, whole) := (old(|s.buffer|) > 0 && old(s.stream.incoming) != "", old(s.Held() + s.stream.incoming));
      && (head != "" <==> fed && HeadLength(whole) > 0)
      && (!consumed <==> fed && HeadLength(whole) == 0)
  {
    hide ParseRequest, HeadLength, Fit, HeldAtLast, Receive, Reading.ReadHead, MapsToLast, FieldText;
    ghost var b := s.View();
    if ReadRequest(s.stream.want, b).Read? {
      ReadTakesFirst(s.stream.want, b);
    }
    if forall t :: s.stream.want(t) > 0 {
      ReadRequestIfBrought(s.stream.want, b);
    }
    r := NO_REQUEST;
    head := s.ReadHead();
    if head != "" {
      HeadEndsInBreak(s.Held());
      r := ParseHead(head);
    }
    consumed := 0 <= s.pos <= s.end;
    if consumed {
      s.Consume();
    }
  }

  /** A stream that ends inside a head, for one: the bytes are received and then `npos` of them erased. */
  lemma EndInsideHeadIsUndefined(want: nat -> nat)
    requires forall t :: want(t) > 0
    ensures ReadRequest(want, Inbox(0, INITIAL, "", "GET")).Undefined?
  {
    ReadRequestIfBrought(want, Inbox(0, INITIAL, "", "GET"));
  }

  // ---- any stream, any chunking --------------------------------------------------------

  function Join(heads: seq<string>): string {
    if heads == [] then "" else Join(heads[..|heads| - 1]) + heads[|heads| - 1]
  }

  lemma {:induction false} JoinFirst(head: string, heads: seq<string>)
    ensures Join([head] + heads) == head + Join(heads)
  {
    if heads == [] {
      assert [head] + heads == [head] && [head][..0] == [];
    } else {
      var n := |heads| - 1;
      JoinFirst(head, heads[..n]);
      assert ([head] + heads)[..n + 1] == [head] + heads[..n];
      Regroup(head, Join(heads[..n]), heads[n]);
    }
  }

  /** What the split is: heads that end at their only empty line, and a remainder with none. */
  lemma {:induction false} SplitIsGreedy(s: string) returns (rest: string)
    ensures Join(Split(s)) + rest == s && HeadLength(rest) == 0
    ensures forall h :: h in Split(s) ==> HeadLength(h) == |h| > 0
    decreases |s|
  {
    hide HeadLength;
    var n := HeadLength(s);
    if n == 0 {
      rest := s;
      assert "" + s == s;
    } else {
      rest := SplitIsGreedy(s[n..]);
      HeadIsItsOwnHead(s);
      JoinFirst(s[..n], Split(s[n..]));
      Regroup(s[..n], Join(Split(s[n..])), rest);
      assert s[..n] + s[n..] == s;
    }
  }

  /** The heads that reading gets until nothing comes. */
  function Heads(want: nat -> nat, b: Inbox): seq<string>
    requires Fits(b)
    decreases |b.incoming|
  {
    match ReadRequest(want, b)
    case Read(head, after) => ReadTakesFirst(want, b); [head] + Heads(want, after)
    case _ => []
  }

  /** How it stops. */
  function Stop(want: nat -> nat, b: Inbox): (r: RequestRead)
    requires Fits(b)
    ensures Fits(r.after) && !r.Read?
    decreases |b.incoming|
  {
    match ReadRequest(want, b)
    case Read(_, after) => ReadTakesFirst(want, b); Stop(want, after)
    case r => r
  }

  /** The first head of a stream is the next one of its split, and takes its bytes along. */
  lemma FirstOfSplit(s: string, head: string)
    requires HeadLength(s) > 0 && head == s[..HeadLength(s)]
    ensures Split(s) == [head] + Split(s[|head|..]) && s == head + s[|head|..]
  {
    hide HeadLength;
  }

  /** The heads read are the first ones of the greedy split; the rest is held or to come, and no byte is lost. */
  lemma {:induction false} HeadsAreFirst(want: nat -> nat, b: Inbox)
    requires Fits(b)
    ensures var left := Unread(Stop(want, b).after);
      && Heads(want, b) + Split(left) == Split(Unread(b))
      && Join(Heads(want, b)) + left == Unread(b)
    decreases |b.incoming|
  {
    hide HeadLength, ReadRequest, Split;
    var r := ReadRequest(want, b);
    if r.Read? {
      ReadTakesFirst(want, b);
      HeadsAreFirst(want, r.after);
      FirstOfSplit(Unread(b), r.head);
      var more, left := Heads(want, r.after), Unread(Stop(want, b).after);
      JoinFirst(r.head, more);
      Regroup(r.head, Join(more), left);
      assert ([r.head] + more) + Split(left) == [r.head] + (more + Split(left));
    } else {
      NothingRead(want, b);
      assert [] + Split(Unread(b)) == Split(Unread(b)) && "" + Unread(b) == Unread(b);
    }
  }

  lemma NothingRead(want: nat -> nat, b: Inbox)
    requires Fits(b) && !ReadRequest(want, b).Read?
    ensures var r := ReadRequest(want, b);
      && Unread(r.after) == Unread(b)
      && b.receives < r.after.receives
      && (r.after.incoming == "" || r.after.capacity == 0 || want(r.after.receives - 1) == 0)
      && (r.after.capacity == 0 <==> b.capacity == 0)
      && HeadLength(r.after.held) == (if r.Nothing? then HeadLength(b.held) else 0)
      && (r.after.held == b.held <==> r.Nothing?)
  {
    hide HeadLength;
    NoHeadEnds(want, b);
    var last := ReadRequest(want, b).after.held;
    assert |last| == |b.held| ==> last == b.held;
  }

  /** Reading stops only when everything was received, a receive brought nothing, or the buffer has size 0. */
  lemma {:induction false} StopsOnlyWhenFed(want: nat -> nat, b: Inbox)
    requires Fits(b)
    ensures var after := Stop(want, b).after;
      b.receives < after.receives
      && (after.incoming == "" || after.capacity == 0 || want(after.receives - 1) == 0)
    decreases |b.incoming|
  {
    hide HeadLength, ReadRequest;
    if ReadRequest(want, b).Read? {
      ReadTakesFirst(want, b);
      StopsOnlyWhenFed(want, ReadRequest(want, b).after);
    } else {
      NothingRead(want, b);
    }
  }

  function Parses(heads: seq<string>): (requests: seq<Request>)
    ensures |requests| == |heads| && forall i :: 0 <= i < |heads| ==> requests[i] == ParseOf(heads[i])
  {
    if heads == [] then [] else Parses(heads[..|heads| - 1]) + [ParseOf(heads[|heads| - 1])]
  }

  lemma ParsesMore(heads: seq<string>, head: string)
    ensures Parses(heads + [head]) == Parses(heads) + [ParseOf(head)]
  {
    assert (heads + [head])[..|heads|] == heads;
  }

  /** Two runs over the same stream, in any chunks, differ at most in how far they get. */
  lemma ChunkingDoesNotMatter(wantA: nat -> nat, a: Inbox, wantB: nat -> nat, b: Inbox)
    requires Fits(a) && Fits(b) && Unread(a) == Unread(b)
    ensures var (x, y) := (Heads(wantA, a), Heads(wantB, b)); x <= y || y <= x
    ensures var (x, y) := (Parses(Heads(wantA, a)), Parses(Heads(wantB, b))); x <= y || y <= x
  {
    HeadsAreFirst(wantA, a);
    HeadsAreFirst(wantB, b);
    var x, y, all := Heads(wantA, a), Heads(wantB, b), Split(Unread(a));
    assert x == all[..|x|] && y == all[..|y|];
  }

  /** A byte that completes a head is its last one. */
  lemma {:induction false} LastByteCompletes(want: nat -> nat, b: Inbox)
    requires Fits(b) && (forall t :: want(t) == 1) && HeadLength(b.held) == 0
    requires ReadHead(want, b).Found?
    ensures HeadLength(ReadHead(want, b).after.held) == |ReadHead(want, b).after.held|
    decreases |b.incoming|
  {
    hide HeadLength;
    ReceiveKeepsBytes(want, b);
    var after := Receive(want, b);
    if HeadLength(after.held) > 0 {
      assert after.held == b.held + after.held[|b.held|..];
      HeadEndsBehind(b.held, after.held[|b.held|..]);
    } else {
      LastByteCompletes(want, after);
    }
  }

  function Lengths(heads: seq<string>): (sizes: seq<nat>)
    ensures |sizes| == |heads|
  {
    if heads == [] then [] else [|heads[0]|] + Lengths(heads[1..])
  }

  /** Byte by byte all heads of a stream are read, up to the first that leaves no capacity behind it. */
  lemma {:induction false} ByteByByteReadsServed(want: nat -> nat, b: Inbox)
    requires Fits(b) && (forall t :: want(t) == 1) && HeadLength(b.held) == 0
    ensures Heads(want, b) == Split(Unread(b))[..Served(b.capacity, Lengths(Split(Unread(b))))]
    decreases |b.incoming|
  {
    hide HeadLength, ReadRequest, Fit;
    var r, all := ReadRequest(want, b), Split(Unread(b));
    if r.Read? {
      ReadTakesFirst(want, b);
      ReadLastByte(want, b);
      ByteByByteReadsServed(want, r.after);
      FirstOfSplit(Unread(b), r.head);
      assert all[1..] == Split(Unread(r.after));
      assert Lengths(all) == [|r.head|] + Lengths(all[1..]);
    } else {
      NothingRead(want, b);
      assert b.capacity > 0 ==> Unread(r.after) == r.after.held && all == [];
    }
  }

  lemma ReadLastByte(want: nat -> nat, b: Inbox)
    requires Fits(b) && (forall t :: want(t) == 1) && HeadLength(b.held) == 0
    requires ReadRequest(want, b).Read?
    ensures ReadRequest(want, b).after.held == "" && HeadLength("") == 0
  {
    LastByteCompletes(want, b);
  }

  /** Reading until nothing comes. */
  method ReadRequests(s: BufferedStream) returns (requests: seq<Request>)
    requires s.Ready()
    modifies s, s.stream`receives, s.stream`incoming
    ensures s.Valid() && s.View() == Stop(s.stream.want, old(s.View())).after
    ensures requests == Parses(Heads(s.stream.want, old(s.View())))
  {
    hide ParseRequest, ReadRequest, HeadLength;
    requests := [];
    ghost var heads: seq<string> := [];
    while true
      invariant s.Ready() && requests == Parses(heads)
      invariant Heads(s.stream.want, old(s.View())) == heads + Heads(s.stream.want, s.View())
      invariant Stop(s.stream.want, old(s.View())) == Stop(s.stream.want, s.View())
      decreases |s.stream.incoming|
    {
      ReadsOn(s.stream.want, s.View(), heads);
      var r, consumed, head := ReadHttpRequest(s);
      if head == "" {
        return;
      }
      ParsesMore(heads, head);
      requests, heads := requests + [r], heads + [head];
    }
  }

  lemma ReadsOn(want: nat -> nat, b: Inbox, heads: seq<string>)
    requires Fits(b)
    ensures match ReadRequest(want, b)
      case Read(head, after) =>
        && head != "" && |after.incoming| < |b.incoming|
        && heads + Heads(want, b) == (heads + [head]) + Heads(want, after) && Stop(want, b) == Stop(want, after)
      case r => heads + Heads(want, b) == heads && Stop(want, b) == r
  {
    hide HeadLength;
    if ReadRequest(want, b).Read? {
      ReadTakesFirst(want, b);
    }
  }

  // ---- request by request --------------------------------------------------------------

  function Sizes(rs: seq<RawRequest>): (sizes: seq<nat>)
    ensures |sizes| == |rs|
  {
    if rs == [] then [] else [|Render(rs[0])|] + Sizes(rs[1..])
  }

  /** The capacity left when a head of `n` bytes is consumed from a buffer that had `c`. */
  function Left(c: nat, n: nat): nat
    requires c > 0
  {
    Fit(c, n) - n
  }

  /** It is none exactly if the head is as long as some doubling of the capacity. */
  lemma ExactFitIff(c: nat, n: nat)
    requires c > 0
    ensures Left(c, n) == 0 <==> exists k :: Doubled(c, k) == n
  {
    var k := FitIsLeast(c, n);
    if j: nat :| Doubled(c, j) == n {
      if k < j {
        DoubledGrows(c, k, j);
      }
    }
  }

  lemma {:induction false} DoubledGrows(c: nat, k: nat, j: nat)
    requires c > 0 && k < j
    ensures Doubled(c, k) < Doubled(c, j)
    decreases k
  {
    if k > 0 {
      DoubledGrows(2 * c, k - 1, j - 1);
    } else {
      DoubledAtLeast(2 * c, j - 1);
    }
  }

  lemma {:induction false} DoubledAtLeast(c: nat, k: nat)
    ensures Doubled(c, k) >= c
    decreases k
  {
    if k > 0 {
      DoubledAtLeast(2 * c, k - 1);
    }
  }

  /** How many heads of these sizes a buffer of capacity `c` serves: an exact fit leaves none for the next. */
  function Served(c: nat, sizes: seq<nat>): (n: nat)
    ensures n <= |sizes|
    decreases |sizes|
  {
    if sizes == [] || c == 0 then 0 else 1 + Served(Left(c, sizes[0]), sizes[1..])
  }

  /** The capacity in front of head `i`. */
  function CapacityAt(c: nat, sizes: seq<nat>, i: nat): nat
    requires i <= |sizes|
    decreases i
  {
    if i == 0 then c
    else if CapacityAt(c, sizes, i - 1) == 0 then 0
    else Left(CapacityAt(c, sizes, i - 1), sizes[i - 1])
  }

  lemma {:induction false} CapacityShifts(c: nat, sizes: seq<nat>, i: nat)
    requires c > 0 && 0 < i <= |sizes|
    ensures CapacityAt(c, sizes, i) == CapacityAt(Left(c, sizes[0]), sizes[1..], i - 1)
    decreases i
  {
    if i > 1 {
      CapacityShifts(c, sizes, i - 1);
    }
  }

  predicate RoomForAll(c: nat, sizes: seq<nat>) {
    forall i :: 0 <= i < |sizes| ==> CapacityAt(c, sizes, i) > 0
  }

  lemma RoomForRest(c: nat, sizes: seq<nat>)
    requires c > 0 && sizes != []
    ensures RoomForAll(c, sizes) <==> RoomForAll(Left(c, sizes[0]), sizes[1..])
  {
    forall i | 0 < i < |sizes|
      ensures CapacityAt(c, sizes, i) == CapacityAt(Left(c, sizes[0]), sizes[1..], i - 1)
    {
      CapacityShifts(c, sizes, i);
    }
    if RoomForAll(c, sizes) {
      forall j | 0 <= j < |sizes| - 1 ensures CapacityAt(Left(c, sizes[0]), sizes[1..], j) > 0 {
        assert CapacityAt(c, sizes, j + 1) > 0;
      }
    }
  }

  /** All are served exactly if no head but the last fits exactly: no capacity on the way is zero. */
  lemma {:induction false} AllServedIffNoExactFit(c: nat, sizes: seq<nat>)
    ensures Served(c, sizes) == |sizes| <==> RoomForAll(c, sizes)
    decreases |sizes|
  {
    if sizes != [] {
      if c > 0 {
        RoomForRest(c, sizes);
        AllServedIffNoExactFit(Left(c, sizes[0]), sizes[1..]);
      } else {
        assert CapacityAt(c, sizes, 0) == 0;
      }
    }
  }

  /** A request of 1024 bytes, the size that the buffer starts with. */
  const FULL := RawRequest("GET", "/", "HTTP/1.1", [Field("A", seq(1001, _ => 'a'))])

  /** It is well-formed, and no request sent after it is read. */
  lemma ExactFitStarves(next: RawRequest)
    ensures WellFormed(FULL) && |Render(FULL)| == INITIAL
    ensures Served(INITIAL, Sizes([FULL, next])) == 1
  {
    var line := RequestLine(FULL);
    var field := FieldLine(FULL.fields[0]);
    assert FULL.fields[1..] == [] && FieldLines(FULL.fields) == [field];
    var ls := [line] + [field];
    assert ls[1..] == [field] && [field][1..] == [];
    assert Lines([field]) == field + CRLF + "";
    assert Lines(ls) == line + CRLF + (field + CRLF);
    assert |line| == 14 && |field| == 1004;
    assert [FULL, next][1..] == [next] && Sizes([FULL, next]) == [|Render(FULL)|] + Sizes([next]);
    assert Left(INITIAL, INITIAL) == 0;
  }

  function ReceivedRequests(rs: seq<RawRequest>): (received: seq<Request>)
    ensures |received| == |rs|
  {
    if rs == [] then [] else [ReceivedRequest(rs[0])] + ReceivedRequests(rs[1..])
  }

  lemma RenderingAlone(raw: RawRequest)
    requires WellFormed(raw)
    ensures HeadLength(Render(raw)) == |Render(raw)| > 0
  {
    RenderIsOneHead(raw, "");
    assert Render(raw) + "" == Render(raw);
  }

  lemma ReadWhole(raw: RawRequest, want: nat -> nat, b: Inbox)
    requires WellFormed(raw) && Fits(b) && Unread(b) == Render(raw) && ReadRequest(want, b).Read?
    ensures var r := ReadRequest(want, b);
      && ParseOf(r.head) == ReceivedRequest(raw) && Unread(r.after) == ""
      && r.after.capacity == Left(b.capacity, |Render(raw)|)
  {
    hide Render, ParseRequest, HeadLength, ReceivedRequest;
    ReadTakesFirst(want, b);
    RenderingAlone(raw);
    assert Render(raw)[..|Render(raw)|] == Render(raw);
    ParseUndoesRender(raw);
  }

  lemma {:induction false} ReceivedAt(rs: seq<RawRequest>, i: nat)
    requires i < |rs|
    ensures ReceivedRequests(rs)[..i + 1] == ReceivedRequests(rs)[..i] + [ReceivedRequest(rs[i])]
  {
    if i > 0 {
      ReceivedAt(rs[1..], i - 1);
    }
  }

  /** One request that arrives alone, in any chunks, is read exactly and leaves nothing behind. */
  method ReadArrived(s: BufferedStream, raw: RawRequest) returns (r: Request, found: bool)
    requires s.Ready() && s.Held() == "" && s.stream.incoming == "" && WellFormed(raw)
    requires forall t :: s.stream.want(t) > 0
    modifies s, s.stream`receives, s.stream`incoming
    ensures s.Valid() && (found <==> old(|s.buffer|) > 0)
    ensures found ==>
      && r == ReceivedRequest(raw)
      && s.Ready() && s.Held() == "" && s.stream.incoming == ""
      && |s.buffer| == Left(old(|s.buffer|), |Render(raw)|)
  {
    hide Render, ParseRequest, HeadLength, ReadRequest, ReceivedRequest;
    s.stream.Arrive(Render(raw));
    ghost var b := s.View();
    assert Unread(b) == Render(raw);
    RenderingAlone(raw);
    ReadRequestIfBrought(s.stream.want, b);
    if |s.buffer| > 0 {
      ReadWhole(raw, s.stream.want, b);
    }
    var consumed, head;
    r, consumed, head := ReadHttpRequest(s);
    found := head != "";
  }

  /**
   End to end: requests that arrive one by one, each in any chunks, are read as they were sent,
   up to the first head that fills the buffer exactly. How far that is depends on the sizes only.
   */
  method ReadOneByOne(s: BufferedStream, raws: seq<RawRequest>) returns (requests: seq<Request>)
    requires s.Ready() && s.Held() == "" && s.stream.incoming == ""
    requires forall r :: r in raws ==> WellFormed(r)
    requires forall t :: s.stream.want(t) > 0
    modifies s, s.stream`receives, s.stream`incoming
    ensures requests == ReceivedRequests(raws)[..Served(old(|s.buffer|), Sizes(raws))]
  {
    requests := [];
    var i := 0;
    ghost var c := |s.buffer|;
    while i < |raws|
      invariant 0 <= i <= |raws| && s.Ready() && s.Held() == "" && s.stream.incoming == ""
      invariant requests == ReceivedRequests(raws)[..i]
      invariant Served(c, Sizes(raws)) == i + Served(|s.buffer|, Sizes(raws)[i..])
    {
      SizeAt(raws, i);
      ReceivedAt(raws, i);
      assert WellFormed(raws[i]);
      var r, found := ReadArrived(s, raws[i]);
      if !found {
        return;
      }
      requests := requests + [r];
      i := i + 1;
    }
  }

  lemma {:induction false} SizeAt(rs: seq<RawRequest>, i: nat)
    requires i < |rs|
    ensures Sizes(rs)[i] == |Render(rs[i])| && Sizes(rs)[i..][1..] == Sizes(rs)[i + 1..]
  {
    if i > 0 {
      SizeAt(rs[1..], i - 1);
    }
  }
}
