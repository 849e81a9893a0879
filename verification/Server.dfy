/**
 One client connection from end to end: read a request, answer it, go on while it is kept alive.
 */
module Server {
  import opened Text
  import opened Framing
  import opened Reading
  import opened Buffering
  import opened RequestParser
  import opened RequestRoundTrip
  import opened Sessions
  import opened Responses

  const ERROR := Response("550 ERROR", "")
  const NOT_FOUND := Response("404 NOT FOUND", "not found")

  function ContentResponse(resources: map<string, string>, uri: string): Response {
    if uri in resources then Response("200 OK", resources[uri]) else NOT_FOUND
  }

  /** Only GET is answered; any other method gets no response at all. */
  function Answer(resources: map<string, string>, r: Request): seq<Response> {
    if r.verb == "GET" then [ContentResponse(resources, r.uri)] else []
  }

  predicate KeepAlive(r: Request) {
    "Connection" in r.headers && r.headers["Connection"] == "keep-alive"
  }

  function AnswerAll(resources: map<string, string>, requests: seq<Request>): seq<Response> {
    if requests == [] then []
    else AnswerAll(resources, requests[..|requests| - 1]) + Answer(resources, requests[|requests| - 1])
  }

  lemma AnswerMore(resources: map<string, string>, requests: seq<Request>, r: Request)
    ensures AnswerAll(resources, requests + [r]) == AnswerAll(resources, requests) + Answer(resources, r)
  {
    assert (requests + [r])[..|requests|] == requests;
  }

  lemma {:induction false} AnswersAreOneLine(resources: map<string, string>, requests: seq<Request>)
    ensures forall a :: a in AnswerAll(resources, requests) ==> OneLineStatus(a)
  {
    if requests != [] {
      AnswersAreOneLine(resources, requests[..|requests| - 1]);
    }
  }

  // ---- a connection on values ----------------------------------------------------------

  /** How a connection ended: not kept alive, with an empty request, or in an undefined consume. */
  datatype Ending = NotKeptAlive | EmptyRequest | Broken

  /** The requests served, how it ended, and what was there after the last of these requests. */
  datatype Connection = Connection(requests: seq<Request>, ending: Ending, left: Inbox)

  function Before(requests: seq<Request>, c: Connection): Connection {
    c.(requests := requests + c.requests)
  }

  /** Read requests and serve them, until one is not kept alive or none is read. */
  function Serve(want: nat -> nat, b: Inbox): (c: Connection)
    requires Fits(b)
    ensures Fits(c.left)
    decreases |b.incoming|
  {
    match ReadRequest(want, b)
    case Undefined(_) => Connection([], Broken, b)
    case Nothing(_) => Connection([], EmptyRequest, b)
    case Read(head, after) =>
      ReadTakesFirst(want, b);
      var r := ParseOf(head);
      if r.verb == "" then Connection([], EmptyRequest, b)
      else if !KeepAlive(r) then Connection([r], NotKeptAlive, after)
      else Before([r], Serve(want, after))
  }

  /** The state after the last read: behind the last request served, or after a read that gave none to serve. */
  function LastRead(want: nat -> nat, c: Connection): Inbox
    requires Fits(c.left)
  {
    if c.ending == NotKeptAlive then c.left else ReadRequest(want, c.left).after
  }

  /** What the server has to say on a connection. */
  function ResponsesOf(resources: map<string, string>, c: Connection): seq<Response> {
    AnswerAll(resources, c.requests) + if c.ending == EmptyRequest then [ERROR] else []
  }

  lemma ServeStep(want: nat -> nat, b: Inbox, done: seq<Request>)
    requires Fits(b)
    ensures match ReadRequest(want, b)
      case Undefined(_) => Before(done, Serve(want, b)) == Connection(done, Broken, b)
      case Nothing(_) => Before(done, Serve(want, b)) == Connection(done, EmptyRequest, b)
      case Read(head, after) =>
        var r := ParseOf(head);
        && head != "" && |after.incoming| < |b.incoming|
        && Before(done, Serve(want, b)) ==
             if r.verb == "" then Connection(done, EmptyRequest, b)
             else if !KeepAlive(r) then Connection(done + [r], NotKeptAlive, after)
             else Before(done + [r], Serve(want, after))
  {
    hide ReadRequest, ParseOf;
    if ReadRequest(want, b).Read? {
      ReadTakesFirst(want, b);
      var r, after := ParseOf(ReadRequest(want, b).head), ReadRequest(want, b).after;
      assert done + ([r] + Serve(want, after).requests) == (done + [r]) + Serve(want, after).requests;
    }
    assert done + [] == done;
  }

  /** What is served are the requests in the first heads of the stream, and what is left is behind them. */
  lemma {:induction false} ServedAreFirst(want: nat -> nat, b: Inbox)
    requires Fits(b)
    ensures var (c, all) := (Serve(want, b), Split(Unread(b)));
      && |c.requests| <= |all| && Split(Unread(c.left)) == all[|c.requests|..]
      && forall i :: 0 <= i < |c.requests| ==> c.requests[i] == ParseOf(all[i])
    decreases |b.incoming|
  {
    hide ReadRequest, ParseOf, HeadLength, Split;
    var r := ReadRequest(want, b);
    if r.Read? && ParseOf(r.head).verb != "" {
      ReadTakesFirst(want, b);
      FirstOfSplit(Unread(b), r.head);
      if KeepAlive(ParseOf(r.head)) {
        ServedAreFirst(want, r.after);
      }
    }
  }

  predicate AllButLastKeptAlive(c: Connection) {
    && (c.ending == NotKeptAlive ==> c.requests != [])
    && forall i :: 0 <= i < |c.requests| ==>
         (KeepAlive(c.requests[i]) <==> i < |c.requests| - 1 || c.ending != NotKeptAlive)
  }

  /** Every request served has a method, and all but the last of a connection not kept alive are kept alive. */
  lemma {:induction false} ServedAreKeptAlive(want: nat -> nat, b: Inbox)
    requires Fits(b)
    ensures var c := Serve(want, b);
      && (forall i :: 0 <= i < |c.requests| ==> c.requests[i].verb != "")
      && AllButLastKeptAlive(c)
    decreases |b.incoming|
  {
    hide ReadRequest, ParseOf;
    var r := ReadRequest(want, b);
    if r.Read? && ParseOf(r.head).verb != "" && KeepAlive(ParseOf(r.head)) {
      ReadTakesFirst(want, b);
      ServedAreKeptAlive(want, r.after);
    }
  }

  /** Otherwise the read behind the last request served tells how the connection ended. */
  lemma {:induction false} EndsAtLastRead(want: nat -> nat, b: Inbox)
    requires Fits(b)
    ensures var c := Serve(want, b);
      c.ending != NotKeptAlive ==>
        match ReadRequest(want, c.left)
        case Undefined(_) => c.ending == Broken
        case Nothing(_) => c.ending == EmptyRequest
        case Read(head, _) => c.ending == EmptyRequest && ParseOf(head).verb == ""
    decreases |b.incoming|
  {
    hide ReadRequest, ParseOf;
    var r := ReadRequest(want, b);
    if r.Read? && ParseOf(r.head).verb != "" && KeepAlive(ParseOf(r.head)) {
      ReadTakesFirst(want, b);
      EndsAtLastRead(want, r.after);
    }
  }

  /** The last request served asked to be kept alive, as far as there is one. */
  predicate StillAlive(requests: seq<Request>) {
    requests == [] || KeepAlive(requests[|requests| - 1])
  }

  predicate NextHasNoMethod(k: Inbox) {
    ParseOf(Unread(k)[..HeadLength(Unread(k))]).verb == ""
  }

  /**
   Exactly how a connection ends, from what is left behind the requests it served: with the last of
   them, if that is not kept alive; in an undefined consume, if bytes come but end before a head does;
   and with an empty request, if the first receive brings nothing or the next head has no method.
   */
  lemma EndsIff(want: nat -> nat, b: Inbox)
    requires Fits(b)
    ensures var c := Serve(want, b);
      var (k, last) := (c.left, HeldAtLast(want, c.left));
      var alive := StillAlive(c.requests);
      && (c.ending == NotKeptAlive <==> !alive)
      && (c.ending == Broken <==> alive && last != k.held && HeadLength(last) == 0)
      && (c.ending == EmptyRequest <==>
            alive && (k.capacity == 0 || k.incoming == "" || want(k.receives) == 0
                      || (HeadLength(last) > 0 && NextHasNoMethod(k))))
  {
    hide ReadRequest, ParseOf, HeadLength, Serve, HeldAtLast;
    var c := Serve(want, b);
    ServedAreKeptAlive(want, b);
    EndsAtLastRead(want, b);
    ReadRequestIff(want, c.left);
    if ReadRequest(want, c.left).Read? {
      ReadTakesFirst(want, c.left);
    }
  }

  lemma NotKeptAliveIsLast(c: Connection, d: Connection)
    requires c.ending == NotKeptAlive && AllButLastKeptAlive(c) && AllButLastKeptAlive(d)
    requires forall i :: 0 <= i < |c.requests| && i < |d.requests| ==> c.requests[i] == d.requests[i]
    ensures d.requests <= c.requests
  {
    var i := |c.requests| - 1;
    assert i < |d.requests| ==> c.requests[i] == d.requests[i];
  }

  /**
   Two connections over the same stream, in any chunks, serve the same requests as far as both get,
   and the very same ones if both end because they are not kept alive.
   */
  lemma ChunkingDoesNotMatterToServe(wantA: nat -> nat, a: Inbox, wantB: nat -> nat, b: Inbox)
    requires Fits(a) && Fits(b) && Unread(a) == Unread(b)
    ensures var (x, y) := (Serve(wantA, a).requests, Serve(wantB, b).requests); x <= y || y <= x
    ensures var (c, d) := (Serve(wantA, a), Serve(wantB, b));
      c.ending == NotKeptAlive ==> d.requests <= c.requests && (d.ending == NotKeptAlive ==> d.requests == c.requests)
  {
    hide Serve, ParseOf, Split;
    ServedAreFirst(wantA, a);
    ServedAreFirst(wantB, b);
    ServedAreKeptAlive(wantA, a);
    ServedAreKeptAlive(wantB, b);
    var c, d := Serve(wantA, a), Serve(wantB, b);
    if c.ending == NotKeptAlive {
      NotKeptAliveIsLast(c, d);
    }
    if d.ending == NotKeptAlive {
      NotKeptAliveIsLast(d, c);
    }
  }

  lemma ResponsesAreOneLine(resources: map<string, string>, c: Connection)
    ensures forall r :: r in ResponsesOf(resources, c) ==> OneLineStatus(r)
  {
    AnswersAreOneLine(resources, c.requests);
  }

  /**
   What the peer makes of the bytes it took: all responses in order if it always takes something,
   and those that it took in full if it shuts for good at some byte.
   */
  lemma PeerDecodes(accept: nat -> nat, t: nat, resources: map<string, string>, c: Connection)
    ensures var (wire, rs) := (WrittenAll(accept, t, ResponsesOf(resources, c)).0, ResponsesOf(resources, c));
      && (TakesAlways(accept, t) ==> DecodeAll(wire) == rs)
      && (StaysShut(accept, t) ==> DecodeAll(wire) == rs[..Whole(rs, |wire|)])
  {
    hide WrittenAll, DecodeAll, EncodeAll, ResponsesOf, Whole;
    var rs := ResponsesOf(resources, c);
    var wire := WrittenAll(accept, t, rs).0;
    ResponsesAreOneLine(resources, c);
    WrittenAllTo(accept, t, rs);
    DecodeUndoesEncodeAll(rs);
    if StaysShut(accept, t) {
      DecodePrefix(rs, |wire|);
      assert wire == EncodeAll(rs)[..|wire|];
    }
  }

  // ---- the requests a client sent -------------------------------------------------------

  /** Of these requests, those up to the first without a method or through the first not kept alive. */
  function ServedOf(requests: seq<Request>): (served: seq<Request>)
    ensures served <= requests
  {
    if requests == [] || requests[0].verb == "" then []
    else if !KeepAlive(requests[0]) then requests[..1]
    else requests[..1] + ServedOf(requests[1..])
  }

  lemma ParsesFirst(head: string, heads: seq<string>)
    ensures Parses([head] + heads) == [ParseOf(head)] + Parses(heads)
  {
    hide ParseOf;
    var all := [head] + heads;
    assert forall i :: 0 < i < |all| ==> all[i] == heads[i - 1];
  }

  /** A connection serves just these of the requests that reading gets out of its stream. */
  lemma {:induction false} ServesWhatIsRead(want: nat -> nat, b: Inbox)
    requires Fits(b)
    ensures Serve(want, b).requests == ServedOf(Parses(Heads(want, b)))
    decreases |b.incoming|
  {
    hide ReadRequest, ParseOf, KeepAlive, Parses;
    var r := ReadRequest(want, b);
    if r.Read? {
      ReadTakesFirst(want, b);
      ServesWhatIsRead(want, r.after);
      var more := Heads(want, r.after);
      ParsesFirst(r.head, more);
      var all := [ParseOf(r.head)] + Parses(more);
      assert all[..1] == [ParseOf(r.head)] && all[1..] == Parses(more);
    } else {
      NoParses();
    }
  }

  lemma NoParses()
    ensures Parses([]) == []
  {
  }

  lemma {:induction false} ParsesOfRenderings(raws: seq<RawRequest>)
    requires forall r :: r in raws ==> WellFormed(r)
    ensures Parses(Renderings(raws)) == ReceivedRequests(raws)
  {
    hide ParseOf, Render, ReceivedRequest, WellFormed, Parses;
    if raws == [] {
      NoParses();
    } else {
      assert forall r :: r in raws[1..] ==> r in raws;
      ParsesOfRenderings(raws[1..]);
      ParsesFirst(Render(raws[0]), Renderings(raws[1..]));
      ParseOfRendering(raws[0]);
    }
  }

  lemma ParseOfRendering(raw: RawRequest)
    requires WellFormed(raw)
    ensures ParseOf(Render(raw)) == ReceivedRequest(raw)
  {
    hide ParseRequest, Render, ReceivedRequest;
    ParseUndoesRender(raw);
  }

  /** However the bytes of a client's requests arrive, a connection serves a first part of them, as they were sent. */
  lemma ServesWhatWasSent(want: nat -> nat, b: Inbox, raws: seq<RawRequest>)
    requires Fits(b) && Unread(b) == RenderAll(raws) && forall r :: r in raws ==> WellFormed(r)
    ensures Serve(want, b).requests <= ServedOf(ReceivedRequests(raws))
  {
    hide Serve, ReceivedRequests, RenderAll, Renderings, WellFormed, ServedOf, Parses, Heads;
    ServesWhatIsRead(want, b);
    HeadsAreFirst(want, b);
    SplitUndoesRenderAll(raws);
    ParsesOfRenderings(raws);
    var heads, all := Heads(want, b), Split(Unread(b));
    assert heads == all[..|heads|];
    ParsesOfFirst(all, |heads|);
    ServedOfFirst(Parses(all), |heads|);
  }

  lemma {:induction false} ServedOfFirst(requests: seq<Request>, n: nat)
    requires n <= |requests|
    ensures ServedOf(requests[..n]) <= ServedOf(requests)
  {
    hide KeepAlive;
    if n > 0 {
      assert requests[..n][..1] == requests[..1] && requests[..n][1..] == requests[1..][..n - 1];
      ServedOfFirst(requests[1..], n - 1);
    }
  }

  /** Byte by byte the part is exact: what comes through the first rendering that fills the buffer exactly. */
  lemma ServesByteByByte(want: nat -> nat, b: Inbox, raws: seq<RawRequest>)
    requires Fits(b) && b.held == "" && b.incoming == RenderAll(raws) && forall r :: r in raws ==> WellFormed(r)
    requires forall t :: want(t) == 1
    ensures Serve(want, b).requests == ServedOf(ReceivedRequests(raws)[..Served(b.capacity, Sizes(raws))])
  {
    hide Serve, ReceivedRequests, RenderAll, Renderings, WellFormed, ServedOf, Parses, Heads, Split, HeadLength;
    hide Served, Sizes, Lengths;
    ServesWhatIsRead(want, b);
    NothingHeld(b);
    ByteByByteReadsServed(want, b);
    SplitUndoesRenderAll(raws);
    ParsesOfRenderings(raws);
    LengthsOfRenderings(raws);
    ParsesOfFirst(Split(Unread(b)), Served(b.capacity, Sizes(raws)));
  }

  lemma NothingHeld(b: Inbox)
    requires b.held == ""
    ensures Unread(b) == b.incoming && HeadLength(b.held) == 0
  {
  }

  lemma ParsesOfFirst(heads: seq<string>, n: nat)
    requires n <= |heads|
    ensures Parses(heads[..n]) == Parses(heads)[..n]
  {
    hide ParseOf;
  }

  lemma {:induction false} LengthsOfRenderings(raws: seq<RawRequest>)
    ensures Lengths(Renderings(raws)) == Sizes(raws)
  {
    hide Render;
    if raws != [] {
      LengthsOfRenderings(raws[1..]);
      assert Renderings(raws)[1..] == Renderings(raws[1..]);
    }
  }

  /**
   End to end, from the requests a client sent to the responses it decodes: it gets the answers to a
   first part of its requests in order, and perhaps the error response.
   */
  lemma ClientGetsItsAnswers(want: nat -> nat, b: Inbox, accept: nat -> nat, t: nat, resources: map<string, string>,
                             raws: seq<RawRequest>)
    requires Fits(b) && Unread(b) == RenderAll(raws) && forall r :: r in raws ==> WellFormed(r)
    requires TakesAlways(accept, t)
    ensures var c := Serve(want, b);
      var n := |c.requests|;
      && n <= |ServedOf(ReceivedRequests(raws))|
      && DecodeAll(WrittenAll(accept, t, ResponsesOf(resources, c)).0) ==
           AnswerAll(resources, ServedOf(ReceivedRequests(raws))[..n])
           + if c.ending == EmptyRequest then [ERROR] else []
  {
    hide Serve, ReceivedRequests, ServedOf, RenderAll, AnswerAll, WrittenAll, DecodeAll, WellFormed;
    ServesWhatWasSent(want, b, raws);
    var c, sent := Serve(want, b), ServedOf(ReceivedRequests(raws));
    PeerDecodes(accept, t, resources, c);
    assert c.requests == sent[..|c.requests|];
  }

  // ---- what that means to the client ----------------------------------------------------

  lemma {:induction false} HasLastField(fields: seq<Field>, i: nat, key: string)
    requires i < |fields| && fields[i].key == key
    ensures exists j :: LastField(fields, j, key)
    decreases |fields| - i
  {
    if later :| i < later < |fields| && fields[later].key == key {
      HasLastField(fields, later, key);
    } else {
      assert LastField(fields, i, key);
    }
  }

  /** A request is kept alive exactly if its last Connection field says so. */
  lemma KeptAliveAsSent(raw: RawRequest)
    requires WellFormed(raw)
    ensures KeepAlive(ReceivedRequest(raw)) <==>
      exists j :: LastField(raw.fields, j, "Connection") && SkipBlank(raw.fields[j].value) == "keep-alive"
  {
    hide ParseRequest, Render, ReceivedRequest, WellFormed;
    ParseUndoesRender(raw);
    ParsedIsWhatWasSent(raw);
    var headers := ReceivedRequest(raw).headers;
    if "Connection" in headers {
      var i :| 0 <= i < |raw.fields| && raw.fields[i].key == "Connection";
      HasLastField(raw.fields, i, "Connection");
    }
  }

  lemma ServedIsSent(want: nat -> nat, b: Inbox, raws: seq<RawRequest>, i: nat)
    requires Fits(b) && Unread(b) == RenderAll(raws) && forall r :: r in raws ==> WellFormed(r)
    ensures i < |Serve(want, b).requests| ==> i < |raws| && Serve(want, b).requests[i] == ReceivedRequest(raws[i])
  {
    hide Serve, RenderAll, WellFormed, ReceivedRequest, ServedOf;
    ServesWhatWasSent(want, b, raws);
    if i < |Serve(want, b).requests| {
      var served := ServedOf(ReceivedRequests(raws));
      assert Serve(want, b).requests[i] == served[i] == ReceivedRequests(raws)[i];
      ReceivedAt(raws, i);
      assert ReceivedRequests(raws)[..i + 1][i] == ReceivedRequest(raws[i]);
    }
  }

  /** A connection goes on behind a request it served exactly if the last Connection field of that is "keep-alive". */
  lemma GoesOnAsSent(want: nat -> nat, b: Inbox, raws: seq<RawRequest>, i: nat)
    requires Fits(b) && Unread(b) == RenderAll(raws) && forall r :: r in raws ==> WellFormed(r)
    ensures var c := Serve(want, b);
      i < |c.requests| ==>
        && i < |raws|
        && (i < |c.requests| - 1 || c.ending != NotKeptAlive <==>
              exists j :: LastField(raws[i].fields, j, "Connection")
                          && SkipBlank(raws[i].fields[j].value) == "keep-alive")
  {
    hide Serve, RenderAll, WellFormed, ReceivedRequest, KeepAlive;
    ServedIsSent(want, b, raws, i);
    ServedAreKeptAlive(want, b);
    if i < |Serve(want, b).requests| {
      assert WellFormed(raws[i]);
      KeptAliveAsSent(raws[i]);
    }
  }

  /** How many of these requests have the method GET. */
  function Gets(requests: seq<Request>): nat {
    if requests == [] then 0
    else Gets(requests[..|requests| - 1]) + if requests[|requests| - 1].verb == "GET" then 1 else 0
  }

  lemma {:induction false} OneAnswerPerGet(resources: map<string, string>, requests: seq<Request>)
    ensures |AnswerAll(resources, requests)| == Gets(requests)
  {
    if requests != [] {
      OneAnswerPerGet(resources, requests[..|requests| - 1]);
    }
  }

  /** Each GET has its one answer at the place that its rank among the GETs gives. */
  lemma {:induction false} AnswerByRank(resources: map<string, string>, requests: seq<Request>, i: nat)
    requires i < |requests| && requests[i].verb == "GET"
    ensures Gets(requests[..i]) < |AnswerAll(resources, requests)|
    ensures AnswerAll(resources, requests)[Gets(requests[..i])] ==
      if requests[i].uri in resources then Response("200 OK", resources[requests[i].uri])
      else Response("404 NOT FOUND", "not found")
    decreases |requests|
  {
    hide Gets;
    var n := |requests| - 1;
    OneAnswerPerGet(resources, requests[..i]);
    if i < n {
      assert requests[..n][..i] == requests[..i] && requests[..n][i] == requests[i];
      AnswerByRank(resources, requests[..n], i);
    }
  }

  /**
   What a client decodes that takes everything: for each GET of its own that was served, in order, 200 OK
   with the resource's contents or 404 NOT FOUND; at the end 550 ERROR with no body if an empty request
   ended the connection; and nothing else.
   */
  lemma ClientGetsContents(want: nat -> nat, b: Inbox, accept: nat -> nat, t: nat, resources: map<string, string>,
                           raws: seq<RawRequest>)
    requires Fits(b) && Unread(b) == RenderAll(raws) && forall r :: r in raws ==> WellFormed(r)
    requires TakesAlways(accept, t)
    ensures var c := Serve(want, b);
      var got := DecodeAll(WrittenAll(accept, t, ResponsesOf(resources, c)).0);
      && |c.requests| <= |raws|
      && |got| == Gets(c.requests) + (if c.ending == EmptyRequest then 1 else 0)
      && (c.ending == EmptyRequest ==> got[|got| - 1] == Response("550 ERROR", ""))
      && forall i :: 0 <= i < |c.requests| && raws[i].verb == "GET" ==>
           && Gets(c.requests[..i]) < |got|
           && got[Gets(c.requests[..i])] ==
                if raws[i].uri in resources then Response("200 OK", resources[raws[i].uri])
                else Response("404 NOT FOUND", "not found")
  {
    hide Serve, RenderAll, WellFormed, AnswerAll, WrittenAll, DecodeAll, Gets, TakesAlways, ReceivedRequest;
    var c := Serve(want, b);
    PeerDecodes(accept, t, resources, c);
    OneAnswerPerGet(resources, c.requests);
    if |c.requests| > 0 {
      ServedIsSent(want, b, raws, |c.requests| - 1);
    }
    forall i | 0 <= i < |c.requests| && raws[i].verb == "GET"
      ensures Gets(c.requests[..i]) < |AnswerAll(resources, c.requests)|
      ensures AnswerAll(resources, c.requests)[Gets(c.requests[..i])] ==
        if raws[i].uri in resources then Response("200 OK", resources[raws[i].uri])
        else Response("404 NOT FOUND", "not found")
    {
      ServedIsSent(want, b, raws, i);
      AsSent(raws[i]);
      AnswerByRank(resources, c.requests, i);
    }
  }

  lemma AsSent(raw: RawRequest)
    ensures ReceivedRequest(raw).verb == raw.verb && ReceivedRequest(raw).uri == raw.uri
  {
  }

  // ---- the connection ------------------------------------------------------------------

  lemma WrittenOne(accept: nat -> nat, t: nat, r: Response)
    ensures WrittenAll(accept, t, [r]) == Written(accept, t, r)
  {
    hide Written;
    assert [r][..0] == [];
    assert "" + Written(accept, t, r).0 == Written(accept, t, r).0;
  }

  /** Responses written after others go behind them, and go on with the next send. */
  lemma {:induction false} WrittenJoin(accept: nat -> nat, t: nat, a: seq<Response>, b: seq<Response>)
    ensures var (wire, u) := WrittenAll(accept, t, a);
      var (more, v) := WrittenAll(accept, u, b);
      WrittenAll(accept, t, a + b) == (wire + more, v)
  {
    hide Written;
    var (wire, u) := WrittenAll(accept, t, a);
    if b == [] {
      assert a + b == a && wire + "" == wire;
    } else {
      var front, last := b[..|b| - 1], b[|b| - 1];
      WrittenJoin(accept, t, a, front);
      var (more, v) := WrittenAll(accept, u, front);
      assert (a + b)[..|a + b| - 1] == a + front;
      Regroup(wire, more, Written(accept, v, last).0);
    }
  }

  /** What is written for one read: nothing behind an undefined consume, and the error for no request. */
  function SaidTo(resources: map<string, string>, r: RequestRead): seq<Response> {
    match r
    case Undefined(_) => []
    case Nothing(_) => [ERROR]
    case Read(head, _) => if ParseOf(head).verb == "" then [ERROR] else Answer(resources, ParseOf(head))
  }

  lemma AnswerDecodes(accept: nat -> nat, t: nat, resources: map<string, string>, r: Request)
    ensures TakesAlways(accept, t) ==> DecodeAll(WrittenAll(accept, t, Answer(resources, r)).0) == Answer(resources, r)
  {
    hide WrittenAll, DecodeAll, EncodeAll;
    WrittenAllTo(accept, t, Answer(resources, r));
    DecodeUndoesEncodeAll(Answer(resources, r));
  }

  /** The branch of `make_client` that answers one request. */
  method Respond(stream: Stream, resources: map<string, string>, r: Request)
    modifies stream`sends, stream`sent
    ensures var (wire, next) := WrittenAll(stream.accept, old(stream.sends), Answer(resources, r));
      stream.sent == old(stream.sent) + wire && stream.sends == next
    // what a peer decodes of it that takes everything
    ensures TakesAlways(stream.accept, old(stream.sends)) ==>
      DecodeAll(stream.sent[|old(stream.sent)|..]) ==
        if r.verb != "GET" then []
        else if r.uri in resources then [Response("200 OK", resources[r.uri])]
        else [Response("404 NOT FOUND", "not found")]
  {
    hide Written, DecodeAll;
    AnswerDecodes(stream.accept, stream.sends, resources, r);
    WrittenOne(stream.accept, stream.sends, ContentResponse(resources, r.uri));
    if r.verb == "GET" {
      if r.uri !in resources {
        WriteResponse(stream, "404 NOT FOUND", "not found");
      } else {
        WriteResponse(stream, "200 OK", resources[r.uri]);
      }
    }
  }

  /** One round of its loop: a request is read and answered. */
  method Round(s: BufferedStream, resources: map<string, string>) returns (r: Request, consumed: bool)
    requires s.Ready()
    modifies s, s.stream
    ensures consumed ==> s.Ready()
    ensures var o := ReadRequest(s.stream.want, old(s.View()));
      var (wire, next) := WrittenAll(s.stream.accept, old(s.stream.sends), SaidTo(resources, o));
      && (consumed <==> !o.Undefined?) && r == (if o.Read? then ParseOf(o.head) else NO_REQUEST)
      && s.Valid() && s.View() == o.after
      && s.stream.sent == old(s.stream.sent) + wire && s.stream.sends == next
  {
    hide ReadRequest, HeadLength, Written, WrittenAll, Answer;
    ghost var o := ReadRequest(s.stream.want, s.View());
    var head;
    r, consumed, head := ReadHttpRequest(s);
    WrittenOne(s.stream.accept, s.stream.sends, ERROR);
    NothingWrittenYet(s.stream.accept, s.stream.sends);
    if consumed {
      if r.verb == "" {
        WriteResponse(s.stream, "550 ERROR", "");
      } else {
        Respond(s.stream, resources, r);
      }
    }
  }

  lemma NothingWrittenYet(accept: nat -> nat, t: nat)
    ensures WrittenAll(accept, t, []) == ("", t)
  {
  }

  /** The loop's state: `done` are the requests served so far, and `wire` what was written for them. */
  ghost predicate Serving(want: nat -> nat, accept: nat -> nat, resources: map<string, string>, begin: Inbox, t: nat,
                          done: seq<Request>, k: Inbox, wire: string, u: nat)
    requires Fits(begin) && Fits(k)
  {
    && Serve(want, begin) == Before(done, Serve(want, k))
    && (wire, u) == WrittenAll(accept, t, AnswerAll(resources, done))
  }

  lemma ServingBegins(want: nat -> nat, accept: nat -> nat, resources: map<string, string>, begin: Inbox, t: nat)
    requires Fits(begin)
    ensures Serving(want, accept, resources, begin, t, [], begin, "", t)
  {
    hide Serve;
    assert [] + Serve(want, begin).requests == Serve(want, begin).requests;
  }

  /** One more read either goes on serving or ends the connection, with everything written that it has to say. */
  lemma ServingGoesOn(want: nat -> nat, accept: nat -> nat, resources: map<string, string>, begin: Inbox, t: nat,
                      done: seq<Request>, k: Inbox, wire: string, u: nat)
    requires Fits(begin) && Fits(k) && Serving(want, accept, resources, begin, t, done, k, wire, u)
    ensures var (o, c) := (ReadRequest(want, k), Serve(want, begin));
      var (more, v) := WrittenAll(accept, u, SaidTo(resources, o));
      if o.Read? && ParseOf(o.head).verb != "" && KeepAlive(ParseOf(o.head)) then
        && |o.after.incoming| < |k.incoming|
        && Serving(want, accept, resources, begin, t, done + [ParseOf(o.head)], o.after, wire + more, v)
      else
        && c.ending == (if o.Undefined? then Broken
                        else if o.Nothing? || ParseOf(o.head).verb == "" then EmptyRequest else NotKeptAlive)
        && LastRead(want, c) == o.after
        && WrittenAll(accept, t, ResponsesOf(resources, c)) == (wire + more, v)
  {
    hide ReadRequest, ParseOf, Serve, WrittenAll, KeepAlive, Answer, AnswerAll;
    var o := ReadRequest(want, k);
    ServeStep(want, k, done);
    WrittenJoin(accept, t, AnswerAll(resources, done), SaidTo(resources, o));
    if o.Read? {
      AnswerMore(resources, done, ParseOf(o.head));
    }
    assert forall rs: seq<Response> :: rs + [] == rs;
  }

  /**
   `make_client`. It reads and ends as the connection on values does, and the wire holds that
   connection's responses, each as far as the peer took it.
   */
  method MakeClient(stream: Stream, resources: map<string, string>) returns (ending: Ending)
    modifies stream
    ensures var c := Serve(stream.want, Inbox(old(stream.receives), INITIAL, "", old(stream.incoming)));
      && ending == c.ending
      && stream.receives == LastRead(stream.want, c).receives
      && stream.incoming == LastRead(stream.want, c).incoming
      && stream.sent == old(stream.sent) + WrittenAll(stream.accept, old(stream.sends), ResponsesOf(resources, c)).0
  {
    hide Serve, ReadRequest, ParseOf, WrittenAll, ResponsesOf, KeepAlive, SaidTo, LastRead, Serving;
    var s := new BufferedStream(stream);
    var keepAlive := true;
    ghost var begin, done: seq<Request> := s.View(), [];
    ghost var accept, t, wire := stream.accept, stream.sends, "";
    ServingBegins(stream.want, accept, resources, begin, t);
    while keepAlive
      invariant s.Ready() && s.stream == stream && stream.sent == old(stream.sent) + wire
      invariant if keepAlive then
          Serving(stream.want, accept, resources, begin, t, done, s.View(), wire, stream.sends)
        else
          var c := Serve(stream.want, begin);
          && c.ending == NotKeptAlive && LastRead(stream.want, c) == s.View()
          && wire == WrittenAll(accept, t, ResponsesOf(resources, c)).0
      decreases keepAlive, |stream.incoming|
    {
      ghost var k, u := s.View(), stream.sends;
      ServingGoesOn(stream.want, accept, resources, begin, t, done, k, wire, u);
      var r, consumed := Round(s, resources);
      wire := wire + WrittenAll(accept, u, SaidTo(resources, ReadRequest(stream.want, k))).0;
      if !consumed {
        return Broken;
      }
      if r.verb == "" {
        return EmptyRequest;
      }
      done := done + [r];
      keepAlive := KeepAlive(r);
    }
    return NotKeptAlive;
  }
}
