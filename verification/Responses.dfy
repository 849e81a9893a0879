/**
 Writing responses and reading them back: a Content-Length in decimal, a send loop that copes
 with partial sends, and a decoder for the byte stream that results.
 */
module Responses {
  import opened Bounds
  import opened Text
  import opened Framing
  import opened Buffering

  // ---- decimal numbers -----------------------------------------------------------------

  predicate IsDigit(c: char) {
    '0' <= c <= '9'
  }

  function Digit(d: nat): char
    requires d < 10
  {
    ['0', '1', '2', '3', '4', '5', '6', '7', '8', '9'][d]
  }

  function Decimal(n: nat): (s: string)
    ensures s != "" && forall c :: c in s ==> IsDigit(c)
  {
    if n < 10 then [Digit(n)] else Decimal(n / 10) + [Digit(n % 10)]
  }

  function ParseDecimal(s: string): nat
    requires forall c :: c in s ==> IsDigit(c)
  {
    if s == "" then 0
    else
      assert IsDigit(s[|s| - 1]);
      10 * ParseDecimal(s[..|s| - 1]) + (s[|s| - 1] as int - '0' as int)
  }

  lemma {:induction false} ParseUndoesDecimal(n: nat)
    ensures ParseDecimal(Decimal(n)) == n
  {
    if n < 10 {
      assert Decimal(n)[..0] == "";
    } else {
      ParseUndoesDecimal(n / 10);
      assert Decimal(n)[..|Decimal(n)| - 1] == Decimal(n / 10);
    }
  }

  /** The usual notation: digits in base ten, the lowest last, and no zeros in front. */
  lemma {:induction false} DecimalDigits(n: nat)
    ensures n < 10 ==> Decimal(n) == [('0' as int + n) as char]
    ensures n >= 10 ==> Decimal(n) == Decimal(n / 10) + [('0' as int + n % 10) as char]
    ensures n > 0 ==> Decimal(n)[0] != '0'
  {
    DigitIs(n % 10);
    if n >= 10 {
      DecimalDigits(n / 10);
      assert Decimal(n)[0] == Decimal(n / 10)[0];
    } else {
      DigitIs(n);
    }
  }

  lemma DigitIs(d: nat)
    requires d < 10
    ensures Digit(d) == ('0' as int + d) as char && (d > 0 ==> Digit(d) != '0')
  {
  }

  // ---- encoding and decoding -----------------------------------------------------------

  datatype Response = Response(status: string, body: string)

  const VERSION: string := "HTTP/1.1 "
  const LENGTH: string := "Content-Length: "

  function ResponseLines(status: string, length: nat): seq<string> {
    [VERSION + status, LENGTH + Decimal(length)]
  }

  function ResponseHead(status: string, length: nat): string {
    Lines(ResponseLines(status, length)) + CRLF
  }

  function Encode(r: Response): string {
    ResponseHead(r.status, |r.body|) + r.body
  }

  function EncodeAll(rs: seq<Response>): string {
    if rs == [] then "" else Encode(rs[0]) + EncodeAll(rs[1..])
  }

  datatype Decoded = Incomplete | Complete(response: Response, rest: string)

  /** Status and length in a head's first two lines. */
  datatype HeadFields = Malformed | HeadFields(status: string, length: nat)

  function ParseResponseHead(head: string): HeadFields {
    var first := Token(head, CRLF);
    var second := Token(Rest(head, CRLF), CRLF);
    if VERSION <= first && LENGTH <= second && forall c :: c in second[|LENGTH|..] ==> IsDigit(c) then
      HeadFields(first[|VERSION|..], ParseDecimal(second[|LENGTH|..]))
    else Malformed
  }

  /** Cut at the first empty line, then take as many bytes as the head says. */
  function Decode(s: string): (d: Decoded)
    ensures d.Complete? ==> |d.rest| < |s|
  {
    var n := HeadLength(s);
    if n == 0 then Incomplete
    else
      match ParseResponseHead(s[..n])
      case Malformed => Incomplete
      case HeadFields(status, length) =>
        if n + length > |s| then Incomplete
        else Complete(Response(status, s[n..n + length]), s[n + length..])
  }

  function DecodeAll(s: string): seq<Response>
    decreases |s|
  {
    match Decode(s)
    case Incomplete => []
    case Complete(r, rest) => [r] + DecodeAll(rest)
  }

  predicate OneLineStatus(r: Response) {
    '\r' !in r.status
  }

  lemma HeadAsWritten(status: string, length: nat)
    ensures ResponseHead(status, length) == VERSION + status + CRLF + LENGTH + Decimal(length) + CRLF + CRLF
    ensures ResponseHead(status, length) == VERSION + status + CRLF + (LENGTH + Decimal(length) + CRLF + CRLF)
  {
    var ls := ResponseLines(status, length);
    assert ls[1..] == [ls[1]] && [ls[1]][1..] == [];
    assert Lines([ls[1]]) == ls[1] + CRLF + "";
    assert Lines(ls) == ls[0] + CRLF + (ls[1] + CRLF);
  }

  /** A whole response byte by byte. */
  lemma EncodeBytes(status: string, body: string)
    ensures Encode(Response(status, body)) ==
      "HTTP/1.1 " + status + "\r\n" + "Content-Length: " + Decimal(|body|) + "\r\n\r\n" + body
  {
    HeadAsWritten(status, |body|);
    hide ResponseHead, Decimal;
    TwoBreaks(VERSION + status + CRLF + LENGTH + Decimal(|body|), body);
  }

  lemma TwoBreaks(x: string, y: string)
    ensures x + CRLF + CRLF + y == x + "\r\n\r\n" + y
  {
    assert x + CRLF + CRLF == x + "\r\n\r\n";
  }

  lemma HeadAlone(status: string, length: nat, t: string)
    requires '\r' !in status
    ensures HeadLength(ResponseHead(status, length) + t) == |ResponseHead(status, length)|
  {
    var ls := ResponseLines(status, length);
    assert forall c :: c in Decimal(length) ==> IsDigit(c);
    assert IsLine(ls[0]) && IsLine(ls[1]);
    SeparatorEndsLines(ls, t);
    assert ResponseHead(status, length) + t == Lines(ls) + CRLF + t;
  }

  lemma HeadParses(status: string, length: nat)
    requires '\r' !in status
    ensures ParseResponseHead(ResponseHead(status, length)) == HeadFields(status, length)
  {
    var first, second := VERSION + status, LENGTH + Decimal(length);
    HeadAsWritten(status, length);
    assert forall c :: c in Decimal(length) ==> IsDigit(c);
    TokenAndRest(first, CRLF, second + CRLF + CRLF);
    TokenAndRest(second, CRLF, CRLF);
    assert first[|VERSION|..] == status && second[|LENGTH|..] == Decimal(length);
    ParseUndoesDecimal(length);
  }

  /** One response comes back whole, and what follows it is left as it is. */
  lemma DecodeUndoesEncode(r: Response, t: string)
    requires OneLineStatus(r)
    ensures Decode(Encode(r) + t) == Complete(r, t)
  {
    var head := ResponseHead(r.status, |r.body|);
    HeadAlone(r.status, |r.body|, r.body + t);
    HeadParses(r.status, |r.body|);
    var s := Encode(r) + t;
    assert s == head + (r.body + t);
    assert s[..|head|] == head && s[|head|..|head| + |r.body|] == r.body && s[|head| + |r.body|..] == t;
  }

  /** A response that is not there in full decodes to nothing. */
  lemma TruncatedIsIncomplete(r: Response, k: nat)
    requires OneLineStatus(r) && k < |Encode(r)|
    ensures Decode(Encode(r)[..k]) == Incomplete
  {
    var s, head := Encode(r)[..k], ResponseHead(r.status, |r.body|);
    if HeadLength(s) > 0 {
      assert s + Encode(r)[k..] == Encode(r);
      HeadLengthStable(s, Encode(r)[k..]);
      HeadAlone(r.status, |r.body|, r.body);
      assert s[..|head|] == head;
      HeadParses(r.status, |r.body|);
    }
  }

  lemma DecodeAllFirst(r: Response, t: string)
    requires OneLineStatus(r)
    ensures DecodeAll(Encode(r) + t) == [r] + DecodeAll(t)
  {
    DecodeUndoesEncode(r, t);
  }

  lemma DecodeAllTruncated(r: Response, k: nat)
    requires OneLineStatus(r) && k < |Encode(r)|
    ensures DecodeAll(Encode(r)[..k]) == []
  {
    hide Encode;
    TruncatedIsIncomplete(r, k);
  }

  lemma CutBehindFirst(rs: seq<Response>, k: nat)
    requires rs != [] && k <= |EncodeAll(rs)|
    ensures var (first, rest) := (Encode(rs[0]), EncodeAll(rs[1..]));
      && |EncodeAll(rs)| == |first| + |rest|
      && EncodeAll(rs)[..k] == if k < |first| then first[..k] else first + rest[..k - |first|]
  {
    hide Encode;
  }

  lemma NoResponses()
    ensures EncodeAll([]) == "" && DecodeAll("") == []
  {
  }

  /** How many of these responses are there in full in the first `k` bytes of their stream. */
  function Whole(rs: seq<Response>, k: nat): (w: nat)
    ensures w <= |rs|
  {
    if rs == [] || k < |Encode(rs[0])| then 0 else 1 + Whole(rs[1..], k - |Encode(rs[0])|)
  }

  /** It is the most that fit into `k` bytes. */
  lemma {:induction false} WholeIsMost(rs: seq<Response>, k: nat)
    ensures |EncodeAll(rs[..Whole(rs, k)])| <= k
    ensures Whole(rs, k) < |rs| ==> k < |EncodeAll(rs[..Whole(rs, k) + 1])|
  {
    hide Encode;
    if rs != [] {
      var w, first := Whole(rs, k), |Encode(rs[0])|;
      assert rs[..0] == [] && rs[..1] == [rs[0]];
      EncodeOne(rs[0]);
      if k >= first {
        WholeIsMost(rs[1..], k - first);
        FirstFits(rs, w);
        if w < |rs| {
          FirstFits(rs, w + 1);
        }
      }
    }
  }

  lemma FirstFits(rs: seq<Response>, n: nat)
    requires 0 < n <= |rs|
    ensures |EncodeAll(rs[..n])| == |Encode(rs[0])| + |EncodeAll(rs[1..][..n - 1])|
  {
    hide Encode;
    assert rs[..n][0] == rs[0] && rs[..n][1..] == rs[1..][..n - 1];
  }

  /** A stream of responses cut off anywhere decodes to the responses that are there in full. */
  lemma {:induction false} DecodePrefix(rs: seq<Response>, k: nat)
    requires forall r :: r in rs ==> OneLineStatus(r)
    requires k <= |EncodeAll(rs)|
    ensures DecodeAll(EncodeAll(rs)[..k]) == rs[..Whole(rs, k)]
    ensures k == |EncodeAll(rs)| ==> Whole(rs, k) == |rs|
  {
    hide Encode, EncodeAll, DecodeAll, OneLineStatus;
    if rs == [] {
      NoResponses();
    } else {
      var first := |Encode(rs[0])|;
      assert forall r :: r in rs[1..] ==> r in rs;
      CutBehindFirst(rs, k);
      if k < first {
        DecodeAllTruncated(rs[0], k);
      } else {
        DecodePrefix(rs[1..], k - first);
        DecodeAllFirst(rs[0], EncodeAll(rs[1..])[..k - first]);
        assert rs[..Whole(rs, k)] == [rs[0]] + rs[1..][..Whole(rs[1..], k - first)];
      }
    }
  }

  /** Unique decodability: the whole stream gives back the very list, whatever the bodies hold. */
  lemma DecodeUndoesEncodeAll(rs: seq<Response>)
    requires forall r :: r in rs ==> OneLineStatus(r)
    ensures DecodeAll(EncodeAll(rs)) == rs
  {
    DecodePrefix(rs, |EncodeAll(rs)|);
    assert EncodeAll(rs)[..|EncodeAll(rs)|] == EncodeAll(rs);
  }

  lemma EncodeAllIsInjective(a: seq<Response>, b: seq<Response>)
    requires forall r :: r in a ==> OneLineStatus(r)
    requires forall r :: r in b ==> OneLineStatus(r)
    ensures EncodeAll(a) == EncodeAll(b) ==> a == b
  {
    DecodeUndoesEncodeAll(a);
    DecodeUndoesEncodeAll(b);
  }

  lemma {:induction false} EncodeAllAppend(a: seq<Response>, b: seq<Response>)
    ensures EncodeAll(a + b) == EncodeAll(a) + EncodeAll(b)
  {
    hide Encode;
    if a == [] {
      assert a + b == b;
      assert EncodeAll(a) + EncodeAll(b) == EncodeAll(b);
    } else {
      EncodeAllAppend(a[1..], b);
      var first := Encode(a[0]);
      assert (a + b)[0] == a[0] && (a + b)[1..] == a[1..] + b;
      assert EncodeAll(a + b) == first + EncodeAll(a[1..] + b);
      Regroup(first, EncodeAll(a[1..]), EncodeAll(b));
    }
  }

  lemma EncodeOne(r: Response)
    ensures EncodeAll([r]) == Encode(r)
  {
    assert [r][1..] == [];
    assert EncodeAll([r]) == Encode(r) + "";
  }

  // ---- sending -------------------------------------------------------------------------

  /** How much of `left` bytes gets out, and the number of the send after the last one. */
  function Pump(accept: nat -> nat, t: nat, left: nat): (r: (nat, nat))
    ensures r.0 <= left && t < r.1
    decreases left
  {
    var n := Min(accept(t), left);
    if n == 0 || n == left then (n, t + 1)
    else
      var (more, after) := Pump(accept, t + 1, left - n);
      (n + more, after)
  }

  lemma PumpStep(accept: nat -> nat, t: nat, left: nat)
    ensures var n := Min(accept(t), left);
      Pump(accept, t, left) ==
        if n == 0 || n == left then (n, t + 1)
        else (n + Pump(accept, t + 1, left - n).0, Pump(accept, t + 1, left - n).1)
  {
  }

  lemma SentMore(start: string, data: string, p: nat, n: nat)
    requires p + n <= |data|
    ensures start + data[..p] + data[p..][..n] == start + data[..p + n]
  {
    assert data[..p + n] == data[..p] + data[p..][..n];
  }

  /** One of the two send loops: it ends when all is sent or a send takes nothing. */
  method SendLoop(stream: Stream, data: string)
    modifies stream`sends, stream`sent
    ensures (stream.sent, stream.sends) == (
      old(stream.sent) + data[..Pump(stream.accept, old(stream.sends), |data|).0],
      Pump(stream.accept, old(stream.sends), |data|).1)
  {
    hide Pump;
    var p, n := 0, 0;
    ghost var goal := Pump(stream.accept, stream.sends, |data|);
    ghost var start := stream.sent;
    while true
      invariant p < |data| || p == 0
      invariant p <= |data| && stream.sent == start + data[..p]
      invariant goal == (p + Pump(stream.accept, stream.sends, |data| - p).0,
                         Pump(stream.accept, stream.sends, |data| - p).1)
      decreases |data| - p
    {
      PumpStep(stream.accept, stream.sends, |data| - p);
      n := stream.Send(data[p..]);
      SentMore(start, data, p, n);
      if !(0 < n) {
        return;
      }
      p := p + n;
      if p == |data| {
        return;
      }
    }
  }

  /** A peer takes bytes as long as it is asked. */
  ghost predicate TakesAlways(accept: nat -> nat, t: nat) {
    forall i :: t <= i ==> accept(i) > 0
  }

  /** Once a send took nothing, no later one takes anything. */
  ghost predicate StaysShut(accept: nat -> nat, t: nat) {
    forall i, j :: t <= i <= j && accept(i) == 0 ==> accept(j) == 0
  }

  /** What one `write_response` puts on the wire, and the number of the send after its last one. */
  function Written(accept: nat -> nat, t: nat, r: Response): (w: (string, nat))
    ensures t < w.1
  {
    var head := ResponseHead(r.status, |r.body|);
    var (p, u) := Pump(accept, t, |head|);
    var (q, v) := Pump(accept, u, |r.body|);
    (head[..p] + r.body[..q], v)
  }

  lemma PumpShut(accept: nat -> nat, t: nat, left: nat)
    requires accept(t) == 0
    ensures Pump(accept, t, left) == (0, t + 1)
  {
  }

  /** A loop with something to send sends it all exactly if its last send took something. */
  lemma {:induction false} PumpWholeIff(accept: nat -> nat, t: nat, left: nat)
    ensures Pump(accept, t, left).0 == left <==> left == 0 || accept(Pump(accept, t, left).1 - 1) > 0
    ensures Pump(accept, t, left).0 == 0 <==> left == 0 || accept(t) == 0
    decreases left
  {
    var n := Min(accept(t), left);
    if n != 0 && n != left {
      PumpWholeIff(accept, t + 1, left - n);
    }
  }

  /** Where the two loops of a response of `n` bytes end: the send after the head's last, and that after the body's. */
  function Ends(accept: nat -> nat, t: nat, status: string, n: nat): (e: (nat, nat))
    ensures t < e.0 < e.1
  {
    var u := Pump(accept, t, |ResponseHead(status, n)|).1;
    (u, Pump(accept, u, n).1)
  }

  /** A response is out whole exactly if the last send of each loop took something, or there is no body. */
  lemma WrittenWholeIff(accept: nat -> nat, t: nat, r: Response)
    ensures var (u, v) := Ends(accept, t, r.status, |r.body|);
      Written(accept, t, r).0 == Encode(r) <==> accept(u - 1) > 0 && (r.body == "" || accept(v - 1) > 0)
  {
    HeadAsWritten(r.status, |r.body|);
    hide ResponseHead;
    var head := ResponseHead(r.status, |r.body|);
    var (p, u) := Pump(accept, t, |head|);
    var q := Pump(accept, u, |r.body|).0;
    PumpWholeIff(accept, t, |head|);
    PumpWholeIff(accept, u, |r.body|);
    assert p == |head| && q == |r.body| ==> head[..p] == head && r.body[..q] == r.body;
    assert |Written(accept, t, r).0| == p + q;
  }

  /** Whatever the body of `n` bytes, what is written of the response is a beginning of it. */
  ghost predicate AlwaysBegins(accept: nat -> nat, t: nat, status: string, n: nat) {
    forall body: string :: |body| == n ==>
      Written(accept, t, Response(status, body)).0 <= Encode(Response(status, body))
  }

  lemma BeginsUnlessGap(accept: nat -> nat, t: nat, r: Response)
    requires var u := Ends(accept, t, r.status, |r.body|).0; accept(u - 1) > 0 || r.body == "" || accept(u) == 0
    ensures Written(accept, t, r).0 <= Encode(r)
  {
    hide ResponseHead;
    var head := ResponseHead(r.status, |r.body|);
    var (p, u) := Pump(accept, t, |head|);
    var q := Pump(accept, u, |r.body|).0;
    PumpWholeIff(accept, t, |head|);
    PumpWholeIff(accept, u, |r.body|);
    assert p == |head| || q == 0;
    assert Written(accept, t, r).0 == Encode(r)[..p + q];
  }

  /** A body whose bytes differ from the first byte of the head that was not sent. */
  lemma GapShows(accept: nat -> nat, t: nat, status: string, n: nat) returns (body: string)
    requires var u := Ends(accept, t, status, n).0; accept(u - 1) == 0 && n > 0 && accept(u) > 0
    ensures |body| == n && !(Written(accept, t, Response(status, body)).0 <= Encode(Response(status, body)))
  {
    HeadAsWritten(status, n);
    hide ResponseHead;
    var head := ResponseHead(status, n);
    var (p, u) := Pump(accept, t, |head|);
    PumpWholeIff(accept, t, |head|);
    PumpWholeIff(accept, u, n);
    var c := if head[p] == 'a' then 'b' else 'a';
    body := seq(n, _ => c);
    assert Written(accept, t, Response(status, body)).0[p] == c;
    assert Encode(Response(status, body))[p] == head[p];
  }

  /**
   The body is sent even if the head was not sent whole. So the wire is sure to hold a beginning of
   the response exactly if the head's last send took something, the next send takes nothing, or
   there is no body: otherwise bodies exist that start where the head broke off.
   */
  lemma AlwaysBeginsIff(accept: nat -> nat, t: nat, status: string, n: nat)
    ensures var u := Ends(accept, t, status, n).0;
      AlwaysBegins(accept, t, status, n) <==> accept(u - 1) > 0 || n == 0 || accept(u) == 0
  {
    hide Written, Encode, Ends;
    var u := Ends(accept, t, status, n).0;
    if accept(u - 1) > 0 || n == 0 || accept(u) == 0 {
      forall body: string | |body| == n
        ensures Written(accept, t, Response(status, body)).0 <= Encode(Response(status, body))
      {
        BeginsUnlessGap(accept, t, Response(status, body));
      }
    } else {
      var body := GapShows(accept, t, status, n);
    }
  }

  /** A peer that refuses the first send only: it gets the body, and nothing of the head. */
  lemma RefusedHeadIsSkipped()
    ensures var (accept, r) := ((t: nat) => if t == 0 then 0 else 1, Response("200 OK", "a"));
      Written(accept, 0, r).0 == "a" && !("a" <= Encode(r))
  {
    var accept, r := (t: nat) => if t == 0 then 0 else 1, Response("200 OK", "a");
    HeadAsWritten(r.status, 1);
    hide ResponseHead;
    var head := ResponseHead(r.status, 1);
    assert Pump(accept, 0, |head|) == (0, 1) && Pump(accept, 1, 1) == (1, 2);
    assert head[..0] + "a"[..1] == "a" && Encode(r)[0] == head[0] == 'H';
  }

  /** It is whole for a peer that always takes something, and a beginning for one that shuts for good. */
  lemma WrittenTo(accept: nat -> nat, t: nat, r: Response)
    ensures TakesAlways(accept, t) ==> Written(accept, t, r).0 == Encode(r)
    ensures StaysShut(accept, t) ==> Written(accept, t, r).0 <= Encode(r)
    ensures StaysShut(accept, t) && Written(accept, t, r).0 != Encode(r) ==> accept(Written(accept, t, r).1) == 0
  {
    var (u, v) := Ends(accept, t, r.status, |r.body|);
    assert v == Written(accept, t, r).1;
    hide Written, Encode, Ends;
    WrittenWholeIff(accept, t, r);
    if StaysShut(accept, t) {
      assert accept(u - 1) == 0 ==> accept(u) == 0;
      BeginsUnlessGap(accept, t, r);
    }
  }

  /** Responses written one after the other. */
  function WrittenAll(accept: nat -> nat, t: nat, rs: seq<Response>): (w: (string, nat))
    ensures t <= w.1
  {
    if rs == [] then ("", t)
    else
      var (front, u) := WrittenAll(accept, t, rs[..|rs| - 1]);
      var (last, v) := Written(accept, u, rs[|rs| - 1]);
      (front + last, v)
  }

  lemma EncodeAllMore(rs: seq<Response>, r: Response)
    ensures EncodeAll(rs + [r]) == EncodeAll(rs) + Encode(r)
  {
    EncodeAllAppend(rs, [r]);
    EncodeOne(r);
  }

  /** All of them, or a beginning of them, under the same conditions. */
  lemma {:induction false} WrittenAllTo(accept: nat -> nat, t: nat, rs: seq<Response>)
    ensures TakesAlways(accept, t) ==> WrittenAll(accept, t, rs).0 == EncodeAll(rs)
    ensures StaysShut(accept, t) ==> WrittenAll(accept, t, rs).0 <= EncodeAll(rs)
    ensures StaysShut(accept, t) && WrittenAll(accept, t, rs).0 != EncodeAll(rs) ==>
      accept(WrittenAll(accept, t, rs).1) == 0
  {
    hide Encode, Written;
    if rs != [] {
      var front, last := rs[..|rs| - 1], rs[|rs| - 1];
      var (wire, u) := WrittenAll(accept, t, front);
      WrittenAllTo(accept, t, front);
      WrittenTo(accept, u, last);
      EncodeAllMore(front, last);
      assert rs == front + [last];
      if StaysShut(accept, t) && wire != EncodeAll(front) {
        NothingWritten(accept, u, last);
        assert wire + "" == wire;
      }
    }
  }

  lemma NothingWritten(accept: nat -> nat, t: nat, r: Response)
    requires StaysShut(accept, t) && accept(t) == 0
    ensures Written(accept, t, r).0 == "" && accept(Written(accept, t, r).1) == 0
  {
    hide ResponseHead;
    assert accept(t + 1) == 0;
    PumpShut(accept, t, |ResponseHead(r.status, |r.body|)|);
    PumpShut(accept, t + 1, |r.body|);
  }

  /** `write_response`: the head and then the body, each as far as the sends take it. */
  method WriteResponse(stream: Stream, message: string, response: string)
    modifies stream`sends, stream`sent
    ensures var r := Response(message, response);
      var (wire, next) := Written(stream.accept, old(stream.sends), r);
      && stream.sent == old(stream.sent) + wire && stream.sends == next
      && (TakesAlways(stream.accept, old(stream.sends)) ==>
            && wire == Encode(r)
            && wire == "HTTP/1.1 " + message + "\r\n"
                       + "Content-Length: " + Decimal(|response|) + "\r\n\r\n" + response)
      && (StaysShut(stream.accept, old(stream.sends)) ==> wire <= Encode(r))
  {
    var head := VERSION + message + CRLF + LENGTH + Decimal(|response|) + CRLF + CRLF;
    HeadAsWritten(message, |response|);
    EncodeBytes(message, response);
    WrittenTo(stream.accept, stream.sends, Response(message, response));
    SendLoop(stream, head);
    SendLoop(stream, response);
  }
}
