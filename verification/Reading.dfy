/**
 What a buffered reader gets out of a connection, on values: one receive, one head, one request's
 head at a time. `want` says how much each receive brings and stands for every way of chunking.
 */
module Reading {
  import opened Bounds
  import opened Framing

  /** How many receives there were, the size of the buffer, the bytes in it, and those still to come. */
  datatype Inbox = Inbox(receives: nat, capacity: nat, held: string, incoming: string)

  predicate Fits(b: Inbox) {
    |b.held| <= b.capacity
  }

  /** All that has not been consumed. */
  function Unread(b: Inbox): string {
    b.held + b.incoming
  }

  /** One receive. A full buffer is doubled first, which does nothing for an empty one. */
  function Receive(want: nat -> nat, b: Inbox): (after: Inbox)
    requires Fits(b)
    ensures Fits(after)
  {
    var c := if b.capacity == |b.held| then 2 * b.capacity else b.capacity;
    var n := Min(want(b.receives), Min(c - |b.held|, |b.incoming|));
    Inbox(b.receives + 1, c, b.held + b.incoming[..n], b.incoming[n..])
  }

  lemma ReceiveKeepsBytes(want: nat -> nat, b: Inbox)
    requires Fits(b)
    ensures var after := Receive(want, b);
      && Unread(after) == Unread(b) && b.held <= after.held
      && |after.held| + |after.incoming| == |b.held| + |b.incoming|
      && (|after.held| == |b.held| <==> b.capacity == 0 || b.incoming == "" || want(b.receives) == 0)
      && (|after.held| == |b.held| ==> after.held == b.held && after.incoming == b.incoming)
      && (after.capacity == 0 <==> b.capacity == 0)
  {
  }

  // ---- the next head -------------------------------------------------------------------

  datatype HeadRead = Found(after: Inbox) | NoHead(after: Inbox)

  /** `read_head`: it always receives before it searches. */
  function ReadHead(want: nat -> nat, b: Inbox): (r: HeadRead)
    requires Fits(b)
    ensures Fits(r.after)
    decreases |b.incoming|
  {
    var after := Receive(want, b);
    if |after.held| == |b.held| then NoHead(after)
    else if HeadLength(after.held) > 0 then Found(after)
    else ReadHead(want, after)
  }

  /**
   However the bytes arrive, the head found is the first one of the whole stream, no byte is lost,
   and the capacity is the least doubling that holds what was received.
   */
  lemma {:induction false} FoundIsFirst(want: nat -> nat, b: Inbox)
    requires Fits(b) && ReadHead(want, b).Found?
    ensures var (after, n) := (ReadHead(want, b).after, HeadLength(Unread(b)));
      && 0 < n == HeadLength(after.held) <= |after.held| && after.held[..n] == Unread(b)[..n]
      && Unread(after) == Unread(b) && |after.incoming| < |b.incoming|
      && b.capacity > 0 && after.capacity == Fit(b.capacity, |after.held|)
      && b.receives < after.receives
    decreases |b.incoming|
  {
    hide HeadLength;
    ReceiveKeepsBytes(want, b);
    var after := Receive(want, b);
    if HeadLength(after.held) > 0 {
      HeadLengthStable(after.held, after.incoming);
    } else {
      FoundIsFirst(want, after);
    }
  }

  /** Without a head no byte is lost either, what came held no head, and the last receive brought nothing. */
  lemma {:induction false} NoHeadEnds(want: nat -> nat, b: Inbox)
    requires Fits(b) && ReadHead(want, b).NoHead?
    ensures var after := ReadHead(want, b).after;
      && Unread(after) == Unread(b) && b.held <= after.held
      && (|after.held| > |b.held| ==> HeadLength(after.held) == 0)
      && b.receives < after.receives
      && (after.incoming == "" || after.capacity == 0 || want(after.receives - 1) == 0)
      && (after.capacity == 0 <==> b.capacity == 0)
    decreases |b.incoming|
  {
    hide HeadLength;
    ReceiveKeepsBytes(want, b);
    var after := Receive(want, b);
    if |after.held| > |b.held| {
      NoHeadEnds(want, after);
      var last := ReadHead(want, after).after.held;
      assert |last| == |after.held| ==> last == after.held;
    }
  }

  /** What the buffer would hold once a receive brings nothing. */
  function HeldAtLast(want: nat -> nat, b: Inbox): string
    requires Fits(b)
    decreases |b.incoming|
  {
    var after := Receive(want, b);
    if |after.held| == |b.held| then b.held else HeldAtLast(want, after)
  }

  lemma {:induction false} HeldAtLastGrows(want: nat -> nat, b: Inbox)
    requires Fits(b)
    ensures b.held <= HeldAtLast(want, b) <= Unread(b)
    ensures HeldAtLast(want, b) == b.held <==> |Receive(want, b).held| == |b.held|
    decreases |b.incoming|
  {
    ReceiveKeepsBytes(want, b);
    var after := Receive(want, b);
    if |after.held| > |b.held| {
      HeldAtLastGrows(want, after);
    }
  }

  /** Everything, if receives always bring something and the buffer has a size. */
  lemma {:induction false} AllIsHeldAtLast(want: nat -> nat, b: Inbox)
    requires Fits(b) && b.capacity > 0 && forall t :: want(t) > 0
    ensures HeldAtLast(want, b) == Unread(b)
    decreases |b.incoming|
  {
    ReceiveKeepsBytes(want, b);
    if b.incoming != "" {
      AllIsHeldAtLast(want, Receive(want, b));
    }
  }

  /** A head is found exactly if something comes, and then there is a head in it and what was held. */
  lemma {:induction false} FoundIff(want: nat -> nat, b: Inbox)
    requires Fits(b)
    ensures ReadHead(want, b).Found? <==> HeldAtLast(want, b) != b.held && HeadLength(HeldAtLast(want, b)) > 0
    decreases |b.incoming|
  {
    hide HeadLength;
    ReceiveKeepsBytes(want, b);
    HeldAtLastGrows(want, b);
    var after, last := Receive(want, b), HeldAtLast(want, b);
    if |after.held| > |b.held| {
      HeldAtLastGrows(want, after);
      if HeadLength(after.held) > 0 {
        assert last == after.held + last[|after.held|..];
        HeadLengthStable(after.held, last[|after.held|..]);
      } else {
        FoundIff(want, after);
      }
    }
  }

  // ---- the next request's head ---------------------------------------------------------

  /** Consuming `n` bytes keeps the free space behind the held ones. */
  function Drop(b: Inbox, n: nat): (after: Inbox)
    requires n <= |b.held| && Fits(b)
    ensures Fits(after)
  {
    Inbox(b.receives, b.capacity - n, b.held[n..], b.incoming)
  }

  /**
   What `read_http_request` does to the buffer. It ends in a consume up to `pos`, which without a
   head is 0 or, if anything was received, `npos`. Erasing up to that is undefined.
   */
  datatype RequestRead =
    | Read(head: string, after: Inbox)
    | Nothing(after: Inbox)
    | Undefined(after: Inbox)

  function ReadRequest(want: nat -> nat, b: Inbox): (r: RequestRead)
    requires Fits(b)
    ensures Fits(r.after)
  {
    match ReadHead(want, b)
    case Found(after) =>
      var n := HeadLength(after.held);
      Read(after.held[..n], Drop(after, n))
    case NoHead(after) => if |after.held| == |b.held| then Nothing(after) else Undefined(after)
  }

  /** A head that is read is the first one of the stream, and only its bytes are gone. */
  lemma ReadTakesFirst(want: nat -> nat, b: Inbox)
    requires Fits(b) && ReadRequest(want, b).Read?
    ensures var r := ReadRequest(want, b);
      && 0 < |r.head| == HeadLength(Unread(b)) && r.head == Unread(b)[..|r.head|]
      && Unread(r.after) == Unread(b)[|r.head|..] && |r.after.incoming| < |b.incoming|
      && b.capacity > 0 && r.after.capacity == Fit(b.capacity, |r.after.held| + |r.head|) - |r.head|
      && b.receives < r.after.receives
  {
    hide HeadLength;
    FoundIsFirst(want, b);
    var k := ReadHead(want, b).after;
    var n := HeadLength(k.held);
    assert (k.held + k.incoming)[n..] == k.held[n..] + k.incoming;
  }

  /**
   What one call does, told before it. It reads nothing exactly if the first receive brings nothing,
   and its consume is undefined exactly if bytes come but end before they complete a head.
   */
  lemma ReadRequestIff(want: nat -> nat, b: Inbox)
    requires Fits(b)
    ensures var last := HeldAtLast(want, b);
      && (ReadRequest(want, b).Nothing? <==> b.capacity == 0 || b.incoming == "" || want(b.receives) == 0)
      && (ReadRequest(want, b).Read? <==> last != b.held && HeadLength(last) > 0)
      && (ReadRequest(want, b).Undefined? <==> last != b.held && HeadLength(last) == 0)
  {
    hide HeadLength;
    ReceiveKeepsBytes(want, b);
    HeldAtLastGrows(want, b);
    FoundIff(want, b);
    var after := Receive(want, b);
    if |after.held| > |b.held| && ReadHead(want, b).NoHead? {
      NoHeadEnds(want, after);
    }
  }

  /** With receives that always bring something, only the size of the buffer and the bytes matter. */
  lemma ReadRequestIfBrought(want: nat -> nat, b: Inbox)
    requires Fits(b) && forall t :: want(t) > 0
    ensures var fed := b.capacity > 0 && b.incoming != "";
      && (ReadRequest(want, b).Nothing? <==> !fed)
      && (ReadRequest(want, b).Read? <==> fed && HeadLength(Unread(b)) > 0)
      && (ReadRequest(want, b).Undefined? <==> fed && HeadLength(Unread(b)) == 0)
  {
    hide HeadLength;
    ReadRequestIff(want, b);
    if b.capacity > 0 {
      AllIsHeldAtLast(want, b);
      assert |Unread(b)| == |b.held| + |b.incoming|;
    }
  }
}
