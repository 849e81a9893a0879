/** The connection and the growing buffer in front of it, as the objects they are. */
module Buffering {
  import opened Bounds
  import opened Text
  import opened Framing
  import opened Reading

  // ---- the network ---------------------------------------------------------------------

  /**
   The other end of a connection. `want` and `accept` say how much each receive delivers and each
   send takes, up to what there is and what fits; they stand for every way of chunking.
   */
  class Stream {
    const want: nat -> nat
    const accept: nat -> nat
    var receives: nat
    var sends: nat
    var incoming: string
    var sent: string

    constructor (want: nat -> nat, accept: nat -> nat, incoming: string)
      ensures this.want == want && this.accept == accept && this.incoming == incoming
      ensures receives == 0 && sends == 0 && sent == ""
    {
      this.want, this.accept, this.incoming := want, accept, incoming;
      receives, sends, sent := 0, 0, "";
    }

    method Receive(room: nat) returns (data: string)
      modifies `receives, `incoming
      ensures receives == old(receives) + 1
      ensures data + incoming == old(incoming)
      ensures |data| == Min(want(old(receives)), Min(room, |old(incoming)|))
    {
      var n := Min(want(receives), Min(room, |incoming|));
      data, incoming := incoming[..n], incoming[n..];
      receives := receives + 1;
    }

    method Send(data: string) returns (n: nat)
      modifies `sends, `sent
      ensures sends == old(sends) + 1
      ensures n == Min(accept(old(sends)), |data|) && sent == old(sent) + data[..n]
    {
      n := Min(accept(sends), |data|);
      sent := sent + data[..n];
      sends := sends + 1;
    }

    /** The other end writes some more. */
    method Arrive(data: string)
      modifies `incoming
      ensures incoming == old(incoming) + data
    {
      incoming := incoming + data;
    }
  }

  // ---- the buffer ----------------------------------------------------------------------

  /** `std::string_view::npos`, which is no position in any buffer. */
  const NPOS: int := -1

  const INITIAL: nat := 1024

  class BufferedStream {
    const stream: Stream
    var buffer: seq<char>
    var pos: int
    var end: nat
    ghost var largest: nat  // the most bytes ever held at once

    ghost predicate Valid()
      reads this
    {
      end <= |buffer| && end <= largest && |buffer| <= Max(INITIAL, 2 * largest)
    }

    /** Between two requests: nothing found is left unconsumed. */
    ghost predicate Ready()
      reads this
    {
      Valid() && pos == 0
    }

    /** The bytes received and not consumed. */
    function Held(): string
      requires end <= |buffer|
      reads this
    {
      buffer[..end]
    }

    function View(): Inbox
      requires end <= |buffer|
      reads this, stream
    {
      Inbox(stream.receives, |buffer|, Held(), stream.incoming)
    }

    constructor (stream: Stream)
      ensures this.stream == stream && Ready()
      ensures View() == Inbox(stream.receives, INITIAL, "", stream.incoming) && |buffer| == 1024
    {
      this.stream := stream;
      buffer, pos, end, largest := seq(INITIAL, _ => '\0'), 0, 0, 0;
    }

    /** Erasing up to `pos` is defined only when `pos` is inside the buffer. */
    method Consume()
      requires Valid() && 0 <= pos <= end
      modifies this
      ensures Ready() && largest == old(largest)
      ensures View() == Drop(old(View()), old(pos))
      ensures |buffer| - end == old(|buffer| - end)
    {
      buffer := buffer[pos..];
      end := end - pos;
      pos := 0;
    }

    /** A full buffer is doubled, which does nothing for an empty one. */
    method MakeRoom()
      requires Valid()
      modifies `buffer
      ensures Valid() && Held() == old(Held())
      ensures |buffer| == if end == old(|buffer|) then 2 * end else old(|buffer|)
    {
      if |buffer| == end {
        buffer := buffer + seq(|buffer|, _ => '\0');
      }
    }

    /** Received bytes are written behind those held. */
    method Append(data: string)
      requires Valid() && end + |data| <= |buffer|
      modifies `buffer, `end, `largest
      ensures Valid() && Held() == old(Held()) + data && |buffer| == old(|buffer|)
      ensures largest == Max(old(largest), end)
    {
      buffer := buffer[..end] + data + buffer[end + |data|..];
      end := end + |data|;
      largest := Max(largest, end);
    }

    /** Make room and receive into it: the next bytes, at least one being asked for unless the buffer has size 0. */
    method ReceiveMore() returns (n: nat)
      requires Valid()
      modifies this, stream`receives, stream`incoming
      ensures Valid() && pos == old(pos) && largest == Max(old(largest), |Held()|)
      ensures View() == Receive(stream.want, old(View()))
      ensures old(|buffer|) > 0 <==> |buffer| > old(end)
      ensures |Held()| == |old(Held())| + n
    {
      MakeRoom();
      var data := stream.Receive(|buffer| - end);
      n := |data|;
      assert data == old(stream.incoming)[..n] && stream.incoming == old(stream.incoming)[n..];
      Append(data);
    }

    /** Search the held bytes for an empty line. */
    method Locate() returns (found: bool)
      requires Valid()
      modifies `pos
      ensures found <==> HeadLength(Held()) > 0
      ensures pos == if found then HeadLength(Held()) else NPOS
    {
      pos := IndexOf(buffer[..end], SEP);
      found := pos < end;
      if found {
        pos := pos + 4;
      } else {
        pos := NPOS;
      }
    }

    /**
     The next head, or nothing once a receive brings nothing. `pos` is then `npos` if and only if
     something was received before.
     */
    method ReadHead() returns (head: string)
      requires Valid()
      modifies this, stream`receives, stream`incoming
      ensures Valid() && largest == Max(old(largest), |Held()|)
      ensures match Reading.ReadHead(stream.want, old(View()))
        case Found(after) =>
          && View() == after && pos == HeadLength(Held()) && head == Held()[..pos]
        case NoHead(after) =>
          && View() == after && head == ""
          && pos == if |Held()| == |old(Held())| then old(pos) else NPOS
    {
      hide HeadLength, Receive, IndexOf;
      while true
        invariant Valid() && largest == Max(old(largest), |Held()|)
        invariant Reading.ReadHead(stream.want, View()) == Reading.ReadHead(stream.want, old(View()))
        invariant |Held()| >= |old(Held())|
        invariant pos == if |Held()| == |old(Held())| then old(pos) else NPOS
        decreases |stream.incoming|
      {
        ghost var before := View();
        ReceiveKeepsBytes(stream.want, before);
        var n := ReceiveMore();
        if n == 0 {
          return "";
        }
        var found := Locate();
        if found {
          return buffer[..pos];
        }
      }
    }
  }
}
