/**
 Reassembling messages from the session's byte stream (Peer.cpp, `handle_session_receive`): a
 fixed buffer that each read appends to and each complete message is shifted out of.
 */
module SessionReceive {
  import opened Wrappers
  import opened Serialize
  import opened ProtocolConfig
  import opened DataItem
  import opened TextFormat
  import opened WireFormat
  import opened ProtocolMessage

  const MAX_SIGNAL_SIZE := 1024 * 64

  /** The messages at the front of a byte stream, as far as they are complete. */
  function Frames(cfg: Config, stream: seq<byte>): seq<seq<byte>>
    decreases |stream|
  {
    match FrontMessage(cfg, stream)
    case Complete(n) => [stream[..n]] + Frames(cfg, stream[n..])
    case _ => []
  }

  /** What is left of the stream after those messages. */
  function Tail(cfg: Config, stream: seq<byte>): seq<byte>
    decreases |stream|
  {
    match FrontMessage(cfg, stream)
    case Complete(n) => Tail(cfg, stream[n..])
    case _ => stream
  }

  lemma FrontMessageExtends(cfg: Config, a: seq<byte>, b: seq<byte>)
    ensures !FrontMessage(cfg, a).Incomplete? ==> FrontMessage(cfg, a + b) == FrontMessage(cfg, a)
  {
    var i, h := cfg.signalIdSize, cfg.signalIdSize + cfg.signalLengthSize;
    if |a| >= h {
      assert (a + b)[..i] == a[..i] && (a + b)[i..h] == a[i..h];
    }
  }

  /** One step of framing. */
  lemma FramesStep(cfg: Config, stream: seq<byte>)
    ensures FrontMessage(cfg, stream).Complete? ==>
              && Frames(cfg, stream) == [stream[..FrontMessage(cfg, stream).size]]
                                        + Frames(cfg, stream[FrontMessage(cfg, stream).size..])
              && Tail(cfg, stream) == Tail(cfg, stream[FrontMessage(cfg, stream).size..])
    ensures !FrontMessage(cfg, stream).Complete? ==> Frames(cfg, stream) == [] && Tail(cfg, stream) == stream
  {
  }

  /** Framing a stream can be interrupted anywhere and resumed from the tail. */
  lemma {:induction false} FramesContinue(cfg: Config, a: seq<byte>, b: seq<byte>)
    ensures Frames(cfg, a + b) == Frames(cfg, a) + Frames(cfg, Tail(cfg, a) + b)
    ensures Tail(cfg, a + b) == Tail(cfg, Tail(cfg, a) + b)
    decreases |a|
  {
    hide Frames, Tail, FrontMessage;
    FramesStep(cfg, a);
    match FrontMessage(cfg, a)
    case Complete(n) =>
      FrontMessageExtends(cfg, a, b);
      FramesStep(cfg, a + b);
      FramesContinue(cfg, a[n..], b);
      assert (a + b)[..n] == a[..n] && (a + b)[n..] == a[n..] + b;
      var rest, more := Frames(cfg, a[n..]), Frames(cfg, Tail(cfg, a) + b);
      assert [a[..n]] + (rest + more) == [a[..n]] + rest + more;
    case _ =>
      assert [] + Frames(cfg, a + b) == Frames(cfg, a + b);
  }

  lemma {:induction false} TailIsNotComplete(cfg: Config, stream: seq<byte>)
    ensures !FrontMessage(cfg, Tail(cfg, stream)).Complete?
    ensures |Tail(cfg, stream)| <= |stream|
    decreases |stream|
  {
    match FrontMessage(cfg, stream)
    case Complete(n) => TailIsNotComplete(cfg, stream[n..]);
    case _ =>
  }

  /** Total size announced by a header, once the header is there. */
  function Announced(cfg: Config, buf: seq<byte>): Option<nat> {
    var i, h := cfg.signalIdSize, cfg.signalIdSize + cfg.signalLengthSize;
    if |buf| < h then None else Some(h + BigEndianValue(buf[i..h]))
  }

  /** A message that announces more than the receive buffer can hold. */
  predicate Oversized(cfg: Config, buf: seq<byte>) {
    Announced(cfg, buf).Some? && Announced(cfg, buf).value > MAX_SIGNAL_SIZE
  }

  /** While a message of admissible size is incomplete, there is room for at least one more byte. */
  lemma IncompleteLeavesRoom(cfg: Config, buf: seq<byte>)
    requires FrontMessage(cfg, buf).Incomplete? && |buf| <= MAX_SIGNAL_SIZE && !Oversized(cfg, buf)
    ensures |buf| < MAX_SIGNAL_SIZE
  {
  }

  // ---- Any split into reads ----

  function Flatten(chunks: seq<seq<byte>>): seq<byte> {
    if chunks == [] then [] else Flatten(chunks[..|chunks| - 1]) + chunks[|chunks| - 1]
  }

  datatype Reassembly = Reassembly(buffer: seq<byte>, dispatched: seq<seq<byte>>)

  /** One read of the receiver: append, then dispatch what became complete. */
  function Receive(cfg: Config, r: Reassembly, chunk: seq<byte>): Reassembly {
    Reassembly(Tail(cfg, r.buffer + chunk), r.dispatched + Frames(cfg, r.buffer + chunk))
  }

  function ReceiveAll(cfg: Config, chunks: seq<seq<byte>>): Reassembly {
    if chunks == [] then Reassembly([], [])
    else Receive(cfg, ReceiveAll(cfg, chunks[..|chunks| - 1]), chunks[|chunks| - 1])
  }

  /** Every read fitted the space that was free. */
  predicate ReadsFit(cfg: Config, chunks: seq<seq<byte>>) {
    chunks == [] ||
    (&& ReadsFit(cfg, chunks[..|chunks| - 1])
     && |ReceiveAll(cfg, chunks[..|chunks| - 1]).buffer| + |chunks[|chunks| - 1]| <= MAX_SIGNAL_SIZE)
  }

  /** What is dispatched and what stays buffered depend on the bytes alone, not on the reads. */
  lemma {:induction false} ChunkingDoesNotMatter(cfg: Config, chunks: seq<seq<byte>>)
    ensures ReceiveAll(cfg, chunks) == Reassembly(Tail(cfg, Flatten(chunks)), Frames(cfg, Flatten(chunks)))
  {
    if chunks == [] {
      assert FrontMessage(cfg, []).Incomplete?;
    } else {
      var front, last := chunks[..|chunks| - 1], chunks[|chunks| - 1];
      ChunkingDoesNotMatter(cfg, front);
      FramesContinue(cfg, Flatten(front), last);
    }
  }

  /** The buffer never overflows, and is never even full unless the message in it can never fit. */
  lemma RoomForTheNextRead(cfg: Config, chunks: seq<seq<byte>>)
    requires ReadsFit(cfg, chunks)
    ensures var buffer := ReceiveAll(cfg, chunks).buffer;
            && |buffer| <= 65536
            && !FrontMessage(cfg, buffer).Complete?
            && (FrontMessage(cfg, buffer).Incomplete? && !Oversized(cfg, buffer) ==> |buffer| < 65536)
  {
    ChunkingDoesNotMatter(cfg, chunks);
    TailIsNotComplete(cfg, Flatten(chunks));
    if chunks != [] {
      var front, last := chunks[..|chunks| - 1], chunks[|chunks| - 1];
      TailIsNotComplete(cfg, ReceiveAll(cfg, front).buffer + last);
    }
  }

  /** A message announced as larger than the buffer stops the session: nothing is ever dispatched again. */
  lemma {:induction false} OversizedMessageNeverLeaves(cfg: Config, chunks: seq<seq<byte>>, more: seq<seq<byte>>)
    requires ReadsFit(cfg, chunks + more)
    requires Oversized(cfg, ReceiveAll(cfg, chunks).buffer)
    ensures ReceiveAll(cfg, chunks + more).dispatched == ReceiveAll(cfg, chunks).dispatched
    ensures ReceiveAll(cfg, chunks + more).buffer == ReceiveAll(cfg, chunks).buffer + Flatten(more)
    decreases |more|
  {
    hide Frames, Tail, FrontMessage, Announced;
    if more == [] {
      assert chunks + more == chunks;
      assert ReceiveAll(cfg, chunks).buffer + [] == ReceiveAll(cfg, chunks).buffer;
    } else {
      var all, front, last := chunks + more, more[..|more| - 1], more[|more| - 1];
      assert all[..|all| - 1] == chunks + front && all[|all| - 1] == last;
      OversizedMessageNeverLeaves(cfg, chunks, front);
      var start := ReceiveAll(cfg, chunks).buffer;
      var buffer := start + Flatten(front) + last;
      assert buffer == start + Flatten(more);
      StillOversized(cfg, start, Flatten(more));
      assert ReceiveAll(cfg, chunks).dispatched + [] == ReceiveAll(cfg, chunks).dispatched;
    }
  }

  lemma StillOversized(cfg: Config, a: seq<byte>, b: seq<byte>)
    requires Oversized(cfg, a)
    requires |a + b| <= MAX_SIGNAL_SIZE
    ensures Frames(cfg, a + b) == [] && Tail(cfg, a + b) == a + b
  {
    var i, h := cfg.signalIdSize, cfg.signalIdSize + cfg.signalLengthSize;
    assert (a + b)[i..h] == a[i..h];
  }

  // ---- End to end ----

  datatype Outgoing = Outgoing(id: u32, items: seq<Item>)

  /** A message that can be built, framed and recognised under a configuration. */
  predicate Sendable(cfg: Config, m: Outgoing) {
    && KnownId(cfg, false, m.id)
    && AllWellTyped(cfg, None, m.items)
    && EncodeItems(cfg, m.items).Some?
    && Framable(cfg, m.id, |EncodeItems(cfg, m.items).value|)
  }

  function BytesOf(cfg: Config, m: Outgoing): seq<byte>
    requires Sendable(cfg, m)
  {
    Frame(cfg, false, m.id, EncodeItems(cfg, m.items).value)
  }

  predicate AllSendable(cfg: Config, ms: seq<Outgoing>) {
    forall k :: 0 <= k < |ms| ==> Sendable(cfg, ms[k])
  }

  function StreamOf(cfg: Config, ms: seq<Outgoing>): seq<byte>
    requires AllSendable(cfg, ms)
  {
    if ms == [] then [] else BytesOf(cfg, ms[0]) + StreamOf(cfg, ms[1..])
  }

  lemma {:induction false} StreamFrames(cfg: Config, ms: seq<Outgoing>)
    requires AllSendable(cfg, ms)
    ensures Tail(cfg, StreamOf(cfg, ms)) == []
    ensures |Frames(cfg, StreamOf(cfg, ms))| == |ms|
    ensures forall k :: 0 <= k < |ms| ==> Frames(cfg, StreamOf(cfg, ms))[k] == BytesOf(cfg, ms[k])
  {
    if ms == [] {
      assert FrontMessage(cfg, []).Incomplete?;
    } else {
      var first, rest := BytesOf(cfg, ms[0]), StreamOf(cfg, ms[1..]);
      BuiltMessageFrames(cfg, ms[0].id, EncodeItems(cfg, ms[0].items).value, rest);
      StreamFrames(cfg, ms[1..]);
      assert (first + rest)[..|first|] == first && (first + rest)[|first|..] == rest;
    }
  }

  lemma SentMessageParses(cfg: Config, m: Outgoing)
    requires Sendable(cfg, m)
    ensures ParseMessage(cfg, false, BytesOf(cfg, m)) ==
            if AllHaveText(cfg, m.items, None) then Some((m.id, m.items)) else None
  {
    BuiltMessageParses(cfg, false, m.id, m.items);
  }

  /**
   From builder to parser: whatever part of a peer's messages has arrived, in whatever reads, the
   messages dispatched are the first ones sent, in order, and each parses to the id and items its
   sender put in, or to nothing if these have no text.  Once all bytes are there, so are all messages, and nothing stays behind.
   */
  lemma MessagesArriveIntact(cfg: Config, ms: seq<Outgoing>, chunks: seq<seq<byte>>)
    requires AllSendable(cfg, ms)
    requires Flatten(chunks) <= StreamOf(cfg, ms)
    ensures var r := ReceiveAll(cfg, chunks);
            && |r.dispatched| <= |ms|
            && (forall k :: 0 <= k < |r.dispatched| ==>
                  && r.dispatched[k] == BytesOf(cfg, ms[k])
                  && ParseMessage(cfg, false, r.dispatched[k]) ==
                     if AllHaveText(cfg, ms[k].items, None) then Some((ms[k].id, ms[k].items)) else None)
            && (Flatten(chunks) == StreamOf(cfg, ms) ==> |r.dispatched| == |ms| && r.buffer == [])
  {
    hide Frames, Tail, FrontMessage, ParseMessage, Sendable, StreamOf;
    var arrived, stream := Flatten(chunks), StreamOf(cfg, ms);
    var missing := stream[|arrived|..];
    assert stream == arrived + missing;
    ChunkingDoesNotMatter(cfg, chunks);
    FramesContinue(cfg, arrived, missing);
    StreamFrames(cfg, ms);
    forall k | 0 <= k < |Frames(cfg, arrived)|
      ensures Frames(cfg, arrived)[k] == BytesOf(cfg, ms[k])
      ensures ParseMessage(cfg, false, Frames(cfg, arrived)[k]) ==
              if AllHaveText(cfg, ms[k].items, None) then Some((ms[k].id, ms[k].items)) else None
    {
      assert Frames(cfg, stream)[k] == Frames(cfg, arrived)[k];
      SentMessageParses(cfg, ms[k]);
    }
  }

  // ---- The buffer in place ----

  class Receiver {
    const cfg: Config
    const recvBuffer: array<byte>
    var recvLen: nat
    var lastReceiveTime: int
    var dispatched: seq<seq<byte>>      // the messages handed to the dispatcher
    ghost var received: seq<byte>       // every byte read so far

    ghost predicate Valid()
      reads this, recvBuffer
    {
      && recvBuffer.Length == MAX_SIGNAL_SIZE
      && recvLen <= recvBuffer.Length
      && recvBuffer[..recvLen] == Tail(cfg, received)
      && dispatched == Frames(cfg, received)
    }

    constructor (cfg: Config, now: int)
      ensures Valid() && received == [] && this.cfg == cfg && lastReceiveTime == now
      ensures fresh(recvBuffer)
    {
      this.cfg := cfg;
      recvBuffer := new byte[MAX_SIGNAL_SIZE](_ => 0);
      recvLen, lastReceiveTime, dispatched, received := 0, now, [], [];
      new;
      assert FrontMessage(cfg, []).Incomplete?;
    }

    /** The socket placed `chunk` behind the bytes already held. */
    method Append(chunk: seq<byte>)
      requires recvLen + |chunk| <= recvBuffer.Length
      modifies this`recvLen, recvBuffer
      ensures recvLen == old(recvLen) + |chunk|
      ensures recvBuffer[..recvLen] == old(recvBuffer[..recvLen]) + chunk
    {
      forall i | 0 <= i < |chunk| {
        recvBuffer[recvLen + i] := chunk[i];
      }
      recvLen := recvLen + |chunk|;
    }

    /** Hand the first `size` bytes to the dispatcher and move the rest to the front. */
    method DispatchFront(size: nat)
      requires size <= recvLen <= recvBuffer.Length
      modifies this`recvLen, this`dispatched, recvBuffer
      ensures recvLen == old(recvLen) - size
      ensures dispatched == old(dispatched) + [old(recvBuffer[..recvLen])[..size]]
      ensures recvBuffer[..recvLen] == old(recvBuffer[..recvLen])[size..]
    {
      assert recvBuffer[..size] == recvBuffer[..recvLen][..size];
      dispatched := dispatched + [recvBuffer[..size]];
      var remaining := recvLen - size;
      forall i | 0 <= i < remaining {
        recvBuffer[i] := recvBuffer[i + size];
      }
      recvLen := remaining;
    }

    /**
     A read has completed with `chunk`: dispatch every message that is now complete and keep the
     rest at the front.
     */
    method HandleSessionReceive(chunk: seq<byte>, now: int) returns (threw: bool)
      requires Valid() && |chunk| <= recvBuffer.Length - recvLen
      modifies this, recvBuffer
      ensures Valid() && received == old(received) + chunk && lastReceiveTime == now
      ensures dispatched == old(dispatched) + Frames(cfg, old(recvBuffer[..recvLen]) + chunk)
      ensures threw <==> FrontMessage(cfg, Tail(cfg, received)).BadId?
      ensures !threw && !Oversized(cfg, Tail(cfg, received)) ==> recvLen < recvBuffer.Length
    {
      hide Frames, Tail, FrontMessage, Announced;
      ghost var pending := recvBuffer[..recvLen] + chunk;
      Append(chunk);
      lastReceiveTime := now;
      FramesContinue(cfg, received, chunk);
      received := received + chunk;
      ghost var done: seq<seq<byte>> := [];
      assert done + Frames(cfg, pending) == Frames(cfg, pending);
      var framing := IsCompleteMessage(cfg, recvBuffer[..recvLen]);
      while framing.Complete?
        invariant recvLen <= recvBuffer.Length
        invariant received == old(received) + chunk && lastReceiveTime == now
        invariant dispatched == old(dispatched) + done
        invariant done + Frames(cfg, recvBuffer[..recvLen]) == Frames(cfg, pending)
        invariant Tail(cfg, recvBuffer[..recvLen]) == Tail(cfg, pending)
        invariant framing == FrontMessage(cfg, recvBuffer[..recvLen])
        decreases recvLen
      {
        ghost var held := recvBuffer[..recvLen];
        FramesStep(cfg, held);
        DispatchFront(framing.size);
        done := done + [held[..framing.size]];
        framing := IsCompleteMessage(cfg, recvBuffer[..recvLen]);
      }
      FramesStep(cfg, recvBuffer[..recvLen]);
      assert done + [] == done;
      if framing.Incomplete? && !Oversized(cfg, recvBuffer[..recvLen]) {
        IncompleteLeavesRoom(cfg, recvBuffer[..recvLen]);
      }
      threw := framing.BadId?;
    }
  }
}
