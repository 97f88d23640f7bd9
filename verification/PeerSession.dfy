/**
 The session object itself (Peer.cpp and Peer.h): queues of shared `ResponsePending` objects that
 are updated in place.  Every method is proved to move the abstract session of `Transactions`
 exactly one step, so all run theorems about that state machine hold of the object.
 */
module PeerSession {
  import opened Serialize
  import opened DataItem
  import opened Transactions

  class ResponsePending {
    const responseId: u32
    const dest: Mac
    const msgBuffer: seq<byte>
    var queued: bool
    var sendTime: int
    var sendTries: nat
    ghost var serial: nat

    constructor (responseId: u32, dest: Mac, msgBuffer: seq<byte>)
      ensures this.responseId == responseId && this.dest == dest && this.msgBuffer == msgBuffer
      ensures !queued && sendTime == 0 && sendTries == 0
    {
      this.responseId, this.dest, this.msgBuffer := responseId, dest, msgBuffer;
      queued, sendTime, sendTries := false, 0, 0;
    }

    ghost function View(): Pending
      reads this
    {
      Pending(serial, responseId, dest, msgBuffer, sendTime, sendTries)
    }
  }

  /** The payloads that a log says were written to the socket, in order. */
  function Payloads(log: seq<Action>): seq<seq<byte>> {
    if log == [] then []
    else
      var a := log[|log| - 1];
      if a.Transmitted? then Payloads(log[..|log| - 1]) + [a.payload] else Payloads(log[..|log| - 1])
  }

  lemma PayloadsStep(log: seq<Action>, a: Action)
    ensures Payloads(log + [a]) == if a.Transmitted? then Payloads(log) + [a.payload] else Payloads(log)
  {
    assert (log + [a])[..|log|] == log;
  }

  class Peer {
    const params: Params
    var responsesPending: map<Mac, seq<ResponsePending>>
    var notInterested: set<Mac>
    var pstate: PeerState
    var lastReceiveTime: int
    var heartbeatIntervalSec: u32
    var written: seq<seq<byte>>          // messages written to the socket that expect a response
    ghost var session: Session           // the abstract session this object implements
    ghost var Repr: set<ResponsePending>

    /** The queue of a destination, entry by entry, is the abstract queue. */
    ghost predicate Represents(d: Mac, q: seq<ResponsePending>, model: seq<Pending>)
      reads Repr, this`Repr
    {
      && q != []
      && |q| == |model|
      && (forall i :: 0 <= i < |q| ==> q[i] in Repr && q[i].dest == d && q[i].queued)
      && (forall i :: 0 <= i < |q| ==> q[i] in Repr && q[i].View() == model[i])
      && (forall i, j :: 0 <= i < j < |q| ==> q[i] != q[j])
    }

    ghost predicate Valid()
      reads this, Repr
    {
      && session.queues.Keys == responsesPending.Keys
      && (forall d :: d in responsesPending ==> Represents(d, responsesPending[d], session.queues[d]))
      && session.notInterested == notInterested
      && session.state == pstate
      && session.lastReceive == lastReceiveTime
      && session.intervalSec == heartbeatIntervalSec
      && written == Payloads(session.log)
    }

    constructor (params: Params, now: int)
      ensures Valid() && session == Initial(now) && this.params == params && written == []
    {
      this.params := params;
      responsesPending, notInterested, pstate := map[], {}, Connected;
      lastReceiveTime, heartbeatIntervalSec, written := now, 0, [];
      session, Repr := Initial(now), {};
    }

    /** Write the message of a queue head to the socket and count the try. */
    method WriteHead(rp: ResponsePending, now: int)
      requires Valid() && rp.dest in responsesPending && responsesPending[rp.dest][0] == rp
      modifies this`written, this`session, rp`sendTime, rp`sendTries
      ensures Valid() && session == Transmit(old(session), rp.dest, now)
      ensures written == old(written) + [rp.msgBuffer]
    {
      hide Payloads;
      ghost var before := session;
      assert Represents(rp.dest, responsesPending[rp.dest], session.queues[rp.dest]);
      PayloadsStep(session.log, Transmitted(rp.dest, rp.serial, rp.responseId, rp.msgBuffer));
      written := written + [rp.msgBuffer];
      session := Transmit(session, rp.dest, now);
      rp.sendTime := now;
      rp.sendTries := rp.sendTries + 1;
      forall d | d in responsesPending
        ensures Represents(d, responsesPending[d], session.queues[d])
      {
        ghost var q := responsesPending[d];
        assert old(Represents(d, q, before.queues[d]));
        if d == rp.dest {
          assert session.queues[d] == [rp.View()] + before.queues[d][1..];
        } else {
          assert session.queues[d] == before.queues[d];
          assert forall i :: 0 <= i < |q| ==> q[i] != rp;
        }
      }
    }

    /** One more entry at the back of a queue. */
    lemma Appended(d: Mac, q: seq<ResponsePending>, model: seq<Pending>, rp: ResponsePending)
      requires (q == [] && model == []) || Represents(d, q, model)
      requires rp in Repr && rp.queued && rp.dest == d && rp !in q
      ensures Represents(d, q + [rp], model + [rp.View()])
    {
    }

    /** Put a message at the back of its destination's queue. */
    method Enqueue(rp: ResponsePending)
      requires Valid() && rp !in Repr && rp.sendTime == 0 && rp.sendTries == 0
      modifies this`responsesPending, this`session, this`Repr, rp`queued, rp`serial
      ensures Valid() && Repr == old(Repr) + {rp} && rp.queued
      ensures responsesPending == old(responsesPending)[rp.dest := QueueOf(old(responsesPending), rp.dest) + [rp]]
      ensures session == Transactions.Enqueue(old(session),
                Pending(old(session).nextSerial, rp.responseId, rp.dest, rp.msgBuffer, 0, 0))
    {
      hide Payloads;
      ghost var before := session;
      PayloadsStep(session.log, Enqueued(rp.dest, session.nextSerial));
      responsesPending := responsesPending[rp.dest := QueueOf(responsesPending, rp.dest) + [rp]];
      rp.queued := true;
      rp.serial := session.nextSerial;
      session := Transactions.Enqueue(session, Pending(session.nextSerial, rp.responseId, rp.dest, rp.msgBuffer, 0, 0));
      Repr := Repr + {rp};
      ghost var queues := old(responsesPending);
      forall d | d in queues
        ensures Represents(d, queues[d], before.queues[d]) && rp !in queues[d]
      {
        assert old(Represents(d, queues[d], before.queues[d]));
      }
      Appended(rp.dest, QueueOf(queues, rp.dest), Queue(before, rp.dest), rp);
    }

    /**
     Queue a message that is not queued yet, and send it if it is at the head of its queue.
     Nothing happens for a destination the peer is not interested in.
     */
    method SendMessageExpectingResponse(rp: ResponsePending, now: int)
      requires Valid()
      requires rp.queued ==> rp.dest in responsesPending && rp in responsesPending[rp.dest]
      requires !rp.queued ==> rp !in Repr && rp.sendTime == 0 && rp.sendTries == 0
      modifies this`responsesPending, this`written, this`session, this`Repr, rp
      ensures Valid() && Repr <= old(Repr) + {rp}
      ensures !old(rp.queued) ==> session == SendNew(old(session), rp.responseId, rp.dest, rp.msgBuffer, now)
      ensures old(rp.queued) ==> responsesPending == old(responsesPending)
      ensures old(rp.queued) && responsesPending[rp.dest][0] == rp ==> session == SendHead(old(session), rp.dest, now)
      ensures old(rp.queued) && responsesPending[rp.dest][0] != rp ==> session == old(session)
    {
      if rp.dest in notInterested {
        return;
      }
      if !rp.queued {
        assert rp.dest in responsesPending ==>
                 Represents(rp.dest, responsesPending[rp.dest], session.queues[rp.dest]);
        Enqueue(rp);
      }
      if responsesPending[rp.dest][0] == rp {
        WriteHead(rp, now);
      }
    }

    method Terminate(now: int)
      requires Valid()
      modifies this`responsesPending, this`written, this`session, this`Repr, this`pstate
      ensures Valid() && session == Transactions.Terminate(old(session), params, now)
      ensures fresh(Repr - old(Repr))
    {
      if pstate.Terminating? {
        return;
      }
      pstate := Terminating;
      session := session.(state := Terminating);
      var rp := new ResponsePending(params.terminationResponse, SESSION, params.terminationPayload);
      SendMessageExpectingResponse(rp, now);
    }

    /** Remove the head of a queue, and the queue with its last entry. */
    method PopHead(dest: Mac)
      requires Valid() && dest in responsesPending
      modifies this`responsesPending, this`session
      ensures Valid()
      ensures var rest := old(responsesPending)[dest][1..];
              responsesPending ==
              if rest == [] then old(responsesPending) - {dest} else old(responsesPending)[dest := rest]
      ensures session == Pop(old(session), dest)
    {
      ghost var before := session;
      var queue := responsesPending[dest];
      hide Payloads;
      assert Represents(dest, queue, session.queues[dest]);
      PayloadsStep(session.log, Acknowledged(dest, session.queues[dest][0].serial));
      session := Pop(session, dest);
      if |queue| == 1 {
        assert queue[1..] == [];
        responsesPending := responsesPending - {dest};
      } else {
        responsesPending := responsesPending[dest := queue[1..]];
      }
      forall d | d in responsesPending
        ensures Represents(d, responsesPending[d], session.queues[d])
      {
        assert old(Represents(d, responsesPending[d], before.queues[d]));
      }
    }

    /** What is known of the head of a queue. */
    lemma HeadOf(d: Mac, q: seq<ResponsePending>, model: seq<Pending>)
      requires Represents(d, q, model)
      ensures |q| == |model| > 0 && q[0] in Repr && q[0].dest == d && q[0].queued && q[0].View() == model[0]
    {
    }

    /** Match a response with the head of its destination's queue; anything else ends the session. */
    method HandleResponse(dest: Mac, responseId: u32, now: int) returns (ok: bool)
      requires Valid()
      modifies this`responsesPending, this`written, this`session, this`Repr, this`pstate, Repr
      ensures Valid() && session == Transactions.HandleResponse(old(session), params, dest, responseId, now)
      ensures ok <==> Expected(old(session), dest, responseId)
      ensures fresh(Repr - old(Repr))
    {
      hide Payloads, Represents;
      ok := false;
      if dest in responsesPending {
        HeadOf(dest, responsesPending[dest], session.queues[dest]);
        var queue := responsesPending[dest];
        if queue[0].responseId == responseId {
          ok := true;
          PopHead(dest);
          if |queue| > 1 {
            HeadOf(dest, responsesPending[dest], session.queues[dest]);
            SendMessageExpectingResponse(queue[1], now);
          }
          return;
        }
      }
      Terminate(now);
    }

    /** Resend every late head in the given order of queues, or end the session at the first that ran out of tries. */
    method CheckForRetransmits(now: int, order: seq<Mac>)
      requires Valid()
      modifies this`responsesPending, this`written, this`session, this`Repr, this`pstate, Repr
      ensures Valid() && session == Transactions.CheckForRetransmits(old(session), params, now, order)
      ensures fresh(Repr - old(Repr))
    {
      var k := 0;
      while k < |order|
        invariant 0 <= k <= |order| && Valid() && Repr <= old(Repr)
        invariant Transactions.CheckForRetransmits(old(session), params, now, order) ==
                  Transactions.CheckForRetransmits(session, params, now, order[k..])
      {
        var d := order[k];
        assert order[k..][0] == d && order[k..][1..] == order[k + 1..];
        if d in responsesPending {
          assert Represents(d, responsesPending[d], session.queues[d]);
          var head := responsesPending[d][0];
          if head.sendTime + params.ackTimeout < now {
            if head.sendTries < params.sendTries {
              SendMessageExpectingResponse(head, now);
            } else {
              Terminate(now);
              return;
            }
          }
        }
        k := k + 1;
      }
      assert order[k..] == [];
    }

    /** The one-second timer: inactivity first, then retransmissions. */
    method HandleTimeout(now: int, order: seq<Mac>)
      requires Valid()
      modifies this`responsesPending, this`written, this`session, this`Repr, this`pstate, Repr
      ensures Valid() && session == Tick(old(session), params, now, order)
      ensures fresh(Repr - old(Repr))
    {
      if heartbeatIntervalSec != 0 {
        var activeUntil := (lastReceiveTime + heartbeatIntervalSec * params.heartbeatThreshold % 0x1_0000_0000)
                           % 0x1_0000_0000;
        if activeUntil <= now {
          Terminate(now);
          return;
        }
      }
      CheckForRetransmits(now, order);
    }

    /** Build a message that expects a response and send it or queue it. */
    method SendRequest(responseId: u32, dest: Mac, msgBuffer: seq<byte>, now: int)
      requires Valid()
      modifies this`responsesPending, this`written, this`session, this`Repr
      ensures Valid() && session == SendNew(old(session), responseId, dest, msgBuffer, now)
      ensures fresh(Repr - old(Repr))
    {
      var rp := new ResponsePending(responseId, dest, msgBuffer);
      SendMessageExpectingResponse(rp, now);
    }

    /** The end of a session from outside: end of file, or the peer's own termination. */
    method Stop()
      requires Valid()
      modifies this`pstate, this`session
      ensures Valid() && session == Step(old(session), params, Transactions.Stop)
    {
      pstate := Terminating;
      session := session.(state := Terminating);
    }

    /** An initialization message sets the state whatever it was before. */
    method Establish()
      requires Valid()
      modifies this`pstate, this`session
      ensures Valid() && session == Step(old(session), params, Transactions.Establish)
    {
      pstate := InSession;
      session := session.(state := InSession);
    }

    /** Bytes from the peer. */
    method Receive(now: int)
      requires Valid()
      modifies this`lastReceiveTime, this`session
      ensures Valid() && session == Step(old(session), params, Transactions.Receive(now))
    {
      lastReceiveTime := now;
      session := session.(lastReceive := now);
    }

    /** The heartbeat interval of an initialization message, in seconds. */
    method StoreInterval(seconds: u32)
      requires Valid()
      modifies this`heartbeatIntervalSec, this`session
      ensures Valid() && session == Step(old(session), params, Interval(seconds))
    {
      heartbeatIntervalSec := seconds;
      session := session.(intervalSec := seconds);
    }

    /** The peer has an interest in a destination after all. */
    method RegainInterest(dest: Mac)
      requires Valid()
      modifies this`notInterested, this`session
      ensures Valid() && session == Step(old(session), params, Regain(dest))
    {
      notInterested := notInterested - {dest};
      session := session.(notInterested := session.notInterested - {dest});
    }

    method NotInterested(dest: Mac)
      requires Valid()
      modifies this`notInterested, this`session
      ensures Valid() && session == Step(old(session), params, Shun(dest))
    {
      notInterested := notInterested + {dest};
      PayloadsStep(session.log, Shunned(dest));
      session := Step(session, params, Shun(dest));
    }
  }

  function QueueOf(m: map<Mac, seq<ResponsePending>>, d: Mac): seq<ResponsePending> {
    if d in m then m[d] else []
  }
}
