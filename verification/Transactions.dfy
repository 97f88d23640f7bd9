/**
 The transaction model of a session (Peer.cpp; section 8 of RFC 8175) as a state machine: one
 queue of pending messages per destination, the head of each queue in flight, a one-second timer
 that retransmits and gives up, and a log of what was enqueued, transmitted and acknowledged.
 The empty MAC address stands for the session's own queue.
 */
module Transactions {
  import opened Serialize
  import opened DataItem

  datatype PeerState = Connected | InSession | Terminating

  /** A message that expects a response.  `serial` tells apart messages that look alike. */
  datatype Pending = Pending(
    serial: nat,
    responseId: u32,
    dest: Mac,
    payload: seq<byte>,
    sendTime: int,
    sendTries: nat)

  datatype Action =
    | Enqueued(dest: Mac, serial: nat)
    | Transmitted(dest: Mac, serial: nat, responseId: u32, payload: seq<byte>)
    | Acknowledged(dest: Mac, serial: nat)
    | Shunned(dest: Mac)                     // the peer said it is not interested

  datatype Session = Session(
    queues: map<Mac, seq<Pending>>,
    notInterested: set<Mac>,
    state: PeerState,
    nextSerial: nat,
    lastReceive: int,
    intervalSec: u32,
    log: seq<Action>)

  /** Configuration, constant over a run. */
  datatype Params = Params(
    ackTimeout: u32,
    sendTries: u32,
    heartbeatThreshold: u32,
    terminationResponse: u32,
    terminationPayload: seq<byte>)

  const SESSION: Mac := []

  function Queue(s: Session, d: Mac): seq<Pending> {
    if d in s.queues then s.queues[d] else []
  }

  function Logged(s: Session, a: Action): Session {
    s.(log := s.log + [a])
  }

  /** Send the head of a queue (again). */
  function Transmit(s: Session, d: Mac, now: int): Session
    requires d in s.queues && s.queues[d] != []
  {
    var head := s.queues[d][0];
    var sent := head.(sendTime := now, sendTries := head.sendTries + 1);
    Logged(s.(queues := s.queues[d := [sent] + s.queues[d][1..]]),
           Transmitted(d, head.serial, head.responseId, head.payload))
  }

  /** The session with one more entry at the back of a queue. */
  function Enqueue(s: Session, x: Pending): Session {
    Logged(s.(queues := s.queues[x.dest := Queue(s, x.dest) + [x]], nextSerial := s.nextSerial + 1),
           Enqueued(x.dest, x.serial))
  }

  /** The session with the head of a queue acknowledged and gone. */
  function Pop(s: Session, d: Mac): Session
    requires d in s.queues && s.queues[d] != []
  {
    var rest := s.queues[d][1..];
    Logged(s.(queues := if rest == [] then s.queues - {d} else s.queues[d := rest]),
           Acknowledged(d, s.queues[d][0].serial))
  }

  /** `send_message_expecting_response` for the head of a queue. */
  function SendHead(s: Session, d: Mac, now: int): Session
    requires d in s.queues && s.queues[d] != []
  {
    if d in s.notInterested then s else Transmit(s, d, now)
  }

  /** `send_message_expecting_response` for a new message. */
  function SendNew(s: Session, responseId: u32, d: Mac, payload: seq<byte>, now: int): Session {
    if d in s.notInterested then s
    else
      var queued := Enqueue(s, Pending(s.nextSerial, responseId, d, payload, 0, 0));
      if Queue(s, d) == [] then Transmit(queued, d, now) else queued
  }

  function Terminate(s: Session, p: Params, now: int): Session {
    if s.state.Terminating? then s
    else SendNew(s.(state := Terminating), p.terminationResponse, SESSION, p.terminationPayload, now)
  }

  /** Does a response match the head of its destination's queue? */
  predicate Expected(s: Session, d: Mac, responseId: u32) {
    d in s.queues && s.queues[d] != [] && s.queues[d][0].responseId == responseId
  }

  function Acknowledge(s: Session, d: Mac, now: int): Session
    requires d in s.queues && s.queues[d] != []
  {
    var popped := Pop(s, d);
    if d in popped.queues then SendHead(popped, d, now) else popped
  }

  function HandleResponse(s: Session, p: Params, d: Mac, responseId: u32, now: int): Session {
    if Expected(s, d, responseId) then Acknowledge(s, d, now) else Terminate(s, p, now)
  }

  predicate Late(s: Session, p: Params, d: Mac, now: int) {
    d in s.queues && s.queues[d] != [] && s.queues[d][0].sendTime + p.ackTimeout < now
  }

  /** Look at the queues in the given order, up to the first that has used up its tries. */
  function CheckForRetransmits(s: Session, p: Params, now: int, order: seq<Mac>): Session
    decreases |order|
  {
    if order == [] then s
    else if !Late(s, p, order[0], now) then CheckForRetransmits(s, p, now, order[1..])
    else if s.queues[order[0]][0].sendTries < p.sendTries then
      CheckForRetransmits(SendHead(s, order[0], now), p, now, order[1..])
    else Terminate(s, p, now)
  }

  /** End of the time for which the peer counts as active, in the 32-bit arithmetic of the code. */
  function ActiveUntil(s: Session, p: Params): u32 {
    (s.lastReceive + s.intervalSec * p.heartbeatThreshold % 0x1_0000_0000) % 0x1_0000_0000
  }

  predicate Active(s: Session, p: Params, now: int) {
    s.intervalSec == 0 || now < ActiveUntil(s, p)
  }

  /** `handle_acktivity_timeout`: the one-second timer. */
  function Tick(s: Session, p: Params, now: int, order: seq<Mac>): Session {
    if Active(s, p, now) then CheckForRetransmits(s, p, now, order) else Terminate(s, p, now)
  }

  datatype Event =
    | Send(responseId: u32, dest: Mac, payload: seq<byte>, now: int)
    | Response(dest: Mac, responseId: u32, now: int)
    | Timer(now: int, order: seq<Mac>)
    | Shun(dest: Mac)                        // a status of Not Interested, or a Down of our destination
    | Regain(dest: Mac)                      // an Up or Announce of the destination
    | Fail(now: int)                         // any other cause of termination
    | Stop                                   // end of file, or the peer terminates
    | Establish                              // an initialization message
    | Receive(now: int)                      // any bytes from the peer
    | Interval(seconds: u32)                 // the heartbeat interval of an initialization message

  function Step(s: Session, p: Params, e: Event): Session {
    match e
    case Send(responseId, d, payload, now) => SendNew(s, responseId, d, payload, now)
    case Response(d, responseId, now) => HandleResponse(s, p, d, responseId, now)
    case Timer(now, order) => Tick(s, p, now, order)
    case Shun(d) => Logged(s.(notInterested := s.notInterested + {d}), Shunned(d))
    case Regain(d) => s.(notInterested := s.notInterested - {d})
    case Fail(now) => Terminate(s, p, now)
    case Stop => s.(state := Terminating)
    case Establish => s.(state := InSession)
    case Receive(now) => s.(lastReceive := now)
    case Interval(seconds) => s.(intervalSec := seconds)
  }

  function Run(s: Session, p: Params, events: seq<Event>): Session {
    if events == [] then s else Step(Run(s, p, events[..|events| - 1]), p, events[|events| - 1])
  }

  function Initial(now: int): Session {
    Session(map[], {}, Connected, 0, now, 0, [])
  }

  // ---- At most one message in flight per destination ----

  function MaxTries(p: Params): nat {
    if p.sendTries > 1 then p.sendTries else 1
  }

  /** A queue whose entries are its own, in order of age, and only whose head has been sent. */
  ghost predicate QueueOk(q: seq<Pending>, d: Mac, nextSerial: nat, maxTries: nat) {
    && q != []
    && q[0].sendTries <= maxTries
    && (forall i :: 0 <= i < |q| ==> q[i].dest == d && q[i].serial < nextSerial)
    && (forall i :: 1 <= i < |q| ==> q[i].sendTries == 0)
    && (forall i, j :: 0 <= i < j < |q| ==> q[i].serial < q[j].serial)
  }

  ghost predicate InFlightOk(s: Session, p: Params) {
    forall d :: d in s.queues ==> QueueOk(s.queues[d], d, s.nextSerial, MaxTries(p))
  }

  lemma TransmitKeepsInFlight(s: Session, p: Params, d: Mac, now: int)
    requires InFlightOk(s, p) && d in s.queues && s.queues[d][0].sendTries < MaxTries(p)
    ensures InFlightOk(Transmit(s, d, now), p)
  {
    assert QueueOk(s.queues[d], d, s.nextSerial, MaxTries(p));
    assert QueueOk(Transmit(s, d, now).queues[d], d, s.nextSerial, MaxTries(p));
  }

  lemma SendNewKeepsInFlight(s: Session, p: Params, responseId: u32, d: Mac, payload: seq<byte>, now: int)
    requires InFlightOk(s, p)
    ensures InFlightOk(SendNew(s, responseId, d, payload, now), p)
  {
    if d !in s.notInterested {
      var q := Queue(s, d) + [Pending(s.nextSerial, responseId, d, payload, 0, 0)];
      var queued := Enqueue(s, Pending(s.nextSerial, responseId, d, payload, 0, 0));
      assert d in s.queues ==> QueueOk(s.queues[d], d, s.nextSerial, MaxTries(p));
      assert QueueOk(q, d, queued.nextSerial, MaxTries(p));
      forall e | e in s.queues
        ensures QueueOk(s.queues[e], e, queued.nextSerial, MaxTries(p))
      {
        assert QueueOk(s.queues[e], e, s.nextSerial, MaxTries(p));
      }
      assert InFlightOk(queued, p);
      if Queue(s, d) == [] {
        TransmitKeepsInFlight(queued, p, d, now);
      }
    }
  }

  lemma AcknowledgeKeepsInFlight(s: Session, p: Params, d: Mac, now: int)
    requires InFlightOk(s, p) && d in s.queues && s.queues[d] != []
    ensures InFlightOk(Acknowledge(s, d, now), p)
  {
    var rest := s.queues[d][1..];
    var popped := Pop(s, d);
    assert QueueOk(s.queues[d], d, s.nextSerial, MaxTries(p));
    assert rest != [] ==> QueueOk(rest, d, s.nextSerial, MaxTries(p));
    assert InFlightOk(popped, p);
    if rest != [] && d !in s.notInterested {
      TransmitKeepsInFlight(popped, p, d, now);
    }
  }

  lemma {:induction false} RetransmitsKeepInFlight(s: Session, p: Params, now: int, order: seq<Mac>)
    requires InFlightOk(s, p)
    ensures InFlightOk(CheckForRetransmits(s, p, now, order), p)
    decreases |order|
  {
    if order != [] {
      var d := order[0];
      if !Late(s, p, d, now) {
        RetransmitsKeepInFlight(s, p, now, order[1..]);
      } else if s.queues[d][0].sendTries < p.sendTries {
        if d !in s.notInterested {
          TransmitKeepsInFlight(s, p, d, now);
        }
        RetransmitsKeepInFlight(SendHead(s, d, now), p, now, order[1..]);
      } else {
        TerminateKeepsInFlight(s, p, now);
      }
    }
  }

  lemma TerminateKeepsInFlight(s: Session, p: Params, now: int)
    requires InFlightOk(s, p)
    ensures InFlightOk(Terminate(s, p, now), p)
  {
    if !s.state.Terminating? {
      var t := s.(state := Terminating);
      assert InFlightOk(t, p);
      SendNewKeepsInFlight(t, p, p.terminationResponse, SESSION, p.terminationPayload, now);
    }
  }

  /** Every event keeps the invariant. */
  lemma StepKeepsInFlight(s: Session, p: Params, e: Event)
    requires InFlightOk(s, p)
    ensures InFlightOk(Step(s, p, e), p)
  {
    match e
    case Send(responseId, d, payload, now) => SendNewKeepsInFlight(s, p, responseId, d, payload, now);
    case Response(d, responseId, now) =>
      if Expected(s, d, responseId) {
        AcknowledgeKeepsInFlight(s, p, d, now);
      } else {
        TerminateKeepsInFlight(s, p, now);
      }
    case Timer(now, order) =>
      if Active(s, p, now) {
        RetransmitsKeepInFlight(s, p, now, order);
      } else {
        TerminateKeepsInFlight(s, p, now);
      }
    case Fail(now) => TerminateKeepsInFlight(s, p, now);
    case _ =>
  }

  /**
   In every reachable state no queue is empty, every entry sits under its own destination, only
   the head of a queue has been sent, and no more often than the configured tries (or once).
   */
  lemma {:induction false} OneInFlightPerDestination(p: Params, start: int, events: seq<Event>)
    ensures InFlightOk(Run(Initial(start), p, events), p)
  {
    if events != [] {
      OneInFlightPerDestination(p, start, events[..|events| - 1]);
      StepKeepsInFlight(Run(Initial(start), p, events[..|events| - 1]), p, events[|events| - 1]);
    }
  }
}
