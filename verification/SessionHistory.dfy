/**
 What a run of a session comes to, in terms of its events (Peer.cpp): which events end it, what
 the timer does, whom the peer is not interested in, and that what the callers asked to be sent is
 what the queues and the wire carry.
 */
module SessionHistory {
  import opened Serialize
  import opened DataItem
  import opened Transactions
  import opened Conservation
  import opened FailureDetection
  import opened History

  // ---- What ends a session

  /** The peer was not heard for its threshold of intervals, as 32-bit arithmetic has it. */
  predicate Inactive(s: Session, p: Params, now: int) {
    0 < s.intervalSec && (s.lastReceive + s.intervalSec * p.heartbeatThreshold) % 0x1_0000_0000 <= now
  }

  /** The message at the head of a queue is late. */
  predicate Overdue(s: Session, p: Params, d: Mac, now: int) {
    d in s.queues && s.queues[d] != [] && s.queues[d][0].sendTime + p.ackTimeout < now
  }

  /** Some queue that is looked at has a late head that was sent as often as it may be. */
  predicate OutOfTries(s: Session, p: Params, now: int, order: seq<Mac>) {
    exists d :: d in order && Overdue(s, p, d, now) && s.queues[d][0].sendTries >= p.sendTries
  }

  /** A queue with its head sent once more. */
  function SentAgain(q: seq<Pending>, now: int): seq<Pending>
    requires q != []
  {
    [q[0].(sendTime := now, sendTries := q[0].sendTries + 1)] + q[1..]
  }

  predicate Ends(s: Session, p: Params, e: Event) {
    match e
    case Fail(_) => true
    case Stop => true
    case Response(d, responseId, _) => !(d in s.queues && s.queues[d] != [] && s.queues[d][0].responseId == responseId)
    case Timer(now, order) => Inactive(s, p, now) || OutOfTries(s, p, now, order)
    case _ => false
  }

  lemma ActiveIsNotInactive(s: Session, p: Params, now: int)
    ensures Active(s, p, now) <==> !Inactive(s, p, now)
  {
    var product := s.intervalSec * p.heartbeatThreshold;
    WrapsOnce(s.lastReceive, product);
  }

  lemma WrapsOnce(a: int, b: nat)
    ensures (a + b % 0x1_0000_0000) % 0x1_0000_0000 == (a + b) % 0x1_0000_0000
  {
    var q, r := b / 0x1_0000_0000, b % 0x1_0000_0000;
    var t, m := (a + r) / 0x1_0000_0000, (a + r) % 0x1_0000_0000;
    assert a + b == (t + q) * 0x1_0000_0000 + m;
  }

  /** Sending one late head again changes nothing about the other queues, and that one is not given up. */
  lemma SentAgainIsNotGivenUp(s: Session, p: Params, now: int, d: Mac, rest: seq<Mac>)
    requires Overdue(s, p, d, now) && s.queues[d][0].sendTries < p.sendTries
    ensures var s' := SendHead(s, d, now);
            && (OutOfTries(s', p, now, rest) <==> OutOfTries(s, p, now, [d] + rest))
            && s'.queues.Keys == s.queues.Keys && s'.notInterested == s.notInterested
            && (forall e :: e != d ==>
                  Queue(s', e) == Queue(s, e) && (Overdue(s', p, e, now) <==> Overdue(s, p, e, now)))
            && Queue(s', d) == (if d in s.notInterested then Queue(s, d) else SentAgain(s.queues[d], now))
            && (d !in s.notInterested ==> !Overdue(s', p, d, now))
  {
    var s' := SendHead(s, d, now);
    assert forall e :: e != d && e in s.queues ==> s'.queues[e] == s.queues[e];
    assert forall e :: e in [d] + rest <==> e == d || e in rest;
  }

  lemma NotGivenUpEither(s: Session, p: Params, now: int, d: Mac, rest: seq<Mac>)
    ensures OutOfTries(s, p, now, [d] + rest) <==>
            OutOfTries(s, p, now, rest) || (Overdue(s, p, d, now) && s.queues[d][0].sendTries >= p.sendTries)
  {
    assert forall e :: e in [d] + rest <==> e == d || e in rest;
  }

  /** Which of the queues it looks at the timer gives up on, whatever it sends again on the way. */
  lemma {:induction false} GivesUpExactly(s: Session, p: Params, now: int, order: seq<Mac>)
    requires !s.state.Terminating?
    ensures CheckForRetransmits(s, p, now, order).state.Terminating? <==> OutOfTries(s, p, now, order)
    ensures !OutOfTries(s, p, now, order) ==> CheckForRetransmits(s, p, now, order).state == s.state
    decreases |order|
  {
    hide OutOfTries;
    if order == [] {
      NothingToGiveUp(s, p, now);
    } else {
      var d, rest := order[0], order[1..];
      assert order == [d] + rest;
      NotGivenUpEither(s, p, now, d, rest);
      if !Overdue(s, p, d, now) {
        GivesUpExactly(s, p, now, rest);
      } else if s.queues[d][0].sendTries < p.sendTries {
        SentAgainIsNotGivenUp(s, p, now, d, rest);
        GivesUpExactly(SendHead(s, d, now), p, now, rest);
      }
    }
  }

  lemma NothingToGiveUp(s: Session, p: Params, now: int)
    ensures !OutOfTries(s, p, now, [])
  {
  }

  /**
   Which events end a session that is not over: a failure, an end from outside, a response that
   is not the one awaited, and a timer that finds the peer inactive or a message out of tries.
   Nothing else changes the state but an initialization message.
   */
  lemma EndsExactly(s: Session, p: Params, e: Event)
    requires !s.state.Terminating?
    ensures Step(s, p, e).state.Terminating? <==> Ends(s, p, e)
    ensures !Ends(s, p, e) ==> Step(s, p, e).state == if e.Establish? then InSession else s.state
  {
    if e.Timer? {
      ActiveIsNotInactive(s, p, e.now);
      GivesUpExactly(s, p, e.now, e.order);
    }
  }

  ghost function EndsAt(s: Session, p: Params): (seq<Event>, Event) -> bool {
    (front, e) => Ends(Run(s, p, front), p, e)
  }

  ghost function Establishes(): (seq<Event>, Event) -> bool {
    (front, e) => e == Establish
  }

  /** Over a run the session is over exactly if some event ended it and no initialization came after. */
  lemma {:induction false} TerminatedExactly(s: Session, p: Params, events: seq<Event>)
    requires !s.state.Terminating?
    ensures Run(s, p, events).state.Terminating? <==> Stands(events, EndsAt(s, p), Establishes())
  {
    hide Stands, Step, Ends;
    if events == [] {
      NothingStands(EndsAt(s, p), Establishes());
    } else {
      var front, last := events[..|events| - 1], events[|events| - 1];
      assert events == front + [last];
      TerminatedExactly(s, p, front);
      StandsStep(front, last, EndsAt(s, p), Establishes());
      var t := Run(s, p, front);
      if t.state.Terminating? {
        TerminatingStep(t, p, last);
        EstablishingEndsNothing(t, p, last);
      } else {
        EndsExactly(t, p, last);
      }
    }
  }

  lemma EstablishingEndsNothing(s: Session, p: Params, e: Event)
    ensures e == Establish ==> !Ends(s, p, e)
  {
  }

  // ---- What the timer does otherwise

  /**
   A timer that ends nothing sends the head of every queue it looks at that is late and still of
   interest again, once, and leaves every other queue alone.
   */
  lemma {:induction false} TimerSendsAgainExactly(s: Session, p: Params, now: int, order: seq<Mac>, d: Mac)
    requires !OutOfTries(s, p, now, order)
    ensures Queue(CheckForRetransmits(s, p, now, order), d) ==
            if d in order && Overdue(s, p, d, now) && d !in s.notInterested then SentAgain(s.queues[d], now)
            else Queue(s, d)
    decreases |order|
  {
    if order != [] {
      hide SendHead, OutOfTries, Queue, SentAgain;
      var e, rest := order[0], order[1..];
      assert order == [e] + rest;
      NotGivenUpEither(s, p, now, e, rest);
      if Overdue(s, p, e, now) {
        SentAgainIsNotGivenUp(s, p, now, e, rest);
        TimerSendsAgainExactly(SendHead(s, e, now), p, now, rest, d);
      } else {
        TimerSendsAgainExactly(s, p, now, rest, d);
      }
    }
  }

  /**
   The whole of a timer event in a live session: an inactive peer is sent nothing but the
   termination message, whatever is queued; an active one gets what is late.
   */
  lemma TimerExactly(s: Session, p: Params, now: int, order: seq<Mac>, d: Mac)
    requires !s.state.Terminating?
    ensures var s' := Step(s, p, Timer(now, order));
            && (Inactive(s, p, now) ==> s'.state.Terminating? && (d != SESSION ==> Queue(s', d) == Queue(s, d)))
            && (!Inactive(s, p, now) && !OutOfTries(s, p, now, order) ==>
                  && s'.state == s.state
                  && Queue(s', d) == (if d in order && Overdue(s, p, d, now) && d !in s.notInterested
                                      then SentAgain(s.queues[d], now) else Queue(s, d)))
  {
    ActiveIsNotInactive(s, p, now);
    if !Inactive(s, p, now) && !OutOfTries(s, p, now, order) {
      GivesUpExactly(s, p, now, order);
      TimerSendsAgainExactly(s, p, now, order, d);
    }
  }

  // ---- Whom the peer is not interested in

  ghost function Shuns(d: Mac): (seq<Event>, Event) -> bool {
    (front, e) => e == Shun(d)
  }

  ghost function Regains(d: Mac): (seq<Event>, Event) -> bool {
    (front, e) => e == Regain(d)
  }

  lemma StepKeepsInterest(s: Session, p: Params, e: Event, d: Mac)
    ensures d in Step(s, p, e).notInterested <==> e == Shun(d) || (d in s.notInterested && e != Regain(d))
  {
    if e.Timer? {
      RetransmitsKeepInterest(s, p, e.now, e.order);
    }
  }

  lemma {:induction false} RetransmitsKeepInterest(s: Session, p: Params, now: int, order: seq<Mac>)
    ensures CheckForRetransmits(s, p, now, order).notInterested == s.notInterested
    decreases |order|
  {
    if order != [] {
      if !Late(s, p, order[0], now) {
        RetransmitsKeepInterest(s, p, now, order[1..]);
      } else if s.queues[order[0]][0].sendTries < p.sendTries {
        RetransmitsKeepInterest(SendHead(s, order[0], now), p, now, order[1..]);
      }
    }
  }

  /** A destination is of no interest exactly if the peer said so and has not taken it back. */
  lemma {:induction false} NotInterestedExactly(p: Params, start: int, events: seq<Event>, d: Mac)
    ensures d in Run(Initial(start), p, events).notInterested <==> Stands(events, Shuns(d), Regains(d))
  {
    hide Stands, Step;
    if events == [] {
      NothingStands(Shuns(d), Regains(d));
    } else {
      var front, last := events[..|events| - 1], events[|events| - 1];
      assert events == front + [last];
      NotInterestedExactly(p, start, front, d);
      StandsStep(front, last, Shuns(d), Regains(d));
      StepKeepsInterest(Run(Initial(start), p, front), p, last, d);
    }
  }

  // ---- What was asked for is what is carried

  datatype Request = Request(dest: Mac, responseId: u32, payload: seq<byte>)

  /** What an event asks to be sent: a caller's message, or the termination of a session that it ends. */
  function Asked(s: Session, p: Params, e: Event): seq<Request> {
    if e.Send? then
      (if e.dest in s.notInterested then [] else [Request(e.dest, e.responseId, e.payload)])
    else if !s.state.Terminating? && !e.Stop? && Ends(s, p, e) && SESSION !in s.notInterested then
      [Request(SESSION, p.terminationResponse, p.terminationPayload)]
    else []
  }

  /** Everything asked for over a run, in order. */
  function AllAsked(s: Session, p: Params, events: seq<Event>): seq<Request> {
    if events == [] then []
    else
      var front := events[..|events| - 1];
      AllAsked(s, p, front) + Asked(Run(s, p, front), p, events[|events| - 1])
  }

  /** The places of the requests for one destination. */
  function PlacesOf(asked: seq<Request>, d: Mac): seq<nat> {
    if asked == [] then []
    else
      var n := |asked| - 1;
      PlacesOf(asked[..n], d) + if asked[n].dest == d then [n] else []
  }

  predicate IsAsked(asked: seq<Request>, x: Pending) {
    x.serial < |asked| && asked[x.serial] == Request(x.dest, x.responseId, x.payload)
  }

  predicate WasAsked(asked: seq<Request>, a: Action) {
    a.Transmitted? ==> a.serial < |asked| && asked[a.serial] == Request(a.dest, a.responseId, a.payload)
  }

  /** Queues and log hold the requests, and the log enqueues those of one destination in order. */
  ghost predicate Carries(s: Session, asked: seq<Request>, d: Mac) {
    && |asked| == s.nextSerial
    && (forall e, i :: e in s.queues && 0 <= i < |s.queues[e]| ==>
          s.queues[e][i].dest == e && IsAsked(asked, s.queues[e][i]))
    && (forall a :: a in s.log ==> WasAsked(asked, a))
    && EnqueuedOn(s.log, d) == PlacesOf(asked, d)
  }

  lemma TransmitCarries(s: Session, d: Mac, now: int, asked: seq<Request>, e: Mac)
    requires Carries(s, asked, e) && d in s.queues && s.queues[d] != []
    ensures Carries(Transmit(s, d, now), asked, e)
  {
    hide EnqueuedOn;
    var head := s.queues[d][0];
    assert IsAsked(asked, head);
    LogStep(s.log, Transmitted(d, head.serial, head.responseId, head.payload), e);
  }

  lemma SendHeadCarries(s: Session, d: Mac, now: int, asked: seq<Request>, e: Mac)
    requires Carries(s, asked, e) && d in s.queues && s.queues[d] != []
    ensures Carries(SendHead(s, d, now), asked, e)
  {
    if d !in s.notInterested {
      TransmitCarries(s, d, now, asked, e);
    }
  }

  lemma EnqueueCarries(s: Session, x: Pending, asked: seq<Request>, e: Mac)
    requires Carries(s, asked, e) && x.serial == s.nextSerial
    ensures Carries(Enqueue(s, x), asked + [Request(x.dest, x.responseId, x.payload)], e)
  {
    hide EnqueuedOn, PlacesOf;
    var r := Request(x.dest, x.responseId, x.payload);
    LogStep(s.log, Enqueued(x.dest, x.serial), e);
    PlacesStep(asked, r, e);
    var more := asked + [r];
    assert more[x.serial] == r && forall n :: 0 <= n < |asked| ==> more[n] == asked[n];
  }

  lemma SendNewCarries(s: Session, responseId: u32, d: Mac, payload: seq<byte>, now: int, asked: seq<Request>, e: Mac)
    requires Carries(s, asked, e)
    ensures Carries(SendNew(s, responseId, d, payload, now),
                    asked + if d in s.notInterested then [] else [Request(d, responseId, payload)], e)
  {
    hide Carries, Transmit;
    if d in s.notInterested {
      assert asked + [] == asked;
    } else {
      var x := Pending(s.nextSerial, responseId, d, payload, 0, 0);
      EnqueueCarries(s, x, asked, e);
      if Queue(s, d) == [] {
        TransmitCarries(Enqueue(s, x), d, now, asked + [Request(d, responseId, payload)], e);
      }
    }
  }

  lemma PlacesStep(asked: seq<Request>, r: Request, d: Mac)
    ensures PlacesOf(asked + [r], d) == PlacesOf(asked, d) + if r.dest == d then [|asked|] else []
  {
    assert (asked + [r])[..|asked|] == asked;
  }

  lemma PopCarries(s: Session, d: Mac, asked: seq<Request>, e: Mac)
    requires Carries(s, asked, e) && d in s.queues && s.queues[d] != []
    ensures Carries(Pop(s, d), asked, e)
  {
    hide EnqueuedOn;
    LogStep(s.log, Acknowledged(d, s.queues[d][0].serial), e);
  }

  lemma {:induction false} RetransmitsCarry(s: Session, p: Params, now: int, order: seq<Mac>, asked: seq<Request>,
                                            e: Mac)
    requires Carries(s, asked, e)
    ensures Carries(CheckForRetransmits(s, p, now, order),
                    asked + if s.state.Terminating? || !OutOfTries(s, p, now, order) || SESSION in s.notInterested
                            then [] else [Request(SESSION, p.terminationResponse, p.terminationPayload)], e)
    decreases |order|
  {
    hide Carries, OutOfTries;
    assert asked + [] == asked;
    if order == [] {
      NothingToGiveUp(s, p, now);
    } else {
      var d, rest := order[0], order[1..];
      assert order == [d] + rest;
      NotGivenUpEither(s, p, now, d, rest);
      if !Overdue(s, p, d, now) {
        RetransmitsCarry(s, p, now, rest, asked, e);
      } else if s.queues[d][0].sendTries < p.sendTries {
        SendHeadCarries(s, d, now, asked, e);
        SentAgainIsNotGivenUp(s, p, now, d, rest);
        RetransmitsCarry(SendHead(s, d, now), p, now, rest, asked, e);
      } else {
        TerminateCarries(s, p, now, asked, e);
      }
    }
  }

  lemma TerminateCarries(s: Session, p: Params, now: int, asked: seq<Request>, e: Mac)
    requires Carries(s, asked, e)
    ensures Carries(Terminate(s, p, now),
                    asked + if s.state.Terminating? || SESSION in s.notInterested then []
                            else [Request(SESSION, p.terminationResponse, p.terminationPayload)], e)
  {
    if s.state.Terminating? {
      assert asked + [] == asked;
    } else {
      SendNewCarries(s.(state := Terminating), p.terminationResponse, SESSION, p.terminationPayload, now, asked, e);
    }
  }

  /** Every event adds to queues and log exactly what it asks for. */
  lemma StepCarries(s: Session, p: Params, ev: Event, asked: seq<Request>, e: Mac)
    requires Carries(s, asked, e)
    ensures Carries(Step(s, p, ev), asked + Asked(s, p, ev), e)
  {
    hide EnqueuedOn, PlacesOf, SendNew, Terminate, CheckForRetransmits;
    assert asked + [] == asked;
    match ev
    case Send(responseId, d, payload, now) => SendNewCarries(s, responseId, d, payload, now, asked, e);
    case Response(d, responseId, now) =>
      if Expected(s, d, responseId) {
        PopCarries(s, d, asked, e);
        if d in Pop(s, d).queues {
          SendHeadCarries(Pop(s, d), d, now, asked, e);
        }
      } else {
        TerminateCarries(s, p, now, asked, e);
      }
    case Timer(now, order) =>
      ActiveIsNotInactive(s, p, now);
      if Active(s, p, now) {
        RetransmitsCarry(s, p, now, order, asked, e);
      } else {
        TerminateCarries(s, p, now, asked, e);
      }
    case Fail(now) => TerminateCarries(s, p, now, asked, e);
    case Shun(d) => LogStep(s.log, Shunned(d), e);
    case _ =>
  }

  lemma {:induction false} RunCarries(p: Params, start: int, events: seq<Event>, d: Mac)
    ensures Carries(Run(Initial(start), p, events), AllAsked(Initial(start), p, events), d)
  {
    if events != [] {
      hide Carries, Step, Asked;
      var front := events[..|events| - 1];
      RunCarries(p, start, front, d);
      StepCarries(Run(Initial(start), p, front), p, events[|events| - 1], AllAsked(Initial(start), p, front), d);
    }
  }

  /**
   Over any run: for every destination, what was acknowledged and then what is pending are exactly
   the requests made of it, in that order; every pending entry and every transmission has the
   response and the bytes of its request.
   */
  lemma RequestsAreCarried(p: Params, start: int, events: seq<Event>, d: Mac)
    ensures var s, asked := Run(Initial(start), p, events), AllAsked(Initial(start), p, events);
            && AcknowledgedOn(s.log, d) + Serials(Queue(s, d)) == PlacesOf(asked, d)
            && (forall i :: 0 <= i < |Queue(s, d)| ==> IsAsked(asked, Queue(s, d)[i]))
            && (forall a :: a in s.log ==> WasAsked(asked, a))
  {
    hide Run, Serials, EnqueuedOn, AcknowledgedOn, PlacesOf, AllAsked;
    RunCarries(p, start, events, d);
    NothingIsLostOrReordered(p, start, events, d);
  }
}
