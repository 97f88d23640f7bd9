/**
 Conservation over whole runs of the transaction model: nothing that was enqueued is lost,
 duplicated or reordered, on the queues and on the wire.
 */
module Conservation {
  import opened Serialize
  import opened DataItem
  import opened Transactions

  // ---- What the log says about one destination ----

  function EnqueuedOn(log: seq<Action>, d: Mac): seq<nat> {
    if log == [] then []
    else
      var a := log[|log| - 1];
      EnqueuedOn(log[..|log| - 1], d) + if a.Enqueued? && a.dest == d then [a.serial] else []
  }

  function AcknowledgedOn(log: seq<Action>, d: Mac): seq<nat> {
    if log == [] then []
    else
      var a := log[|log| - 1];
      AcknowledgedOn(log[..|log| - 1], d) + if a.Acknowledged? && a.dest == d then [a.serial] else []
  }

  function TransmittedOn(log: seq<Action>, d: Mac): seq<nat> {
    if log == [] then []
    else
      var a := log[|log| - 1];
      TransmittedOn(log[..|log| - 1], d) + if a.Transmitted? && a.dest == d then [a.serial] else []
  }

  function Serials(q: seq<Pending>): seq<nat> {
    if q == [] then [] else [q[0].serial] + Serials(q[1..])
  }

  function HeadSerial(q: seq<Pending>): seq<nat> {
    if q == [] then [] else [q[0].serial]
  }

  /** Drop immediate repetitions. */
  function Collapse(s: seq<nat>): seq<nat> {
    if |s| <= 1 then s
    else if s[|s| - 1] == s[|s| - 2] then Collapse(s[..|s| - 1])
    else Collapse(s[..|s| - 1]) + [s[|s| - 1]]
  }

  /** The serials of a list that occur among those transmitted. */
  function OnlySent(sent: seq<nat>, serials: seq<nat>): seq<nat> {
    if serials == [] then []
    else
      var last := serials[|serials| - 1];
      OnlySent(sent, serials[..|serials| - 1]) + if last in sent then [last] else []
  }

  lemma LogStep(log: seq<Action>, a: Action, d: Mac)
    ensures EnqueuedOn(log + [a], d) ==
            if a.Enqueued? && a.dest == d then EnqueuedOn(log, d) + [a.serial] else EnqueuedOn(log, d)
    ensures AcknowledgedOn(log + [a], d) ==
            if a.Acknowledged? && a.dest == d then AcknowledgedOn(log, d) + [a.serial] else AcknowledgedOn(log, d)
    ensures TransmittedOn(log + [a], d) ==
            if a.Transmitted? && a.dest == d then TransmittedOn(log, d) + [a.serial] else TransmittedOn(log, d)
  {
    assert (log + [a])[..|log|] == log;
  }

  lemma {:induction false} SerialsAppend(q: seq<Pending>, x: Pending)
    ensures Serials(q + [x]) == Serials(q) + [x.serial]
  {
    if q != [] {
      SerialsAppend(q[1..], x);
      assert (q + [x])[1..] == q[1..] + [x];
    }
  }

  lemma {:induction false} SerialsAt(q: seq<Pending>)
    ensures |Serials(q)| == |q| && forall i :: 0 <= i < |q| ==> Serials(q)[i] == q[i].serial
  {
    if q != [] {
      SerialsAt(q[1..]);
    }
  }

  lemma {:induction false} CollapseSame(s: seq<nat>)
    ensures s != [] ==> Collapse(s) != [] && Collapse(s)[|Collapse(s)| - 1] == s[|s| - 1]
  {
    if |s| > 1 {
      CollapseSame(s[..|s| - 1]);
    }
  }

  lemma CollapseStep(s: seq<nat>, x: nat)
    ensures Collapse(s + [x]) == if s != [] && s[|s| - 1] == x then Collapse(s) else Collapse(s) + [x]
  {
    assert (s + [x])[..|s|] == s;
  }

  lemma OnlySentStep(sent: seq<nat>, serials: seq<nat>, x: nat)
    ensures OnlySent(sent, serials + [x]) ==
            if x in sent then OnlySent(sent, serials) + [x] else OnlySent(sent, serials)
  {
    assert (serials + [x])[..|serials|] == serials;
  }

  lemma {:induction false} OnlySentIgnores(sent: seq<nat>, x: nat, serials: seq<nat>)
    requires x in sent || x !in serials
    ensures OnlySent(sent + [x], serials) == OnlySent(sent, serials)
  {
    if serials != [] {
      OnlySentIgnores(sent, x, serials[..|serials| - 1]);
    }
  }

  lemma {:induction false} OnlySentAll(sent: seq<nat>, serials: seq<nat>)
    requires forall x :: x in serials ==> x in sent
    ensures OnlySent(sent, serials) == serials
  {
    if serials != [] {
      OnlySentAll(sent, serials[..|serials| - 1]);
    }
  }

  ghost predicate Increasing(s: seq<nat>) {
    forall i, j :: 0 <= i < j < |s| ==> s[i] < s[j]
  }

  lemma IncreasingAppend(s: seq<nat>, x: nat)
    requires Increasing(s) && forall y :: y in s ==> y < x
    ensures Increasing(s + [x])
  {
    forall i, j | 0 <= i < j < |s + [x]|
      ensures (s + [x])[i] < (s + [x])[j]
    {
      assert j == |s| ==> s[i] in s;
    }
  }

  // ---- The invariant for one destination, on its serials alone ----

  /** Everything enqueued is acknowledged or still pending, in order, and never confused. */
  ghost predicate Conserved(enqueued: seq<nat>, acked: seq<nat>, q: seq<Pending>, nextSerial: nat) {
    && enqueued == acked + Serials(q)
    && Increasing(enqueued)
    && (forall x :: x in enqueued ==> x < nextSerial)
  }

  /** The wire shows the acknowledged messages and the head, in order, each sent a bounded number of times. */
  ghost predicate OnTheWire(sent: seq<nat>, acked: seq<nat>, q: seq<Pending>, maxTries: nat) {
    && Collapse(sent) == OnlySent(sent, acked + HeadSerial(q))
    && (forall x :: x in sent ==> x in acked || (q != [] && q[0].serial == x))
    && (forall x :: multiset(sent)[x] <= maxTries)
    && (q != [] ==> multiset(sent)[q[0].serial] == q[0].sendTries)
    && (q != [] && q[0].sendTries > 0 ==> sent != [] && sent[|sent| - 1] == q[0].serial)
  }

  /** A pending message is none of the acknowledged ones. */
  lemma PendingIsNew(enqueued: seq<nat>, acked: seq<nat>, q: seq<Pending>, nextSerial: nat, k: nat)
    requires Conserved(enqueued, acked, q, nextSerial) && k < |q|
    ensures q[k].serial !in acked
    ensures k > 0 ==> q[k].serial != q[0].serial
  {
    SerialsAt(q);
    var n := |acked|;
    assert enqueued[n + k] == q[k].serial && enqueued[n] == q[0].serial;
    forall i | 0 <= i < n
      ensures acked[i] != q[k].serial
    {
      assert enqueued[i] < enqueued[n + k];
    }
  }

  lemma TransmitOnTheWire(enqueued: seq<nat>, sent: seq<nat>, acked: seq<nat>, q: seq<Pending>, q': seq<Pending>,
                          nextSerial: nat, maxTries: nat)
    requires Conserved(enqueued, acked, q, nextSerial) && OnTheWire(sent, acked, q, maxTries)
    requires q != [] && q[0].sendTries < maxTries
    requires q' != [] && q'[1..] == q[1..] && q'[0].serial == q[0].serial && q'[0].sendTries == q[0].sendTries + 1
    ensures Conserved(enqueued, acked, q', nextSerial)
    ensures OnTheWire(sent + [q[0].serial], acked, q', maxTries)
  {
    assert Serials(q') == Serials(q);
    PendingIsNew(enqueued, acked, q, nextSerial, 0);
    SentOnceMore(sent, acked, q[0].serial, q[0].sendTries);
    assert multiset(sent + [q[0].serial]) == multiset(sent) + multiset{q[0].serial};
  }

  lemma SentOnceMore(sent: seq<nat>, acked: seq<nat>, h: nat, tries: nat)
    requires h !in acked && Collapse(sent) == OnlySent(sent, acked + [h])
    requires multiset(sent)[h] == tries
    requires tries > 0 ==> sent != [] && sent[|sent| - 1] == h
    ensures Collapse(sent + [h]) == OnlySent(sent + [h], acked + [h])
  {
    CollapseStep(sent, h);
    OnlySentStep(sent, acked, h);
    OnlySentStep(sent + [h], acked, h);
    OnlySentIgnores(sent, h, acked);
    assert tries == 0 ==> h !in sent;
  }

  lemma EnqueueConserves(enqueued: seq<nat>, acked: seq<nat>, q: seq<Pending>, x: Pending, nextSerial: nat)
    requires Conserved(enqueued, acked, q, nextSerial) && x.serial == nextSerial
    ensures Conserved(enqueued + [x.serial], acked, q + [x], nextSerial + 1)
  {
    hide Increasing, Serials;
    SerialsAppend(q, x);
    IncreasingAppend(enqueued, x.serial);
    assert acked + (Serials(q) + [x.serial]) == acked + Serials(q) + [x.serial];
  }

  lemma EnqueueOffTheWire(enqueued: seq<nat>, sent: seq<nat>, acked: seq<nat>, q: seq<Pending>, x: Pending,
                          nextSerial: nat, maxTries: nat)
    requires Conserved(enqueued, acked, q, nextSerial) && OnTheWire(sent, acked, q, maxTries)
    requires x.serial == nextSerial && x.sendTries == 0
    ensures OnTheWire(sent, acked, q + [x], maxTries)
  {
    hide Increasing, Collapse;
    if q == [] {
      assert acked + [] == acked && enqueued == acked;
      assert x.serial !in sent;
      OnlySentStep(sent, acked, x.serial);
    }
  }

  lemma PopConserves(enqueued: seq<nat>, sent: seq<nat>, acked: seq<nat>, q: seq<Pending>,
                     nextSerial: nat, maxTries: nat)
    requires Conserved(enqueued, acked, q, nextSerial) && OnTheWire(sent, acked, q, maxTries)
    requires q != [] && (|q| > 1 ==> q[1].sendTries == 0)
    ensures Conserved(enqueued, acked + [q[0].serial], q[1..], nextSerial)
    ensures OnTheWire(sent, acked + [q[0].serial], q[1..], maxTries)
  {
    hide Increasing, Collapse, OnlySent;
    var h, rest := q[0].serial, q[1..];
    assert acked + ([h] + Serials(rest)) == acked + [h] + Serials(rest);
    if rest != [] {
      PendingIsNew(enqueued, acked, q, nextSerial, 1);
      hide Serials;
      assert rest[0].serial !in sent;
      OnlySentStep(sent, acked + [h], rest[0].serial);
    } else {
      assert acked + [h] + [] == acked + [h];
    }
  }

  // ---- The invariant over the session ----

  ghost predicate History(s: Session, p: Params, d: Mac) {
    && Conserved(EnqueuedOn(s.log, d), AcknowledgedOn(s.log, d), Queue(s, d), s.nextSerial)
    && OnTheWire(TransmittedOn(s.log, d), AcknowledgedOn(s.log, d), Queue(s, d), MaxTries(p))
  }

  /** A destination that was never shunned has no head waiting to be sent for the first time. */
  ghost predicate Prompt(s: Session, d: Mac) {
    Shunned(d) !in s.log ==>
      && d !in s.notInterested
      && (forall x :: x in AcknowledgedOn(s.log, d) + HeadSerial(Queue(s, d)) ==> x in TransmittedOn(s.log, d))
  }

  lemma TransmitKeepsHistory(s: Session, p: Params, d: Mac, now: int, e: Mac)
    requires d in s.queues && s.queues[d] != [] && s.queues[d][0].sendTries < MaxTries(p)
    requires History(s, p, e)
    ensures History(Transmit(s, d, now), p, e)
    ensures d != e && Prompt(s, e) ==> Prompt(Transmit(s, d, now), e)
    ensures Shunned(e) in Transmit(s, d, now).log <==> Shunned(e) in s.log
  {
    hide EnqueuedOn, AcknowledgedOn, TransmittedOn, Conserved, OnTheWire;
    var head := s.queues[d][0];
    var s' := Transmit(s, d, now);
    LogStep(s.log, Transmitted(d, head.serial, head.responseId, head.payload), e);
    if d == e {
      TransmitOnTheWire(EnqueuedOn(s.log, d), TransmittedOn(s.log, d), AcknowledgedOn(s.log, d),
                        s.queues[d], s'.queues[d], s.nextSerial, MaxTries(p));
    }
  }

  lemma EnqueueKeepsHistory(s: Session, p: Params, x: Pending, e: Mac)
    requires History(s, p, e) && x.serial == s.nextSerial && x.sendTries == 0
    ensures History(Enqueue(s, x), p, e)
    ensures TransmittedOn(Enqueue(s, x).log, e) == TransmittedOn(s.log, e)
    ensures AcknowledgedOn(Enqueue(s, x).log, e) == AcknowledgedOn(s.log, e)
    ensures Shunned(e) in Enqueue(s, x).log <==> Shunned(e) in s.log
  {
    hide EnqueuedOn, AcknowledgedOn, TransmittedOn, OnTheWire;
    LogStep(s.log, Enqueued(x.dest, x.serial), e);
    if x.dest == e {
      EnqueueConserves(EnqueuedOn(s.log, e), AcknowledgedOn(s.log, e), Queue(s, e), x, s.nextSerial);
      EnqueueOffTheWire(EnqueuedOn(s.log, e), TransmittedOn(s.log, e), AcknowledgedOn(s.log, e),
                        Queue(s, e), x, s.nextSerial, MaxTries(p));
    }
  }

  lemma PopKeepsHistory(s: Session, p: Params, d: Mac, e: Mac)
    requires InFlightOk(s, p) && d in s.queues && s.queues[d] != [] && History(s, p, e)
    ensures History(Pop(s, d), p, e)
    ensures TransmittedOn(Pop(s, d).log, e) == TransmittedOn(s.log, e)
    ensures AcknowledgedOn(Pop(s, d).log, e) ==
            if d == e then AcknowledgedOn(s.log, e) + [s.queues[d][0].serial] else AcknowledgedOn(s.log, e)
    ensures Shunned(e) in Pop(s, d).log <==> Shunned(e) in s.log
  {
    hide EnqueuedOn, AcknowledgedOn, TransmittedOn, Conserved, OnTheWire;
    LogStep(s.log, Acknowledged(d, s.queues[d][0].serial), e);
    assert QueueOk(s.queues[d], d, s.nextSerial, MaxTries(p));
    if d == e {
      PopConserves(EnqueuedOn(s.log, e), TransmittedOn(s.log, e), AcknowledgedOn(s.log, e),
                   s.queues[d], s.nextSerial, MaxTries(p));
    }
  }

  lemma SendHeadKeepsHistory(s: Session, p: Params, d: Mac, now: int, e: Mac)
    requires d in s.queues && s.queues[d] != [] && s.queues[d][0].sendTries < MaxTries(p)
    requires History(s, p, e)
    ensures History(SendHead(s, d, now), p, e)
    ensures d != e && Prompt(s, e) ==> Prompt(SendHead(s, d, now), e)
    ensures Shunned(e) in SendHead(s, d, now).log <==> Shunned(e) in s.log
  {
    hide History, Transmit;
    if d !in s.notInterested {
      TransmitKeepsHistory(s, p, d, now, e);
    }
  }

  /** Sending the head makes a destination prompt if only the head was missing from the wire. */
  lemma SendHeadIsPrompt(s: Session, d: Mac, now: int)
    requires d in s.queues && s.queues[d] != []
    requires Shunned(d) !in s.log ==>
               && d !in s.notInterested
               && (forall x :: x in AcknowledgedOn(s.log, d) ==> x in TransmittedOn(s.log, d))
    ensures Prompt(SendHead(s, d, now), d)
  {
    hide EnqueuedOn, AcknowledgedOn, TransmittedOn;
    var head := s.queues[d][0];
    LogStep(s.log, Transmitted(d, head.serial, head.responseId, head.payload), d);
  }

  lemma SendNewKeeps(s: Session, p: Params, responseId: u32, d: Mac, payload: seq<byte>, now: int, e: Mac)
    requires History(s, p, e) && Prompt(s, e)
    ensures History(SendNew(s, responseId, d, payload, now), p, e)
    ensures Prompt(SendNew(s, responseId, d, payload, now), e)
  {
    hide History, EnqueuedOn, AcknowledgedOn, TransmittedOn, Transmit;
    if d !in s.notInterested {
      var x := Pending(s.nextSerial, responseId, d, payload, 0, 0);
      EnqueueKeepsHistory(s, p, x, e);
      if Queue(s, d) == [] {
        SendHeadKeepsHistory(Enqueue(s, x), p, d, now, e);
        if d == e {
          SendHeadIsPrompt(Enqueue(s, x), d, now);
        }
      }
    }
  }

  lemma TerminateKeeps(s: Session, p: Params, now: int, e: Mac)
    requires History(s, p, e) && Prompt(s, e)
    ensures History(Terminate(s, p, now), p, e) && Prompt(Terminate(s, p, now), e)
  {
    hide EnqueuedOn, AcknowledgedOn, TransmittedOn, Conserved, OnTheWire, SendNew;
    if !s.state.Terminating? {
      var t := s.(state := Terminating);
      assert History(t, p, e) && Prompt(t, e);
      SendNewKeeps(t, p, p.terminationResponse, SESSION, p.terminationPayload, now, e);
    }
  }

  lemma AcknowledgeKeeps(s: Session, p: Params, d: Mac, now: int, e: Mac)
    requires InFlightOk(s, p) && History(s, p, e) && Prompt(s, e) && d in s.queues && s.queues[d] != []
    ensures History(Acknowledge(s, d, now), p, e) && Prompt(Acknowledge(s, d, now), e)
  {
    hide History, EnqueuedOn, AcknowledgedOn, TransmittedOn, Transmit;
    var rest := s.queues[d][1..];
    PopKeepsHistory(s, p, d, e);
    assert QueueOk(s.queues[d], d, s.nextSerial, MaxTries(p));
    if rest != [] {
      assert rest[0].sendTries == 0;
      SendHeadKeepsHistory(Pop(s, d), p, d, now, e);
      if d == e {
        SendHeadIsPrompt(Pop(s, d), d, now);
      }
    }
  }

  lemma SendHeadKeepsInFlight(s: Session, p: Params, d: Mac, now: int)
    requires InFlightOk(s, p) && d in s.queues && s.queues[d] != [] && s.queues[d][0].sendTries < MaxTries(p)
    ensures InFlightOk(SendHead(s, d, now), p)
  {
    if d !in s.notInterested {
      TransmitKeepsInFlight(s, p, d, now);
    }
  }

  lemma {:induction false} RetransmitsKeep(s: Session, p: Params, now: int, order: seq<Mac>, e: Mac)
    requires InFlightOk(s, p) && History(s, p, e) && Prompt(s, e)
    ensures History(CheckForRetransmits(s, p, now, order), p, e)
    ensures Prompt(CheckForRetransmits(s, p, now, order), e)
    decreases |order|
  {
    hide History, SendHead, Terminate;
    if order != [] {
      var d := order[0];
      if !Late(s, p, d, now) {
        RetransmitsKeep(s, p, now, order[1..], e);
      } else if s.queues[d][0].sendTries < p.sendTries {
        SendHeadKeepsHistory(s, p, d, now, e);
        if d == e {
          SendHeadIsPrompt(s, d, now);
        }
        SendHeadKeepsInFlight(s, p, d, now);
        RetransmitsKeep(SendHead(s, d, now), p, now, order[1..], e);
      } else {
        TerminateKeeps(s, p, now, e);
      }
    }
  }

  lemma StepKeeps(s: Session, p: Params, ev: Event, e: Mac)
    requires InFlightOk(s, p) && History(s, p, e) && Prompt(s, e)
    ensures History(Step(s, p, ev), p, e) && Prompt(Step(s, p, ev), e)
  {
    hide EnqueuedOn, AcknowledgedOn, TransmittedOn, Conserved, OnTheWire;
    hide SendNew, Terminate, Acknowledge, CheckForRetransmits;
    match ev
    case Send(responseId, d, payload, now) => SendNewKeeps(s, p, responseId, d, payload, now, e);
    case Response(d, responseId, now) =>
      if Expected(s, d, responseId) {
        AcknowledgeKeeps(s, p, d, now, e);
      } else {
        TerminateKeeps(s, p, now, e);
      }
    case Timer(now, order) =>
      if Active(s, p, now) {
        RetransmitsKeep(s, p, now, order, e);
      } else {
        TerminateKeeps(s, p, now, e);
      }
    case Fail(now) => TerminateKeeps(s, p, now, e);
    case Shun(d) => LogStep(s.log, Shunned(d), e);
    case _ =>
  }

  lemma {:induction false} RunKeeps(p: Params, start: int, events: seq<Event>, d: Mac)
    ensures History(Run(Initial(start), p, events), p, d)
    ensures Prompt(Run(Initial(start), p, events), d)
  {
    if events != [] {
      var front := events[..|events| - 1];
      RunKeeps(p, start, front, d);
      OneInFlightPerDestination(p, start, front);
      StepKeeps(Run(Initial(start), p, front), p, events[|events| - 1], d);
    }
  }

  /**
   Over any run and for every destination: the messages enqueued are the ones acknowledged
   followed by the pending queue, in order; and on the wire, with retransmissions collapsed, are
   those of the acknowledged ones and the head that were ever sent, in the same order, none of
   them more often than the configured tries (or once).
   */
  lemma NothingIsLostOrReordered(p: Params, start: int, events: seq<Event>, d: Mac)
    ensures var s := Run(Initial(start), p, events);
            var sent, acked := TransmittedOn(s.log, d), AcknowledgedOn(s.log, d);
            && EnqueuedOn(s.log, d) == acked + Serials(Queue(s, d))
            && Collapse(sent) == OnlySent(sent, acked + HeadSerial(Queue(s, d)))
            && (forall x :: multiset(sent)[x] <= MaxTries(p))
  {
    RunKeeps(p, start, events, d);
  }

  /** If the peer never lost interest in a destination, all of those were sent. */
  lemma WireMatchesAcknowledgements(p: Params, start: int, events: seq<Event>, d: Mac)
    requires Shunned(d) !in Run(Initial(start), p, events).log
    ensures var s := Run(Initial(start), p, events);
            Collapse(TransmittedOn(s.log, d)) == AcknowledgedOn(s.log, d) + HeadSerial(Queue(s, d))
  {
    var s := Run(Initial(start), p, events);
    RunKeeps(p, start, events, d);
    OnlySentAll(TransmittedOn(s.log, d), AcknowledgedOn(s.log, d) + HeadSerial(Queue(s, d)));
  }
}
