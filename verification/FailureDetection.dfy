/**
 What the one-second timer guarantees (Peer.cpp, `check_for_retransmits` and `terminate`): an
 unanswered message ends the session within a bound, exactly at that bound when nothing else
 interferes, and what happens to the termination message itself.
 */
module FailureDetection {
  import opened Serialize
  import opened DataItem
  import opened Transactions

  /** Events that can happen while the peer says nothing. */
  predicate Silent(e: Event) {
    e.Send? || e.Timer? || e.Fail? || e.Stop?
  }

  /** Time of the last timer event, when the timer fires every second after `start`. */
  function Clock(start: int, events: seq<Event>): int {
    if events == [] then start
    else Clock(start, events[..|events| - 1]) + if events[|events| - 1].Timer? then 1 else 0
  }

  /** The peer is silent, the timer fires every second, and it looks at every queue. */
  ghost predicate SilentRun(s: Session, p: Params, start: int, events: seq<Event>) {
    events == [] ||
    var front, e := events[..|events| - 1], events[|events| - 1];
    && SilentRun(s, p, start, front)
    && Silent(e)
    && (e.Timer? ==> e.now == Clock(start, front) + 1 && forall d :: d in Run(s, p, front).queues ==> d in e.order)
  }

  /** By when a message first sent at `start` has used up all its tries. */
  function GivesUpBy(p: Params, start: int): int {
    start + MaxTries(p) * (p.ackTimeout + 1)
  }

  /** The session is over, or the head of d's queue is on its k-th try, due at a known time. */
  ghost predicate Waiting(s: Session, p: Params, d: Mac, start: int, now: int) {
    s.state.Terminating? ||
    (&& d in s.queues && s.queues[d] != [] && d !in s.notInterested
     && var head := s.queues[d][0];
        && 1 <= head.sendTries <= MaxTries(p)
        && head.sendTime == start + (head.sendTries - 1) * (p.ackTimeout + 1)
        && now <= head.sendTime + p.ackTimeout)
  }

  lemma SendKeepsWaiting(s: Session, p: Params, d: Mac, start: int, clock: int,
                         responseId: u32, e: Mac, payload: seq<byte>, now: int)
    requires Waiting(s, p, d, start, clock)
    ensures Waiting(SendNew(s, responseId, e, payload, now), p, d, start, clock)
  {
  }

  /** Processing the queues in any order that includes d keeps d waiting, one second later. */
  lemma {:induction false} RetransmitsKeepWaiting(s: Session, p: Params, d: Mac, start: int, now: int, order: seq<Mac>)
    requires Waiting(s, p, d, start, now - 1)
    requires Waiting(s, p, d, start, now) || d in order
    ensures Waiting(CheckForRetransmits(s, p, now, order), p, d, start, now)
    decreases |order|
  {
    if order != [] {
      var e := order[0];
      if Late(s, p, e, now) {
        if s.queues[e][0].sendTries < p.sendTries {
          var s' := SendHead(s, e, now);
          if e == d && !s.state.Terminating? {
            var k := s.queues[d][0].sendTries;
            assert now == start + (k - 1) * (p.ackTimeout + 1) + (p.ackTimeout + 1);
            assert now == start + k * (p.ackTimeout + 1);
            assert Waiting(s', p, d, start, now);
          }
          RetransmitsKeepWaiting(s', p, d, start, now, order[1..]);
        }
      } else {
        assert e == d ==> Waiting(s, p, d, start, now);
        RetransmitsKeepWaiting(s, p, d, start, now, order[1..]);
      }
    }
  }

  lemma {:induction false} SilentRunKeepsWaiting(s: Session, p: Params, d: Mac, start: int, events: seq<Event>)
    requires Waiting(s, p, d, start, start) && SilentRun(s, p, start, events)
    ensures Waiting(Run(s, p, events), p, d, start, Clock(start, events))
  {
    if events != [] {
      var front, e := events[..|events| - 1], events[|events| - 1];
      SilentRunKeepsWaiting(s, p, d, start, front);
      var s1 := Run(s, p, front);
      match e
      case Send(responseId, dest, payload, now) =>
        SendKeepsWaiting(s1, p, d, start, Clock(start, front), responseId, dest, payload, now);
      case Timer(now, order) =>
        if Active(s1, p, now) {
          RetransmitsKeepWaiting(s1, p, d, start, now, order);
        }
      case _ =>
    }
  }

  /**
   Bounded failure detection: if the head of a queue was first sent at `start`, the peer sends
   nothing more, its destination is not shunned, and the timer ticks every second, then the
   session is terminating once the clock shows start + max(1, tries) * (timeout + 1), whatever
   else is sent meanwhile and in whatever order the timer visits the queues.
   */
  lemma SilenceIsDetected(s: Session, p: Params, d: Mac, start: int, events: seq<Event>)
    requires d in s.queues && s.queues[d] != [] && d !in s.notInterested
    requires s.queues[d][0].sendTries == 1 && s.queues[d][0].sendTime == start
    requires SilentRun(s, p, start, events)
    requires Clock(start, events) >= GivesUpBy(p, start)
    ensures Run(s, p, events).state.Terminating?
  {
    SilentRunKeepsWaiting(s, p, d, start, events);
    var s' := Run(s, p, events);
    if !s'.state.Terminating? {
      var k, a := s'.queues[d][0].sendTries, p.ackTimeout + 1;
      assert (k - 1) * a + a == k * a;
      TriesBound(k, MaxTries(p), a);
    }
  }

  lemma TriesBound(k: nat, n: nat, a: nat)
    requires k <= n
    ensures k * a <= n * a
  {
  }

  /** Only timer events, for a session with nothing but d outstanding. */
  function Ticks(d: Mac, start: int, n: nat): seq<Event> {
    if n == 0 then [] else Ticks(d, start, n - 1) + [Timer(start + n, [d])]
  }

  /** Nothing but d is outstanding, and d is waiting. */
  ghost predicate Alone(s: Session, p: Params, d: Mac, start: int, now: int) {
    && s.queues.Keys == {d} && s.intervalSec == 0 && !s.state.Terminating?
    && Waiting(s, p, d, start, now)
  }

  /** One tick of such a session: it goes on waiting, unless the last try has timed out. */
  lemma TickAlone(s: Session, p: Params, d: Mac, start: int, now: int)
    requires Alone(s, p, d, start, now - 1) && now <= GivesUpBy(p, start)
    ensures now < GivesUpBy(p, start) ==> Alone(Step(s, p, Timer(now, [d])), p, d, start, now)
    ensures now == GivesUpBy(p, start) ==> Step(s, p, Timer(now, [d])).state.Terminating?
  {
    var k, a := s.queues[d][0].sendTries, p.ackTimeout + 1;
    assert (k - 1) * a + a == k * a;
    TriesBound(k, MaxTries(p), a);
    if k < MaxTries(p) {
      TriesBound(k + 1, MaxTries(p), a);
    }
    RetransmitsKeepWaiting(s, p, d, start, now, [d]);
    assert [d][1..] == [];
    assert CheckForRetransmits(s, p, now, [d]) ==
           if !Late(s, p, d, now) then s
           else if k < p.sendTries then SendHead(s, d, now)
           else Terminate(s, p, now);
  }

  lemma {:induction false} TicksSoFar(s: Session, p: Params, d: Mac, start: int, n: nat)
    requires Alone(s, p, d, start, start) && start + n < GivesUpBy(p, start)
    ensures Alone(Run(s, p, Ticks(d, start, n)), p, d, start, start + n)
    decreases n
  {
    hide Alone;
    if n > 0 {
      TicksSoFar(s, p, d, start, n - 1);
      var events := Ticks(d, start, n);
      assert events[..|events| - 1] == Ticks(d, start, n - 1);
      TickAlone(Run(s, p, Ticks(d, start, n - 1)), p, d, start, start + n);
    }
  }

  /** With nothing else outstanding the bound is exact: the session ends at that second, not before. */
  lemma SilenceIsDetectedExactly(s: Session, p: Params, d: Mac, start: int, n: nat)
    requires s.queues.Keys == {d} && s.queues[d] != [] && d !in s.notInterested
    requires s.queues[d][0].sendTries == 1 && s.queues[d][0].sendTime == start
    requires s.intervalSec == 0 && !s.state.Terminating?
    requires start + n <= GivesUpBy(p, start)
    ensures Run(s, p, Ticks(d, start, n)).state.Terminating? <==> start + n == GivesUpBy(p, start)
  {
    assert Alone(s, p, d, start, start);
    assert GivesUpBy(p, start) > start by {
      TriesBound(1, MaxTries(p), p.ackTimeout + 1);
    }
    if start + n < GivesUpBy(p, start) {
      TicksSoFar(s, p, d, start, n);
    } else {
      TicksSoFar(s, p, d, start, n - 1);
      var events := Ticks(d, start, n);
      assert events[..|events| - 1] == Ticks(d, start, n - 1);
      TickAlone(Run(s, p, Ticks(d, start, n - 1)), p, d, start, start + n);
    }
  }

  /**
   A shunned destination is outside failure detection while its head has tries left: no timer
   event sends it or counts a try.  A late head that had used up its tries still ends the session
   at the first timer event that visits its queue.
   */
  lemma {:induction false} ShunnedQueueIsFrozen(s: Session, p: Params, d: Mac, now: int, order: seq<Mac>)
    requires d in s.queues && s.queues[d] != [] && d in s.notInterested
    ensures var s' := CheckForRetransmits(s, p, now, order);
            && Queue(s', d) == Queue(s, d)
            && (Late(s, p, d, now) && s.queues[d][0].sendTries >= p.sendTries && d in order ==> s'.state.Terminating?)
    ensures (forall e :: e in order ==> e == d) ==>
              CheckForRetransmits(s, p, now, order) ==
              if order != [] && Late(s, p, d, now) && s.queues[d][0].sendTries >= p.sendTries
              then Terminate(s, p, now) else s
    decreases |order|
  {
    if order != [] {
      var e := order[0];
      assert e in order && forall x :: x in order[1..] ==> x in order;
      assert order == [e] + order[1..];
      if !Late(s, p, e, now) {
        ShunnedQueueIsFrozen(s, p, d, now, order[1..]);
      } else if s.queues[e][0].sendTries < p.sendTries {
        ShunnedQueueIsFrozen(SendHead(s, e, now), p, d, now, order[1..]);
      }
    }
  }

  // ---- The termination message ----

  /** The log entries an operation added. */
  function NewActions(s: Session, s': Session): seq<Action>
    requires |s.log| <= |s'.log|
  {
    s'.log[|s.log|..]
  }

  /**
   Ending a live session always queues the configured termination message, with its own bytes, but
   puts it on the wire only if no other session message is outstanding (and the session queue is
   not shunned); nothing else is sent, and no other queue is touched.
   */
  lemma TerminationOnTheWire(s: Session, p: Params, now: int)
    requires !s.state.Terminating?
    ensures var s' := Terminate(s, p, now);
            var n := |Queue(s, SESSION)|;
            var sent := Transmitted(SESSION, s.nextSerial, p.terminationResponse, p.terminationPayload);
            && s'.state.Terminating?
            && |s.log| <= |s'.log|
            && (forall a :: a in NewActions(s, s') && a.Transmitted? ==> a == sent)
            && (sent in NewActions(s, s') <==> n == 0 && SESSION !in s.notInterested)
            && (SESSION !in s.notInterested ==>
                  && |Queue(s', SESSION)| == n + 1
                  && Queue(s', SESSION)[..n] == Queue(s, SESSION)
                  && var x := Queue(s', SESSION)[n];
                     (x.responseId, x.payload, x.dest) == (p.terminationResponse, p.terminationPayload, SESSION))
            && (forall d :: d != SESSION || SESSION in s.notInterested ==> Queue(s', d) == Queue(s, d))
  {
    var s' := Terminate(s, p, now);
    var enqueued := Enqueued(SESSION, s.nextSerial);
    var sent := Transmitted(SESSION, s.nextSerial, p.terminationResponse, p.terminationPayload);
    if SESSION !in s.notInterested {
      if Queue(s, SESSION) == [] {
        assert NewActions(s, s') == [enqueued, sent];
        assert sent in NewActions(s, s');
      } else {
        assert NewActions(s, s') == [enqueued];
      }
    } else {
      assert NewActions(s, s') == [];
    }
  }

  /** Once terminating, terminating again changes nothing. */
  lemma TerminateIsIdempotent(s: Session, p: Params, now: int, later: int)
    ensures Terminate(Terminate(s, p, now), p, later) == Terminate(s, p, now)
  {
  }

  /** What one event does to a terminating session. */
  lemma TerminatingStep(s: Session, p: Params, e: Event)
    requires s.state.Terminating?
    ensures Step(s, p, e).state.Terminating? <==> e != Establish
  {
    if e.Timer? {
      RetransmitsKeepTerminating(s, p, e.now, e.order);
    }
  }

  lemma {:induction false} RetransmitsKeepTerminating(s: Session, p: Params, now: int, order: seq<Mac>)
    requires s.state.Terminating?
    ensures CheckForRetransmits(s, p, now, order).state.Terminating?
    decreases |order|
  {
    if order != [] {
      if !Late(s, p, order[0], now) {
        RetransmitsKeepTerminating(s, p, now, order[1..]);
      } else if s.queues[order[0]][0].sendTries < p.sendTries {
        RetransmitsKeepTerminating(SendHead(s, order[0], now), p, now, order[1..]);
      }
    }
  }

  /** Terminating is absorbing exactly over the runs without an initialization message. */
  lemma {:induction false} TerminatingIsAbsorbingExactly(s: Session, p: Params, events: seq<Event>)
    requires s.state.Terminating?
    ensures (forall k :: 0 <= k <= |events| ==> Run(s, p, events[..k]).state.Terminating?) <==> Establish !in events
  {
    if events == [] {
      assert events[..0] == [];
    } else {
      hide Step;
      var n := |events| - 1;
      var front, last := events[..n], events[n];
      TerminatingIsAbsorbingExactly(s, p, front);
      assert forall k :: 0 <= k <= n ==> front[..k] == events[..k];
      assert events == front + [last] && events[..|events|] == events && events[..n] == front;
      if Run(s, p, front).state.Terminating? {
        TerminatingStep(Run(s, p, front), p, last);
      }
      if Establish !in events {
        assert front[..n] == front;
      }
    }
  }

  /** So the state is not absorbing: a late initialization message brings the session back. */
  lemma TerminatingIsNotAbsorbing(p: Params, now: int)
    ensures Run(Initial(now), p, [Fail(now), Establish]).state.InSession?
  {
    var events := [Fail(now), Establish];
    assert events[..1] == [Fail(now)] && events[..1][..0] == [];
    assert Run(Initial(now), p, [Fail(now)]) == Step(Initial(now), p, Fail(now)) by {
      assert Run(Initial(now), p, []) == Initial(now);
    }
  }
}
