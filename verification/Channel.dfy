/**
 The session talking to a correct peer over first-in first-out channels (Peer.cpp,
 `send_message_expecting_response` and `handle_response`; section 8 of RFC 8175): the peer
 answers each request once, with its configured response, whenever and in whatever order it likes.
 */
module Channel {
  import opened Serialize
  import opened DataItem
  import opened Transactions

  /** A request on its way out, or the response it calls for on its way back. */
  datatype Exchange = Exchange(dest: Mac, responseId: u32)

  datatype World = World(
    local: Session,
    toPeer: seq<Exchange>,
    owed: seq<Exchange>,
    toLocal: seq<Exchange>)

  datatype Move =
    | LocalSends(responseId: u32, dest: Mac, payload: seq<byte>, now: int)
    | PeerReceives
    | PeerAnswers(which: nat)
    | LocalReceives(now: int)
    | LocalShuns(dest: Mac)
    | LocalRegains(dest: Mac)
    | TimerFires(now: int, order: seq<Mac>)
    | Passes(event: Event)           // initialization, arriving bytes

  /** The requests among logged actions, in the order in which they went out. */
  function Requests(log: seq<Action>): seq<Exchange> {
    if log == [] then []
    else if log[0].Transmitted? then [Exchange(log[0].dest, log[0].responseId)] + Requests(log[1..])
    else Requests(log[1..])
  }

  /** What a step of the session put on the wire. */
  function Outgoing(before: Session, after: Session): seq<Exchange> {
    if |before.log| <= |after.log| then Requests(after.log[|before.log|..]) else []
  }

  predicate Enabled(w: World, m: Move, p: Params) {
    match m
    case PeerReceives => w.toPeer != []
    case PeerAnswers(which) => which < |w.owed|
    case LocalReceives(_) => w.toLocal != []
    case Passes(event) => event.Establish? || event.Receive? || event.Interval?
    case _ => true
  }

  function Advance(w: World, m: Move, p: Params): World
    requires Enabled(w, m, p)
  {
    match m
    case LocalSends(responseId, d, payload, now) =>
      var s := SendNew(w.local, responseId, d, payload, now);
      w.(local := s, toPeer := w.toPeer + Outgoing(w.local, s))
    case PeerReceives => w.(toPeer := w.toPeer[1..], owed := w.owed + [w.toPeer[0]])
    case PeerAnswers(k) => w.(owed := w.owed[..k] + w.owed[k + 1..], toLocal := w.toLocal + [w.owed[k]])
    case LocalReceives(now) =>
      var s := HandleResponse(w.local, p, w.toLocal[0].dest, w.toLocal[0].responseId, now);
      w.(local := s, toLocal := w.toLocal[1..], toPeer := w.toPeer + Outgoing(w.local, s))
    case LocalShuns(d) => w.(local := Step(w.local, p, Shun(d)))
    case LocalRegains(d) => w.(local := Step(w.local, p, Regain(d)))
    case TimerFires(now, order) =>
      var s := Tick(w.local, p, now, order);
      w.(local := s, toPeer := w.toPeer + Outgoing(w.local, s))
    case Passes(event) => w.(local := Step(w.local, p, event))
  }

  /** The event of the session that a move is, unless it is the peer's. */
  function EventsOf(w: World, m: Move): seq<Event> {
    match m
    case LocalSends(responseId, d, payload, now) => [Send(responseId, d, payload, now)]
    case LocalReceives(now) =>
      if w.toLocal == [] then [] else [Response(w.toLocal[0].dest, w.toLocal[0].responseId, now)]
    case LocalShuns(d) => [Shun(d)]
    case LocalRegains(d) => [Regain(d)]
    case TimerFires(now, order) => [Timer(now, order)]
    case Passes(event) => [event]
    case _ => []
  }

  lemma MovesAreEvents(w: World, m: Move, p: Params)
    requires Enabled(w, m, p)
    ensures Advance(w, m, p).local == if EventsOf(w, m) == [] then w.local else Step(w.local, p, EventsOf(w, m)[0])
  {
  }

  /** So what is proved of all runs of the session holds of the session in every reachable world. */
  lemma {:induction false} WorldsRunTheSession(s: Session, past: seq<Event>, w: World, p: Params, moves: seq<Move>,
                                               w': World)
    requires w.local == Run(s, p, past) && Reaches(w, p, moves, w')
    ensures exists events :: past <= events && w'.local == Run(s, p, events)
    decreases |moves|
  {
    hide Step, Advance, Enabled;
    if moves != [] {
      var more := EventsOf(w, moves[0]);
      MovesAreEvents(w, moves[0], p);
      var longer := if more == [] then past else past + [more[0]];
      assert more != [] ==> longer[..|past|] == past;
      WorldsRunTheSession(s, longer, Advance(w, moves[0], p), p, moves[1..], w');
    }
  }

  /** A timer that finds the peer active and no answer late. */
  predicate Timely(w: World, m: Move, p: Params) {
    m.TimerFires? ==> Active(w.local, p, m.now) && forall d :: d in m.order ==> !Late(w.local, p, d, m.now)
  }

  /** A sequence of enabled moves from a world. */
  ghost predicate Reaches(w: World, p: Params, moves: seq<Move>, w': World)
    decreases |moves|
  {
    if moves == [] then w' == w
    else Enabled(w, moves[0], p) && Reaches(Advance(w, moves[0], p), p, moves[1..], w')
  }

  /** A sequence of enabled moves none of whose timers retransmits. */
  ghost predicate AllTimely(w: World, p: Params, moves: seq<Move>)
    decreases |moves|
  {
    moves == [] ||
    (Enabled(w, moves[0], p) && Timely(w, moves[0], p) && AllTimely(Advance(w, moves[0], p), p, moves[1..]))
  }

  /** Everything between the two sides: requests, owed answers and responses. */
  function InTransit(w: World): multiset<Exchange> {
    multiset(w.toPeer) + multiset(w.owed) + multiset(w.toLocal)
  }

  /** Is x the exchange of a queue head that has been sent? */
  predicate Awaited(s: Session, x: Exchange) {
    && x.dest in s.queues
    && s.queues[x.dest] != []
    && s.queues[x.dest][0].sendTries > 0
    && s.queues[x.dest][0].responseId == x.responseId
  }

  /**
   The channel invariant: a destination has exactly one request, owed answer or response in
   transit, the one its head calls for, if the head was sent, and none otherwise.
   */
  ghost predicate InStep(w: World) {
    forall x :: InTransit(w)[x] == if Awaited(w.local, x) then 1 else 0
  }

  ghost predicate QueuesOk(s: Session) {
    forall d :: d in s.queues ==>
      s.queues[d] != [] && forall i :: 1 <= i < |s.queues[d]| ==> s.queues[d][i].sendTries == 0
  }

  /** The exchanges awaited change by what an operation consumed and what it put on the wire. */
  ghost predicate Shifts(s: Session, s': Session, consumed: multiset<Exchange>) {
    forall x :: (if Awaited(s', x) then 1 else 0) + consumed[x] ==
                (if Awaited(s, x) then 1 else 0) + multiset(Outgoing(s, s'))[x]
  }

  /** The requests among one or two logged actions. */
  lemma RequestsOfFew(a: Action, b: Action)
    ensures Requests([]) == []
    ensures Requests([a]) == if a.Transmitted? then [Exchange(a.dest, a.responseId)] else []
    ensures Requests([a, b]) == Requests([a]) + Requests([b])
  {
    assert [a][1..] == [] && [b][1..] == [] && [a, b][1..] == [b];
  }

  lemma SendShifts(s: Session, responseId: u32, d: Mac, payload: seq<byte>, now: int)
    requires QueuesOk(s)
    ensures Shifts(s, SendNew(s, responseId, d, payload, now), multiset{})
    ensures QueuesOk(SendNew(s, responseId, d, payload, now))
  {
    hide Requests;
    var s' := SendNew(s, responseId, d, payload, now);
    var queued, sent := Enqueued(d, s.nextSerial), Transmitted(d, s.nextSerial, responseId, payload);
    RequestsOfFew(queued, sent);
    RequestsOfFew(sent, sent);
    if d in s.notInterested {
      assert s'.log[|s.log|..] == [];
    } else if Queue(s, d) == [] {
      assert s'.log[|s.log|..] == [queued, sent];
      assert Outgoing(s, s') == [Exchange(d, responseId)];
    } else {
      assert s'.log[|s.log|..] == [queued];
      assert Outgoing(s, s') == [];
    }
  }

  lemma AcknowledgeShifts(s: Session, x: Exchange, now: int)
    requires QueuesOk(s) && Awaited(s, x)
    ensures Shifts(s, Acknowledge(s, x.dest, now), multiset{x})
    ensures QueuesOk(Acknowledge(s, x.dest, now))
  {
    var d := x.dest;
    var s' := Acknowledge(s, d, now);
    var rest := s.queues[d][1..];
    var acked := Acknowledged(d, s.queues[d][0].serial);
    if rest == [] || d in s.notInterested {
      assert s'.log[|s.log|..] == [acked];
      assert Requests([acked]) == [];
      assert Outgoing(s, s') == Requests([acked]);
    } else {
      var sent := Transmitted(d, rest[0].serial, rest[0].responseId, rest[0].payload);
      assert s'.log[|s.log|..] == [acked, sent];
      assert [acked, sent][1..] == [sent] && [sent][1..] == [];
      assert Outgoing(s, s') == [Exchange(d, rest[0].responseId)] by {
        assert Requests([sent]) == [Exchange(d, rest[0].responseId)];
      }
    }
  }

  lemma SendInStep(w: World, p: Params, responseId: u32, d: Mac, payload: seq<byte>, now: int)
    requires InStep(w) && QueuesOk(w.local)
    ensures var w' := Advance(w, LocalSends(responseId, d, payload, now), p);
            InStep(w') && QueuesOk(w'.local) && w'.local.state == w.local.state
  {
    hide Awaited, Outgoing;
    var w' := Advance(w, LocalSends(responseId, d, payload, now), p);
    SendShifts(w.local, responseId, d, payload, now);
    assert InTransit(w') == InTransit(w) + multiset(Outgoing(w.local, w'.local));
  }

  lemma ReceiveInStep(w: World, p: Params, now: int)
    requires InStep(w) && QueuesOk(w.local) && w.toLocal != []
    ensures Expected(w.local, w.toLocal[0].dest, w.toLocal[0].responseId)
    ensures var w' := Advance(w, LocalReceives(now), p);
            InStep(w') && QueuesOk(w'.local) && w'.local.state == w.local.state
  {
    hide Outgoing;
    var x := w.toLocal[0];
    assert w.toLocal == [x] + w.toLocal[1..];
    assert InTransit(w)[x] >= 1;
    assert Awaited(w.local, x);
    hide Awaited;
    var w' := Advance(w, LocalReceives(now), p);
    AcknowledgeShifts(w.local, x, now);
    assert w'.local == Acknowledge(w.local, x.dest, now);
    assert InTransit(w') == InTransit(w) - multiset{x} + multiset(Outgoing(w.local, w'.local));
    assert QueuesOk(w'.local) && w'.local.state == w.local.state by {
      AcknowledgeKeepsState(w.local, x.dest, now);
    }
  }

  lemma AcknowledgeKeepsState(s: Session, d: Mac, now: int)
    requires d in s.queues && s.queues[d] != []
    ensures Acknowledge(s, d, now).state == s.state
  {
  }

  lemma PeerInStep(w: World, p: Params, m: Move)
    requires InStep(w) && Enabled(w, m, p) && (m.PeerReceives? || m.PeerAnswers?)
    ensures InStep(Advance(w, m, p))
  {
    PeerMovesKeepTransit(w, p, m);
    hide InTransit, Awaited;
  }

  lemma PeerMovesKeepTransit(w: World, p: Params, m: Move)
    requires Enabled(w, m, p) && (m.PeerReceives? || m.PeerAnswers?)
    ensures InTransit(Advance(w, m, p)) == InTransit(w) && Advance(w, m, p).local == w.local
  {
    if m.PeerReceives? {
      assert w.toPeer == [w.toPeer[0]] + w.toPeer[1..];
    } else {
      assert w.owed == w.owed[..m.which] + [w.owed[m.which]] + w.owed[m.which + 1..];
    }
  }

  lemma {:induction false} NothingLate(s: Session, p: Params, now: int, order: seq<Mac>)
    requires forall d :: d in order ==> !Late(s, p, d, now)
    ensures CheckForRetransmits(s, p, now, order) == s
    decreases |order|
  {
    if order != [] {
      assert order[0] in order && forall d :: d in order[1..] ==> d in order;
      NothingLate(s, p, now, order[1..]);
    }
  }

  /** Every enabled move without retransmission keeps the channel invariant and does not end the session. */
  lemma MoveInStep(w: World, p: Params, m: Move)
    requires InStep(w) && QueuesOk(w.local) && Enabled(w, m, p) && Timely(w, m, p)
    ensures var w' := Advance(w, m, p);
            && InStep(w') && QueuesOk(w'.local)
            && (w'.local.state == w.local.state || w'.local.state.InSession?)
  {
    match m
    case LocalSends(responseId, d, payload, now) => SendInStep(w, p, responseId, d, payload, now);
    case LocalReceives(now) => ReceiveInStep(w, p, now);
    case PeerReceives => PeerInStep(w, p, m);
    case PeerAnswers(_) => PeerInStep(w, p, m);
    case TimerFires(now, order) =>
      NothingLate(w.local, p, now, order);
      assert Outgoing(w.local, w.local) == [] by {
        assert w.local.log[|w.local.log|..] == [];
      }
      assert Advance(w, m, p).toPeer == w.toPeer;
      assert InTransit(Advance(w, m, p)) == InTransit(w);
    case _ => assert InTransit(Advance(w, m, p)) == InTransit(w);
  }

  function Quiet(start: int): World {
    World(Initial(start), [], [], [])
  }

  lemma {:induction false} RunInStep(w: World, p: Params, moves: seq<Move>, w': World)
    requires InStep(w) && QueuesOk(w.local) && !w.local.state.Terminating?
    requires Reaches(w, p, moves, w') && AllTimely(w, p, moves)
    ensures InStep(w') && QueuesOk(w'.local) && !w'.local.state.Terminating?
    decreases |moves|
  {
    if moves != [] {
      MoveInStep(w, p, moves[0]);
      RunInStep(Advance(w, moves[0], p), p, moves[1..], w');
    }
  }

  /**
   Two-party safety: with such a peer and no retransmission, in every reachable world the channel
   invariant holds, every response that can arrive next is the expected one, and the session is
   never ended for an unexpected response.
   */
  lemma ResponsesAreAlwaysExpected(p: Params, start: int, moves: seq<Move>, w: World)
    requires Reaches(Quiet(start), p, moves, w) && AllTimely(Quiet(start), p, moves)
    ensures InStep(w) && !w.local.state.Terminating?
    ensures w.toLocal != [] ==> Expected(w.local, w.toLocal[0].dest, w.toLocal[0].responseId)
  {
    RunInStep(Quiet(start), p, moves, w);
    if w.toLocal != [] {
      ReceiveInStep(w, p, 0);
    }
  }

  /**
   Retransmission is what the guarantee cannot survive: if one late response makes the timer send
   a message again and the peer answers both copies, the second answer ends the session.
   */
  lemma AnsweringARetransmissionEndsTheSession(p: Params, d: Mac, responseId: u32, t: int)
    requires p.sendTries >= 2 && t > p.ackTimeout
    ensures Run(Initial(0), p, [Send(responseId, d, [], 0), Timer(t, [d]),
                                Response(d, responseId, t), Response(d, responseId, t)]).state.Terminating?
    ensures Requests(Run(Initial(0), p, [Send(responseId, d, [], 0), Timer(t, [d])]).log) ==
            [Exchange(d, responseId), Exchange(d, responseId)]
  {
    var e0, e1, e2 := Send(responseId, d, [], 0), Timer(t, [d]), Response(d, responseId, t);
    assert [e0][..0] == [] && [e0, e1][..1] == [e0];
    assert [e0, e1, e2][..2] == [e0, e1] && [e0, e1, e2, e2][..3] == [e0, e1, e2];
    var s := Initial(0);
    assert Run(s, p, []) == s;
    var s0, s1, s2 := Run(s, p, [e0]), Run(s, p, [e0, e1]), Run(s, p, [e0, e1, e2]);
    SentAndResent(p, d, responseId, t);
    assert s0 == Step(s, p, e0) && s1 == Step(s0, p, e1) && s2 == Step(s1, p, e2);
    assert s1.queues[d][1..] == [] && d !in s2.queues;
    assert Run(s, p, [e0, e1, e2, e2]) == Step(s2, p, e2);
  }

  lemma SentAndResent(p: Params, d: Mac, responseId: u32, t: int)
    requires p.sendTries >= 2 && t > p.ackTimeout
    ensures var s0 := Step(Initial(0), p, Send(responseId, d, [], 0));
            var s1 := Step(s0, p, Timer(t, [d]));
            && s1.queues == map[d := [Pending(0, responseId, d, [], t, 2)]]
            && s1.notInterested == {}
            && Requests(s1.log) == [Exchange(d, responseId), Exchange(d, responseId)]
  {
    var s0 := Step(Initial(0), p, Send(responseId, d, [], 0));
    var x, sent := Pending(0, responseId, d, [], 0, 1), Transmitted(d, 0, responseId, []);
    assert s0.queues[d] == [x] && s0.log == [Enqueued(d, 0), sent];
    var s1 := Step(s0, p, Timer(t, [d]));
    assert [d][1..] == [];
    assert Late(s0, p, d, t) && !Late(Transmit(s0, d, t), p, d, t);
    assert CheckForRetransmits(Transmit(s0, d, t), p, t, []) == Transmit(s0, d, t);
    assert CheckForRetransmits(s0, p, t, [d]) == CheckForRetransmits(SendHead(s0, d, t), p, t, [d][1..]);
    assert s1 == Transmit(s0, d, t);
    assert [x][1..] == [];
    assert s1.log == [Enqueued(d, 0), sent, sent];
    assert s1.queues[d] == [Pending(0, responseId, d, [], t, 2)];
    assert s1.queues.Keys == {d};
    assert s1.queues == map[d := [Pending(0, responseId, d, [], t, 2)]];
    assert s1.notInterested == {};
    assert s1.log[1..] == [sent, sent] && [sent, sent][1..] == [sent] && [sent][1..] == [];
    assert Requests([sent]) == [Exchange(d, responseId)];
    assert Requests([sent, sent]) == [Exchange(d, responseId), Exchange(d, responseId)];
    assert Requests(s1.log) == Requests(s1.log[1..]);
  }
}
