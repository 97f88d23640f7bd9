/**
 What retransmission does to the channel of `Channel` (Peer.cpp, `check_for_retransmits` and
 `handle_response`): every message sent again puts one exchange too many in transit, and such an
 excess is what lets the peer, by answering everything once, end the session.
 */
module Retransmission {
  import opened Serialize
  import opened DataItem
  import opened Transactions
  import opened Channel

  function Awaits(s: Session, x: Exchange): nat {
    if Awaited(s, x) then 1 else 0
  }

  /** How many more of an exchange are in transit than the session awaits. */
  function Excess(w: World, x: Exchange): int {
    InTransit(w)[x] - Awaits(w.local, x)
  }

  /** How often a timer that goes over the queues in this order sends x again. */
  function Resent(s: Session, p: Params, now: int, order: seq<Mac>, x: Exchange): nat
    decreases |order|
  {
    if order == [] then 0
    else if !Late(s, p, order[0], now) then Resent(s, p, now, order[1..], x)
    else
      var d, head := order[0], s.queues[order[0]][0];
      if head.sendTries >= p.sendTries then 0
      else
        Resent(SendHead(s, d, now), p, now, order[1..], x)
        + if d !in s.notInterested && head.sendTries > 0 && x == Exchange(d, head.responseId) then 1 else 0
  }

  /** How often a move sends x again. */
  function ResentBy(w: World, m: Move, p: Params, x: Exchange): nat {
    if m.TimerFires? && Active(w.local, p, m.now) then Resent(w.local, p, m.now, m.order, x) else 0
  }

  /** Does a move use up a response x that the session does not await? */
  predicate Wastes(w: World, m: Move, x: Exchange) {
    m.LocalReceives? && w.toLocal != [] && w.toLocal[0] == x && !Awaited(w.local, x)
  }

  // ---- What one operation puts on the wire beyond what it then awaits

  /** Requests that went out, less what has come to be awaited. */
  function Net(s: Session, s': Session, x: Exchange): int {
    multiset(Outgoing(s, s'))[x] + Awaits(s, x) - Awaits(s', x)
  }

  lemma {:induction false} RequestsAppend(a: seq<Action>, b: seq<Action>)
    ensures Requests(a + b) == Requests(a) + Requests(b)
  {
    if a == [] {
      assert a + b == b;
    } else {
      assert (a + b)[1..] == a[1..] + b;
      RequestsAppend(a[1..], b);
    }
  }

  lemma NetAdds(s: Session, mid: Session, s': Session, x: Exchange)
    requires s.log <= mid.log <= s'.log
    ensures Net(s, s', x) == Net(s, mid, x) + Net(mid, s', x)
  {
    hide Requests, Awaited;
    var a, b := mid.log[|s.log|..], s'.log[|mid.log|..];
    assert s'.log[|s.log|..] == a + b;
    RequestsAppend(a, b);
  }

  lemma NoNet(s: Session, s': Session, x: Exchange)
    requires s'.log == s.log && s'.queues == s.queues
    ensures Net(s, s', x) == 0
  {
    assert s'.log[|s.log|..] == [];
  }

  lemma SendNet(s: Session, responseId: u32, d: Mac, payload: seq<byte>, now: int, x: Exchange)
    requires QueuesOk(s)
    ensures var s' := SendNew(s, responseId, d, payload, now);
            s.log <= s'.log && QueuesOk(s') && Net(s, s', x) == 0
  {
    hide Awaited, Outgoing, Queue;
    SendShifts(s, responseId, d, payload, now);
  }

  lemma TerminateNet(s: Session, p: Params, now: int, x: Exchange)
    requires QueuesOk(s)
    ensures var s' := Terminate(s, p, now);
            s.log <= s'.log && QueuesOk(s') && Net(s, s', x) == 0
  {
    if s.state.Terminating? {
      NoNet(s, s, x);
    } else {
      var t := s.(state := Terminating);
      hide SendNew;
      NoNet(s, t, x);
      SendNet(t, p.terminationResponse, SESSION, p.terminationPayload, now, x);
      NetAdds(s, t, Terminate(s, p, now), x);
    }
  }

  /** Sending a head puts one request out: the one it then awaits, or one too many if it was sent before. */
  lemma SendHeadNet(s: Session, d: Mac, now: int, x: Exchange)
    requires QueuesOk(s) && d in s.queues
    ensures var s' := SendHead(s, d, now);
            && s.log <= s'.log && QueuesOk(s')
            && Net(s, s', x) == if d !in s.notInterested && s.queues[d][0].sendTries > 0
                                   && x == Exchange(d, s.queues[d][0].responseId) then 1 else 0
  {
    var s' := SendHead(s, d, now);
    if d in s.notInterested {
      NoNet(s, s, x);
    } else {
      var head := s.queues[d][0];
      var sent := Transmitted(d, head.serial, head.responseId, head.payload);
      assert s'.log[|s.log|..] == [sent];
      RequestsOfFew(sent, sent);
      hide Requests;
      assert Outgoing(s, s') == [Exchange(d, head.responseId)];
    }
  }

  lemma {:induction false} RetransmitsNet(s: Session, p: Params, now: int, order: seq<Mac>, x: Exchange)
    requires QueuesOk(s)
    ensures var s' := CheckForRetransmits(s, p, now, order);
            s.log <= s'.log && QueuesOk(s') && Net(s, s', x) == Resent(s, p, now, order, x)
    decreases |order|
  {
    hide Net, QueuesOk, SendHead, Terminate;
    if order == [] {
      NoNet(s, s, x);
    } else if !Late(s, p, order[0], now) {
      RetransmitsNet(s, p, now, order[1..], x);
    } else if s.queues[order[0]][0].sendTries < p.sendTries {
      var mid := SendHead(s, order[0], now);
      SendHeadNet(s, order[0], now, x);
      RetransmitsNet(mid, p, now, order[1..], x);
      NetAdds(s, mid, CheckForRetransmits(mid, p, now, order[1..]), x);
    } else {
      TerminateNet(s, p, now, x);
    }
  }

  lemma TickNet(s: Session, p: Params, now: int, order: seq<Mac>, x: Exchange)
    requires QueuesOk(s)
    ensures var s' := Tick(s, p, now, order);
            && s.log <= s'.log && QueuesOk(s')
            && Net(s, s', x) == if Active(s, p, now) then Resent(s, p, now, order, x) else 0
  {
    hide Net, QueuesOk, Active;
    if Active(s, p, now) {
      RetransmitsNet(s, p, now, order, x);
    } else {
      TerminateNet(s, p, now, x);
    }
  }

  lemma AcknowledgeKeepsQueues(s: Session, d: Mac, now: int)
    requires QueuesOk(s) && d in s.queues
    ensures QueuesOk(Acknowledge(s, d, now))
  {
  }

  /** A response to a head that was never sent is popped like any other, but nothing awaited it. */
  lemma UnsentAcknowledgeNet(s: Session, d: Mac, now: int, x: Exchange)
    requires QueuesOk(s) && d in s.queues && s.queues[d][0].sendTries == 0
    ensures QueuesOk(Acknowledge(s, d, now)) && Net(s, Acknowledge(s, d, now), x) == 0
  {
    hide Requests;
    AcknowledgeKeepsQueues(s, d, now);
    hide QueuesOk;
    var s' := Acknowledge(s, d, now);
    var rest := s.queues[d][1..];
    var acked := Acknowledged(d, s.queues[d][0].serial);
    assert rest != [] ==> rest[0].sendTries == 0 by {
      SecondIsUnsent(s, d);
    }
    if rest == [] || d in s.notInterested {
      assert s'.log[|s.log|..] == [acked];
      RequestsOfFew(acked, acked);
    } else {
      var sent := Transmitted(d, rest[0].serial, rest[0].responseId, rest[0].payload);
      assert s'.log[|s.log|..] == [acked, sent];
      RequestsOfFew(acked, sent);
      RequestsOfFew(sent, sent);
      assert Outgoing(s, s') == [Exchange(d, rest[0].responseId)];
    }
  }

  lemma SecondIsUnsent(s: Session, d: Mac)
    requires QueuesOk(s) && d in s.queues
    ensures |s.queues[d]| > 1 ==> s.queues[d][1].sendTries == 0
  {
  }

  lemma ResponseNet(s: Session, p: Params, y: Exchange, now: int, x: Exchange)
    requires QueuesOk(s)
    ensures var s' := HandleResponse(s, p, y.dest, y.responseId, now);
            QueuesOk(s') && Net(s, s', x) == if x == y && Awaited(s, y) then 1 else 0
  {
    hide Outgoing, Acknowledge, Terminate;
    if !Expected(s, y.dest, y.responseId) {
      TerminateNet(s, p, now, x);
    } else if s.queues[y.dest][0].sendTries == 0 {
      UnsentAcknowledgeNet(s, y.dest, now, x);
    } else {
      AcknowledgeShifts(s, y, now);
    }
  }

  // ---- The law of every move

  lemma WireGrows(w: World, s: Session, out: seq<Exchange>, x: Exchange)
    ensures InTransit(w.(local := s, toPeer := w.toPeer + out))[x] == InTransit(w)[x] + multiset(out)[x]
  {
  }

  lemma ResponseTaken(w: World, x: Exchange)
    requires w.toLocal != []
    ensures InTransit(w.(toLocal := w.toLocal[1..]))[x] == InTransit(w)[x] - if x == w.toLocal[0] then 1 else 0
  {
    assert w.toLocal == [w.toLocal[0]] + w.toLocal[1..];
  }

  lemma PeerMovesNothingAway(w: World, p: Params, m: Move, x: Exchange)
    requires Enabled(w, m, p) && (m.PeerReceives? || m.PeerAnswers?)
    ensures InTransit(Advance(w, m, p))[x] == InTransit(w)[x] && Advance(w, m, p).local == w.local
  {
    match m
    case PeerReceives => assert w.toPeer == [w.toPeer[0]] + w.toPeer[1..];
    case PeerAnswers(k) => assert w.owed == w.owed[..k] + [w.owed[k]] + w.owed[k + 1..];
  }

  /** An excess grows by what is sent again and shrinks by what is wasted, and by nothing else. */
  lemma ExcessLaw(w: World, p: Params, m: Move, x: Exchange)
    requires QueuesOk(w.local) && Enabled(w, m, p)
    ensures var w' := Advance(w, m, p);
            && QueuesOk(w'.local)
            && Excess(w', x) == Excess(w, x) + ResentBy(w, m, p, x) - if Wastes(w, m, x) then 1 else 0
  {
    hide InTransit, Outgoing, Awaited, QueuesOk, SendNew, HandleResponse, Tick, Active, Resent;
    var s' := Advance(w, m, p).local;
    var out := Outgoing(w.local, s');
    match m
    case LocalSends(responseId, d, payload, now) =>
      SendNet(w.local, responseId, d, payload, now, x);
      WireGrows(w, s', out, x);
    case TimerFires(now, order) =>
      TickNet(w.local, p, now, order, x);
      WireGrows(w, s', out, x);
    case LocalReceives(now) =>
      ResponseNet(w.local, p, w.toLocal[0], now, x);
      ResponseTaken(w, x);
      WireGrows(w.(toLocal := w.toLocal[1..]), s', out, x);
    case PeerReceives => PeerMovesNothingAway(w, p, m, x);
    case PeerAnswers(k) => PeerMovesNothingAway(w, p, m, x);
    case _ => SameQueues(w, m, p, x);
  }

  lemma SameQueues(w: World, m: Move, p: Params, x: Exchange)
    requires Enabled(w, m, p) && (m.LocalShuns? || m.LocalRegains? || m.Passes?) && QueuesOk(w.local)
    ensures QueuesOk(Advance(w, m, p).local) && Excess(Advance(w, m, p), x) == Excess(w, x)
  {
  }

  /** Everything awaited is in transit. */
  ghost predicate Sound(w: World) {
    forall x :: Excess(w, x) >= 0
  }

  lemma MoveKeepsSound(w: World, p: Params, m: Move)
    requires QueuesOk(w.local) && Sound(w) && Enabled(w, m, p)
    ensures QueuesOk(Advance(w, m, p).local) && Sound(Advance(w, m, p))
  {
    hide Advance, QueuesOk;
    forall x
      ensures Excess(Advance(w, m, p), x) >= 0 && QueuesOk(Advance(w, m, p).local)
    {
      ExcessLaw(w, p, m, x);
      if Wastes(w, m, x) {
        assert w.toLocal[0] in w.toLocal;
        assert multiset(w.toLocal)[x] >= 1;
      }
    }
    ExcessLaw(w, p, m, Exchange([], 0));
  }

  function TotalResent(w: World, p: Params, moves: seq<Move>, x: Exchange): nat
    decreases |moves|
  {
    if moves == [] || !Enabled(w, moves[0], p) then 0
    else ResentBy(w, moves[0], p, x) + TotalResent(Advance(w, moves[0], p), p, moves[1..], x)
  }

  function TotalWasted(w: World, p: Params, moves: seq<Move>, x: Exchange): nat
    decreases |moves|
  {
    if moves == [] || !Enabled(w, moves[0], p) then 0
    else (if Wastes(w, moves[0], x) then 1 else 0) + TotalWasted(Advance(w, moves[0], p), p, moves[1..], x)
  }

  lemma {:induction false} RunLaw(w: World, p: Params, moves: seq<Move>, w': World, x: Exchange)
    requires QueuesOk(w.local) && Sound(w) && Reaches(w, p, moves, w')
    ensures QueuesOk(w'.local) && Sound(w')
    ensures Excess(w', x) == Excess(w, x) + TotalResent(w, p, moves, x) - TotalWasted(w, p, moves, x)
    decreases |moves|
  {
    hide Advance, QueuesOk, Sound, Excess, ResentBy, Wastes, Enabled;
    if moves != [] {
      ExcessLaw(w, p, moves[0], x);
      MoveKeepsSound(w, p, moves[0]);
      RunLaw(Advance(w, moves[0], p), p, moves[1..], w', x);
    }
  }

  /** Over any run: what is in transit beyond what is awaited is what was sent again and not yet wasted. */
  lemma ExcessIsWhatWasSentAgain(p: Params, start: int, moves: seq<Move>, w: World, x: Exchange)
    requires Reaches(Quiet(start), p, moves, w)
    ensures Excess(w, x) >= 0
    ensures Excess(w, x) == TotalResent(Quiet(start), p, moves, x) - TotalWasted(Quiet(start), p, moves, x)
  {
    RunLaw(Quiet(start), p, moves, w, x);
  }

  // ---- When the peer can end the session

  /** A move that the peer decides: taking a request, answering one, and delivering an answer. */
  predicate PeerMove(m: Move) {
    m.PeerReceives? || m.PeerAnswers? || m.LocalReceives?
  }

  ghost predicate Ends(w: World, p: Params, moves: seq<Move>, w': World) {
    (forall m :: m in moves ==> PeerMove(m)) && Reaches(w, p, moves, w') && w'.local.state.Terminating?
  }

  /** Answering nothing but what it was asked, each request once, the peer can end the session. */
  ghost predicate CanEnd(w: World, p: Params) {
    exists moves, w' :: Ends(w, p, moves, w')
  }

  /** Nobody is shunned and every head has been sent, as in every run without a loss of interest. */
  ghost predicate AllSent(s: Session) {
    && s.notInterested == {}
    && forall d :: d in s.queues ==> s.queues[d] != [] && s.queues[d][0].sendTries > 0
  }

  lemma {:induction false} RetransmitsKeepAllSent(s: Session, p: Params, now: int, order: seq<Mac>)
    requires AllSent(s)
    ensures AllSent(CheckForRetransmits(s, p, now, order))
    decreases |order|
  {
    if order != [] {
      if !Late(s, p, order[0], now) {
        RetransmitsKeepAllSent(s, p, now, order[1..]);
      } else if s.queues[order[0]][0].sendTries < p.sendTries {
        RetransmitsKeepAllSent(SendHead(s, order[0], now), p, now, order[1..]);
      }
    }
  }

  lemma MoveKeepsAllSent(w: World, p: Params, m: Move)
    requires QueuesOk(w.local) && AllSent(w.local) && Enabled(w, m, p) && !m.LocalShuns?
    ensures AllSent(Advance(w, m, p).local)
  {
    hide Outgoing, Active, AllSent, QueuesOk, SendNew, Acknowledge, Terminate, CheckForRetransmits;
    match m
    case LocalSends(responseId, d, payload, now) => SendKeepsAllSent(w.local, p, responseId, d, payload, now);
    case LocalReceives(now) => AcknowledgeKeepsAllSent(w.local, p, w.toLocal[0], now);
    case TimerFires(now, order) =>
      RetransmitsKeepAllSent(w.local, p, now, order);
      TerminateKeepsAllSent(w.local, p, now);
    case LocalRegains(d) => SameQueuesAllSent(w.local, Advance(w, m, p).local);
    case Passes(_) => SameQueuesAllSent(w.local, Advance(w, m, p).local);
    case _ =>
  }

  lemma SameQueuesAllSent(s: Session, s': Session)
    requires AllSent(s) && s'.queues == s.queues && s'.notInterested <= s.notInterested
    ensures AllSent(s')
  {
  }

  lemma SendKeepsAllSent(s: Session, p: Params, responseId: u32, d: Mac, payload: seq<byte>, now: int)
    requires AllSent(s)
    ensures AllSent(SendNew(s, responseId, d, payload, now))
  {
  }

  lemma TerminateKeepsAllSent(s: Session, p: Params, now: int)
    requires AllSent(s)
    ensures AllSent(Terminate(s, p, now))
  {
    hide SendNew, AllSent;
    SameQueuesAllSent(s, s.(state := Terminating));
    SendKeepsAllSent(s.(state := Terminating), p, p.terminationResponse, SESSION, p.terminationPayload, now);
  }

  lemma AcknowledgeKeepsAllSent(s: Session, p: Params, y: Exchange, now: int)
    requires AllSent(s)
    ensures AllSent(HandleResponse(s, p, y.dest, y.responseId, now))
  {
    hide Terminate;
    TerminateKeepsAllSent(s, p, now);
  }

  lemma {:induction false} RunKeepsAllSent(w: World, p: Params, moves: seq<Move>, w': World)
    requires QueuesOk(w.local) && Sound(w) && AllSent(w.local) && Reaches(w, p, moves, w')
    requires forall m :: m in moves ==> !m.LocalShuns?
    ensures QueuesOk(w'.local) && Sound(w') && AllSent(w'.local)
    decreases |moves|
  {
    hide Advance, QueuesOk, Sound, AllSent, Enabled;
    if moves != [] {
      assert moves[0] in moves && forall m :: m in moves[1..] ==> m in moves;
      MoveKeepsAllSent(w, p, moves[0]);
      MoveKeepsSound(w, p, moves[0]);
      RunKeepsAllSent(Advance(w, moves[0], p), p, moves[1..], w');
    }
  }

  lemma {:induction false} ReachesOn(w: World, p: Params, a: seq<Move>, mid: World, b: seq<Move>, w': World)
    requires Reaches(w, p, a, mid) && Reaches(mid, p, b, w')
    ensures Reaches(w, p, a + b, w')
    decreases |a|
  {
    hide Advance, Enabled;
    if a == [] {
      assert a + b == b;
    } else {
      assert (a + b)[0] == a[0] && (a + b)[1..] == a[1..] + b;
      ReachesOn(Advance(w, a[0], p), p, a[1..], mid, b, w');
    }
  }

  /** A world in which the peer may act and the excess of x is there to be used. */
  ghost predicate Poised(w: World, x: Exchange) {
    QueuesOk(w.local) && AllSent(w.local) && !w.local.state.Terminating? && Excess(w, x) > 0
  }

  lemma SamePoise(w: World, w': World, x: Exchange)
    requires Poised(w, x) && w'.local == w.local && InTransit(w')[x] == InTransit(w)[x]
    ensures Poised(w', x) && PeerMove(PeerReceives)
  {
  }

  /** Where every head was sent, a delivered answer ends the session or keeps the excess. */
  lemma DeliveryIsDecisive(w: World, p: Params, x: Exchange)
    requires Poised(w, x) && w.toLocal != []
    ensures var w', y := Advance(w, LocalReceives(0), p), w.toLocal[0];
            && w'.toLocal == w.toLocal[1..]
            && if Expected(w.local, y.dest, y.responseId)
               then Poised(w', x) && w'.local == Acknowledge(w.local, y.dest, 0)
               else w'.local.state.Terminating?
  {
    var m, y := LocalReceives(0), w.toLocal[0];
    ExcessLaw(w, p, m, x);
    MoveKeepsAllSent(w, p, m);
    if Expected(w.local, y.dest, y.responseId) {
      AcknowledgeKeepsState(w.local, y.dest, 0);
    }
  }

  /** Deliver what is on its way back: the session ends, or the excess is still there. */
  lemma {:induction false} DeliverAll(w: World, p: Params, x: Exchange) returns (moves: seq<Move>, w': World)
    requires Poised(w, x)
    ensures (forall m :: m in moves ==> PeerMove(m)) && Reaches(w, p, moves, w')
    ensures w'.local.state.Terminating? || (Poised(w', x) && w'.toLocal == [])
    decreases |w.toLocal|
  {
    hide Advance, Poised;
    if w.toLocal == [] {
      return [], w;
    }
    var m := LocalReceives(0);
    DeliveryIsDecisive(w, p, x);
    var next := Advance(w, m, p);
    if next.local.state.Terminating? {
      assert [m][1..] == [];
      return [m], next;
    }
    var rest, end := DeliverAll(next, p, x);
    assert ([m] + rest)[1..] == rest;
    return [m] + rest, end;
  }

  /** Let the peer take every request that is on its way. */
  lemma {:induction false} TakeAll(w: World, p: Params, x: Exchange) returns (moves: seq<Move>, w': World)
    requires Poised(w, x)
    ensures (forall m :: m in moves ==> PeerMove(m)) && Reaches(w, p, moves, w')
    ensures Poised(w', x) && w'.toPeer == [] && w'.toLocal == w.toLocal && w'.local == w.local
    decreases |w.toPeer|
  {
    if w.toPeer == [] {
      return [], w;
    }
    var next := Advance(w, PeerReceives, p);
    PeerMovesNothingAway(w, p, PeerReceives, x);
    assert next.toPeer == w.toPeer[1..] && next.toLocal == w.toLocal;
    hide Advance, Poised, PeerMove;
    assert Poised(next, x) && PeerMove(PeerReceives) by {
      SamePoise(w, next, x);
    }
    var rest, end := TakeAll(next, p, x);
    assert ([PeerReceives] + rest)[1..] == rest;
    return [PeerReceives] + rest, end;
  }

  /** Answer one copy of x and deliver it. */
  lemma AnswerOne(w: World, p: Params, x: Exchange) returns (moves: seq<Move>, w': World)
    requires Poised(w, x) && w.toPeer == [] && w.toLocal == []
    ensures (forall m :: m in moves ==> PeerMove(m)) && Reaches(w, p, moves, w')
    ensures if Expected(w.local, x.dest, x.responseId)
            then Poised(w', x) && w'.toLocal == [] && w'.local == Acknowledge(w.local, x.dest, 0)
            else w'.local.state.Terminating?
  {
    assert x in w.owed by {
      assert multiset(w.owed)[x] > 0;
    }
    var k :| 0 <= k < |w.owed| && w.owed[k] == x;
    var answer, deliver := PeerAnswers(k), LocalReceives(0);
    var next := Advance(w, answer, p);
    PeerMovesNothingAway(w, p, answer, x);
    assert next.toLocal == [x];
    SamePoise(w, next, x);
    DeliveryIsDecisive(next, p, x);
    assert [answer, deliver][1..] == [deliver] && [deliver][1..] == [];
    hide Advance, Poised;
    var end := Advance(next, deliver, p);
    assert Reaches(next, p, [deliver], end);
    return [answer, deliver], end;
  }

  lemma QueueShrinks(s: Session, d: Mac, now: int)
    requires d in s.queues && s.queues[d] != []
    ensures |Queue(Acknowledge(s, d, now), d)| < |Queue(s, d)|
  {
  }

  /** One copy after the other, each uses up a queue entry or ends the session. */
  lemma {:induction false} AnswerUntilEnd(w: World, p: Params, x: Exchange) returns (moves: seq<Move>, w': World)
    requires Poised(w, x) && w.toPeer == [] && w.toLocal == []
    ensures Ends(w, p, moves, w')
    decreases |Queue(w.local, x.dest)|
  {
    hide Poised, PeerMove, Reaches;
    var a, w1 := AnswerOne(w, p, x);
    if w1.local.state.Terminating? {
      return a, w1;
    }
    QueueShrinks(w.local, x.dest, 0);
    var b, w2 := TakeAll(w1, p, x);
    var c, w3 := AnswerUntilEnd(w2, p, x);
    ReachesOn(w1, p, b, w2, c, w3);
    ReachesOn(w, p, a, w1, b + c, w3);
    return a + (b + c), w3;
  }

  lemma ExcessCanEnd(w: World, p: Params, x: Exchange)
    requires Poised(w, x)
    ensures CanEnd(w, p)
  {
    hide Poised, PeerMove, Reaches;
    var a, w1 := DeliverAll(w, p, x);
    if w1.local.state.Terminating? {
      assert Ends(w, p, a, w1);
    } else {
      var b, w2 := TakeAll(w1, p, x);
      var c, w3 := AnswerUntilEnd(w2, p, x);
      ReachesOn(w1, p, b, w2, c, w3);
      ReachesOn(w, p, a, w1, b + c, w3);
      assert Ends(w, p, a + (b + c), w3);
    }
  }

  lemma {:induction false} PeerMovesAreTimely(w: World, p: Params, moves: seq<Move>, w': World)
    requires Reaches(w, p, moves, w') && forall m :: m in moves ==> PeerMove(m)
    ensures AllTimely(w, p, moves)
    decreases |moves|
  {
    hide Advance, Enabled;
    if moves != [] {
      assert moves[0] in moves && forall m :: m in moves[1..] ==> m in moves;
      PeerMovesAreTimely(Advance(w, moves[0], p), p, moves[1..], w');
    }
  }

  lemma NoExcessIsInStep(w: World)
    requires Sound(w) && forall x :: Excess(w, x) <= 0
    ensures InStep(w)
  {
    hide InTransit, Awaited;
    forall x
      ensures InTransit(w)[x] == if Awaited(w.local, x) then 1 else 0
    {
      assert Excess(w, x) == 0;
    }
  }

  /**
   Where everything awaited is in transit and every head was sent, the peer can end the session
   exactly if there is an excess.
   */
  lemma CanEndExactly(w: World, p: Params)
    requires QueuesOk(w.local) && Sound(w) && AllSent(w.local) && !w.local.state.Terminating?
    ensures CanEnd(w, p) <==> exists x :: Excess(w, x) > 0
  {
    if x :| Excess(w, x) > 0 {
      ExcessCanEnd(w, p, x);
    } else if CanEnd(w, p) {
      var moves, w' :| Ends(w, p, moves, w');
      assert forall x :: Excess(w, x) <= 0;
      NoExcessIsInStep(w);
      PeerMovesAreTimely(w, p, moves, w');
      RunInStep(w, p, moves, w');
    }
  }

  /**
   So in every reachable world of a session that has not ended and lost no interest, the peer can
   end it, by answering each request once, exactly if some exchange was sent again more often than
   its responses were wasted.
   */
  lemma PeerCanEndExactly(p: Params, start: int, moves: seq<Move>, w: World)
    requires Reaches(Quiet(start), p, moves, w) && !w.local.state.Terminating?
    requires forall m :: m in moves ==> !m.LocalShuns?
    ensures CanEnd(w, p) <==>
            exists x :: TotalResent(Quiet(start), p, moves, x) > TotalWasted(Quiet(start), p, moves, x)
  {
    hide QueuesOk, Sound, AllSent, CanEnd, Excess, Reaches;
    QuietIsSound(start);
    RunKeepsAllSent(Quiet(start), p, moves, w);
    CanEndExactly(w, p);
    forall x {
      ExcessIsWhatWasSentAgain(p, start, moves, w, x);
    }
    if x :| Excess(w, x) > 0 {
      assert TotalResent(Quiet(start), p, moves, x) > TotalWasted(Quiet(start), p, moves, x);
    }
    if x :| TotalResent(Quiet(start), p, moves, x) > TotalWasted(Quiet(start), p, moves, x) {
      assert Excess(w, x) > 0;
    }
  }

  lemma QuietIsSound(start: int)
    ensures QueuesOk(Quiet(start).local) && Sound(Quiet(start)) && AllSent(Quiet(start).local)
  {
  }

  // ---- Why every head must have been sent

  /** Two messages with the same response, the first sent twice and answered twice, then a loss of interest. */
  function Absorbing(d: Mac, responseId: u32): World {
    var first := Pending(0, responseId, d, [], 0, 2);
    var second := Pending(1, responseId, d, [], 0, 0);
    var x := Exchange(d, responseId);
    World(Session(map[d := [first, second]], {d}, InSession, 2, 0, 0, []), [], [], [x, x])
  }

  /** There is an excess, yet the peer cannot end the session: the second answer is taken for the second message. */
  lemma UnsentHeadAbsorbsAnExcess(p: Params, d: Mac, responseId: u32)
    ensures var w := Absorbing(d, responseId);
            Sound(w) && QueuesOk(w.local) && Excess(w, Exchange(d, responseId)) == 1 && !CanEnd(w, p)
  {
    var w, x := Absorbing(d, responseId), Exchange(d, responseId);
    assert InTransit(w) == multiset{x, x};
    if moves, w' :| Ends(w, p, moves, w') {
      BothAbsorbed(p, d, responseId, moves, w');
    }
  }

  lemma BothAbsorbed(p: Params, d: Mac, responseId: u32, moves: seq<Move>, w': World)
    requires (forall m :: m in moves ==> PeerMove(m)) && Reaches(Absorbing(d, responseId), p, moves, w')
    ensures !w'.local.state.Terminating?
  {
    var w, x := Absorbing(d, responseId), Exchange(d, responseId);
    if moves != [] {
      var m := moves[0];
      assert m in moves && m.LocalReceives?;
      OneAbsorbed(w, p, m.now);
      var w1 := Advance(w, m, p);
      if |moves| > 1 {
        var m1 := moves[1];
        assert m1 in moves && moves[1..][0] == m1 && Enabled(w1, m1, p) && m1.LocalReceives?;
        OneAbsorbed(w1, p, m1.now);
        var w2 := Advance(w1, m1, p);
        assert moves[1..][1..] == moves[2..];
        assert |moves| > 2 ==> moves[2] in moves && moves[2..][0] == moves[2];
        NothingToDo(w2, p, moves[2..], w');
      }
    }
  }

  lemma NothingToDo(w: World, p: Params, moves: seq<Move>, w': World)
    requires w.toPeer == [] && w.owed == [] && w.toLocal == []
    requires (moves == [] || PeerMove(moves[0])) && Reaches(w, p, moves, w')
    ensures w' == w
  {
  }

  /** A response to the head of a shunned queue is taken without anything being sent. */
  lemma OneAbsorbed(w: World, p: Params, now: int)
    requires w.toPeer == [] && w.owed == [] && w.toLocal != []
    requires Expected(w.local, w.toLocal[0].dest, w.toLocal[0].responseId)
    requires w.toLocal[0].dest in w.local.notInterested && !w.local.state.Terminating?
    ensures var w' := Advance(w, LocalReceives(now), p);
            && w'.toPeer == [] && w'.owed == [] && w'.toLocal == w.toLocal[1..]
            && w'.local.notInterested == w.local.notInterested && !w'.local.state.Terminating?
            && Queue(w'.local, w.toLocal[0].dest) == Queue(w.local, w.toLocal[0].dest)[1..]
  {
    var d := w.toLocal[0].dest;
    var acked := Acknowledged(d, w.local.queues[d][0].serial);
    var s' := Acknowledge(w.local, d, now);
    assert s'.log[|w.local.log|..] == [acked];
    RequestsOfFew(acked, acked);
  }
}
