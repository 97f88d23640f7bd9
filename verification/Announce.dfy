/**
 A modem's answers to a router's Destination Announce (Peer.cpp, sections 12.13 and 12.14 of
 RFC 8175).  An announce is answered at once when the modem publishes the destination or refuses
 it; otherwise the answer is owed until the destination comes up.  Destination Up from an older
 router is handled alike, so a response is identified by its message id.
 */
module Announce {
  import opened Wrappers
  import opened Serialize
  import opened ProtocolConfig
  import opened DataItem
  import opened InfoBase

  const SUCCESS := "Success"
  const INVALID_MESSAGE := "Invalid_Message"

  datatype Sent =
    | Response(mac: Mac, responseId: u32)
    | Refusal(mac: Mac, responseId: u32, status: string)
    | DestinationUp(mac: Mac)
    | DestinationDown(mac: Mac)
    | DownResponse(mac: Mac)

  /** The local node's destinations, the router's, what it is not interested in, and what was sent to it. */
  datatype Side = Side(
    local: map<Mac, Destination>,
    peer: map<Mac, Destination>,
    notInterested: set<Mac>,
    sent: seq<Sent>)

  /** The response a destination of the router is owed, if any. */
  function Owed(s: Side, mac: Mac): Option<u32> {
    if mac in s.peer then s.peer[mac].needsResponse else None
  }

  function Owe(s: Side, mac: Mac, responseId: Option<u32>): Side {
    if mac in s.peer then s.(peer := s.peer[mac := s.peer[mac].(needsResponse := responseId)]) else s
  }

  /** A message that expects a response is dropped if the router is not interested in its destination. */
  function Tell(s: Side, message: Sent): Side {
    if message.mac in s.notInterested then s else s.(sent := s.sent + [message])
  }

  /** Tell the router a destination is up: the owed response, or a Destination Up of its own. */
  function TellUp(s: Side, mac: Mac): Side {
    match Owed(s, mac)
    case Some(id) => Owe(s, mac, None).(sent := s.sent + [Response(mac, id)])
    case None => Tell(s, Sent.DestinationUp(mac))
  }

  function HandleAnnounce(cfg: Config, s: Side, mac: Mac, id: u32, items: seq<Item>, clientStatus: string): Side {
    if mac in s.peer then s.(sent := s.sent + [Refusal(mac, id, INVALID_MESSAGE)])
    else
      var stored := s.(notInterested := s.notInterested - {mac}, peer := s.peer[mac := NewDestination(cfg, items)]);
      if mac in s.local then TellUp(Owe(stored, mac, Some(id)), mac)
      else if clientStatus == "" || clientStatus == SUCCESS then Owe(stored, mac, Some(id))
      else stored.(sent := s.sent + [Refusal(mac, id, clientStatus)])
  }

  /** The router takes a destination down, or says it does not care for one of ours. */
  function HandleDown(s: Side, mac: Mac): Side {
    if mac in s.peer then s.(peer := s.peer - {mac}, sent := s.sent + [DownResponse(mac)])
    else if mac in s.local then
      s.(notInterested := s.notInterested + {mac}, sent := s.sent + [DownResponse(mac)])
    else s
  }

  /** `ToldAgain` is a destination's turn when a session initialisation tells the router everything. */
  datatype Event =
    | Announced(mac: Mac, responseId: u32, items: seq<Item>, clientStatus: string)
    | RouterDown(mac: Mac)
    | LocalUp(mac: Mac, items: seq<Item>)
    | LocalDown(mac: Mac)
    | ToldAgain(mac: Mac)
    | ClientRemoves(mac: Mac)

  function Step(cfg: Config, s: Side, event: Event): Side {
    match event
    case Announced(mac, id, items, clientStatus) => HandleAnnounce(cfg, s, mac, id, items, clientStatus)
    case RouterDown(mac) => HandleDown(s, mac)
    case LocalUp(mac, items) =>
      if mac in s.local then s else TellUp(s.(local := s.local[mac := NewDestination(cfg, items)]), mac)
    case LocalDown(mac) =>
      if mac !in s.local then s
      else Tell(s.(local := s.local - {mac}), Sent.DestinationDown(mac))
    case ToldAgain(mac) => if mac in s.local then TellUp(s, mac) else s
    case ClientRemoves(mac) =>
      if mac !in s.peer then s
      else Tell(s.(peer := s.peer - {mac}), Sent.DestinationDown(mac))
  }

  function Run(cfg: Config, s: Side, events: seq<Event>): Side {
    if events == [] then s else Step(cfg, Run(cfg, s, events[..|events| - 1]), events[|events| - 1])
  }

  // ---- Conservation

  /** How many announces of a destination that ask for this response were handled. */
  ghost function Handled(events: seq<Event>, mac: Mac, id: u32): nat {
    if events == [] then 0
    else
      var last := events[|events| - 1];
      Handled(events[..|events| - 1], mac, id)
      + if last.Announced? && last.mac == mac && last.responseId == id then 1 else 0
  }

  /** How many such responses were sent. */
  ghost function Answered(sent: seq<Sent>, mac: Mac, id: u32): nat {
    if sent == [] then 0
    else
      var last := sent[|sent| - 1];
      Answered(sent[..|sent| - 1], mac, id)
      + if (last.Response? || last.Refusal?) && last.mac == mac && last.responseId == id then 1 else 0
  }

  /** How many were owed when the destination was removed. */
  ghost function Cancelled(cfg: Config, s: Side, events: seq<Event>, mac: Mac, id: u32): nat {
    if events == [] then 0
    else
      var front, last := events[..|events| - 1], events[|events| - 1];
      Cancelled(cfg, s, front, mac, id)
      + if (last.RouterDown? || last.ClientRemoves?) && last.mac == mac && Owed(Run(cfg, s, front), mac) == Some(id)
        then 1 else 0
  }

  /** Nothing published is owed: it would have been answered. */
  ghost predicate OwedIsUnpublished(s: Side) {
    forall mac :: mac in s.local ==> Owed(s, mac) == None
  }

  lemma AnsweredOneMore(sent: seq<Sent>, last: Sent, mac: Mac, id: u32)
    ensures Answered(sent + [last], mac, id) == Answered(sent, mac, id) +
            if (last.Response? || last.Refusal?) && last.mac == mac && last.responseId == id then 1 else 0
  {
    assert (sent + [last])[..|sent|] == sent;
  }

  /** A new destination of the router is owed nothing yet. */
  lemma NewDestinationOwesNothing(cfg: Config, items: seq<Item>)
    ensures NewDestination(cfg, items).needsResponse == None
  {
    UpdateOwesTheSame(cfg, Destination(map[], [], None), items);
  }

  lemma {:induction false} UpdateOwesTheSame(cfg: Config, d: Destination, items: seq<Item>)
    ensures UpdateDestination(cfg, d, items).needsResponse == d.needsResponse
  {
    if items != [] {
      UpdateOwesTheSame(cfg, d, items[..|items| - 1]);
    }
  }

  /** What one event does to the balance for one response. */
  lemma StepBalances(cfg: Config, s: Side, event: Event, mac: Mac, id: u32)
    requires OwedIsUnpublished(s)
    ensures var t := Step(cfg, s, event);
            && OwedIsUnpublished(t)
            && (if Owed(s, mac) == Some(id) then 1 else 0) + Answered(s.sent, mac, id)
               + (if event.Announced? && event.mac == mac && event.responseId == id then 1 else 0)
               == (if Owed(t, mac) == Some(id) then 1 else 0) + Answered(t.sent, mac, id)
                  + if (event.RouterDown? || event.ClientRemoves?) && event.mac == mac && Owed(s, mac) == Some(id)
                    then 1 else 0
  {
    hide NewDestination, Answered;
    var t := Step(cfg, s, event);
    if |t.sent| > |s.sent| {
      assert t.sent == s.sent + [t.sent[|s.sent|]];
      AnsweredOneMore(s.sent, t.sent[|s.sent|], mac, id);
    }
    if event.Announced? {
      NewDestinationOwesNothing(cfg, event.items);
    }
  }

  /**
   Every announce handled is answered exactly once, or is still owed, or its destination was
   removed while it was owed; a destination is owed at most one response, and none once published.
   */
  lemma {:induction false} AnnouncesAreConserved(cfg: Config, s: Side, events: seq<Event>, mac: Mac, id: u32)
    requires s.peer == map[] && s.sent == []
    ensures var t := Run(cfg, s, events);
            && OwedIsUnpublished(t)
            && Handled(events, mac, id) == Answered(t.sent, mac, id) + Cancelled(cfg, s, events, mac, id)
                                           + if Owed(t, mac) == Some(id) then 1 else 0
  {
    if events != [] {
      var front, last := events[..|events| - 1], events[|events| - 1];
      hide Step, OwedIsUnpublished, Answered;
      AnnouncesAreConserved(cfg, s, front, mac, id);
      StepBalances(cfg, Run(cfg, s, front), last, mac, id);
    }
  }

  // ---- A refused announce is remembered

  /** Nothing but its removal makes the modem forget a destination of the router. */
  lemma {:induction false} StoredUntilRemoved(cfg: Config, s: Side, events: seq<Event>, mac: Mac)
    requires mac in s.peer && Owed(s, mac) == None
    requires RouterDown(mac) !in events && ClientRemoves(mac) !in events
    ensures mac in Run(cfg, s, events).peer && Owed(Run(cfg, s, events), mac) == None
  {
    if events != [] {
      hide NewDestination, Step;
      var front, last := events[..|events| - 1], events[|events| - 1];
      assert forall e :: e in front ==> e in events;
      StoredUntilRemoved(cfg, s, front, mac);
      assert last in events;
      OwedIsKept(cfg, Run(cfg, s, front), last, mac);
    }
  }

  /** A stored destination stays stored, and owed what it was unless it comes up. */
  lemma OwedIsKept(cfg: Config, s: Side, event: Event, mac: Mac)
    requires mac in s.peer && event != RouterDown(mac) && event != ClientRemoves(mac)
    ensures var t := Step(cfg, s, event);
            && mac in t.peer
            && Owed(t, mac) in {Owed(s, mac), None}
            && (mac !in s.local && !(event.LocalUp? && event.mac == mac) ==>
                  mac !in t.local && Owed(t, mac) == Owed(s, mac))
  {
    hide NewDestination;
  }

  /**
   The destination is stored before the client is asked, so once a client has refused an
   announce every later one is refused as invalid, even if the client would now accept it and
   even if the destination has come up since, until the destination is taken down.
   */
  lemma RefusalSticks(cfg: Config, s: Side, mac: Mac, id: u32, items: seq<Item>, status: string,
                      events: seq<Event>, id': u32, items': seq<Item>, status': string)
    requires mac !in s.peer && mac !in s.local && status != "" && status != SUCCESS
    requires RouterDown(mac) !in events && ClientRemoves(mac) !in events
    ensures var refused := Step(cfg, s, Announced(mac, id, items, status));
            var t := Run(cfg, refused, events);
            && refused.sent == s.sent + [Refusal(mac, id, status)]
            && Step(cfg, t, Announced(mac, id', items', status')) ==
               t.(sent := t.sent + [Refusal(mac, id', INVALID_MESSAGE)])
  {
    NewDestinationOwesNothing(cfg, items);
    StoredUntilRemoved(cfg, Step(cfg, s, Announced(mac, id, items, status)), events, mac);
  }

  predicate Removes(event: Event, mac: Mac) {
    event == RouterDown(mac) || event == ClientRemoves(mac)
  }

  /** Some announce of the destination was not followed by its removal. */
  ghost predicate LastIsAnnounced(events: seq<Event>, mac: Mac) {
    exists i :: 0 <= i < |events| && events[i].Announced? && events[i].mac == mac
                && forall j :: i < j < |events| ==> !Removes(events[j], mac)
  }

  lemma LastIsAnnouncedStep(front: seq<Event>, last: Event, mac: Mac)
    ensures LastIsAnnounced(front + [last], mac) <==>
            (last.Announced? && last.mac == mac) || (LastIsAnnounced(front, mac) && !Removes(last, mac))
  {
    var events := front + [last];
    if last.Announced? && last.mac == mac {
      assert events[|front|] == last;
    } else if LastIsAnnounced(front, mac) && !Removes(last, mac) {
      var i :| 0 <= i < |front| && front[i].Announced? && front[i].mac == mac
               && forall j :: i < j < |front| ==> !Removes(front[j], mac);
      assert events[i] == front[i];
      forall j | i < j < |events|
        ensures !Removes(events[j], mac)
      {
        assert events[j] == if j < |front| then front[j] else last;
      }
    }
    if LastIsAnnounced(events, mac) {
      var i :| 0 <= i < |events| && events[i].Announced? && events[i].mac == mac
               && forall j :: i < j < |events| ==> !Removes(events[j], mac);
      if i < |front| {
        assert front[i] == events[i] && !Removes(events[|front|], mac);
        forall j | i < j < |front|
          ensures !Removes(front[j], mac)
        {
          assert front[j] == events[j];
        }
      }
    }
  }

  /** A destination is stored exactly if the last that was said about it was an announce, whoever refused it. */
  lemma {:induction false} StoredExactly(cfg: Config, s: Side, events: seq<Event>, mac: Mac)
    requires mac !in s.peer
    ensures mac in Run(cfg, s, events).peer <==> LastIsAnnounced(events, mac)
  {
    if events != [] {
      hide Step, LastIsAnnounced;
      var front, last := events[..|events| - 1], events[|events| - 1];
      StoredExactly(cfg, s, front, mac);
      StoredStep(cfg, Run(cfg, s, front), last, mac);
      LastIsAnnouncedStep(front, last, mac);
      assert events == front + [last];
    } else {
      assert !LastIsAnnounced([], mac);
    }
  }

  lemma StoredStep(cfg: Config, s: Side, event: Event, mac: Mac)
    ensures mac in Step(cfg, s, event).peer <==>
            (event.Announced? && event.mac == mac) || (mac in s.peer && !Removes(event, mac))
  {
    hide NewDestination;
  }

  /**
   So an announce is refused as invalid, without being stored or the client being asked, exactly
   if an earlier announce of the destination was not followed by its removal.
   */
  lemma InvalidExactly(cfg: Config, s: Side, events: seq<Event>, mac: Mac, id: u32, items: seq<Item>, status: string)
    requires mac !in s.peer
    ensures var t := Run(cfg, s, events);
            Step(cfg, t, Announced(mac, id, items, status)) == t.(sent := t.sent + [Refusal(mac, id, INVALID_MESSAGE)])
            <==> LastIsAnnounced(events, mac)
  {
    hide NewDestination, LastIsAnnounced, Run;
    StoredExactly(cfg, s, events, mac);
    StoredStep(cfg, Run(cfg, s, events), Announced(mac, id, items, status), mac);
  }

  /** An accepted announce is answered by the next local up of that destination, whatever comes between. */
  lemma AcceptedIsAnsweredWhenUp(cfg: Config, s: Side, mac: Mac, id: u32, items: seq<Item>, status: string,
                                 events: seq<Event>, items': seq<Item>)
    requires mac !in s.peer && mac !in s.local && (status == "" || status == SUCCESS)
    requires RouterDown(mac) !in events && ClientRemoves(mac) !in events
    requires forall e :: e in events ==> !(e.LocalUp? && e.mac == mac)
    ensures var t := Run(cfg, Step(cfg, s, Announced(mac, id, items, status)), events);
            Step(cfg, t, LocalUp(mac, items')).sent == t.sent + [Response(mac, id)]
  {
    StillOwed(cfg, Step(cfg, s, Announced(mac, id, items, status)), events, mac, id);
  }

  lemma {:induction false} StillOwed(cfg: Config, s: Side, events: seq<Event>, mac: Mac, id: u32)
    requires Owed(s, mac) == Some(id) && mac !in s.local
    requires RouterDown(mac) !in events && ClientRemoves(mac) !in events
    requires forall e :: e in events ==> !(e.LocalUp? && e.mac == mac)
    ensures Owed(Run(cfg, s, events), mac) == Some(id) && mac !in Run(cfg, s, events).local
  {
    if events != [] {
      hide NewDestination, Step;
      var front, last := events[..|events| - 1], events[|events| - 1];
      assert forall e :: e in front ==> e in events;
      StillOwed(cfg, s, front, mac, id);
      assert last in events;
      OwedIsKept(cfg, Run(cfg, s, front), last, mac);
    }
  }
}
