/**
 What a router has been told (Peer.cpp), from the history of events alone: whether a destination
 is published, stored, of no interest or owed a response follows from what happened last to it,
 and each event sends the message, if any, that this calls for.
 */
module AnnounceHistory {
  import opened Wrappers
  import opened Serialize
  import opened ProtocolConfig
  import opened DataItem
  import opened InfoBase
  import opened Announce
  import opened History

  // ---- History

  ghost function BringsUp(mac: Mac): (seq<Event>, Event) -> bool {
    (front, e: Event) => e.LocalUp? && e.mac == mac
  }

  ghost function TakesDown(mac: Mac): (seq<Event>, Event) -> bool {
    (front, e: Event) => e == LocalDown(mac)
  }

  /** The local node brought the destination up, or had it from the start, and has not taken it down since. */
  ghost predicate PublishedBy(start: set<Mac>, events: seq<Event>, mac: Mac) {
    Stands(events, BringsUp(mac), TakesDown(mac)) || (mac in start && LocalDown(mac) !in events)
  }

  ghost function LosesInterest(start: set<Mac>, mac: Mac): (seq<Event>, Event) -> bool {
    (front, e: Event) => e == RouterDown(mac) && !LastIsAnnounced(front, mac) && PublishedBy(start, front, mac)
  }

  ghost function RegainsInterest(mac: Mac): (seq<Event>, Event) -> bool {
    (front, e: Event) => e.Announced? && e.mac == mac && !LastIsAnnounced(front, mac)
  }

  /** The router took down one of our destinations and has not announced it since. */
  ghost predicate ShunnedBy(start: set<Mac>, events: seq<Event>, mac: Mac) {
    Stands(events, LosesInterest(start, mac), RegainsInterest(mac))
  }

  ghost function Asks(start: set<Mac>, mac: Mac, id: u32): (seq<Event>, Event) -> bool {
    (front, e: Event) => e.Announced? && e.mac == mac && e.responseId == id && e.clientStatus in {"", "Success"}
                  && !LastIsAnnounced(front, mac) && !PublishedBy(start, front, mac)
  }

  ghost function Settles(mac: Mac): (seq<Event>, Event) -> bool {
    (front, e: Event) => Removes(e, mac) || (e.LocalUp? && e.mac == mac)
  }

  /** The client accepted an announce, and the destination neither came up nor was removed since. */
  ghost predicate OwedBy(start: set<Mac>, events: seq<Event>, mac: Mac, id: u32) {
    Stands(events, Asks(start, mac, id), Settles(mac))
  }

  // ---- The state is what the history says

  ghost predicate Matches(s: Side, start: set<Mac>, events: seq<Event>, mac: Mac) {
    && (mac in s.local <==> PublishedBy(start, events, mac))
    && (mac in s.peer <==> LastIsAnnounced(events, mac))
    && (mac in s.notInterested <==> ShunnedBy(start, events, mac))
    && (forall id: u32 :: Owed(s, mac) == Some(id) <==> OwedBy(start, events, mac, id))
  }

  lemma PublishedStep(start: set<Mac>, front: seq<Event>, last: Event, mac: Mac)
    ensures PublishedBy(start, front + [last], mac) <==>
            (last.LocalUp? && last.mac == mac) || (PublishedBy(start, front, mac) && last != LocalDown(mac))
  {
    StandsStep(front, last, BringsUp(mac), TakesDown(mac));
  }

  /** What one event does to a destination, other than storing or removing it. */
  lemma InterestStep(cfg: Config, s: Side, e: Event, mac: Mac)
    ensures var t := Step(cfg, s, e);
            && (mac in t.local <==> (e.LocalUp? && e.mac == mac) || (mac in s.local && e != LocalDown(mac)))
            && (mac in t.notInterested <==>
                  || (e == RouterDown(mac) && mac !in s.peer && mac in s.local)
                  || (mac in s.notInterested && !(e.Announced? && e.mac == mac && mac !in s.peer)))
  {
    hide NewDestination, Owed;
  }

  /** A response comes to be owed by an accepted announce alone, and is settled by an up or a removal. */
  lemma OwedStep(cfg: Config, s: Side, e: Event, mac: Mac, id: u32)
    requires OwedIsUnpublished(s)
    ensures Owed(Step(cfg, s, e), mac) == Some(id) <==>
            || (e.Announced? && e.mac == mac && e.responseId == id && e.clientStatus in {"", "Success"}
                && mac !in s.peer && mac !in s.local)
            || (Owed(s, mac) == Some(id) && !Removes(e, mac) && !(e.LocalUp? && e.mac == mac))
  {
    hide NewDestination;
    if e.Announced? {
      NewDestinationOwesNothing(cfg, e.items);
    }
  }

  lemma MatchesStep(cfg: Config, s: Side, start: set<Mac>, front: seq<Event>, last: Event, mac: Mac)
    requires OwedIsUnpublished(s) && Matches(s, start, front, mac)
    ensures Matches(Step(cfg, s, last), start, front + [last], mac)
  {
    hide Step, OwedIsUnpublished, Stands, LastIsAnnounced, PublishedBy, Owed;
    InterestStep(cfg, s, last, mac);
    StoredStep(cfg, s, last, mac);
    PublishedStep(start, front, last, mac);
    LastIsAnnouncedStep(front, last, mac);
    StandsStep(front, last, LosesInterest(start, mac), RegainsInterest(mac));
    forall id: u32
      ensures Owed(Step(cfg, s, last), mac) == Some(id) <==> OwedBy(start, front + [last], mac, id)
    {
      OwedStep(cfg, s, last, mac, id);
      StandsStep(front, last, Asks(start, mac, id), Settles(mac));
    }
  }

  /** Nothing was said to or by the router yet. */
  predicate Fresh(s: Side) {
    s.peer == map[] && s.notInterested == {} && s.sent == []
  }

  lemma NothingHappened(s: Side, mac: Mac)
    requires Fresh(s)
    ensures Matches(s, s.local.Keys, [], mac) && OwedIsUnpublished(s)
  {
  }

  /** Over any run, for every destination: the state is what the history says. */
  lemma {:induction false} HistoryDecides(cfg: Config, s: Side, events: seq<Event>, mac: Mac)
    requires Fresh(s)
    ensures Matches(Run(cfg, s, events), s.local.Keys, events, mac) && OwedIsUnpublished(Run(cfg, s, events))
  {
    hide Matches, OwedIsUnpublished, Step;
    if events == [] {
      NothingHappened(s, mac);
    } else {
      var front, last := events[..|events| - 1], events[|events| - 1];
      assert events == front + [last];
      HistoryDecides(cfg, s, front, mac);
      MatchesStep(cfg, Run(cfg, s, front), s.local.Keys, front, last, mac);
      StepBalances(cfg, Run(cfg, s, front), last, mac, 0);
    }
  }

  /**
   A destination is kept as the message or call that brought it said, whatever else happens: an
   announced one with the announced items, a local one with the client's.
   */
  lemma DestinationsAreKept(cfg: Config, s: Side, e: Event, mac: Mac)
    ensures var t := Step(cfg, s, e);
            && (mac in t.local ==>
                  t.local[mac] == if mac in s.local then s.local[mac] else NewDestination(cfg, BroughtBy(e)))
            && (mac in t.peer ==>
                  var d := if mac in s.peer then s.peer[mac] else NewDestination(cfg, BroughtBy(e));
                  (t.peer[mac].metrics, t.peer[mac].ips) == (d.metrics, d.ips))
  {
    hide NewDestination;
  }

  function BroughtBy(e: Event): seq<Item> {
    if e.Announced? || e.LocalUp? then e.items else []
  }

  // ---- What is sent

  /** What the router is to be told when a published destination has its turn. */
  function Turn(owed: Option<u32>, shunned: bool, mac: Mac): seq<Sent> {
    match owed
    case Some(id) => [Response(mac, id)]
    case None => if shunned then [] else [Sent.DestinationUp(mac)]
  }

  /** What an event calls for, given how its destination stands. */
  function Due(published: bool, stored: bool, shunned: bool, owed: Option<u32>, e: Event): seq<Sent> {
    match e
    case Announced(mac, id, _, status) =>
      if stored then [Refusal(mac, id, "Invalid_Message")]
      else if published then [Response(mac, id)]
      else if status in {"", "Success"} then []
      else [Refusal(mac, id, status)]
    case RouterDown(mac) => if stored || published then [DownResponse(mac)] else []
    case LocalUp(mac, _) => if published then [] else Turn(owed, shunned, mac)
    case ToldAgain(mac) => if published then Turn(None, shunned, mac) else []
    case LocalDown(mac) => if published && !shunned then [Sent.DestinationDown(mac)] else []
    case ClientRemoves(mac) => if stored && !shunned then [Sent.DestinationDown(mac)] else []
  }

  /**
   One event tells the router exactly what is due: in particular a destination that comes up
   unannounced is told as a Destination Up if and only if the router has not lost interest in it.
   */
  lemma StepSendsWhatIsDue(cfg: Config, s: Side, e: Event)
    requires OwedIsUnpublished(s)
    ensures Step(cfg, s, e).sent ==
            s.sent + Due(e.mac in s.local, e.mac in s.peer, e.mac in s.notInterested, Owed(s, e.mac), e)
  {
    hide NewDestination;
    if e.Announced? {
      NewDestinationOwesNothing(cfg, e.items);
    }
  }

  /** The response that the history says is owed. */
  ghost function OwedAfter(start: set<Mac>, events: seq<Event>, mac: Mac): Option<u32> {
    if exists id: u32 :: OwedBy(start, events, mac, id) then
      var id: u32 :| OwedBy(start, events, mac, id);
      Some(id)
    else None
  }

  /** What an event calls for after a history. */
  ghost function DueAfter(start: set<Mac>, front: seq<Event>, e: Event): seq<Sent> {
    Due(PublishedBy(start, front, e.mac), LastIsAnnounced(front, e.mac), ShunnedBy(start, front, e.mac),
        OwedAfter(start, front, e.mac), e)
  }

  ghost function AllDue(start: set<Mac>, events: seq<Event>): seq<Sent> {
    if events == [] then []
    else
      var front := events[..|events| - 1];
      AllDue(start, front) + DueAfter(start, front, events[|events| - 1])
  }

  lemma OwedAfterMatches(s: Side, start: set<Mac>, events: seq<Event>, mac: Mac)
    requires Matches(s, start, events, mac)
    ensures OwedAfter(start, events, mac) == Owed(s, mac)
  {
    hide Stands, PublishedBy, LastIsAnnounced, ShunnedBy, OwedBy;
    match Owed(s, mac)
    case Some(id) => assert OwedBy(start, events, mac, id);
    case None =>
      forall id: u32
        ensures !OwedBy(start, events, mac, id)
      {
        assert Owed(s, mac) != Some(id);
      }
  }

  /** Over any run the router is told, in order, exactly what the history of each destination calls for. */
  lemma {:induction false} RouterIsToldWhatIsDue(cfg: Config, s: Side, events: seq<Event>)
    requires Fresh(s)
    ensures Run(cfg, s, events).sent == AllDue(s.local.Keys, events)
  {
    hide OwedIsUnpublished, Step, Matches, OwedAfter;
    if events != [] {
      var front, last := events[..|events| - 1], events[|events| - 1];
      var t := Run(cfg, s, front);
      RouterIsToldWhatIsDue(cfg, s, front);
      HistoryDecides(cfg, s, front, last.mac);
      StepSendsWhatIsDue(cfg, t, last);
      OwedAfterMatches(t, s.local.Keys, front, last.mac);
      MatchesMeans(t, s.local.Keys, front, last.mac);
    }
  }

  lemma MatchesMeans(s: Side, start: set<Mac>, events: seq<Event>, mac: Mac)
    requires Matches(s, start, events, mac)
    ensures mac in s.local <==> PublishedBy(start, events, mac)
    ensures mac in s.peer <==> LastIsAnnounced(events, mac)
    ensures mac in s.notInterested <==> ShunnedBy(start, events, mac)
  {
  }
}
