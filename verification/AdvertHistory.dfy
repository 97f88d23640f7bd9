/**
 What the advertisement table knows of a radio (DestAdvert.cpp, DlepServiceImpl.cpp), from the
 history of events: when it is known, up, heard last and with which items, how long it is kept
 without being heard, and what that means for the destinations it advertises.
 */
module AdvertHistory {
  import opened Serialize
  import opened ProtocolConfig
  import opened DataItem
  import opened InfoBase
  import opened Advertisement
  import opened History

  /** A purge forgets a placeholder held for too long, and any entry not heard for some of its report intervals. */
  predicate Forgets(entry: Entry, e: Event) {
    e.PurgeTick? &&
    var age := e.now - entry.timestamp;
    || (e.hold > 0 && entry.placeholder && entry.up && age >= e.hold)
    || (e.expire > 0 && age >= e.expire * entry.info.reportInterval % 0x1_0000_0000)
  }

  predicate Lost(n: Node, rf: Mac, e: Event) {
    rf in n.table && Forgets(n.table[rf], e)
  }

  /** Does an event speak of a radio as heard, up or updated? */
  predicate Concerns(e: Event, rf: Mac) {
    match e
    case Heard(_, r, _) => r == rf
    case Up(_, r, _) => r == rf
    case Update(r, _, _) => r == rf
    case Down(r, _) => r == rf
    case PurgeTick(_, _, _) => false
  }

  /** A radio is known once it is heard or brought up, until a purge forgets it. */
  lemma KnownStep(cfg: Config, n: Node, e: Event, rf: Mac)
    ensures rf in Step(cfg, n, e).table <==>
            (Concerns(e, rf) && (e.Heard? || e.Up?)) || (rf in n.table && !Lost(n, rf, e))
  {
    hide Publish, Refresh, Withdrawn;
  }

  /** What one event makes of the entry of a radio. */
  lemma EntryStep(cfg: Config, n: Node, e: Event, rf: Mac)
    requires rf in Step(cfg, n, e).table
    ensures var t := Step(cfg, n, e).table[rf];
            && (Concerns(e, rf) && e.Heard? ==> t.timestamp == e.now && t.info == e.info)
            && (Concerns(e, rf) && (e.Up? || e.Update?) ==> t.items == e.items)
            && (Concerns(e, rf) && e.Up? ==> t.up)
            && (Concerns(e, rf) && e.Down? ==> !t.up)
            && (rf in n.table ==>
                  var s := n.table[rf];
                  && t.placeholder == s.placeholder
                  && (!(Concerns(e, rf) && e.Heard?) ==> t.timestamp == s.timestamp && t.info == s.info)
                  && (!(Concerns(e, rf) && (e.Up? || e.Update?)) ==> t.items == s.items)
                  && (!(Concerns(e, rf) && (e.Up? || e.Down?)) ==> t.up == s.up))
            && (rf !in n.table && e.Heard? ==> !t.up && !t.placeholder && t.items == [])
            && (rf !in n.table && e.Up? ==> t.placeholder && t.timestamp == e.now && t.info == Advert(0, {}))
  {
    hide Publish, Refresh, Withdrawn;
  }

  // ---- Over a run

  ghost function Makes(rf: Mac): (seq<Event>, Event) -> bool {
    (front, e: Event) => Concerns(e, rf) && (e.Heard? || e.Up?)
  }

  ghost function Loses(cfg: Config, rf: Mac): (seq<Event>, Event) -> bool {
    (front, e: Event) => Lost(Run(cfg, front), rf, e)
  }

  ghost function BringsUp(rf: Mac): (seq<Event>, Event) -> bool {
    (front, e: Event) => Concerns(e, rf) && e.Up?
  }

  ghost function TakesDown(cfg: Config, rf: Mac): (seq<Event>, Event) -> bool {
    (front, e: Event) => (Concerns(e, rf) && e.Down?) || Lost(Run(cfg, front), rf, e)
  }

  /** Heard at a time with an advertisement; a placeholder counts as heard when it is made, with nothing. */
  ghost function HearsAs(cfg: Config, rf: Mac, now: int, info: Advert): (seq<Event>, Event) -> bool {
    (front, e: Event) =>
      || e == Heard(now, rf, info)
      || (Concerns(e, rf) && e.Up? && rf !in Run(cfg, front).table && e.now == now && info == Advert(0, {}))
  }

  ghost function HearsAnew(cfg: Config, rf: Mac): (seq<Event>, Event) -> bool {
    (front, e: Event) => (Concerns(e, rf) && e.Heard?) || Lost(Run(cfg, front), rf, e)
  }

  ghost function GivesItems(cfg: Config, rf: Mac, items: seq<Item>): (seq<Event>, Event) -> bool {
    (front, e: Event) =>
      || (Concerns(e, rf) && (e.Up? || (e.Update? && rf in Run(cfg, front).table)) && e.items == items)
      || (Concerns(e, rf) && e.Heard? && rf !in Run(cfg, front).table && items == [])
  }

  ghost function TakesItems(cfg: Config, rf: Mac): (seq<Event>, Event) -> bool {
    (front, e: Event) => (Concerns(e, rf) && (e.Up? || e.Update?)) || Lost(Run(cfg, front), rf, e)
  }

  /** Over any run a radio is known exactly if it was heard or brought up and no purge forgot it since. */
  lemma {:induction false} KnownExactly(cfg: Config, events: seq<Event>, rf: Mac)
    ensures rf in Run(cfg, events).table <==> Stands(events, Makes(rf), Loses(cfg, rf))
  {
    hide Stands, Step, Lost;
    if events == [] {
      NothingStands(Makes(rf), Loses(cfg, rf));
    } else {
      var front, last := events[..|events| - 1], events[|events| - 1];
      assert events == front + [last];
      KnownExactly(cfg, front, rf);
      StandsStep(front, last, Makes(rf), Loses(cfg, rf));
      KnownStep(cfg, Run(cfg, front), last, rf);
    }
  }

  lemma LostAlone(n: Node, rf: Mac, e: Event)
    ensures Lost(n, rf, e) ==> rf in n.table && !Concerns(e, rf)
  {
  }

  /** And up exactly if the client brought it up, and neither took it down nor was it forgotten since. */
  lemma {:induction false} UpExactly(cfg: Config, events: seq<Event>, rf: Mac)
    ensures rf in Run(cfg, events).table && Run(cfg, events).table[rf].up <==>
            Stands(events, BringsUp(rf), TakesDown(cfg, rf))
  {
    hide Stands, Step, Lost, Concerns;
    if events == [] {
      NothingStands(BringsUp(rf), TakesDown(cfg, rf));
    } else {
      var front, last := events[..|events| - 1], events[|events| - 1];
      assert events == front + [last];
      var n := Run(cfg, front);
      UpExactly(cfg, front, rf);
      StandsStep(front, last, BringsUp(rf), TakesDown(cfg, rf));
      KnownStep(cfg, n, last, rf);
      LostAlone(n, rf, last);
      if rf in Step(cfg, n, last).table {
        EntryStep(cfg, n, last, rf);
      }
    }
  }

  /** Its time and advertisement are those of the last time it was heard, or made as a placeholder. */
  lemma {:induction false} HeardExactly(cfg: Config, events: seq<Event>, rf: Mac, now: int, info: Advert)
    ensures rf in Run(cfg, events).table && Run(cfg, events).table[rf].timestamp == now
            && Run(cfg, events).table[rf].info == info <==>
            Stands(events, HearsAs(cfg, rf, now, info), HearsAnew(cfg, rf))
  {
    hide Stands, Step, Lost;
    if events == [] {
      NothingStands(HearsAs(cfg, rf, now, info), HearsAnew(cfg, rf));
    } else {
      var front, last := events[..|events| - 1], events[|events| - 1];
      assert events == front + [last];
      var n := Run(cfg, front);
      HeardExactly(cfg, front, rf, now, info);
      StandsStep(front, last, HearsAs(cfg, rf, now, info), HearsAnew(cfg, rf));
      KnownStep(cfg, n, last, rf);
      LostAlone(n, rf, last);
      if rf in Step(cfg, n, last).table {
        EntryStep(cfg, n, last, rf);
      }
    }
  }

  /** Its items are those the client gave last, while it was known. */
  lemma {:induction false} ItemsExactly(cfg: Config, events: seq<Event>, rf: Mac, items: seq<Item>)
    ensures rf in Run(cfg, events).table && Run(cfg, events).table[rf].items == items <==>
            Stands(events, GivesItems(cfg, rf, items), TakesItems(cfg, rf))
  {
    hide Stands, Step, Lost;
    if events == [] {
      NothingStands(GivesItems(cfg, rf, items), TakesItems(cfg, rf));
    } else {
      var front, last := events[..|events| - 1], events[|events| - 1];
      assert events == front + [last];
      var n := Run(cfg, front);
      ItemsExactly(cfg, front, rf, items);
      StandsStep(front, last, GivesItems(cfg, rf, items), TakesItems(cfg, rf));
      KnownStep(cfg, n, last, rf);
      LostAlone(n, rf, last);
      if rf in Step(cfg, n, last).table {
        EntryStep(cfg, n, last, rf);
      }
    }
  }

  // ---- How long a radio that is not heard again is kept

  /** A purge leaves a radio heard at t alone: entries do not expire, or it is not silent for long enough. */
  predicate Outlasts(t: int, info: Advert, e: Event) {
    e.PurgeTick? ==> e.expire == 0 || e.now - t < e.expire * info.reportInterval % 0x1_0000_0000
  }

  /** Nothing in a run is that radio being heard, and its entry is no placeholder or there is no hold interval. */
  predicate Silent(placeholder: bool, rf: Mac, events: seq<Event>) {
    forall e :: e in events ==> !(e.Heard? && e.rf == rf) && (placeholder && e.PurgeTick? ==> e.hold == 0)
  }

  /** The radio is known at every point of a run that continues another. */
  ghost predicate KnownThroughout(cfg: Config, before: seq<Event>, events: seq<Event>, rf: Mac) {
    forall k :: 0 <= k <= |events| ==> rf in Run(cfg, before + events[..k]).table
  }

  lemma KnownThroughoutStep(cfg: Config, before: seq<Event>, front: seq<Event>, last: Event, rf: Mac)
    ensures KnownThroughout(cfg, before, front + [last], rf) <==>
            KnownThroughout(cfg, before, front, rf) && rf in Run(cfg, before + front + [last]).table
  {
    hide Run;
    var events := front + [last];
    assert forall k :: 0 <= k <= |front| ==> front[..k] == events[..k];
    assert events[..|events|] == events && before + events == before + front + [last];
  }

  /** What a run leaves of an entry that it neither hears again nor loses. */
  ghost predicate Untouched(n: Node, rf: Mac, t: int, info: Advert, placeholder: bool) {
    && rf in n.table
    && n.table[rf].timestamp == t && n.table[rf].info == info && n.table[rf].placeholder == placeholder
  }

  lemma UntouchedStep(cfg: Config, n: Node, e: Event, rf: Mac, t: int, info: Advert, placeholder: bool)
    requires Untouched(n, rf, t, info, placeholder) && Silent(placeholder, rf, [e])
    ensures rf in Step(cfg, n, e).table <==> Outlasts(t, info, e)
    ensures Outlasts(t, info, e) ==> Untouched(Step(cfg, n, e), rf, t, info, placeholder)
  {
    hide Step;
    assert e in [e];
    KnownStep(cfg, n, e, rf);
    if rf in Step(cfg, n, e).table {
      EntryStep(cfg, n, e, rf);
    }
  }

  lemma {:induction false} KeptWhileSilent(cfg: Config, before: seq<Event>, events: seq<Event>, rf: Mac,
                                           t: int, info: Advert, placeholder: bool)
    requires Untouched(Run(cfg, before), rf, t, info, placeholder) && Silent(placeholder, rf, events)
    ensures KnownThroughout(cfg, before, events, rf) <==> forall e :: e in events ==> Outlasts(t, info, e)
    ensures KnownThroughout(cfg, before, events, rf) ==> Untouched(Run(cfg, before + events), rf, t, info, placeholder)
  {
    hide Step, Outlasts, Untouched, KnownThroughout;
    if events == [] {
      assert before + [] == before;
      assert KnownThroughout(cfg, before, [], rf) by {
        NothingAfter(cfg, before, rf, t, info, placeholder);
      }
    } else {
      var front, last := events[..|events| - 1], events[|events| - 1];
      assert events == front + [last];
      KeptWhileSilent(cfg, before, front, rf, t, info, placeholder);
      KnownThroughoutStep(cfg, before, front, last, rf);
      var all := before + front + [last];
      assert all[..|all| - 1] == before + front && all == before + events;
      if KnownThroughout(cfg, before, front, rf) {
        assert last in events;
        UntouchedStep(cfg, Run(cfg, before + front), last, rf, t, info, placeholder);
      }
    }
  }

  lemma NothingAfter(cfg: Config, before: seq<Event>, rf: Mac, t: int, info: Advert, placeholder: bool)
    requires Untouched(Run(cfg, before), rf, t, info, placeholder)
    ensures KnownThroughout(cfg, before, [], rf)
  {
    assert before + [][..0] == before;
  }

  /**
   A radio heard at t and then no more is known exactly as long as every purge comes before so
   many of its report intervals as entries may miss are over, whatever the client does meanwhile.
   (Its entry is not one that the client made, or there is no hold interval.)
   */
  lemma HeardRadioIsKeptExactly(cfg: Config, before: seq<Event>, t: int, rf: Mac, info: Advert, events: seq<Event>)
    requires Silent(rf in Run(cfg, before).table && Run(cfg, before).table[rf].placeholder, rf, events)
    ensures KnownThroughout(cfg, before + [Heard(t, rf, info)], events, rf) <==>
            forall e :: e in events && e.PurgeTick? ==>
              e.expire == 0 || e.now - t < e.expire * info.reportInterval % 0x1_0000_0000
  {
    hide Step, Run, KnownThroughout;
    var n := Run(cfg, before);
    var heard := Heard(t, rf, info);
    RunOneMore(cfg, before, heard);
    KnownStep(cfg, n, heard, rf);
    EntryStep(cfg, n, heard, rf);
    KeptWhileSilent(cfg, before + [heard], events, rf, t, info, rf in n.table && n.table[rf].placeholder);
  }

  lemma RunOneMore(cfg: Config, front: seq<Event>, last: Event)
    ensures Run(cfg, front + [last]) == Step(cfg, Run(cfg, front), last)
  {
    assert (front + [last])[..|front|] == front;
  }

  /** And as long as it is known and up, and no longer, the destinations of its own that it advertises are published. */
  lemma PublishedExactly(cfg: Config, owner: map<Mac, Mac>, events: seq<Event>, rf: Mac, mac: Mac)
    requires WellBehaved(cfg, owner, events) && mac in owner && owner[mac] == rf
    ensures var n := Run(cfg, events);
            mac in n.local <==> rf in n.table && n.table[rf].up && mac in n.table[rf].info.destinations
  {
    hide Run, WellBehaved;
    AgreementIsKeptOverRuns(cfg, owner, events);
    var n := Run(cfg, events);
    assert mac in n.local.Keys <==> mac in Published(n.table);
  }

  // ---- What is published, and what the client is told

  /** The items with which an event publishes new destinations. */
  function NewItems(n: Node, e: Event): seq<Item> {
    match e
    case Up(_, _, items) => items
    case Heard(_, rf, _) => if rf in n.table then n.table[rf].items else []
    case _ => []
  }

  /**
   What is published for a destination: new ones get the items of their radio, an update reaches
   every published destination of a radio that is up, and nothing else changes.
   */
  lemma DestinationExactly(cfg: Config, n: Node, e: Event, mac: Mac)
    requires mac in Step(cfg, n, e).local
    ensures Step(cfg, n, e).local[mac] ==
            if mac !in n.local then NewDestination(cfg, NewItems(n, e))
            else if e.Update? && e.rf in n.table && n.table[e.rf].up && mac in n.table[e.rf].info.destinations then
              UpdateDestination(cfg, n.local[mac], e.items)
            else n.local[mac]
  {
    hide NewDestination, UpdateDestination, Withdrawn;
  }

  /**
   The client is told that a radio exists exactly if it is up already, and that one does not exist
   exactly if neither the table nor a peer knows it (for a down, nor the local node), or if
   something that the radio advertises was not published.
   */
  lemma StatusesExactly(cfg: Config, n: Node, now: int, rf: Mac, items: seq<Item>, atPeer: bool)
    ensures ClientUp(cfg, n, now, rf, items).1 ==
            if rf in n.table && n.table[rf].up then DestinationExists else Success
    ensures ClientUpdate(cfg, n, rf, items, atPeer).1 ==
            if rf in n.table || atPeer then Success else DestinationDoesNotExist
    ensures ClientDown(n, rf, atPeer).1 == DestinationDoesNotExist <==>
            if rf !in n.table then rf !in n.local && !atPeer
            else n.table[rf].up && exists mac :: mac in n.table[rf].info.destinations && mac !in n.local
    ensures ClientDown(n, rf, atPeer).1 != DestinationExists
  {
  }
}
