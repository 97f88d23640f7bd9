/**
 Destination advertisement (DestAdvert.cpp, DlepServiceImpl.cpp): a table of what each radio
 advertises, keyed by RF ID, and the set of destinations the local node publishes.  The table's
 entries in state up are meant to be exactly what is published.
 */
module Advertisement {
  import opened Serialize
  import opened ProtocolConfig
  import opened DataItem
  import opened InfoBase

  datatype Advert = Advert(reportInterval: u32, destinations: set<Mac>)

  /** What a placeholder entry holds until its radio is heard. */
  const NO_ADVERT := Advert(0, {})

  datatype Entry = Entry(timestamp: int, up: bool, placeholder: bool, info: Advert, items: seq<Item>)

  type Table = map<Mac, Entry>

  datatype Node = Node(table: Table, local: map<Mac, Destination>)

  datatype ReturnStatus = Success | DestinationExists | DestinationDoesNotExist

  /** Add destinations; one that is already there is left alone. */
  function Publish(cfg: Config, local: map<Mac, Destination>, macs: set<Mac>, items: seq<Item>)
    : map<Mac, Destination>
  {
    map mac | mac in local.Keys + macs :: if mac in local then local[mac] else NewDestination(cfg, items)
  }

  /** Update those of the destinations that are there. */
  function Refresh(cfg: Config, local: map<Mac, Destination>, macs: set<Mac>, items: seq<Item>)
    : map<Mac, Destination>
  {
    map mac | mac in local :: if mac in macs then UpdateDestination(cfg, local[mac], items) else local[mac]
  }

  /** An advertisement arrives: its radio's entry is made or brought up to date. */
  function Hear(cfg: Config, n: Node, now: int, rf: Mac, info: Advert): Node {
    if rf !in n.table then n.(table := n.table[rf := Entry(now, false, false, info, [])])
    else
      var e := n.table[rf];
      var local :=
        if !e.up then n.local
        else
          var was, will := e.info.destinations, info.destinations;
          Publish(cfg, n.local, will - was, e.items) - (was - will);
      Node(n.table[rf := e.(timestamp := now, info := info)], local)
  }

  /** The client says a radio is up. */
  function ClientUp(cfg: Config, n: Node, now: int, rf: Mac, items: seq<Item>): (Node, ReturnStatus) {
    if rf !in n.table then (n.(table := n.table[rf := Entry(now, true, true, NO_ADVERT, items)]), Success)
    else
      var e := n.table[rf].(items := items);
      if e.up then (n.(table := n.table[rf := e]), DestinationExists)
      else (Node(n.table[rf := e.(up := true)], Publish(cfg, n.local, e.info.destinations, items)), Success)
  }

  /** The client updates a radio; `atPeer` says whether some peer has a destination of that name. */
  function ClientUpdate(cfg: Config, n: Node, rf: Mac, items: seq<Item>, atPeer: bool): (Node, ReturnStatus) {
    if rf !in n.table then (n, if atPeer then Success else DestinationDoesNotExist)
    else
      var e := n.table[rf].(items := items);
      (Node(n.table[rf := e], if e.up then Refresh(cfg, n.local, e.info.destinations, items) else n.local), Success)
  }

  /** The client says a radio is down; a name the table does not know may be a local destination. */
  function ClientDown(n: Node, rf: Mac, atPeer: bool): (Node, ReturnStatus) {
    if rf !in n.table then
      (n.(local := n.local - {rf}),
       if rf in n.local || atPeer then Success else DestinationDoesNotExist)
    else
      var e := n.table[rf];
      if !e.up then (n, Success)
      else
        (Node(n.table[rf := e.(up := false)], n.local - e.info.destinations),
         if e.info.destinations <= n.local.Keys then Success else DestinationDoesNotExist)
  }

  /** An entry made by the client whose radio was not heard in time; a hold interval of zero is none. */
  predicate HeldTooLong(e: Entry, now: int, hold: u32) {
    hold > 0 && e.placeholder && e.up && now - e.timestamp >= hold
  }

  /** An entry not heard for some number of its report intervals, a 32-bit product. */
  predicate Expired(e: Entry, now: int, expire: u32) {
    expire > 0 && now - e.timestamp >= expire * e.info.reportInterval % 0x1_0000_0000
  }

  /** What is withdrawn with the expired entries among `rfs`; placeholders held too long withdraw nothing. */
  function Withdrawn(table: Table, rfs: set<Mac>, now: int, hold: u32, expire: u32): set<Mac> {
    set rf, mac | rf in table && rf in rfs && table[rf].up && !HeldTooLong(table[rf], now, hold)
                  && Expired(table[rf], now, expire) && mac in table[rf].info.destinations :: mac
  }

  /** The entries a purge keeps. */
  function Kept(table: Table, now: int, hold: u32, expire: u32): Table {
    map rf | rf in table && !HeldTooLong(table[rf], now, hold) && !Expired(table[rf], now, expire) :: table[rf]
  }

  function Purge(n: Node, now: int, hold: u32, expire: u32): Node {
    Node(Kept(n.table, now, hold, expire), n.local - Withdrawn(n.table, n.table.Keys, now, hold, expire))
  }

  datatype Event =
    | Heard(now: int, rf: Mac, info: Advert)
    | Up(now: int, rf: Mac, items: seq<Item>)
    | Update(rf: Mac, items: seq<Item>, atPeer: bool)
    | Down(rf: Mac, atPeer: bool)
    | PurgeTick(now: int, hold: u32, expire: u32)

  function Step(cfg: Config, n: Node, event: Event): Node {
    match event
    case Heard(now, rf, info) => Hear(cfg, n, now, rf, info)
    case Up(now, rf, items) => ClientUp(cfg, n, now, rf, items).0
    case Update(rf, items, atPeer) => ClientUpdate(cfg, n, rf, items, atPeer).0
    case Down(rf, atPeer) => ClientDown(n, rf, atPeer).0
    case PurgeTick(now, hold, expire) => Purge(n, now, hold, expire)
  }

  function Run(cfg: Config, events: seq<Event>): Node {
    if events == [] then Node(map[], map[])
    else Step(cfg, Run(cfg, events[..|events| - 1]), events[|events| - 1])
  }

  // ---- Agreement of the table with what is published

  /** The destinations of the entries in state up, but for one radio. */
  function PublishedBut(table: Table, but: set<Mac>): set<Mac> {
    set rf, mac | rf in table && rf !in but && table[rf].up && mac in table[rf].info.destinations :: mac
  }

  function Published(table: Table): set<Mac> {
    PublishedBut(table, {})
  }

  ghost predicate Agree(n: Node) {
    n.local.Keys == Published(n.table)
  }

  /** What the placeholders held too long had published. */
  function Stranded(table: Table, now: int, hold: u32): set<Mac> {
    set rf, mac | rf in table && HeldTooLong(table[rf], now, hold) && mac in table[rf].info.destinations :: mac
  }

  /**
   What a step must meet to keep the agreement: it withdraws nothing that another radio in state
   up advertises, the client names no published destination as if it were a radio, and a purge
   drops no placeholder whose destinations nobody else accounts for.
   */
  predicate Harmless(n: Node, event: Event) {
    match event
    case Heard(now, rf, info) =>
      rf in n.table && n.table[rf].up ==>
        n.table[rf].info.destinations - info.destinations !! PublishedBut(n.table, {rf})
    case Down(rf, atPeer) =>
      if rf !in n.table then rf !in n.local
      else n.table[rf].up ==> n.table[rf].info.destinations !! PublishedBut(n.table, {rf})
    case PurgeTick(now, hold, expire) =>
      var withdrawn := Withdrawn(n.table, n.table.Keys, now, hold, expire);
      var kept := Published(Kept(n.table, now, hold, expire));
      withdrawn !! kept && Stranded(n.table, now, hold) <= withdrawn + kept
    case _ => true
  }

  /** What is published, with one radio's entry set aside. */
  lemma PublishedSplits(table: Table, rf: Mac, e: Entry)
    ensures Published(table[rf := e]) == PublishedBut(table, {rf}) + if e.up then e.info.destinations else {}
    ensures rf in table ==>
              Published(table) == PublishedBut(table, {rf}) + if table[rf].up then table[rf].info.destinations else {}
    ensures rf !in table ==> Published(table) == PublishedBut(table, {rf})
  {
    var t := table[rf := e];
    forall mac | mac in PublishedBut(table, {rf})
      ensures mac in Published(t)
    {
      var r :| r in table && r !in {rf} && table[r].up && mac in table[r].info.destinations;
      assert r in t && t[r] == table[r];
    }
    forall mac | e.up && mac in e.info.destinations
      ensures mac in Published(t)
    {
      assert rf in t && t[rf] == e;
    }
    forall mac | mac in Published(t)
      ensures mac in PublishedBut(table, {rf}) || (e.up && mac in e.info.destinations)
    {
      var r :| r in t && t[r].up && mac in t[r].info.destinations;
    }
  }

  /** What a purge does to the published set: it falls into the kept, the withdrawn and the stranded. */
  lemma PublishedAtPurge(table: Table, now: int, hold: u32, expire: u32)
    ensures Published(table) == Published(Kept(table, now, hold, expire))
                                + Withdrawn(table, table.Keys, now, hold, expire) + Stranded(table, now, hold)
  {
    var kept := Kept(table, now, hold, expire);
    forall mac | mac in Published(table)
      ensures mac in Published(kept) + Withdrawn(table, table.Keys, now, hold, expire) + Stranded(table, now, hold)
    {
      var rf :| rf in table && table[rf].up && mac in table[rf].info.destinations;
      if !HeldTooLong(table[rf], now, hold) && !Expired(table[rf], now, expire) {
        assert rf in kept && kept[rf] == table[rf];
      }
    }
    forall mac | mac in Published(kept)
      ensures mac in Published(table)
    {
      var rf :| rf in kept && kept[rf].up && mac in kept[rf].info.destinations;
      assert table[rf] == kept[rf];
    }
  }

  /** From an agreeing state, a step ends in one exactly when it is harmless. */
  lemma AgreementIsKeptExactly(cfg: Config, n: Node, event: Event)
    requires Agree(n)
    ensures Agree(Step(cfg, n, event)) <==> Harmless(n, event)
  {
    hide NewDestination, UpdateDestination, PublishedBut, Published, Withdrawn, Kept, Stranded;
    match event
    case Heard(now, rf, info) =>
      PublishedSplits(n.table, rf, Hear(cfg, n, now, rf, info).table[rf]);
    case Up(now, rf, items) =>
      PublishedSplits(n.table, rf, ClientUp(cfg, n, now, rf, items).0.table[rf]);
    case Update(rf, items, atPeer) =>
      if rf in n.table {
        PublishedSplits(n.table, rf, ClientUpdate(cfg, n, rf, items, atPeer).0.table[rf]);
      }
    case Down(rf, atPeer) =>
      if rf in n.table {
        PublishedSplits(n.table, rf, n.table[rf].(up := false));
      } else {
        assert (n.local - {rf}).Keys == n.local.Keys - {rf};
      }
    case PurgeTick(now, hold, expire) =>
      PublishedAtPurge(n.table, now, hold, expire);
  }

  // ---- Whole runs

  /** Every radio advertises destinations of its own, and the client names radios only. */
  ghost predicate Permitted(owner: map<Mac, Mac>, event: Event) {
    match event
    case Heard(now, rf, info) => forall mac :: mac in info.destinations ==> mac in owner && owner[mac] == rf
    case Up(now, rf, items) => rf !in owner
    case Update(rf, items, atPeer) => rf !in owner
    case Down(rf, atPeer) => rf !in owner
    case PurgeTick(now, hold, expire) => true
  }

  ghost predicate Owned(table: Table, owner: map<Mac, Mac>) {
    forall rf, mac :: rf in table && mac in table[rf].info.destinations ==> mac in owner && owner[mac] == rf
  }

  /** None of the additions to and removals from the published set that a step makes fails. */
  predicate Smooth(n: Node, event: Event) {
    match event
    case Heard(now, rf, info) =>
      rf in n.table && n.table[rf].up ==>
        && info.destinations - n.table[rf].info.destinations !! n.local.Keys
        && n.table[rf].info.destinations - info.destinations <= n.local.Keys
    case Up(now, rf, items) =>
      rf in n.table && !n.table[rf].up ==> n.table[rf].info.destinations !! n.local.Keys
    case Update(rf, items, atPeer) =>
      rf in n.table && n.table[rf].up ==> n.table[rf].info.destinations <= n.local.Keys
    case Down(rf, atPeer) =>
      rf in n.table && n.table[rf].up ==> n.table[rf].info.destinations <= n.local.Keys
    case PurgeTick(now, hold, expire) =>
      && Withdrawn(n.table, n.table.Keys, now, hold, expire) <= n.local.Keys
      && (forall rf, rf' :: rf in n.table && rf' in n.table && rf != rf' ==>
            Withdrawn(n.table, {rf}, now, hold, expire) !! Withdrawn(n.table, {rf'}, now, hold, expire))
  }

  lemma StepKeepsOwned(cfg: Config, owner: map<Mac, Mac>, n: Node, event: Event)
    requires Owned(n.table, owner) && Permitted(owner, event)
    ensures Owned(Step(cfg, n, event).table, owner)
  {
    var t := Step(cfg, n, event).table;
    forall rf, mac | rf in t && mac in t[rf].info.destinations
      ensures mac in owner && owner[mac] == rf
    {
      if rf in n.table && t[rf].info == n.table[rf].info {
        assert mac in n.table[rf].info.destinations;
      }
    }
  }

  /** Whoever owns a destination is why it is where it is. */
  lemma OwnerIsTheReason(owner: map<Mac, Mac>, table: Table, now: int, hold: u32, expire: u32)
    requires Owned(table, owner)
    ensures forall but: set<Mac>, mac :: mac in PublishedBut(table, but) ==> mac in owner && owner[mac] !in but
    ensures forall rfs: set<Mac>, mac :: mac in Withdrawn(table, rfs, now, hold, expire) ==>
              && mac in owner && owner[mac] in rfs && owner[mac] in table
              && !HeldTooLong(table[owner[mac]], now, hold) && Expired(table[owner[mac]], now, expire)
    ensures forall mac :: mac in Stranded(table, now, hold) ==>
              mac in owner && owner[mac] in table && HeldTooLong(table[owner[mac]], now, hold)
    ensures forall mac :: mac in Published(Kept(table, now, hold, expire)) ==>
              && mac in owner && owner[mac] in table
              && !HeldTooLong(table[owner[mac]], now, hold) && !Expired(table[owner[mac]], now, expire)
  {
    forall mac | mac in Published(Kept(table, now, hold, expire))
      ensures mac in owner && owner[mac] in Kept(table, now, hold, expire)
    {
      var rf :| rf in Kept(table, now, hold, expire) && mac in table[rf].info.destinations;
    }
  }

  /** Radios with destinations of their own are harmless, except for a placeholder held too long. */
  lemma OwnersAreHarmless(owner: map<Mac, Mac>, n: Node, event: Event)
    requires Agree(n) && Owned(n.table, owner) && Permitted(owner, event)
    ensures (Harmless(n, event) <==> (event.PurgeTick? ==> Stranded(n.table, event.now, event.hold) == {}))
    ensures Smooth(n, event)
  {
    hide PublishedBut, Published, Withdrawn, Kept, Stranded, HeldTooLong, Expired;
    if event.PurgeTick? {
      PublishedAtPurge(n.table, event.now, event.hold, event.expire);
      OwnerIsTheReason(owner, n.table, event.now, event.hold, event.expire);
      forall rf, rf' | rf != rf'
        ensures Withdrawn(n.table, {rf}, event.now, event.hold, event.expire)
                !! Withdrawn(n.table, {rf'}, event.now, event.hold, event.expire)
      {
        forall mac | mac in Withdrawn(n.table, {rf}, event.now, event.hold, event.expire)
          ensures mac !in Withdrawn(n.table, {rf'}, event.now, event.hold, event.expire)
        {
          assert owner[mac] in {rf} && owner[mac] !in {rf'};
        }
      }
    } else {
      OwnerIsTheReason(owner, n.table, 0, 0, 0);
      PublishedSplits(n.table, event.rf, Entry(0, false, false, NO_ADVERT, []));
      PublishedIsAll(n.table);
      if event.rf in n.table {
        var macs := n.table[event.rf].info.destinations;
        forall mac | mac in macs
          ensures mac !in PublishedBut(n.table, {event.rf})
          ensures !n.table[event.rf].up ==> mac !in n.local.Keys
        {
          assert owner[mac] == event.rf && event.rf in {event.rf};
        }
      }
    }
  }

  lemma PublishedIsAll(table: Table)
    ensures Published(table) == PublishedBut(table, {})
  {
  }

  lemma NothingAgrees(owner: map<Mac, Mac>)
    ensures Agree(Node(map[], map[])) && Owned(map[], owner)
  {
  }

  /** The events are permitted, and no purge among them strands a placeholder. */
  ghost predicate WellBehaved(cfg: Config, owner: map<Mac, Mac>, events: seq<Event>) {
    forall k :: 0 <= k < |events| ==>
      && Permitted(owner, events[k])
      && (events[k].PurgeTick? ==> Stranded(Run(cfg, events[..k]).table, events[k].now, events[k].hold) == {})
  }

  lemma PrefixIsWellBehaved(cfg: Config, owner: map<Mac, Mac>, events: seq<Event>, n: nat)
    requires n <= |events| && WellBehaved(cfg, owner, events)
    ensures WellBehaved(cfg, owner, events[..n])
  {
    hide Run, Permitted, Stranded;
    forall k | 0 <= k < n
      ensures events[..n][k] == events[k] && events[..n][..k] == events[..k]
    {
    }
  }

  lemma {:induction false} AgreementIsKeptOverRuns(cfg: Config, owner: map<Mac, Mac>, events: seq<Event>)
    requires WellBehaved(cfg, owner, events)
    ensures Agree(Run(cfg, events)) && Owned(Run(cfg, events).table, owner)
  {
    hide Step, Harmless, Smooth, Permitted, Owned, Agree, Stranded;
    if events == [] {
      NothingAgrees(owner);
    } else {
      var last := |events| - 1;
      PrefixIsWellBehaved(cfg, owner, events, last);
      AgreementIsKeptOverRuns(cfg, owner, events[..last]);
      var n := Run(cfg, events[..last]);
      StepKeepsOwned(cfg, owner, n, events[last]);
      OwnersAreHarmless(owner, n, events[last]);
      AgreementIsKeptExactly(cfg, n, events[last]);
    }
  }

  /**
   With destinations that belong to one radio each and a client that names radios only, no
   addition or removal ever fails, and as long as no purge strands a placeholder, exactly the
   destinations of the radios in state up are published.
   */
  lemma PublishedIsWhatUpRadiosAdvertise(cfg: Config, owner: map<Mac, Mac>, events: seq<Event>)
    requires WellBehaved(cfg, owner, events)
    ensures Agree(Run(cfg, events))
    ensures forall k :: 0 <= k < |events| ==> Smooth(Run(cfg, events[..k]), events[k])
  {
    hide Run, Harmless, Smooth, Permitted, Owned, Agree, Stranded;
    AgreementIsKeptOverRuns(cfg, owner, events);
    forall k | 0 <= k < |events|
      ensures Smooth(Run(cfg, events[..k]), events[k])
    {
      PrefixIsWellBehaved(cfg, owner, events, k);
      AgreementIsKeptOverRuns(cfg, owner, events[..k]);
      OwnersAreHarmless(owner, Run(cfg, events[..k]), events[k]);
    }
  }

  /** Without a hold interval no purge strands anything, so the agreement holds over the whole run. */
  lemma WithoutHoldIntervalTheyAgree(cfg: Config, owner: map<Mac, Mac>, events: seq<Event>)
    requires forall k :: 0 <= k < |events| ==> Permitted(owner, events[k])
    requires forall k :: 0 <= k < |events| ==> events[k].PurgeTick? ==> events[k].hold == 0
    ensures Agree(Run(cfg, events))
    ensures forall k :: 0 <= k < |events| ==> Smooth(Run(cfg, events[..k]), events[k])
  {
    PublishedIsWhatUpRadiosAdvertise(cfg, owner, events);
  }

  /**
   With one, it does not: a radio the client brought up and that was then heard keeps its
   placeholder mark, so a later purge forgets its entry and leaves its destinations published.
   */
  lemma HeardPlaceholderIsStranded(cfg: Config, rf: Mac, mac: Mac, items: seq<Item>, hold: u32, interval: u32)
    requires rf != mac && hold > 0
    ensures var events := [Up(0, rf, items), Heard(1, rf, Advert(interval, {mac})), PurgeTick(1 + hold, hold, 0)];
            && (forall k :: 0 <= k < |events| ==> Permitted(map[mac := rf], events[k]))
            && Run(cfg, events).table == map[] && Run(cfg, events).local.Keys == {mac}
            && !Agree(Run(cfg, events))
  {
    hide NewDestination;
    var up, heard, purge := Up(0, rf, items), Heard(1, rf, Advert(interval, {mac})), PurgeTick(1 + hold, hold, 0);
    var n := Step(cfg, Step(cfg, Node(map[], map[]), up), heard);
    assert n.table == map[rf := Entry(1, true, true, Advert(interval, {mac}), items)] && n.local.Keys == {mac};
    assert [up, heard, purge][..2] == [up, heard] && [up, heard][..1] == [up] && [up][..0] == [];
    assert Run(cfg, []) == Node(map[], map[]);
    assert Run(cfg, [up]) == Step(cfg, Node(map[], map[]), up);
    assert Run(cfg, [up, heard]) == n;
    assert Run(cfg, [up, heard, purge]) == Step(cfg, n, purge);
  }

  /**
   A placeholder not yet heard has report interval zero, so wherever entries expire at all the
   next purge forgets it, whatever the hold interval; the client's radio must come up again.
   */
  lemma UnheardPlaceholderIsForgotten(cfg: Config, n: Node, now: int, rf: Mac, items: seq<Item>,
                                      later: int, hold: u32, expire: u32)
    requires rf !in n.table && later >= now
    ensures var purged := Step(cfg, Step(cfg, n, Up(now, rf, items)), PurgeTick(later, hold, expire));
            rf in purged.table <==> expire == 0 && (hold == 0 || later - now < hold)
  {
    assert expire * 0 % 0x1_0000_0000 == 0;
  }
}
