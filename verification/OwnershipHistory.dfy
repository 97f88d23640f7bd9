/**
 What the handlers of `IpOwnership` accept, and what that leaves (Peer.cpp): the check of an update
 in terms of who holds what, the outcome of each checked handler, and after every event exactly
 which addresses each owner holds and which destinations are known.
 */
module OwnershipHistory {
  import opened Wrappers
  import opened Serialize
  import opened ProtocolConfig
  import opened DataItem
  import opened InfoBase
  import opened IpOwnership
  import opened History

  // ---- Address items

  /** The values that are an address or a subnet with flags in front. */
  predicate IsFlagged(v: Value) {
    v.U8Ipv4? || v.U8Ipv6? || v.U8Ipv4U8? || v.U8Ipv6U8?
  }

  function WithFlags(v: Value, flags: byte): Value
    requires IsFlagged(v)
  {
    match v
    case U8Ipv4(_, ip) => U8Ipv4(flags, ip)
    case U8Ipv6(_, ip) => U8Ipv6(flags, ip)
    case U8Ipv4U8(_, ip, mask) => U8Ipv4U8(flags, ip, mask)
    case U8Ipv6U8(_, ip, mask) => U8Ipv6U8(flags, ip, mask)
  }

  /** Only these have a key, they are added exactly if their first field is odd, and they are equal exactly up to it. */
  lemma KeysAndFlagsExactly(a: Item, b: Item)
    ensures KeyOf(a).Some? <==> IsFlagged(a.value)
    ensures IsAdd(a) <==> IsFlagged(a.value) && a.value.field1 % 2 == 1
    ensures IpEqual(a, b) <==>
            IsFlagged(a.value) && IsFlagged(b.value) && WithFlags(a.value, 0) == WithFlags(b.value, 0)
  {
  }

  /** The items that the handlers treat as addresses, by the type of their definition. */
  lemma AddressItemsExactly(cfg: Config, x: Item)
    requires x.id != ID_UNDEFINED && InfoOfId(cfg, x.id, None).Some?
    requires InfoOfId(cfg, x.id, None).value.valueType == TypeOf(x.value)
    ensures IsIpAddr(cfg, x.id) <==> IsFlagged(x.value) || x.value.U8Ipv4U16? || x.value.U8Ipv6U16?
    ensures IsMetric(cfg, x.id) <==> InfoOfId(cfg, x.id, None).value.isMetric
  {
  }

  // ---- The check

  /** What is added is held by nobody; what is dropped is held by the owner. */
  ghost predicate Admissible(b: Base, o: Owner, x: Item) {
    KeyOf(x).Some? &&
    if IsAdd(x) then forall holder :: !Holds(b, holder, KeyOf(x).value) else Holds(b, o, KeyOf(x).value)
  }

  ghost predicate AllAdmissible(cfg: Config, b: Base, o: Owner, items: seq<Item>) {
    forall x :: x in items && IsIpAddr(cfg, x.id) ==> Admissible(b, o, x)
  }

  /** The check of an update of an owner accepts exactly the updates all of whose addresses are admissible. */
  lemma CheckIsExact(cfg: Config, b: Base, o: Owner, items: seq<Item>)
    ensures ValidIps(cfg, b, items, IpsOf(b, o)) <==> AllAdmissible(cfg, b, o, items)
  {
    hide IpsOf, Held, IpEqual, KeyOf, IsIpAddr, ValidIp, Admissible;
    forall k | 0 <= k < |items| && IsIpAddr(cfg, items[k].id)
      ensures ValidIp(cfg, b, items[k], IpsOf(b, o)) <==> Admissible(b, o, items[k])
    {
      ItemCheckIsExact(cfg, b, o, items[k]);
    }
    forall k | 0 <= k < |items| && !IsIpAddr(cfg, items[k].id)
      ensures ValidIp(cfg, b, items[k], IpsOf(b, o))
    {
      OthersPass(cfg, b, items[k], IpsOf(b, o));
    }
    assert forall k :: 0 <= k < |items| ==> items[k] in items;
  }

  lemma OthersPass(cfg: Config, b: Base, x: Item, existing: seq<Item>)
    requires !IsIpAddr(cfg, x.id)
    ensures ValidIp(cfg, b, x, existing)
  {
  }

  lemma ItemCheckIsExact(cfg: Config, b: Base, o: Owner, x: Item)
    requires IsIpAddr(cfg, x.id)
    ensures ValidIp(cfg, b, x, IpsOf(b, o)) <==> Admissible(b, o, x)
  {
    hide IpsOf, Held, IpEqual, KeyOf, IsIpAddr;
    var ips := IpsOf(b, o);
    IpEqualIsKeyEquality(x, x);
    if IsAdd(x) {
      SearchIsComplete(b, x);
    } else {
      forall i | 0 <= i < |ips|
        ensures IpEqual(ips[i], x) <==> KeyOf(x).Some? && KeyOf(ips[i]) == KeyOf(x)
      {
        IpEqualIsKeyEquality(ips[i], x);
      }
    }
  }

  /**
   Connection points are treated as addresses but have no flags to add them, so they count as
   dropped, and as never there: no update with one passes the check.
   */
  lemma ConnectionPointsAreRefused(cfg: Config, b: Base, o: Owner, items: seq<Item>, x: Item)
    requires x in items && (x.value.U8Ipv4U16? || x.value.U8Ipv6U16?)
    requires x.id != ID_UNDEFINED && InfoOfId(cfg, x.id, None).Some?
    requires InfoOfId(cfg, x.id, None).value.valueType == TypeOf(x.value)
    ensures !ValidIps(cfg, b, items, IpsOf(b, o))
  {
    AddressItemsExactly(cfg, x);
    CheckIsExact(cfg, b, o, items);
    KeysAndFlagsExactly(x, x);
    assert !Admissible(b, o, x);
  }

  /** How a checked handler ends. */
  function OutcomeOf(cfg: Config, statusId: u32, b: Base, e: Event): Outcome
    requires (e.UpdatesSession? || e.BringsUp? || e.UpdatesDestination?) && e.id in b.peers
  {
    match e
    case UpdatesSession(id, items) => SessionUpdate(cfg, statusId, b, id, items).1
    case BringsUp(id, mac, items, accepted) => DestinationUp(cfg, b, id, mac, items, accepted).1
    case UpdatesDestination(id, mac, items) => DestinationUpdate(cfg, b, id, mac, items).1
  }

  ghost predicate KnowsMetrics(cfg: Config, metrics: map<u32, Item>, items: seq<Item>) {
    forall x :: x in items && IsMetric(cfg, x.id) ==> x.id in metrics
  }

  /**
   A session update ends the session exactly if an address is not admissible, and is refused
   exactly if it is but carries an unknown metric.  A destination up is refused exactly if the
   destination is known or the client does not want it; an update of an unknown one ends the session.
   */
  lemma OutcomesExactly(cfg: Config, statusId: u32, b: Base, e: Event)
    requires (e.UpdatesSession? || e.BringsUp? || e.UpdatesDestination?) && e.id in b.peers
    ensures var outcome, p := OutcomeOf(cfg, statusId, b, e), b.peers[e.id];
            match e
            case UpdatesSession(id, items) =>
              && (outcome.Ended? <==> !AllAdmissible(cfg, b, RemotePeer(id), items))
              && (outcome.Done? <==>
                    AllAdmissible(cfg, b, RemotePeer(id), items) && KnowsMetrics(cfg, p.metrics, items))
            case BringsUp(id, mac, items, accepted) =>
              && (outcome.Ended? <==>
                    mac !in p.destinations && !AllAdmissible(cfg, b, RemoteDestination(id, mac), items))
              && (outcome.Done? <==>
                    mac !in p.destinations && AllAdmissible(cfg, b, RemoteDestination(id, mac), items) && accepted)
            case UpdatesDestination(id, mac, items) =>
              && (outcome.Done? <==>
                    mac in p.destinations && AllAdmissible(cfg, b, RemoteDestination(id, mac), items))
              && (!outcome.Done? ==> outcome.Ended?)
            case _ => true
    ensures !OutcomeOf(cfg, statusId, b, e).Done? ==> Step(cfg, statusId, b, e) == b
  {
    hide ValidIps, AllAdmissible;
    match e
    case UpdatesSession(id, items) =>
      CheckIsExact(cfg, b, RemotePeer(id), items);
      assert IpsOf(b, RemotePeer(id)) == b.peers[id].ips;
    case BringsUp(id, mac, items, accepted) =>
      CheckIsExact(cfg, b, RemoteDestination(id, mac), items);
    case UpdatesDestination(id, mac, items) =>
      CheckIsExact(cfg, b, RemoteDestination(id, mac), items);
  }

  // ---- What each owner holds after an event

  /** Whose addresses an event is about. */
  function Target(e: Event): Option<Owner> {
    match e
    case UpdatesSession(id, _) => Some(RemotePeer(id))
    case Initializes(id, _) => Some(RemotePeer(id))
    case BringsUp(id, mac, _, _) => Some(RemoteDestination(id, mac))
    case UpdatesDestination(id, mac, _) => Some(RemoteDestination(id, mac))
    case Announces(id, mac, _) => Some(RemoteDestination(id, mac))
    case ReportsLink(id, mac, _) => Some(RemoteDestination(id, mac))
    case LocalUpdates(_) => Some(LocalNode)
    case LocalBringsUp(mac, _) => Some(LocalDestination(mac))
    case LocalChanges(mac, _) => Some(LocalDestination(mac))
    case _ => None
  }

  /** Is a destination known? */
  predicate Known(b: Base, o: Owner) {
    match o
    case LocalNode => true
    case LocalDestination(mac) => mac in b.local.destinations
    case RemotePeer(id) => id in b.peers
    case RemoteDestination(id, mac) => id in b.peers && mac in b.peers[id].destinations
  }

  /** Is what the event says about its target applied? */
  ghost predicate Applied(cfg: Config, b: Base, e: Event)
    requires Target(e).Some?
  {
    var o := Target(e).value;
    match e
    case UpdatesSession(id, items) =>
      Known(b, o) && AllAdmissible(cfg, b, o, items) && KnowsMetrics(cfg, b.peers[id].metrics, items)
    case Initializes(id, items) => Known(b, o) && KnowsMetrics(cfg, b.peers[id].metrics, items)
    case BringsUp(id, mac, items, accepted) =>
      Known(b, RemotePeer(id)) && !Known(b, o) && AllAdmissible(cfg, b, o, items) && accepted
    case UpdatesDestination(id, mac, items) => Known(b, o) && AllAdmissible(cfg, b, o, items)
    case Announces(id, mac, items) => Known(b, RemotePeer(id)) && !Known(b, o)
    case ReportsLink(id, mac, items) => Known(b, o)
    case LocalUpdates(items) => KnowsMetrics(cfg, b.local.metrics, items)
    case LocalBringsUp(mac, items) => !Known(b, o)
    case LocalChanges(mac, items) => Known(b, o)
  }

  /** Does the event take an owner away, or start it afresh? */
  predicate Clears(e: Event, o: Owner) {
    match e
    case TakesDown(id, mac) => o == RemoteDestination(id, mac)
    case LocalTakesDown(mac) => o == LocalDestination(mac)
    case Joins(id) => (o.RemotePeer? || o.RemoteDestination?) && o.id == id
    case Leaves(id) => (o.RemotePeer? || o.RemoteDestination?) && o.id == id
    case _ => false
  }

  /** An applied event folds its addresses into its target and leaves every other owner alone. */
  lemma AppliedFolds(cfg: Config, statusId: u32, b: Base, e: Event)
    requires Target(e).Some? && Applied(cfg, b, e)
    ensures Folded(b, Step(cfg, statusId, b, e), Target(e).value, IpItems(cfg, e.items))
  {
    hide IpItems, Folded, UpdatePeer, UpdateDestination, NewDestination, ValidIps, AllAdmissible, IpsOf;
    if (e.UpdatesSession? || e.BringsUp? || e.UpdatesDestination?) {
      OutcomesExactly(cfg, statusId, b, e);
    }
    match e
    case UpdatesSession(id, items) => InitializeFolds(cfg, statusId, b, id, items);
    case Initializes(id, items) => InitializeFolds(cfg, statusId, b, id, items);
    case BringsUp(id, mac, items, _) => StoreAnnouncedFolds(cfg, b, id, mac, items);
    case UpdatesDestination(id, mac, items) => UncheckedUpdateFolds(cfg, b, id, mac, items);
    case Announces(id, mac, items) => StoreAnnouncedFolds(cfg, b, id, mac, items);
    case ReportsLink(id, mac, items) => UncheckedUpdateFolds(cfg, b, id, mac, items);
    case LocalUpdates(items) => LocalUpdateFolds(cfg, statusId, b, items);
    case LocalBringsUp(mac, items) => LocalUpFolds(cfg, b, mac, items);
    case LocalChanges(mac, items) => LocalChangeFolds(cfg, b, mac, items);
  }

  lemma NotAppliedChangesNothing(cfg: Config, statusId: u32, b: Base, e: Event)
    requires Target(e).Some? && !Applied(cfg, b, e)
    ensures Step(cfg, statusId, b, e) == b
  {
    hide UpdateDestination, NewDestination, ValidIps, AllAdmissible, IpsOf, FoldMetrics, FoldIps;
    if (e.UpdatesSession? || e.BringsUp? || e.UpdatesDestination?) && e.id in b.peers {
      OutcomesExactly(cfg, statusId, b, e);
    } else if e.Initializes? && e.id in b.peers {
      RefusedUpdate(cfg, statusId, b, e.id, e.items);
    }
  }

  lemma ClearedHoldsNothing(cfg: Config, statusId: u32, b: Base, e: Event, o: Owner)
    requires Target(e).None?
    ensures IpsOf(Step(cfg, statusId, b, e), o) == if Clears(e, o) then [] else IpsOf(b, o)
  {
  }

  /**
   After any event, an owner holds an address exactly if the event applied to this owner and its
   last mention of the address adds it, or the owner held it before and the event neither takes
   the owner away nor, applied to it, mentions the address.
   */
  lemma HoldsExactly(cfg: Config, statusId: u32, b: Base, e: Event, o: Owner, key: IpKey)
    requires Unique(b)
    ensures Holds(Step(cfg, statusId, b, e), o, key) <==>
            if Target(e) == Some(o) && Applied(cfg, b, e) then
              var items := IpItems(cfg, e.items);
              || (exists i :: 0 <= i < |items| && LastWord(items, i) && KeyOf(items[i]) == Some(key) && IsAdd(items[i]))
              || (Holds(b, o, key) && forall i :: 0 <= i < |items| ==> KeyOf(items[i]) != Some(key))
            else Holds(b, o, key) && !Clears(e, o)
  {
    hide IpItems, KeyOf, HasKey, FoldIps, IsAdd, IpsOf, Step, Applied;
    var b' := Step(cfg, statusId, b, e);
    if Target(e).None? {
      ClearedHoldsNothing(cfg, statusId, b, e, o);
      NoKeys(key);
    } else if Applied(cfg, b, e) {
      AppliedFolds(cfg, statusId, b, e);
      if Target(e) == Some(o) {
        KeysAfterFold(b, b', o, IpItems(cfg, e.items), key);
      }
    } else {
      NotAppliedChangesNothing(cfg, statusId, b, e);
    }
  }

  /** In particular a held address can be dropped, and then nobody holds it. */
  lemma DropSucceeds(cfg: Config, statusId: u32, b: Base, id: string, mac: Mac, x: Item)
    requires Unique(b) && id in b.peers && mac in b.peers[id].destinations
    requires !IsAdd(x) && IsIpAddr(cfg, x.id) && !IsMetric(cfg, x.id)
    requires KeyOf(x).Some? && Holds(b, RemoteDestination(id, mac), KeyOf(x).value)
    ensures OutcomeOf(cfg, statusId, b, UpdatesDestination(id, mac, [x])).Done?
    ensures forall o :: !Holds(Step(cfg, statusId, b, UpdatesDestination(id, mac, [x])), o, KeyOf(x).value)
  {
    hide IpItems, KeyOf, HasKey, IsAdd, IpsOf, Step, IsIpAddr, Applied, Holds, IsMetric;
    var e, key := UpdatesDestination(id, mac, [x]), KeyOf(x).value;
    var mine := RemoteDestination(id, mac);
    assert AllAdmissible(cfg, b, mine, [x]);
    OutcomesExactly(cfg, statusId, b, e);
    assert Applied(cfg, b, e) by {
      DropIsApplied(cfg, b, id, mac, x);
    }
    OneIpItem(cfg, x);
    forall o
      ensures !Holds(Step(cfg, statusId, b, e), o, key)
    {
      HoldsExactly(cfg, statusId, b, e, o, key);
      if o == mine {
        assert [x][0] == x;
      } else if Holds(b, o, key) {
        OnlyOneHolds(b, o, mine, key);
      }
    }
  }

  lemma DropIsApplied(cfg: Config, b: Base, id: string, mac: Mac, x: Item)
    requires id in b.peers && mac in b.peers[id].destinations && AllAdmissible(cfg, b, RemoteDestination(id, mac), [x])
    ensures Applied(cfg, b, UpdatesDestination(id, mac, [x]))
  {
  }

  lemma OneIpItem(cfg: Config, x: Item)
    requires IsIpAddr(cfg, x.id) && !IsMetric(cfg, x.id)
    ensures IpItems(cfg, [x]) == [x]
  {
    assert [x][..0] == [];
  }

  lemma OnlyOneHolds(b: Base, o: Owner, o': Owner, key: IpKey)
    requires Unique(b) && Holds(b, o, key) && Holds(b, o', key)
    ensures o == o'
  {
  }

  // ---- Which owners are known

  /** An event makes a peer known if it joins, and a destination if the event is applied to it. */
  ghost predicate Introduces(cfg: Config, b: Base, e: Event, o: Owner) {
    if o.RemotePeer? then e == Joins(o.id) else Target(e) == Some(o) && Applied(cfg, b, e)
  }

  lemma KnownStep(cfg: Config, statusId: u32, b: Base, e: Event, o: Owner)
    requires !o.LocalNode?
    ensures Known(Step(cfg, statusId, b, e), o) <==> Introduces(cfg, b, e, o) || (Known(b, o) && !Clears(e, o))
  {
    hide UpdateDestination, NewDestination, ValidIps, AllAdmissible, IpsOf, FoldMetrics, FoldIps, KnowsMetrics,
      MetricsKnown;
    if Target(e).Some? {
      if !Applied(cfg, b, e) {
        NotAppliedChangesNothing(cfg, statusId, b, e);
      } else if (e.UpdatesSession? || e.BringsUp? || e.UpdatesDestination?) && e.id in b.peers {
        OutcomesExactly(cfg, statusId, b, e);
      }
    }
  }

  ghost function IntroducesAt(cfg: Config, statusId: u32, b: Base, o: Owner): (seq<Event>, Event) -> bool {
    (front, e) => Introduces(cfg, Run(cfg, statusId, b, front), e, o)
  }

  ghost function ClearsOf(o: Owner): (seq<Event>, Event) -> bool {
    (front, e) => Clears(e, o)
  }

  /** Over a run a peer or destination is known exactly if some event introduced it and none took it away since. */
  lemma {:induction false} KnownExactly(cfg: Config, statusId: u32, b: Base, events: seq<Event>, o: Owner)
    requires !o.LocalNode? && !Known(b, o)
    ensures Known(Run(cfg, statusId, b, events), o) <==>
            Stands(events, IntroducesAt(cfg, statusId, b, o), ClearsOf(o))
  {
    hide Stands, Step, Known, Introduces, Clears;
    if events == [] {
      NothingStands(IntroducesAt(cfg, statusId, b, o), ClearsOf(o));
    } else {
      var front, last := events[..|events| - 1], events[|events| - 1];
      assert events == front + [last];
      KnownExactly(cfg, statusId, b, front, o);
      StandsStep(front, last, IntroducesAt(cfg, statusId, b, o), ClearsOf(o));
      KnownStep(cfg, statusId, Run(cfg, statusId, b, front), last, o);
    }
  }
}
