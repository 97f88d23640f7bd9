/**
 Who owns which IP address (Peer.cpp, `validate_ip_data_items` and the handlers that call it or
 ought to): exactly when, over a run, no address or subnet has two owners among the local node,
 its destinations, the peers and their destinations.
 */
module IpOwnership {
  import opened Wrappers
  import opened Serialize
  import opened ProtocolConfig
  import opened DataItem
  import opened InfoBase

  datatype Base = Base(local: PeerInfo, peers: map<string, PeerInfo>)

  datatype Owner =
    | LocalNode
    | LocalDestination(mac: Mac)
    | RemotePeer(id: string)
    | RemoteDestination(id: string, mac: Mac)

  function IpsOf(b: Base, o: Owner): seq<Item> {
    match o
    case LocalNode => b.local.ips
    case LocalDestination(mac) => if mac in b.local.destinations then b.local.destinations[mac].ips else []
    case RemotePeer(id) => if id in b.peers then b.peers[id].ips else []
    case RemoteDestination(id, mac) =>
      if id in b.peers && mac in b.peers[id].destinations then b.peers[id].destinations[mac].ips else []
  }

  ghost predicate Holds(b: Base, o: Owner, key: IpKey) {
    HasKey(IpsOf(b, o), key)
  }

  /** Every list is free of duplicates, and no key has two owners. */
  ghost predicate Unique(b: Base) {
    && (forall o :: IpsOk(IpsOf(b, o)))
    && (forall o1, o2, key :: Holds(b, o1, key) && Holds(b, o2, key) ==> o1 == o2)
  }

  /** In terms of entries: no two entries anywhere are equal up to `ip_equal`. */
  lemma UniqueMeansNoTwoEqual(b: Base, o1: Owner, i: nat, o2: Owner, j: nat)
    requires Unique(b)
    requires i < |IpsOf(b, o1)| && j < |IpsOf(b, o2)| && (o1 != o2 || i != j)
    ensures !IpEqual(IpsOf(b, o1)[i], IpsOf(b, o2)[j])
  {
    var x, y := IpsOf(b, o1)[i], IpsOf(b, o2)[j];
    IpEqualIsKeyEquality(x, y);
    IpEqualIsKeyEquality(y, x);
    assert IpsOk(IpsOf(b, o1));
    if o1 != o2 && KeyOf(x).Some? {
      assert Holds(b, o1, KeyOf(x).value);
      assert KeyOf(y) == KeyOf(x) ==> Holds(b, o2, KeyOf(x).value);
    }
  }

  /** Is an address held by anyone the handlers know of? */
  predicate Held(b: Base, item: Item) {
    HeldBy(b.local, item) || exists id :: id in b.peers && HeldBy(b.peers[id], item)
  }

  lemma FindIpFindsKeys(ips: seq<Item>, item: Item)
    requires KeyOf(item).Some?
    ensures FindIp(ips, item) < |ips| <==> HasKey(ips, KeyOf(item).value)
  {
    forall i | 0 <= i < |ips| {
      IpEqualIsKeyEquality(ips[i], item);
    }
  }

  /** The search of the handlers is complete: it finds an address iff some owner holds it. */
  lemma SearchIsComplete(b: Base, item: Item)
    requires KeyOf(item).Some?
    ensures Held(b, item) <==> exists o :: Holds(b, o, KeyOf(item).value)
  {
    hide FindIp, KeyOf, HasKey;
    var key := KeyOf(item).value;
    PeerSearchIsComplete(b.local, item);
    if Held(b, item) {
      if FindIp(b.local.ips, item) < |b.local.ips| {
        assert Holds(b, LocalNode, key);
      } else if HeldBy(b.local, item) {
        var mac :| mac in b.local.destinations && HasKey(b.local.destinations[mac].ips, key);
        assert Holds(b, LocalDestination(mac), key);
      } else {
        var id :| id in b.peers && HeldBy(b.peers[id], item);
        PeerSearchIsComplete(b.peers[id], item);
        if HasKey(b.peers[id].ips, key) {
          assert Holds(b, RemotePeer(id), key);
        } else {
          var mac :| mac in b.peers[id].destinations && HasKey(b.peers[id].destinations[mac].ips, key);
          assert Holds(b, RemoteDestination(id, mac), key);
        }
      }
    }
    if o :| Holds(b, o, key) {
      assert !HasKey([], key) by {
        NoKeys(key);
      }
      match o
      case LocalNode =>
      case LocalDestination(mac) =>
      case RemotePeer(id) => PeerSearchIsComplete(b.peers[id], item);
      case RemoteDestination(id, mac) => PeerSearchIsComplete(b.peers[id], item);
    }
  }

  lemma NoKeys(key: IpKey)
    ensures !HasKey([], key)
  {
  }

  lemma PeerSearchIsComplete(p: PeerInfo, item: Item)
    requires KeyOf(item).Some?
    ensures FindIp(p.ips, item) < |p.ips| <==> HasKey(p.ips, KeyOf(item).value)
    ensures HeldBy(p, item) <==>
            || HasKey(p.ips, KeyOf(item).value)
            || exists mac :: mac in p.destinations && HasKey(p.destinations[mac].ips, KeyOf(item).value)
  {
    hide FindIp, KeyOf, HasKey;
    FindIpFindsKeys(p.ips, item);
    forall mac | mac in p.destinations {
      FindIpFindsKeys(p.destinations[mac].ips, item);
    }
  }

  // ---- When an update of one owner keeps ownership unique ----

  /** Only one owner's list changed, by a fold of adds and drops. */
  ghost predicate Folded(b: Base, b': Base, o: Owner, items: seq<Item>) {
    && (forall x :: x != o ==> IpsOf(b', x) == IpsOf(b, x))
    && IpsOf(b', o) == FoldIps(IpsOf(b, o), items)
  }

  /** Each address whose last mention adds it belongs to nobody else yet. */
  ghost predicate NoForeignAdds(b: Base, o: Owner, items: seq<Item>) {
    forall i, x :: 0 <= i < |items| && LastWord(items, i) && IsAdd(items[i]) && x != o
                   ==> !Holds(b, x, KeyOf(items[i]).value)
  }

  lemma KeysAfterFold(b: Base, b': Base, o: Owner, items: seq<Item>, key: IpKey)
    requires Unique(b) && Folded(b, b', o, items)
    ensures IpsOk(IpsOf(b', o))
    ensures Holds(b', o, key) <==>
            || (exists i :: 0 <= i < |items| && LastWord(items, i) && KeyOf(items[i]) == Some(key) && IsAdd(items[i]))
            || (Holds(b, o, key) && forall i :: 0 <= i < |items| ==> KeyOf(items[i]) != Some(key))
  {
    FoldIpsRefinesSet(IpsOf(b, o), items, key);
    KeyAfterExactly(HasKey(IpsOf(b, o), key), key, items);
  }

  /**
   Exactly which updates keep ownership unique, checked or not: those whose surviving adds are
   held by no other owner.
   */
  lemma UpdateKeepsUniqueExactly(b: Base, b': Base, o: Owner, items: seq<Item>)
    requires Unique(b) && Folded(b, b', o, items)
    ensures Unique(b') <==> NoForeignAdds(b, o, items)
  {
    hide KeyOf, HasKey, FoldIps, IsAdd, IpsOf;
    forall key {
      KeysAfterFold(b, b', o, items, key);
    }
    forall x | x != o
      ensures IpsOk(IpsOf(b', x)) && forall key :: Holds(b', x, key) <==> Holds(b, x, key)
    {
    }
    if NoForeignAdds(b, o, items) {
      forall x, key | x != o && Holds(b', x, key)
        ensures !Holds(b', o, key)
      {
        assert Holds(b, x, key);
      }
      assert IpsOk(IpsOf(b', o)) by {
        KeysAfterFold(b, b', o, items, IpKey(TBlank, [], 0));
      }
    } else {
      var i, x :| 0 <= i < |items| && LastWord(items, i) && IsAdd(items[i]) && x != o
                  && Holds(b, x, KeyOf(items[i]).value);
      assert Holds(b', x, KeyOf(items[i]).value) && Holds(b', o, KeyOf(items[i]).value);
    }
  }

  // ---- The checked handlers ----

  /** `validate_ip_data_items`: nobody holds what is added, and what is dropped is there. */
  predicate ValidIps(cfg: Config, b: Base, items: seq<Item>, existing: seq<Item>) {
    forall k :: 0 <= k < |items| ==> ValidIp(cfg, b, items[k], existing)
  }

  predicate ValidIp(cfg: Config, b: Base, item: Item, existing: seq<Item>) {
    IsIpAddr(cfg, item.id) ==>
      if IsAdd(item) then !Held(b, item) else exists i :: 0 <= i < |existing| && IpEqual(existing[i], item)
  }

  lemma {:induction false} IpItemsOf(cfg: Config, items: seq<Item>)
    ensures forall x :: x in IpItems(cfg, items) <==> x in items && !IsMetric(cfg, x.id) && IsIpAddr(cfg, x.id)
  {
    if items != [] {
      IpItemsOf(cfg, items[..|items| - 1]);
      assert items == items[..|items| - 1] + [items[|items| - 1]];
    }
  }

  /** A validated update adds nothing foreign, and never drops what it adds. */
  lemma ValidatedUpdate(cfg: Config, b: Base, o: Owner, items: seq<Item>)
    requires Unique(b) && ValidIps(cfg, b, items, IpsOf(b, o))
    ensures NoForeignAdds(b, o, IpItems(cfg, items))
    ensures forall i, j :: 0 <= i < |IpItems(cfg, items)| && 0 <= j < |IpItems(cfg, items)|
                           && IsAdd(IpItems(cfg, items)[i]) && !IsAdd(IpItems(cfg, items)[j])
                           ==> KeyOf(IpItems(cfg, items)[i]) != KeyOf(IpItems(cfg, items)[j])
  {
    hide KeyOf, HasKey, IpsOf, IpItems, Held, IsAdd, IpEqual;
    var ips := IpItems(cfg, items);
    IpItemsOf(cfg, items);
    forall i | 0 <= i < |ips| && IsAdd(ips[i])
      ensures KeyOf(ips[i]).Some? && forall x :: !Holds(b, x, KeyOf(ips[i]).value)
    {
      assert ips[i] in ips;
      var k :| 0 <= k < |items| && items[k] == ips[i];
      assert ValidIp(cfg, b, items[k], IpsOf(b, o));
      IpEqualIsKeyEquality(ips[i], ips[i]);
      SearchIsComplete(b, ips[i]);
    }
    forall i, j | 0 <= i < |ips| && 0 <= j < |ips| && IsAdd(ips[i]) && !IsAdd(ips[j])
      ensures KeyOf(ips[i]) != KeyOf(ips[j])
    {
      assert ips[j] in ips;
      var k :| 0 <= k < |items| && items[k] == ips[j];
      assert ValidIp(cfg, b, items[k], IpsOf(b, o));
      var n :| 0 <= n < |IpsOf(b, o)| && IpEqual(IpsOf(b, o)[n], ips[j]);
      IpEqualIsKeyEquality(IpsOf(b, o)[n], ips[j]);
      EntryHolds(b, o, n);
    }
  }

  lemma EntryHolds(b: Base, o: Owner, n: nat)
    requires n < |IpsOf(b, o)| && KeyOf(IpsOf(b, o)[n]).Some?
    ensures Holds(b, o, KeyOf(IpsOf(b, o)[n]).value)
  {
  }

  /** After a validated update every address it added is held by the updated owner. */
  lemma AddedIsHeld(cfg: Config, b: Base, b': Base, o: Owner, items: seq<Item>, x: Item)
    requires Unique(b) && ValidIps(cfg, b, items, IpsOf(b, o))
    requires Folded(b, b', o, IpItems(cfg, items))
    requires x in IpItems(cfg, items) && IsAdd(x)
    ensures KeyOf(x).Some? && Holds(b', o, KeyOf(x).value)
  {
    hide HasKey, IpsOf, Held, IpEqual, FoldIps, ValidIps, IpItems;
    var ips := IpItems(cfg, items);
    var key := KeyOf(x).value;
    ValidatedUpdate(cfg, b, o, items);
    var i :| 0 <= i < |ips| && ips[i] == x;
    KeysAfterFold(b, b', o, ips, key);
    LastMention(ips, key, i);
  }

  /** Whatever is mentioned has a last mention. */
  lemma {:induction false} LastMention(items: seq<Item>, key: IpKey, i: nat)
    requires i < |items| && KeyOf(items[i]) == Some(key)
    ensures exists j :: i <= j < |items| && LastWord(items, j) && KeyOf(items[j]) == Some(key)
    decreases |items| - i
  {
    if !LastWord(items, i) {
      var j :| i < j < |items| && KeyOf(items[j]) == KeyOf(items[i]);
      LastMention(items, key, j);
    }
  }

  datatype Outcome =
    | Done               // applied
    | Refused            // answered with an error, nothing stored
    | Ended              // the session was ended, nothing stored

  function SetPeer(b: Base, id: string, p: PeerInfo): Base {
    b.(peers := b.peers[id := p])
  }

  /** `handle_peer_update`. */
  function SessionUpdate(cfg: Config, statusId: u32, b: Base, id: string, items: seq<Item>): (Base, Outcome)
    requires id in b.peers
  {
    var p := b.peers[id];
    if !ValidIps(cfg, b, items, p.ips) then (b, Ended)
    else if !MetricsKnown(cfg, p.metrics, items) then (b, Refused)
    else (SetPeer(b, id, UpdatePeer(cfg, statusId, p, items)), Done)
  }

  /** `handle_destination_up`, with the client's answer about the destination. */
  function DestinationUp(cfg: Config, b: Base, id: string, mac: Mac, items: seq<Item>, accepted: bool): (Base, Outcome)
    requires id in b.peers
  {
    var p := b.peers[id];
    if mac in p.destinations then (b, Refused)
    else if !ValidIps(cfg, b, items, []) then (b, Ended)
    else if !accepted then (b, Refused)
    else (SetPeer(b, id, p.(destinations := p.destinations[mac := NewDestination(cfg, items)])), Done)
  }

  /** `handle_destination_update`. */
  function DestinationUpdate(cfg: Config, b: Base, id: string, mac: Mac, items: seq<Item>): (Base, Outcome)
    requires id in b.peers
  {
    var p := b.peers[id];
    if mac !in p.destinations then (b, Ended)
    else if !ValidIps(cfg, b, items, p.destinations[mac].ips) then (b, Ended)
    else (UncheckedDestinationUpdate(cfg, b, id, mac, items), Done)
  }

  /** What `handle_link_characteristics_response` does: the same update without the check. */
  function UncheckedDestinationUpdate(cfg: Config, b: Base, id: string, mac: Mac, items: seq<Item>): Base
    requires id in b.peers && mac in b.peers[id].destinations
  {
    var p := b.peers[id];
    SetPeer(b, id, p.(destinations := p.destinations[mac := UpdateDestination(cfg, p.destinations[mac], items)]))
  }

  /** What `handle_destination_announce` stores, whatever the client says later, also without the check. */
  function StoreAnnounced(cfg: Config, b: Base, id: string, mac: Mac, items: seq<Item>): Base
    requires id in b.peers
  {
    var p := b.peers[id];
    if mac in p.destinations then b
    else SetPeer(b, id, p.(destinations := p.destinations[mac := NewDestination(cfg, items)]))
  }

  /** The update of `handle_peer_initialization_response`, which does not check either. */
  function Initialize(cfg: Config, statusId: u32, b: Base, id: string, items: seq<Item>): Base
    requires id in b.peers
  {
    SetPeer(b, id, UpdatePeer(cfg, statusId, b.peers[id], items))
  }

  function RemoveDestination(b: Base, id: string, mac: Mac): Base
    requires id in b.peers
  {
    SetPeer(b, id, b.peers[id].(destinations := b.peers[id].destinations - {mac}))
  }

  function SetLocalDestination(b: Base, mac: Mac, d: Destination): Base {
    b.(local := b.local.(destinations := b.local.destinations[mac := d]))
  }

  function RemoveLocalDestination(b: Base, mac: Mac): Base {
    b.(local := b.local.(destinations := b.local.destinations - {mac}))
  }

  lemma InitializeFolds(cfg: Config, statusId: u32, b: Base, id: string, items: seq<Item>)
    requires id in b.peers && MetricsKnown(cfg, b.peers[id].metrics, items)
    ensures Folded(b, Initialize(cfg, statusId, b, id, items), RemotePeer(id), IpItems(cfg, items))
  {
    hide MetricsKnown, FoldMetrics, FoldIps, IpItems, MetricItems, UpdateDestination;
    PeerUpdateIsAtomic(cfg, statusId, b.peers[id], items);
  }

  lemma StoreAnnouncedFolds(cfg: Config, b: Base, id: string, mac: Mac, items: seq<Item>)
    requires id in b.peers && mac !in b.peers[id].destinations
    ensures IpsOf(b, RemoteDestination(id, mac)) == []
    ensures Folded(b, StoreAnnounced(cfg, b, id, mac, items), RemoteDestination(id, mac), IpItems(cfg, items))
  {
    hide FoldMetrics, FoldIps, IpItems, MetricItems, UpdateDestination;
    UpdateDestinationSplits(cfg, Destination(map[], [], None), items);
  }

  lemma UncheckedUpdateFolds(cfg: Config, b: Base, id: string, mac: Mac, items: seq<Item>)
    requires id in b.peers && mac in b.peers[id].destinations
    ensures Folded(b, UncheckedDestinationUpdate(cfg, b, id, mac, items),
                   RemoteDestination(id, mac), IpItems(cfg, items))
  {
    hide FoldMetrics, FoldIps, IpItems, MetricItems, UpdateDestination;
    UpdateDestinationSplits(cfg, b.peers[id].destinations[mac], items);
  }

  // ---- Runs ----

  datatype Event =
    | UpdatesSession(id: string, items: seq<Item>)
    | BringsUp(id: string, mac: Mac, items: seq<Item>, accepted: bool)
    | UpdatesDestination(id: string, mac: Mac, items: seq<Item>)
    | Announces(id: string, mac: Mac, items: seq<Item>)
    | Initializes(id: string, items: seq<Item>)
    | ReportsLink(id: string, mac: Mac, items: seq<Item>)
    | LocalUpdates(items: seq<Item>)
    | LocalBringsUp(mac: Mac, items: seq<Item>)
    | LocalChanges(mac: Mac, items: seq<Item>)
    | TakesDown(id: string, mac: Mac)
    | LocalTakesDown(mac: Mac)
    | Joins(id: string)
    | Leaves(id: string)

  /** One handler or client call; a message from a peer that is not known cannot arrive. */
  function Step(cfg: Config, statusId: u32, b: Base, e: Event): Base {
    match e
    case UpdatesSession(id, items) =>
      if id in b.peers then SessionUpdate(cfg, statusId, b, id, items).0 else b
    case BringsUp(id, mac, items, accepted) =>
      if id in b.peers then DestinationUp(cfg, b, id, mac, items, accepted).0 else b
    case UpdatesDestination(id, mac, items) =>
      if id in b.peers then DestinationUpdate(cfg, b, id, mac, items).0 else b
    case Announces(id, mac, items) => if id in b.peers then StoreAnnounced(cfg, b, id, mac, items) else b
    case Initializes(id, items) => if id in b.peers then Initialize(cfg, statusId, b, id, items) else b
    case ReportsLink(id, mac, items) =>
      if id in b.peers && mac in b.peers[id].destinations then UncheckedDestinationUpdate(cfg, b, id, mac, items) else b
    case LocalUpdates(items) => b.(local := UpdatePeer(cfg, statusId, b.local, items))
    case LocalBringsUp(mac, items) =>
      if mac in b.local.destinations then b else SetLocalDestination(b, mac, NewDestination(cfg, items))
    case LocalChanges(mac, items) =>
      if mac !in b.local.destinations then b
      else SetLocalDestination(b, mac, UpdateDestination(cfg, b.local.destinations[mac], items))
    case TakesDown(id, mac) => if id in b.peers then RemoveDestination(b, id, mac) else b
    case LocalTakesDown(mac) => RemoveLocalDestination(b, mac)
    case Joins(id) => SetPeer(b, id, EMPTY_PEER)
    case Leaves(id) => b.(peers := b.peers - {id})
  }

  function Run(cfg: Config, statusId: u32, b: Base, events: seq<Event>): Base {
    if events == [] then b
    else Step(cfg, statusId, Run(cfg, statusId, b, events[..|events| - 1]), events[|events| - 1])
  }

  /** The handlers that check, and those that only remove or start afresh. */
  predicate Checked(e: Event) {
    && !e.Announces? && !e.Initializes? && !e.ReportsLink?
    && !e.LocalUpdates? && !e.LocalBringsUp? && !e.LocalChanges?
  }

  /** What an unchecked message or client call must meet: what it finally adds, if it is stored, belongs to nobody else. */
  ghost predicate Harmless(cfg: Config, b: Base, e: Event) {
    match e
    case Announces(id, mac, items) =>
      id in b.peers && mac !in b.peers[id].destinations ==>
        NoForeignAdds(b, RemoteDestination(id, mac), IpItems(cfg, items))
    case Initializes(id, items) =>
      id in b.peers && MetricsKnown(cfg, b.peers[id].metrics, items) ==>
        NoForeignAdds(b, RemotePeer(id), IpItems(cfg, items))
    case ReportsLink(id, mac, items) =>
      id in b.peers && mac in b.peers[id].destinations ==>
        NoForeignAdds(b, RemoteDestination(id, mac), IpItems(cfg, items))
    case LocalUpdates(items) =>
      MetricsKnown(cfg, b.local.metrics, items) ==> NoForeignAdds(b, LocalNode, IpItems(cfg, items))
    case LocalBringsUp(mac, items) =>
      mac !in b.local.destinations ==> NoForeignAdds(b, LocalDestination(mac), IpItems(cfg, items))
    case LocalChanges(mac, items) =>
      mac in b.local.destinations ==> NoForeignAdds(b, LocalDestination(mac), IpItems(cfg, items))
    case _ => true
  }

  lemma ShrinkingKeepsUnique(b: Base, b': Base)
    requires Unique(b)
    requires forall o :: IpsOf(b', o) == IpsOf(b, o) || IpsOf(b', o) == []
    ensures Unique(b')
  {
    hide IpsOf;
    forall o, key | Holds(b', o, key)
      ensures Holds(b, o, key)
    {
      NoKeys(key);
    }
    forall o
      ensures IpsOk(IpsOf(b', o))
    {
      assert IpsOk(IpsOf(b, o));
    }
  }

  lemma CheckedHandlerKeepsUnique(cfg: Config, statusId: u32, b: Base, e: Event)
    requires Unique(b) && (e.UpdatesSession? || e.BringsUp? || e.UpdatesDestination?) && e.id in b.peers
    ensures Unique(Step(cfg, statusId, b, e))
  {
    hide IpItems, Folded, NoForeignAdds, UpdatePeer, UpdateDestination, ValidIp, Unique, IpsOf;
    var b' := Step(cfg, statusId, b, e);
    match e
    case UpdatesSession(id, items) =>
      if SessionUpdate(cfg, statusId, b, id, items).1.Done? {
        OwnIps(b, id, []);
        InitializeFolds(cfg, statusId, b, id, items);
        ValidatedUpdate(cfg, b, RemotePeer(id), items);
        UpdateKeepsUniqueExactly(b, b', RemotePeer(id), IpItems(cfg, items));
      }
    case BringsUp(id, mac, items, accepted) =>
      if DestinationUp(cfg, b, id, mac, items, accepted).1.Done? {
        StoreAnnouncedFolds(cfg, b, id, mac, items);
        ValidatedUpdate(cfg, b, RemoteDestination(id, mac), items);
        UpdateKeepsUniqueExactly(b, b', RemoteDestination(id, mac), IpItems(cfg, items));
      }
    case UpdatesDestination(id, mac, items) =>
      if DestinationUpdate(cfg, b, id, mac, items).1.Done? {
        OwnIps(b, id, mac);
        UncheckedUpdateFolds(cfg, b, id, mac, items);
        ValidatedUpdate(cfg, b, RemoteDestination(id, mac), items);
        UpdateKeepsUniqueExactly(b, b', RemoteDestination(id, mac), IpItems(cfg, items));
      }
  }

  lemma OwnIps(b: Base, id: string, mac: Mac)
    requires id in b.peers
    ensures IpsOf(b, RemotePeer(id)) == b.peers[id].ips
    ensures mac in b.peers[id].destinations ==> IpsOf(b, RemoteDestination(id, mac)) == b.peers[id].destinations[mac].ips
  {
  }

  /**
   The handlers that do not check keep ownership unique exactly when nothing they finally add
   belongs to somebody else.
   */
  lemma UncheckedUpdateKeepsUniqueExactly(cfg: Config, statusId: u32, b: Base, e: Event)
    requires Unique(b) && (e.Announces? || e.Initializes? || e.ReportsLink?) && e.id in b.peers
    ensures Unique(Step(cfg, statusId, b, e)) <==> Harmless(cfg, b, e)
  {
    hide IpItems, Folded, NoForeignAdds, UpdatePeer, UpdateDestination, MetricsKnown, Unique, IpsOf;
    var b' := Step(cfg, statusId, b, e);
    match e
    case Announces(id, mac, items) =>
      if mac !in b.peers[id].destinations {
        StoreAnnouncedFolds(cfg, b, id, mac, items);
        UpdateKeepsUniqueExactly(b, b', RemoteDestination(id, mac), IpItems(cfg, items));
      }
    case Initializes(id, items) =>
      if MetricsKnown(cfg, b.peers[id].metrics, items) {
        InitializeFolds(cfg, statusId, b, id, items);
        UpdateKeepsUniqueExactly(b, b', RemotePeer(id), IpItems(cfg, items));
      } else {
        RefusedUpdate(cfg, statusId, b, id, items);
      }
    case ReportsLink(id, mac, items) =>
      if mac in b.peers[id].destinations {
        UncheckedUpdateFolds(cfg, b, id, mac, items);
        UpdateKeepsUniqueExactly(b, b', RemoteDestination(id, mac), IpItems(cfg, items));
      }
  }

  /** So do the client's calls about the local node, which nobody checks. */
  lemma LocalCallKeepsUniqueExactly(cfg: Config, statusId: u32, b: Base, e: Event)
    requires Unique(b) && (e.LocalUpdates? || e.LocalBringsUp? || e.LocalChanges?)
    ensures Unique(Step(cfg, statusId, b, e)) <==> Harmless(cfg, b, e)
  {
    hide IpItems, Folded, NoForeignAdds, UpdatePeer, UpdateDestination, MetricsKnown, Unique, IpsOf;
    var b' := Step(cfg, statusId, b, e);
    match e
    case LocalUpdates(items) =>
      if MetricsKnown(cfg, b.local.metrics, items) {
        LocalUpdateFolds(cfg, statusId, b, items);
        UpdateKeepsUniqueExactly(b, b', LocalNode, IpItems(cfg, items));
      } else {
        RefusedLocalUpdate(cfg, statusId, b, items);
      }
    case LocalBringsUp(mac, items) =>
      if mac !in b.local.destinations {
        LocalUpFolds(cfg, b, mac, items);
        UpdateKeepsUniqueExactly(b, b', LocalDestination(mac), IpItems(cfg, items));
      }
    case LocalChanges(mac, items) =>
      if mac in b.local.destinations {
        LocalChangeFolds(cfg, b, mac, items);
        UpdateKeepsUniqueExactly(b, b', LocalDestination(mac), IpItems(cfg, items));
      }
  }

  lemma LocalUpdateFolds(cfg: Config, statusId: u32, b: Base, items: seq<Item>)
    requires MetricsKnown(cfg, b.local.metrics, items)
    ensures Folded(b, Step(cfg, statusId, b, LocalUpdates(items)), LocalNode, IpItems(cfg, items))
  {
    hide MetricsKnown, FoldMetrics, FoldIps, IpItems, MetricItems, UpdateDestination;
    PeerUpdateIsAtomic(cfg, statusId, b.local, items);
  }

  lemma LocalUpFolds(cfg: Config, b: Base, mac: Mac, items: seq<Item>)
    requires mac !in b.local.destinations
    ensures Folded(b, SetLocalDestination(b, mac, NewDestination(cfg, items)), LocalDestination(mac), IpItems(cfg, items))
  {
    hide FoldMetrics, FoldIps, IpItems, MetricItems, UpdateDestination;
    UpdateDestinationSplits(cfg, Destination(map[], [], None), items);
  }

  lemma LocalChangeFolds(cfg: Config, b: Base, mac: Mac, items: seq<Item>)
    requires mac in b.local.destinations
    ensures Folded(b, SetLocalDestination(b, mac, UpdateDestination(cfg, b.local.destinations[mac], items)),
                   LocalDestination(mac), IpItems(cfg, items))
  {
    hide FoldMetrics, FoldIps, IpItems, MetricItems, UpdateDestination;
    UpdateDestinationSplits(cfg, b.local.destinations[mac], items);
  }

  lemma RefusedLocalUpdate(cfg: Config, statusId: u32, b: Base, items: seq<Item>)
    requires !MetricsKnown(cfg, b.local.metrics, items)
    ensures Step(cfg, statusId, b, LocalUpdates(items)) == b
  {
  }

  lemma RefusedUpdate(cfg: Config, statusId: u32, b: Base, id: string, items: seq<Item>)
    requires id in b.peers && !MetricsKnown(cfg, b.peers[id].metrics, items)
    ensures Initialize(cfg, statusId, b, id, items) == b
  {
    assert b.peers[id := b.peers[id]] == b.peers;
  }

  /** One event keeps ownership unique exactly if it is checked or harmless. */
  lemma StepKeepsUniqueExactly(cfg: Config, statusId: u32, b: Base, e: Event)
    requires Unique(b)
    ensures Unique(Step(cfg, statusId, b, e)) <==> Harmless(cfg, b, e)
  {
    hide Unique;
    match e
    case LocalTakesDown(mac) => ShrinkingKeepsUnique(b, Step(cfg, statusId, b, e));
    case Joins(id) => ShrinkingKeepsUnique(b, Step(cfg, statusId, b, e));
    case Leaves(id) => ShrinkingKeepsUnique(b, Step(cfg, statusId, b, e));
    case TakesDown(id, mac) => ShrinkingKeepsUnique(b, Step(cfg, statusId, b, e));
    case LocalUpdates(_) => LocalCallKeepsUniqueExactly(cfg, statusId, b, e);
    case LocalBringsUp(_, _) => LocalCallKeepsUniqueExactly(cfg, statusId, b, e);
    case LocalChanges(_, _) => LocalCallKeepsUniqueExactly(cfg, statusId, b, e);
    case _ =>
      if e.id in b.peers {
        if Checked(e) {
          CheckedHandlerKeepsUnique(cfg, statusId, b, e);
        } else {
          UncheckedUpdateKeepsUniqueExactly(cfg, statusId, b, e);
        }
      }
  }

  ghost predicate UniqueThroughout(cfg: Config, statusId: u32, b: Base, events: seq<Event>) {
    forall k :: 0 <= k <= |events| ==> Unique(Run(cfg, statusId, b, events[..k]))
  }

  ghost predicate AllHarmless(cfg: Config, statusId: u32, b: Base, events: seq<Event>) {
    forall k :: 0 <= k < |events| ==> Harmless(cfg, Run(cfg, statusId, b, events[..k]), events[k])
  }

  lemma UniqueThroughoutStep(cfg: Config, statusId: u32, b: Base, front: seq<Event>, last: Event)
    ensures UniqueThroughout(cfg, statusId, b, front + [last]) <==>
            UniqueThroughout(cfg, statusId, b, front) && Unique(Run(cfg, statusId, b, front + [last]))
  {
    hide Unique, Run;
    var events := front + [last];
    assert forall k :: 0 <= k <= |front| ==> front[..k] == events[..k];
    assert events[..|events|] == events;
  }

  lemma AllHarmlessStep(cfg: Config, statusId: u32, b: Base, front: seq<Event>, last: Event)
    ensures AllHarmless(cfg, statusId, b, front + [last]) <==>
            AllHarmless(cfg, statusId, b, front) && Harmless(cfg, Run(cfg, statusId, b, front), last)
  {
    hide Harmless, Run;
    var events := front + [last];
    assert forall k :: 0 <= k < |front| ==> front[..k] == events[..k] && front[k] == events[k];
    assert events[..|front|] == front && events[|front|] == last;
  }

  /** Over a run that starts unique, ownership is unique throughout exactly if every event is harmless when it comes. */
  lemma {:induction false} OwnershipIsUniqueExactly(cfg: Config, statusId: u32, b: Base, events: seq<Event>)
    requires Unique(b)
    ensures UniqueThroughout(cfg, statusId, b, events) <==> AllHarmless(cfg, statusId, b, events)
  {
    if events == [] {
      assert events[..0] == [];
    } else {
      hide Unique, Harmless, Step, UniqueThroughout, AllHarmless;
      var front, last := events[..|events| - 1], events[|events| - 1];
      assert events == front + [last];
      OwnershipIsUniqueExactly(cfg, statusId, b, front);
      UniqueThroughoutStep(cfg, statusId, b, front, last);
      AllHarmlessStep(cfg, statusId, b, front, last);
      if UniqueThroughout(cfg, statusId, b, front) {
        UniqueAtEnd(cfg, statusId, b, front);
        StepKeepsUniqueExactly(cfg, statusId, Run(cfg, statusId, b, front), last);
      }
    }
  }

  lemma UniqueAtEnd(cfg: Config, statusId: u32, b: Base, events: seq<Event>)
    requires UniqueThroughout(cfg, statusId, b, events)
    ensures Unique(Run(cfg, statusId, b, events))
  {
    hide Unique, Run;
    assert events[..|events|] == events;
  }

  /** In particular over any run of the handlers that check. */
  lemma OwnershipStaysUnique(cfg: Config, statusId: u32, b: Base, events: seq<Event>)
    requires Unique(b) && forall e :: e in events ==> Checked(e)
    ensures Unique(Run(cfg, statusId, b, events))
  {
    hide Unique, Run;
    assert forall k :: 0 <= k < |events| ==> events[k] in events;
    OwnershipIsUniqueExactly(cfg, statusId, b, events);
    UniqueAtEnd(cfg, statusId, b, events);
  }

  /** Whatever address somebody else holds, announcing a new destination with it gives it a second owner. */
  lemma AnnouncedAddressGetsTwoOwners(cfg: Config, statusId: u32, b: Base, o: Owner, id: string, mac: Mac, x: Item)
    requires Unique(b) && id in b.peers && mac !in b.peers[id].destinations
    requires IsAdd(x) && !IsMetric(cfg, x.id) && IsIpAddr(cfg, x.id)
    requires KeyOf(x).Some? && Holds(b, o, KeyOf(x).value)
    ensures var b' := Step(cfg, statusId, b, Announces(id, mac, [x]));
            && o != RemoteDestination(id, mac)
            && Holds(b', o, KeyOf(x).value) && Holds(b', RemoteDestination(id, mac), KeyOf(x).value)
            && !Unique(b')
  {
    hide FoldIps, KeyOf, IsAdd, UpdateDestination;
    var b' := Step(cfg, statusId, b, Announces(id, mac, [x]));
    var mine := RemoteDestination(id, mac);
    StoreAnnouncedFolds(cfg, b, id, mac, [x]);
    NoKeys(KeyOf(x).value);
    assert [x][..0] == [] && IpItems(cfg, [x]) == [x];
    assert LastWord([x], 0);
    KeysAfterFold(b, b', mine, [x], KeyOf(x).value);
    assert Holds(b', o, KeyOf(x).value) <==> Holds(b, o, KeyOf(x).value);
  }

  /** And every address that a stored message added is found by the next search. */
  lemma StoredAddressesAreFound(cfg: Config, statusId: u32, b: Base, e: Event, x: Item)
    requires Unique(b) && (e.UpdatesSession? || e.BringsUp? || e.UpdatesDestination?) && e.id in b.peers
    requires match e
             case UpdatesSession(id, items) => SessionUpdate(cfg, statusId, b, id, items).1.Done?
             case BringsUp(id, mac, items, accepted) => DestinationUp(cfg, b, id, mac, items, accepted).1.Done?
             case UpdatesDestination(id, mac, items) => DestinationUpdate(cfg, b, id, mac, items).1.Done?
             case _ => true
    requires x in e.items && IsAdd(x) && !IsMetric(cfg, x.id) && IsIpAddr(cfg, x.id)
    ensures Held(Step(cfg, statusId, b, e), x)
  {
    hide IpItems, Folded, UpdatePeer, UpdateDestination, ValidIp, Unique, IpsOf, Held, FindIp;
    var b' := Step(cfg, statusId, b, e);
    IpItemsOf(cfg, e.items);
    var o: Owner;
    match e {
      case UpdatesSession(id, items) =>
        o := RemotePeer(id);
        OwnIps(b, id, []);
        InitializeFolds(cfg, statusId, b, id, items);
      case BringsUp(id, mac, items, accepted) =>
        o := RemoteDestination(id, mac);
        StoreAnnouncedFolds(cfg, b, id, mac, items);
      case UpdatesDestination(id, mac, items) =>
        o := RemoteDestination(id, mac);
        OwnIps(b, id, mac);
        UncheckedUpdateFolds(cfg, b, id, mac, items);
    }
    AddedIsHeld(cfg, b, b', o, e.items, x);
    SearchIsComplete(b', x);
  }
}
