/**
 The advertisement table as the program keeps it (DestAdvert.cpp, DlepServiceImpl.cpp): its
 methods change the table and the local node's shared object one destination at a time, and
 together do what the functions of `Advertisement` say.
 */
module AdvertTable {
  import opened Serialize
  import opened ProtocolConfig
  import opened DataItem
  import opened InfoBase
  import opened InfoBaseObjects
  import opened Advertisement

  /** The members of one set that are not in another (DlepMac.h). */
  method GetDifference(a: set<Mac>, b: set<Mac>) returns (c: set<Mac>)
    ensures c == a - b
  {
    c := {};
    var rest := a;
    while rest != {}
      invariant rest <= a && c == (a - rest) - b
      decreases |rest|
    {
      var x :| x in rest;
      var found := false;
      var bs := b;
      while bs != {} && !found
        invariant bs <= b && (found ==> x in b) && (!found ==> x !in b - bs)
        decreases |bs|
      {
        var y :| y in bs;
        found := x == y;
        bs := bs - {y};
      }
      if !found {
        c := c + {x};
      }
      rest := rest - {x};
    }
  }

  class DestAdvert {
    const localPdp: PeerData
    var db: map<Mac, Entry>

    ghost predicate Valid()
      reads this, localPdp, localPdp.Repr
    {
      localPdp.Valid()
    }

    ghost function View(): Node
      reads this, localPdp
    {
      Node(db, localPdp.model.destinations)
    }

    constructor (localPdp: PeerData)
      requires localPdp.Valid()
      ensures Valid() && this.localPdp == localPdp && View() == Node(map[], localPdp.model.destinations)
    {
      this.localPdp, db := localPdp, map[];
    }

    /** Add destinations to the local node one by one. */
    method AddDestinations(macs: set<Mac>, items: seq<Item>) returns (ok: bool)
      requires Valid()
      modifies localPdp
      ensures Valid() && fresh(localPdp.Repr - old(localPdp.Repr))
      ensures ok <==> macs !! old(View()).local.Keys
      ensures localPdp.model == old(localPdp.model).(
                destinations := Publish(localPdp.cfg, old(View()).local, macs, items))
    {
      hide Publish, NewDestination, PeerData.Valid;
      ok := true;
      var todo := macs;
      ghost var was := localPdp.model;
      PublishNone(localPdp.cfg, was.destinations, items);
      while todo != {}
        invariant todo <= macs && localPdp.Valid() && fresh(localPdp.Repr - old(localPdp.Repr))
        invariant ok <==> (macs - todo) !! was.destinations.Keys
        invariant localPdp.model == was.(
                    destinations := Publish(localPdp.cfg, was.destinations, macs - todo, items))
        decreases |todo|
      {
        var mac :| mac in todo;
        PublishOneMore(localPdp.cfg, was.destinations, macs - todo, mac, items);
        assert macs - (todo - {mac}) == macs - todo + {mac};
        var added := localPdp.AddDestination(mac, items);
        ok := ok && added;
        todo := todo - {mac};
      }
      assert macs - {} == macs;
    }

    /** Remove destinations from the local node one by one. */
    method RemoveDestinations(macs: set<Mac>) returns (ok: bool)
      requires Valid()
      modifies localPdp
      ensures Valid() && localPdp.Repr == old(localPdp.Repr)
      ensures ok <==> macs <= old(View()).local.Keys
      ensures localPdp.model == old(localPdp.model).(destinations := old(View()).local - macs)
    {
      hide PeerData.Valid;
      ok := true;
      var todo := macs;
      ghost var was := localPdp.model;
      while todo != {}
        invariant todo <= macs && localPdp.Valid() && localPdp.Repr == old(localPdp.Repr)
        invariant ok <==> macs - todo <= was.destinations.Keys
        invariant localPdp.model == was.(destinations := was.destinations - (macs - todo))
        decreases |todo|
      {
        var mac :| mac in todo;
        var removed := localPdp.RemoveDestination(mac);
        ok := ok && removed;
        todo := todo - {mac};
        assert localPdp.model.destinations == was.destinations - (macs - todo);
      }
    }

    /** Update destinations of the local node one by one. */
    method UpdateDestinations(macs: set<Mac>, items: seq<Item>)
      requires Valid()
      modifies localPdp, localPdp.Repr
      ensures Valid() && localPdp.Repr == old(localPdp.Repr)
      ensures localPdp.model == old(localPdp.model).(
                destinations := Refresh(localPdp.cfg, old(View()).local, macs, items))
    {
      hide UpdateDestination, PeerData.Valid;
      var todo := macs;
      ghost var was := localPdp.model;
      assert was.destinations == Refresh(localPdp.cfg, was.destinations, {}, items);
      while todo != {}
        invariant todo <= macs && localPdp.Valid() && localPdp.Repr == old(localPdp.Repr)
        invariant localPdp.model == was.(
                    destinations := Refresh(localPdp.cfg, was.destinations, macs - todo, items))
        decreases |todo|
      {
        var mac :| mac in todo;
        var updated := localPdp.UpdateOne(mac, items);
        todo := todo - {mac};
        assert localPdp.model.destinations == Refresh(localPdp.cfg, was.destinations, macs - todo, items);
      }
    }

    /** An advertisement is received; the result says whether every addition and removal succeeded. */
    method HandleMessage(now: int, rf: Mac, info: Advert) returns (ok: bool)
      requires Valid()
      modifies this, localPdp
      ensures Valid() && View() == Hear(localPdp.cfg, old(View()), now, rf, info)
      ensures ok <==> Smooth(old(View()), Heard(now, rf, info))
      ensures fresh(localPdp.Repr - old(localPdp.Repr))
    {
      hide Publish, PeerData.Valid;
      ok := true;
      if rf !in db {
        db := db[rf := Entry(now, false, false, info, [])];
        return;
      }
      var entry := db[rf];
      if entry.up {
        var added := GetDifference(info.destinations, entry.info.destinations);
        var allAdded := AddDestinations(added, entry.items);
        var deleted := GetDifference(entry.info.destinations, info.destinations);
        PublishKeys(localPdp.cfg, old(View()).local, added, entry.items);
        var allRemoved := RemoveDestinations(deleted);
        ok := allAdded && allRemoved;
      }
      db := db[rf := entry.(timestamp := now, info := info)];
    }

    /** The client's `destination_up`. */
    method DestinationUp(now: int, rf: Mac, items: seq<Item>) returns (status: ReturnStatus)
      requires Valid()
      modifies this, localPdp
      ensures Valid() && (View(), status) == ClientUp(localPdp.cfg, old(View()), now, rf, items)
      ensures fresh(localPdp.Repr - old(localPdp.Repr))
    {
      hide PeerData.Valid;
      if rf !in db {
        db := db[rf := Entry(now, true, true, NO_ADVERT, items)];
        return Success;
      }
      var entry := db[rf].(items := items);
      db := db[rf := entry];
      if entry.up {
        return DestinationExists;
      }
      var ok := AddDestinations(entry.info.destinations, items);
      db := db[rf := entry.(up := true)];
      assert db == old(db)[rf := entry.(up := true)];
      return Success;
    }

    /** The client's `destination_update`; `atPeer` says whether a peer has such a destination. */
    method DestinationUpdate(rf: Mac, items: seq<Item>, atPeer: bool) returns (status: ReturnStatus)
      requires Valid()
      modifies this, localPdp, localPdp.Repr
      ensures Valid() && (View(), status) == ClientUpdate(localPdp.cfg, old(View()), rf, items, atPeer)
    {
      hide PeerData.Valid;
      if rf !in db {
        return if atPeer then Success else DestinationDoesNotExist;
      }
      var entry := db[rf].(items := items);
      db := db[rf := entry];
      if entry.up {
        UpdateDestinations(entry.info.destinations, items);
      }
      return Success;
    }

    /** The client's `destination_down`. */
    method DestinationDown(rf: Mac, atPeer: bool) returns (status: ReturnStatus)
      requires Valid()
      modifies this, localPdp
      ensures Valid() && (View(), status) == ClientDown(old(View()), rf, atPeer)
    {
      hide PeerData.Valid;
      status := Success;
      if rf in db {
        var entry := db[rf];
        if entry.up {
          var ok := RemoveDestinations(entry.info.destinations);
          if !ok {
            status := DestinationDoesNotExist;
          }
          db := db[rf := entry.(up := false)];
        }
      } else {
        var removed := localPdp.RemoveDestination(rf);
        if !removed && !atPeer {
          status := DestinationDoesNotExist;
        }
      }
    }

    /** The purge timer's work on one entry. */
    method PurgeEntry(rf: Mac, now: int, hold: u32, expire: u32)
      requires Valid() && rf in db
      modifies this, localPdp
      ensures Valid()
      ensures db == if HeldTooLong(old(db)[rf], now, hold) || Expired(old(db)[rf], now, expire)
                    then old(db) - {rf} else old(db)
      ensures localPdp.model.destinations ==
              old(localPdp.model.destinations) - WithdrawnWith(old(db)[rf], now, hold, expire)
    {
      hide HeldTooLong, Expired, PeerData.Valid;
      var entry := db[rf];
      if HeldTooLong(entry, now, hold) {
        db := db - {rf};
      } else if Expired(entry, now, expire) {
        if entry.up {
          var ok := RemoveDestinations(entry.info.destinations);
        }
        db := db - {rf};
      }
    }

    /** The purge timer: forget placeholders held too long, and withdraw and forget expired entries. */
    method HandlePurgeAdvertTimeout(now: int, hold: u32, expire: u32)
      requires Valid()
      modifies this, localPdp
      ensures Valid() && View() == Purge(old(View()), now, hold, expire)
    {
      hide HeldTooLong, Expired, Withdrawn, WithdrawnWith, Purged, PeerData.Valid;
      var todo := db.Keys;
      ghost var was, local := db, localPdp.model.destinations;
      PurgeBegins(was, now, hold, expire);
      while todo != {}
        invariant todo <= was.Keys && localPdp.Valid()
        invariant db == Purged(was, was.Keys - todo, now, hold, expire)
        invariant localPdp.model.destinations == local - Withdrawn(was, was.Keys - todo, now, hold, expire)
        decreases |todo|
      {
        var rf :| rf in todo;
        PurgeOne(was, was.Keys - todo, rf, now, hold, expire);
        WithdrawOne(was, was.Keys - todo, rf, now, hold, expire);
        assert was.Keys - (todo - {rf}) == was.Keys - todo + {rf};
        PurgeEntry(rf, now, hold, expire);
        todo := todo - {rf};
      }
      assert was.Keys - {} == was.Keys;
      PurgeEnds(was, now, hold, expire);
    }
  }

  /** What is withdrawn with one entry. */
  function WithdrawnWith(e: Entry, now: int, hold: u32, expire: u32): set<Mac> {
    if e.up && !HeldTooLong(e, now, hold) && Expired(e, now, expire) then e.info.destinations else {}
  }

  /** The table once the purge has gone over the entries `done`. */
  ghost function Purged(table: Table, done: set<Mac>, now: int, hold: u32, expire: u32): Table {
    map rf | rf in table && (rf in done ==> !HeldTooLong(table[rf], now, hold) && !Expired(table[rf], now, expire))
      :: table[rf]
  }

  lemma PurgeBegins(table: Table, now: int, hold: u32, expire: u32)
    ensures Purged(table, table.Keys - table.Keys, now, hold, expire) == table
    ensures Withdrawn(table, table.Keys - table.Keys, now, hold, expire) == {}
  {
  }

  lemma PurgeOne(table: Table, done: set<Mac>, rf: Mac, now: int, hold: u32, expire: u32)
    requires rf in table && rf !in done
    ensures var purged := Purged(table, done, now, hold, expire);
            && rf in purged && purged[rf] == table[rf]
            && Purged(table, done + {rf}, now, hold, expire) ==
               if HeldTooLong(table[rf], now, hold) || Expired(table[rf], now, expire) then purged - {rf} else purged
  {
  }

  lemma PurgeEnds(table: Table, now: int, hold: u32, expire: u32)
    ensures Purged(table, table.Keys, now, hold, expire) == Kept(table, now, hold, expire)
  {
  }

  lemma PublishNone(cfg: Config, local: map<Mac, Destination>, items: seq<Item>)
    ensures forall macs: set<Mac> :: macs == {} ==> Publish(cfg, local, macs, items) == local
  {
  }

  lemma PublishOneMore(cfg: Config, local: map<Mac, Destination>, macs: set<Mac>, mac: Mac, items: seq<Item>)
    ensures var published := Publish(cfg, local, macs, items);
            && published.Keys == local.Keys + macs
            && Publish(cfg, local, macs + {mac}, items) ==
               if mac in published then published else published[mac := NewDestination(cfg, items)]
  {
  }

  lemma PublishKeys(cfg: Config, local: map<Mac, Destination>, macs: set<Mac>, items: seq<Item>)
    ensures Publish(cfg, local, macs, items).Keys == local.Keys + macs
  {
  }

  /** Going over one more entry withdraws its destinations if it is expired and up. */
  lemma WithdrawOne(table: Table, rfs: set<Mac>, rf: Mac, now: int, hold: u32, expire: u32)
    requires rf in table
    ensures Withdrawn(table, rfs + {rf}, now, hold, expire) == Withdrawn(table, rfs, now, hold, expire) +
            WithdrawnWith(table[rf], now, hold, expire)
  {
    var macs := Withdrawn(table, rfs + {rf}, now, hold, expire);
    forall mac | mac in Withdrawn(table, rfs, now, hold, expire)
      ensures mac in macs
    {
      var r :| r in table && r in rfs && table[r].up && !HeldTooLong(table[r], now, hold)
               && Expired(table[r], now, expire) && mac in table[r].info.destinations;
      assert r in rfs + {rf};
    }
    assert rf in rfs + {rf};
  }
}
