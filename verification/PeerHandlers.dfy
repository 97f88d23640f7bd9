/**
 The session handlers that touch IP ownership (Peer.cpp), working on the shared information base
 objects.  Each moves the abstract base of `IpOwnership` by its function, so what is proved there
 about the messages of peers holds of these objects.
 */
module PeerHandlers {
  import opened Wrappers
  import opened Serialize
  import opened ProtocolConfig
  import opened DataItem
  import opened InfoBase
  import opened InfoBaseObjects
  import opened IpOwnership

  class Dlep {
    const cfg: Config
    const statusId: u32
    const localPdp: PeerData
    var peers: map<string, PeerData>
    ghost var base: Base
    ghost var Repr: set<object>

    /** The objects of the information base: the peer objects and all their destinations. */
    ghost predicate Owns(p: PeerData)
      reads this`Repr, Repr
    {
      && p in Repr && p.Repr <= Repr
      && p.cfg == cfg && p.statusId == statusId && p.Valid()
    }

    /** Objects of different peers are different objects. */
    ghost predicate Apart(p: PeerData, q: PeerData)
      reads p, q
    {
      p != q && p.Repr !! q.Repr
    }

    ghost predicate Valid()
      reads this, Repr
    {
      && this !in Repr
      && Owns(localPdp) && base.local == localPdp.model
      && base.peers.Keys == peers.Keys
      && (forall id :: id in peers ==> Owns(peers[id]) && base.peers[id] == peers[id].model)
      && (forall id :: id in peers ==> peers[id] in Repr && localPdp in Repr && Apart(localPdp, peers[id]))
      && (forall id, id' :: id in peers && id' in peers && id != id' ==>
            peers[id] in Repr && peers[id'] in Repr && Apart(peers[id], peers[id']))
    }

    /** Working on one peer leaves all other objects of the base as they were. */
    twostate lemma OthersUntouched(id: string)
      requires old(Valid()) && id in old(peers) && peers == old(peers)
      requires old(Repr) <= Repr
      requires forall o :: o in old(Repr) && o != old(peers)[id] && o !in old(peers[id].Repr) ==> unchanged(o)
      ensures localPdp.Valid() && localPdp.model == old(localPdp.model) && localPdp.Repr == old(localPdp.Repr)
      ensures forall other :: other in peers && other != id ==>
                && peers[other].Valid() && peers[other].model == old(peers[other].model)
                && peers[other].Repr == old(peers[other].Repr)
    {
      hide PeerData.Valid;
      assert old(Apart(localPdp, peers[id]));
      Untouched(localPdp);
      forall other | other in peers && other != id
        ensures peers[other].Valid() && peers[other].model == old(peers[other].model)
        ensures peers[other].Repr == old(peers[other].Repr)
      {
        assert old(Apart(peers[id], peers[other]));
        assert old(Owns(peers[other]));
        Untouched(peers[other]);
      }
    }

    /** And objects of different peers are still different objects. */
    twostate lemma StillApart(id: string)
      requires old(Valid()) && id in old(peers) && peers == old(peers)
      requires forall o :: o in peers[id].Repr && o !in old(peers[id].Repr) ==> fresh(o)
      requires forall o :: o in old(Repr) && o != old(peers)[id] && o !in old(peers[id].Repr) ==> unchanged(o)
      requires old(Repr) <= Repr
      ensures forall other :: other in peers ==> Apart(localPdp, peers[other])
      ensures forall a, b :: a in peers && b in peers && a != b ==> Apart(peers[a], peers[b])
    {
      hide PeerData.Valid;
      OthersUntouched(id);
      forall other | other in peers
        ensures Apart(localPdp, peers[other])
      {
        assert old(Apart(localPdp, peers[other]));
      }
      forall a, b | a in peers && b in peers && a != b
        ensures Apart(peers[a], peers[b])
      {
        assert old(Apart(peers[a], peers[b]));
      }
    }

    /** So the whole base is consistent again once the one peer is. */
    twostate lemma Consistent(id: string)
      requires old(Valid()) && id in old(peers) && peers == old(peers) && this !in old(Repr)
      requires peers[id].Valid() && base == SetPeer(old(base), id, peers[id].model)
      requires Repr == old(Repr) + peers[id].Repr
      requires this !in Repr && forall o :: o in peers[id].Repr && o !in old(peers[id].Repr) ==> fresh(o)
      requires forall o :: o in old(Repr) && o != old(peers)[id] && o !in old(peers[id].Repr) ==> unchanged(o)
      ensures Valid()
    {
      hide PeerData.Valid, Apart;
      OthersUntouched(id);
      StillApart(id);
      assert old(Owns(peers[id])) && old(Owns(localPdp));
      forall other | other in peers
        ensures Owns(peers[other]) && base.peers[other] == peers[other].model
      {
        assert old(Owns(peers[other]));
      }
    }

    /** A node without peers, destinations or addresses. */
    constructor (cfg: Config, statusId: u32)
      ensures Valid() && fresh(Repr) && base == Base(EMPTY_PEER, map[])
      ensures this.cfg == cfg && this.statusId == statusId
    {
      var local := new PeerData(cfg, statusId);
      this.cfg, this.statusId, localPdp, peers := cfg, statusId, local, map[];
      base, Repr := Base(EMPTY_PEER, map[]), {local};
    }

    /** A fresh peer object is apart from everything there was, which stays as it was. */
    twostate lemma Joined(id: string, new pdp: PeerData)
      requires old(Valid()) && this !in old(Repr) && fresh(pdp) && pdp.Valid()
      requires pdp.Repr == {} && pdp.cfg == cfg && pdp.statusId == statusId && pdp.model == EMPTY_PEER
      requires peers == old(peers)[id := pdp] && base == SetPeer(old(base), id, EMPTY_PEER)
      requires Repr == old(Repr) + {pdp} && forall o :: o in old(Repr) ==> unchanged(o)
      ensures Valid()
    {
      hide PeerData.Valid;
      assert old(Owns(localPdp));
      Untouched(localPdp);
      forall other | other in peers
        ensures Owns(peers[other]) && base.peers[other] == peers[other].model
        ensures Apart(localPdp, peers[other])
      {
        if other != id {
          assert old(Owns(peers[other])) && old(Apart(localPdp, peers[other]));
          Untouched(peers[other]);
        }
      }
      forall a, b | a in peers && b in peers && a != b
        ensures Apart(peers[a], peers[b])
      {
        if a != id {
          assert old(Owns(peers[a]));
        }
        if b != id {
          assert old(Owns(peers[b]));
        }
        if a != id && b != id {
          assert old(Apart(peers[a], peers[b]));
        }
      }
    }

    /** A new session starts with an empty peer. */
    method AddPeer(id: string)
      requires Valid()
      modifies this`peers, this`base, this`Repr
      ensures Valid() && base == IpOwnership.Step(cfg, statusId, old(base), Joins(id))
    {
      hide PeerData.Valid;
      var pdp := new PeerData(cfg, statusId);
      peers := peers[id := pdp];
      base := SetPeer(base, id, EMPTY_PEER);
      Repr := Repr + {pdp};
      Joined(id, pdp);
    }

    /** Search the local node, then every peer. */
    method IsHeld(item: Item) returns (held: bool)
      requires Valid()
      ensures held <==> Held(base, item)
    {
      held := localPdp.FindIpDataItem(item);
      if held {
        return;
      }
      var todo := peers.Keys;
      while todo != {}
        invariant todo <= peers.Keys
        invariant !held && forall id :: id in peers.Keys - todo ==> !HeldBy(base.peers[id], item)
        decreases |todo|
      {
        var id :| id in todo;
        held := peers[id].FindIpDataItem(item);
        if held {
          return;
        }
        todo := todo - {id};
      }
    }

    /** `validate_ip_data_items`. */
    method ValidateIpDataItems(items: seq<Item>, existing: seq<Item>) returns (ok: bool)
      requires Valid()
      ensures ok <==> ValidIps(cfg, base, items, existing)
    {
      for k := 0 to |items|
        invariant forall i :: 0 <= i < k ==> ValidIp(cfg, base, items[i], existing)
      {
        var ndi := items[k];
        if IsIpAddr(cfg, ndi.id) {
          if IpFlags(ndi) % 2 == 1 {
            var held := IsHeld(ndi);
            if held {
              assert !ValidIp(cfg, base, items[k], existing);
              return false;
            }
          } else {
            var found := InfoBase.FindIpDataItem(existing, ndi);
            if !found {
              assert !ValidIp(cfg, base, items[k], existing);
              return false;
            }
          }
        }
      }
      ok := true;
    }

    /** A session update: checked, then applied to the peer and its destinations as a whole. */
    method HandlePeerUpdate(id: string, items: seq<Item>) returns (outcome: Outcome)
      requires Valid() && id in peers
      modifies this`base, peers[id], peers[id].Repr
      ensures Valid() && (base, outcome) == SessionUpdate(cfg, statusId, old(base), id, items)
    {
      hide ValidIp, UpdatePeer, MetricsKnown, PeerData.Valid;
      var pdp := peers[id];
      FieldsAreModel(pdp);
      var valid := ValidateIpDataItems(items, pdp.ipDataItems);
      if !valid {
        return Ended;
      }
      var updated := pdp.UpdateDataItems(items);
      if updated {
        base := SetPeer(base, id, pdp.model);
        Consistent(id);
        return Done;
      }
      NothingUpdated(cfg, statusId, old(pdp.model), items);
      Consistent(id);
      return Refused;
    }

    /** A destination comes up at a peer; the client has its say before it is stored. */
    method HandleDestinationUp(id: string, mac: Mac, items: seq<Item>, clientAccepts: bool) returns (outcome: Outcome)
      requires Valid() && id in peers
      modifies this`base, this`Repr, peers[id], peers[id].Repr
      ensures Valid() && (base, outcome) == DestinationUp(cfg, old(base), id, mac, items, clientAccepts)
    {
      hide ValidIp, NewDestination, PeerData.Valid;
      var pdp := peers[id];
      FieldsAreModel(pdp);
      if mac in pdp.destinationData {
        return Refused;
      }
      var valid := ValidateIpDataItems(items, []);
      if !valid {
        return Ended;
      }
      if !clientAccepts {
        return Refused;
      }
      var ok := pdp.AddDestination(mac, items);
      base := SetPeer(base, id, pdp.model);
      Repr := Repr + pdp.Repr;
      Consistent(id);
      return Done;
    }

    /** A peer updates one of its destinations. */
    method HandleDestinationUpdate(id: string, mac: Mac, items: seq<Item>) returns (outcome: Outcome)
      requires Valid() && id in peers
      modifies this`base, peers[id], peers[id].Repr
      ensures Valid() && (base, outcome) == DestinationUpdate(cfg, old(base), id, mac, items)
    {
      hide ValidIp, UpdateDestination, PeerData.Valid;
      var pdp := peers[id];
      FieldsAreModel(pdp);
      if mac !in pdp.destinationData {
        return Ended;
      }
      var ddp := pdp.destinationData[mac];
      var valid := ValidateIpDataItems(items, ddp.ipDataItems);
      if !valid {
        return Ended;
      }
      var ok := pdp.UpdateOne(mac, items);
      base := SetPeer(base, id, pdp.model);
      Consistent(id);
      return Done;
    }

    /** The part of an announce that touches the base: a new destination is stored as it is. */
    method StoreAnnouncedDestination(id: string, mac: Mac, items: seq<Item>) returns (isNew: bool)
      requires Valid() && id in peers
      modifies this`base, this`Repr, peers[id], peers[id].Repr
      ensures Valid() && base == StoreAnnounced(cfg, old(base), id, mac, items)
      ensures isNew <==> mac !in old(base).peers[id].destinations
    {
      hide NewDestination, PeerData.Valid;
      var pdp := peers[id];
      FieldsAreModel(pdp);
      if mac in pdp.destinationData {
        return false;
      }
      isNew := pdp.AddDestination(mac, items);
      base := SetPeer(base, id, pdp.model);
      Repr := Repr + pdp.Repr;
      Consistent(id);
    }

    /** An initialization response updates the peer without any check of its addresses. */
    method HandlePeerInitializationResponse(id: string, items: seq<Item>)
      requires Valid() && id in peers
      modifies this`base, peers[id], peers[id].Repr
      ensures Valid() && base == Initialize(cfg, statusId, old(base), id, items)
    {
      hide UpdatePeer, PeerData.Valid;
      var pdp := peers[id];
      var updated := pdp.UpdateDataItems(items);
      base := SetPeer(base, id, pdp.model);
      Consistent(id);
    }

    /** So does a link characteristics response, for a known destination; any other ends the session. */
    method HandleLinkCharacteristicsResponse(id: string, mac: Mac, items: seq<Item>) returns (known: bool)
      requires Valid() && id in peers
      modifies this`base, peers[id], peers[id].Repr
      ensures Valid() && base == IpOwnership.Step(cfg, statusId, old(base), ReportsLink(id, mac, items))
      ensures known <==> mac in old(base).peers[id].destinations
    {
      hide UpdateDestination, PeerData.Valid;
      var pdp := peers[id];
      known := pdp.UpdateOne(mac, items);
      ghost var was := base;
      base := SetPeer(base, id, pdp.model);
      assert !known ==> base == was;
      Consistent(id);
    }

    /**
     A Destination Down: of one of the peer's own destinations, which goes; of one of ours, which
     the peer does not care for; or of an unknown one, which ends the session.
     */
    method HandleDestinationDown(id: string, mac: Mac) returns (meaning: DownMeaning)
      requires Valid() && id in peers
      modifies this`base, peers[id]
      ensures Valid() && base == RemoveDestination(old(base), id, mac)
      ensures meaning == if mac in old(base).peers[id].destinations then Removed
                         else if mac in old(base).local.destinations then NoInterest
                         else Unknown
    {
      hide PeerData.Valid;
      var pdp := peers[id];
      var ok := pdp.RemoveDestination(mac);
      base := SetPeer(base, id, pdp.model);
      Consistent(id);
      if ok {
        return Removed;
      }
      FieldsAreModel(localPdp);
      return if mac in localPdp.destinationData then NoInterest else Unknown;
    }
  }

  /** What a Destination Down turned out to mean. */
  datatype DownMeaning = Removed | NoInterest | Unknown

  lemma NothingUpdated(cfg: Config, statusId: u32, p: PeerInfo, items: seq<Item>)
    requires !MetricsKnown(cfg, p.metrics, items)
    ensures UpdatePeer(cfg, statusId, p, items) == p
  {
  }
}
