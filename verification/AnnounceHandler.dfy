/** The announce handling as the program does it (Peer.cpp), on the two shared peer objects. */
module AnnounceHandler {
  import opened Wrappers
  import opened Serialize
  import opened ProtocolConfig
  import opened DataItem
  import opened InfoBase
  import opened InfoBaseObjects
  import opened Announce

  class Handler {
    const cfg: Config
    const localPdp: PeerData
    const peerPdp: PeerData
    var notInterested: set<Mac>
    var sent: seq<Sent>

    ghost predicate Valid()
      reads this, localPdp, peerPdp, localPdp.Repr, peerPdp.Repr
    {
      && localPdp != peerPdp && localPdp.Repr !! peerPdp.Repr
      && localPdp.Valid() && peerPdp.Valid() && localPdp.cfg == cfg == peerPdp.cfg
    }

    ghost function View(): Side
      reads this, localPdp, peerPdp
    {
      Side(localPdp.model.destinations, peerPdp.model.destinations, notInterested, sent)
    }

    constructor (localPdp: PeerData, peerPdp: PeerData)
      requires localPdp != peerPdp && localPdp.Repr !! peerPdp.Repr
      requires localPdp.Valid() && peerPdp.Valid() && localPdp.cfg == peerPdp.cfg
      ensures Valid() && this.localPdp == localPdp && this.peerPdp == peerPdp
      ensures View() == Side(localPdp.model.destinations, peerPdp.model.destinations, {}, [])
    {
      this.cfg, this.localPdp, this.peerPdp := localPdp.cfg, localPdp, peerPdp;
      notInterested, sent := {}, [];
    }

    /** What `needs_response` finds for a destination of the router. */
    method FindNeedsResponse(mac: Mac) returns (responseId: Option<u32>)
      requires Valid()
      ensures responseId == Owed(View(), mac)
    {
      if mac !in peerPdp.destinationData {
        return None;
      }
      var ddp := peerPdp.destinationData[mac];
      assert ddp.View() == peerPdp.model.destinations[mac];
      return ddp.needsResponse;
    }

    /** Send a message that expects a response, unless the router is not interested. */
    method SendExpectingResponse(message: Sent)
      modifies this`sent
      ensures View() == Tell(old(View()), message)
    {
      if message.mac !in notInterested {
        sent := sent + [message];
      }
    }

    /** `destination_up`: the owed response, or a Destination Up. */
    method DestinationUp(mac: Mac)
      requires Valid()
      modifies this`sent, peerPdp`model, peerPdp.Repr
      ensures Valid() && View() == TellUp(old(View()), mac)
      ensures peerPdp.Repr == old(peerPdp.Repr)
    {
      hide PeerData.Valid, Tell;
      var owed := FindNeedsResponse(mac);
      if owed.Some? {
        peerPdp.NeedsResponse(mac, None);
        sent := sent + [Response(mac, owed.value)];
      } else {
        SendExpectingResponse(Sent.DestinationUp(mac));
      }
    }

    /** `handle_destination_announce`. */
    method HandleDestinationAnnounce(mac: Mac, responseId: u32, items: seq<Item>, clientStatus: string)
      requires Valid()
      modifies this, peerPdp, peerPdp.Repr
      ensures Valid() && View() == HandleAnnounce(cfg, old(View()), mac, responseId, items, clientStatus)
    {
      hide PeerData.Valid, NewDestination;
      FieldsAreModel(localPdp);
      FieldsAreModel(peerPdp);
      if mac in peerPdp.destinationData {
        sent := sent + [Refusal(mac, responseId, INVALID_MESSAGE)];
        return;
      }
      notInterested := notInterested - {mac};
      var ok := peerPdp.AddDestination(mac, items);
      if mac in localPdp.destinationData {
        peerPdp.NeedsResponse(mac, Some(responseId));
        DestinationUp(mac);
        return;
      }
      if clientStatus == "" || clientStatus == SUCCESS {
        peerPdp.NeedsResponse(mac, Some(responseId));
      } else {
        sent := sent + [Refusal(mac, responseId, clientStatus)];
      }
    }

    /** `handle_destination_down`; the result is false when nobody knows the destination. */
    method HandleDestinationDown(mac: Mac) returns (known: bool)
      requires Valid()
      modifies this`notInterested, this`sent, peerPdp`destinationData, peerPdp`model
      ensures Valid() && View() == HandleDown(old(View()), mac)
      ensures known <==> mac in old(View()).peer || mac in old(View()).local
    {
      hide PeerData.Valid;
      FieldsAreModel(localPdp);
      known := peerPdp.RemoveDestination(mac);
      if !known {
        assert peerPdp.model.destinations == old(peerPdp.model.destinations);
        if mac !in localPdp.destinationData {
          return;
        }
        known := true;
        notInterested := notInterested + {mac};
      }
      sent := sent + [DownResponse(mac)];
    }

    /** The local node adds a destination and tells the router. */
    method AddLocalDestination(mac: Mac, items: seq<Item>) returns (ok: bool)
      requires Valid()
      modifies this`sent, localPdp, peerPdp`model, peerPdp.Repr
      ensures Valid() && View() == Step(cfg, old(View()), LocalUp(mac, items))
      ensures ok <==> mac !in old(View()).local
    {
      hide PeerData.Valid, NewDestination;
      ok := localPdp.AddDestination(mac, items);
      if ok {
        DestinationUp(mac);
      }
    }

    /** The local node removes a destination and tells the router. */
    method RemoveLocalDestination(mac: Mac) returns (ok: bool)
      requires Valid()
      modifies this`sent, localPdp
      ensures Valid() && View() == Step(cfg, old(View()), LocalDown(mac))
      ensures ok <==> mac in old(View()).local
    {
      hide PeerData.Valid;
      ok := localPdp.RemoveDestination(mac);
      if ok {
        SendExpectingResponse(Sent.DestinationDown(mac));
      } else {
        assert localPdp.model.destinations == old(localPdp.model.destinations);
      }
    }

    /** The client removes a destination the router announced. */
    method RemoveDestination(mac: Mac) returns (ok: bool)
      requires Valid()
      modifies this`sent, peerPdp
      ensures Valid() && View() == Step(cfg, old(View()), ClientRemoves(mac))
      ensures ok <==> mac in old(View()).peer
    {
      hide PeerData.Valid;
      ok := peerPdp.RemoveDestination(mac);
      if ok {
        SendExpectingResponse(Sent.DestinationDown(mac));
      } else {
        assert peerPdp.model.destinations == old(peerPdp.model.destinations);
      }
    }
  }
}
