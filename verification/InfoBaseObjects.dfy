/**
 The information base's objects (InfoBaseMgr.h): a `PeerData` that owns shared `DestinationData`
 objects and updates them in place.  Each method is proved against the value functions of
 `InfoBase`; sending the resulting messages to the peers is left to the session.
 */
module InfoBaseObjects {
  import opened Wrappers
  import opened Serialize
  import opened ProtocolConfig
  import opened DataItem
  import opened InfoBase

  class DestinationData {
    const cfg: Config
    const mac: Mac
    var metricDataItems: map<u32, Item>
    var ipDataItems: seq<Item>
    var needsResponse: Option<u32>

    ghost function View(): Destination
      reads this
    {
      Destination(metricDataItems, ipDataItems, needsResponse)
    }

    constructor (cfg: Config, mac: Mac, items: seq<Item>)
      ensures this.cfg == cfg && this.mac == mac
      ensures View() == NewDestination(cfg, items)
    {
      this.cfg, this.mac := cfg, mac;
      metricDataItems, ipDataItems, needsResponse := map[], [], None;
      new;
      var count := Update(items);
    }

    /** Record each metric and each address change, and count them. */
    method Update(updates: seq<Item>) returns (count: nat)
      modifies this
      ensures View() == UpdateDestination(cfg, old(View()), updates)
      ensures needsResponse == old(needsResponse)
      ensures count == |MetricItems(cfg, updates)| + |IpItems(cfg, updates)|
    {
      count := 0;
      for k := 0 to |updates|
        invariant View() == UpdateDestination(cfg, old(View()), updates[..k])
        invariant needsResponse == old(needsResponse)
        invariant count == |MetricItems(cfg, updates[..k])| + |IpItems(cfg, updates[..k])|
      {
        var di := updates[k];
        assert updates[..k + 1][..k] == updates[..k];
        if IsMetric(cfg, di.id) {
          metricDataItems := metricDataItems[di.id := di];
          count := count + 1;
        } else if IsIpAddr(cfg, di.id) {
          ipDataItems := UpdateIpDataItems(ipDataItems, di);
          count := count + 1;
        }
      }
      assert updates[..|updates|] == updates;
    }

    method SetNeedsResponse(responseId: Option<u32>)
      modifies this`needsResponse
      ensures needsResponse == responseId
    {
      needsResponse := responseId;
    }
  }

  lemma NoItems(cfg: Config, statusId: u32, metrics: map<u32, Item>, ips: seq<Item>)
    ensures MetricItems(cfg, []) == IpItems(cfg, []) == OtherItems(cfg, statusId, []) == []
    ensures FoldMetrics(metrics, []) == metrics && FoldIps(ips, []) == ips
  {
  }

  lemma NothingToUpdate(cfg: Config, d: Destination)
    ensures UpdateDestination(cfg, d, []) == d
  {
  }

  /** How one more item extends the folds over the items so far. */
  lemma OneMoreItem(cfg: Config, statusId: u32, front: seq<Item>, di: Item, metrics: map<u32, Item>, ips: seq<Item>)
    ensures var items := front + [di];
            var ms, ns, os := MetricItems(cfg, front), IpItems(cfg, front), OtherItems(cfg, statusId, front);
            && MetricItems(cfg, items) == (if IsMetric(cfg, di.id) then ms + [di] else ms)
            && IpItems(cfg, items) == (if !IsMetric(cfg, di.id) && IsIpAddr(cfg, di.id) then ns + [di] else ns)
            && OtherItems(cfg, statusId, items) ==
               (if !IsMetric(cfg, di.id) && !IsIpAddr(cfg, di.id) && di.id != statusId then os + [di] else os)
            && FoldMetrics(metrics, ms + [di]) == FoldMetrics(metrics, ms)[di.id := di]
            && FoldIps(ips, ns + [di]) == UpdateIps(FoldIps(ips, ns), di)
  {
    var ms, ns := MetricItems(cfg, front), IpItems(cfg, front);
    assert (front + [di])[..|front|] == front;
    assert (ms + [di])[..|ms|] == ms && (ns + [di])[..|ns|] == ns;
  }

  /** The destinations when all but `todo` have been updated. */
  ghost function PartlyUpdated(cfg: Config, was: map<Mac, Destination>, todo: set<Mac>, updates: seq<Item>)
    : map<Mac, Destination>
  {
    map mac | mac in was :: if mac in todo then was[mac] else UpdateDestination(cfg, was[mac], updates)
  }

  lemma NoneUpdated(cfg: Config, was: map<Mac, Destination>, updates: seq<Item>)
    ensures PartlyUpdated(cfg, was, was.Keys, updates) == was
  {
  }

  lemma OneMoreUpdated(cfg: Config, was: map<Mac, Destination>, todo: set<Mac>, mac: Mac, updates: seq<Item>)
    requires mac in todo && todo <= was.Keys
    ensures var now := PartlyUpdated(cfg, was, todo, updates);
            && mac in now && now[mac] == was[mac]
            && PartlyUpdated(cfg, was, todo - {mac}, updates) == now[mac := UpdateDestination(cfg, was[mac], updates)]
  {
  }

  lemma AllUpdated(cfg: Config, was: map<Mac, Destination>, updates: seq<Item>)
    ensures PartlyUpdated(cfg, was, {}, updates) == map mac | mac in was :: UpdateDestination(cfg, was[mac], updates)
  {
  }

  class PeerData {
    const cfg: Config
    const statusId: u32
    var metricDataItems: map<u32, Item>
    var ipDataItems: seq<Item>
    var otherDataItems: seq<Item>
    var destinationData: map<Mac, DestinationData>
    ghost var model: PeerInfo
    ghost var Repr: set<DestinationData>

    /** The fields are the model, and every destination has an object of its own. */
    ghost predicate Valid()
      reads this, Repr
    {
      && model.metrics == metricDataItems
      && model.ips == ipDataItems
      && model.others == otherDataItems
      && model.destinations.Keys == destinationData.Keys
      && (forall mac :: mac in destinationData ==>
            && destinationData[mac] in Repr
            && destinationData[mac].mac == mac
            && destinationData[mac].cfg == cfg)
      && (forall mac :: mac in destinationData ==>
            destinationData[mac] in Repr && destinationData[mac].View() == model.destinations[mac])
    }

    constructor (cfg: Config, statusId: u32)
      ensures Valid() && model == EMPTY_PEER && this.cfg == cfg && this.statusId == statusId && Repr == {}
    {
      this.cfg, this.statusId := cfg, statusId;
      metricDataItems, ipDataItems, otherDataItems, destinationData := map[], [], [], map[];
      model, Repr := EMPTY_PEER, {};
    }

    /** Add a destination unless it is already there. */
    method AddDestination(mac: Mac, items: seq<Item>) returns (ok: bool)
      requires Valid()
      modifies this`destinationData, this`model, this`Repr
      ensures Valid() && fresh(Repr - old(Repr))
      ensures ok <==> mac !in old(model).destinations
      ensures model == if ok then old(model).(destinations := old(model).destinations[mac := NewDestination(cfg, items)])
                       else old(model)
    {
      if mac in destinationData {
        return false;
      }
      var ddp := new DestinationData(cfg, mac, items);
      destinationData := destinationData[mac := ddp];
      model := model.(destinations := model.destinations[mac := NewDestination(cfg, items)]);
      Repr := Repr + {ddp};
      ok := true;
    }

    method RemoveDestination(mac: Mac) returns (ok: bool)
      requires Valid()
      modifies this`destinationData, this`model
      ensures Valid()
      ensures ok <==> mac in old(model).destinations
      ensures model == old(model).(destinations := old(model).destinations - {mac})
    {
      ok := mac in destinationData;
      destinationData := destinationData - {mac};
      model := model.(destinations := model.destinations - {mac});
    }

    /** Update one destination through its shared object. */
    method UpdateOne(mac: Mac, updates: seq<Item>) returns (ok: bool)
      requires Valid()
      modifies this`model, Repr
      ensures Valid()
      ensures ok <==> mac in old(model).destinations
      ensures model == if ok
                       then old(model).(destinations := old(model).destinations[mac :=
                              UpdateDestination(cfg, old(model).destinations[mac], updates)])
                       else old(model)
    {
      if mac !in destinationData {
        return false;
      }
      var ddp := destinationData[mac];
      var count := ddp.Update(updates);
      model := model.(destinations := model.destinations[mac :=
                        UpdateDestination(cfg, model.destinations[mac], updates)]);
      ok := true;
    }

    /** Record that a destination is owed a response, or no longer; unknown destinations are ignored. */
    method NeedsResponse(mac: Mac, responseId: Option<u32>)
      requires Valid()
      modifies this`model, Repr
      ensures Valid()
      ensures model == if mac in old(model).destinations
                       then old(model).(destinations := old(model).destinations[mac :=
                              old(model).destinations[mac].(needsResponse := responseId)])
                       else old(model)
    {
      if mac in destinationData {
        destinationData[mac].SetNeedsResponse(responseId);
        model := model.(destinations := model.destinations[mac :=
                          model.destinations[mac].(needsResponse := responseId)]);
      }
    }

    /** Store each item of an update by kind, and collect the metrics for the destinations. */
    method UpdateDataItemsHelper(items: seq<Item>) returns (destinationUpdates: seq<Item>)
      requires Valid()
      modifies this`metricDataItems, this`ipDataItems, this`otherDataItems, this`model
      ensures Valid()
      ensures destinationUpdates == MetricItems(cfg, items)
      ensures model == old(model).(metrics := FoldMetrics(old(model).metrics, MetricItems(cfg, items)),
                                   ips := FoldIps(old(model).ips, IpItems(cfg, items)),
                                   others := old(model).others + OtherItems(cfg, statusId, items))
    {
      hide MetricItems, IpItems, OtherItems, FoldMetrics, FoldIps, UpdateIps;
      destinationUpdates := [];
      NoItems(cfg, statusId, metricDataItems, ipDataItems);
      assert items[..0] == [] && otherDataItems + [] == otherDataItems;
      for k := 0 to |items|
        invariant model == old(model)
        invariant destinationUpdates == MetricItems(cfg, items[..k])
        invariant metricDataItems == FoldMetrics(old(metricDataItems), MetricItems(cfg, items[..k]))
        invariant ipDataItems == FoldIps(old(ipDataItems), IpItems(cfg, items[..k]))
        invariant otherDataItems == old(otherDataItems) + OtherItems(cfg, statusId, items[..k])
      {
        var di := items[k];
        OneMoreItem(cfg, statusId, items[..k], di, old(metricDataItems), old(ipDataItems));
        assert items[..k + 1] == items[..k] + [di];
        if IsMetric(cfg, di.id) {
          metricDataItems := metricDataItems[di.id := di];
          destinationUpdates := destinationUpdates + [di];
        } else if IsIpAddr(cfg, di.id) {
          ipDataItems := UpdateIpDataItems(ipDataItems, di);
        } else if di.id != statusId {
          otherDataItems := otherDataItems + [di];
        }
      }
      assert items[..|items|] == items;
      model := model.(metrics := metricDataItems, ips := ipDataItems, others := otherDataItems);
    }

    /** Pass metrics on to every destination object. */
    method UpdateAllDestinations(updates: seq<Item>)
      requires Valid()
      modifies this`model, Repr
      ensures Valid()
      ensures model == old(model).(destinations := map mac | mac in old(model).destinations ::
                                     UpdateDestination(cfg, old(model).destinations[mac], updates))
    {
      hide UpdateDestination, PartlyUpdated, Valid;
      var todo := destinationData.Keys;
      FieldsAreModel(this);
      ghost var was := model.destinations;
      NoneUpdated(cfg, was, updates);
      while todo != {}
        invariant Valid() && todo <= was.Keys
        invariant model == old(model).(destinations := PartlyUpdated(cfg, was, todo, updates))
        decreases |todo|
      {
        var mac :| mac in todo;
        OneMoreUpdated(cfg, was, todo, mac, updates);
        var ok := UpdateOne(mac, updates);
        todo := todo - {mac};
      }
      AllUpdated(cfg, was, updates);
    }

    /** Refuse an update with an unknown metric as a whole; otherwise apply it everywhere. */
    method UpdateDataItems(updates: seq<Item>) returns (ok: bool)
      requires Valid()
      modifies this`metricDataItems, this`ipDataItems, this`otherDataItems, this`model, Repr
      ensures Valid() && model == UpdatePeer(cfg, statusId, old(model), updates)
      ensures ok <==> MetricsKnown(cfg, old(model).metrics, updates)
    {
      hide UpdateDestination, FoldMetrics, FoldIps, MetricItems, IpItems, OtherItems;
      for k := 0 to |updates|
        invariant forall i :: 0 <= i < k ==> IsMetric(cfg, updates[i].id) ==> updates[i].id in metricDataItems
      {
        if IsMetric(cfg, updates[k].id) && updates[k].id !in metricDataItems {
          return false;
        }
      }
      var destinationUpdates := UpdateDataItemsHelper(updates);
      ghost var was := model;
      if |destinationUpdates| > 0 {
        UpdateAllDestinations(destinationUpdates);
      } else {
        assert was.destinations == map mac | mac in was.destinations :: UpdateDestination(cfg, was.destinations[mac], []) by {
          forall mac | mac in was.destinations {
            NothingToUpdate(cfg, was.destinations[mac]);
          }
        }
      }
      ok := true;
    }

    /** Is an address held by the peer itself or by one of its destinations? */
    method FindIpDataItem(item: Item) returns (found: bool)
      requires Valid()
      ensures found <==> HeldBy(model, item)
    {
      found := InfoBase.FindIpDataItem(ipDataItems, item);
      if found {
        return;
      }
      var todo := destinationData.Keys;
      while todo != {}
        invariant todo <= destinationData.Keys
        invariant forall mac :: mac in destinationData.Keys - todo ==>
                    FindIp(model.destinations[mac].ips, item) == |model.destinations[mac].ips|
        decreases |todo|
      {
        var mac :| mac in todo;
        found := InfoBase.FindIpDataItem(destinationData[mac].ipDataItems, item);
        assert destinationData[mac].View() == model.destinations[mac];
        if found {
          return;
        }
        todo := todo - {mac};
      }
    }
  }

  /** What the handlers read of a peer object. */
  lemma FieldsAreModel(p: PeerData)
    requires p.Valid()
    ensures p.destinationData.Keys == p.model.destinations.Keys && p.ipDataItems == p.model.ips
    ensures forall mac :: mac in p.destinationData ==>
              p.destinationData[mac].ipDataItems == p.model.destinations[mac].ips
  {
    forall mac | mac in p.destinationData
      ensures p.destinationData[mac].ipDataItems == p.model.destinations[mac].ips
    {
      assert p.destinationData[mac].View() == p.model.destinations[mac];
    }
  }

  /** A peer object none of whose parts was written is still what it was. */
  twostate lemma Untouched(p: PeerData)
    requires old(p.Valid()) && unchanged(p) && unchanged(p.Repr)
    ensures p.Valid()
  {
  }
}
