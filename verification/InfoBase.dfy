/**
 The information base (InfoBaseMgr.cpp): per destination and per peer, a map of metrics and a
 deduplicated list of IP addresses and subnets, updated item by item.
 */
module InfoBase {
  import opened Wrappers
  import opened Serialize
  import opened ProtocolConfig
  import opened DataItem

  // ---- IP items (DataItem.cpp, ip_equal and ip_flags) ----

  /** Same value type and same address, and same subnet size where there is one. */
  function IpEqual(a: Item, b: Item): bool {
    TypeOf(a.value) == TypeOf(b.value) &&
    match a.value
    case U8Ipv4(_, ip) => ip == b.value.ip4
    case U8Ipv6(_, ip) => ip == b.value.ip6
    case U8Ipv4U8(_, ip, mask) => ip == b.value.ip4 && mask == b.value.mask
    case U8Ipv6U8(_, ip, mask) => ip == b.value.ip6 && mask == b.value.mask
    case _ => false
  }

  function IpFlags(item: Item): byte {
    match item.value
    case U8Ipv4(flags, _) => flags
    case U8Ipv6(flags, _) => flags
    case U8Ipv4U8(flags, _, _) => flags
    case U8Ipv6U8(flags, _, _) => flags
    case _ => 0
  }

  /** Bit 0 of the flags: the address is being added, not dropped. */
  predicate IsAdd(item: Item) {
    IpFlags(item) % 2 == 1
  }

  /** What an IP item identifies. */
  datatype IpKey = IpKey(t: ValueType, address: seq<byte>, mask: byte)

  function KeyOf(item: Item): Option<IpKey> {
    match item.value
    case U8Ipv4(_, ip) => Some(IpKey(TU8Ipv4, ip, 0))
    case U8Ipv6(_, ip) => Some(IpKey(TU8Ipv6, ip, 0))
    case U8Ipv4U8(_, ip, mask) => Some(IpKey(TU8Ipv4U8, ip, mask))
    case U8Ipv6U8(_, ip, mask) => Some(IpKey(TU8Ipv6U8, ip, mask))
    case _ => None
  }

  /**
   The comparison is key equality, so it is symmetric and transitive; but it is reflexive only on
   items that have a key.  A connection point is not even equal to itself.
   */
  lemma IpEqualIsKeyEquality(a: Item, b: Item)
    ensures IpEqual(a, b) <==> KeyOf(a).Some? && KeyOf(a) == KeyOf(b)
    ensures IsAdd(a) ==> KeyOf(a).Some?
  {
  }

  // ---- One address list ----

  /** Index of the first item equal to the given one, or the length of the list. */
  function FindIp(ips: seq<Item>, item: Item): (k: nat)
    ensures k <= |ips|
    ensures k < |ips| ==> IpEqual(ips[k], item)
    ensures forall i :: 0 <= i < k ==> !IpEqual(ips[i], item)
  {
    if ips == [] then 0
    else if IpEqual(ips[0], item) then 0
    else 1 + FindIp(ips[1..], item)
  }

  /** The list after one add or drop. */
  function UpdateIps(ips: seq<Item>, item: Item): seq<Item> {
    var k := FindIp(ips, item);
    if k < |ips| then (if IsAdd(item) then ips else ips[..k] + ips[k + 1..])
    else if IsAdd(item) then ips + [item]
    else ips
  }

  /** The list after many adds and drops. */
  function FoldIps(ips: seq<Item>, items: seq<Item>): seq<Item> {
    if items == [] then ips else UpdateIps(FoldIps(ips, items[..|items| - 1]), items[|items| - 1])
  }

  /** No two equal entries, and only entries that were added. */
  ghost predicate IpsOk(ips: seq<Item>) {
    && (forall i, j :: 0 <= i < j < |ips| ==> !IpEqual(ips[i], ips[j]))
    && (forall i :: 0 <= i < |ips| ==> IsAdd(ips[i]))
  }

  ghost predicate HasKey(ips: seq<Item>, key: IpKey) {
    exists i :: 0 <= i < |ips| && KeyOf(ips[i]) == Some(key)
  }

  /** Taking an entry out takes its key out, since no other entry has it. */
  lemma RemoveIp(ips: seq<Item>, k: nat, key: IpKey)
    requires IpsOk(ips) && k < |ips|
    ensures IpsOk(ips[..k] + ips[k + 1..])
    ensures HasKey(ips[..k] + ips[k + 1..], key) <==> HasKey(ips, key) && KeyOf(ips[k]) != Some(key)
  {
    hide IpEqual, KeyOf;
    var ips' := ips[..k] + ips[k + 1..];
    assert forall i :: 0 <= i < |ips'| ==> ips'[i] == ips[if i < k then i else i + 1];
    if HasKey(ips', key) {
      var i :| 0 <= i < |ips'| && KeyOf(ips'[i]) == Some(key);
      var j := if i < k then i else i + 1;
      IpEqualIsKeyEquality(ips[j], ips[k]);
      IpEqualIsKeyEquality(ips[k], ips[j]);
      assert KeyOf(ips[j]) == Some(key);
    }
    if HasKey(ips, key) && KeyOf(ips[k]) != Some(key) {
      var i :| 0 <= i < |ips| && KeyOf(ips[i]) == Some(key);
      assert KeyOf(ips'[if i < k then i else i - 1]) == Some(key);
    }
  }

  lemma AppendIp(ips: seq<Item>, item: Item, key: IpKey)
    requires IpsOk(ips) && IsAdd(item) && forall i :: 0 <= i < |ips| ==> !IpEqual(ips[i], item)
    ensures IpsOk(ips + [item])
    ensures HasKey(ips + [item], key) <==> HasKey(ips, key) || KeyOf(item) == Some(key)
  {
    hide IpEqual, KeyOf;
    var ips' := ips + [item];
    if HasKey(ips, key) {
      var i :| 0 <= i < |ips| && KeyOf(ips[i]) == Some(key);
      assert KeyOf(ips'[i]) == Some(key);
    }
    if KeyOf(item) == Some(key) {
      assert KeyOf(ips'[|ips|]) == Some(key);
    }
  }

  /** One update keeps the list free of duplicates and acts on its keys as set insertion or removal. */
  lemma UpdateIpsRefinesSet(ips: seq<Item>, item: Item, key: IpKey)
    requires IpsOk(ips)
    ensures IpsOk(UpdateIps(ips, item))
    ensures HasKey(UpdateIps(ips, item), key) <==>
            if KeyOf(item) == Some(key) then IsAdd(item) else HasKey(ips, key)
  {
    hide IpEqual, KeyOf;
    var k := FindIp(ips, item);
    forall i | 0 <= i < |ips| {
      IpEqualIsKeyEquality(ips[i], item);
    }
    if k < |ips| {
      RemoveIp(ips, k, key);
    } else if IsAdd(item) {
      AppendIp(ips, item, key);
    }
  }

  /** Whether a key is in the set after adds and drops: the last word on it decides. */
  ghost predicate KeyAfter(before: bool, key: IpKey, items: seq<Item>) {
    if items == [] then before
    else if KeyOf(items[|items| - 1]) == Some(key) then IsAdd(items[|items| - 1])
    else KeyAfter(before, key, items[..|items| - 1])
  }

  /** Any sequence of updates refines the set-level fold of its adds and drops. */
  lemma {:induction false} FoldIpsRefinesSet(ips: seq<Item>, items: seq<Item>, key: IpKey)
    requires IpsOk(ips)
    ensures IpsOk(FoldIps(ips, items))
    ensures HasKey(FoldIps(ips, items), key) <==> KeyAfter(HasKey(ips, key), key, items)
  {
    if items != [] {
      FoldIpsRefinesSet(ips, items[..|items| - 1], key);
      UpdateIpsRefinesSet(FoldIps(ips, items[..|items| - 1]), items[|items| - 1], key);
    }
  }

  /** Items whose last mention decides about a key. */
  ghost predicate LastWord(items: seq<Item>, i: nat)
    requires i < |items|
  {
    KeyOf(items[i]).Some? && forall j :: i < j < |items| ==> KeyOf(items[j]) != KeyOf(items[i])
  }

  /** The fold, said without a fold: a key is present if its last mention adds it, or it was and is not mentioned. */
  lemma {:induction false} KeyAfterExactly(before: bool, key: IpKey, items: seq<Item>)
    ensures KeyAfter(before, key, items) <==>
            || (exists i :: 0 <= i < |items| && LastWord(items, i) && KeyOf(items[i]) == Some(key) && IsAdd(items[i]))
            || (before && forall i :: 0 <= i < |items| ==> KeyOf(items[i]) != Some(key))
  {
    if items != [] {
      var n := |items| - 1;
      var front := items[..n];
      if KeyOf(items[n]) == Some(key) {
        assert LastWord(items, n);
        assert forall i :: 0 <= i < n && LastWord(items, i) ==> KeyOf(items[i]) != Some(key);
      } else {
        KeyAfterExactly(before, key, front);
        forall i | 0 <= i < n && KeyOf(items[i]) == Some(key)
          ensures LastWord(items, i) <==> LastWord(front, i)
        {
          if LastWord(front, i) {
            forall j | i < j < |items|
              ensures KeyOf(items[j]) != KeyOf(items[i])
            {
              assert j < n ==> front[j] == items[j];
            }
          }
          if LastWord(items, i) {
            forall j | i < j < n
              ensures KeyOf(front[j]) != KeyOf(front[i])
            {
              assert front[j] == items[j] && front[i] == items[i];
            }
          }
        }
      }
    }
  }

  /** `update_ip_data_items`: one pass over the list, erasing or appending in place. */
  method UpdateIpDataItems(ips: seq<Item>, item: Item) returns (out: seq<Item>)
    ensures out == UpdateIps(ips, item)
  {
    var adding := IpFlags(item) % 2 == 1;
    out := ips;
    var k := 0;
    while k < |ips|
      invariant 0 <= k <= |ips|
      invariant FindIp(ips, item) == k + FindIp(ips[k..], item)
    {
      if IpEqual(ips[k], item) {
        if !adding {
          out := ips[..k] + ips[k + 1..];
        }
        return;
      }
      assert ips[k..][1..] == ips[k + 1..];
      k := k + 1;
    }
    if adding {
      out := out + [item];
    }
  }

  /** `DataItem::find_ip_data_item`. */
  method FindIpDataItem(ips: seq<Item>, item: Item) returns (found: bool)
    ensures found <==> FindIp(ips, item) < |ips|
    ensures found <==> exists i :: 0 <= i < |ips| && IpEqual(ips[i], item)
  {
    for k := 0 to |ips|
      invariant forall i :: 0 <= i < k ==> !IpEqual(ips[i], item)
    {
      IpEqualIsKeyEquality(item, ips[k]);
      IpEqualIsKeyEquality(ips[k], item);
      if IpEqual(item, ips[k]) {
        return true;
      }
    }
    found := false;
  }

  // ---- Destinations and peers as values ----

  predicate IsMetric(cfg: Config, id: u32) {
    id != ID_UNDEFINED && InfoOfId(cfg, id, None).Some? && InfoOfId(cfg, id, None).value.isMetric
  }

  predicate IsIpType(t: ValueType) {
    t in {TU8Ipv4, TU8Ipv6, TU8Ipv4U16, TU8Ipv6U16, TU8Ipv4U8, TU8Ipv6U8}
  }

  predicate IsIpAddr(cfg: Config, id: u32) {
    id != ID_UNDEFINED && InfoOfId(cfg, id, None).Some? && IsIpType(InfoOfId(cfg, id, None).value.valueType)
  }

  datatype Destination = Destination(metrics: map<u32, Item>, ips: seq<Item>, needsResponse: Option<u32>)

  datatype PeerInfo = PeerInfo(
    metrics: map<u32, Item>,
    ips: seq<Item>,
    others: seq<Item>,
    destinations: map<Mac, Destination>)

  const EMPTY_PEER := PeerInfo(map[], [], [], map[])

  /** Is an address held by a peer itself or by one of its destinations? */
  predicate HeldBy(p: PeerInfo, item: Item) {
    || FindIp(p.ips, item) < |p.ips|
    || exists mac :: mac in p.destinations && FindIp(p.destinations[mac].ips, item) < |p.destinations[mac].ips|
  }

  function UpdateDestinationItem(cfg: Config, d: Destination, item: Item): Destination {
    if IsMetric(cfg, item.id) then d.(metrics := d.metrics[item.id := item])
    else if IsIpAddr(cfg, item.id) then d.(ips := UpdateIps(d.ips, item))
    else d
  }

  function UpdateDestination(cfg: Config, d: Destination, items: seq<Item>): Destination {
    if items == [] then d
    else UpdateDestinationItem(cfg, UpdateDestination(cfg, d, items[..|items| - 1]), items[|items| - 1])
  }

  function NewDestination(cfg: Config, items: seq<Item>): Destination {
    UpdateDestination(cfg, Destination(map[], [], None), items)
  }

  /** The items of a message that touch the address list. */
  function IpItems(cfg: Config, items: seq<Item>): seq<Item> {
    if items == [] then []
    else
      var last := items[|items| - 1];
      var front := IpItems(cfg, items[..|items| - 1]);
      if !IsMetric(cfg, last.id) && IsIpAddr(cfg, last.id) then front + [last] else front
  }

  /** The items of a message that set metrics. */
  function MetricItems(cfg: Config, items: seq<Item>): seq<Item> {
    if items == [] then []
    else
      var last := items[|items| - 1];
      var front := MetricItems(cfg, items[..|items| - 1]);
      if IsMetric(cfg, last.id) then front + [last] else front
  }

  /** Metrics after an update: each id holds the last item that set it. */
  function FoldMetrics(metrics: map<u32, Item>, items: seq<Item>): map<u32, Item> {
    if items == [] then metrics
    else FoldMetrics(metrics, items[..|items| - 1])[items[|items| - 1].id := items[|items| - 1]]
  }

  /** Updating a destination is a metric fold and an address fold, independent of each other. */
  lemma {:induction false} UpdateDestinationSplits(cfg: Config, d: Destination, items: seq<Item>)
    ensures UpdateDestination(cfg, d, items) ==
            d.(metrics := FoldMetrics(d.metrics, MetricItems(cfg, items)), ips := FoldIps(d.ips, IpItems(cfg, items)))
  {
    if items != [] {
      var n := |items| - 1;
      UpdateDestinationSplits(cfg, d, items[..n]);
      var metrics, ips := MetricItems(cfg, items[..n]), IpItems(cfg, items[..n]);
      assert (metrics + [items[n]])[..|metrics|] == metrics;
      assert (ips + [items[n]])[..|ips|] == ips;
    }
  }

  lemma {:induction false} MetricItemsAreMetrics(cfg: Config, items: seq<Item>)
    ensures forall m :: m in MetricItems(cfg, items) ==> IsMetric(cfg, m.id)
    ensures forall m :: m in MetricItems(cfg, items) <==> m in items && IsMetric(cfg, m.id)
  {
    if items != [] {
      MetricItemsAreMetrics(cfg, items[..|items| - 1]);
      assert items == items[..|items| - 1] + [items[|items| - 1]];
    }
  }

  lemma {:induction false} OnlyMetrics(cfg: Config, items: seq<Item>)
    requires forall m :: m in items ==> IsMetric(cfg, m.id)
    ensures MetricItems(cfg, items) == items && IpItems(cfg, items) == []
  {
    if items != [] {
      assert forall m :: m in items[..|items| - 1] ==> m in items;
      OnlyMetrics(cfg, items[..|items| - 1]);
    }
  }

  /** Two metric maps that receive the same updates agree on every updated id afterwards. */
  lemma {:induction false} FoldMetricsAgree(a: map<u32, Item>, b: map<u32, Item>, items: seq<Item>)
    ensures forall m :: m in items ==>
              m.id in FoldMetrics(a, items) && m.id in FoldMetrics(b, items)
              && FoldMetrics(a, items)[m.id] == FoldMetrics(b, items)[m.id]
    ensures FoldMetrics(a, items).Keys == a.Keys + set m | m in items :: m.id
    ensures forall id :: id in a && (forall m :: m in items ==> m.id != id) ==> FoldMetrics(a, items)[id] == a[id]
  {
    if items != [] {
      var front, last := items[..|items| - 1], items[|items| - 1];
      FoldMetricsAgree(a, b, front);
      assert items == front + [last];
    }
  }

  function OtherItems(cfg: Config, statusId: u32, items: seq<Item>): seq<Item> {
    if items == [] then []
    else
      var last := items[|items| - 1];
      var front := OtherItems(cfg, statusId, items[..|items| - 1]);
      if !IsMetric(cfg, last.id) && !IsIpAddr(cfg, last.id) && last.id != statusId then front + [last] else front
  }

  /** The first half of `update_data_items`: is every metric in the update already known? */
  predicate MetricsKnown(cfg: Config, metrics: map<u32, Item>, items: seq<Item>) {
    forall k :: 0 <= k < |items| ==> IsMetric(cfg, items[k].id) ==> items[k].id in metrics
  }

  /** `update_data_items`: all or nothing, then every destination receives the same metrics. */
  function UpdatePeer(cfg: Config, statusId: u32, p: PeerInfo, items: seq<Item>): PeerInfo {
    if !MetricsKnown(cfg, p.metrics, items) then p
    else
      PeerInfo(
        FoldMetrics(p.metrics, MetricItems(cfg, items)),
        FoldIps(p.ips, IpItems(cfg, items)),
        p.others + OtherItems(cfg, statusId, items),
        map mac | mac in p.destinations :: UpdateDestination(cfg, p.destinations[mac], MetricItems(cfg, items)))
  }

  /**
   A peer update changes nothing unless all its metrics are known, never adds a metric, never
   touches a destination's addresses, and leaves every destination agreeing with the peer on each
   updated metric.
   */
  lemma PeerUpdateIsAtomic(cfg: Config, statusId: u32, p: PeerInfo, items: seq<Item>)
    ensures var p' := UpdatePeer(cfg, statusId, p, items);
            && p'.metrics.Keys == p.metrics.Keys
            && p'.destinations.Keys == p.destinations.Keys
            && (forall mac :: mac in p.destinations ==> p'.destinations[mac].ips == p.destinations[mac].ips)
            && (!MetricsKnown(cfg, p.metrics, items) ==> p' == p)
            && (MetricsKnown(cfg, p.metrics, items) ==>
                  forall mac, m :: mac in p.destinations && m in items && IsMetric(cfg, m.id) ==>
                    && m.id in p'.destinations[mac].metrics
                    && p'.destinations[mac].metrics[m.id] == p'.metrics[m.id])
  {
    if MetricsKnown(cfg, p.metrics, items) {
      var metrics := MetricItems(cfg, items);
      MetricItemsAreMetrics(cfg, items);
      FoldMetricsAgree(p.metrics, p.metrics, metrics);
      forall m | m in metrics
        ensures m.id in p.metrics
      {
        var k :| 0 <= k < |items| && items[k] == m;
      }
      forall mac | mac in p.destinations
        ensures UpdateDestination(cfg, p.destinations[mac], metrics) ==
                p.destinations[mac].(metrics := FoldMetrics(p.destinations[mac].metrics, metrics))
      {
        UpdateDestinationSplits(cfg, p.destinations[mac], metrics);
        OnlyMetrics(cfg, metrics);
      }
      forall mac, m | mac in p.destinations && m in items && IsMetric(cfg, m.id)
        ensures m.id in UpdatePeer(cfg, statusId, p, items).destinations[mac].metrics
        ensures UpdatePeer(cfg, statusId, p, items).destinations[mac].metrics[m.id] ==
                UpdatePeer(cfg, statusId, p, items).metrics[m.id]
      {
        assert m in metrics;
        FoldMetricsAgree(p.metrics, p.destinations[mac].metrics, metrics);
      }
    }
  }

  /** A remote peer starts without metrics, so it can never be given one by an update. */
  lemma FreshPeerRejectsEveryMetric(cfg: Config, statusId: u32, items: seq<Item>, m: Item)
    requires m in items && IsMetric(cfg, m.id)
    ensures UpdatePeer(cfg, statusId, EMPTY_PEER, items) == EMPTY_PEER
  {
    var k :| 0 <= k < |items| && items[k] == m;
  }

  // ---- What an update leaves, item by item

  /** No later item has the same id. */
  ghost predicate LastOfId(items: seq<Item>, i: nat)
    requires i < |items|
  {
    forall j :: i < j < |items| ==> items[j].id != items[i].id
  }

  predicate Mentions(items: seq<Item>, id: u32) {
    exists i :: 0 <= i < |items| && items[i].id == id
  }

  /** Metrics after an update: the last item for each metric that is mentioned, and the rest as before. */
  ghost predicate MetricsAfter(cfg: Config, before: map<u32, Item>, items: seq<Item>, after: map<u32, Item>) {
    && (forall i :: 0 <= i < |items| && LastOfId(items, i) && IsMetric(cfg, items[i].id) ==>
          items[i].id in after && after[items[i].id] == items[i])
    && (forall id :: !IsMetric(cfg, id) || !Mentions(items, id) ==>
          (id in after <==> id in before) && (id in before ==> after[id] == before[id]))
  }

  lemma LastOfIdStep(front: seq<Item>, last: Item, i: nat)
    requires i <= |front| && LastOfId(front + [last], i)
    ensures i < |front| ==> LastOfId(front, i) && front[i].id != last.id
  {
    var items := front + [last];
    if i < |front| {
      assert items[|front|] == last && items[i] == front[i];
      forall j | i < j < |front|
        ensures front[j].id != front[i].id
      {
        assert items[j] == front[j];
      }
    }
  }

  lemma MentionsStep(front: seq<Item>, last: Item, id: u32)
    ensures Mentions(front + [last], id) <==> Mentions(front, id) || last.id == id
  {
    var items := front + [last];
    if Mentions(front, id) {
      var i :| 0 <= i < |front| && front[i].id == id;
      assert items[i] == front[i];
    }
    assert items[|front|] == last;
  }

  lemma MetricsAfterStep(cfg: Config, before: map<u32, Item>, front: seq<Item>, last: Item, after: map<u32, Item>)
    requires MetricsAfter(cfg, before, front, after)
    ensures MetricsAfter(cfg, before, front + [last], if IsMetric(cfg, last.id) then after[last.id := last] else after)
  {
    hide IsMetric, LastOfId, Mentions;
    var items := front + [last];
    var after' := if IsMetric(cfg, last.id) then after[last.id := last] else after;
    forall i | 0 <= i < |items| && LastOfId(items, i) && IsMetric(cfg, items[i].id)
      ensures items[i].id in after' && after'[items[i].id] == items[i]
    {
      LastOfIdStep(front, last, i);
    }
    forall id {
      MentionsStep(front, last, id);
    }
  }

  lemma {:induction false} FoldMetricsExactly(cfg: Config, before: map<u32, Item>, items: seq<Item>)
    ensures MetricsAfter(cfg, before, items, FoldMetrics(before, MetricItems(cfg, items)))
  {
    hide MetricsAfter, IsMetric;
    if items == [] {
      assert MetricsAfter(cfg, before, [], before) by {
        NoMetricsAfter(cfg, before);
      }
    } else {
      var front, last := items[..|items| - 1], items[|items| - 1];
      FoldMetricsExactly(cfg, before, front);
      var metrics := MetricItems(cfg, front);
      assert (metrics + [last])[..|metrics|] == metrics;
      assert items == front + [last];
      MetricsAfterStep(cfg, before, front, last, FoldMetrics(before, metrics));
    }
  }

  lemma NoMetricsAfter(cfg: Config, before: map<u32, Item>)
    ensures MetricsAfter(cfg, before, [], before)
  {
  }

  /** A destination's metrics after an update, and after its first message. */
  lemma DestinationMetricsExactly(cfg: Config, d: Destination, items: seq<Item>)
    ensures MetricsAfter(cfg, d.metrics, items, UpdateDestination(cfg, d, items).metrics)
    ensures MetricsAfter(cfg, map[], items, NewDestination(cfg, items).metrics)
    ensures UpdateDestination(cfg, d, items).needsResponse == d.needsResponse
    ensures NewDestination(cfg, items).needsResponse == None
  {
    UpdateDestinationSplits(cfg, d, items);
    UpdateDestinationSplits(cfg, Destination(map[], [], None), items);
    FoldMetricsExactly(cfg, d.metrics, items);
    FoldMetricsExactly(cfg, map[], items);
  }

  /** The items of a peer that are neither metrics nor addresses, but for the transient status. */
  predicate IsOther(cfg: Config, statusId: u32, item: Item) {
    !IsMetric(cfg, item.id) && !IsIpAddr(cfg, item.id) && item.id != statusId
  }

  lemma {:induction false} OthersAreCounted(cfg: Config, statusId: u32, items: seq<Item>, x: Item)
    ensures multiset(OtherItems(cfg, statusId, items))[x] == if IsOther(cfg, statusId, x) then multiset(items)[x] else 0
  {
    if items != [] {
      OthersAreCounted(cfg, statusId, items[..|items| - 1], x);
      assert items == items[..|items| - 1] + [items[|items| - 1]];
    }
  }

  /**
   An applied peer update: the peer and every destination hold the last item of each metric it
   mentions, and every other item that is no address and no status was added as often as it came.
   */
  lemma PeerUpdateExactly(cfg: Config, statusId: u32, p: PeerInfo, items: seq<Item>)
    requires MetricsKnown(cfg, p.metrics, items)
    ensures var p' := UpdatePeer(cfg, statusId, p, items);
            && MetricsAfter(cfg, p.metrics, items, p'.metrics)
            && (forall mac :: mac in p.destinations ==>
                  MetricsAfter(cfg, p.destinations[mac].metrics, items, p'.destinations[mac].metrics))
            && p.others <= p'.others
            && (forall x :: multiset(p'.others[|p.others|..])[x] ==
                            if IsOther(cfg, statusId, x) then multiset(items)[x] else 0)
  {
    hide MetricsAfter, IsOther, IsMetric, IsIpAddr, FoldMetrics;
    var p' := UpdatePeer(cfg, statusId, p, items);
    var metrics := MetricItems(cfg, items);
    MetricItemsAreMetrics(cfg, items);
    OnlyMetrics(cfg, metrics);
    FoldMetricsExactly(cfg, p.metrics, items);
    forall mac | mac in p.destinations
      ensures MetricsAfter(cfg, p.destinations[mac].metrics, items, p'.destinations[mac].metrics)
    {
      UpdateDestinationSplits(cfg, p.destinations[mac], metrics);
      FoldMetricsExactly(cfg, p.destinations[mac].metrics, items);
    }
    assert p'.others[|p.others|..] == OtherItems(cfg, statusId, items);
    forall x {
      OthersAreCounted(cfg, statusId, items, x);
    }
  }
}
