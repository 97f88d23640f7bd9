/**
 Loading data item definitions into the configuration (ProtocolConfigImpl.cpp).  A definition is
 one already parsed `data_item` element, its children in the order the schema fixes.
 */
module ConfigBuilder {
  import opened Wrappers
  import opened Serialize
  import opened ProtocolConfig

  datatype SubDefinition = SubDefinition(name: string, id: Option<u32>, occurs: Occurs)

  datatype Definition = Definition(
    name: string,
    valueType: ValueType,
    id: Option<u32>,
    isMetric: bool,
    units: Units,
    subs: seq<SubDefinition>)

  ghost predicate Lists(infos: map<string, DataItemInfo>, parent: string, child: string) {
    parent in infos && exists s :: s in infos[parent].subDataItems && s.name == child
  }

  /** A chain of nested items: each name is listed by the item before it. */
  ghost predicate NestingChain(infos: map<string, DataItemInfo>, chain: seq<string>) {
    forall i :: 0 < i < |chain| ==> Lists(infos, chain[i - 1], chain[i])
  }

  /** Every item that definition i lists is an earlier definition and has an id. */
  ghost predicate Grounded(infos: map<string, DataItemInfo>, order: seq<string>, i: nat)
    requires i < |order|
  {
    && order[i] in infos
    && infos[order[i]].name == order[i]
    && (forall s :: s in infos[order[i]].subDataItems ==> s.name in order[..i] && s.id != ID_UNDEFINED)
  }

  /** Definitions in the order in which they were accepted. */
  ghost predicate Ordered(infos: map<string, DataItemInfo>, order: seq<string>) {
    && (forall i, j :: 0 <= i < j < |order| ==> order[i] != order[j])
    && (forall name :: name in infos <==> name in order)
    && (forall i :: 0 <= i < |order| ==> Grounded(infos, order, i))
  }

  ghost predicate WellFounded(names: map<u32, string>, ids: map<string, u32>,
                              infos: map<string, DataItemInfo>, order: seq<string>)
  {
    && Bijection(names, ids)
    && Ordered(infos, order)
    && (forall name :: name in ids ==> name in infos && infos[name].id == ids[name])
  }

  /**
   In an accepted configuration a chain of nested items strictly descends the definition order,
   so it is no longer than the place of its first item.
   */
  lemma {:induction false} NestingIsBounded(infos: map<string, DataItemInfo>, order: seq<string>,
                                            chain: seq<string>, i: nat)
    requires Ordered(infos, order)
    requires NestingChain(infos, chain) && chain != []
    requires i < |order| && order[i] == chain[0]
    ensures |chain| <= i + 1
    decreases |chain|
  {
    if |chain| > 1 {
      assert Lists(infos, chain[0], chain[1]);
      assert Grounded(infos, order, i);
      var j :| 0 <= j < i && order[j] == chain[1];
      var tail := chain[1..];
      forall k | 0 < k < |tail|
        ensures Lists(infos, tail[k - 1], tail[k])
      {
        assert Lists(infos, chain[k], chain[k + 1]);
      }
      NestingIsBounded(infos, order, tail, j);
    }
  }

  /** In particular no item can, at any depth, list itself. */
  lemma NestingIsAcyclic(infos: map<string, DataItemInfo>, order: seq<string>, chain: seq<string>)
    requires Ordered(infos, order)
    requires NestingChain(infos, chain) && |chain| > 1
    ensures chain[0] != chain[|chain| - 1]
  {
    assert Lists(infos, chain[0], chain[1]);
    var i :| 0 <= i < |order| && order[i] == chain[0];
    if chain[0] == chain[|chain| - 1] {
      Repeated(infos, chain, i + 1);
      NestingIsBounded(infos, order, Cycle(chain, i + 1), i);
    }
  }

  /** A closed chain walked `times` times. */
  ghost function Cycle(chain: seq<string>, times: nat): seq<string>
    requires |chain| > 1
  {
    if times == 0 then [chain[0]] else chain[..|chain| - 1] + Cycle(chain, times - 1)
  }

  lemma {:induction false} Repeated(infos: map<string, DataItemInfo>, chain: seq<string>, times: nat)
    requires NestingChain(infos, chain) && |chain| > 1 && chain[0] == chain[|chain| - 1]
    ensures NestingChain(infos, Cycle(chain, times))
    ensures |Cycle(chain, times)| > times
    ensures Cycle(chain, times)[0] == chain[0]
  {
    if times > 0 {
      Repeated(infos, chain, times - 1);
      var front, rest := chain[..|chain| - 1], Cycle(chain, times - 1);
      var whole := front + rest;
      forall i | 0 < i < |whole|
        ensures Lists(infos, whole[i - 1], whole[i])
      {
        if i <= |front| {
          assert Lists(infos, chain[i - 1], chain[i]);
          assert whole[i - 1] == chain[i - 1] && whole[i] == chain[i];
        } else {
          var k := i - |front|;
          assert Lists(infos, rest[k - 1], rest[k]);
          assert whole[i - 1] == rest[k - 1] && whole[i] == rest[k];
        }
      }
    }
  }

  /** The id a listed item ends up with: its own, else the top-level one. */
  function ResolvedId(ids: map<string, u32>, sub: SubDefinition): u32 {
    if sub.id.Some? then sub.id.value
    else if sub.name in ids then ids[sub.name]
    else ID_UNDEFINED
  }

  /** A definition extends the order: what it lists was defined before, and nothing else moves. */
  lemma AcceptedDefinitionKeepsOrder(infos: map<string, DataItemInfo>, order: seq<string>, info: DataItemInfo)
    requires Ordered(infos, order) && info.name !in infos
    requires forall s :: s in info.subDataItems ==> s.name in infos && s.id != ID_UNDEFINED
    ensures Ordered(infos[info.name := info], order + [info.name])
  {
    var infos', order' := infos[info.name := info], order + [info.name];
    forall i | 0 <= i < |order'|
      ensures Grounded(infos', order', i)
    {
      if i < |order| {
        assert Grounded(infos, order, i);
        assert order'[..i] == order[..i];
      } else {
        assert order'[..i] == order;
      }
    }
  }

  /** The mutable tables of the configuration object. */
  class Loader {
    var names: map<u32, string>
    var ids: map<string, u32>
    var infos: map<string, DataItemInfo>
    ghost var order: seq<string>

    ghost predicate Valid()
      reads this
    {
      WellFounded(names, ids, infos, order)
    }

    constructor ()
      ensures Valid() && names == map[] && infos == map[] && order == []
    {
      names, ids, infos, order := map[], map[], map[], [];
    }

    /** Record a pair in the two-way map, unless either side already has another partner. */
    method InsertIdNameMapping(id: u32, name: string) returns (ok: bool)
      requires Bijection(names, ids)
      modifies this`names, this`ids
      ensures ok <==> (id in old(names) ==> old(names)[id] == name) && (name in old(ids) ==> old(ids)[name] == id)
      ensures Bijection(names, ids)
      ensures ok ==> names == old(names)[id := name] && ids == old(ids)[name := id]
      ensures !ok ==> names == old(names) && ids == old(ids)
    {
      if id in names && names[id] != name {
        return false;
      }
      if name in ids && ids[name] != id {
        return false;
      }
      names, ids := names[id := name], ids[name := id];
      ok := true;
    }

    /**
     Resolve one listed item: its name must already be defined, and an id of its own overrides
     the top-level one.
     */
    method ExtractRef(sub: SubDefinition) returns (entry: Option<SubDataItem>)
      ensures entry.Some? <==> sub.name in infos && ResolvedId(ids, sub) != ID_UNDEFINED
      ensures entry.Some? && sub.id.None? ==> sub.name in ids
      ensures entry.Some? ==> entry.value.name == sub.name && entry.value.occurs == sub.occurs
      ensures entry.Some? ==> entry.value.id == if sub.id.Some? then sub.id.value else ids[sub.name]
    {
      if sub.name !in infos {
        return None;
      }
      var id := ID_UNDEFINED;
      if sub.name in ids {
        id := ids[sub.name];
      }
      if sub.id.Some? {
        id := sub.id.value;
      }
      if id == ID_UNDEFINED {
        return None;
      }
      return Some(SubDataItem(sub.name, id, sub.occurs));
    }

    /**
     Load one definition.  It is accepted exactly when its own id pairs up, every item it lists
     is already defined and ends up with an id, and its name is new.  On failure the whole
     configuration is abandoned.
     */
    method ExtractDataItem(def: Definition) returns (ok: bool)
      requires Valid()
      modifies this
      ensures ok <==>
              && def.name !in old(infos)
              && (def.id.Some? ==> def.id.value !in old(names))
              && (forall sub :: sub in def.subs ==> sub.name in old(infos) && ResolvedId(old(ids), sub) != ID_UNDEFINED)
      ensures ok ==> Valid() && order == old(order) + [def.name]
      ensures ok ==> infos.Keys == old(infos).Keys + {def.name}
      ensures ok ==> forall name :: name in old(infos) ==> infos[name] == old(infos)[name]
      ensures ok ==> names == (if def.id.Some? then old(names)[def.id.value := def.name] else old(names))
      ensures ok ==>
                var info := infos[def.name];
                && info.name == def.name && info.valueType == def.valueType
                && info.isMetric == def.isMetric && info.units == def.units
                && info.id == (if def.id.Some? then def.id.value else ID_UNDEFINED)
                && |info.subDataItems| == |def.subs|
      ensures ok ==> forall k | 0 <= k < |def.subs| ::
                var entry, sub := infos[def.name].subDataItems[k], def.subs[k];
                && entry.name == sub.name && entry.occurs == sub.occurs
                && (sub.id.Some? ==> entry.id == sub.id.value)
                && (sub.id.None? ==> sub.name in old(ids) && entry.id == old(ids)[sub.name])
    {
      hide Ordered;
      var id := ID_UNDEFINED;
      if def.id.Some? {
        id := def.id.value;
        var inserted := InsertIdNameMapping(id, def.name);
        if !inserted {
          return false;
        }
      }
      var listed: seq<SubDataItem> := [];
      for k := 0 to |def.subs|
        invariant infos == old(infos) && order == old(order)
        invariant Bijection(names, ids)
        invariant names == (if def.id.Some? then old(names)[def.id.value := def.name] else old(names))
        invariant ids == (if def.id.Some? then old(ids)[def.name := def.id.value] else old(ids))
        invariant |listed| == k
        invariant forall i :: 0 <= i < k ==>
                    && def.subs[i].name in infos && listed[i].id != ID_UNDEFINED
                    && listed[i] == SubDataItem(def.subs[i].name, ResolvedId(ids, def.subs[i]), def.subs[i].occurs)
      {
        var entry := ExtractRef(def.subs[k]);
        if entry.None? {
          assert def.subs[k] in def.subs;
          return false;
        }
        listed := listed + [entry.value];
      }
      if def.name in infos {
        return false;
      }
      var info := DataItemInfo(def.name, id, def.valueType, def.isMetric, def.units, listed);
      AcceptedDefinitionKeepsOrder(infos, order, info);
      infos := infos[def.name := info];
      order := order + [def.name];
      ok := true;
    }
  }
}
