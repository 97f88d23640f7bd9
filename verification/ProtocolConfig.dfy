/**
 The part of the protocol configuration (ProtocolConfigImpl.cpp) that the codec, the validator
 and the session handlers consult, with its scoped id and name lookups.
 */
module ProtocolConfig {
  import opened Wrappers
  import opened Serialize

  datatype ValueType =
    | TBlank | TU8 | TU16 | TU32 | TU64 | TVU8 | TVU32 | TA2U16 | TString | TMac | TU8String
    | TU8Ipv4 | TU8Ipv6 | TU16VU8 | TVExtId | TU8Ipv4U16 | TU8Ipv6U16 | TU8Ipv4U8 | TU8Ipv6U8
    | TU8U8 | TU64U64 | TSub | TU16Sub

  /** How often an item may occur: "1", "1+", "0-1" or "0+". */
  datatype Occurs = ExactlyOne | OneOrMore | ZeroOrOne | ZeroOrMore

  datatype Units = NoUnits | Seconds | Milliseconds | Microseconds | Percentage | OtherUnits

  /** One entry of the list of items that a parent item (or a message) may carry. */
  datatype SubDataItem = SubDataItem(name: string, id: u32, occurs: Occurs)

  datatype DataItemInfo = DataItemInfo(
    name: string,
    id: u32,
    valueType: ValueType,
    isMetric: bool,
    units: Units,
    subDataItems: seq<SubDataItem>)

  datatype SignalInfo = SignalInfo(
    name: string,
    responseId: u32,
    modemSends: bool,
    routerSends: bool,
    dataItems: seq<SubDataItem>)

  /** Value of an id that was never set. */
  const ID_UNDEFINED: u32 := 0xFFFF_FFFF

  const STATUS := "Status"

  datatype Config = Config(
    signalLengthSize: FieldSize,
    signalIdSize: FieldSize,
    dataItemLengthSize: FieldSize,
    dataItemIdSize: FieldSize,
    extensionIdSize: FieldSize,
    signalPrefix: seq<byte>,
    dataItemNames: map<u32, string>,
    dataItemIds: map<string, u32>,
    dataItemInfos: map<string, DataItemInfo>,
    signalNames: map<u32, string>,
    messageNames: map<u32, string>,
    signalInfos: map<string, SignalInfo>,
    statusNames: map<u32, string>)

  type Scope = Option<DataItemInfo>

  /** The first listed item with the given id. */
  function FirstWithId(listed: seq<SubDataItem>, id: u32): (r: Option<SubDataItem>)
    ensures r.Some? ==> r.value in listed && r.value.id == id
    ensures r.None? ==> forall s :: s in listed ==> s.id != id
  {
    if listed == [] then None
    else if listed[0].id == id then Some(listed[0])
    else FirstWithId(listed[1..], id)
  }

  /** The first listed item with the given name whose id is set. */
  function FirstWithName(listed: seq<SubDataItem>, name: string): (r: Option<SubDataItem>)
    ensures r.Some? ==> r.value in listed && r.value.name == name && r.value.id != ID_UNDEFINED
    ensures r.None? ==> forall s :: s in listed && s.name == name ==> s.id == ID_UNDEFINED
  {
    if listed == [] then None
    else if listed[0].name == name && listed[0].id != ID_UNDEFINED then Some(listed[0])
    else FirstWithName(listed[1..], name)
  }

  function Listed(scope: Scope): seq<SubDataItem> {
    match scope
    case None => []
    case Some(info) => info.subDataItems
  }

  /** Name of an item id: first among the parent's items, then at the top level. */
  function NameOfId(cfg: Config, id: u32, scope: Scope): Option<string> {
    match FirstWithId(Listed(scope), id)
    case Some(sub) => Some(sub.name)
    case None => if id in cfg.dataItemNames then Some(cfg.dataItemNames[id]) else None
  }

  /** Id of an item name: first among the parent's items, then at the top level. */
  function IdOfName(cfg: Config, name: string, scope: Scope): Option<u32> {
    match FirstWithName(Listed(scope), name)
    case Some(sub) => Some(sub.id)
    case None => if name in cfg.dataItemIds then Some(cfg.dataItemIds[name]) else None
  }

  function InfoOfName(cfg: Config, name: string): Option<DataItemInfo> {
    if name in cfg.dataItemInfos then Some(cfg.dataItemInfos[name]) else None
  }

  /** Full definition of an item id within a scope. */
  function InfoOfId(cfg: Config, id: u32, scope: Scope): Option<DataItemInfo> {
    var name :- NameOfId(cfg, id, scope);
    InfoOfName(cfg, name)
  }

  /** The two directions of the top-level map name the same pairs. */
  ghost predicate Bijection(names: map<u32, string>, ids: map<string, u32>) {
    && (forall id :: id in names ==> names[id] in ids && ids[names[id]] == id)
    && (forall name :: name in ids ==> ids[name] in names && names[ids[name]] == name)
  }

  /** No two entries share a name, none share an id, and every id is set. */
  ghost predicate DistinctEntries(listed: seq<SubDataItem>) {
    && (forall i, j :: 0 <= i < j < |listed| ==> listed[i].id != listed[j].id && listed[i].name != listed[j].name)
    && (forall i :: 0 <= i < |listed| ==> listed[i].id != ID_UNDEFINED)
  }

  /**
   Within a parent whose listed names and ids are distinct and defined, looking up a listed name
   and looking up its id undo each other.
   */
  lemma ListedLookupsAreInverse(cfg: Config, parent: DataItemInfo, k: nat)
    requires DistinctEntries(parent.subDataItems) && k < |parent.subDataItems|
    ensures NameOfId(cfg, parent.subDataItems[k].id, Some(parent)) == Some(parent.subDataItems[k].name)
    ensures IdOfName(cfg, parent.subDataItems[k].name, Some(parent)) == Some(parent.subDataItems[k].id)
  {
    var listed := parent.subDataItems;
    var byId, byName := FirstWithId(listed, listed[k].id), FirstWithName(listed, listed[k].name);
    assert byId.Some? && byName.Some?;
    var i :| 0 <= i < |listed| && listed[i] == byId.value;
    var j :| 0 <= j < |listed| && listed[j] == byName.value;
    assert i == k && j == k;
  }

  /**
   The exact reach of the lookups in any scope with distinct entries over a bijective top level:
   an id that has a name is found again under that name unless the name came from the top level
   and the parent lists the same name with an id of its own.
   */
  lemma LookupRoundTripExactly(cfg: Config, id: u32, scope: Scope)
    requires Bijection(cfg.dataItemNames, cfg.dataItemIds)
    requires DistinctEntries(Listed(scope))
    requires NameOfId(cfg, id, scope).Some?
    ensures (IdOfName(cfg, NameOfId(cfg, id, scope).value, scope) == Some(id))
         == (FirstWithId(Listed(scope), id).Some?
             || FirstWithName(Listed(scope), NameOfId(cfg, id, scope).value).None?)
  {
    match FirstWithId(Listed(scope), id)
    case None =>
    case Some(sub) =>
      var k :| 0 <= k < |Listed(scope)| && Listed(scope)[k] == sub;
      ListedLookupsAreInverse(cfg, scope.value, k);
  }
}
