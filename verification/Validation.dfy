/**
 Validation of data items and of their numbers (DataItem.cpp, `validate` and
 `validate_occurrences`), stated as local conditions on every node of an item tree.
 */
module Validation {
  import opened Wrappers
  import opened Serialize
  import opened ProtocolConfig
  import opened ConfigBuilder
  import opened DataItem
  import opened TextFormat
  import opened WireFormat

  // ---- Occurrences ----

  function Count(items: seq<Item>, id: u32): nat {
    if items == [] then 0 else (if items[0].id == id then 1 else 0) + Count(items[1..], id)
  }

  /** The rule "1", "1+", "0-1" or "0+" admits n occurrences. */
  predicate Admits(occurs: Occurs, n: nat) {
    match occurs
    case ExactlyOne => n == 1
    case OneOrMore => n >= 1
    case ZeroOrOne => n <= 1
    case ZeroOrMore => true
  }

  predicate IsListed(listed: seq<SubDataItem>, id: u32) {
    exists k :: 0 <= k < |listed| && listed[k].id == id
  }

  ghost predicate FirstOfItsId(listed: seq<SubDataItem>, k: nat)
    requires k < |listed|
  {
    forall j :: 0 <= j < k ==> listed[j].id != listed[k].id
  }

  /** What rule k asks of the items: a repeated rule for an id sees none of them. */
  ghost predicate RuleHolds(items: seq<Item>, listed: seq<SubDataItem>, k: nat)
    requires k < |listed|
  {
    Admits(listed[k].occurs, if FirstOfItsId(listed, k) then Count(items, listed[k].id) else 0)
  }

  /** What the check accepts for any list of rules. */
  ghost predicate OccurrencesOk(items: seq<Item>, listed: seq<SubDataItem>) {
    && (forall item :: item in items ==> IsListed(listed, item.id))
    && (forall k :: 0 <= k < |listed| ==> RuleHolds(items, listed, k))
  }

  lemma {:induction false} CountPositive(items: seq<Item>, id: u32)
    ensures Count(items, id) > 0 <==> exists item :: item in items && item.id == id
  {
    if items != [] {
      CountPositive(items[1..], id);
      assert items == [items[0]] + items[1..];
    }
  }

  lemma {:induction false} CountAppend(items: seq<Item>, item: Item, id: u32)
    ensures Count(items + [item], id) == Count(items, id) + if item.id == id then 1 else 0
  {
    if items != [] {
      CountAppend(items[1..], item, id);
      assert (items + [item])[1..] == items[1..] + [item];
    }
  }

  /** The places at which an id occurs. */
  ghost function PlacesOf(items: seq<Item>, id: u32): set<nat> {
    set i: nat | i < |items| && items[i].id == id
  }

  lemma {:induction false} CountIsNumberOfPlaces(items: seq<Item>, id: u32)
    ensures Count(items, id) == |PlacesOf(items, id)|
  {
    if items != [] {
      var front, last := items[..|items| - 1], items[|items| - 1];
      assert items == front + [last];
      CountAppend(front, last, id);
      CountIsNumberOfPlaces(front, id);
      var n: nat := |front|;
      assert PlacesOf(items, id) == PlacesOf(front, id) + if last.id == id then {n} else {};
      assert n !in PlacesOf(front, id);
    } else {
      assert PlacesOf(items, id) == {};
    }
  }

  /**
   For rules with distinct ids the check is exact: every listed id occurs at as many places as its
   rule says, and nothing else occurs.
   */
  lemma OccurrencesAreExact(items: seq<Item>, listed: seq<SubDataItem>)
    requires forall i, j :: 0 <= i < j < |listed| ==> listed[i].id != listed[j].id
    ensures OccurrencesOk(items, listed) <==>
              && (forall item :: item in items ==> IsListed(listed, item.id))
              && (forall k :: 0 <= k < |listed| ==>
                    var n := |PlacesOf(items, listed[k].id)|;
                    && (listed[k].occurs == ExactlyOne ==> n == 1)
                    && (listed[k].occurs == OneOrMore ==> n >= 1)
                    && (listed[k].occurs == ZeroOrOne ==> n <= 1))
  {
    hide PlacesOf;
    forall k | 0 <= k < |listed|
      ensures RuleHolds(items, listed, k) <==>
              var n := |PlacesOf(items, listed[k].id)|;
              && (listed[k].occurs == ExactlyOne ==> n == 1)
              && (listed[k].occurs == OneOrMore ==> n >= 1)
              && (listed[k].occurs == ZeroOrOne ==> n <= 1)
    {
      assert FirstOfItsId(listed, k);
      CountIsNumberOfPlaces(items, listed[k].id);
    }
  }

  /** A required item listed a second time can never be satisfied. */
  lemma RepeatedRequirementRejects(items: seq<Item>, listed: seq<SubDataItem>, j: nat, k: nat)
    requires j < k < |listed| && listed[j].id == listed[k].id
    requires listed[k].occurs.ExactlyOne? || listed[k].occurs.OneOrMore?
    ensures !OccurrencesOk(items, listed)
  {
    assert !FirstOfItsId(listed, k);
    assert !RuleHolds(items, listed, k);
  }

  /** How often each id occurs, counted in one pass. */
  method CountItems(items: seq<Item>) returns (counts: map<u32, nat>)
    ensures forall id :: id in counts <==> Count(items, id) > 0
    ensures forall id :: id in counts ==> counts[id] == Count(items, id)
  {
    counts := map[];
    for i := 0 to |items|
      invariant forall id :: id in counts <==> Count(items[..i], id) > 0
      invariant forall id :: id in counts ==> counts[id] == Count(items[..i], id)
    {
      var id := items[i].id;
      assert items[..i + 1] == items[..i] + [items[i]];
      forall other: u32 {
        CountAppend(items[..i], items[i], other);
      }
      counts := if id !in counts then counts[id := 1] else counts[id := counts[id] + 1];
    }
    assert items[..|items|] == items;
  }

  /** What is left of the counts after the first k rules have erased theirs. */
  ghost predicate Unchecked(counts: map<u32, nat>, items: seq<Item>, listed: seq<SubDataItem>, k: nat)
    requires k <= |listed|
  {
    && (forall id :: id in counts <==> Count(items, id) > 0 && !IsListed(listed[..k], id))
    && (forall id :: id in counts ==> counts[id] == Count(items, id))
  }

  lemma UncheckedStep(counts: map<u32, nat>, items: seq<Item>, listed: seq<SubDataItem>, k: nat)
    requires k < |listed| && Unchecked(counts, items, listed, k)
    ensures Unchecked(counts - {listed[k].id}, items, listed, k + 1)
    ensures (if listed[k].id in counts then counts[listed[k].id] else 0) ==
            (if FirstOfItsId(listed, k) then Count(items, listed[k].id) else 0)
  {
    FirstMeansNew(listed, k);
    forall other: u32 {
      ListedAppend(listed, k, other);
    }
  }

  lemma NothingUnchecked(counts: map<u32, nat>, items: seq<Item>, listed: seq<SubDataItem>)
    requires Unchecked(counts, items, listed, |listed|)
    ensures counts == map[] <==> forall item :: item in items ==> IsListed(listed, item.id)
  {
    assert listed[..|listed|] == listed;
    forall id: u32 {
      CountPositive(items, id);
    }
    if counts != map[] {
      var id :| id in counts;
      var item :| item in items && item.id == id;
      assert !IsListed(listed, item.id);
    }
  }

  /** Check the rules in order, erasing each id as it is checked; what is left is unexpected. */
  method ValidateOccurrences(items: seq<Item>, listed: seq<SubDataItem>) returns (ok: bool)
    ensures ok <==> OccurrencesOk(items, listed)
  {
    var counts := CountItems(items);
    for k := 0 to |listed|
      invariant Unchecked(counts, items, listed, k)
      invariant forall j :: 0 <= j < k ==> RuleHolds(items, listed, j)
    {
      var id := listed[k].id;
      UncheckedStep(counts, items, listed, k);
      var actual := 0;
      if id in counts {
        actual := counts[id];
      }
      counts := counts - {id};
      if !Admits(listed[k].occurs, actual) {
        assert !RuleHolds(items, listed, k);
        return false;
      }
    }
    NothingUnchecked(counts, items, listed);
    ok := counts == map[];
  }

  lemma FirstMeansNew(listed: seq<SubDataItem>, k: nat)
    requires k < |listed|
    ensures FirstOfItsId(listed, k) <==> !IsListed(listed[..k], listed[k].id)
  {
  }

  lemma ListedAppend(listed: seq<SubDataItem>, k: nat, id: u32)
    requires k < |listed|
    ensures IsListed(listed[..k + 1], id) <==> IsListed(listed[..k], id) || listed[k].id == id
  {
    if IsListed(listed[..k], id) {
      var j :| 0 <= j < k && listed[..k][j].id == id;
      assert listed[..k + 1][j].id == id;
    }
    if listed[k].id == id {
      assert listed[..k + 1][k].id == id;
    }
    if IsListed(listed[..k + 1], id) {
      var j :| 0 <= j < k + 1 && listed[..k + 1][j].id == id;
      if j < k {
        assert listed[..k][j].id == id;
      }
    }
  }

  // ---- Item trees ----

  predicate HoldsItems(v: Value) {
    v.Sub? || v.U16Sub?
  }

  /** The range checks that depend on the type and the definition of a value. */
  predicate InRange(cfg: Config, info: DataItemInfo, v: Value) {
    match v
    case U8(x) =>
      if info.units.Percentage? then x <= 100
      else if info.name == STATUS then x in cfg.statusNames
      else true
    case U8String(x, _) => info.name == STATUS ==> x in cfg.statusNames
    case U8Ipv4(x, _) => x <= 1
    case U8Ipv6(x, _) => x <= 1
    case U8Ipv4U8(x, _, mask) => x <= 1 && mask <= 32
    case U8Ipv6U8(x, _, mask) => x <= 1 && mask <= 128
    case _ => true
  }

  /** `DataItem::validate`: accepted, or rejected (or an unknown id was looked up). */
  ghost predicate Validates(cfg: Config, scope: Scope, item: Item)
    decreases item, 0
  {
    var info := InfoOfId(cfg, item.id, scope);
    && info.Some?
    && info.value.valueType == TypeOf(item.value)
    && InRange(cfg, info.value, item.value)
    && (HoldsItems(item.value) ==>
          AllValidate(cfg, info, item.value.items) && OccurrencesOk(item.value.items, info.value.subDataItems))
  }

  ghost predicate AllValidate(cfg: Config, scope: Scope, items: seq<Item>)
    decreases items, 1
  {
    items == [] || (Validates(cfg, scope, items[0]) && AllValidate(cfg, scope, items[1..]))
  }

  /** `validate`: type and range first, then the items inside, then their numbers. */
  method ValidateItem(cfg: Config, scope: Scope, item: Item) returns (ok: bool)
    ensures ok <==> Validates(cfg, scope, item)
    decreases item, 0
  {
    hide OccurrencesOk, InRange;
    var info := InfoOfId(cfg, item.id, scope);
    if info.None? || info.value.valueType != TypeOf(item.value) || !InRange(cfg, info.value, item.value) {
      return false;
    }
    if !HoldsItems(item.value) {
      return true;
    }
    ok := ValidateItems(cfg, info, item.value.items);
    if ok {
      ok := ValidateOccurrences(item.value.items, info.value.subDataItems);
    }
  }

  /** Validate items in order, up to the first that is wrong. */
  method ValidateItems(cfg: Config, scope: Scope, items: seq<Item>) returns (ok: bool)
    ensures ok <==> AllValidate(cfg, scope, items)
    decreases items, 1
  {
    hide Validates;
    var k := 0;
    while k < |items|
      invariant 0 <= k <= |items|
      invariant AllValidate(cfg, scope, items) <==> AllValidate(cfg, scope, items[k..])
    {
      assert items[k..][0] == items[k] && items[k..][1..] == items[k + 1..];
      ok := ValidateItem(cfg, scope, items[k]);
      if !ok {
        return;
      }
      k := k + 1;
    }
    assert items[k..] == [];
    ok := true;
  }

  /** An item together with the scope in which its id is looked up. */
  datatype Node = Node(scope: Scope, item: Item)

  /** All nodes of an item tree, each in the scope of its own parent's definition. */
  ghost function Nodes(cfg: Config, scope: Scope, item: Item): set<Node>
    decreases item, 0
  {
    {Node(scope, item)} +
    if HoldsItems(item.value) then NodesOf(cfg, InfoOfId(cfg, item.id, scope), item.value.items) else {}
  }

  ghost function NodesOf(cfg: Config, scope: Scope, items: seq<Item>): set<Node>
    decreases items, 1
  {
    if items == [] then {} else Nodes(cfg, scope, items[0]) + NodesOf(cfg, scope, items[1..])
  }

  /** The condition on one node alone: it resolves, has its type and range, and counts its children. */
  ghost predicate NodeOk(cfg: Config, node: Node) {
    var info := InfoOfId(cfg, node.item.id, node.scope);
    && info.Some?
    && info.value.valueType == TypeOf(node.item.value)
    && InRange(cfg, info.value, node.item.value)
    && (HoldsItems(node.item.value) ==>
          OccurrencesOk(node.item.value.items, info.value.subDataItems))
  }

  /**
   A value without items is valid exactly if it has its definition's type and is in range: a
   percentage up to a hundred, a status that has a name, an address that is added or dropped, and
   a subnet mask of no more bits than its address has.
   */
  lemma LeafValidExactly(cfg: Config, scope: Scope, item: Item)
    requires !HoldsItems(item.value) && InfoOfId(cfg, item.id, scope).Some?
    ensures var info, v := InfoOfId(cfg, item.id, scope).value, item.value;
            Validates(cfg, scope, item) <==>
              && TypeOf(v) == info.valueType
              && (v.U8? && info.units == Percentage ==> v.u8 <= 100)
              && (v.U8? && info.units != Percentage && info.name == "Status" ==> v.u8 in cfg.statusNames)
              && (v.U8String? && info.name == "Status" ==> v.field1 in cfg.statusNames)
              && (v.U8Ipv4? || v.U8Ipv6? || v.U8Ipv4U8? || v.U8Ipv6U8? ==> v.field1 == 0 || v.field1 == 1)
              && (v.U8Ipv4U8? ==> v.mask <= 8 * |v.ip4|)
              && (v.U8Ipv6U8? ==> v.mask <= 8 * |v.ip6|)
  {
    assert NodeOk(cfg, Node(scope, item)) <==> Validates(cfg, scope, item);
  }

  /** Validation is exact at every level of nesting: it accepts iff every node is right. */
  lemma {:induction false} ValidatesEveryNode(cfg: Config, scope: Scope, item: Item)
    ensures Validates(cfg, scope, item) <==> forall node :: node in Nodes(cfg, scope, item) ==> NodeOk(cfg, node)
    decreases item, 0
  {
    var root := Node(scope, item);
    var info := InfoOfId(cfg, item.id, scope);
    assert root in Nodes(cfg, scope, item);
    var below := if HoldsItems(item.value) then NodesOf(cfg, info, item.value.items) else {};
    assert Nodes(cfg, scope, item) == {root} + below;
    if HoldsItems(item.value) {
      ValidateAllNodes(cfg, info, item.value.items);
    }
    assert Validates(cfg, scope, item) <==> NodeOk(cfg, root) && forall node :: node in below ==> NodeOk(cfg, node);
  }

  lemma {:induction false} ValidateAllNodes(cfg: Config, scope: Scope, items: seq<Item>)
    ensures AllValidate(cfg, scope, items) <==>
            forall node :: node in NodesOf(cfg, scope, items) ==> NodeOk(cfg, node)
    decreases items, 1
  {
    if items != [] {
      ValidatesEveryNode(cfg, scope, items[0]);
      ValidateAllNodes(cfg, scope, items[1..]);
    }
  }

  /** A valid tree is in particular well typed, so it survives the wire. */
  lemma {:induction false} ValidImpliesWellTyped(cfg: Config, scope: Scope, item: Item)
    requires Validates(cfg, scope, item)
    ensures WellTyped(cfg, scope, item)
    decreases item, 0
  {
    if HoldsItems(item.value) {
      AllValidImplyWellTyped(cfg, InfoOfId(cfg, item.id, scope), item.value.items);
    }
  }

  lemma {:induction false} AllValidImplyWellTyped(cfg: Config, scope: Scope, items: seq<Item>)
    requires AllValidate(cfg, scope, items)
    ensures AllWellTyped(cfg, scope, items)
    decreases items, 1
  {
    if items != [] {
      ValidImpliesWellTyped(cfg, scope, items[0]);
      AllValidImplyWellTyped(cfg, scope, items[1..]);
    }
  }

  /** And it has a text: below a definition that lists nothing there is nothing to name. */
  lemma {:induction false} ValidImpliesHasText(cfg: Config, scope: Scope, item: Item)
    requires Validates(cfg, scope, item)
    ensures HasText(cfg, item, scope)
    decreases item, 0
  {
    if HoldsItems(item.value) {
      var info, items := InfoOfId(cfg, item.id, scope), item.value.items;
      assert items == [] || items[0] in items;
      if info.value.subDataItems != [] {
        AllValidImplyHaveText(cfg, info, items);
      }
    }
  }

  lemma {:induction false} AllValidImplyHaveText(cfg: Config, scope: Scope, items: seq<Item>)
    requires AllValidate(cfg, scope, items)
    ensures AllHaveText(cfg, items, scope)
    decreases items, 1
  {
    if items != [] {
      ValidImpliesHasText(cfg, scope, items[0]);
      AllValidImplyHaveText(cfg, scope, items[1..]);
    }
  }

  // ---- How deep items can nest ----

  ghost function Depth(item: Item): nat
    decreases item, 0
  {
    1 + if HoldsItems(item.value) then DepthOf(item.value.items) else 0
  }

  ghost function DepthOf(items: seq<Item>): nat
    decreases items, 1
  {
    if items == [] then 0
    else
      var first, rest := Depth(items[0]), DepthOf(items[1..]);
      if first > rest then first else rest
  }

  /**
   An item that validates against a configuration loaded definition by definition nests no
   deeper than the place of its own definition, whatever bytes it came from.
   */
  lemma {:induction false} ValidDepthIsBounded(cfg: Config, order: seq<string>, scope: Scope, item: Item, i: nat)
    requires Ordered(cfg.dataItemInfos, order)
    requires Validates(cfg, scope, item)
    requires i < |order| && NameOfId(cfg, item.id, scope) == Some(order[i])
    ensures Depth(item) <= i + 1
    decreases item, 0
  {
    var info := InfoOfId(cfg, item.id, scope).value;
    assert Grounded(cfg.dataItemInfos, order, i);
    if HoldsItems(item.value) {
      ValidDepthsAreBounded(cfg, order, info, item.value.items, i);
    }
  }

  lemma {:induction false} ValidDepthsAreBounded(cfg: Config, order: seq<string>, info: DataItemInfo,
                                                 items: seq<Item>, i: nat)
    requires Ordered(cfg.dataItemInfos, order) && i < |order|
    requires forall s :: s in info.subDataItems ==> s.name in order[..i]
    requires AllValidate(cfg, Some(info), items)
    requires forall item :: item in items ==> IsListed(info.subDataItems, item.id)
    ensures DepthOf(items) <= i
    decreases items, 1
  {
    if items != [] {
      var sub := FirstWithId(info.subDataItems, items[0].id).value;
      var j :| 0 <= j < i && order[j] == sub.name;
      ValidDepthIsBounded(cfg, order, Some(info), items[0], j);
      ValidDepthsAreBounded(cfg, order, info, items[1..], i);
    }
  }

  /** A container of id c that holds itself `n` deep. */
  ghost function Tower(c: u32, n: nat): Item {
    Item(c, Sub(if n == 0 then [] else [Tower(c, n - 1)]))
  }

  /** Inside itself, id c still means the same container of items. */
  ghost predicate AcceptsItself(cfg: Config, c: u32) {
    var info := InfoOfId(cfg, c, None);
    info.Some? && info.value.valueType == TSub && InfoOfId(cfg, c, info) == info
  }

  /** A loaded container accepts itself, by its top-level meaning, exactly when it lists nothing under its own id. */
  lemma AcceptsItselfExactly(cfg: Config, order: seq<string>, c: u32)
    requires WellFounded(cfg.dataItemNames, cfg.dataItemIds, cfg.dataItemInfos, order)
    requires c in cfg.dataItemNames && InfoOfId(cfg, c, None).value.valueType == TSub
    ensures AcceptsItself(cfg, c) <==> !IsListed(InfoOfId(cfg, c, None).value.subDataItems, c)
  {
    var name := cfg.dataItemNames[c];
    var info := cfg.dataItemInfos[name];
    if sub: SubDataItem :| FirstWithId(info.subDataItems, c) == Some(sub) {
      var i :| 0 <= i < |order| && order[i] == name;
      assert Grounded(cfg.dataItemInfos, order, i);
      var j :| 0 <= j < i && order[j] == sub.name;
      assert sub.name != name;
      assert Grounded(cfg.dataItemInfos, order, j);
    }
  }

  lemma {:induction false} TowerIsWellTyped(cfg: Config, c: u32, scope: Scope, n: nat)
    requires AcceptsItself(cfg, c) && scope in {None, InfoOfId(cfg, c, None)}
    ensures WellTyped(cfg, scope, Tower(c, n)) && Depth(Tower(c, n)) == n + 1
    decreases n
  {
    hide InfoOfId;
    if n > 0 {
      var inner, below := InfoOfId(cfg, c, None), Tower(c, n - 1);
      TowerIsWellTyped(cfg, c, inner, n - 1);
      assert [below][1..] == [];
      assert AllWellTyped(cfg, inner, [below]);
      assert DepthOf([below]) == n;
    }
  }

  lemma {:induction false} TowerFits(cfg: Config, c: u32, n: nat)
    requires c < Pow256(cfg.dataItemIdSize) && HeaderSize(cfg) * n < Pow256(cfg.dataItemLengthSize)
    ensures Fits(cfg, Tower(c, n)) && WireSize(cfg, Tower(c, n).value) == HeaderSize(cfg) * n
    decreases n
  {
    hide HeaderSize, Pow256;
    if n > 0 {
      var below := Tower(c, n - 1);
      Distributes(HeaderSize(cfg), n - 1);
      TowerFits(cfg, c, n - 1);
      assert [below][1..] == [];
      assert WireSizes(cfg, [below]) == HeaderSize(cfg) + WireSize(cfg, below.value);
      assert AllFit(cfg, [below]);
    } else {
      assert WireSize(cfg, Sub([])) == 0 && AllFit(cfg, []);
    }
  }

  lemma Distributes(h: nat, n: nat)
    ensures h * (n + 1) == h * n + h
  {
  }

  /**
   Decoding alone gives no such bound: every container that accepts itself decodes to nesting of
   any depth its length field can hold, and validation rejects all of it if the container does not
   list itself.
   */
  lemma DecodingNestsWithoutBound(cfg: Config, c: u32, n: nat)
    requires AcceptsItself(cfg, c)
    requires c < Pow256(cfg.dataItemIdSize) && HeaderSize(cfg) * n < Pow256(cfg.dataItemLengthSize)
    ensures exists buf :: DecodeItem(cfg, None, buf) == Some((Tower(c, n), |buf|))
    ensures Depth(Tower(c, n)) == n + 1
    ensures n > 0 && !IsListed(InfoOfId(cfg, c, None).value.subDataItems, c) ==> !Validates(cfg, None, Tower(c, n))
  {
    TowerIsWellTyped(cfg, c, None, n);
    TowerFits(cfg, c, n);
    var tower := Tower(c, n);
    assert exists buf :: DecodeItem(cfg, None, buf) == Some((tower, |buf|)) by {
      hide WellTyped, Fits, Tower, Pow256, AcceptsItself, InfoOfId, EncodeItem, DecodeItem;
      ItemEncodesExactly(cfg, tower);
      ItemRoundTrip(cfg, None, tower, []);
      assert EncodeItem(cfg, tower).value + [] == EncodeItem(cfg, tower).value;
    }
    if n > 0 {
      assert Tower(c, n).value.items[0] == Tower(c, n - 1);
    }
  }
}
