/**
 Items between their two forms: what validates can be written as text and read back, and what a
 configuration that gives one id two names does to items that arrive on the wire.
 */
module TextAndWire {
  import opened Wrappers
  import opened Serialize
  import opened ProtocolConfig
  import opened ConfigBuilder
  import opened DataItem
  import opened TextFormat
  import opened TextRoundTrip
  import opened Validation
  import opened WireFormat
  import opened ProtocolMessage

  /** Every definition lists distinct names and distinct, set ids. */
  ghost predicate AllDistinct(cfg: Config) {
    forall name :: name in cfg.dataItemInfos ==> DistinctEntries(cfg.dataItemInfos[name].subDataItems)
  }

  lemma {:induction false} EachValidates(cfg: Config, scope: Scope, items: seq<Item>, sub: Item)
    requires AllValidate(cfg, scope, items) && sub in items
    ensures Validates(cfg, scope, sub)
  {
    hide Validates;
    if items[0] != sub {
      EachValidates(cfg, scope, items[1..], sub);
    }
  }

  /** A valid item's names all resolve, once its own does. */
  lemma {:induction false} ValidImpliesResolves(cfg: Config, scope: Scope, item: Item)
    requires AllDistinct(cfg) && Validates(cfg, scope, item)
    requires IdOfName(cfg, NameOfId(cfg, item.id, scope).value, scope) == Some(item.id)
    ensures Resolves(cfg, item, scope, scope)
    decreases item
  {
    hide NameOfId, IdOfName, InRange, AllValidate;
    if HoldsItems(item.value) {
      var info := InfoOfId(cfg, item.id, scope);
      var listed := info.value.subDataItems;
      forall sub | sub in item.value.items
        ensures Resolves(cfg, sub, PrintScope(info.value, scope), info)
      {
        var k :| 0 <= k < |listed| && listed[k].id == sub.id;
        ListedLookupsAreInverse(cfg, info.value, k);
        EachValidates(cfg, info, item.value.items, sub);
        ValidImpliesResolves(cfg, info, sub);
      }
    }
  }

  /**
   With a bijective top level and definitions that list distinct entries, every item that
   validates at the top level, and whose words can be told apart, reads back from its text.
   */
  lemma ValidItemReadsBack(cfg: Config, at: AddressText, item: Item)
    requires Bijection(cfg.dataItemNames, cfg.dataItemIds) && AllDistinct(cfg)
    requires Validates(cfg, None, item) && Written(cfg, at, item, None, true)
    ensures ToText(cfg, at, item, None).Some?
    ensures FromText(cfg, at, ToText(cfg, at, item, None).value, None) == Some(item)
  {
    assert IdOfName(cfg, NameOfId(cfg, item.id, None).value, None) == Some(item.id);
    ValidImpliesResolves(cfg, None, item);
    TextRoundTripExactly(cfg, at, item, None);
  }

  // ---- One id with two names

  const LEAF := DataItemInfo("Leaf", ID_UNDEFINED, TBlank, false, NoUnits, [])
  const X := DataItemInfo("X", ID_UNDEFINED, TSub, false, NoUnits, [])
  const INNER := DataItemInfo("Inner", 2, TSub, false, NoUnits, [])
  const Y := DataItemInfo("Y", 5, TSub, false, NoUnits, [SubDataItem("Leaf", 7, ZeroOrMore)])
  const OUTER := DataItemInfo("Outer", 1, TSub, false, NoUnits,
                              [SubDataItem("X", 5, ZeroOrMore), SubDataItem("Inner", 2, ZeroOrMore)])

  const DEFINITION_ORDER := ["Leaf", "X", "Inner", "Y", "Outer"]

  /**
   "Outer" lists "X" under an id that is "Y" at the top level, and "Inner".  "Inner" and "X" hold
   items but list none; "Y" lists "Leaf", whose id means nothing elsewhere.
   */
  function TwoNamesConfig(base: Config): Config {
    base.(dataItemNames := map[1 := "Outer", 2 := "Inner", 5 := "Y"],
          dataItemIds := map["Outer" := 1, "Inner" := 2, "Y" := 5],
          dataItemInfos := map["Leaf" := LEAF, "X" := X, "Inner" := INNER, "Y" := Y, "Outer" := OUTER])
  }

  /** The configuration is one that loading accepts, and its entries are distinct. */
  lemma TwoNamesConfigIsAccepted(base: Config)
    ensures var cfg := TwoNamesConfig(base);
            && WellFounded(cfg.dataItemNames, cfg.dataItemIds, cfg.dataItemInfos, DEFINITION_ORDER)
            && AllDistinct(cfg)
  {
    hide Ordered, DistinctEntries, Bijection, AllDistinct;
    FiveDefinitions(LEAF, X, INNER, Y, OUTER);
    ThreeNames();
    assert AllDistinct(TwoNamesConfig(base)) by {
      EntriesAreDistinct(base);
    }
  }

  lemma ThreeNames()
    ensures Bijection(map[1 := "Outer", 2 := "Inner", 5 := "Y"], map["Outer" := 1, "Inner" := 2, "Y" := 5])
  {
    assert "Outer" != "Inner" && "Outer" != "Y" && "Inner" != "Y";
  }

  lemma EntriesAreDistinct(base: Config)
    ensures AllDistinct(TwoNamesConfig(base))
  {
    hide DistinctEntries;
    FewEntries(Y.subDataItems);
    FewEntries(OUTER.subDataItems);
    FewEntries([]);
    forall name | name in TwoNamesConfig(base).dataItemInfos
      ensures DistinctEntries(TwoNamesConfig(base).dataItemInfos[name].subDataItems)
    {
      assert name in ["Leaf", "X", "Inner", "Y", "Outer"];
    }
  }

  lemma FewEntries(listed: seq<SubDataItem>)
    requires |listed| == 2 ==> listed[0].id != listed[1].id && listed[0].name != listed[1].name
    requires |listed| <= 2 && forall s :: s in listed ==> s.id != ID_UNDEFINED
    ensures DistinctEntries(listed)
  {
  }

  /** Loading them in this order. */
  lemma FiveDefinitions(leaf: DataItemInfo, x: DataItemInfo, inner: DataItemInfo, y: DataItemInfo, outer: DataItemInfo)
    requires leaf.name == "Leaf" && x.name == "X" && inner.name == "Inner" && y.name == "Y" && outer.name == "Outer"
    requires leaf.subDataItems == x.subDataItems == inner.subDataItems == []
    requires forall s :: s in y.subDataItems ==> s.name == "Leaf" && s.id != ID_UNDEFINED
    requires forall s :: s in outer.subDataItems ==> s.name in {"X", "Inner"} && s.id != ID_UNDEFINED
    ensures Ordered(map["Leaf" := leaf, "X" := x, "Inner" := inner, "Y" := y, "Outer" := outer], DEFINITION_ORDER)
  {
    hide Ordered;
    EmptyIsOrdered();
    var one, two := map["Leaf" := leaf], map["Leaf" := leaf, "X" := x];
    var three := two["Inner" := inner];
    var four := three["Y" := y];
    AcceptedDefinitionKeepsOrder(map[], [], leaf);
    assert map[]["Leaf" := leaf] == one && [] + ["Leaf"] == ["Leaf"];
    AcceptedDefinitionKeepsOrder(one, ["Leaf"], x);
    assert one["X" := x] == two && ["Leaf"] + ["X"] == ["Leaf", "X"];
    AcceptedDefinitionKeepsOrder(two, ["Leaf", "X"], inner);
    assert ["Leaf", "X"] + ["Inner"] == ["Leaf", "X", "Inner"];
    AcceptedDefinitionKeepsOrder(three, ["Leaf", "X", "Inner"], y);
    assert ["Leaf", "X", "Inner"] + ["Y"] == ["Leaf", "X", "Inner", "Y"];
    AcceptedDefinitionKeepsOrder(four, ["Leaf", "X", "Inner", "Y"], outer);
    assert ["Leaf", "X", "Inner", "Y"] + ["Outer"] == DEFINITION_ORDER;
  }

  lemma EmptyIsOrdered()
    ensures Ordered(map[], [])
  {
  }

  /** What the five definitions are called where. */
  lemma TwoNames(base: Config)
    ensures var cfg := TwoNamesConfig(base);
            var outer, inner, y := InfoOfName(cfg, "Outer"), InfoOfName(cfg, "Inner"), InfoOfName(cfg, "Y");
            var x, leaf := InfoOfName(cfg, "X"), InfoOfName(cfg, "Leaf");
            && outer.Some? && inner.Some? && x.Some? && y.Some? && leaf.Some?
            && outer.value.valueType == inner.value.valueType == x.value.valueType == y.value.valueType == TSub
            && leaf.value.valueType == TBlank
            && |outer.value.subDataItems| > 0 && |inner.value.subDataItems| == |x.value.subDataItems| == 0
            && NameOfId(cfg, 1, None) == Some("Outer") && NameOfId(cfg, 2, outer) == Some("Inner")
            && NameOfId(cfg, 5, outer) == Some("X") && NameOfId(cfg, 5, inner) == Some("Y")
            && NameOfId(cfg, 7, y) == Some("Leaf") && NameOfId(cfg, 7, outer) == None
            && IdOfName(cfg, "X", inner) == None
  {
    var cfg := TwoNamesConfig(base);
    var listed := cfg.dataItemInfos["Outer"].subDataItems;
    assert FirstWithId(listed, 5) == Some(listed[0]);
    assert FirstWithId(listed, 2) == Some(listed[1]);
    assert FirstWithId(listed, 7) == None;
  }

  /** An item with the other three inside one another. */
  function Nest(leaves: seq<Item>): Item {
    Item(1, Sub([Item(2, Sub([Item(5, Sub(leaves))]))]))
  }

  /** Such items are well typed and fit the fields of any configuration. */
  lemma NestArrives(base: Config, leaves: seq<Item>)
    requires leaves == [] || leaves == [Item(7, Blank)]
    ensures var cfg := TwoNamesConfig(base);
            && WellTyped(cfg, None, Nest(leaves)) && Fits(cfg, Nest(leaves))
            && ItemWireSize(cfg, Nest(leaves)) <= 64
  {
    hide TwoNamesConfig, NameOfId, InfoOfName, Pow256, BigEndian;
    var cfg := TwoNamesConfig(base);
    TwoNames(base);
    AtLeastOneByte(cfg.dataItemIdSize);
    AtLeastOneByte(cfg.dataItemLengthSize);
    var outer, inner, y := InfoOfName(cfg, "Outer"), InfoOfName(cfg, "Inner"), InfoOfName(cfg, "Y");
    var five := Item(5, Sub(leaves));
    var two := Item(2, Sub([five]));
    OneItem(cfg, inner, five);
    OneItem(cfg, outer, two);
    if leaves != [] {
      OneItem(cfg, y, leaves[0]);
    }
    assert AllFit(cfg, leaves) && WireSizes(cfg, leaves) <= 16;
    assert Fits(cfg, five) && ItemWireSize(cfg, five) <= 32;
    assert Fits(cfg, two) && ItemWireSize(cfg, two) <= 48;
  }

  lemma AtLeastOneByte(n: FieldSize)
    ensures Pow256(n) >= 256
  {
    PowersOf256();
    Pow256Monotonic(1, n);
  }

  lemma OneItem(cfg: Config, scope: Scope, item: Item)
    ensures AllWellTyped(cfg, scope, [item]) <==> WellTyped(cfg, scope, item)
    ensures AllFit(cfg, [item]) <==> Fits(cfg, item)
    ensures AllHaveText(cfg, [item], scope) <==> HasText(cfg, item, scope)
    ensures WireSizes(cfg, [item]) == ItemWireSize(cfg, item)
  {
    assert [item][1..] == [];
  }

  /**
   A message may be well formed and yet refused, because its items cannot be written for the log:
   the writer calls item 5 "X", and so looks for what is inside it in the definition of "Outer".
   */
  lemma MessageWithoutTextIsRefused(base: Config, isSignal: bool, id: u32)
    requires KnownId(base, isSignal, id) && id < Pow256(base.signalIdSize)
    ensures var cfg, items := TwoNamesConfig(base), [Nest([Item(7, Blank)])];
            && AllWellTyped(cfg, None, items) && EncodeItems(cfg, items).Some?
            && Framable(cfg, id, |EncodeItems(cfg, items).value|)
            && DecodeItems(cfg, None, EncodeItems(cfg, items).value) == Some(items)
            && ParseMessage(cfg, isSignal, Frame(cfg, isSignal, id, EncodeItems(cfg, items).value)) == None
  {
    var cfg := TwoNamesConfig(base);
    var leaves := [Item(7, Blank)];
    var items := [Nest(leaves)];
    NestHasNoText(base);
    NestArrives(base, leaves);
    AtLeastOneByte(cfg.signalLengthSize);
    hide WellTyped, AllWellTyped, Fits, AllFit, EncodeItem, EncodeItems, ItemWireSize, WireSizes, ParseMessage, DecodeItems,
      HasText, AllHaveText, Nest, Pow256, InfoOfId;
    OneItem(cfg, None, Nest(leaves));
    ItemsEncodeExactly(cfg, items);
    ItemsRoundTrip(cfg, None, items);
    BuiltMessageParses(cfg, isSignal, id, items);
  }

  lemma NestHasNoText(base: Config)
    ensures !HasText(TwoNamesConfig(base), Nest([Item(7, Blank)]), None)
  {
    hide TwoNamesConfig, NameOfId, InfoOfName;
    var cfg := TwoNamesConfig(base);
    TwoNames(base);
    var outer := InfoOfName(cfg, "Outer");
    var five := Item(5, Sub([Item(7, Blank)]));
    OneItem(cfg, outer, Item(7, Blank));
    OneItem(cfg, outer, five);
    OneItem(cfg, outer, Item(2, Sub([five])));
    assert !HasText(cfg, five, outer);
  }

  /** An item may arrive and be written, and yet not be read back: the reader knows no "X" inside "Inner". */
  lemma UnlistedItemsDoNotReadBack(base: Config, at: AddressText)
    ensures var cfg, item := TwoNamesConfig(base), Nest([]);
            && EncodeItem(cfg, item).Some?
            && DecodeItem(cfg, None, EncodeItem(cfg, item).value) == Some((item, |EncodeItem(cfg, item).value|))
            && Written(cfg, at, item, None, true)
            && ToText(cfg, at, item, None).Some?
            && FromText(cfg, at, ToText(cfg, at, item, None).value, None) != Some(item)
  {
    var cfg, item := TwoNamesConfig(base), Nest([]);
    NestDoesNotResolve(base, at);
    NestArrives(base, []);
    hide TwoNamesConfig, Nest, WellTyped, Fits, EncodeItem, DecodeItem, Written, Resolves, ToText, FromText;
    ItemEncodesExactly(cfg, item);
    ItemRoundTrip(cfg, None, item, []);
    assert EncodeItem(cfg, item).value + [] == EncodeItem(cfg, item).value;
    TextRoundTripExactly(cfg, at, item, None);
  }

  lemma NestDoesNotResolve(base: Config, at: AddressText)
    ensures Written(TwoNamesConfig(base), at, Nest([]), None, true)
    ensures !Resolves(TwoNamesConfig(base), Nest([]), None, None)
  {
    hide TwoNamesConfig, NameOfId, IdOfName, InfoOfName;
    var cfg := TwoNamesConfig(base);
    TwoNames(base);
    var outer, inner := InfoOfName(cfg, "Outer"), InfoOfName(cfg, "Inner");
    var five := Item(5, Sub([]));
    var two := Item(2, Sub([five]));
    assert Written(cfg, at, five, outer, false);
    assert Written(cfg, at, two, outer, false);
    assert five in two.value.items && two in Nest([]).value.items;
    assert !Resolves(cfg, five, outer, inner);
    assert !Resolves(cfg, two, outer, outer);
  }
}
