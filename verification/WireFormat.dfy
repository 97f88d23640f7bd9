/**
 The wire format of data items: what `DataItem::serialize` produces and what
 `DataItem::deserialize` accepts (DataItem.cpp), with the configured field sizes.  Nested items
 may resolve to any top-level definition, so decoding recurses on the bytes that remain.
 */
module WireFormat {
  import opened Wrappers
  import opened Serialize
  import opened ProtocolConfig
  import opened DataItem

  /** A number in a field of n bytes, unless it is too big. */
  function Field(v: nat, n: nat): Option<seq<byte>> {
    if v < Pow256(n) then Some(BigEndian(v, n)) else None
  }

  function Fields(vs: seq<u32>, n: nat): Option<seq<byte>> {
    if vs == [] then Some([])
    else
      var first :- Field(vs[0], n);
      var rest :- Fields(vs[1..], n);
      Some(first + rest)
  }

  /** A u32 read from a field, unless its value is too big for the type. */
  function ReadU32(field: seq<byte>): Option<u32> {
    var v := BigEndianValue(field);
    if v < 0x1_0000_0000 then Some(v) else None
  }

  /** A vector of numbers that fills the rest of an item. */
  function ReadFields(buf: seq<byte>, n: nat): Option<seq<u32>>
    requires n > 0
  {
    if buf == [] then Some([])
    else if |buf| < n then None
    else
      var first :- ReadU32(buf[..n]);
      var rest :- ReadFields(buf[n..], n);
      Some([first] + rest)
  }

  function Port(port: u16): seq<byte> {
    if port == 0 then [] else BigEndian(port, 2)
  }

  /** Bytes of a value that holds no items. */
  function EncodeFlat(cfg: Config, v: Value): Option<seq<byte>> {
    match v
    case Blank => Some([])
    case U8(x) => Some(BigEndian(x, 1))
    case U16(x) => Some(BigEndian(x, 2))
    case U32(x) => Some(BigEndian(x, 4))
    case U64(x) => Some(BigEndian(x, 8))
    case VU8(bytes) => Some(bytes)
    case VU32(words) => Fields(words, 4)
    case A2U16(x, y) => Some(BigEndian(x, 2) + BigEndian(y, 2))
    case Str(text) => Some(text)
    case MacAddr(mac) => Some(mac)
    case U8String(x, text) => Some([x] + text)
    case U8Ipv4(x, ip) => Some([x] + ip)
    case U8Ipv6(x, ip) => Some([x] + ip)
    case U16VU8(x, bytes) =>
      var count :- Field(|bytes|, 1);
      Some(BigEndian(x, 2) + count + bytes)
    case VExtId(ids) => Fields(ids, cfg.extensionIdSize)
    case U8Ipv4U16(x, ip, port) => Some([x] + ip + Port(port))
    case U8Ipv6U16(x, ip, port) => Some([x] + ip + Port(port))
    case U8Ipv4U8(x, ip, mask) => Some([x] + ip + [mask])
    case U8Ipv6U8(x, ip, mask) => Some([x] + ip + [mask])
    case U8U8(x, y) => Some([x, y])
    case U64U64(x, y) => Some(BigEndian(x, 8) + BigEndian(y, 8))
    case Sub(_) => None
    case U16Sub(_, _) => None
  }

  function HeaderSize(cfg: Config): nat {
    cfg.dataItemIdSize + cfg.dataItemLengthSize
  }

  /** Id and length of an item, written after its value is known. */
  function Header(cfg: Config, id: u32, length: nat): (r: Option<seq<byte>>)
    ensures r.Some? ==> |r.value| == HeaderSize(cfg)
  {
    var idField :- Field(id, cfg.dataItemIdSize);
    var lengthField :- Field(length, cfg.dataItemLengthSize);
    Some(idField + lengthField)
  }

  function EncodeValue(cfg: Config, v: Value): Option<seq<byte>>
    decreases v, 0
  {
    match v
    case Sub(items) => EncodeItems(cfg, items)
    case U16Sub(x, items) =>
      if |items| > 255 then None
      else
        var body :- EncodeItems(cfg, items);
        Some(BigEndian(x, 2) + [|items|, 0] + body)
    case _ => EncodeFlat(cfg, v)
  }

  function EncodeItem(cfg: Config, item: Item): Option<seq<byte>>
    decreases item, 1
  {
    var value :- EncodeValue(cfg, item.value);
    var header :- Header(cfg, item.id, |value|);
    Some(header + value)
  }

  function EncodeItems(cfg: Config, items: seq<Item>): Option<seq<byte>>
    decreases items, 2
  {
    if items == [] then Some([])
    else
      var first :- EncodeItem(cfg, items[0]);
      var rest :- EncodeItems(cfg, items[1..]);
      Some(first + rest)
  }

  /** A value that holds no items, from exactly the bytes the length field gave it. */
  function DecodeFlat(cfg: Config, t: ValueType, buf: seq<byte>): Option<Value> {
    match t
    case TBlank => if |buf| == 0 then Some(Blank) else None
    case TU8 => if |buf| == 1 then Some(U8(buf[0])) else None
    case TU16 => if |buf| == 2 then Some(U16(Word16(buf))) else None
    case TU32 => if |buf| == 4 then Some(U32(Word32(buf))) else None
    case TU64 => if |buf| == 8 then Some(U64(Word64(buf))) else None
    case TVU8 => Some(VU8(buf))
    case TVU32 =>
      var words :- ReadFields(buf, 4);
      Some(VU32(words))
    case TA2U16 => if |buf| == 4 then Some(A2U16(Word16(buf[..2]), Word16(buf[2..]))) else None
    case TString => Some(Str(buf))
    case TMac => Some(MacAddr(buf))
    case TU8String => if |buf| >= 1 then Some(U8String(buf[0], buf[1..])) else None
    case TU8Ipv4 => if |buf| == 5 then Some(U8Ipv4(buf[0], buf[1..])) else None
    case TU8Ipv6 => if |buf| == 17 then Some(U8Ipv6(buf[0], buf[1..])) else None
    case TU16VU8 =>
      if |buf| >= 3 && buf[2] == |buf| - 3 then Some(U16VU8(Word16(buf[..2]), buf[3..])) else None
    case TVExtId =>
      var ids :- ReadFields(buf, cfg.extensionIdSize);
      Some(VExtId(ids))
    case TU8Ipv4U16 =>
      if |buf| == 5 then Some(U8Ipv4U16(buf[0], buf[1..5], 0))
      else if |buf| == 7 then Some(U8Ipv4U16(buf[0], buf[1..5], Word16(buf[5..])))
      else None
    case TU8Ipv6U16 =>
      if |buf| == 17 then Some(U8Ipv6U16(buf[0], buf[1..17], 0))
      else if |buf| == 19 then Some(U8Ipv6U16(buf[0], buf[1..17], Word16(buf[17..])))
      else None
    case TU8Ipv4U8 => if |buf| == 6 then Some(U8Ipv4U8(buf[0], buf[1..5], buf[5])) else None
    case TU8Ipv6U8 => if |buf| == 18 then Some(U8Ipv6U8(buf[0], buf[1..17], buf[17])) else None
    case TU8U8 => if |buf| == 2 then Some(U8U8(buf[0], buf[1])) else None
    case TU64U64 => if |buf| == 16 then Some(U64U64(Word64(buf[..8]), Word64(buf[8..]))) else None
    case TSub => None
    case TU16Sub => None
  }

  function Word16(s: seq<byte>): u16
    requires |s| == 2
  {
    ValueFitsLength(s); PowersOf256();
    BigEndianValue(s)
  }

  function Word32(s: seq<byte>): u32
    requires |s| == 4
  {
    ValueFitsLength(s); PowersOf256();
    BigEndianValue(s)
  }

  function Word64(s: seq<byte>): u64
    requires |s| == 8
  {
    ValueFitsLength(s); PowersOf256();
    BigEndianValue(s)
  }

  /** Id and length at the front of an item, if all of the item is there. */
  function ReadHeader(cfg: Config, buf: seq<byte>): (r: Option<(u32, nat)>)
    ensures r.Some? ==> HeaderSize(cfg) + r.value.1 <= |buf|
  {
    var i, h := cfg.dataItemIdSize, HeaderSize(cfg);
    if |buf| < h then None
    else
      var id :- ReadU32(buf[..i]);
      var length := BigEndianValue(buf[i..h]);
      if h + length > |buf| then None else Some((id, length))
  }

  function DecodeValue(cfg: Config, info: DataItemInfo, buf: seq<byte>): Option<Value>
    decreases |buf|, 2
  {
    match info.valueType
    case TSub =>
      var items :- DecodeItems(cfg, Some(info), buf);
      Some(Sub(items))
    case TU16Sub =>
      if |buf| < 4 || buf[3] != 0 then None
      else
        var items :- DecodeItems(cfg, Some(info), buf[4..]);
        if |items| == buf[2] then Some(U16Sub(Word16(buf[..2]), items)) else None
    case t => DecodeFlat(cfg, t, buf)
  }

  /** One item off the front of a buffer, and how many bytes it took. */
  function DecodeItem(cfg: Config, scope: Scope, buf: seq<byte>): (r: Option<(Item, nat)>)
    ensures r.Some? ==> HeaderSize(cfg) <= r.value.1 <= |buf|
    decreases |buf|, 0
  {
    var (id, length) :- ReadHeader(cfg, buf);
    var info :- InfoOfId(cfg, id, scope);
    var value :- DecodeValue(cfg, info, buf[HeaderSize(cfg)..HeaderSize(cfg) + length]);
    Some((Item(id, value), HeaderSize(cfg) + length))
  }

  /** Items that fill a buffer completely. */
  function DecodeItems(cfg: Config, scope: Scope, buf: seq<byte>): Option<seq<Item>>
    decreases |buf|, 1
  {
    if buf == [] then Some([])
    else
      var (first, n) :- DecodeItem(cfg, scope, buf);
      var rest :- DecodeItems(cfg, scope, buf[n..]);
      Some([first] + rest)
  }

  // ---- Which items can be written, and how long they are ----

  /** Every id in the tree resolves in its scope to a definition of the value's type. */
  predicate WellTyped(cfg: Config, scope: Scope, item: Item)
    decreases item, 0
  {
    var info := InfoOfId(cfg, item.id, scope);
    && info.Some?
    && info.value.valueType == TypeOf(item.value)
    && match item.value
       case Sub(items) => AllWellTyped(cfg, info, items)
       case U16Sub(_, items) => AllWellTyped(cfg, info, items)
       case _ => true
  }

  predicate AllWellTyped(cfg: Config, scope: Scope, items: seq<Item>)
    decreases items, 1
  {
    items == [] || (WellTyped(cfg, scope, items[0]) && AllWellTyped(cfg, scope, items[1..]))
  }

  /** Bytes a value takes on the wire, from its shape alone. */
  function WireSize(cfg: Config, v: Value): nat
    decreases v, 0
  {
    match v
    case Blank => 0
    case U8(_) => 1
    case U16(_) => 2
    case U32(_) => 4
    case U64(_) => 8
    case VU8(bytes) => |bytes|
    case VU32(words) => 4 * |words|
    case A2U16(_, _) => 4
    case Str(text) => |text|
    case MacAddr(mac) => |mac|
    case U8String(_, text) => 1 + |text|
    case U8Ipv4(_, _) => 5
    case U8Ipv6(_, _) => 17
    case U16VU8(_, bytes) => 3 + |bytes|
    case VExtId(ids) => cfg.extensionIdSize * |ids|
    case U8Ipv4U16(_, _, port) => if port == 0 then 5 else 7
    case U8Ipv6U16(_, _, port) => if port == 0 then 17 else 19
    case U8Ipv4U8(_, _, _) => 6
    case U8Ipv6U8(_, _, _) => 18
    case U8U8(_, _) => 2
    case U64U64(_, _) => 16
    case Sub(items) => WireSizes(cfg, items)
    case U16Sub(_, items) => 4 + WireSizes(cfg, items)
  }

  function ItemWireSize(cfg: Config, item: Item): nat
    decreases item, 1
  {
    HeaderSize(cfg) + WireSize(cfg, item.value)
  }

  function WireSizes(cfg: Config, items: seq<Item>): nat
    decreases items, 2
  {
    if items == [] then 0 else ItemWireSize(cfg, items[0]) + WireSizes(cfg, items[1..])
  }

  /** Ids, extension ids, counts and lengths all fit their configured fields. */
  predicate Fits(cfg: Config, item: Item)
    decreases item, 1
  {
    && item.id < Pow256(cfg.dataItemIdSize)
    && WireSize(cfg, item.value) < Pow256(cfg.dataItemLengthSize)
    && ValueFits(cfg, item.value)
  }

  predicate ValueFits(cfg: Config, v: Value)
    decreases v, 0
  {
    match v
    case U16VU8(_, bytes) => |bytes| <= 255
    case VExtId(ids) => forall i :: 0 <= i < |ids| ==> ids[i] < Pow256(cfg.extensionIdSize)
    case Sub(items) => AllFit(cfg, items)
    case U16Sub(_, items) => |items| <= 255 && AllFit(cfg, items)
    case _ => true
  }

  predicate AllFit(cfg: Config, items: seq<Item>)
    decreases items, 2
  {
    items == [] || (Fits(cfg, items[0]) && AllFit(cfg, items[1..]))
  }

  lemma {:induction false} FieldsExactly(vs: seq<u32>, n: nat)
    ensures Fields(vs, n).Some? <==> forall i :: 0 <= i < |vs| ==> vs[i] < Pow256(n)
    ensures Fields(vs, n).Some? ==> |Fields(vs, n).value| == n * |vs|
  {
    hide Pow256, BigEndian;
    if vs != [] {
      FieldsExactly(vs[1..], n);
      assert vs == [vs[0]] + vs[1..];
      TimesOneMore(n, |vs[1..]|);
    }
  }

  lemma TimesOneMore(n: nat, k: nat)
    ensures n * (k + 1) == n + n * k
  {
  }

  /** An item can be serialized exactly when it fits, and its size is then the computed one. */
  lemma {:induction false} ItemEncodesExactly(cfg: Config, item: Item)
    ensures EncodeItem(cfg, item).Some? <==> Fits(cfg, item)
    ensures EncodeItem(cfg, item).Some? ==>
              |EncodeItem(cfg, item).value| == ItemWireSize(cfg, item)
    decreases item, 1
  {
    ValueEncodesExactly(cfg, item.value);
  }

  lemma {:induction false} ValueEncodesExactly(cfg: Config, v: Value)
    ensures EncodeValue(cfg, v).Some? <==> ValueFits(cfg, v)
    ensures EncodeValue(cfg, v).Some? ==> |EncodeValue(cfg, v).value| == WireSize(cfg, v)
    decreases v, 0
  {
    hide EncodeItems, AllFit, WireSizes, EncodeFlat;
    match v
    case Sub(items) => ItemsEncodeExactly(cfg, items);
    case U16Sub(_, items) => ItemsEncodeExactly(cfg, items);
    case _ => FlatEncodesExactly(cfg, v);
  }

  lemma FlatEncodesExactly(cfg: Config, v: Value)
    requires !v.Sub? && !v.U16Sub?
    ensures EncodeFlat(cfg, v).Some? <==> ValueFits(cfg, v)
    ensures EncodeFlat(cfg, v).Some? ==> |EncodeFlat(cfg, v).value| == WireSize(cfg, v)
  {
    PowersOf256();
    match v
    case VU32(words) => FieldsExactly(words, 4);
    case VExtId(ids) => FieldsExactly(ids, cfg.extensionIdSize);
    case _ =>
  }

  lemma {:induction false} ItemsEncodeExactly(cfg: Config, items: seq<Item>)
    ensures EncodeItems(cfg, items).Some? <==> AllFit(cfg, items)
    ensures EncodeItems(cfg, items).Some? ==> |EncodeItems(cfg, items).value| == WireSizes(cfg, items)
    decreases items, 2
  {
    if items != [] {
      ItemEncodesExactly(cfg, items[0]);
      ItemsEncodeExactly(cfg, items[1..]);
    }
  }

  // ---- Round trip: what is written is read back ----

  lemma {:induction false} FieldsRoundTrip(vs: seq<u32>, n: nat)
    requires n > 0 && Fields(vs, n).Some?
    ensures ReadFields(Fields(vs, n).value, n) == Some(vs)
  {
    if vs != [] {
      var first, rest := Field(vs[0], n).value, Fields(vs[1..], n).value;
      var buf := first + rest;
      assert buf[..n] == first && buf[n..] == rest;
      ValueOfBigEndian(vs[0], n);
      FieldsRoundTrip(vs[1..], n);
      assert ReadU32(first) == Some(vs[0]);
      assert [vs[0]] + vs[1..] == vs;
    }
  }

  /** A concatenation comes apart where it was put together. */
  lemma Split(a: seq<byte>, b: seq<byte>, c: seq<byte>)
    ensures (a + b + c)[..|a|] == a
    ensures (a + b + c)[|a|..|a| + |b|] == b
    ensures (a + b + c)[|a| + |b|..] == c
  {
  }

  lemma NumberRoundTrip(cfg: Config, v: Value)
    requires v.U8? || v.U16? || v.U32? || v.U64? || v.A2U16? || v.U64U64?
    requires EncodeFlat(cfg, v).Some?
    ensures DecodeFlat(cfg, TypeOf(v), EncodeFlat(cfg, v).value) == Some(v)
  {
    PowersOf256();
    match v
    case U8(x) => assert BigEndian(x, 1) == [x];
    case U16(x) => ValueOfBigEndian(x, 2);
    case U32(x) => ValueOfBigEndian(x, 4);
    case U64(x) => ValueOfBigEndian(x, 8);
    case A2U16(x, y) =>
      ValueOfBigEndian(x, 2);
      ValueOfBigEndian(y, 2);
      Split(BigEndian(x, 2), BigEndian(y, 2), []);
      assert BigEndian(x, 2) + BigEndian(y, 2) + [] == BigEndian(x, 2) + BigEndian(y, 2);
    case U64U64(x, y) =>
      ValueOfBigEndian(x, 8);
      ValueOfBigEndian(y, 8);
      Split(BigEndian(x, 8), BigEndian(y, 8), []);
      assert BigEndian(x, 8) + BigEndian(y, 8) + [] == BigEndian(x, 8) + BigEndian(y, 8);
  }

  lemma AddressRoundTrip(cfg: Config, v: Value)
    requires v.U8Ipv4? || v.U8Ipv6? || v.U8Ipv4U8? || v.U8Ipv6U8?
    requires EncodeFlat(cfg, v).Some?
    ensures DecodeFlat(cfg, TypeOf(v), EncodeFlat(cfg, v).value) == Some(v)
  {
    match v
    case U8Ipv4(x, ip) => assert ([x] + ip)[1..] == ip;
    case U8Ipv6(x, ip) => assert ([x] + ip)[1..] == ip;
    case U8Ipv4U8(x, ip, mask) => Split([x], ip, [mask]);
    case U8Ipv6U8(x, ip, mask) => Split([x], ip, [mask]);
  }

  lemma ConnectionPointRoundTrip(cfg: Config, v: Value)
    requires v.U8Ipv4U16? || v.U8Ipv6U16?
    requires EncodeFlat(cfg, v).Some?
    ensures DecodeFlat(cfg, TypeOf(v), EncodeFlat(cfg, v).value) == Some(v)
  {
    PortRoundTrip(v.port);
    hide Port, BigEndianValue, Pow256;
    match v
    case U8Ipv4U16(x, ip, port) => Split([x], ip, Port(port));
    case U8Ipv6U16(x, ip, port) => Split([x], ip, Port(port));
  }

  lemma PortRoundTrip(port: u16)
    ensures |Port(port)| == if port == 0 then 0 else 2
    ensures port != 0 ==> Word16(Port(port)) == port
  {
    PowersOf256();
    ValueOfBigEndian(port, 2);
  }

  lemma VectorRoundTrip(cfg: Config, v: Value)
    requires v.VU32? || v.VExtId? || v.U16VU8? || v.U8String?
    requires EncodeFlat(cfg, v).Some?
    ensures DecodeFlat(cfg, TypeOf(v), EncodeFlat(cfg, v).value) == Some(v)
  {
    PowersOf256();
    match v
    case VU32(words) => FieldsRoundTrip(words, 4);
    case VExtId(ids) => FieldsRoundTrip(ids, cfg.extensionIdSize);
    case U8String(x, text) => assert ([x] + text)[1..] == text;
    case U16VU8(x, bytes) =>
      TaggedRoundTrip(cfg, x, bytes);
      assert EncodeFlat(cfg, v).value == BigEndian(x, 2) + [|bytes|] + bytes by {
        assert BigEndian(|bytes|, 1) == [|bytes|];
      }
  }

  lemma TaggedRoundTrip(cfg: Config, x: u16, bytes: seq<byte>)
    requires |bytes| <= 255
    ensures DecodeFlat(cfg, TU16VU8, BigEndian(x, 2) + [|bytes|] + bytes) == Some(U16VU8(x, bytes))
  {
    PowersOf256();
    ValueOfBigEndian(x, 2);
    hide BigEndian, BigEndianValue, Pow256;
    Split(BigEndian(x, 2), [|bytes|], bytes);
  }

  lemma FlatRoundTrip(cfg: Config, v: Value)
    requires EncodeFlat(cfg, v).Some?
    ensures DecodeFlat(cfg, TypeOf(v), EncodeFlat(cfg, v).value) == Some(v)
  {
    match v
    case Blank =>
    case VU8(_) =>
    case Str(_) =>
    case MacAddr(_) =>
    case U8U8(_, _) =>
    case VU32(_) => VectorRoundTrip(cfg, v);
    case VExtId(_) => VectorRoundTrip(cfg, v);
    case U8String(_, _) => VectorRoundTrip(cfg, v);
    case U16VU8(_, _) => VectorRoundTrip(cfg, v);
    case U8Ipv4(_, _) => AddressRoundTrip(cfg, v);
    case U8Ipv6(_, _) => AddressRoundTrip(cfg, v);
    case U8Ipv4U8(_, _, _) => AddressRoundTrip(cfg, v);
    case U8Ipv6U8(_, _, _) => AddressRoundTrip(cfg, v);
    case U8Ipv4U16(_, _, _) => ConnectionPointRoundTrip(cfg, v);
    case U8Ipv6U16(_, _, _) => ConnectionPointRoundTrip(cfg, v);
    case _ => NumberRoundTrip(cfg, v);
  }

  lemma HeaderRoundTrip(cfg: Config, id: u32, value: seq<byte>, suffix: seq<byte>)
    requires Header(cfg, id, |value|).Some?
    ensures var buf := Header(cfg, id, |value|).value + value + suffix;
            && ReadHeader(cfg, buf) == Some((id, |value|))
            && buf[HeaderSize(cfg)..HeaderSize(cfg) + |value|] == value
  {
    var idField, lengthField := BigEndian(id, cfg.dataItemIdSize), BigEndian(|value|, cfg.dataItemLengthSize);
    ValueOfBigEndian(id, cfg.dataItemIdSize);
    ValueOfBigEndian(|value|, cfg.dataItemLengthSize);
    Split(idField, lengthField, value + suffix);
    var buf := Header(cfg, id, |value|).value + value + suffix;
    assert buf == idField + lengthField + (value + suffix);
    Split(idField + lengthField, value, suffix);
  }

  /**
   Deserializing what was serialized, followed by anything at all, returns the item and stops
   exactly where it ended.
   */
  lemma {:induction false} ItemRoundTrip(cfg: Config, scope: Scope, item: Item, suffix: seq<byte>)
    requires WellTyped(cfg, scope, item) && EncodeItem(cfg, item).Some?
    ensures DecodeItem(cfg, scope, EncodeItem(cfg, item).value + suffix) ==
            Some((item, |EncodeItem(cfg, item).value|))
    decreases item, 1
  {
    hide ReadHeader, EncodeValue, DecodeValue, NameOfId;
    var value := EncodeValue(cfg, item.value).value;
    HeaderRoundTrip(cfg, item.id, value, suffix);
    ValueRoundTrip(cfg, InfoOfId(cfg, item.id, scope).value, item.value);
  }

  lemma {:induction false} ValueRoundTrip(cfg: Config, info: DataItemInfo, v: Value)
    requires EncodeValue(cfg, v).Some? && info.valueType == TypeOf(v)
    requires v.Sub? || v.U16Sub? ==> AllWellTyped(cfg, Some(info), v.items)
    ensures DecodeValue(cfg, info, EncodeValue(cfg, v).value) == Some(v)
    decreases v, 0
  {
    hide EncodeFlat, DecodeFlat, EncodeItems, DecodeItems, AllWellTyped;
    match v
    case Sub(items) =>
      ItemsRoundTrip(cfg, Some(info), items);
    case U16Sub(x, items) =>
      var body := EncodeItems(cfg, items).value;
      var buf := EncodeValue(cfg, v).value;
      assert buf == BigEndian(x, 2) + [|items|, 0] + body;
      assert buf[..2] == BigEndian(x, 2) && buf[4..] == body;
      PowersOf256();
      ValueOfBigEndian(x, 2);
      ItemsRoundTrip(cfg, Some(info), items);
    case _ =>
      FlatRoundTrip(cfg, v);
  }

  lemma {:induction false} ItemsRoundTrip(cfg: Config, scope: Scope, items: seq<Item>)
    requires AllWellTyped(cfg, scope, items) && EncodeItems(cfg, items).Some?
    ensures DecodeItems(cfg, scope, EncodeItems(cfg, items).value) == Some(items)
    decreases items, 2
  {
    hide EncodeItem, DecodeItem, WellTyped;
    if items != [] {
      var first, rest := EncodeItem(cfg, items[0]).value, EncodeItems(cfg, items[1..]).value;
      ItemRoundTrip(cfg, scope, items[0], rest);
      ItemsRoundTrip(cfg, scope, items[1..]);
      assert (first + rest)[|first|..] == rest;
      assert [items[0]] + items[1..] == items;
    }
  }

  /** The wire form is unambiguous and prefix free: two items that start alike are the same. */
  lemma WireFormIsPrefixFree(cfg: Config, scope: Scope, a: Item, b: Item, x: seq<byte>, y: seq<byte>)
    requires WellTyped(cfg, scope, a) && EncodeItem(cfg, a).Some?
    requires WellTyped(cfg, scope, b) && EncodeItem(cfg, b).Some?
    requires EncodeItem(cfg, a).value + x == EncodeItem(cfg, b).value + y
    ensures a == b && x == y
  {
    ItemRoundTrip(cfg, scope, a, x);
    ItemRoundTrip(cfg, scope, b, y);
    var n := |EncodeItem(cfg, a).value|;
    assert (EncodeItem(cfg, a).value + x)[n..] == x && (EncodeItem(cfg, b).value + y)[n..] == y;
  }

  // ---- Normal form: what is read is written back ----

  /** How many connection points in accepted bytes spell out a port of zero. */
  ghost function ZeroPorts(cfg: Config, info: DataItemInfo, buf: seq<byte>): nat
    decreases |buf|, 2
  {
    match info.valueType
    case TSub => ZeroPortsIn(cfg, Some(info), buf)
    case TU16Sub => if |buf| < 4 then 0 else ZeroPortsIn(cfg, Some(info), buf[4..])
    case TU8Ipv4U16 => if |buf| == 7 && buf[5] == buf[6] == 0 then 1 else 0
    case TU8Ipv6U16 => if |buf| == 19 && buf[17] == buf[18] == 0 then 1 else 0
    case _ => 0
  }

  ghost function ZeroPortsAt(cfg: Config, scope: Scope, buf: seq<byte>): nat
    decreases |buf|, 0
  {
    match DecodeItem(cfg, scope, buf)
    case None => 0
    case Some((item, n)) =>
      ZeroPorts(cfg, InfoOfId(cfg, item.id, scope).value, buf[HeaderSize(cfg)..n])
  }

  ghost function ZeroPortsIn(cfg: Config, scope: Scope, buf: seq<byte>): nat
    decreases |buf|, 1
  {
    match DecodeItem(cfg, scope, buf)
    case None => 0
    case Some((item, n)) => ZeroPortsAt(cfg, scope, buf) + ZeroPortsIn(cfg, scope, buf[n..])
  }

  lemma {:induction false} ReadFieldsNormalForm(buf: seq<byte>, n: nat)
    requires n > 0 && ReadFields(buf, n).Some?
    ensures Fields(ReadFields(buf, n).value, n) == Some(buf)
    decreases |buf|
  {
    if buf != [] {
      ValueFitsLength(buf[..n]);
      BigEndianOfValue(buf[..n]);
      ReadFieldsNormalForm(buf[n..], n);
      var vs := ReadFields(buf, n).value;
      assert vs[1..] == ReadFields(buf[n..], n).value;
      assert buf[..n] + buf[n..] == buf;
    }
  }

  /** Zero is the only number whose two bytes are both zero. */
  lemma ZeroWord(s: seq<byte>)
    requires |s| == 2
    ensures BigEndianValue(s) == 0 <==> s[0] == s[1] == 0
  {
    assert BigEndianValue(s[..1]) == BigEndianValue(s[..1][..0]) * 256 + s[0];
  }

  /** Bytes `out` are the re-serialization of accepted bytes `buf` with `zeros` zero ports. */
  ghost predicate Shortened(out: Option<seq<byte>>, buf: seq<byte>, zeros: nat) {
    && out.Some?
    && |out.value| + 2 * zeros == |buf|
    && (zeros == 0 ==> out.value == buf)
  }

  ghost predicate FlatNormal(cfg: Config, info: DataItemInfo, buf: seq<byte>, v: Value) {
    && TypeOf(v) == info.valueType
    && Shortened(EncodeFlat(cfg, v), buf, ZeroPorts(cfg, info, buf))
  }

  lemma NumberNormalForm(cfg: Config, info: DataItemInfo, buf: seq<byte>)
    requires info.valueType in {TU8, TU16, TU32, TU64}
    requires DecodeFlat(cfg, info.valueType, buf).Some?
    ensures FlatNormal(cfg, info, buf, DecodeFlat(cfg, info.valueType, buf).value)
  {
    BigEndianOfValue(buf);
    if info.valueType.TU8? {
      assert BigEndian(buf[0], 1) == buf;
    }
  }

  lemma PairNormalForm(cfg: Config, info: DataItemInfo, buf: seq<byte>)
    requires info.valueType in {TA2U16, TU64U64}
    requires DecodeFlat(cfg, info.valueType, buf).Some?
    ensures FlatNormal(cfg, info, buf, DecodeFlat(cfg, info.valueType, buf).value)
  {
    var half := if info.valueType.TA2U16? then 2 else 8;
    BigEndianOfValue(buf[..half]);
    BigEndianOfValue(buf[half..]);
    assert buf == buf[..half] + buf[half..];
  }

  lemma AddressNormalForm(cfg: Config, info: DataItemInfo, buf: seq<byte>)
    requires info.valueType in {TU8Ipv4, TU8Ipv6, TU8Ipv4U8, TU8Ipv6U8, TU8String, TU8U8}
    requires DecodeFlat(cfg, info.valueType, buf).Some?
    ensures FlatNormal(cfg, info, buf, DecodeFlat(cfg, info.valueType, buf).value)
  {
    assert buf == [buf[0]] + buf[1..];
    if info.valueType.TU8Ipv4U8? {
      assert buf == [buf[0]] + buf[1..5] + [buf[5]];
    } else if info.valueType.TU8Ipv6U8? {
      assert buf == [buf[0]] + buf[1..17] + [buf[17]];
    }
  }

  /** An optional port re-serializes to itself unless it is spelled out as zero. */
  lemma PortNormalForm(port: seq<byte>)
    requires |port| == 2
    ensures Word16(port) == 0 <==> port[0] == port[1] == 0
    ensures Port(Word16(port)) == if port[0] == port[1] == 0 then [] else port
  {
    ZeroWord(port);
    BigEndianOfValue(port);
  }

  lemma ConnectionPointNormalForm(cfg: Config, info: DataItemInfo, buf: seq<byte>)
    requires info.valueType in {TU8Ipv4U16, TU8Ipv6U16}
    requires DecodeFlat(cfg, info.valueType, buf).Some?
    ensures FlatNormal(cfg, info, buf, DecodeFlat(cfg, info.valueType, buf).value)
  {
    var a := if info.valueType.TU8Ipv4U16? then 5 else 17;
    var port := buf[a..];
    assert buf == [buf[0]] + buf[1..a] + port;
    if |port| == 2 {
      PortNormalForm(port);
    }
  }

  lemma VectorNormalForm(cfg: Config, info: DataItemInfo, buf: seq<byte>)
    requires info.valueType in {TVU32, TVExtId, TU16VU8}
    requires DecodeFlat(cfg, info.valueType, buf).Some?
    ensures FlatNormal(cfg, info, buf, DecodeFlat(cfg, info.valueType, buf).value)
  {
    match info.valueType
    case TVU32 => ReadFieldsNormalForm(buf, 4);
    case TVExtId => ReadFieldsNormalForm(buf, cfg.extensionIdSize);
    case TU16VU8 =>
      BigEndianOfValue(buf[..2]);
      assert BigEndian(|buf[3..]|, 1) == [buf[2]];
      assert buf == buf[..2] + [buf[2]] + buf[3..];
  }

  lemma FlatNormalForm(cfg: Config, info: DataItemInfo, buf: seq<byte>)
    requires !info.valueType.TSub? && !info.valueType.TU16Sub?
    requires DecodeFlat(cfg, info.valueType, buf).Some?
    ensures FlatNormal(cfg, info, buf, DecodeFlat(cfg, info.valueType, buf).value)
  {
    match info.valueType
    case TBlank =>
    case TVU8 =>
    case TString =>
    case TMac =>
    case TVU32 => VectorNormalForm(cfg, info, buf);
    case TVExtId => VectorNormalForm(cfg, info, buf);
    case TU16VU8 => VectorNormalForm(cfg, info, buf);
    case TU8Ipv4U16 => ConnectionPointNormalForm(cfg, info, buf);
    case TU8Ipv6U16 => ConnectionPointNormalForm(cfg, info, buf);
    case TU8 => NumberNormalForm(cfg, info, buf);
    case TU16 => NumberNormalForm(cfg, info, buf);
    case TU32 => NumberNormalForm(cfg, info, buf);
    case TU64 => NumberNormalForm(cfg, info, buf);
    case TA2U16 => PairNormalForm(cfg, info, buf);
    case TU64U64 => PairNormalForm(cfg, info, buf);
    case _ => AddressNormalForm(cfg, info, buf);
  }

  lemma HeaderNormalForm(cfg: Config, buf: seq<byte>, shorter: nat)
    requires ReadHeader(cfg, buf).Some? && shorter <= ReadHeader(cfg, buf).value.1
    ensures Header(cfg, ReadHeader(cfg, buf).value.0, shorter).Some?
    ensures shorter == ReadHeader(cfg, buf).value.1 ==>
              Header(cfg, ReadHeader(cfg, buf).value.0, shorter).value == buf[..HeaderSize(cfg)]
  {
    var i, h := cfg.dataItemIdSize, HeaderSize(cfg);
    ValueFitsLength(buf[..i]);
    ValueFitsLength(buf[i..h]);
    BigEndianOfValue(buf[..i]);
    BigEndianOfValue(buf[i..h]);
    assert buf[..h] == buf[..i] + buf[i..h];
  }

  /**
   Re-serializing an accepted item always succeeds and saves two bytes for every spelled-out
   zero port; the bytes are identical exactly when there is none.
   */
  lemma {:induction false} ItemNormalForm(cfg: Config, scope: Scope, buf: seq<byte>)
    requires DecodeItem(cfg, scope, buf).Some?
    ensures var (item, n) := DecodeItem(cfg, scope, buf).value;
            && WellTyped(cfg, scope, item)
            && EncodeItem(cfg, item).Some?
            && |EncodeItem(cfg, item).value| + 2 * ZeroPortsAt(cfg, scope, buf) == n
            && (ZeroPortsAt(cfg, scope, buf) == 0 <==> EncodeItem(cfg, item).value == buf[..n])
    decreases |buf|, 0
  {
    hide ReadHeader, Header, EncodeValue, DecodeValue, ZeroPorts, NameOfId, InfoOfName;
    var (item, n) := DecodeItem(cfg, scope, buf).value;
    var h := HeaderSize(cfg);
    var info := InfoOfId(cfg, item.id, scope).value;
    var body := buf[h..n];
    ValueNormalForm(cfg, info, body);
    var value := EncodeValue(cfg, item.value).value;
    HeaderNormalForm(cfg, buf, |value|);
    assert buf[..n] == buf[..h] + body;
  }

  /** The items read from a buffer are well typed and re-serialize to its normal form. */
  ghost predicate ItemsNormal(cfg: Config, scope: Scope, buf: seq<byte>, items: seq<Item>) {
    && AllWellTyped(cfg, scope, items)
    && Shortened(EncodeItems(cfg, items), buf, ZeroPortsIn(cfg, scope, buf))
  }

  lemma {:induction false} ValueNormalForm(cfg: Config, info: DataItemInfo, buf: seq<byte>)
    requires DecodeValue(cfg, info, buf).Some?
    ensures var v := DecodeValue(cfg, info, buf).value;
            && TypeOf(v) == info.valueType
            && (v.Sub? || v.U16Sub? ==> AllWellTyped(cfg, Some(info), v.items))
            && Shortened(EncodeValue(cfg, v), buf, ZeroPorts(cfg, info, buf))
    decreases |buf|, 2
  {
    hide EncodeFlat, DecodeFlat, EncodeItems, DecodeItems, AllWellTyped, ZeroPortsIn;
    if info.valueType.TSub? {
      ItemsNormalForm(cfg, Some(info), buf);
    } else if info.valueType.TU16Sub? {
      ItemsNormalForm(cfg, Some(info), buf[4..]);
      CountedItemsNormalForm(cfg, info, buf, DecodeItems(cfg, Some(info), buf[4..]).value);
    } else {
      FlatNormalForm(cfg, info, buf);
    }
  }

  lemma CountedItemsNormalForm(cfg: Config, info: DataItemInfo, buf: seq<byte>, items: seq<Item>)
    requires info.valueType.TU16Sub? && |buf| >= 4 && buf[3] == 0 && |items| == buf[2]
    requires ItemsNormal(cfg, Some(info), buf[4..], items)
    ensures Shortened(EncodeValue(cfg, U16Sub(Word16(buf[..2]), items)), buf, ZeroPorts(cfg, info, buf))
  {
    BigEndianOfValue(buf[..2]);
    assert buf == buf[..2] + [buf[2], buf[3]] + buf[4..];
  }

  lemma {:induction false} ItemsNormalForm(cfg: Config, scope: Scope, buf: seq<byte>)
    requires DecodeItems(cfg, scope, buf).Some?
    ensures ItemsNormal(cfg, scope, buf, DecodeItems(cfg, scope, buf).value)
    decreases |buf|, 1
  {
    if buf != [] {
      var (first, n) := DecodeItem(cfg, scope, buf).value;
      var rest := DecodeItems(cfg, scope, buf[n..]).value;
      ItemNormalForm(cfg, scope, buf);
      ItemsNormalForm(cfg, scope, buf[n..]);
      ItemsNormalStep(cfg, scope, buf, first, n, rest);
    }
  }

  lemma ItemsNormalStep(cfg: Config, scope: Scope, buf: seq<byte>, first: Item, n: nat, rest: seq<Item>)
    requires DecodeItem(cfg, scope, buf) == Some((first, n)) && buf != []
    requires WellTyped(cfg, scope, first) && n <= |buf|
    requires Shortened(EncodeItem(cfg, first), buf[..n], ZeroPortsAt(cfg, scope, buf))
    requires ItemsNormal(cfg, scope, buf[n..], rest)
    ensures ItemsNormal(cfg, scope, buf, [first] + rest)
  {
    var items := [first] + rest;
    assert items[0] == first && items[1..] == rest;
    assert buf == buf[..n] + buf[n..];
  }

  /** Accepted bytes and their re-serialization decode to the same item. */
  lemma NormalFormDecodesAlike(cfg: Config, scope: Scope, buf: seq<byte>, suffix: seq<byte>)
    requires DecodeItem(cfg, scope, buf).Some?
    ensures var item := DecodeItem(cfg, scope, buf).value.0;
            && EncodeItem(cfg, item).Some?
            && DecodeItem(cfg, scope, EncodeItem(cfg, item).value + suffix) ==
               Some((item, |EncodeItem(cfg, item).value|))
  {
    ItemNormalForm(cfg, scope, buf);
    ItemRoundTrip(cfg, scope, DecodeItem(cfg, scope, buf).value.0, suffix);
  }
}
