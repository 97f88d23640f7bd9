/**
 Data items as text (DataItem.cpp): `ToText` is `to_string`, `ParseItem` is `from_istringstream`.
 The text of IP addresses is left to the address library and passed in.
 */
module TextFormat {
  import opened Wrappers
  import opened Serialize
  import opened ProtocolConfig
  import opened DataItem
  import opened TextStream

  /** Writing and reading of IP addresses. */
  datatype AddressText = AddressText(
    print4: Ipv4 -> string,
    parse4: string -> Option<Ipv4>,
    print6: Ipv6 -> string,
    parse6: string -> Option<Ipv6>)

  predicate IsSeparator(c: char) {
    c == ';' || c == '/'
  }

  function Chars(bytes: seq<byte>): (s: string)
    ensures |s| == |bytes|
  {
    seq(|bytes|, i requires 0 <= i < |bytes| => bytes[i] as char)
  }

  function Bytes(s: string): (bytes: seq<byte>)
    ensures |bytes| == |s|
  {
    seq(|s|, i requires 0 <= i < |s| => s[i] as int % 256)
  }

  // ---- Writing

  /** Numbers separated by commas. */
  function Commas(ns: seq<u64>): string {
    if ns == [] then ""
    else if |ns| == 1 then Decimal(ns[0])
    else Decimal(ns[0]) + "," + Commas(ns[1..])
  }

  /** Bytes in base 16 separated by colons. */
  function MacText(mac: Mac): string {
    if mac == [] then ""
    else if |mac| == 1 then HexByte(mac[0])
    else HexByte(mac[0]) + ":" + MacText(mac[1..])
  }

  /** The text of a value without items. */
  function PlainText(at: AddressText, v: Value): string
    requires !v.Sub? && !v.U16Sub?
  {
    match v
    case Blank => ""
    case U8(n) => Decimal(n)
    case U16(n) => Decimal(n)
    case U32(n) => Decimal(n)
    case U64(n) => Decimal(n)
    case VU8(ns) => Commas(ns)
    case VU32(ns) => Commas(ns)
    case A2U16(a, b) => Commas([a, b])
    case Str(text) => Chars(text)
    case MacAddr(mac) => MacText(mac)
    case U8String(n, text) => Decimal(n) + ";" + Chars(text)
    case U8Ipv4(n, ip) => Decimal(n) + ";" + at.print4(ip)
    case U8Ipv6(n, ip) => Decimal(n) + ";" + at.print6(ip)
    case U16VU8(n, ns) => Decimal(n) + ";" + Commas(ns)
    case VExtId(ns) => Commas(ns)
    case U8Ipv4U16(n, ip, p) => Decimal(n) + ";" + at.print4(ip) + ";" + Decimal(p)
    case U8Ipv6U16(n, ip, p) => Decimal(n) + ";" + at.print6(ip) + ";" + Decimal(p)
    case U8Ipv4U8(n, ip, m) => Decimal(n) + ";" + at.print4(ip) + ";" + Decimal(m)
    case U8Ipv6U8(n, ip, m) => Decimal(n) + ";" + at.print6(ip) + ";" + Decimal(m)
    case U8U8(a, b) => Decimal(a) + ";" + Decimal(b)
    case U64U64(a, b) => Decimal(a) + ";" + Decimal(b)
  }

  /** Items inside an item whose definition lists none are named in the scope outside of it. */
  function PrintScope(info: DataItemInfo, scope: Scope): Scope {
    if |info.subDataItems| > 0 then Some(info) else scope
  }

  /** `to_string`; an id without a name or a definition is an exception. */
  function ToText(cfg: Config, at: AddressText, item: Item, scope: Scope): Option<string>
    decreases item, 1
  {
    var name :- NameOfId(cfg, item.id, scope);
    var info :- InfoOfName(cfg, name);
    var text :- ValueText(cfg, at, item.value, PrintScope(info, scope));
    Some(name + " " + text)
  }

  function ValueText(cfg: Config, at: AddressText, v: Value, scope: Scope): Option<string>
    decreases v, 0
  {
    match v
    case Sub(items) =>
      var text :- ItemsText(cfg, at, items, scope);
      Some("{ " + text + "} ")
    case U16Sub(n, items) =>
      var text :- ItemsText(cfg, at, items, scope);
      Some(Decimal(n) + ";" + "{ " + text + "} ")
    case _ => Some(PlainText(at, v))
  }

  function ItemsText(cfg: Config, at: AddressText, items: seq<Item>, scope: Scope): Option<string>
    decreases items, 2
  {
    if items == [] then Some("")
    else
      var first :- ToText(cfg, at, items[0], scope);
      var rest :- ItemsText(cfg, at, items[1..], scope);
      Some(first + " " + rest)
  }

  /** Every id that the writer meets has a name and a definition in the scope the writer looks in. */
  predicate HasText(cfg: Config, item: Item, scope: Scope)
    decreases item, 1
  {
    var info := InfoOfId(cfg, item.id, scope);
    && info.Some?
    && (item.value.Sub? || item.value.U16Sub? ==>
          AllHaveText(cfg, item.value.items, PrintScope(info.value, scope)))
  }

  predicate AllHaveText(cfg: Config, items: seq<Item>, scope: Scope)
    decreases items, 2
  {
    items == [] || (HasText(cfg, items[0], scope) && AllHaveText(cfg, items[1..], scope))
  }

  /** That is exactly when `to_string` does not throw, whatever the address library writes. */
  lemma {:induction false} HasTextExactly(cfg: Config, at: AddressText, item: Item, scope: Scope)
    ensures HasText(cfg, item, scope) <==> ToText(cfg, at, item, scope).Some?
    decreases item, 1
  {
    var info := InfoOfId(cfg, item.id, scope);
    if info.Some? && (item.value.Sub? || item.value.U16Sub?) {
      AllHaveTextExactly(cfg, at, item.value.items, PrintScope(info.value, scope));
    }
  }

  lemma {:induction false} AllHaveTextExactly(cfg: Config, at: AddressText, items: seq<Item>, scope: Scope)
    ensures AllHaveText(cfg, items, scope) <==> ItemsText(cfg, at, items, scope).Some?
    decreases items, 2
  {
    if items != [] {
      HasTextExactly(cfg, at, items[0], scope);
      AllHaveTextExactly(cfg, at, items[1..], scope);
    }
  }

  lemma {:induction false} AllHaveTextAppend(cfg: Config, items: seq<Item>, item: Item, scope: Scope)
    ensures AllHaveText(cfg, items + [item], scope) <==> AllHaveText(cfg, items, scope) && HasText(cfg, item, scope)
  {
    if items == [] {
      assert [item][1..] == [] && items + [item] == [item];
    } else {
      assert (items + [item])[1..] == items[1..] + [item];
      AllHaveTextAppend(cfg, items[1..], item, scope);
    }
  }

  // ---- Reading

  /** `parse_uint`: a number no larger than the limit; anything else is an exception. */
  function ParseUint(s: Stream, limit: u64): (r: Option<(u64, Stream)>)
    ensures r.Some? ==> r.value.0 <= limit && |r.value.1.rest| < |s.rest|
  {
    var (n, s') := ReadNumber(s);
    if s'.fail || n > limit then None else Some((n, s'))
  }

  /** Skip one given character if it comes next; says whether it did. */
  function SkipIf(s: Stream, c: char): (r: (bool, Stream))
    ensures |r.1.rest| <= |s.rest|
  {
    var (next, s') := Peek(s);
    if next == Some(c) then (true, Ignore(s')) else (false, s')
  }

  /** `parse_vector`: numbers until one cannot be read, which is not an error. */
  function ParseVector(s: Stream, limit: u64): (r: Option<(seq<u64>, Stream)>)
    ensures r.Some? ==> |r.value.1.rest| <= |s.rest| && forall i :: 0 <= i < |r.value.0| ==> r.value.0[i] <= limit
    decreases |s.rest|
  {
    var (n, s1) := ReadNumber(s);
    if s1.fail then Some(([], s1.(fail := false, eof := false)))
    else if n > limit then None
    else
      var (ns, s2) :- ParseVector(SkipIf(s1, ',').1, limit);
      Some(([n] + ns, s2))
  }

  /** Two numbers; the stream must not have failed in between. */
  function ParsePair(s: Stream, limit: u64): (r: Option<((u64, u64), Stream)>)
    ensures r.Some? ==> r.value.0.0 <= limit && r.value.0.1 <= limit && |r.value.1.rest| <= |s.rest|
  {
    if s.fail then None
    else
      var (a, s1) :- ParseUint(s, limit);
      var s2 := SkipIf(s1, ',').1;
      if s2.fail then None
      else
        var (b, s3) :- ParseUint(s2, limit);
        Some(((a, b), SkipIf(s3, ',').1))
  }

  /** Bytes in base 16 for as long as a colon follows. */
  function ParseMac(s: Stream): (r: Option<(Mac, Stream)>)
    ensures r.Some? ==> |r.value.1.rest| <= |s.rest|
    decreases |s.rest|
  {
    var (b, s1) :- ParseUint(s, 255);
    var (more, s2) := SkipIf(s1, ':');
    if !more then Some(([b], s2))
    else
      var (rest, s3) :- ParseMac(s2);
      Some(([b] + rest, s3))
  }

  /** `check_field_separator`: take a separator, or fail. */
  function TakeSeparator(s: Stream): (r: Option<Stream>)
    ensures r.Some? ==> |r.value.rest| <= |s.rest|
  {
    var (c, s') := Get(s);
    if c.Some? && IsSeparator(c.value) && !s'.fail then Some(s') else None
  }

  /** The characters of an address: up to a separator, a space or the end. */
  function AddressChars(s: Stream): (r: (string, Stream))
    ensures |r.1.rest| <= |s.rest|
    decreases |s.rest|
  {
    if s.fail then ("", s)
    else
      var (c, s1) := Peek(s);
      if c.None? then ("", Get(Peek(s1).1).1)
      else if IsSeparator(c.value) || IsSpace(c.value) then ("", s1)
      else
        var (rest, s2) := AddressChars(Get(s1).1);
        ([c.value] + rest, s2)
  }

  /** `parse_ip_addr`. */
  function ParseAddress<A>(s: Stream, parse: string -> Option<A>): (r: Option<(A, Stream)>)
    ensures r.Some? ==> |r.value.1.rest| <= |s.rest|
  {
    var (text, s') := AddressChars(SkipWhitespace(s));
    var ip :- parse(text);
    Some((ip, s'))
  }

  /** A number, a separator, and an address. */
  function ParseNumberAddress<A>(s: Stream, parse: string -> Option<A>): (r: Option<((byte, A), Stream)>)
    ensures r.Some? ==> |r.value.1.rest| <= |s.rest|
  {
    var (n, s1) :- ParseUint(s, 255);
    var s2 :- TakeSeparator(s1);
    var (ip, s3) :- ParseAddress(s2, parse);
    Some(((n, ip), s3))
  }

  /** The same with another number after it. */
  function ParseNumberAddressNumber<A>(s: Stream, parse: string -> Option<A>, limit: u64)
    : (r: Option<((byte, A, u64), Stream)>)
    ensures r.Some? ==> |r.value.1.rest| <= |s.rest| && r.value.0.2 <= limit
  {
    var (ip, s1) :- ParseNumberAddress(s, parse);
    var s2 :- TakeSeparator(s1);
    var (m, s3) :- ParseUint(s2, limit);
    Some(((ip.0, ip.1, m), s3))
  }

  function ParseTwo(s: Stream, limit: u64): (r: Option<((u64, u64), Stream)>)
    ensures r.Some? ==> |r.value.1.rest| <= |s.rest| && r.value.0.0 <= limit && r.value.0.1 <= limit
  {
    var (a, s1) :- ParseUint(s, limit);
    var s2 :- TakeSeparator(s1);
    var (b, s3) :- ParseUint(s2, limit);
    Some(((a, b), s3))
  }

  /** Values made of numbers. */
  predicate IsNumeric(t: ValueType) {
    t in {TU8, TU16, TU32, TU64, TVU8, TVU32, TA2U16, TU16VU8, TVExtId, TU8U8, TU64U64}
  }

  function ParseNumeric(t: ValueType, s: Stream): (r: Option<(Value, Stream)>)
    requires IsNumeric(t)
    ensures r.Some? ==> |r.value.1.rest| <= |s.rest|
  {
    match t
    case TU8 => var (n, s') :- ParseUint(s, 0xFF); Some((U8(n), s'))
    case TU16 => var (n, s') :- ParseUint(s, 0xFFFF); Some((U16(n), s'))
    case TU32 => var (n, s') :- ParseUint(s, 0xFFFF_FFFF); Some((U32(n), s'))
    case TU64 => var (n, s') :- ParseUint(s, 0xFFFF_FFFF_FFFF_FFFF); Some((U64(n), s'))
    case TVU8 => var (ns, s') :- ParseVector(s, 0xFF); Some((VU8(ns), s'))
    case TVU32 => var (ns, s') :- ParseVector(s, 0xFFFF_FFFF); Some((VU32(ns), s'))
    case TVExtId => var (ns, s') :- ParseVector(s, 0xFFFF_FFFF); Some((VExtId(ns), s'))
    case TA2U16 => var (ab, s') :- ParsePair(s, 0xFFFF); Some((A2U16(ab.0, ab.1), s'))
    case TU16VU8 =>
      var (n, s1) :- ParseUint(s, 0xFFFF);
      var s2 :- TakeSeparator(s1);
      var (ns, s') :- ParseVector(s2, 0xFF);
      Some((U16VU8(n, ns), s'))
    case TU8U8 => var (ab, s') :- ParseTwo(s, 0xFF); Some((U8U8(ab.0, ab.1), s'))
    case TU64U64 => var (ab, s') :- ParseTwo(s, 0xFFFF_FFFF_FFFF_FFFF); Some((U64U64(ab.0, ab.1), s'))
  }

  /** Values with an IP address in them. */
  predicate IsAddressed(t: ValueType) {
    t in {TU8Ipv4, TU8Ipv6, TU8Ipv4U16, TU8Ipv6U16, TU8Ipv4U8, TU8Ipv6U8}
  }

  function ParseAddressed(at: AddressText, t: ValueType, s: Stream): (r: Option<(Value, Stream)>)
    requires IsAddressed(t)
    ensures r.Some? ==> |r.value.1.rest| <= |s.rest|
  {
    match t
    case TU8Ipv4 => var (x, s') :- ParseNumberAddress(s, at.parse4); Some((U8Ipv4(x.0, x.1), s'))
    case TU8Ipv6 => var (x, s') :- ParseNumberAddress(s, at.parse6); Some((U8Ipv6(x.0, x.1), s'))
    case TU8Ipv4U16 =>
      var (x, s') :- ParseNumberAddressNumber(s, at.parse4, 0xFFFF); Some((U8Ipv4U16(x.0, x.1, x.2), s'))
    case TU8Ipv6U16 =>
      var (x, s') :- ParseNumberAddressNumber(s, at.parse6, 0xFFFF); Some((U8Ipv6U16(x.0, x.1, x.2), s'))
    case TU8Ipv4U8 =>
      var (x, s') :- ParseNumberAddressNumber(s, at.parse4, 0xFF); Some((U8Ipv4U8(x.0, x.1, x.2), s'))
    case TU8Ipv6U8 =>
      var (x, s') :- ParseNumberAddressNumber(s, at.parse6, 0xFF); Some((U8Ipv6U8(x.0, x.1, x.2), s'))
  }

  /** `value_from_istringstream`, for the types whose values hold no items. */
  function ParsePlain(at: AddressText, t: ValueType, s0: Stream): (r: Option<(Value, Stream)>)
    requires t != TSub && t != TU16Sub
    ensures r.Some? ==> |r.value.1.rest| <= |s0.rest|
  {
    var s := s0.(hex := false);
    if IsNumeric(t) then ParseNumeric(t, s)
    else if IsAddressed(t) then ParseAddressed(at, t, s)
    else
      match t
      case TBlank => Some((Blank, s))
      case TString => var (word, s') := ReadWord(s); Some((Str(Bytes(word)), s'))
      case TMac => var (mac, s') :- ParseMac(s.(hex := true)); Some((MacAddr(mac), s'.(hex := false)))
      case TU8String =>
        var (n, s1) :- ParseUint(s, 0xFF);
        var s2 :- TakeSeparator(s1);
        var (word, s') := ReadWord(s2);
        Some((U8String(n, Bytes(word)), s'))
  }

  /** `from_istringstream`: a name, which decides the type, and a value of that type. */
  function ParseItem(cfg: Config, at: AddressText, scope: Scope, s: Stream): (r: Option<(Item, Stream)>)
    ensures r.Some? ==> |r.value.1.rest| < |s.rest|
    decreases |s.rest|, 0
  {
    var (name, s1) := ReadWord(s);
    if s1.fail then None
    else
      var id :- IdOfName(cfg, name, scope);
      var info :- InfoOfName(cfg, name);
      if info.valueType == TSub then
        var (items, s2) :- ParseItems(cfg, at, info, s1);
        Some((Item(id, Sub(items)), s2))
      else if info.valueType == TU16Sub then
        var (n, s2) :- ParseUint(s1.(hex := false), 0xFFFF);
        var s3 :- TakeSeparator(s2);
        var (items, s4) :- ParseItems(cfg, at, info, s3);
        Some((Item(id, U16Sub(n, items)), s4))
      else
        var (v, s2) :- ParsePlain(at, info.valueType, s1);
        Some((Item(id, v), s2))
  }

  /** Items between braces, named in the scope of the item that holds them. */
  function ParseItems(cfg: Config, at: AddressText, info: DataItemInfo, s: Stream): (r: Option<(seq<Item>, Stream)>)
    ensures r.Some? ==> |r.value.1.rest| <= |s.rest|
    decreases |s.rest|, 2
  {
    var (token, s1) := ReadWord(s);
    if token != "{" then None else ParseToBrace(cfg, at, info, SkipWhitespace(s1))
  }

  function ParseToBrace(cfg: Config, at: AddressText, info: DataItemInfo, s: Stream): (r: Option<(seq<Item>, Stream)>)
    ensures r.Some? ==> |r.value.1.rest| <= |s.rest|
    decreases |s.rest|, 1
  {
    var (c, s1) := Peek(s);
    if c == Some('}') then Some(([], Ignore(s1)))
    else
      var (item, s2) :- ParseItem(cfg, at, Some(info), s1);
      var (items, s3) :- ParseToBrace(cfg, at, info, SkipWhitespace(s2));
      Some(([item] + items, s3))
  }

  /** `from_string`. */
  function FromText(cfg: Config, at: AddressText, text: string, scope: Scope): Option<Item> {
    var (item, _) :- ParseItem(cfg, at, scope, Opened(text));
    Some(item)
  }
}
