/**
 The text of an item, field by field (DataItem.cpp, `to_string`): which fields are written, in
 which order and base, and what stands between them.  Like `WireLayout` this is a definition of its
 own, as a relation between an item and a text; what the writer of `TextFormat` writes is exactly that.
 */
module TextLayout {
  import opened Wrappers
  import opened Serialize
  import opened ProtocolConfig
  import opened DataItem
  import opened TextStream
  import opened TextFormat

  // ---- Parts of a text

  /** What comes before the first of a character, or everything. */
  function Before(t: string, c: char): string {
    if t == "" || t[0] == c then "" else [t[0]] + Before(t[1..], c)
  }

  /** What comes after it, or nothing. */
  function After(t: string, c: char): string {
    if t == "" then "" else if t[0] == c then t[1..] else After(t[1..], c)
  }

  /** A text is cut in two where it was put together, and only such a text is. */
  lemma {:induction false} CutExactly(t: string, c: char, a: string, b: string)
    requires c !in a
    ensures t == a + [c] + b <==> c in t && Before(t, c) == a && After(t, c) == b
  {
    if t == "" {
    } else if t[0] == c {
      assert t == [t[0]] + t[1..];
      if a == "" {
        assert a + [c] + b == [c] + b;
      } else {
        assert (a + [c] + b)[0] == a[0];
      }
    } else {
      assert t == [t[0]] + t[1..];
      if a == "" {
        assert (a + [c] + b)[0] == c;
      } else {
        CutExactly(t[1..], c, a[1..], b);
        assert a == [a[0]] + a[1..];
        assert a + [c] + b == [a[0]] + (a[1..] + [c] + b);
      }
    }
  }

  /** The shortest decimal text of a number. */
  predicate IsNumber(t: string, n: nat) {
    && t != "" && (|t| > 1 ==> t[0] != '0')
    && (forall i :: 0 <= i < |t| ==> '0' <= t[i] <= '9')
    && DigitsValue(t, false) == n
  }

  lemma {:induction false} IsNumberExactly(t: string, n: nat)
    ensures IsNumber(t, n) <==> t == Decimal(n)
    decreases |t| + n
  {
    DecimalValue(n);
    NoLeadingZero(n);
    if IsNumber(t, n) {
      var front, last := t[..|t| - 1], t[|t| - 1];
      assert IsDigit(last, false);
      assert t == front + [last];
      if front == "" {
        assert DigitsValue("", false) == 0;
      } else {
        assert IsNumber(front, DigitsValue(front, false)) && DigitsValue(front, false) == n / 10;
        LeadingDigitCounts(front);
        IsNumberExactly(front, n / 10);
      }
    }
  }

  lemma {:induction false} NoLeadingZero(n: nat)
    ensures n > 0 ==> Decimal(n)[0] != '0'
    ensures |Decimal(n)| > 1 ==> n >= 10
    decreases n
  {
    if n >= 10 {
      NoLeadingZero(n / 10);
      DecimalValue(n / 10);
    }
  }

  /** A text that starts with another digit than zero is no zero. */
  lemma {:induction false} LeadingDigitCounts(t: string)
    requires t != "" && t[0] != '0' && forall i :: 0 <= i < |t| ==> '0' <= t[i] <= '9'
    ensures forall i :: 0 <= i < |t| ==> IsDigit(t[i], false)
    ensures DigitsValue(t, false) > 0
  {
    if |t| > 1 {
      LeadingDigitCounts(t[..|t| - 1]);
    } else {
      assert t[..0] == "";
    }
  }

  /** Two hexadecimal digits, in lower case. */
  predicate IsHexByte(t: string, b: byte) {
    && |t| == 2
    && (forall i :: 0 <= i < 2 ==> '0' <= t[i] <= '9' || 'a' <= t[i] <= 'f')
    && DigitValue(t[0]) * 16 + DigitValue(t[1]) == b
  }

  lemma IsHexByteExactly(t: string, b: byte)
    ensures IsHexByte(t, b) <==> t == HexByte(b)
  {
  }

  /** Numbers with commas between them. */
  predicate NumbersLaidOut(ns: seq<u64>, t: string) {
    if ns == [] then t == ""
    else if |ns| == 1 then IsNumber(t, ns[0])
    else ',' in t && IsNumber(Before(t, ','), ns[0]) && NumbersLaidOut(ns[1..], After(t, ','))
  }

  /** Bytes in base 16 with colons between them. */
  predicate MacLaidOut(mac: Mac, t: string) {
    if mac == [] then t == ""
    else if |mac| == 1 then IsHexByte(t, mac[0])
    else ':' in t && IsHexByte(Before(t, ':'), mac[0]) && MacLaidOut(mac[1..], After(t, ':'))
  }

  lemma DigitsOnly(n: nat, c: char)
    requires !('0' <= c <= '9')
    ensures c !in Decimal(n)
  {
    DecimalValue(n);
    var s := Decimal(n);
    assert forall i :: 0 <= i < |s| ==> IsDigit(s[i], false);
  }

  lemma {:induction false} NumbersLaidOutExactly(ns: seq<u64>, t: string)
    ensures NumbersLaidOut(ns, t) <==> t == Commas(ns)
    decreases |ns|
  {
    hide IsNumber, Decimal, Before, After;
    if |ns| > 0 {
      IsNumberExactly(t, ns[0]);
    }
    if |ns| > 1 {
      DigitsOnly(ns[0], ',');
      CutExactly(t, ',', Decimal(ns[0]), Commas(ns[1..]));
      IsNumberExactly(Before(t, ','), ns[0]);
      NumbersLaidOutExactly(ns[1..], After(t, ','));
      assert Decimal(ns[0]) + "," + Commas(ns[1..]) == Decimal(ns[0]) + [','] + Commas(ns[1..]);
    }
  }

  lemma {:induction false} MacLaidOutExactly(mac: Mac, t: string)
    ensures MacLaidOut(mac, t) <==> t == MacText(mac)
    decreases |mac|
  {
    hide IsHexByte, Before, After;
    if |mac| > 0 {
      IsHexByteExactly(t, mac[0]);
    }
    if |mac| > 1 {
      CutExactly(t, ':', HexByte(mac[0]), MacText(mac[1..]));
      IsHexByteExactly(Before(t, ':'), mac[0]);
      MacLaidOutExactly(mac[1..], After(t, ':'));
      assert HexByte(mac[0]) + ":" + MacText(mac[1..]) == HexByte(mac[0]) + [':'] + MacText(mac[1..]);
    }
  }

  // ---- Values without items

  predicate CharsLaidOut(bytes: seq<byte>, t: string) {
    |t| == |bytes| && forall i :: 0 <= i < |t| ==> t[i] as int == bytes[i]
  }

  /** A number, a semicolon, and the rest. */
  predicate NumberThen(n: nat, t: string) {
    ';' in t && IsNumber(Before(t, ';'), n)
  }

  /** An address, a semicolon, and a number. */
  predicate AddressNumber(address: string, n: nat, t: string) {
    ';' in t && Before(t, ';') == address && IsNumber(After(t, ';'), n)
  }

  predicate PlainLaidOut(at: AddressText, v: Value, t: string)
    requires !v.Sub? && !v.U16Sub?
  {
    match v
    case Blank => t == ""
    case U8(n) => IsNumber(t, n)
    case U16(n) => IsNumber(t, n)
    case U32(n) => IsNumber(t, n)
    case U64(n) => IsNumber(t, n)
    case VU8(ns) => NumbersLaidOut(ns, t)
    case VU32(ns) => NumbersLaidOut(ns, t)
    case VExtId(ns) => NumbersLaidOut(ns, t)
    case A2U16(a, b) => NumbersLaidOut([a, b], t)
    case Str(text) => CharsLaidOut(text, t)
    case MacAddr(mac) => MacLaidOut(mac, t)
    case U8String(n, text) => NumberThen(n, t) && CharsLaidOut(text, After(t, ';'))
    case U8Ipv4(n, ip) => NumberThen(n, t) && After(t, ';') == at.print4(ip)
    case U8Ipv6(n, ip) => NumberThen(n, t) && After(t, ';') == at.print6(ip)
    case U16VU8(n, ns) => NumberThen(n, t) && NumbersLaidOut(ns, After(t, ';'))
    case U8Ipv4U16(n, ip, port) => NumberThen(n, t) && AddressNumber(at.print4(ip), port, After(t, ';'))
    case U8Ipv6U16(n, ip, port) => NumberThen(n, t) && AddressNumber(at.print6(ip), port, After(t, ';'))
    case U8Ipv4U8(n, ip, mask) => NumberThen(n, t) && AddressNumber(at.print4(ip), mask, After(t, ';'))
    case U8Ipv6U8(n, ip, mask) => NumberThen(n, t) && AddressNumber(at.print6(ip), mask, After(t, ';'))
    case U8U8(a, b) => NumberThen(a, t) && IsNumber(After(t, ';'), b)
    case U64U64(a, b) => NumberThen(a, t) && IsNumber(After(t, ';'), b)
  }

  /** The address library writes no semicolon. */
  ghost predicate NoSemicolons(at: AddressText) {
    (forall ip: Ipv4 :: ';' !in at.print4(ip)) && (forall ip: Ipv6 :: ';' !in at.print6(ip))
  }

  lemma NumberThenExactly(n: nat, rest: string, t: string)
    ensures NumberThen(n, t) && After(t, ';') == rest <==> t == Decimal(n) + ";" + rest
  {
    hide IsNumber, Decimal, Before, After;
    DigitsOnly(n, ';');
    CutExactly(t, ';', Decimal(n), rest);
    IsNumberExactly(Before(t, ';'), n);
  }

  lemma AddressNumberExactly(address: string, n: nat, t: string)
    requires ';' !in address
    ensures AddressNumber(address, n, t) <==> t == address + ";" + Decimal(n)
  {
    hide IsNumber, Decimal, Before, After;
    CutExactly(t, ';', address, Decimal(n));
    IsNumberExactly(After(t, ';'), n);
  }

  lemma CharsLaidOutExactly(bytes: seq<byte>, t: string)
    ensures CharsLaidOut(bytes, t) <==> t == Chars(bytes)
  {
  }

  lemma OneFieldExactly(at: AddressText, v: Value, t: string)
    requires v.Blank? || v.U8? || v.U16? || v.U32? || v.U64? || v.VU8? || v.VU32? || v.VExtId? || v.A2U16? || v.Str?
             || v.MacAddr?
    ensures PlainLaidOut(at, v, t) <==> t == PlainText(at, v)
  {
    hide IsNumber, Decimal, Commas, NumbersLaidOut, MacText, MacLaidOut, CharsLaidOut, Chars;
    match v
    case Blank =>
    case U8(n) => IsNumberExactly(t, n);
    case U16(n) => IsNumberExactly(t, n);
    case U32(n) => IsNumberExactly(t, n);
    case U64(n) => IsNumberExactly(t, n);
    case VU8(ns) => NumbersLaidOutExactly(ns, t);
    case VU32(ns) => NumbersLaidOutExactly(ns, t);
    case VExtId(ns) => NumbersLaidOutExactly(ns, t);
    case A2U16(a, b) => NumbersLaidOutExactly([a, b], t);
    case Str(text) => CharsLaidOutExactly(text, t);
    case MacAddr(mac) => MacLaidOutExactly(mac, t);
  }

  lemma TwoFieldsExactly(at: AddressText, v: Value, t: string)
    requires v.U8String? || v.U8Ipv4? || v.U8Ipv6? || v.U16VU8? || v.U8U8? || v.U64U64?
    ensures PlainLaidOut(at, v, t) <==> t == PlainText(at, v)
  {
    hide IsNumber, Decimal, Commas, NumbersLaidOut, CharsLaidOut, Chars, NumberThen, After;
    var rest := After(t, ';');
    match v
    case U8String(n, text) => NumberThenExactly(n, Chars(text), t); CharsLaidOutExactly(text, rest);
    case U8Ipv4(n, ip) => NumberThenExactly(n, at.print4(ip), t);
    case U8Ipv6(n, ip) => NumberThenExactly(n, at.print6(ip), t);
    case U16VU8(n, ns) => NumberThenExactly(n, Commas(ns), t); NumbersLaidOutExactly(ns, rest);
    case U8U8(a, b) => NumberThenExactly(a, Decimal(b), t); IsNumberExactly(rest, b);
    case U64U64(a, b) => NumberThenExactly(a, Decimal(b), t); IsNumberExactly(rest, b);
  }

  lemma ThreeFieldsExactly(at: AddressText, v: Value, t: string)
    requires v.U8Ipv4U16? || v.U8Ipv6U16? || v.U8Ipv4U8? || v.U8Ipv6U8?
    requires NoSemicolons(at)
    ensures PlainLaidOut(at, v, t) <==> t == PlainText(at, v)
  {
    hide IsNumber, Decimal, NumberThen, AddressNumber, After;
    var address := if v.U8Ipv4U16? || v.U8Ipv4U8? then at.print4(v.ip4) else at.print6(v.ip6);
    var last: nat := if v.U8Ipv4U16? || v.U8Ipv6U16? then v.port else v.mask;
    var rest := address + ";" + Decimal(last);
    NumberThenExactly(v.field1, rest, t);
    AddressNumberExactly(address, last, After(t, ';'));
    assert Decimal(v.field1) + ";" + address + ";" + Decimal(last) == Decimal(v.field1) + ";" + rest;
  }

  /** The text of a value without items is the one that lays out its fields. */
  lemma PlainExactly(at: AddressText, v: Value, t: string)
    requires !v.Sub? && !v.U16Sub? && NoSemicolons(at)
    ensures PlainLaidOut(at, v, t) <==> t == PlainText(at, v)
  {
    if v.U8Ipv4U16? || v.U8Ipv6U16? || v.U8Ipv4U8? || v.U8Ipv6U8? {
      ThreeFieldsExactly(at, v, t);
    } else if v.U8String? || v.U8Ipv4? || v.U8Ipv6? || v.U16VU8? || v.U8U8? || v.U64U64? {
      TwoFieldsExactly(at, v, t);
    } else {
      OneFieldExactly(at, v, t);
    }
  }

  // ---- Items

  /** Something between an opening brace and a closing one, each with its space. */
  predicate Braced(t: string) {
    |t| >= 4 && t[..2] == "{ " && t[|t| - 2..] == "} "
  }

  ghost predicate ValueTextLaidOut(cfg: Config, at: AddressText, v: Value, scope: Scope, t: string)
    decreases v, 0
  {
    match v
    case Sub(items) => Braced(t) && ItemsTextLaidOut(cfg, at, items, scope, t[2..|t| - 2])
    case U16Sub(n, items) =>
      var rest := After(t, ';');
      NumberThen(n, t) && Braced(rest) && ItemsTextLaidOut(cfg, at, items, scope, rest[2..|rest| - 2])
    case _ => PlainLaidOut(at, v, t)
  }

  /** The name of the id in its scope, a space, and the value, whose names are in the definition that lists items. */
  ghost predicate ItemTextLaidOut(cfg: Config, at: AddressText, item: Item, scope: Scope, t: string)
    decreases item, 1
  {
    var name, info := NameOfId(cfg, item.id, scope), InfoOfId(cfg, item.id, scope);
    && info.Some?
    && |name.value| < |t| && t[..|name.value|] == name.value && t[|name.value|] == ' '
    && ValueTextLaidOut(cfg, at, item.value, if info.value.subDataItems != [] then info else scope,
                        t[|name.value| + 1..])
  }

  /** Each item with a space behind it. */
  ghost predicate ItemsTextLaidOut(cfg: Config, at: AddressText, items: seq<Item>, scope: Scope, t: string)
    decreases items, 2
  {
    if items == [] then t == ""
    else
      exists n :: 0 <= n < |t| && t[n] == ' '
                  && ItemTextLaidOut(cfg, at, items[0], scope, t[..n])
                  && ItemsTextLaidOut(cfg, at, items[1..], scope, t[n + 1..])
  }

  lemma BracedExactly(t: string, inside: string)
    ensures Braced(t) && t[2..|t| - 2] == inside <==> t == "{ " + inside + "} "
  {
    if Braced(t) {
      assert t == t[..2] + t[2..|t| - 2] + t[|t| - 2..];
    }
  }

  lemma SpacedExactly(t: string, a: string, b: string)
    ensures t == a + " " + b <==> |a| < |t| && t[..|a|] == a && t[|a|] == ' ' && t[|a| + 1..] == b
  {
    if |a| < |t| && t[..|a|] == a && t[|a|] == ' ' && t[|a| + 1..] == b {
      assert t == t[..|a|] + [t[|a|]] + t[|a| + 1..];
    }
  }

  lemma {:induction false} ValueTextExactly(cfg: Config, at: AddressText, v: Value, scope: Scope, t: string)
    requires NoSemicolons(at)
    ensures ValueTextLaidOut(cfg, at, v, scope, t) <==> ValueText(cfg, at, v, scope) == Some(t)
    decreases v, 0
  {
    hide PlainLaidOut, PlainText, ItemsText, ItemsTextLaidOut, Braced, NumberThen, Decimal, After, NoSemicolons;
    if v.Sub? {
      BracedItemsExactly(cfg, at, v.items, scope, t);
    } else if v.U16Sub? {
      BracedItemsExactly(cfg, at, v.items, scope, After(t, ';'));
      if ItemsText(cfg, at, v.items, scope).Some? {
        TaggedExactly(v.tag, ItemsText(cfg, at, v.items, scope).value, t);
      }
    } else {
      PlainExactly(at, v, t);
    }
  }

  lemma TaggedExactly(n: nat, inside: string, t: string)
    ensures NumberThen(n, t) && After(t, ';') == "{ " + inside + "} " <==>
            t == Decimal(n) + ";" + "{ " + inside + "} "
  {
    hide NumberThen, Decimal, After;
    NumberThenExactly(n, "{ " + inside + "} ", t);
    assert Decimal(n) + ";" + "{ " + inside + "} " == Decimal(n) + ";" + ("{ " + inside + "} ");
  }

  lemma {:induction false} BracedItemsExactly(cfg: Config, at: AddressText, items: seq<Item>, scope: Scope, t: string)
    requires NoSemicolons(at)
    ensures Braced(t) && ItemsTextLaidOut(cfg, at, items, scope, t[2..|t| - 2]) <==>
            ItemsText(cfg, at, items, scope).Some? && t == "{ " + ItemsText(cfg, at, items, scope).value + "} "
    decreases items, 3
  {
    hide ItemsText, ItemsTextLaidOut, NoSemicolons;
    if Braced(t) {
      ItemsTextExactly(cfg, at, items, scope, t[2..|t| - 2]);
    }
    if ItemsText(cfg, at, items, scope).Some? {
      BracedExactly(t, ItemsText(cfg, at, items, scope).value);
    }
  }

  /** The text of an item, at every level, is the one that lays it out; it has none exactly if there is no such text. */
  lemma {:induction false} ItemTextExactly(cfg: Config, at: AddressText, item: Item, scope: Scope, t: string)
    requires NoSemicolons(at)
    ensures ItemTextLaidOut(cfg, at, item, scope, t) <==> ToText(cfg, at, item, scope) == Some(t)
    decreases item, 1
  {
    hide ValueText, ValueTextLaidOut, NoSemicolons;
    var info := InfoOfId(cfg, item.id, scope);
    if info.Some? {
      var name := NameOfId(cfg, item.id, scope).value;
      var inner := PrintScope(info.value, scope);
      assert inner == if info.value.subDataItems != [] then info else scope;
      if |name| < |t| {
        ValueTextExactly(cfg, at, item.value, inner, t[|name| + 1..]);
      }
      if ValueText(cfg, at, item.value, inner).Some? {
        SpacedExactly(t, name, ValueText(cfg, at, item.value, inner).value);
      }
    }
  }

  lemma {:induction false} ItemsTextExactly(cfg: Config, at: AddressText, items: seq<Item>, scope: Scope, t: string)
    requires NoSemicolons(at)
    ensures ItemsTextLaidOut(cfg, at, items, scope, t) <==> ItemsText(cfg, at, items, scope) == Some(t)
    decreases items, 2
  {
    hide ToText, ItemTextLaidOut, NoSemicolons;
    if items != [] {
      forall n | 0 <= n < |t|
        ensures ItemTextLaidOut(cfg, at, items[0], scope, t[..n]) <==> ToText(cfg, at, items[0], scope) == Some(t[..n])
        ensures ItemsTextLaidOut(cfg, at, items[1..], scope, t[n + 1..]) <==>
                ItemsText(cfg, at, items[1..], scope) == Some(t[n + 1..])
      {
        ItemTextExactly(cfg, at, items[0], scope, t[..n]);
        ItemsTextExactly(cfg, at, items[1..], scope, t[n + 1..]);
      }
      if ItemsText(cfg, at, items, scope) == Some(t) {
        var first, rest := ToText(cfg, at, items[0], scope).value, ItemsText(cfg, at, items[1..], scope).value;
        SpacedExactly(t, first, rest);
        var n := |first|;
        assert t[n] == ' ' && ItemTextLaidOut(cfg, at, items[0], scope, t[..n]);
      }
      if ItemsTextLaidOut(cfg, at, items, scope, t) {
        var n :| 0 <= n < |t| && t[n] == ' '
                 && ItemTextLaidOut(cfg, at, items[0], scope, t[..n])
                 && ItemsTextLaidOut(cfg, at, items[1..], scope, t[n + 1..]);
        SpacedExactly(t, t[..n], t[n + 1..]);
      }
    }
  }

  // ---- What can be read

  /** Some name has this id in the scope and a definition of the value's type, and so on for items inside. */
  ghost predicate Named(cfg: Config, scope: Scope, item: Item)
    decreases item, 0
  {
    exists name :: HasName(cfg, scope, item, name) &&
      (item.value.Sub? || item.value.U16Sub? ==> AllNamed(cfg, InfoOfName(cfg, name), item.value.items))
  }

  predicate HasName(cfg: Config, scope: Scope, item: Item, name: string) {
    && IdOfName(cfg, name, scope) == Some(item.id)
    && InfoOfName(cfg, name).Some? && InfoOfName(cfg, name).value.valueType == TypeOf(item.value)
  }

  ghost predicate AllNamed(cfg: Config, scope: Scope, items: seq<Item>)
    decreases items, 1
  {
    items == [] || (Named(cfg, scope, items[0]) && AllNamed(cfg, scope, items[1..]))
  }

  lemma NumericHasItsType(t: ValueType, s: Stream)
    requires IsNumeric(t)
    ensures ParseNumeric(t, s).Some? ==> TypeOf(ParseNumeric(t, s).value.0) == t
  {
    hide ParseUint, ParseVector, ParsePair, ParseTwo, TakeSeparator;
  }

  lemma AddressedHasItsType(at: AddressText, t: ValueType, s: Stream)
    requires IsAddressed(t)
    ensures ParseAddressed(at, t, s).Some? ==> TypeOf(ParseAddressed(at, t, s).value.0) == t
  {
    hide ParseNumberAddress, ParseNumberAddressNumber;
  }

  /** A value that is read has the type it was read for. */
  lemma PlainHasItsType(at: AddressText, t: ValueType, s: Stream)
    requires t != TSub && t != TU16Sub
    ensures ParsePlain(at, t, s).Some? ==> TypeOf(ParsePlain(at, t, s).value.0) == t
  {
    hide ParseNumeric, ParseAddressed, ParseUint, ParseMac, TakeSeparator, ReadWord;
    if IsNumeric(t) {
      NumericHasItsType(t, s.(hex := false));
    } else if IsAddressed(t) {
      AddressedHasItsType(at, t, s.(hex := false));
    }
  }

  /**
   Whatever text an item is read from, it is one whose ids and types come from names in scope, at
   every level; text that does not start with such a name is refused.
   */
  lemma {:induction false} ReadItemIsNamed(cfg: Config, at: AddressText, scope: Scope, s: Stream)
    requires ParseItem(cfg, at, scope, s).Some?
    ensures Named(cfg, scope, ParseItem(cfg, at, scope, s).value.0)
    ensures HasName(cfg, scope, ParseItem(cfg, at, scope, s).value.0, ReadWord(s).0)
    decreases |s.rest|, 0
  {
    hide ReadWord, ParsePlain, ParseUint, TakeSeparator, ParseItems, IdOfName, AllNamed;
    var item := ParseItem(cfg, at, scope, s).value.0;
    var (name, s1) := ReadWord(s);
    var info := InfoOfName(cfg, name).value;
    if info.valueType == TSub {
      ReadItemsAreNamed(cfg, at, info, s1);
    } else if info.valueType == TU16Sub {
      var (n, s2) := ParseUint(s1.(hex := false), 0xFFFF).value;
      ReadItemsAreNamed(cfg, at, info, TakeSeparator(s2).value);
    } else {
      PlainHasItsType(at, info.valueType, s1);
    }
    assert HasName(cfg, scope, item, name);
  }

  lemma {:induction false} ReadItemsAreNamed(cfg: Config, at: AddressText, info: DataItemInfo, s: Stream)
    requires ParseItems(cfg, at, info, s).Some?
    ensures AllNamed(cfg, Some(info), ParseItems(cfg, at, info, s).value.0)
    decreases |s.rest|, 2
  {
    ReadToBraceIsNamed(cfg, at, info, SkipWhitespace(ReadWord(s).1));
  }

  lemma {:induction false} ReadToBraceIsNamed(cfg: Config, at: AddressText, info: DataItemInfo, s: Stream)
    requires ParseToBrace(cfg, at, info, s).Some?
    ensures AllNamed(cfg, Some(info), ParseToBrace(cfg, at, info, s).value.0)
    decreases |s.rest|, 1
  {
    hide ParseItem, SkipWhitespace, Named;
    var (c, s1) := Peek(s);
    if c != Some('}') {
      var (item, s2) := ParseItem(cfg, at, Some(info), s1).value;
      var (items, s3) := ParseToBrace(cfg, at, info, SkipWhitespace(s2)).value;
      ReadItemIsNamed(cfg, at, Some(info), s1);
      ReadToBraceIsNamed(cfg, at, info, SkipWhitespace(s2));
      assert ([item] + items)[1..] == items;
    }
  }

  /** Between the fields of a value a semicolon or a slash is read, and nothing else. */
  lemma SeparatorsExactly(c: char, rest: string)
    ensures TakeSeparator(Opened([c] + rest)) == if c == ';' || c == '/' then Some(Opened(rest)) else None
    ensures TakeSeparator(Opened("")) == None
  {
    assert ([c] + rest)[1..] == rest;
  }
}
