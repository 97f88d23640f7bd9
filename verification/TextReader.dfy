/**
 The text parser as DataItem.cpp runs it: one stream that every method advances, loops that
 collect numbers, bytes, characters and items.  Each method does what the function of
 `TextFormat` with the same name says, to the item and to the stream.
 */
module TextReader {
  import opened Wrappers
  import opened Serialize
  import opened ProtocolConfig
  import opened DataItem
  import opened TextStream
  import F = TextFormat

  /** What is read now, put before what is read later. */
  ghost function Before<T>(front: seq<T>, p: Option<(seq<T>, Stream)>): Option<(seq<T>, Stream)> {
    if p.None? then None else Some((front + p.value.0, p.value.1))
  }

  lemma BeforeMore<T>(front: seq<T>, x: T, p: Option<(seq<T>, Stream)>)
    ensures Before(front, Before([x], p)) == Before(front + [x], p)
    ensures Before([], p) == p
  {
    if p.Some? {
      assert front + ([x] + p.value.0) == (front + [x]) + p.value.0;
      assert [] + p.value.0 == p.value.0;
    }
  }

  /** A method's outcome is what a function says: the same exception, or the same value and stream. */
  ghost predicate Agrees<T>(r: Option<T>, after: Stream, p: Option<(T, Stream)>) {
    if p.None? then r.None? else r == Some(p.value.0) && after == p.value.1
  }

  class Reader {
    const cfg: Config
    const at: F.AddressText
    var ss: Stream

    constructor (cfg: Config, at: F.AddressText, text: string)
      ensures this.cfg == cfg && this.at == at && ss == Opened(text)
    {
      this.cfg, this.at, ss := cfg, at, Opened(text);
    }

    method SkipWhitespace()
      modifies this
      ensures ss == TextStream.SkipWhitespace(old(ss))
    {
      while true
        invariant TextStream.SkipWhitespace(ss) == TextStream.SkipWhitespace(old(ss))
        decreases |ss.rest|
      {
        if ss.fail {
          break;
        }
        var (c, s) := Peek(ss);
        if c.None? || !IsSpace(c.value) {
          ss := s;
          break;
        }
        ss := Ignore(s);
      }
    }

    method CheckFieldSeparator() returns (ok: bool)
      modifies this
      ensures ok <==> F.TakeSeparator(old(ss)).Some?
      ensures ok ==> ss == F.TakeSeparator(old(ss)).value
    {
      var (c, s) := Get(ss);
      ss := s;
      ok := c.Some? && F.IsSeparator(c.value) && !ss.fail;
    }

    method ParseUint(limit: u64) returns (r: Option<u64>)
      modifies this
      ensures Agrees(r, ss, F.ParseUint(old(ss), limit))
      ensures r.Some? ==> r.value <= limit
    {
      var (n, s) := ReadNumber(ss);
      ss := s;
      if ss.fail || n > limit {
        return None;
      }
      return Some(n);
    }

    /** Skip one given character if it comes next. */
    method SkipIf(c: char) returns (skipped: bool)
      modifies this
      ensures (skipped, ss) == F.SkipIf(old(ss), c)
    {
      var (next, s) := Peek(ss);
      ss := s;
      skipped := next == Some(c);
      if skipped {
        ss := Ignore(ss);
      }
    }

    method ParseVector(limit: u64) returns (r: Option<seq<u64>>)
      modifies this
      ensures Agrees(r, ss, F.ParseVector(old(ss), limit))
    {
      hide ReadNumber;
      var vec := [];
      BeforeMore([], 0, F.ParseVector(ss, limit));
      while true
        invariant F.ParseVector(old(ss), limit) == Before(vec, F.ParseVector(ss, limit))
        decreases |ss.rest|
      {
        ghost var start := ss;
        var (n, s) := ReadNumber(ss);
        ss := s;
        if ss.fail {
          break;
        }
        if n > limit {
          return None;
        }
        vec := vec + [n];
        var skipped := SkipIf(',');
        BeforeMore(vec[..|vec| - 1], n, F.ParseVector(ss, limit));
      }
      ss := ss.(fail := false, eof := false);
      assert vec + [] == vec;
      return Some(vec);
    }

    /** An array of two numbers. */
    method ParseArray2(limit: u64) returns (r: Option<seq<u64>>)
      modifies this
      ensures var p := F.ParsePair(old(ss), limit);
              if p.None? then r.None? else r == Some([p.value.0.0, p.value.0.1]) && ss == p.value.1
    {
      hide ReadNumber;
      var arr := [];
      while !ss.fail && |arr| < 2
        invariant |arr| <= 2
        invariant |arr| == 0 ==> ss == old(ss)
        invariant |arr| == 1 ==> !old(ss).fail
                                 && F.ParseUint(old(ss), limit).Some?
                                 && F.ParseUint(old(ss), limit).value.0 == arr[0]
                                 && ss == F.SkipIf(F.ParseUint(old(ss), limit).value.1, ',').1
        invariant |arr| == 2 ==> F.ParsePair(old(ss), limit) == Some(((arr[0], arr[1]), ss))
        decreases 2 - |arr|
      {
        var n := ParseUint(limit);
        if n.None? {
          return None;
        }
        arr := arr + [n.value];
        var skipped := SkipIf(',');
      }
      if |arr| < 2 {
        return None;
      }
      assert arr == [arr[0], arr[1]];
      return Some(arr);
    }

    /** Bytes in base 16, for as long as a colon follows. */
    method ParseMac() returns (r: Option<Mac>)
      modifies this
      ensures Agrees(r, ss, F.ParseMac(old(ss)))
    {
      hide ReadNumber;
      var mac := [];
      BeforeMore([], 0, F.ParseMac(ss));
      while true
        invariant F.ParseMac(old(ss)) == Before(mac, F.ParseMac(ss))
        decreases |ss.rest|
      {
        var b := ParseUint(255);
        if b.None? {
          return None;
        }
        mac := mac + [b.value];
        var more := SkipIf(':');
        if !more {
          return Some(mac);
        }
        BeforeMore(mac[..|mac| - 1], b.value, F.ParseMac(ss));
      }
    }

    /** Collect the characters of an address. */
    method AddressChars() returns (text: string)
      modifies this
      ensures (text, ss) == F.AddressChars(old(ss))
    {
      text := "";
      assert "" + F.AddressChars(ss).0 == F.AddressChars(ss).0;
      while !ss.fail
        invariant F.AddressChars(old(ss)) == (text + F.AddressChars(ss).0, F.AddressChars(ss).1)
        decreases |ss.rest|, !ss.fail
      {
        var (c, s) := Peek(ss);
        ss := s;
        if c.Some? && (F.IsSeparator(c.value) || IsSpace(c.value)) {
          assert text + "" == text;
          return;
        }
        if c.None? {
          ss := Peek(ss).1;
        }
        var (ch, s') := Get(ss);
        ss := s';
        if ch.Some? {
          ghost var later := F.AddressChars(ss).0;
          assert text + ([ch.value] + later) == text + [ch.value] + later;
          text := text + [ch.value];
        } else {
          assert text + "" == text;
        }
      }
      assert text + "" == text;
    }

    method ParseIpAddr<A>(parse: string -> Option<A>) returns (r: Option<A>)
      modifies this
      ensures Agrees(r, ss, F.ParseAddress(old(ss), parse))
    {
      SkipWhitespace();
      var text := AddressChars();
      r := parse(text);
    }

    /** A number, a separator, and an address. */
    method ParseNumberAddress<A>(parse: string -> Option<A>) returns (r: Option<(byte, A)>)
      modifies this
      ensures Agrees(r, ss, F.ParseNumberAddress(old(ss), parse))
    {
      var n := ParseUint(0xFF);
      if n.None? {
        return None;
      }
      var ok := CheckFieldSeparator();
      if !ok {
        return None;
      }
      var ip := ParseIpAddr(parse);
      if ip.None? {
        return None;
      }
      return Some((n.value, ip.value));
    }

    /** The same with another number after it. */
    method ParseNumberAddressNumber<A>(parse: string -> Option<A>, limit: u64) returns (r: Option<(byte, A, u64)>)
      modifies this
      ensures Agrees(r, ss, F.ParseNumberAddressNumber(old(ss), parse, limit))
      ensures r.Some? ==> r.value.2 <= limit
    {
      var ip := ParseNumberAddress(parse);
      if ip.None? {
        return None;
      }
      var ok := CheckFieldSeparator();
      if !ok {
        return None;
      }
      var m := ParseUint(limit);
      if m.None? {
        return None;
      }
      return Some((ip.value.0, ip.value.1, m.value));
    }

    /** Two numbers with a separator between them. */
    method ParseTwo(limit: u64) returns (r: Option<(u64, u64)>)
      modifies this
      ensures Agrees(r, ss, F.ParseTwo(old(ss), limit))
      ensures r.Some? ==> r.value.0 <= limit && r.value.1 <= limit
    {
      var a := ParseUint(limit);
      if a.None? {
        return None;
      }
      var ok := CheckFieldSeparator();
      if !ok {
        return None;
      }
      var b := ParseUint(limit);
      if b.None? {
        return None;
      }
      return Some((a.value, b.value));
    }

    /** A number, a separator, and a vector. */
    method ParseTagged() returns (r: Option<Value>)
      modifies this
      ensures Agrees(r, ss, F.ParseNumeric(TU16VU8, old(ss)))
    {
      var n := ParseUint(0xFFFF);
      if n.None? {
        return None;
      }
      var ok := CheckFieldSeparator();
      if !ok {
        return None;
      }
      var ns := ParseVector(0xFF);
      if ns.None? {
        return None;
      }
      return Some(U16VU8(n.value, ns.value));
    }

    method ParseNumeric(t: ValueType) returns (r: Option<Value>)
      requires F.IsNumeric(t)
      modifies this
      ensures Agrees(r, ss, F.ParseNumeric(t, old(ss)))
    {
      hide F.ParseUint, F.ParseVector, F.ParsePair, F.ParseTwo;
      match t
      case TU8 =>
        var n := ParseUint(0xFF);
        return if n.None? then None else Some(U8(n.value));
      case TU16 =>
        var n := ParseUint(0xFFFF);
        return if n.None? then None else Some(U16(n.value));
      case TU32 =>
        var n := ParseUint(0xFFFF_FFFF);
        return if n.None? then None else Some(U32(n.value));
      case TU64 =>
        var n := ParseUint(0xFFFF_FFFF_FFFF_FFFF);
        return if n.None? then None else Some(U64(n.value));
      case TVU8 =>
        var ns := ParseVector(0xFF);
        return if ns.None? then None else Some(VU8(ns.value));
      case TVU32 =>
        var ns := ParseVector(0xFFFF_FFFF);
        return if ns.None? then None else Some(VU32(ns.value));
      case TVExtId =>
        var ns := ParseVector(0xFFFF_FFFF);
        return if ns.None? then None else Some(VExtId(ns.value));
      case TA2U16 =>
        var arr := ParseArray2(0xFFFF);
        return if arr.None? then None else Some(A2U16(arr.value[0], arr.value[1]));
      case TU16VU8 => r := ParseTagged();
      case TU8U8 =>
        var ab := ParseTwo(0xFF);
        return if ab.None? then None else Some(U8U8(ab.value.0, ab.value.1));
      case TU64U64 =>
        var ab := ParseTwo(0xFFFF_FFFF_FFFF_FFFF);
        return if ab.None? then None else Some(U64U64(ab.value.0, ab.value.1));
    }

    method ParseAddressed(t: ValueType) returns (r: Option<Value>)
      requires F.IsAddressed(t)
      modifies this
      ensures Agrees(r, ss, F.ParseAddressed(at, t, old(ss)))
    {
      hide F.ParseNumberAddress, F.ParseNumberAddressNumber;
      match t
      case TU8Ipv4 =>
        var x := ParseNumberAddress(at.parse4);
        return if x.None? then None else Some(U8Ipv4(x.value.0, x.value.1));
      case TU8Ipv6 =>
        var x := ParseNumberAddress(at.parse6);
        return if x.None? then None else Some(U8Ipv6(x.value.0, x.value.1));
      case TU8Ipv4U16 =>
        var x := ParseNumberAddressNumber(at.parse4, 0xFFFF);
        return if x.None? then None else Some(U8Ipv4U16(x.value.0, x.value.1, x.value.2));
      case TU8Ipv6U16 =>
        var x := ParseNumberAddressNumber(at.parse6, 0xFFFF);
        return if x.None? then None else Some(U8Ipv6U16(x.value.0, x.value.1, x.value.2));
      case TU8Ipv4U8 =>
        var x := ParseNumberAddressNumber(at.parse4, 0xFF);
        return if x.None? then None else Some(U8Ipv4U8(x.value.0, x.value.1, x.value.2));
      case TU8Ipv6U8 =>
        var x := ParseNumberAddressNumber(at.parse6, 0xFF);
        return if x.None? then None else Some(U8Ipv6U8(x.value.0, x.value.1, x.value.2));
    }

    /** `value_from_istringstream`, which first sets base 10. */
    method ValueFromStream(t: ValueType) returns (r: Option<Value>)
      requires t != TSub && t != TU16Sub
      modifies this
      ensures Agrees(r, ss, F.ParsePlain(at, t, old(ss)))
    {
      hide F.ParseNumeric, F.ParseAddressed, F.ParseMac, F.ParseUint, ReadWord, F.TakeSeparator;
      ss := ss.(hex := false);
      if F.IsNumeric(t) {
        r := ParseNumeric(t);
      } else if F.IsAddressed(t) {
        r := ParseAddressed(t);
      } else if t == TBlank {
        r := Some(Blank);
      } else if t == TMac {
        ss := ss.(hex := true);
        var mac := ParseMac();
        if mac.None? {
          return None;
        }
        ss := ss.(hex := false);
        r := Some(MacAddr(mac.value));
      } else {
        var n := Some(0);
        if t == TU8String {
          n := ParseUint(0xFF);
          if n.None? {
            return None;
          }
          var ok := CheckFieldSeparator();
          if !ok {
            return None;
          }
        }
        var (word, s) := ReadWord(ss);
        ss := s;
        r := Some(if t == TU8String then U8String(n.value, F.Bytes(word)) else Str(F.Bytes(word)));
      }
    }

    /** `sub_data_items_from_istringstream`: items between braces. */
    method SubDataItemsFromStream(info: DataItemInfo) returns (r: Option<seq<Item>>)
      modifies this
      ensures Agrees(r, ss, F.ParseItems(cfg, at, info, old(ss)))
      decreases |ss.rest|, 1
    {
      hide F.ParseItem, TextStream.SkipWhitespace;
      var (token, s) := ReadWord(ss);
      ss := s;
      if token != "{" {
        return None;
      }
      SkipWhitespace();
      var items := [];
      BeforeMore([], Item(0, Blank), F.ParseToBrace(cfg, at, info, ss));
      while true
        invariant F.ParseItems(cfg, at, info, old(ss)) == Before(items, F.ParseToBrace(cfg, at, info, ss))
        invariant |ss.rest| < |old(ss).rest|
        decreases |ss.rest|
      {
        ghost var start := ss;
        var (c, s) := Peek(ss);
        ss := s;
        if c == Some('}') {
          ss := Ignore(ss);
          assert items + [] == items;
          return Some(items);
        }
        var item := FromStream(Some(info));
        if item.None? {
          return None;
        }
        items := items + [item.value];
        SkipWhitespace();
        BeforeMore(items[..|items| - 1], item.value, F.ParseToBrace(cfg, at, info, ss));
        assert F.ParseToBrace(cfg, at, info, start) == Before([item.value], F.ParseToBrace(cfg, at, info, ss));
      }
    }

    /** `from_istringstream`: a name, which decides the type, and a value of that type. */
    method FromStream(scope: Scope) returns (r: Option<Item>)
      modifies this
      ensures Agrees(r, ss, F.ParseItem(cfg, at, scope, old(ss)))
      decreases |ss.rest|, 0
    {
      hide F.ParseItems, F.ParsePlain, F.ParseUint, F.TakeSeparator, IdOfName, InfoOfName;
      var (name, s) := ReadWord(ss);
      ss := s;
      if ss.fail {
        return None;
      }
      var id := IdOfName(cfg, name, scope);
      var info := InfoOfName(cfg, name);
      if id.None? || info.None? {
        return None;
      }
      var t := info.value.valueType;
      if t != TSub && t != TU16Sub {
        var v := ValueFromStream(t);
        return if v.None? then None else Some(Item(id.value, v.value));
      }
      var n := Some(0);
      if t == TU16Sub {
        ss := ss.(hex := false);
        n := ParseUint(0xFFFF);
        if n.None? {
          return None;
        }
        var ok := CheckFieldSeparator();
        if !ok {
          return None;
        }
      }
      var items := SubDataItemsFromStream(info.value);
      if items.None? {
        return None;
      }
      return Some(Item(id.value, if t == TSub then Sub(items.value) else U16Sub(n.value, items.value)));
    }
  }

  /** `from_string`. */
  method FromString(cfg: Config, at: F.AddressText, text: string, scope: Scope) returns (r: Option<Item>)
    ensures r == F.FromText(cfg, at, text, scope)
  {
    var reader := new Reader(cfg, at, text);
    r := reader.FromStream(scope);
  }
}
