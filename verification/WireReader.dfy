/**
 `DataItem::deserialize` in its own form (DataItem.cpp): an iterator that moves through the
 message, a switch over the configured value type, and loops for vectors and nested items.
 Each method is proved to accept, return and consume exactly what `WireFormat` defines.
 */
module WireReader {
  import opened Wrappers
  import opened Serialize
  import opened ProtocolConfig
  import opened DataItem
  import opened WireFormat

  /** A value was read and took exactly the bytes [it, diEnd), as the definition says. */
  ghost predicate ReadsFlat(cfg: Config, t: ValueType, buf: seq<byte>, it: nat, diEnd: nat,
                            v: Option<Value>, next: nat)
    requires it <= diEnd <= |buf|
  {
    (if v.Some? && next == diEnd then v else None) == DecodeFlat(cfg, t, buf[it..diEnd])
  }

  /** A slice of a slice is a slice. */
  lemma SubSlice(buf: seq<byte>, a: nat, b: nat, i: nat, j: nat)
    requires a <= b <= |buf| && i <= j <= b - a
    ensures buf[a..b][i..j] == buf[a + i..a + j]
    ensures i == 0 ==> buf[a..b][..j] == buf[a..a + j]
    ensures j == b - a ==> buf[a..b][i..] == buf[a + i..b]
  {
    var inner := buf[a..b];
    assert |inner[i..j]| == |buf[a + i..a + j]|;
    forall k | 0 <= k < j - i
      ensures inner[i..j][k] == buf[a + i..a + j][k]
    {
      assert inner[i + k] == buf[a + i + k];
    }
    assert inner[i..j] == buf[a + i..a + j];
  }

  method ReadByte(buf: seq<byte>, it: nat, itEnd: nat) returns (r: Option<byte>, next: nat)
    requires it <= itEnd <= |buf|
    ensures r.Some? <==> it < itEnd
    ensures r.Some? ==> r.value == buf[it] && next == it + 1
  {
    if it == itEnd {
      return None, it;
    }
    return Some(buf[it]), it + 1;
  }

  /** Exactly n bytes, copied one at a time. */
  method ReadAddress(n: nat, buf: seq<byte>, it: nat, itEnd: nat) returns (r: Option<seq<byte>>, next: nat)
    requires it <= itEnd <= |buf|
    ensures r.Some? <==> it + n <= itEnd
    ensures r.Some? ==> r.value == buf[it..it + n] && next == it + n
  {
    var bytes: seq<byte> := [];
    next := it;
    while |bytes| < n && next < itEnd
      invariant |bytes| <= n && it <= next <= itEnd
      invariant bytes == buf[it..next]
    {
      bytes := bytes + [buf[next]];
      next := next + 1;
    }
    if |bytes| < n {
      return None, next;
    }
    r := Some(bytes);
  }

  /** One, two, four or eight bytes, read whole. */
  method ReadNumber(n: nat, buf: seq<byte>, it: nat, itEnd: nat) returns (r: Option<nat>, next: nat)
    requires it <= itEnd <= |buf|
    ensures r.Some? <==> it + n <= itEnd
    ensures r.Some? ==> next == it + n && r.value == BigEndianValue(buf[it..next]) < Pow256(n)
  {
    var status, value, after := DeserializeWhole(buf, n, it, itEnd);
    next := after;
    r := if status.Ok? then Some(value) else None;
  }

  lemma {:induction false} ReadFieldsAppend(a: seq<byte>, field: seq<byte>, n: nat, vs: seq<u32>)
    requires n > 0 && |field| == n && ReadU32(field).Some?
    requires ReadFields(a, n) == Some(vs)
    ensures ReadFields(a + field, n) == Some(vs + [ReadU32(field).value])
    decreases |a|
  {
    if a == [] {
      assert a + field == field && field[..n] == field && field[n..] == [];
      assert ReadFields([], n) == Some([]);
      assert [ReadU32(field).value] + [] == vs + [ReadU32(field).value];
    } else {
      var rest := ReadFields(a[n..], n).value;
      ReadFieldsAppend(a[n..], field, n, rest);
      assert (a + field)[..n] == a[..n] && (a + field)[n..] == a[n..] + field;
      assert vs == [vs[0]] + rest;
      assert vs + [ReadU32(field).value] == [vs[0]] + (rest + [ReadU32(field).value]);
    }
  }

  lemma {:induction false} ReadFieldsBadTail(a: seq<byte>, tail: seq<byte>, n: nat)
    requires n > 0 && tail != [] && ReadFields(a, n).Some? && ReadFields(tail, n).None?
    ensures ReadFields(a + tail, n).None?
    decreases |a|
  {
    if a == [] {
      assert a + tail == tail;
    } else {
      ReadFieldsBadTail(a[n..], tail, n);
      assert (a + tail)[..n] == a[..n] && (a + tail)[n..] == a[n..] + tail;
    }
  }

  /** A vector of n-byte fields that runs to the end of the item. */
  method ReadVector(n: nat, buf: seq<byte>, it: nat, diEnd: nat) returns (r: Option<seq<u32>>, next: nat)
    requires it <= diEnd <= |buf| && 0 < n <= 8
    ensures r == ReadFields(buf[it..diEnd], n)
    ensures r.Some? ==> next == diEnd
  {
    var words: seq<u32> := [];
    next := it;
    while next < diEnd
      invariant it <= next <= diEnd
      invariant ReadFields(buf[it..next], n) == Some(words)
    {
      ghost var done, tail := buf[it..next], buf[next..diEnd];
      assert buf[it..diEnd] == done + tail;
      PowersOf256();
      var status, value, after := DeserializeField(buf, 4, n, next, diEnd);
      if !status.Ok? {
        if next + n <= diEnd {
          SubSlice(buf, next, diEnd, 0, n);
        }
        ReadFieldsBadTail(done, tail, n);
        return None, after;
      }
      ReadFieldsAppend(done, buf[next..after], n, words);
      assert buf[it..after] == done + buf[next..after];
      words := words + [value];
      next := after;
    }
    r := Some(words);
  }

  method ReadNumbers(cfg: Config, t: ValueType, buf: seq<byte>, it: nat, diEnd: nat)
    returns (v: Option<Value>, next: nat)
    requires it <= diEnd <= |buf|
    requires t in {TU8, TU16, TU32, TU64, TU8U8}
    ensures ReadsFlat(cfg, t, buf, it, diEnd, v, next)
  {
    PowersOf256();
    v := None;
    if t.TU8? || t.TU8U8? {
      var a, p := ReadByte(buf, it, diEnd);
      next := p;
      if a.Some? && t.TU8? {
        v := Some(U8(a.value));
      } else if a.Some? {
        var b, q := ReadByte(buf, p, diEnd);
        next := q;
        if b.Some? {
          v := Some(U8U8(a.value, b.value));
        }
      }
    } else {
      var n := if t.TU16? then 2 else if t.TU32? then 4 else 8;
      var a, p := ReadNumber(n, buf, it, diEnd);
      next := p;
      if a.Some? {
        v := Some(if t.TU16? then U16(a.value) else if t.TU32? then U32(a.value) else U64(a.value));
      }
    }
  }

  method ReadPairs(cfg: Config, t: ValueType, buf: seq<byte>, it: nat, diEnd: nat)
    returns (v: Option<Value>, next: nat)
    requires it <= diEnd <= |buf|
    requires t in {TA2U16, TU64U64}
    ensures ReadsFlat(cfg, t, buf, it, diEnd, v, next)
  {
    PowersOf256();
    v := None;
    var n := if t.TA2U16? then 2 else 8;
    var a, p := ReadNumber(n, buf, it, diEnd);
    next := p;
    if a.Some? {
      var b, q := ReadNumber(n, buf, p, diEnd);
      next := q;
      if b.Some? {
        SubSlice(buf, it, diEnd, 0, n);
        SubSlice(buf, it, diEnd, n, diEnd - it);
        v := Some(if t.TA2U16? then A2U16(a.value, b.value) else U64U64(a.value, b.value));
      }
    }
  }

  /** Items that start with a flag byte and an address, with what may follow it. */
  method ReadAddresses(cfg: Config, t: ValueType, buf: seq<byte>, it: nat, diEnd: nat)
    returns (v: Option<Value>, next: nat)
    requires it <= diEnd <= |buf|
    requires t in {TU8Ipv4, TU8Ipv6, TU8Ipv4U8, TU8Ipv6U8}
    ensures ReadsFlat(cfg, t, buf, it, diEnd, v, next)
  {
    v := None;
    var flags, p := ReadByte(buf, it, diEnd);
    next := p;
    if flags.None? {
      return;
    }
    var n := if t.TU8Ipv4? || t.TU8Ipv4U8? then 4 else 16;
    var ip, q := ReadAddress(n, buf, p, diEnd);
    next := q;
    if ip.None? {
      return;
    }
    SubSlice(buf, it, diEnd, 1, n + 1);
    if t.TU8Ipv4? || t.TU8Ipv6? {
      SubSlice(buf, it, diEnd, 1, diEnd - it);
      v := Some(if t.TU8Ipv4? then U8Ipv4(flags.value, ip.value) else U8Ipv6(flags.value, ip.value));
    } else {
      var mask, z := ReadByte(buf, q, diEnd);
      next := z;
      if mask.Some? {
        v := Some(if t.TU8Ipv4U8? then U8Ipv4U8(flags.value, ip.value, mask.value)
                  else U8Ipv6U8(flags.value, ip.value, mask.value));
      }
    }
  }

  /** Connection points, whose port is optional. */
  method ReadConnectionPoint(cfg: Config, t: ValueType, buf: seq<byte>, it: nat, diEnd: nat)
    returns (v: Option<Value>, next: nat)
    requires it <= diEnd <= |buf|
    requires t in {TU8Ipv4U16, TU8Ipv6U16}
    ensures ReadsFlat(cfg, t, buf, it, diEnd, v, next)
  {
    PowersOf256();
    v := None;
    var flags, p := ReadByte(buf, it, diEnd);
    next := p;
    if flags.None? {
      return;
    }
    var n := if t.TU8Ipv4U16? then 4 else 16;
    var ip, q := ReadAddress(n, buf, p, diEnd);
    next := q;
    if ip.None? {
      return;
    }
    SubSlice(buf, it, diEnd, 1, n + 1);
    var port: u16 := 0;
    if q != diEnd {
      var number, z := ReadNumber(2, buf, q, diEnd);
      next := z;
      if number.None? {
        return;
      }
      port := number.value;
      SubSlice(buf, it, diEnd, n + 1, diEnd - it);
    }
    v := Some(if t.TU8Ipv4U16? then U8Ipv4U16(flags.value, ip.value, port)
              else U8Ipv6U16(flags.value, ip.value, port));
  }

  /** Items whose last part takes all the bytes that are left. */
  method ReadTails(cfg: Config, t: ValueType, buf: seq<byte>, it: nat, diEnd: nat)
    returns (v: Option<Value>, next: nat)
    requires it <= diEnd <= |buf|
    requires t in {TBlank, TVU8, TVU32, TString, TMac, TU8String, TVExtId}
    ensures ReadsFlat(cfg, t, buf, it, diEnd, v, next)
  {
    v := None;
    next := it;
    match t
    case TBlank => v := Some(Blank);
    case TVU8 =>
      var bytes: seq<byte> := [];
      while next < diEnd
        invariant it <= next <= diEnd
        invariant bytes == buf[it..next]
      {
        var b, p := ReadByte(buf, next, diEnd);
        bytes := bytes + [b.value];
        next := p;
      }
      v := Some(VU8(bytes));
    case TVU32 =>
      var words, p := ReadVector(4, buf, it, diEnd);
      next := p;
      if words.Some? {
        v := Some(VU32(words.value));
      }
    case TVExtId =>
      var ids, p := ReadVector(cfg.extensionIdSize, buf, it, diEnd);
      next := p;
      if ids.Some? {
        v := Some(VExtId(ids.value));
      }
    case TString => v, next := Some(Str(buf[it..diEnd])), diEnd;
    case TMac => v, next := Some(MacAddr(buf[it..diEnd])), diEnd;
    case TU8String =>
      var b, p := ReadByte(buf, it, diEnd);
      next := p;
      if b.Some? {
        SubSlice(buf, it, diEnd, 1, diEnd - it);
        v, next := Some(U8String(b.value, buf[p..diEnd])), diEnd;
      }
  }

  method ReadCountedBytes(cfg: Config, buf: seq<byte>, it: nat, diEnd: nat) returns (v: Option<Value>, next: nat)
    requires it <= diEnd <= |buf|
    ensures ReadsFlat(cfg, TU16VU8, buf, it, diEnd, v, next)
  {
    PowersOf256();
    v := None;
    var tag, p := ReadNumber(2, buf, it, diEnd);
    next := p;
    if tag.None? {
      return;
    }
    SubSlice(buf, it, diEnd, 0, 2);
    var size, q := ReadByte(buf, p, diEnd);
    next := q;
    if size.None? {
      return;
    }
    if diEnd - q != size.value {
      return;
    }
    SubSlice(buf, it, diEnd, 3, diEnd - it);
    v, next := Some(U16VU8(tag.value, buf[q..diEnd])), diEnd;
  }

  /** The cases of the switch that do not nest. */
  method ReadFlat(cfg: Config, t: ValueType, buf: seq<byte>, it: nat, diEnd: nat)
    returns (v: Option<Value>, next: nat)
    requires it <= diEnd <= |buf|
    requires !t.TSub? && !t.TU16Sub?
    ensures ReadsFlat(cfg, t, buf, it, diEnd, v, next)
  {
    if t in {TU8, TU16, TU32, TU64, TU8U8} {
      v, next := ReadNumbers(cfg, t, buf, it, diEnd);
    } else if t in {TA2U16, TU64U64} {
      v, next := ReadPairs(cfg, t, buf, it, diEnd);
    } else if t in {TU8Ipv4, TU8Ipv6, TU8Ipv4U8, TU8Ipv6U8} {
      v, next := ReadAddresses(cfg, t, buf, it, diEnd);
    } else if t in {TU8Ipv4U16, TU8Ipv6U16} {
      v, next := ReadConnectionPoint(cfg, t, buf, it, diEnd);
    } else if t.TU16VU8? {
      v, next := ReadCountedBytes(cfg, buf, it, diEnd);
    } else {
      v, next := ReadTails(cfg, t, buf, it, diEnd);
    }
  }

  /** Reading a non-empty buffer is reading its first item and then the rest. */
  lemma DecodeItemsStep(cfg: Config, scope: Scope, buf: seq<byte>, first: Item, n: nat, rest: Option<seq<Item>>)
    requires buf != [] && n <= |buf|
    requires DecodeItem(cfg, scope, buf) == Some((first, n)) && DecodeItems(cfg, scope, buf[n..]) == rest
    ensures DecodeItems(cfg, scope, buf) == if rest.Some? then Some([first] + rest.value) else None
  {
  }

  /** Reading a buffer whose items are known, followed by more bytes, reads on from there. */
  lemma {:induction false} DecodeItemsContinue(cfg: Config, scope: Scope, a: seq<byte>, b: seq<byte>,
                                               done: seq<Item>, more: Option<seq<Item>>)
    requires DecodeItems(cfg, scope, a) == Some(done)
    requires DecodeItems(cfg, scope, b) == more
    ensures DecodeItems(cfg, scope, a + b) == if more.Some? then Some(done + more.value) else None
    decreases |a|
  {
    hide DecodeItem, DecodeValue;
    if a == [] {
      assert a + b == b;
      assert more.Some? ==> done + more.value == more.value;
    } else {
      var (first, n) := DecodeItem(cfg, scope, a).value;
      var rest := DecodeItems(cfg, scope, a[n..]).value;
      DecodeItemExtends(cfg, scope, a, b);
      DecodeItemsContinue(cfg, scope, a[n..], b, rest, more);
      assert (a + b)[n..] == a[n..] + b;
      DecodeItemsStep(cfg, scope, a + b, first, n, if more.Some? then Some(rest + more.value) else None);
      assert more.Some? ==> done + more.value == [first] + (rest + more.value);
    }
  }

  /** Bytes after an item never change how the item itself is read. */
  lemma DecodeItemExtends(cfg: Config, scope: Scope, buf: seq<byte>, suffix: seq<byte>)
    requires DecodeItem(cfg, scope, buf).Some?
    ensures DecodeItem(cfg, scope, buf + suffix) == DecodeItem(cfg, scope, buf)
  {
    var (id, length) := ReadHeader(cfg, buf).value;
    var i, h := cfg.dataItemIdSize, HeaderSize(cfg);
    var more := buf + suffix;
    assert more[..i] == buf[..i] && more[i..h] == buf[i..h];
    assert more[h..h + length] == buf[h..h + length];
  }

  /** Conversely, an item that ends within a prefix is read from that prefix alone. */
  lemma DecodeItemTruncates(cfg: Config, scope: Scope, buf: seq<byte>)
    requires DecodeItem(cfg, scope, buf).Some?
    ensures var (item, n) := DecodeItem(cfg, scope, buf).value;
            DecodeItem(cfg, scope, buf[..n]) == Some((item, n))
  {
    hide DecodeValue;
    var (id, length) := ReadHeader(cfg, buf).value;
    var i, h := cfg.dataItemIdSize, HeaderSize(cfg);
    var less := buf[..h + length];
    assert less[..i] == buf[..i] && less[i..h] == buf[i..h];
    assert less[h..h + length] == buf[h..h + length];
  }

  lemma NothingLeft(cfg: Config, scope: Scope)
    ensures DecodeItems(cfg, scope, []) == Some([])
  {
  }

  /** One more item read extends the items read so far. */
  lemma ItemRead(cfg: Config, scope: Scope, buf: seq<byte>, it: nat, next: nat, after: nat, end: nat,
                 items: seq<Item>, item: Item)
    requires it <= next < after <= end <= |buf|
    requires DecodeItems(cfg, scope, buf[it..next]) == Some(items)
    requires DecodeItem(cfg, scope, buf[next..end]) == Some((item, after - next))
    ensures DecodeItems(cfg, scope, buf[it..after]) == Some(items + [item])
  {
    hide DecodeItem, DecodeValue, DecodeItems;
    DecodeItemTruncates(cfg, scope, buf[next..end]);
    var one := buf[next..after];
    SubSlice(buf, next, end, 0, after - next);
    assert one[|one|..] == [];
    assert DecodeItems(cfg, scope, []) == Some([]) by {
      NothingLeft(cfg, scope);
    }
    DecodeItemsStep(cfg, scope, one, item, |one|, Some([]));
    assert [item] + [] == [item];
    DecodeItemsContinue(cfg, scope, buf[it..next], one, items, Some([item]));
    assert buf[it..after] == buf[it..next] + one;
  }

  /** Nested items up to the end of their parent. */
  method ReadSubItems(cfg: Config, buf: seq<byte>, it: nat, diEnd: nat, info: DataItemInfo)
    returns (r: Option<seq<Item>>, next: nat)
    requires it <= diEnd <= |buf|
    ensures r == DecodeItems(cfg, Some(info), buf[it..diEnd])
    ensures r.Some? ==> next == diEnd
    decreases diEnd - it, 1
  {
    var items: seq<Item> := [];
    next := it;
    while next < diEnd
      invariant it <= next <= diEnd
      invariant DecodeItems(cfg, Some(info), buf[it..next]) == Some(items)
    {
      ghost var done, tail := buf[it..next], buf[next..diEnd];
      assert buf[it..diEnd] == done + tail;
      var item, after := DeserializeItem(cfg, buf, next, diEnd, Some(info));
      if item.None? {
        DecodeItemsContinue(cfg, Some(info), done, tail, items, None);
        return None, after;
      }
      ItemRead(cfg, Some(info), buf, it, next, after, diEnd, items, item.value);
      items := items + [item.value];
      next := after;
    }
    r := Some(items);
  }

  /** The counted list of nested items, with its reserved byte. */
  method ReadCountedSubItems(cfg: Config, buf: seq<byte>, it: nat, diEnd: nat, info: DataItemInfo)
    returns (v: Option<Value>, next: nat)
    requires it <= diEnd <= |buf| && info.valueType.TU16Sub?
    ensures v == DecodeValue(cfg, info, buf[it..diEnd])
    ensures v.Some? ==> next == diEnd
    decreases diEnd - it, 1
  {
    PowersOf256();
    v := None;
    var tag, p := ReadNumber(2, buf, it, diEnd);
    next := p;
    if tag.None? {
      return;
    }
    SubSlice(buf, it, diEnd, 0, 2);
    var count, q := ReadByte(buf, p, diEnd);
    next := q;
    if count.None? {
      return;
    }
    var reserved, z := ReadByte(buf, q, diEnd);
    next := z;
    if reserved.None? || reserved.value != 0 {
      return;
    }
    SubSlice(buf, it, diEnd, 4, diEnd - it);
    var items, after := ReadSubItems(cfg, buf, z, diEnd, info);
    next := after;
    if items.Some? && |items.value| == count.value {
      v := Some(U16Sub(tag.value, items.value));
    }
  }

  /** Id and length of an item, and where its value starts and has to end. */
  method DeserializeHeader(cfg: Config, buf: seq<byte>, it: nat, itEnd: nat)
    returns (id: Option<u32>, next: nat, diEnd: nat)
    requires it <= itEnd <= |buf|
    ensures id.Some? <==> ReadHeader(cfg, buf[it..itEnd]).Some?
    ensures id.Some? ==> it <= next <= diEnd <= itEnd
    ensures id.Some? ==> next == it + HeaderSize(cfg)
    ensures id.Some? ==> ReadHeader(cfg, buf[it..itEnd]) == Some((id.value, diEnd - next))
  {
    PowersOf256();
    var idStatus, v, p := DeserializeField(buf, 4, cfg.dataItemIdSize, it, itEnd);
    if !idStatus.Ok? {
      if it + cfg.dataItemIdSize <= itEnd {
        SubSlice(buf, it, itEnd, 0, cfg.dataItemIdSize);
      }
      return None, p, p;
    }
    SubSlice(buf, it, itEnd, 0, cfg.dataItemIdSize);
    ValueFitsAnyLength(buf, p, cfg.dataItemLengthSize);
    var lengthStatus, length, q := DeserializeField(buf, 8, cfg.dataItemLengthSize, p, itEnd);
    if !lengthStatus.Ok? {
      return None, q, q;
    }
    SubSlice(buf, it, itEnd, cfg.dataItemIdSize, HeaderSize(cfg));
    if q + length > itEnd {
      return None, q, q;
    }
    return Some(v), q, q + length;
  }

  /** One item from the iterator on; its value must end exactly where its length says. */
  method DeserializeItem(cfg: Config, buf: seq<byte>, it: nat, itEnd: nat, scope: Scope)
    returns (r: Option<Item>, next: nat)
    requires it <= itEnd <= |buf|
    ensures r.Some? <==> DecodeItem(cfg, scope, buf[it..itEnd]).Some?
    ensures r.Some? ==> it <= next <= itEnd && DecodeItem(cfg, scope, buf[it..itEnd]) == Some((r.value, next - it))
    decreases itEnd - it, 0
  {
    hide DecodeFlat, DecodeItems, ReadHeader, NameOfId, InfoOfName, BigEndianValue, Pow256;
    var header, q, diEnd := DeserializeHeader(cfg, buf, it, itEnd);
    if header.None? {
      return None, q;
    }
    var id := header.value;
    SubSlice(buf, it, itEnd, HeaderSize(cfg), diEnd - it);
    var info := InfoOfId(cfg, id, scope);
    if info.None? {
      return None, q;
    }
    var v: Option<Value>;
    if info.value.valueType.TSub? {
      var items, after := ReadSubItems(cfg, buf, q, diEnd, info.value);
      next := after;
      v := if items.Some? then Some(Sub(items.value)) else None;
    } else if info.value.valueType.TU16Sub? {
      v, next := ReadCountedSubItems(cfg, buf, q, diEnd, info.value);
    } else {
      v, next := ReadFlat(cfg, info.value.valueType, buf, q, diEnd);
    }
    if v.None? || next != diEnd {
      return None, next;
    }
    return Some(Item(id, v.value)), next;
  }

  /** A length field of up to eight bytes always fits the C++ size type. */
  lemma ValueFitsAnyLength(buf: seq<byte>, p: nat, n: FieldSize)
    ensures p + n <= |buf| ==> BigEndianValue(buf[p..p + n]) < Pow256(8)
  {
    if p + n <= |buf| {
      ValueFitsLength(buf[p..p + n]);
      Pow256Monotonic(n, 8);
    }
  }
}
