/**
 The layout of items and messages, byte by byte (sections 11.2, 11.3 and 13 of RFC 8175): which
 field stands at which offset, and which byte of it comes first.  This is a definition of its own,
 as a relation between a value and bytes; what the serializer of `WireFormat` writes and what
 `ProtocolMessage` frames is proved to be exactly that.
 */
module WireLayout {
  import opened Wrappers
  import opened Serialize
  import opened ProtocolConfig
  import opened DataItem
  import opened WireFormat
  import opened ProtocolMessage

  /** The n bytes from `at` on are the number x, most significant byte first. */
  ghost predicate NumberAt(b: seq<byte>, at: nat, n: nat, x: nat) {
    && at + n <= |b|
    && x < Pow256(n)
    && var field := b[at..at + n];
       forall k :: 0 <= k < n ==> field[k] == ShiftRight(x, n - 1 - k) % 256
  }

  /** The bytes from `at` on start with these. */
  predicate BytesAt(b: seq<byte>, at: nat, bytes: seq<byte>) {
    at + |bytes| <= |b| && b[at..at + |bytes|] == bytes
  }

  /** Numbers of n bytes each, one after the other. */
  ghost predicate NumbersAt(b: seq<byte>, n: nat, xs: seq<u32>) {
    && |b| == n * |xs|
    && forall i: nat :: i < |xs| ==> NumberAt(b, n * i, n, xs[i])
  }

  ghost predicate FlatLaidOut(cfg: Config, v: Value, b: seq<byte>)
    requires !v.Sub? && !v.U16Sub?
  {
    match v
    case Blank => |b| == 0
    case U8(x) => |b| == 1 && b[0] == x
    case U16(x) => |b| == 2 && NumberAt(b, 0, 2, x)
    case U32(x) => |b| == 4 && NumberAt(b, 0, 4, x)
    case U64(x) => |b| == 8 && NumberAt(b, 0, 8, x)
    case VU8(bytes) => |b| == |bytes| && BytesAt(b, 0, bytes)
    case VU32(words) => NumbersAt(b, 4, words)
    case A2U16(x, y) => |b| == 4 && NumberAt(b, 0, 2, x) && NumberAt(b, 2, 2, y)
    case Str(text) => |b| == |text| && BytesAt(b, 0, text)
    case MacAddr(mac) => |b| == |mac| && BytesAt(b, 0, mac)
    case U8String(x, text) => |b| == 1 + |text| && b[0] == x && BytesAt(b, 1, text)
    case U8Ipv4(x, ip) => |b| == 5 && b[0] == x && BytesAt(b, 1, ip)
    case U8Ipv6(x, ip) => |b| == 17 && b[0] == x && BytesAt(b, 1, ip)
    case U16VU8(x, bytes) =>
      |b| == 3 + |bytes| && NumberAt(b, 0, 2, x) && b[2] == |bytes| && BytesAt(b, 3, bytes)
    case VExtId(ids) => NumbersAt(b, cfg.extensionIdSize, ids)
    case U8Ipv4U16(x, ip, port) =>
      |b| == (if port == 0 then 5 else 7) && b[0] == x && BytesAt(b, 1, ip) && (port != 0 ==> NumberAt(b, 5, 2, port))
    case U8Ipv6U16(x, ip, port) =>
      && |b| == (if port == 0 then 17 else 19)
      && b[0] == x && BytesAt(b, 1, ip) && (port != 0 ==> NumberAt(b, 17, 2, port))
    case U8Ipv4U8(x, ip, mask) => |b| == 6 && b[0] == x && BytesAt(b, 1, ip) && b[5] == mask
    case U8Ipv6U8(x, ip, mask) => |b| == 18 && b[0] == x && BytesAt(b, 1, ip) && b[17] == mask
    case U8U8(x, y) => |b| == 2 && b[0] == x && b[1] == y
    case U64U64(x, y) => |b| == 16 && NumberAt(b, 0, 8, x) && NumberAt(b, 8, 8, y)
  }

  ghost predicate ValueLaidOut(cfg: Config, v: Value, b: seq<byte>)
    decreases v, 0
  {
    match v
    case Sub(items) => ItemsLaidOut(cfg, items, b)
    case U16Sub(x, items) =>
      |b| >= 4 && NumberAt(b, 0, 2, x) && b[2] == |items| && b[3] == 0 && ItemsLaidOut(cfg, items, b[4..])
    case _ => FlatLaidOut(cfg, v, b)
  }

  /** The id, then the number of bytes that follow, then these. */
  ghost predicate ItemLaidOut(cfg: Config, item: Item, b: seq<byte>)
    decreases item, 1
  {
    var i, l := cfg.dataItemIdSize, cfg.dataItemLengthSize;
    && i + l <= |b|
    && NumberAt(b, 0, i, item.id)
    && NumberAt(b, i, l, |b| - (i + l))
    && ValueLaidOut(cfg, item.value, b[i + l..])
  }

  /** One item after the other, with nothing between or behind them. */
  ghost predicate ItemsLaidOut(cfg: Config, items: seq<Item>, b: seq<byte>)
    decreases items, 2
  {
    if items == [] then b == []
    else exists n :: 0 <= n <= |b| && ItemLaidOut(cfg, items[0], b[..n]) && ItemsLaidOut(cfg, items[1..], b[n..])
  }

  // ---- Numbers

  /** Byte k of a field of n bytes is the digit of that weight. */
  lemma ByteOfBigEndian(v: nat, n: nat, k: nat)
    requires k < n
    ensures BigEndian(v, n)[k] == ShiftRight(v, n - 1 - k) % 256
  {
    BigEndianPrefix(v, n, k + 1);
    assert BigEndian(v, n)[k] == BigEndian(v, n)[..k + 1][k];
  }

  /** A number is laid out exactly where its field is. */
  lemma NumberAtExactly(b: seq<byte>, at: nat, n: nat, x: nat)
    ensures NumberAt(b, at, n, x) <==> at + n <= |b| && Field(x, n) == Some(b[at..at + n])
  {
    hide BigEndian, ShiftRight, Pow256;
    if at + n <= |b| {
      var field := b[at..at + n];
      forall k | 0 <= k < n
        ensures BigEndian(x, n)[k] == ShiftRight(x, n - 1 - k) % 256
      {
        ByteOfBigEndian(x, n, k);
      }
      if NumberAt(b, at, n, x) {
        assert field == BigEndian(x, n);
      }
    }
  }

  /** Moving the start moves the offsets. */
  lemma NumberAtShifts(b: seq<byte>, n: nat, at: nat, size: nat, x: nat)
    requires n <= |b|
    ensures NumberAt(b, n + at, size, x) <==> NumberAt(b[n..], at, size, x)
  {
    if n + at + size <= |b| {
      assert b[n + at..n + at + size] == b[n..][at..at + size];
    }
  }

  lemma {:induction false} NumbersAtExactly(b: seq<byte>, n: nat, xs: seq<u32>)
    ensures NumbersAt(b, n, xs) <==> Fields(xs, n) == Some(b)
  {
    hide NumberAt, Field;
    FieldsExactly(xs, n);
    if xs != [] {
      var rest := xs[1..];
      assert n * |xs| == n + n * |rest|;
      if |b| == n * |xs| {
        NumberAtExactly(b, 0, n, xs[0]);
        NumbersAtExactly(b[n..], n, rest);
        forall i: nat | i < |rest|
          ensures NumberAt(b, n * (i + 1), n, xs[i + 1]) <==> NumberAt(b[n..], n * i, n, rest[i])
        {
          assert n * (i + 1) == n + n * i;
          NumberAtShifts(b, n, n * i, n, rest[i]);
        }
        NumbersAtSplits(b, n, xs);
        assert b == b[..n] + b[n..];
        FieldsSplit(b, n, xs);
      }
    }
  }

  lemma NumbersAtSplits(b: seq<byte>, n: nat, xs: seq<u32>)
    requires xs != [] && |b| == n * |xs| && n <= |b|
    requires forall i: nat :: i < |xs| - 1 ==>
               (NumberAt(b, n * (i + 1), n, xs[i + 1]) <==> NumberAt(b[n..], n * i, n, xs[1..][i]))
    ensures NumbersAt(b, n, xs) <==> NumberAt(b, 0, n, xs[0]) && NumbersAt(b[n..], n, xs[1..])
  {
    hide NumberAt;
    assert n * |xs| == n + n * (|xs| - 1);
    assert n * 0 == 0;
    if NumbersAt(b, n, xs) {
      forall i: nat | i < |xs| - 1
        ensures NumberAt(b[n..], n * i, n, xs[1..][i])
      {
        assert NumberAt(b, n * (i + 1), n, xs[i + 1]);
      }
    }
    if NumberAt(b, 0, n, xs[0]) && NumbersAt(b[n..], n, xs[1..]) {
      forall i: nat | i < |xs|
        ensures NumberAt(b, n * i, n, xs[i])
      {
        if i > 0 {
          var j: nat := i - 1;
          assert NumberAt(b[n..], n * j, n, xs[1..][j]);
          assert n * (j + 1) == n * i;
        }
      }
    }
  }

  lemma FieldsSplit(b: seq<byte>, n: nat, xs: seq<u32>)
    requires xs != [] && n <= |b|
    ensures Fields(xs, n) == Some(b) <==> Field(xs[0], n) == Some(b[..n]) && Fields(xs[1..], n) == Some(b[n..])
  {
    hide Pow256, BigEndian;
    if Field(xs[0], n).Some? && Fields(xs[1..], n).Some? {
      var first, rest := Field(xs[0], n).value, Fields(xs[1..], n).value;
      assert |first| == n;
      assert (first + rest)[..n] == first && (first + rest)[n..] == rest;
      assert b == b[..n] + b[n..];
    }
  }

  // ---- Values, items and messages

  /** Bytes that are two parts put together are the parts, each in its place. */
  lemma TwoParts(b: seq<byte>, x: seq<byte>, y: seq<byte>)
    ensures b == x + y <==> |b| == |x| + |y| && b[..|x|] == x && b[|x|..] == y
  {
    if |b| == |x| + |y| && b[..|x|] == x && b[|x|..] == y {
      assert b == b[..|x|] + b[|x|..];
    }
  }

  lemma ThreeParts(b: seq<byte>, x: seq<byte>, y: seq<byte>, z: seq<byte>)
    ensures b == x + y + z <==>
            && |b| == |x| + |y| + |z|
            && b[..|x|] == x && b[|x|..|x| + |y|] == y && b[|x| + |y|..] == z
  {
    if |b| == |x| + |y| + |z| && b[..|x|] == x && b[|x|..|x| + |y|] == y && b[|x| + |y|..] == z {
      assert b == b[..|x|] + b[|x|..|x| + |y|] + b[|x| + |y|..];
    }
  }

  lemma OneByte(x: byte)
    ensures BigEndian(x, 1) == [x]
  {
    assert BigEndian(x / 256, 0) == [];
  }

  lemma NumbersExactly(cfg: Config, v: Value, b: seq<byte>)
    requires v.U8? || v.U16? || v.U32? || v.U64? || v.A2U16? || v.U64U64?
    ensures FlatLaidOut(cfg, v, b) <==> EncodeFlat(cfg, v) == Some(b)
  {
    hide BigEndian, NumberAt, Pow256;
    PowersOf256();
    match v
    case U8(x) =>
      OneByte(x);
      assert |b| == 1 ==> b == [b[0]];
    case U16(x) => WholeNumber(b, 2, x);
    case U32(x) => WholeNumber(b, 4, x);
    case U64(x) => WholeNumber(b, 8, x);
    case A2U16(x, y) =>
      NumberAtExactly(b, 0, 2, x);
      NumberAtExactly(b, 2, 2, y);
      TwoParts(b, BigEndian(x, 2), BigEndian(y, 2));
      assert |b| == 4 ==> b[0..2] == b[..2] && b[2..4] == b[2..];
    case U64U64(x, y) =>
      NumberAtExactly(b, 0, 8, x);
      NumberAtExactly(b, 8, 8, y);
      TwoParts(b, BigEndian(x, 8), BigEndian(y, 8));
      assert |b| == 16 ==> b[0..8] == b[..8] && b[8..16] == b[8..];
  }

  lemma WholeNumber(b: seq<byte>, n: nat, x: nat)
    requires x < Pow256(n)
    ensures |b| == n && NumberAt(b, 0, n, x) <==> b == BigEndian(x, n)
  {
    NumberAtExactly(b, 0, n, x);
    assert |b| == n ==> b[0..n] == b;
  }

  lemma AddressesExactly(cfg: Config, v: Value, b: seq<byte>)
    requires v.U8Ipv4? || v.U8Ipv6? || v.U8Ipv4U8? || v.U8Ipv6U8?
    ensures FlatLaidOut(cfg, v, b) <==> EncodeFlat(cfg, v) == Some(b)
  {
    match v
    case U8Ipv4(x, ip) => TwoParts(b, [x], ip);
    case U8Ipv6(x, ip) => TwoParts(b, [x], ip);
    case U8Ipv4U8(x, ip, mask) => ThreeParts(b, [x], ip, [mask]);
    case U8Ipv6U8(x, ip, mask) => ThreeParts(b, [x], ip, [mask]);
  }

  lemma ConnectionPointsExactly(cfg: Config, v: Value, b: seq<byte>)
    requires v.U8Ipv4U16? || v.U8Ipv6U16?
    ensures FlatLaidOut(cfg, v, b) <==> EncodeFlat(cfg, v) == Some(b)
  {
    hide BigEndian, NumberAt, Pow256;
    PowersOf256();
    var ip: seq<byte> := if v.U8Ipv4U16? then v.ip4 else v.ip6;
    var n := 1 + |ip|;
    ThreeParts(b, [v.field1], ip, Port(v.port));
    if v.port != 0 {
      NumberAtExactly(b, n, 2, v.port);
      assert |b| == n + 2 ==> b[n..n + 2] == b[n..];
    } else {
      assert |b| == n ==> b[n..] == [];
    }
  }

  lemma VectorsExactly(cfg: Config, v: Value, b: seq<byte>)
    requires v.VU32? || v.VExtId? || v.U16VU8?
    ensures FlatLaidOut(cfg, v, b) <==> EncodeFlat(cfg, v) == Some(b)
  {
    hide BigEndian, NumberAt, Pow256, NumbersAt, Fields;
    PowersOf256();
    match v
    case VU32(words) => NumbersAtExactly(b, 4, words);
    case VExtId(ids) => NumbersAtExactly(b, cfg.extensionIdSize, ids);
    case U16VU8(x, bytes) =>
      NumberAtExactly(b, 0, 2, x);
      if |bytes| < 256 {
        OneByte(|bytes|);
        ThreeParts(b, BigEndian(x, 2), [|bytes|], bytes);
        assert |b| >= 3 ==> b[0..2] == b[..2] && b[2..3] == [b[2]];
      }
  }

  /** The bytes of a value without items are those laid out, and no others. */
  lemma FlatExactly(cfg: Config, v: Value, b: seq<byte>)
    requires !v.Sub? && !v.U16Sub?
    ensures FlatLaidOut(cfg, v, b) <==> EncodeFlat(cfg, v) == Some(b)
  {
    assert b[0..|b|] == b;
    match v
    case Blank =>
    case VU8(bytes) =>
    case Str(text) =>
    case MacAddr(mac) =>
    case VU32(_) => VectorsExactly(cfg, v, b);
    case VExtId(_) => VectorsExactly(cfg, v, b);
    case U16VU8(_, _) => VectorsExactly(cfg, v, b);
    case U8Ipv4U16(_, _, _) => ConnectionPointsExactly(cfg, v, b);
    case U8Ipv6U16(_, _, _) => ConnectionPointsExactly(cfg, v, b);
    case U8Ipv4(_, _) => AddressesExactly(cfg, v, b);
    case U8Ipv6(_, _) => AddressesExactly(cfg, v, b);
    case U8Ipv4U8(_, _, _) => AddressesExactly(cfg, v, b);
    case U8Ipv6U8(_, _, _) => AddressesExactly(cfg, v, b);
    case U8U8(x, y) => assert |b| == 2 ==> b == [b[0], b[1]];
    case U8String(x, text) => TwoParts(b, [x], text);
    case _ => NumbersExactly(cfg, v, b);
  }

  lemma {:induction false} ValueLaidOutExactly(cfg: Config, v: Value, b: seq<byte>)
    ensures ValueLaidOut(cfg, v, b) <==> EncodeValue(cfg, v) == Some(b)
    decreases v, 0
  {
    hide FlatLaidOut, EncodeFlat, EncodeItems, ItemsLaidOut, BigEndian, NumberAt;
    if v.Sub? {
      ItemsLaidOutExactly(cfg, v.items, b);
    } else if v.U16Sub? {
      if |b| >= 4 {
        ItemsLaidOutExactly(cfg, v.items, b[4..]);
      }
      if EncodeItems(cfg, v.items).Some? && |v.items| <= 255 {
        CountedExactly(v.tag, |v.items|, EncodeItems(cfg, v.items).value, b);
      }
    } else {
      FlatExactly(cfg, v, b);
    }
  }

  /** A tag, a count, the reserved zero, and the rest. */
  lemma CountedExactly(x: u16, count: byte, body: seq<byte>, b: seq<byte>)
    ensures |b| >= 4 && NumberAt(b, 0, 2, x) && b[2] == count && b[3] == 0 && b[4..] == body <==>
            b == BigEndian(x, 2) + [count, 0] + body
  {
    hide BigEndian, NumberAt, Pow256;
    PowersOf256();
    NumberAtExactly(b, 0, 2, x);
    ThreeParts(b, BigEndian(x, 2), [count, 0], body);
    if |b| >= 4 {
      assert b[0..2] == b[..2] && b[2..4] == [b[2], b[3]];
    }
  }

  /**
   The bytes an item is serialized to are exactly those that are laid out as its id, its length
   and its value, at every level of nesting; there are none exactly if it cannot be serialized.
   */
  lemma {:induction false} ItemLaidOutExactly(cfg: Config, item: Item, b: seq<byte>)
    ensures ItemLaidOut(cfg, item, b) <==> EncodeItem(cfg, item) == Some(b)
    decreases item, 1
  {
    hide EncodeValue, ValueLaidOut, BigEndian, NumberAt, Pow256;
    var i, l := cfg.dataItemIdSize, cfg.dataItemLengthSize;
    if i + l <= |b| {
      var value := b[i + l..];
      ValueLaidOutExactly(cfg, item.value, value);
      NumberAtExactly(b, 0, i, item.id);
      NumberAtExactly(b, i, l, |value|);
      assert b[0..i] == b[..i];
      assert b == b[..i] + b[i..i + l] + value;
    }
    if EncodeItem(cfg, item).Some? {
      var value := EncodeValue(cfg, item.value).value;
      ThreeParts(b, BigEndian(item.id, i), BigEndian(|value|, l), value);
    }
  }

  lemma {:induction false} ItemsLaidOutExactly(cfg: Config, items: seq<Item>, b: seq<byte>)
    ensures ItemsLaidOut(cfg, items, b) <==> EncodeItems(cfg, items) == Some(b)
    decreases items, 2
  {
    hide EncodeItem, ItemLaidOut;
    if items != [] {
      forall n | 0 <= n <= |b|
        ensures ItemLaidOut(cfg, items[0], b[..n]) <==> EncodeItem(cfg, items[0]) == Some(b[..n])
        ensures ItemsLaidOut(cfg, items[1..], b[n..]) <==> EncodeItems(cfg, items[1..]) == Some(b[n..])
      {
        ItemLaidOutExactly(cfg, items[0], b[..n]);
        ItemsLaidOutExactly(cfg, items[1..], b[n..]);
      }
      if EncodeItems(cfg, items) == Some(b) {
        var first, rest := EncodeItem(cfg, items[0]).value, EncodeItems(cfg, items[1..]).value;
        assert b == first + rest;
        assert b[..|first|] == first && b[|first|..] == rest;
        assert ItemLaidOut(cfg, items[0], b[..|first|]) && ItemsLaidOut(cfg, items[1..], b[|first|..]);
      }
      if ItemsLaidOut(cfg, items, b) {
        var n :| 0 <= n <= |b| && ItemLaidOut(cfg, items[0], b[..n]) && ItemsLaidOut(cfg, items[1..], b[n..]);
        assert b == b[..n] + b[n..];
      }
    }
  }

  /** So what is deserialized from bytes without a spelled-out zero port is what they lay out. */
  lemma AcceptedIsLaidOut(cfg: Config, scope: Scope, buf: seq<byte>)
    requires DecodeItem(cfg, scope, buf).Some?
    ensures var (item, n) := DecodeItem(cfg, scope, buf).value;
            ItemLaidOut(cfg, item, buf[..n]) <==> ZeroPortsAt(cfg, scope, buf) == 0
  {
    hide EncodeItem, DecodeItem, ItemLaidOut, ZeroPortsAt, WellTyped;
    ItemNormalForm(cfg, scope, buf);
    var (item, n) := DecodeItem(cfg, scope, buf).value;
    ItemLaidOutExactly(cfg, item, buf[..n]);
  }

  /** A message: the prefix of a signal, the id, the number of bytes behind the header, the items. */
  ghost predicate MessageLaidOut(cfg: Config, isSignal: bool, id: u32, items: seq<Item>, b: seq<byte>) {
    var p := if isSignal then |cfg.signalPrefix| else 0;
    var h := p + cfg.signalIdSize + cfg.signalLengthSize;
    && h <= |b|
    && (isSignal ==> BytesAt(b, 0, cfg.signalPrefix))
    && NumberAt(b, p, cfg.signalIdSize, id)
    && NumberAt(b, p + cfg.signalIdSize, cfg.signalLengthSize, |b| - h)
    && ItemsLaidOut(cfg, items, b[h..])
  }

  /** The frame of a message's serialized items is the one byte string that is laid out as the message. */
  lemma MessageLaidOutExactly(cfg: Config, isSignal: bool, id: u32, items: seq<Item>, b: seq<byte>)
    ensures MessageLaidOut(cfg, isSignal, id, items, b) <==>
            && EncodeItems(cfg, items).Some?
            && var body := EncodeItems(cfg, items).value;
               Framable(cfg, id, |body|) && b == Frame(cfg, isSignal, id, body)
  {
    hide EncodeItems, ItemsLaidOut, BigEndian, NumberAt, Pow256;
    var p, l, h := |Prefix(cfg, isSignal)|, LengthIndex(cfg, isSignal), MessageHeaderSize(cfg, isSignal);
    if h <= |b| {
      ItemsLaidOutExactly(cfg, items, b[h..]);
      NumberAtExactly(b, p, cfg.signalIdSize, id);
      NumberAtExactly(b, l, cfg.signalLengthSize, |b| - h);
      assert b[0..p] == b[..p];
      assert b == b[..p] + b[p..l] + b[l..h] + b[h..];
    }
    if EncodeItems(cfg, items).Some? {
      var body := EncodeItems(cfg, items).value;
      FrameSlices(cfg, isSignal, id, body, []);
      assert Frame(cfg, isSignal, id, body) + [] == Frame(cfg, isSignal, id, body) && body + [] == body;
    }
  }

  /** The header of a session message: its id, and how many bytes follow. */
  ghost predicate HeaderLaidOut(cfg: Config, b: seq<byte>, id: u32, length: nat) {
    NumberAt(b, 0, cfg.signalIdSize, id) && NumberAt(b, cfg.signalIdSize, cfg.signalLengthSize, length)
  }

  /** A session buffer starts with a whole message of a size exactly if its header says so and the bytes are there. */
  lemma CompleteExactly(cfg: Config, buf: seq<byte>, size: nat)
    ensures FrontMessage(cfg, buf) == Complete(size) <==>
            exists id: u32, length: nat ::
              HeaderLaidOut(cfg, buf, id, length) && size == cfg.signalIdSize + cfg.signalLengthSize + length <= |buf|
  {
    hide BigEndian, BigEndianValue, NumberAt, Pow256;
    var i, h := cfg.signalIdSize, cfg.signalIdSize + cfg.signalLengthSize;
    if |buf| >= h {
      var a, c := buf[..i], buf[i..h];
      assert buf[0..i] == a;
      ValueFitsLength(a);
      ValueFitsLength(c);
      BigEndianOfValue(a);
      BigEndianOfValue(c);
      NumberAtExactly(buf, 0, i, BigEndianValue(a));
      NumberAtExactly(buf, i, h - i, BigEndianValue(c));
      if FrontMessage(cfg, buf) == Complete(size) {
        assert HeaderLaidOut(cfg, buf, BigEndianValue(a), BigEndianValue(c));
      }
    }
    if id: u32, length: nat :| HeaderLaidOut(cfg, buf, id, length) && size == h + length <= |buf| {
      NumberAtExactly(buf, 0, i, id);
      NumberAtExactly(buf, i, h - i, length);
      ValueOfBigEndian(id, i);
      ValueOfBigEndian(length, h - i);
    }
  }
}
