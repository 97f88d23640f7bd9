/**
 Building, framing and parsing whole messages (ProtocolMessage.cpp; sections 11.1 to 11.3 of
 RFC 8175).  A message is an optional signal prefix, an id, the length of what follows, and items.
 */
module ProtocolMessage {
  import opened Wrappers
  import opened Serialize
  import opened ProtocolConfig
  import opened DataItem
  import opened TextFormat
  import opened WireFormat
  import opened WireReader
  import opened Validation

  function Prefix(cfg: Config, isSignal: bool): seq<byte> {
    if isSignal then cfg.signalPrefix else []
  }

  function LengthIndex(cfg: Config, isSignal: bool): nat {
    |Prefix(cfg, isSignal)| + cfg.signalIdSize
  }

  function MessageHeaderSize(cfg: Config, isSignal: bool): nat {
    LengthIndex(cfg, isSignal) + cfg.signalLengthSize
  }

  /** The bytes of a message with a given id and serialized items. */
  function Frame(cfg: Config, isSignal: bool, id: u32, body: seq<byte>): seq<byte> {
    Prefix(cfg, isSignal) + BigEndian(id, cfg.signalIdSize) + BigEndian(|body|, cfg.signalLengthSize) + body
  }

  /** An id and a body length that the header fields can hold. */
  predicate Framable(cfg: Config, id: u32, length: nat) {
    id < Pow256(cfg.signalIdSize) && length < Pow256(cfg.signalLengthSize)
  }

  predicate KnownId(cfg: Config, isSignal: bool, id: u32) {
    if isSignal then id in cfg.signalNames else id in cfg.messageNames
  }

  /**
   What parsing a buffer yields.  The length in the header is read but not compared with anything.
   Each item is also written as text for the log, and an exception of that writing is a parse error.
   */
  function ParseMessage(cfg: Config, isSignal: bool, buf: seq<byte>): Option<(u32, seq<Item>)> {
    var p := Prefix(cfg, isSignal);
    if isSignal && (|buf| <= |p| || buf[..|p|] != p) then None
    else if |buf| < MessageHeaderSize(cfg, isSignal) then None
    else
      var id :- ReadU32(buf[|p|..LengthIndex(cfg, isSignal)]);
      if !KnownId(cfg, isSignal, id) then None
      else
        var items :- DecodeItems(cfg, None, buf[MessageHeaderSize(cfg, isSignal)..]);
        if AllHaveText(cfg, items, None) then Some((id, items)) else None
  }

  /** Whether the front of a byte stream holds a whole message. */
  datatype Framing =
    | Incomplete
    | BadId                  // the id field overflows the id type, which throws
    | Complete(size: nat)

  /** Judged by the header alone; session messages carry no prefix. */
  function FrontMessage(cfg: Config, buf: seq<byte>): (r: Framing)
    ensures r.Complete? ==> cfg.signalIdSize + cfg.signalLengthSize <= r.size <= |buf|
  {
    var i, h := cfg.signalIdSize, cfg.signalIdSize + cfg.signalLengthSize;
    if |buf| < h then Incomplete
    else if ReadU32(buf[..i]).None? then BadId
    else
      var size := h + BigEndianValue(buf[i..h]);
      if size <= |buf| then Complete(size) else Incomplete
  }

  /** The checks on a parsed message: its sender, its item counts, and every item. */
  ghost predicate MessageValid(cfg: Config, isSignal: bool, modemSender: bool, id: u32, items: seq<Item>) {
    var info := InfoOfMessage(cfg, isSignal, id);
    && info.Some?
    && (if modemSender then info.value.modemSends else info.value.routerSends)
    && OccurrencesOk(items, info.value.dataItems)
    && AllValidate(cfg, None, items)
  }

  /** The definition that a message is checked against. */
  function InfoOfMessage(cfg: Config, isSignal: bool, id: u32): Option<SignalInfo> {
    if !KnownId(cfg, isSignal, id) then None
    else
      var name := if isSignal then cfg.signalNames[id] else cfg.messageNames[id];
      if name in cfg.signalInfos then Some(cfg.signalInfos[name]) else None
  }

  /** The definition of a message is the one under the name that its id has among its kind. */
  predicate DefinedAs(cfg: Config, isSignal: bool, id: u32, info: SignalInfo) {
    var names := if isSignal then cfg.signalNames else cfg.messageNames;
    id in names && names[id] in cfg.signalInfos && cfg.signalInfos[names[id]] == info
  }

  /**
   For definitions whose listed ids are distinct, a message is valid exactly when its sender may
   send it, every listed item occurs as often as its rule admits, nothing else occurs, and every
   node of every item tree is right on its own.
   */
  lemma MessageValidExactly(cfg: Config, isSignal: bool, modemSender: bool, id: u32, items: seq<Item>, info: SignalInfo)
    requires DefinedAs(cfg, isSignal, id, info)
    requires forall i, j :: 0 <= i < j < |info.dataItems| ==> info.dataItems[i].id != info.dataItems[j].id
    ensures MessageValid(cfg, isSignal, modemSender, id, items) <==>
              && (if modemSender then info.modemSends else info.routerSends)
              && (forall item :: item in items ==> IsListed(info.dataItems, item.id))
              && (forall k :: 0 <= k < |info.dataItems| ==>
                    var n := |PlacesOf(items, info.dataItems[k].id)|;
                    && (info.dataItems[k].occurs == ExactlyOne ==> n == 1)
                    && (info.dataItems[k].occurs == OneOrMore ==> n >= 1)
                    && (info.dataItems[k].occurs == ZeroOrOne ==> n <= 1))
              && (forall node :: node in NodesOf(cfg, None, items) ==> NodeOk(cfg, node))
  {
    hide OccurrencesOk, AllValidate, NodesOf, NodeOk, PlacesOf;
    OccurrencesAreExact(items, info.dataItems);
    ValidateAllNodes(cfg, None, items);
  }

  /** A message without a definition is never valid. */
  lemma UndefinedIsInvalid(cfg: Config, isSignal: bool, modemSender: bool, id: u32, items: seq<Item>)
    requires forall info :: !DefinedAs(cfg, isSignal, id, info)
    ensures !MessageValid(cfg, isSignal, modemSender, id, items)
  {
    hide OccurrencesOk, AllValidate;
    var info := InfoOfMessage(cfg, isSignal, id);
    assert info.Some? ==> DefinedAs(cfg, isSignal, id, info.value);
  }

  // ---- Building and parsing undo each other ----

  lemma FrameSlices(cfg: Config, isSignal: bool, id: u32, body: seq<byte>, suffix: seq<byte>)
    ensures var buf := Frame(cfg, isSignal, id, body) + suffix;
            var p, l, h := |Prefix(cfg, isSignal)|, LengthIndex(cfg, isSignal), MessageHeaderSize(cfg, isSignal);
            && |Frame(cfg, isSignal, id, body)| == h + |body|
            && buf[..p] == Prefix(cfg, isSignal)
            && buf[p..l] == BigEndian(id, cfg.signalIdSize)
            && buf[l..h] == BigEndian(|body|, cfg.signalLengthSize)
            && buf[h..] == body + suffix
  {
    var p, i, n := Prefix(cfg, isSignal), BigEndian(id, cfg.signalIdSize), BigEndian(|body|, cfg.signalLengthSize);
    var buf := Frame(cfg, isSignal, id, body) + suffix;
    assert buf == p + i + (n + body + suffix);
    Split(p, i, n + body + suffix);
    assert buf == (p + i) + n + (body + suffix);
    Split(p + i, n, body + suffix);
  }

  /** Parsing a built message returns the id and the items that went in, if they have a text, and fails otherwise. */
  lemma BuiltMessageParses(cfg: Config, isSignal: bool, id: u32, items: seq<Item>)
    requires KnownId(cfg, isSignal, id)
    requires AllWellTyped(cfg, None, items) && EncodeItems(cfg, items).Some?
    requires Framable(cfg, id, |EncodeItems(cfg, items).value|)
    ensures ParseMessage(cfg, isSignal, Frame(cfg, isSignal, id, EncodeItems(cfg, items).value)) ==
            if AllHaveText(cfg, items, None) then Some((id, items)) else None
  {
    var body := EncodeItems(cfg, items).value;
    var buf := Frame(cfg, isSignal, id, body);
    FrameSlices(cfg, isSignal, id, body, []);
    assert buf + [] == buf && body + [] == body;
    ValueOfBigEndian(id, cfg.signalIdSize);
    ItemsRoundTrip(cfg, None, items);
  }

  /** A valid message that fits its fields is received as it was built, and is valid there too. */
  lemma ValidMessageIsReceivedValid(cfg: Config, isSignal: bool, modemSender: bool, id: u32, items: seq<Item>)
    requires MessageValid(cfg, isSignal, modemSender, id, items)
    requires EncodeItems(cfg, items).Some? && Framable(cfg, id, |EncodeItems(cfg, items).value|)
    ensures var parsed := ParseMessage(cfg, isSignal, Frame(cfg, isSignal, id, EncodeItems(cfg, items).value));
            && parsed.Some?
            && MessageValid(cfg, isSignal, modemSender, parsed.value.0, parsed.value.1)
  {
    hide EncodeItems, ParseMessage, Frame, OccurrencesOk, AllValidate, AllWellTyped, AllHaveText;
    AllValidImplyWellTyped(cfg, None, items);
    AllValidImplyHaveText(cfg, None, items);
    BuiltMessageParses(cfg, isSignal, id, items);
  }

  /** Whatever follows a built session message, framing finds exactly its own bytes. */
  lemma BuiltMessageFrames(cfg: Config, id: u32, body: seq<byte>, suffix: seq<byte>)
    requires Framable(cfg, id, |body|)
    ensures FrontMessage(cfg, Frame(cfg, false, id, body) + suffix) == Complete(|Frame(cfg, false, id, body)|)
  {
    FrameSlices(cfg, false, id, body, suffix);
    var buf := Frame(cfg, false, id, body) + suffix;
    assert buf[..cfg.signalIdSize] == buf[0..cfg.signalIdSize];
    ValueOfBigEndian(id, cfg.signalIdSize);
    ValueOfBigEndian(|body|, cfg.signalLengthSize);
  }

  /** Parsing never looks at the announced length: any other length parses alike. */
  lemma ParseIgnoresLength(cfg: Config, isSignal: bool, id: u32, length: seq<byte>, length': seq<byte>, body: seq<byte>)
    requires |length| == |length'| == cfg.signalLengthSize
    ensures var head := Prefix(cfg, isSignal) + BigEndian(id, cfg.signalIdSize);
            ParseMessage(cfg, isSignal, head + length + body) == ParseMessage(cfg, isSignal, head + length' + body)
  {
    var head := Prefix(cfg, isSignal) + BigEndian(id, cfg.signalIdSize);
    var p, l := |Prefix(cfg, isSignal)|, LengthIndex(cfg, isSignal);
    var a, b := head + length + body, head + length' + body;
    Split(head, length, body);
    Split(head, length', body);
    assert a[..p] == a[..l][..p] && b[..p] == b[..l][..p];
    assert a[p..l] == a[..l][p..] && b[p..l] == b[..l][p..];
  }

  /** Accepted message bytes, framed anew around their items, parse to the same message. */
  lemma ParsedMessageRebuilds(cfg: Config, isSignal: bool, buf: seq<byte>)
    requires ParseMessage(cfg, isSignal, buf).Some?
    ensures var (id, items) := ParseMessage(cfg, isSignal, buf).value;
            && EncodeItems(cfg, items).Some?
            && var body := EncodeItems(cfg, items).value;
               && |body| <= |buf| - MessageHeaderSize(cfg, isSignal)
               && (Framable(cfg, id, |body|) ==>
                     ParseMessage(cfg, isSignal, Frame(cfg, isSignal, id, body)) == Some((id, items)))
  {
    var (id, items) := ParseMessage(cfg, isSignal, buf).value;
    ItemsNormalForm(cfg, None, buf[MessageHeaderSize(cfg, isSignal)..]);
    if Framable(cfg, id, |EncodeItems(cfg, items).value|) {
      BuiltMessageParses(cfg, isSignal, id, items);
    }
  }

  lemma {:induction false} EncodeItemsAppend(cfg: Config, items: seq<Item>, item: Item)
    requires EncodeItems(cfg, items).Some? && EncodeItem(cfg, item).Some?
    ensures EncodeItems(cfg, items + [item]) == Some(EncodeItems(cfg, items).value + EncodeItem(cfg, item).value)
  {
    var all := items + [item];
    if items == [] {
      assert all == [item] && all[1..] == [];
      var last := EncodeItem(cfg, item).value;
      assert last + [] == last && [] + last == last;
    } else {
      EncodeItemsAppend(cfg, items[1..], item);
      assert all[0] == items[0] && all[1..] == items[1..] + [item];
      var first, rest, last := EncodeItem(cfg, items[0]).value, EncodeItems(cfg, items[1..]).value, EncodeItem(cfg, item).value;
      assert first + (rest + last) == first + rest + last;
    }
  }

  lemma RestOfItems(cfg: Config, items: seq<Item>, k: nat)
    requires k < |items|
    ensures AllFit(cfg, items[k..]) <==> Fits(cfg, items[k]) && AllFit(cfg, items[k + 1..])
    ensures WireSizes(cfg, items[k..]) == ItemWireSize(cfg, items[k]) + WireSizes(cfg, items[k + 1..])
  {
    assert items[k..][0] == items[k] && items[k..][1..] == items[k + 1..];
  }

  lemma BadFirstItem(cfg: Config, scope: Scope, buf: seq<byte>)
    requires buf != [] && DecodeItem(cfg, scope, buf).None?
    ensures DecodeItems(cfg, scope, buf).None?
  {
  }

  /** An item without a text spoils whatever is read after it. */
  lemma NoTextLater(cfg: Config, a: seq<byte>, b: seq<byte>, done: seq<Item>)
    requires DecodeItems(cfg, None, a) == Some(done) && !AllHaveText(cfg, done, None)
    ensures var items := DecodeItems(cfg, None, a + b);
            !(items.Some? && AllHaveText(cfg, items.value, None))
  {
    hide DecodeItems;
    var more := DecodeItems(cfg, None, b);
    DecodeItemsContinue(cfg, None, a, b, done, more);
    if more.Some? {
      AllHaveTextSplits(cfg, done, more.value);
    }
  }

  lemma {:induction false} AllHaveTextSplits(cfg: Config, a: seq<Item>, b: seq<Item>)
    ensures AllHaveText(cfg, a + b, None) ==> AllHaveText(cfg, a, None)
  {
    hide HasText;
    if a != [] {
      assert (a + b)[1..] == a[1..] + b;
      AllHaveTextSplits(cfg, a[1..], b);
    }
  }

  /** Judge the front of a session buffer. */
  method IsCompleteMessage(cfg: Config, buf: seq<byte>) returns (r: Framing)
    ensures r == FrontMessage(cfg, buf)
  {
    PowersOf256();
    var h := cfg.signalIdSize + cfg.signalLengthSize;
    if |buf| < h {
      return Incomplete;
    }
    var idStatus, id, p := DeserializeField(buf, 4, cfg.signalIdSize, 0, |buf|);
    if !idStatus.Ok? {
      return BadId;
    }
    ValueFitsAnyLength(buf, p, cfg.signalLengthSize);
    var lengthStatus, length, q := DeserializeField(buf, 8, cfg.signalLengthSize, p, |buf|);
    var size := h + length;
    return if size <= |buf| then Complete(size) else Incomplete;
  }

  /** How adding an item ends. */
  datatype Added =
    | Appended
    | NotSerializable        // the item threw: nothing was added
    | TooLong                // the item was added but the length field could not be updated
    | Unnamed                // the item was added; naming it for the log threw

  class Message {
    const cfg: Config
    var msgLenIndex: nat
    var headerLength: nat
    var msgbuf: seq<byte>
    var signalId: u32
    var idInitialized: bool
    var isSignal: bool
    var dataItems: seq<Item>
    ghost var added: seq<Item>     // the items serialized into the buffer

    constructor (cfg: Config)
      ensures this.cfg == cfg && msgbuf == [] && !idInitialized && dataItems == [] && added == []
    {
      this.cfg := cfg;
      msgLenIndex, headerLength, msgbuf := 0, 0, [];
      signalId, idInitialized, isSignal := 0, false, false;
      dataItems, added := [], [];
    }

    /** The buffer is a header of a known id with the right length, followed by exactly the items added. */
    ghost predicate Built()
      reads this
    {
      && idInitialized && KnownId(cfg, isSignal, signalId)
      && msgLenIndex == LengthIndex(cfg, isSignal)
      && headerLength == MessageHeaderSize(cfg, isSignal)
      && EncodeItems(cfg, added).Some?
      && Framable(cfg, signalId, |EncodeItems(cfg, added).value|)
      && msgbuf == Frame(cfg, isSignal, signalId, EncodeItems(cfg, added).value)
    }

    /**
     Start a message of a given name, which is looked up as a signal first.  An unknown name throws,
     and so does an id that does not fit its field.
     */
    method AddHeader(name: string) returns (ok: bool)
      requires msgbuf == [] && added == []
      modifies this
      ensures ok <==> (name in cfg.signalNames.Values || name in cfg.messageNames.Values)
                      && signalId < Pow256(cfg.signalIdSize)
      ensures ok ==> Built() && added == []
      ensures ok ==> (isSignal <==> name in cfg.signalNames.Values)
      ensures ok ==> (if isSignal then cfg.signalNames[signalId] else cfg.messageNames[signalId]) == name
      ensures dataItems == old(dataItems)
    {
      hide BigEndian, Pow256, EncodeItem;
      PowersOf256();
      if name in cfg.signalNames.Values {
        var id :| id in cfg.signalNames && cfg.signalNames[id] == name;
        signalId, isSignal := id, true;
      } else if name in cfg.messageNames.Values {
        var id :| id in cfg.messageNames && cfg.messageNames[id] == name;
        signalId, isSignal := id, false;
      } else {
        return false;
      }
      idInitialized := true;
      if isSignal && |cfg.signalPrefix| > 0 {
        msgbuf := msgbuf + cfg.signalPrefix;
      }
      var status, out := SerializeField(signalId, 4, cfg.signalIdSize, msgbuf);
      if !status.Ok? {
        return false;
      }
      msgbuf := out;
      msgLenIndex := |msgbuf|;
      status, out := SerializeField(0, 4, cfg.signalLengthSize, msgbuf);
      msgbuf := out;
      headerLength := |msgbuf|;
      assert EncodeItems(cfg, added) == Some([]);
      ok := true;
    }

    /** Overwrite the length field in place, counting everything after the header. */
    method UpdateMessageLength(ghost body: seq<byte>, ghost oldLength: nat) returns (ok: bool)
      requires msgLenIndex == LengthIndex(cfg, isSignal) && headerLength == MessageHeaderSize(cfg, isSignal)
      requires msgbuf == Prefix(cfg, isSignal) + BigEndian(signalId, cfg.signalIdSize)
                         + BigEndian(oldLength, cfg.signalLengthSize) + body
      requires |body| < 0x1_0000_0000_0000_0000
      modifies this`msgbuf
      ensures ok <==> |body| < Pow256(cfg.signalLengthSize)
      ensures ok ==> msgbuf == Frame(cfg, isSignal, signalId, body)
      ensures !ok ==> msgbuf == old(msgbuf)
    {
      hide BigEndian, Pow256, EncodeItems;
      PowersOf256();
      var status, out := SerializeAt(|msgbuf| - headerLength, 8, cfg.signalLengthSize, msgbuf, msgLenIndex);
      ghost var head := Prefix(cfg, isSignal) + BigEndian(signalId, cfg.signalIdSize);
      Split(head, BigEndian(oldLength, cfg.signalLengthSize), body);
      msgbuf := out;
      ok := status.Ok?;
    }

    method AddDataItem(item: Item) returns (result: Added)
      requires Built()
      requires |EncodeItems(cfg, added).value| + ItemWireSize(cfg, item) < 0x1_0000_0000_0000_0000
      modifies this`msgbuf, this`added
      ensures result.NotSerializable? <==> !Fits(cfg, item)
      ensures result.NotSerializable? ==> msgbuf == old(msgbuf) && added == old(added)
      ensures !result.NotSerializable? ==> added == old(added) + [item]
      ensures result.TooLong? <==>
              Fits(cfg, item) &&
              |EncodeItems(cfg, old(added)).value| + ItemWireSize(cfg, item) >= Pow256(cfg.signalLengthSize)
      ensures result.TooLong? ==> EncodeItem(cfg, item).Some? && msgbuf == old(msgbuf) + EncodeItem(cfg, item).value
      ensures result.Appended? || result.Unnamed? ==> Built()
      ensures result.Unnamed? ==> NameOfId(cfg, item.id, None).None?
      ensures result.Appended? ==> NameOfId(cfg, item.id, None).Some?
    {
      hide EncodeItem, EncodeItems, ItemWireSize, Fits;
      ItemEncodesExactly(cfg, item);
      var dibuf := EncodeItem(cfg, item);
      if dibuf.None? {
        return NotSerializable;
      }
      ghost var body := EncodeItems(cfg, added).value;
      EncodeItemsAppend(cfg, added, item);
      msgbuf := msgbuf + dibuf.value;
      added := added + [item];
      assert msgbuf == Prefix(cfg, isSignal) + BigEndian(signalId, cfg.signalIdSize)
                       + BigEndian(|body|, cfg.signalLengthSize) + (body + dibuf.value);
      var updated := UpdateMessageLength(body + dibuf.value, |body|);
      if !updated {
        return TooLong;
      }
      if NameOfId(cfg, item.id, None).None? {
        return Unnamed;
      }
      result := Appended;
    }

    /** Add items in order, up to the first that throws. */
    method AddDataItems(items: seq<Item>) returns (result: Added)
      requires Built()
      requires |EncodeItems(cfg, added).value| + WireSizes(cfg, items) < 0x1_0000_0000_0000_0000
      modifies this`msgbuf, this`added
      ensures result.Appended? ==> Built() && added == old(added) + items
      ensures result.Appended? ==> forall item :: item in items ==> NameOfId(cfg, item.id, None).Some?
      ensures result.Appended? <==>
              && AllFit(cfg, items)
              && (forall item :: item in items ==> NameOfId(cfg, item.id, None).Some?)
              && |EncodeItems(cfg, old(added)).value| + WireSizes(cfg, items) < Pow256(cfg.signalLengthSize)
    {
      hide EncodeItem, EncodeItems, ItemWireSize, Fits;
      ghost var start := |EncodeItems(cfg, added).value|;
      result := Appended;
      var k := 0;
      assert items[..k] == [] && items[k..] == items;
      while k < |items|
        invariant 0 <= k <= |items| && Built() && result.Appended?
        invariant added == old(added) + items[..k]
        invariant |EncodeItems(cfg, added).value| + WireSizes(cfg, items[k..]) == start + WireSizes(cfg, items)
        invariant AllFit(cfg, items) <==> AllFit(cfg, items[k..])
        invariant forall item :: item in items[..k] ==> NameOfId(cfg, item.id, None).Some?
      {
        RestOfItems(cfg, items, k);
        ItemEncodesExactly(cfg, items[k]);
        ghost var before := added;
        result := AddDataItem(items[k]);
        if !result.Appended? {
          assert items[k] in items;
          return;
        }
        EncodeItemsAppend(cfg, before, items[k]);
        assert items[..k + 1] == items[..k] + [items[k]];
        k := k + 1;
      }
      assert items[..k] == items && items[k..] == [];
    }

    /** Drop every item and leave the header, with a length of zero. */
    method ClearDataItems()
      requires Built()
      modifies this`msgbuf, this`added, this`dataItems
      ensures Built() && added == [] && dataItems == []
    {
      ghost var body := EncodeItems(cfg, added).value;
      ghost var length := BigEndian(|body|, cfg.signalLengthSize);
      msgbuf := msgbuf[..headerLength];
      added := [];
      assert msgbuf == Prefix(cfg, isSignal) + BigEndian(signalId, cfg.signalIdSize) + length + [];
      var updated := UpdateMessageLength([], |body|);
      dataItems := [];
      assert EncodeItems(cfg, added) == Some([]);
    }

    /** Skip the prefix of a signal, if it is there and something follows it. */
    method SkipPrefix() returns (ok: bool, it: nat)
      ensures ok <==> isSignal ==> |cfg.signalPrefix| < |msgbuf| && msgbuf[..|cfg.signalPrefix|] == cfg.signalPrefix
      ensures ok ==> it == |Prefix(cfg, isSignal)| <= |msgbuf|
    {
      it := 0;
      if isSignal {
        if |msgbuf| <= |cfg.signalPrefix| {
          return false, it;
        }
        while it < |cfg.signalPrefix|
          invariant 0 <= it <= |cfg.signalPrefix| < |msgbuf|
          invariant msgbuf[..it] == cfg.signalPrefix[..it]
        {
          if msgbuf[it] != cfg.signalPrefix[it] {
            assert msgbuf[..|cfg.signalPrefix|][it] != cfg.signalPrefix[it];
            return false, it;
          }
          it := it + 1;
        }
        assert cfg.signalPrefix[..it] == cfg.signalPrefix;
      }
      ok := true;
    }

    /** Parse the items from an index to the end of the buffer, writing each as text on the way. */
    method ParseItems(start: nat) returns (ok: bool)
      requires start <= |msgbuf| && dataItems == []
      modifies this`dataItems
      ensures ok <==> var items := DecodeItems(cfg, None, msgbuf[start..]);
                      items.Some? && AllHaveText(cfg, items.value, None)
      ensures ok ==> DecodeItems(cfg, None, msgbuf[start..]) == Some(dataItems)
    {
      hide DecodeItem, DecodeItems, HasText;
      NothingLeft(cfg, None);
      var next := start;
      assert msgbuf[start..next] == [];
      while next < |msgbuf|
        invariant start <= next <= |msgbuf|
        invariant DecodeItems(cfg, None, msgbuf[start..next]) == Some(dataItems)
        invariant AllHaveText(cfg, dataItems, None)
      {
        ghost var done, tail := msgbuf[start..next], msgbuf[next..];
        assert msgbuf[start..] == done + tail;
        assert msgbuf[next..|msgbuf|] == tail;
        var item, after := DeserializeItem(cfg, msgbuf, next, |msgbuf|, None);
        if item.None? {
          BadFirstItem(cfg, None, tail);
          DecodeItemsContinue(cfg, None, done, tail, dataItems, None);
          return false;
        }
        ItemRead(cfg, None, msgbuf, start, next, after, |msgbuf|, dataItems, item.value);
        AllHaveTextAppend(cfg, dataItems, item.value, None);
        if !HasText(cfg, item.value, None) {
          NoTextLater(cfg, msgbuf[start..after], msgbuf[after..], dataItems + [item.value]);
          assert msgbuf[start..] == msgbuf[start..after] + msgbuf[after..];
          return false;
        }
        dataItems := dataItems + [item.value];
        next := after;
      }
      assert msgbuf[start..next] == msgbuf[start..];
      ok := true;
    }

    /** Parse whatever the buffer holds, replacing the parsed items. */
    method Parse() returns (ok: bool)
      modifies this`dataItems, this`signalId, this`idInitialized
      ensures ok <==> ParseMessage(cfg, isSignal, msgbuf).Some?
      ensures ok ==> ParseMessage(cfg, isSignal, msgbuf) == Some((signalId, dataItems)) && idInitialized
    {
      hide DecodeItem, DecodeItems, BigEndianValue, AllHaveText;
      PowersOf256();
      dataItems := [];
      var prefixOk, it := SkipPrefix();
      if !prefixOk {
        return false;
      }
      var idStatus, id, p := DeserializeField(msgbuf, 4, cfg.signalIdSize, it, |msgbuf|);
      if !idStatus.Ok? {
        return false;
      }
      signalId, idInitialized := id, true;
      ValueFitsAnyLength(msgbuf, p, cfg.signalLengthSize);
      var lengthStatus, length, next := DeserializeField(msgbuf, 8, cfg.signalLengthSize, p, |msgbuf|);
      if !lengthStatus.Ok? || !KnownId(cfg, isSignal, id) {
        return false;
      }
      ok := ParseItems(next);
    }

    /** `validate`: the sender, then the number of each item, then the items. */
    method Validate(modemSender: bool) returns (ok: bool)
      ensures ok <==> MessageValid(cfg, isSignal, modemSender, signalId, dataItems)
    {
      hide OccurrencesOk, AllValidate;
      var info := InfoOfMessage(cfg, isSignal, signalId);
      if info.None? || !(if modemSender then info.value.modemSends else info.value.routerSends) {
        return false;
      }
      ok := ValidateOccurrences(dataItems, info.value.dataItems);
      if ok {
        ok := ValidateItems(cfg, None, dataItems);
      }
    }

    /**
     Replace the items of a built message and parse it again.  The bytes are those of a message
     built afresh from the new items; when these are well typed, parsing gives them back exactly if
     they have a text.
     */
    method RebuildFromDataItems(items: seq<Item>) returns (ok: bool)
      requires Built()
      requires WireSizes(cfg, items) < 0x1_0000_0000_0000_0000
      modifies this
      ensures isSignal == old(isSignal)
      ensures ok ==> Built() && added == items && signalId == old(signalId)
      ensures ok ==> msgbuf == Frame(cfg, isSignal, signalId, EncodeItems(cfg, items).value)
      ensures ok ==> ParseMessage(cfg, isSignal, msgbuf) == Some((signalId, dataItems))
      ensures && AllFit(cfg, items) && AllWellTyped(cfg, None, items)
              && (forall item :: item in items ==> NameOfId(cfg, item.id, None).Some?)
              && WireSizes(cfg, items) < Pow256(cfg.signalLengthSize)
              ==> (ok <==> AllHaveText(cfg, items, None)) && (ok ==> dataItems == items)
    {
      hide EncodeItem, DecodeItem, DecodeItems, ItemWireSize, Fits, BigEndianValue, BigEndian, WellTyped, AllWellTyped,
        AllHaveText;
      ClearDataItems();
      assert |EncodeItems(cfg, added).value| == 0;
      var result := AddDataItems(items);
      if !result.Appended? {
        return false;
      }
      assert added == items;
      ghost var id := signalId;
      ghost var body := EncodeItems(cfg, items).value;
      ok := Parse();
      if ok {
        SameIdParsed(cfg, isSignal, id, body);
      }
      if AllWellTyped(cfg, None, items) {
        BuiltMessageParses(cfg, isSignal, id, items);
      }
    }
  }

  /** A frame can only parse to the id it was built with. */
  lemma SameIdParsed(cfg: Config, isSignal: bool, id: u32, body: seq<byte>)
    requires Framable(cfg, id, |body|) && ParseMessage(cfg, isSignal, Frame(cfg, isSignal, id, body)).Some?
    ensures ParseMessage(cfg, isSignal, Frame(cfg, isSignal, id, body)).value.0 == id
  {
    hide DecodeItems;
    FrameSlices(cfg, isSignal, id, body, []);
    assert Frame(cfg, isSignal, id, body) + [] == Frame(cfg, isSignal, id, body);
    ValueOfBigEndian(id, cfg.signalIdSize);
  }
}
