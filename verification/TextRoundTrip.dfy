/** Writing a data item as text and reading it again (DataItem.h: the two are inverses). */
module TextRoundTrip {
  import opened Wrappers
  import opened Serialize
  import opened ProtocolConfig
  import opened DataItem
  import opened TextStream
  import opened TextFormat

  predicate SpaceFree(s: string) {
    forall i :: 0 <= i < |s| ==> !IsSpace(s[i])
  }

  /** What comes after an item inside braces: spaces, then the next name or the closing brace. */
  predicate Follows(r: string) {
    && r != "" && r[0] == ' '
    && var next := SkipSpaces(r);
       next != "" && (IsLetter(next[0]) || next[0] == '}')
  }

  /** Nothing follows, or something that can follow an item inside braces. */
  predicate Ending(r: string) {
    r == "" || Follows(r)
  }

  /** Reading can go on at r, give or take some of its spaces. */
  predicate Resumes(s: Stream, r: string) {
    !s.fail && !s.eof && !s.hex && SkipSpaces(s.rest) == SkipSpaces(r)
  }

  lemma OneSpace(t: string)
    ensures SkipSpaces(" " + t) == SkipSpaces(t)
    ensures t != "" && !IsSpace(t[0]) ==> SkipSpaces(t) == t
  {
    assert (" " + t)[1..] == t;
  }

  // ---- Numbers, vectors and hardware addresses

  lemma CommasSplit(ns: seq<u64>, r: string)
    requires ns != []
    ensures Commas(ns) + r == Decimal(ns[0]) + if |ns| == 1 then r else "," + (Commas(ns[1..]) + r)
  {
    hide Decimal;
  }

  lemma DecimalStarts(n: nat, r: string)
    ensures Decimal(n) + r != "" && IsDigit((Decimal(n) + r)[0], false) && SkipSpaces(Decimal(n) + r) == Decimal(n) + r
  {
    DecimalValue(n);
    OneSpace(Decimal(n) + r);
  }

  /** No number can be read at the end or where the next item starts, and nothing is lost. */
  lemma NoNumber(before: string, r: string)
    requires Ending(r) && SkipSpaces(before) == SkipSpaces(r)
    ensures var s := ReadNumber(Stream(before, false, false, false)).1;
            s.fail && !s.hex && (r != "" ==> SkipSpaces(s.rest) == SkipSpaces(r))
  {
    hide SkipSpaces;
    var rest := SkipSpaces(before);
    OneSpace(rest);
    if rest != "" {
      assert DigitCount(rest, false) == 0;
      assert rest[0..] == rest;
      assert rest[..0] == "";
    } else {
      EmptyEnds();
    }
  }

  lemma EmptyEnds()
    ensures SkipSpaces("") == ""
  {
  }

  lemma VectorEnds(limit: u64, before: string, r: string)
    requires Ending(r) && SkipSpaces(before) == SkipSpaces(r)
    ensures var p := ParseVector(Stream(before, false, false, false), limit);
            p.Some? && p.value.0 == [] && (r != "" ==> Resumes(p.value.1, r))
  {
    hide SkipSpaces, ReadNumber;
    NoNumber(before, r);
  }

  lemma VectorStep(s: Stream, limit: u64)
    requires !ReadNumber(s).1.fail && ReadNumber(s).0 <= limit
    ensures ParseVector(s, limit) == Prepend(ReadNumber(s).0, ParseVector(SkipIf(ReadNumber(s).1, ',').1, limit))
  {
  }

  ghost function Prepend(n: u64, p: Option<(seq<u64>, Stream)>): Option<(seq<u64>, Stream)> {
    if p.None? then None else Some(([n] + p.value.0, p.value.1))
  }

  /** A number with more after it. */
  lemma VectorGoesOn(n: u64, limit: u64, before: string, rest: string)
    requires SkipSpaces(before) == Decimal(n) + ("," + rest) && n <= limit
    ensures ParseVector(Stream(before, false, false, false), limit) ==
            Prepend(n, ParseVector(Stream(rest, false, false, false), limit))
  {
    hide SkipSpaces, ReadNumber, Decimal, ParseVector;
    NumberReads(n, before, "," + rest);
    VectorStep(Stream(before, false, false, false), limit);
    assert ("," + rest)[1..] == rest;
  }

  /** The last number. */
  lemma VectorStops(n: u64, limit: u64, before: string, r: string)
    requires SkipSpaces(before) == Decimal(n) + r && n <= limit && Ending(r)
    ensures var p := ParseVector(Stream(before, false, false, false), limit);
            p.Some? && p.value.0 == [n] && (r != "" ==> Resumes(p.value.1, r))
  {
    hide SkipSpaces, ReadNumber, Decimal, ParseVector;
    NumberReads(n, before, r);
    VectorStep(Stream(before, false, false, false), limit);
    if r != "" {
      VectorEnds(limit, r, r);
    } else {
      NotGood(Stream("", true, true, false), limit);
    }
  }

  lemma {:induction false} VectorReads(ns: seq<u64>, limit: u64, before: string, r: string)
    requires Ending(r) && forall i :: 0 <= i < |ns| ==> ns[i] <= limit
    requires SkipSpaces(before) == if ns == [] then SkipSpaces(r) else Commas(ns) + r
    ensures var p := ParseVector(Stream(before, false, false, false), limit);
            p.Some? && p.value.0 == ns && (r != "" ==> Resumes(p.value.1, r))
    decreases |ns|
  {
    hide SkipSpaces, Commas, Decimal, Resumes, ParseVector, Ending;
    if ns == [] {
      VectorEnds(limit, before, r);
    } else {
      CommasSplit(ns, r);
      if |ns| == 1 {
        VectorStops(ns[0], limit, before, r);
      } else {
        var rest := Commas(ns[1..]) + r;
        VectorGoesOn(ns[0], limit, before, rest);
        CommasStart(ns[1..], r);
        VectorReads(ns[1..], limit, rest, r);
      }
    }
  }

  lemma CommasStart(ns: seq<u64>, r: string)
    requires ns != []
    ensures SkipSpaces(Commas(ns) + r) == Commas(ns) + r
  {
    hide SkipSpaces, Commas, Decimal;
    CommasSplit(ns, r);
    DecimalStarts(ns[0], if |ns| == 1 then r else "," + (Commas(ns[1..]) + r));
  }

  lemma NotGood(s: Stream, limit: u64)
    requires s.fail
    ensures ParseVector(s, limit) == Some(([], s.(fail := false, eof := false)))
  {
  }

  lemma MacSplit(mac: Mac, r: string)
    requires mac != []
    ensures MacText(mac) + r == HexByte(mac[0]) + if |mac| == 1 then r else ":" + (MacText(mac[1..]) + r)
  {
    hide HexByte;
  }

  lemma HexByteStarts(b: byte, r: string)
    ensures SkipSpaces(HexByte(b) + r) == HexByte(b) + r
  {
    OneSpace(HexByte(b) + r);
  }

  lemma {:induction false} MacReads(mac: Mac, before: string, r: string)
    requires mac != [] && (r == "" || r[0] == ' ')
    requires SkipSpaces(before) == MacText(mac) + r
    ensures var p := ParseMac(Stream(before, false, false, true));
            p.Some? && p.value.0 == mac && (r != "" ==> p.value.1 == Stream(r, false, false, true))
  {
    hide SkipSpaces, ReadNumber, MacText, HexByte;
    MacSplit(mac, r);
    if |mac| == 1 {
      HexByteReads(mac[0], before, r);
    } else {
      var rest := MacText(mac[1..]) + r;
      HexByteReads(mac[0], before, ":" + rest);
      assert (":" + rest)[1..] == rest;
      MacSplit(mac[1..], r);
      HexByteStarts(mac[1], if |mac| == 2 then r else ":" + (MacText(mac[1..][1..]) + r));
      MacReads(mac[1..], rest, r);
    }
  }

  // ---- Addresses

  predicate AddressChar(c: char) {
    !IsSeparator(c) && !IsSpace(c)
  }

  /** The address library reads back what it wrote, which is one word without separators. */
  predicate Invertible<A(==)>(print_: A -> string, parse: string -> Option<A>, ip: A) {
    && parse(print_(ip)) == Some(ip)
    && print_(ip) != ""
    && forall i :: 0 <= i < |print_(ip)| ==> AddressChar(print_(ip)[i])
  }

  lemma {:induction false} AddressCharsRead(text: string, r: string)
    requires forall i :: 0 <= i < |text| ==> AddressChar(text[i])
    requires r == "" || !AddressChar(r[0])
    ensures var p := AddressChars(Stream(text + r, false, false, false));
            p.0 == text && (r != "" ==> p.1 == Stream(r, false, false, false))
  {
    if text == "" {
      assert text + r == r;
    } else {
      assert (text + r)[1..] == text[1..] + r;
      AddressCharsRead(text[1..], r);
    }
  }

  lemma AddressReads<A>(print_: A -> string, parse: string -> Option<A>, ip: A, r: string)
    requires Invertible(print_, parse, ip)
    requires r == "" || !AddressChar(r[0])
    ensures var p := ParseAddress(Stream(print_(ip) + r, false, false, false), parse);
            p.Some? && p.value.0 == ip && (r != "" ==> p.value.1 == Stream(r, false, false, false))
  {
    var text := print_(ip);
    assert (text + r)[0] == text[0];
    OneSpace(text + r);
    SkipWhitespaceSkips(text + r);
    AddressCharsRead(text, r);
  }

  // ---- Values without items

  /** Strings are one word, empty only at the end of the text; hardware addresses are not empty. */
  predicate Lexical(at: AddressText, v: Value, last: bool)
    requires !v.Sub? && !v.U16Sub?
  {
    match v
    case Str(text) => SpaceFree(Chars(text)) && (text != [] || last)
    case MacAddr(mac) => mac != []
    case U8String(_, text) => SpaceFree(Chars(text)) && (text != [] || last)
    case U8Ipv4(_, ip) => Invertible(at.print4, at.parse4, ip)
    case U8Ipv6(_, ip) => Invertible(at.print6, at.parse6, ip)
    case U8Ipv4U16(_, ip, _) => Invertible(at.print4, at.parse4, ip)
    case U8Ipv6U16(_, ip, _) => Invertible(at.print6, at.parse6, ip)
    case U8Ipv4U8(_, ip, _) => Invertible(at.print4, at.parse4, ip)
    case U8Ipv6U8(_, ip, _) => Invertible(at.print6, at.parse6, ip)
    case _ => true
  }

  lemma CharsAreBytes(bytes: seq<byte>)
    ensures Bytes(Chars(bytes)) == bytes
  {
  }

  /** A number, then something that is no digit. */
  lemma UintReads(n: u64, limit: u64, before: string, r: string)
    requires SkipSpaces(before) == Decimal(n) + r && n <= limit
    requires r == "" || !IsDigit(r[0], false)
    ensures ParseUint(Stream(before, false, false, false), limit) == Some((n, Left(r)))
  {
    NumberReads(n, before, r);
  }

  /** A number after a space. */
  lemma SpacedUintReads(n: u64, limit: u64, r: string)
    requires n <= limit && (r == "" || !IsDigit(r[0], false))
    ensures ParseUint(Stream(" " + (Decimal(n) + r), false, false, false), limit) == Some((n, Left(r)))
  {
    DecimalStarts(n, r);
    OneSpace(Decimal(n) + r);
    UintReads(n, limit, " " + (Decimal(n) + r), r);
  }

  /** A number that follows something else at once. */
  lemma NextUintReads(n: u64, limit: u64, r: string)
    requires n <= limit && (r == "" || !IsDigit(r[0], false))
    ensures ParseUint(Stream(Decimal(n) + r, false, false, false), limit) == Some((n, Left(r)))
  {
    DecimalStarts(n, r);
    UintReads(n, limit, Decimal(n) + r, r);
  }

  lemma SeparatorReads(r: string)
    ensures TakeSeparator(Left(";" + r)) == Some(Stream(r, false, false, false))
  {
    assert (";" + r)[1..] == r;
  }

  lemma WordReadsBack(text: seq<byte>, before: string, r: string)
    requires SpaceFree(Chars(text)) && (r == "" || r[0] == ' ') && (text == [] ==> r == "")
    requires SkipSpaces(before) == Chars(text) + r
    ensures var (word, s) := ReadWord(Stream(before, false, false, false));
            Bytes(word) == text && (r != "" ==> s == Left(r))
  {
    CharsAreBytes(text);
    if text != [] {
      WordReads(Chars(text), before, r);
    }
  }

  // ---- Any value without items

  /** What reading a value back means: the value, and a stream that can go on. */
  predicate Reads(p: Option<(Value, Stream)>, v: Value, r: string) {
    p.Some? && p.value.0 == v && (r != "" ==> Resumes(p.value.1, r))
  }

  /** The stream at a value: the space after the name, the value's text, and the rest. */
  function AtValue(text: string, r: string): Stream {
    Stream(" " + (text + r), false, false, false)
  }

  lemma UintValueReads(n: u64, limit: u64, r: string)
    requires n <= limit && Ending(r)
    ensures var p := ParseUint(AtValue(Decimal(n), r), limit);
            p.Some? && p.value.0 == n && (r != "" ==> Resumes(p.value.1, r))
  {
    hide ParseUint, Decimal, SkipSpaces;
    SpacedUintReads(n, limit, r);
  }

  lemma VectorValueReads(ns: seq<u64>, limit: u64, r: string)
    requires Ending(r) && forall i :: 0 <= i < |ns| ==> ns[i] <= limit
    ensures var p := ParseVector(AtValue(Commas(ns), r), limit);
            p.Some? && p.value.0 == ns && (r != "" ==> Resumes(p.value.1, r))
  {
    hide ParseVector, SkipSpaces, Resumes, Ending;
    OneSpace(Commas(ns) + r);
    if ns == [] {
      assert Commas(ns) + r == r;
    } else {
      CommasStart(ns, r);
    }
    VectorReads(ns, limit, " " + (Commas(ns) + r), r);
  }

  /** Two numbers with a separator between them. */
  lemma TwoRead(a: u64, b: u64, limit: u64, r: string)
    requires a <= limit && b <= limit && Ending(r)
    ensures var p := ParseTwo(AtValue(Decimal(a) + ";" + Decimal(b), r), limit);
            p.Some? && p.value.0 == (a, b) && (r != "" ==> Resumes(p.value.1, r))
  {
    hide ParseUint, Decimal, SkipSpaces, TakeSeparator;
    var rest := Decimal(b) + r;
    assert Decimal(a) + ";" + Decimal(b) + r == Decimal(a) + (";" + rest);
    SpacedUintReads(a, limit, ";" + rest);
    SeparatorReads(rest);
    NextUintReads(b, limit, r);
  }

  /** Two numbers with a comma between them. */
  lemma PairReads(a: u64, b: u64, limit: u64, r: string)
    requires a <= limit && b <= limit && Ending(r)
    ensures var p := ParsePair(AtValue(Commas([a, b]), r), limit);
            p.Some? && p.value.0 == (a, b) && (r != "" ==> Resumes(p.value.1, r))
  {
    hide ParseUint, Decimal, SkipSpaces;
    var rest := Decimal(b) + r;
    assert [a, b][1..] == [b];
    assert Commas([a, b]) + r == Decimal(a) + ("," + rest);
    SpacedUintReads(a, limit, "," + rest);
    assert ("," + rest)[1..] == rest;
    NextUintReads(b, limit, r);
  }

  /** A number and a vector with a separator between them. */
  lemma TaggedVectorReads(n: u16, ns: seq<byte>, r: string)
    requires Ending(r)
    ensures Reads(ParseNumeric(TU16VU8, AtValue(Decimal(n) + ";" + Commas(ns), r)), U16VU8(n, ns), r)
  {
    hide ParseUint, ParseVector, Decimal, SkipSpaces, Commas, TakeSeparator, Resumes, Ending;
    var rest := Commas(ns) + r;
    assert Decimal(n) + ";" + Commas(ns) + r == Decimal(n) + (";" + rest);
    SpacedUintReads(n, 0xFFFF, ";" + rest);
    SeparatorReads(rest);
    if ns == [] {
      NoCommas();
      assert rest == r;
    } else {
      CommasStart(ns, r);
    }
    VectorReads(ns, 0xFF, rest, r);
  }

  lemma NoCommas()
    ensures Commas([]) == ""
  {
  }

  lemma NumericReads(at: AddressText, v: Value, r: string)
    requires IsNumeric(TypeOf(v)) && Ending(r)
    ensures Reads(ParseNumeric(TypeOf(v), AtValue(PlainText(at, v), r)), v, r)
  {
    hide ParseUint, ParseVector, ParsePair, ParseTwo, Decimal, Commas, Resumes, Ending, AtValue;
    match v
    case U8(n) => UintValueReads(n, 0xFF, r);
    case U16(n) => UintValueReads(n, 0xFFFF, r);
    case U32(n) => UintValueReads(n, 0xFFFF_FFFF, r);
    case U64(n) => UintValueReads(n, 0xFFFF_FFFF_FFFF_FFFF, r);
    case VU8(ns) => VectorValueReads(ns, 0xFF, r);
    case VU32(ns) => VectorValueReads(ns, 0xFFFF_FFFF, r);
    case VExtId(ns) => VectorValueReads(ns, 0xFFFF_FFFF, r);
    case A2U16(a, b) => PairReads(a, b, 0xFFFF, r);
    case U16VU8(n, ns) => TaggedVectorReads(n, ns, r);
    case U8U8(a, b) => TwoRead(a, b, 0xFF, r);
    case U64U64(a, b) => TwoRead(a, b, 0xFFFF_FFFF_FFFF_FFFF, r);
  }

  lemma NumberAddressReads<A>(n: byte, print_: A -> string, parse: string -> Option<A>, ip: A, r: string)
    requires Invertible(print_, parse, ip) && (r == "" || !AddressChar(r[0]))
    ensures var p := ParseNumberAddress(AtValue(Decimal(n) + ";" + print_(ip), r), parse);
            p.Some? && p.value.0 == (n, ip) && (r != "" ==> p.value.1 == Stream(r, false, false, false))
  {
    hide ParseUint, Decimal, TakeSeparator, Invertible, ParseAddress;
    var rest := print_(ip) + r;
    assert Decimal(n) + ";" + print_(ip) + r == Decimal(n) + (";" + rest);
    SpacedUintReads(n, 0xFF, ";" + rest);
    SeparatorReads(rest);
    AddressReads(print_, parse, ip, r);
  }

  lemma NumberAddressNumberReads<A>(n: byte, print_: A -> string, parse: string -> Option<A>, ip: A,
                                    m: u64, limit: u64, r: string)
    requires Invertible(print_, parse, ip) && m <= limit && Ending(r)
    ensures var p := ParseNumberAddressNumber(
                       AtValue(Decimal(n) + ";" + print_(ip) + ";" + Decimal(m), r), parse, limit);
            p.Some? && p.value.0 == (n, ip, m) && (r != "" ==> Resumes(p.value.1, r))
  {
    hide ParseUint, Decimal, TakeSeparator, Invertible, ParseNumberAddress, SkipSpaces;
    var rest := Decimal(m) + r;
    assert Decimal(n) + ";" + print_(ip) + ";" + Decimal(m) + r == Decimal(n) + ";" + print_(ip) + (";" + rest);
    NumberAddressReads(n, print_, parse, ip, ";" + rest);
    SeparatorReads(rest);
    NextUintReads(m, limit, r);
  }

  lemma AddressedReads(at: AddressText, v: Value, r: string)
    requires IsAddressed(TypeOf(v)) && Lexical(at, v, r == "") && Ending(r)
    ensures Reads(ParseAddressed(at, TypeOf(v), AtValue(PlainText(at, v), r)), v, r)
  {
    hide ParseNumberAddress, ParseNumberAddressNumber, Decimal, AtValue, Invertible;
    match v
    case U8Ipv4(n, ip) => NumberAddressReads(n, at.print4, at.parse4, ip, r);
    case U8Ipv6(n, ip) => NumberAddressReads(n, at.print6, at.parse6, ip, r);
    case U8Ipv4U16(n, ip, p) => NumberAddressNumberReads(n, at.print4, at.parse4, ip, p, 0xFFFF, r);
    case U8Ipv6U16(n, ip, p) => NumberAddressNumberReads(n, at.print6, at.parse6, ip, p, 0xFFFF, r);
    case U8Ipv4U8(n, ip, m) => NumberAddressNumberReads(n, at.print4, at.parse4, ip, m, 0xFF, r);
    case U8Ipv6U8(n, ip, m) => NumberAddressNumberReads(n, at.print6, at.parse6, ip, m, 0xFF, r);
  }

  lemma WordValueReads(at: AddressText, text: seq<byte>, r: string)
    requires Lexical(at, Str(text), r == "") && Ending(r)
    ensures Reads(ParsePlain(at, TString, AtValue(Chars(text), r)), Str(text), r)
  {
    hide SkipSpaces, ReadWord;
    OneSpace(Chars(text) + r);
    if text == [] {
      EmptyEnds();
      assert Chars(text) + r == "";
    }
    WordReadsBack(text, " " + (Chars(text) + r), r);
  }

  lemma NumberWordReads(at: AddressText, n: byte, text: seq<byte>, r: string)
    requires Lexical(at, U8String(n, text), r == "") && Ending(r)
    ensures Reads(ParsePlain(at, TU8String, AtValue(Decimal(n) + ";" + Chars(text), r)), U8String(n, text), r)
  {
    hide SkipSpaces, ReadWord, ParseUint, TakeSeparator, Decimal;
    var rest := Chars(text) + r;
    assert Decimal(n) + ";" + Chars(text) + r == Decimal(n) + (";" + rest);
    SpacedUintReads(n, 0xFF, ";" + rest);
    SeparatorReads(rest);
    OneSpace(rest);
    if text == [] {
      EmptyEnds();
      assert rest == "";
    }
    WordReadsBack(text, rest, r);
  }

  lemma MacValueReads(at: AddressText, mac: Mac, r: string)
    requires mac != [] && Ending(r)
    ensures Reads(ParsePlain(at, TMac, AtValue(MacText(mac), r)), MacAddr(mac), r)
  {
    hide SkipSpaces, ParseMac, MacText, HexByte;
    MacSplit(mac, r);
    OneSpace(MacText(mac) + r);
    HexByteStarts(mac[0], if |mac| == 1 then r else ":" + (MacText(mac[1..]) + r));
    MacReads(mac, " " + (MacText(mac) + r), r);
  }

  /** A value without items is read back from its text. */
  lemma PlainReads(at: AddressText, v: Value, r: string)
    requires !v.Sub? && !v.U16Sub? && Lexical(at, v, r == "") && Ending(r)
    ensures Reads(ParsePlain(at, TypeOf(v), AtValue(PlainText(at, v), r)), v, r)
  {
    hide ParseNumeric, ParseAddressed, Decimal, MacText, Commas, SkipSpaces;
    if IsNumeric(TypeOf(v)) {
      NumericReads(at, v, r);
    } else if IsAddressed(TypeOf(v)) {
      AddressedReads(at, v, r);
    } else if v.Str? {
      WordValueReads(at, v.text, r);
    } else if v.U8String? {
      NumberWordReads(at, v.field1, v.text2, r);
    } else if v.MacAddr? {
      MacValueReads(at, v.mac, r);
    } else {
      assert "" + r == r;
      OneSpace(r);
    }
  }

  // ---- Items

  /** A name is one word that starts with a letter. */
  predicate NameOk(name: string) {
    name != "" && IsLetter(name[0]) && SpaceFree(name)
  }

  /** Everything in the tree has a name and a definition of its type, and values that can be read back. */
  ghost predicate Written(cfg: Config, at: AddressText, item: Item, scope: Scope, last: bool)
    decreases item
  {
    var name, info := NameOfId(cfg, item.id, scope), InfoOfId(cfg, item.id, scope);
    && info.Some? && NameOk(name.value) && info.value.valueType == TypeOf(item.value)
    && if item.value.Sub? || item.value.U16Sub? then
         forall sub :: sub in item.value.items ==> Written(cfg, at, sub, PrintScope(info.value, scope), false)
       else Lexical(at, item.value, last)
  }

  /**
   Every name the writer finds for an id, the reader resolves to that id again.  The writer names
   an item's items in the scope of its definition if that lists any and in the scope outside of
   it otherwise; the reader always uses the definition.
   */
  ghost predicate Resolves(cfg: Config, item: Item, writer: Scope, reader: Scope)
    decreases item
  {
    var name, info := NameOfId(cfg, item.id, writer), InfoOfId(cfg, item.id, writer);
    && info.Some? && IdOfName(cfg, name.value, reader) == Some(item.id)
    && (item.value.Sub? || item.value.U16Sub? ==>
          forall sub :: sub in item.value.items ==> Resolves(cfg, sub, PrintScope(info.value, writer), info))
  }

  /** The text of items, and what follows them up to and after the closing brace. */
  function BeforeBrace(text: string, r: string): string {
    text + ("} " + r)
  }

  /** Reading an item gives the item exactly when its names resolve; then reading can go on. */
  ghost predicate ReadsItem(p: Option<(Item, Stream)>, item: Item, r: string, resolves: bool) {
    && (resolves ==> p.Some? && p.value.0 == item && (r != "" ==> Resumes(p.value.1, r)))
    && (p.Some? && p.value.0 == item ==> resolves)
  }

  ghost predicate ReadsItems(p: Option<(seq<Item>, Stream)>, items: seq<Item>, r: string, resolves: bool) {
    && (resolves ==> p.Some? && p.value.0 == items && p.value.1 == Stream(" " + r, false, false, false))
    && (p.Some? && p.value.0 == items ==> resolves)
  }

  ghost predicate AllWritten(cfg: Config, at: AddressText, items: seq<Item>, scope: Scope) {
    forall sub :: sub in items ==> Written(cfg, at, sub, scope, false)
  }

  ghost predicate AllResolve(cfg: Config, items: seq<Item>, writer: Scope, reader: Scope) {
    forall sub :: sub in items ==> Resolves(cfg, sub, writer, reader)
  }

  /** The name of an item is read first, and decides what is read after it. */
  lemma NameReads(cfg: Config, at: AddressText, reader: Scope, name: string, text: string, r: string, before: string)
    requires NameOk(name) && SkipSpaces(before) == name + " " + text + r
    ensures ReadWord(Stream(before, false, false, false)) == (name, AtValue(text, r))
  {
    hide SkipSpaces, ReadWord;
    assert name + " " + text + r == name + (" " + (text + r));
    WordReads(name, before, " " + (text + r));
  }

  /** The opening brace, the spaces after it, and then the items. */
  lemma BraceReads(cfg: Config, at: AddressText, info: DataItemInfo, text: string, r: string, before: string)
    requires SkipSpaces(before) == "{ " + text + "} " + r
    requires text == "" || !IsSpace(text[0])
    ensures ParseItems(cfg, at, info, Stream(before, false, false, false)) ==
            ParseToBrace(cfg, at, info, Left(BeforeBrace(text, r)))
  {
    hide SkipSpaces, ReadWord, ParseToBrace;
    var rest := BeforeBrace(text, r);
    assert "{ " + text + "} " + r == "{" + (" " + rest);
    WordReads("{", before, " " + rest);
    OneSpace(rest);
    SkipWhitespaceSkips(" " + rest);
  }

  /** The text of an item starts with its name. */
  lemma ItemTextStarts(cfg: Config, at: AddressText, item: Item, scope: Scope, last: bool)
    requires Written(cfg, at, item, scope, last) && ToText(cfg, at, item, scope).Some?
    ensures ToText(cfg, at, item, scope).value != "" && IsLetter(ToText(cfg, at, item, scope).value[0])
  {
    hide ValueText;
  }

  lemma ItemsTextStarts(cfg: Config, at: AddressText, items: seq<Item>, scope: Scope)
    requires AllWritten(cfg, at, items, scope) && ItemsText(cfg, at, items, scope).Some?
    ensures var text := ItemsText(cfg, at, items, scope).value;
            if items == [] then text == "" else text != "" && IsLetter(text[0])
  {
    if items != [] {
      hide Written, ToText;
      ItemTextStarts(cfg, at, items[0], scope, false);
    }
  }

  /** What follows an item inside braces can be gone on with. */
  lemma NextFollows(text: string, r: string)
    requires text == "" || IsLetter(text[0])
    ensures Follows(" " + BeforeBrace(text, r))
    ensures SkipSpaces(" " + BeforeBrace(text, r)) == BeforeBrace(text, r)
  {
    OneSpace(BeforeBrace(text, r));
  }

  lemma Resumed(s: Stream, text: string, r: string)
    requires text == "" || IsLetter(text[0])
    requires Resumes(s, " " + BeforeBrace(text, r))
    ensures SkipWhitespace(s) == Left(BeforeBrace(text, r))
  {
    hide SkipSpaces;
    NextFollows(text, r);
    SkipWhitespaceSkips(s.rest);
  }

  /** Everything written has a text. */
  lemma {:induction false} TextExists(cfg: Config, at: AddressText, item: Item, scope: Scope, last: bool)
    requires Written(cfg, at, item, scope, last)
    ensures ToText(cfg, at, item, scope).Some?
    decreases item, 1
  {
    if item.value.Sub? || item.value.U16Sub? {
      ItemsTextExists(cfg, at, item.value.items, PrintScope(InfoOfId(cfg, item.id, scope).value, scope));
    }
  }

  lemma {:induction false} ItemsTextExists(cfg: Config, at: AddressText, items: seq<Item>, scope: Scope)
    requires AllWritten(cfg, at, items, scope)
    ensures ItemsText(cfg, at, items, scope).Some?
    decreases items, 2
  {
    if items != [] {
      TextExists(cfg, at, items[0], scope, false);
      assert forall sub :: sub in items[1..] ==> sub in items;
      ItemsTextExists(cfg, at, items[1..], scope);
    }
  }

  lemma WrittenName(cfg: Config, at: AddressText, item: Item, scope: Scope, last: bool)
    requires Written(cfg, at, item, scope, last)
    ensures NameOfId(cfg, item.id, scope).Some? && NameOk(NameOfId(cfg, item.id, scope).value)
    ensures var info := InfoOfName(cfg, NameOfId(cfg, item.id, scope).value);
            info.Some? && info == InfoOfId(cfg, item.id, scope) && info.value.valueType == TypeOf(item.value)
    ensures !item.value.Sub? && !item.value.U16Sub? ==> Lexical(at, item.value, last)
  {
  }

  /** How an item without items is read: its name, then its value. */
  lemma PlainItemStep(cfg: Config, at: AddressText, reader: Scope, s: Stream, info: DataItemInfo)
    requires !ReadWord(s).1.fail && InfoOfName(cfg, ReadWord(s).0) == Some(info)
    requires info.valueType != TSub && info.valueType != TU16Sub
    ensures var (name, s1) := ReadWord(s);
            var id, v := IdOfName(cfg, name, reader), ParsePlain(at, info.valueType, s1);
            ParseItem(cfg, at, reader, s) ==
            if id.None? || v.None? then None else Some((Item(id.value, v.value.0), v.value.1))
  {
    hide ReadWord, IdOfName, ParsePlain, ParseItems;
  }

  /** An item without items. */
  lemma PlainItemReads(cfg: Config, at: AddressText, item: Item, writer: Scope, reader: Scope, before: string, r: string)
    requires Written(cfg, at, item, writer, r == "") && Ending(r) && !item.value.Sub? && !item.value.U16Sub?
    requires SkipSpaces(before) == NameOfId(cfg, item.id, writer).value + " " + PlainText(at, item.value) + r
    ensures ReadsItem(ParseItem(cfg, at, reader, Stream(before, false, false, false)), item, r,
                      Resolves(cfg, item, writer, reader))
  {
    WrittenName(cfg, at, item, writer, r == "");
    hide SkipSpaces, ReadWord, ParseItem, ParsePlain, PlainText, Resumes, Ending, Lexical, NameOk, NameOfId, IdOfName,
      Written, AtValue;
    var name := NameOfId(cfg, item.id, writer).value;
    NameReads(cfg, at, reader, name, PlainText(at, item.value), r, before);
    NotFailed(PlainText(at, item.value), r);
    PlainItemStep(cfg, at, reader, Stream(before, false, false, false), InfoOfName(cfg, name).value);
    PlainReads(at, item.value, r);
  }

  lemma NotFailed(text: string, r: string)
    ensures !AtValue(text, r).fail
  {
  }

  function BracedText(v: Value, text: string): string
    requires v.Sub? || v.U16Sub?
  {
    if v.Sub? then "{ " + text + "} " else Decimal(v.tag) + ";" + "{ " + text + "} "
  }

  /** From the value of an item with items to the first of them. */
  lemma BracedReads(cfg: Config, at: AddressText, info: DataItemInfo, v: Value, text: string, r: string)
    requires v.Sub? || v.U16Sub?
    requires text == "" || IsLetter(text[0])
    ensures var s := AtValue(BracedText(v, text), r);
            var inside := ParseToBrace(cfg, at, info, Left(BeforeBrace(text, r)));
            if v.Sub? then ParseItems(cfg, at, info, s) == inside
            else
              var n := ParseUint(s, 0xFFFF);
              && n.Some? && n.value.0 == v.tag
              && TakeSeparator(n.value.1).Some?
              && ParseItems(cfg, at, info, TakeSeparator(n.value.1).value) == inside
  {
    hide SkipSpaces, ParseItems, ParseToBrace, ParseUint, TakeSeparator, Decimal;
    var braced := "{ " + text + "} " + r;
    OneSpace(braced);
    if v.Sub? {
      assert BracedText(v, text) + r == braced;
      BraceReads(cfg, at, info, text, r, " " + braced);
    } else {
      assert BracedText(v, text) + r == Decimal(v.tag) + (";" + braced);
      SpacedUintReads(v.tag, 0xFFFF, ";" + braced);
      SeparatorReads(braced);
      BraceReads(cfg, at, info, text, r, braced);
    }
  }

  /** The items of an item, from the opening brace on, given that they can be read up to the closing one. */
  lemma SubItemReads(cfg: Config, at: AddressText, item: Item, writer: Scope, reader: Scope, before: string, r: string,
                     text: string)
    requires Written(cfg, at, item, writer, r == "") && (item.value.Sub? || item.value.U16Sub?)
    requires text == "" || IsLetter(text[0])
    requires SkipSpaces(before) == NameOfId(cfg, item.id, writer).value + " " + BracedText(item.value, text) + r
    requires var info := InfoOfId(cfg, item.id, writer).value;
             ReadsItems(ParseToBrace(cfg, at, info, Left(BeforeBrace(text, r))), item.value.items, r,
                        AllResolve(cfg, item.value.items, PrintScope(info, writer), Some(info)))
    ensures ReadsItem(ParseItem(cfg, at, reader, Stream(before, false, false, false)), item, r,
                      Resolves(cfg, item, writer, reader))
  {
    hide SkipSpaces, ReadWord, ParseItems, ParseToBrace, ParseUint, TakeSeparator, IdOfName, NameOfId, PrintScope,
      BracedText, BeforeBrace, NameOk, Written;
    WrittenName(cfg, at, item, writer, r == "");
    var name, info := NameOfId(cfg, item.id, writer).value, InfoOfId(cfg, item.id, writer).value;
    NameReads(cfg, at, reader, name, BracedText(item.value, text), r, before);
    BracedReads(cfg, at, info, item.value, text, r);
    OneSpace(r);
  }

  lemma {:induction false} ItemReads(cfg: Config, at: AddressText, item: Item, writer: Scope, reader: Scope,
                                     before: string, r: string)
    requires Written(cfg, at, item, writer, r == "") && Ending(r)
    requires ToText(cfg, at, item, writer).Some? && SkipSpaces(before) == ToText(cfg, at, item, writer).value + r
    ensures ReadsItem(ParseItem(cfg, at, reader, Stream(before, false, false, false)), item, r,
                      Resolves(cfg, item, writer, reader))
    decreases item, 1
  {
    hide SkipSpaces, ParseItem, PlainText, Ending, Resolves, AllResolve, ReadsItem, ReadsItems, ItemsText;
    if item.value.Sub? || item.value.U16Sub? {
      var info := InfoOfId(cfg, item.id, writer).value;
      var inner := PrintScope(info, writer);
      var text := ItemsText(cfg, at, item.value.items, inner).value;
      ItemsTextStarts(cfg, at, item.value.items, inner);
      ItemsRead(cfg, at, item.value.items, inner, info, r);
      SubItemReads(cfg, at, item, writer, reader, before, r, text);
    } else {
      PlainItemReads(cfg, at, item, writer, reader, before, r);
    }
  }

  /** Where no brace closes, an item is read, and then the rest. */
  lemma OneMoreItem(cfg: Config, at: AddressText, info: DataItemInfo, text: string)
    requires text != "" && IsLetter(text[0])
    ensures var p := ParseItem(cfg, at, Some(info), Left(text));
            ParseToBrace(cfg, at, info, Left(text)) ==
            if p.None? then None
            else
              var rest := ParseToBrace(cfg, at, info, SkipWhitespace(p.value.1));
              if rest.None? then None else Some(([p.value.0] + rest.value.0, rest.value.1))
  {
    hide ParseItem, SkipWhitespace;
  }

  /** What is known of the first item and of the rest makes up what is known of all. */
  lemma ItemsCombine(cfg: Config, at: AddressText, items: seq<Item>, writer: Scope, info: DataItemInfo,
                     first: string, rest: string, r: string)
    requires items != [] && first != "" && IsLetter(first[0]) && (rest == "" || IsLetter(rest[0]))
    requires ReadsItem(ParseItem(cfg, at, Some(info), Left(first + (" " + BeforeBrace(rest, r)))), items[0],
                       " " + BeforeBrace(rest, r), Resolves(cfg, items[0], writer, Some(info)))
    requires ReadsItems(ParseToBrace(cfg, at, info, Left(BeforeBrace(rest, r))), items[1..], r,
                        AllResolve(cfg, items[1..], writer, Some(info)))
    ensures ReadsItems(ParseToBrace(cfg, at, info, Left(first + (" " + BeforeBrace(rest, r)))), items, r,
                       AllResolve(cfg, items, writer, Some(info)))
  {
    hide SkipSpaces, ParseItem, ParseToBrace, Resolves, AllResolve, Resumes, SkipWhitespace, Follows;
    var text := first + (" " + BeforeBrace(rest, r));
    OneMoreItem(cfg, at, info, text);
    if Resolves(cfg, items[0], writer, Some(info)) {
      Resumed(ParseItem(cfg, at, Some(info), Left(text)).value.1, rest, r);
    }
    AllOfFirstAndRest(cfg, items, writer, Some(info));
    assert [items[0]] + items[1..] == items;
  }

  lemma {:induction false} ItemsRead(cfg: Config, at: AddressText, items: seq<Item>, writer: Scope,
                                     info: DataItemInfo, r: string)
    requires AllWritten(cfg, at, items, writer) && ItemsText(cfg, at, items, writer).Some?
    ensures var text := ItemsText(cfg, at, items, writer).value;
            ReadsItems(ParseToBrace(cfg, at, info, Left(BeforeBrace(text, r))), items, r,
                       AllResolve(cfg, items, writer, Some(info)))
    decreases items, 2
  {
    if items == [] {
      NoItemsRead(cfg, at, info, r);
    } else {
      hide SkipSpaces, ParseItem, ParseToBrace, Written, Resolves, AllResolve, ToText, Follows, ReadsItem, ReadsItems;
      var first, rest := ToText(cfg, at, items[0], writer).value, ItemsText(cfg, at, items[1..], writer).value;
      var after := " " + BeforeBrace(rest, r);
      assert BeforeBrace(ItemsText(cfg, at, items, writer).value, r) == first + after;
      assert forall sub :: sub in items[1..] ==> sub in items;
      ItemTextStarts(cfg, at, items[0], writer, false);
      ItemsTextStarts(cfg, at, items[1..], writer);
      NextFollows(rest, r);
      OneSpace(first + after);
      ItemReads(cfg, at, items[0], writer, Some(info), first + after, after);
      ItemsRead(cfg, at, items[1..], writer, info, r);
      ItemsCombine(cfg, at, items, writer, info, first, rest, r);
    }
  }

  lemma NoItemsRead(cfg: Config, at: AddressText, info: DataItemInfo, r: string)
    ensures ParseToBrace(cfg, at, info, Left(BeforeBrace("", r))) == Some(([], Stream(" " + r, false, false, false)))
  {
    assert BeforeBrace("", r) == "} " + r && ("} " + r)[1..] == " " + r;
  }

  lemma AllOfFirstAndRest(cfg: Config, items: seq<Item>, writer: Scope, reader: Scope)
    requires items != []
    ensures AllResolve(cfg, items, writer, reader) <==>
            Resolves(cfg, items[0], writer, reader) && AllResolve(cfg, items[1..], writer, reader)
  {
    hide Resolves;
    assert items == [items[0]] + items[1..];
  }

  /**
   Text and back: for every item tree that has a text which can be read at all, reading the text
   of an item in the same scope gives the item if and only if every name resolves.
   */
  lemma TextRoundTripExactly(cfg: Config, at: AddressText, item: Item, scope: Scope)
    requires Written(cfg, at, item, scope, true)
    ensures ToText(cfg, at, item, scope).Some?
    ensures FromText(cfg, at, ToText(cfg, at, item, scope).value, scope) == Some(item) <==>
            Resolves(cfg, item, scope, scope)
  {
    hide Written, ToText, ParseItem, Resolves;
    TextExists(cfg, at, item, scope, true);
    var text := ToText(cfg, at, item, scope).value;
    ItemTextStarts(cfg, at, item, scope, true);
    OneSpace(text);
    assert text + "" == text;
    ItemReads(cfg, at, item, scope, scope, text, "");
  }

  /** Every id resolves in the scope it is named in, and whatever holds items lists some in its definition. */
  ghost predicate ResolvesInScope(cfg: Config, item: Item, scope: Scope)
    decreases item
  {
    var name, info := NameOfId(cfg, item.id, scope), InfoOfId(cfg, item.id, scope);
    && info.Some? && IdOfName(cfg, name.value, scope) == Some(item.id)
    && (item.value.Sub? || item.value.U16Sub? ==>
          && |info.value.subDataItems| > 0
          && forall sub :: sub in item.value.items ==> ResolvesInScope(cfg, sub, info))
  }

  lemma {:induction false} ScopesAgree(cfg: Config, item: Item, scope: Scope)
    requires ResolvesInScope(cfg, item, scope)
    ensures Resolves(cfg, item, scope, scope)
    decreases item
  {
    if item.value.Sub? || item.value.U16Sub? {
      var info := InfoOfId(cfg, item.id, scope);
      forall sub | sub in item.value.items
        ensures Resolves(cfg, sub, info, info)
      {
        ScopesAgree(cfg, sub, info);
      }
    }
  }

  /** So the documented inverse holds wherever definitions of items with items list what they hold. */
  lemma TextRoundTrip(cfg: Config, at: AddressText, item: Item, scope: Scope)
    requires Written(cfg, at, item, scope, true) && ResolvesInScope(cfg, item, scope)
    ensures ToText(cfg, at, item, scope).Some?
    ensures FromText(cfg, at, ToText(cfg, at, item, scope).value, scope) == Some(item)
  {
    hide Written, ResolvesInScope, Resolves, ToText, FromText;
    ScopesAgree(cfg, item, scope);
    TextRoundTripExactly(cfg, at, item, scope);
  }
}
