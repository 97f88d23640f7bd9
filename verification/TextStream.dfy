/**
 The parts of a C++ input string stream that the text parser of DataItem.cpp uses: the characters
 left, the two error bits, and the number base.  Every extraction first needs a good stream.
 */
module TextStream {
  import opened Wrappers
  import opened Serialize

  datatype Stream = Stream(rest: string, fail: bool, eof: bool, hex: bool) {
    predicate Good() {
      !fail && !eof
    }
  }

  function Opened(text: string): Stream {
    Stream(text, false, false, false)
  }

  predicate IsSpace(c: char) {
    c == ' ' || 9 <= c as int <= 13
  }

  predicate IsLetter(c: char) {
    'a' <= c <= 'z' || 'A' <= c <= 'Z'
  }

  predicate IsDigit(c: char, hex: bool) {
    '0' <= c <= '9' || (hex && ('a' <= c <= 'f' || 'A' <= c <= 'F'))
  }

  function DigitValue(c: char): nat
    requires IsDigit(c, true)
  {
    if c <= '9' then c as int - '0' as int
    else if c <= 'F' then c as int - 'A' as int + 10
    else c as int - 'a' as int + 10
  }

  function SkipSpaces(s: string): (r: string)
    ensures |r| <= |s| && (r != [] ==> !IsSpace(r[0]))
  {
    if s != [] && IsSpace(s[0]) then SkipSpaces(s[1..]) else s
  }

  /** How many characters come before the first space. */
  function WordLength(s: string): (n: nat)
    ensures n <= |s| && (forall i :: 0 <= i < n ==> !IsSpace(s[i])) && (n < |s| ==> IsSpace(s[n]))
  {
    if s == [] || IsSpace(s[0]) then 0 else 1 + WordLength(s[1..])
  }

  /** How many characters come before the first that is no digit. */
  function DigitCount(s: string, hex: bool): (n: nat)
    ensures n <= |s| && (forall i :: 0 <= i < n ==> IsDigit(s[i], hex)) && (n < |s| ==> !IsDigit(s[n], hex))
  {
    if s == [] || !IsDigit(s[0], hex) then 0 else 1 + DigitCount(s[1..], hex)
  }

  function DigitsValue(s: string, hex: bool): nat
    requires forall i :: 0 <= i < |s| ==> IsDigit(s[i], hex)
  {
    if s == [] then 0
    else
      assert IsDigit(s[|s| - 1], hex);
      DigitsValue(s[..|s| - 1], hex) * (if hex then 16 else 10) + DigitValue(s[|s| - 1])
  }

  /** Extract a word: skip spaces, take characters up to the next one; nothing to take is a failure. */
  function ReadWord(s: Stream): (r: (string, Stream))
    ensures |r.1.rest| <= |s.rest| && (!r.1.fail ==> |r.1.rest| < |s.rest|)
  {
    if !s.Good() then ("", s.(fail := true))
    else
      var rest := SkipSpaces(s.rest);
      if rest == [] then ("", s.(rest := [], fail := true, eof := true))
      else
        var n := WordLength(rest);
        (rest[..n], s.(rest := rest[n..], eof := n == |rest|))
  }

  /**
   Extract an unsigned 64-bit number: skip spaces, take an optional sign, in base 16 an optional
   0x, and digits.  No digits, or a value over 64 bits, is a failure; a minus sign negates modulo 2^64.
   */
  function ReadNumber(s: Stream): (r: (u64, Stream))
    ensures |r.1.rest| <= |s.rest| && (!r.1.fail ==> |r.1.rest| < |s.rest|)
    ensures r.1.hex == s.hex
  {
    if !s.Good() then (0, s.(fail := true))
    else
      var rest := SkipSpaces(s.rest);
      if rest == [] then (0, s.(rest := [], fail := true, eof := true))
      else
        var signed := rest[0] in "+-";
        var rest1 := if signed then rest[1..] else rest;
        var rest2 := if s.hex && |rest1| >= 2 && rest1[0] == '0' && rest1[1] in "xX" then rest1[2..] else rest1;
        var n := DigitCount(rest2, s.hex);
        var v := DigitsValue(rest2[..n], s.hex);
        var s' := s.(rest := rest2[n..], eof := n == |rest2|);
        if n == 0 || v >= 0x1_0000_0000_0000_0000 then (0, s'.(fail := true))
        else (if rest[0] == '-' then (0x1_0000_0000_0000_0000 - v) % 0x1_0000_0000_0000_0000 else v, s')
  }

  /** Look at the next character; there may be none. */
  function Peek(s: Stream): (Option<char>, Stream) {
    if !s.Good() then (None, s.(fail := true))
    else if s.rest == [] then (None, s.(eof := true))
    else (Some(s.rest[0]), s)
  }

  /** Drop the next character. */
  function Ignore(s: Stream): Stream {
    if !s.Good() then s.(fail := true)
    else if s.rest == [] then s.(eof := true)
    else s.(rest := s.rest[1..])
  }

  /** Take the next character; none is a failure. */
  function Get(s: Stream): (Option<char>, Stream) {
    if !s.Good() then (None, s.(fail := true))
    else if s.rest == [] then (None, s.(eof := true, fail := true))
    else (Some(s.rest[0]), s.(rest := s.rest[1..]))
  }

  /** `skip_whitespace`: look at a character and drop it, while it is a space. */
  function SkipWhitespace(s: Stream): (r: Stream)
    ensures |r.rest| <= |s.rest|
    decreases |s.rest|
  {
    if s.fail then s
    else
      var (c, s1) := Peek(s);
      if c.Some? && IsSpace(c.value) then SkipWhitespace(Ignore(s1)) else s1
  }

  // ---- Writing numbers

  function DigitChar(d: nat): char
    requires d < 16
  {
    if d < 10 then '0' + d as char else 'a' + (d - 10) as char
  }

  function Decimal(n: nat): string {
    if n < 10 then [DigitChar(n)] else Decimal(n / 10) + [DigitChar(n % 10)]
  }

  function HexByte(b: byte): string {
    [DigitChar(b / 16), DigitChar(b % 16)]
  }

  // ---- What reading gets from what was written

  lemma {:induction false} DigitsThenOther(digits: string, r: string, hex: bool)
    requires forall i :: 0 <= i < |digits| ==> IsDigit(digits[i], hex)
    requires r == [] || !IsDigit(r[0], hex)
    ensures DigitCount(digits + r, hex) == |digits|
  {
    if digits == [] {
      assert digits + r == r;
    } else {
      assert (digits + r)[1..] == digits[1..] + r;
      DigitsThenOther(digits[1..], r, hex);
    }
  }

  lemma {:induction false} WordThenSpace(word: string, r: string)
    requires forall i :: 0 <= i < |word| ==> !IsSpace(word[i])
    requires r == [] || IsSpace(r[0])
    ensures WordLength(word + r) == |word|
  {
    if word == [] {
      assert word + r == r;
    } else {
      assert (word + r)[1..] == word[1..] + r;
      WordThenSpace(word[1..], r);
    }
  }

  /** Decimal digits denote the number they were made from. */
  lemma {:induction false} DecimalValue(n: nat)
    ensures var s := Decimal(n);
            && s != [] && (forall i :: 0 <= i < |s| ==> IsDigit(s[i], false))
            && DigitsValue(s, false) == n
    decreases n
  {
    if n < 10 {
      assert [DigitChar(n)][..0] == [];
    } else {
      DecimalValue(n / 10);
      var front := Decimal(n / 10);
      assert Decimal(n)[..|front|] == front;
    }
  }

  lemma HexByteValue(b: byte)
    ensures var s := HexByte(b);
            && (forall i :: 0 <= i < |s| ==> IsDigit(s[i], true))
            && DigitsValue(s, true) == b
  {
    var s := HexByte(b);
    assert s[..1] == [s[0]] && s[..1][..0] == [];
    assert DigitsValue(s[..1], true) == DigitValue(s[0]) by {
      assert DigitsValue([], true) == 0;
    }
  }

  /** A stream with these characters left, that has come to its end if there are none. */
  function Left(r: string): Stream {
    Stream(r, false, r == [], false)
  }

  /** A written number is read back, up to what follows it. */
  lemma NumberReads(n: u64, before: string, r: string)
    requires SkipSpaces(before) == Decimal(n) + r
    requires r == [] || !IsDigit(r[0], false)
    ensures ReadNumber(Stream(before, false, false, false)) == (n, Left(r))
  {
    hide SkipSpaces, DigitCount, DigitsValue, Decimal;
    DecimalValue(n);
    var digits := Decimal(n);
    DigitsThenOther(digits, r, false);
    assert (digits + r)[..|digits|] == digits && (digits + r)[|digits|..] == r;
    assert IsDigit((digits + r)[0], false);
  }

  /** So is a written byte in base 16. */
  lemma HexByteReads(b: byte, before: string, r: string)
    requires SkipSpaces(before) == HexByte(b) + r
    requires r == [] || !IsDigit(r[0], true)
    ensures ReadNumber(Stream(before, false, false, true)) == (b, Left(r).(hex := true))
  {
    hide SkipSpaces, DigitCount, DigitsValue;
    HexByteValue(b);
    var digits := HexByte(b);
    DigitsThenOther(digits, r, true);
    assert (digits + r)[..2] == digits && (digits + r)[2..] == r;
    assert IsDigit((digits + r)[0], true) && IsDigit((digits + r)[1], true);
  }

  /** A written word is read back, up to the space that follows it. */
  lemma WordReads(word: string, before: string, r: string)
    requires word != [] && forall i :: 0 <= i < |word| ==> !IsSpace(word[i])
    requires SkipSpaces(before) == word + r
    requires r == [] || IsSpace(r[0])
    ensures ReadWord(Stream(before, false, false, false)) == (word, Left(r))
  {
    hide SkipSpaces, WordLength;
    WordThenSpace(word, r);
    assert (word + r)[..|word|] == word && (word + r)[|word|..] == r;
  }

  /** Skipping whitespace skips the spaces; at the end of the characters the stream notices. */
  lemma {:induction false} SkipWhitespaceSkips(before: string)
    requires SkipSpaces(before) != []
    ensures SkipWhitespace(Stream(before, false, false, false)) == Left(SkipSpaces(before))
  {
    if before != [] && IsSpace(before[0]) {
      SkipWhitespaceSkips(before[1..]);
    }
  }
}
