/**
 Unsigned integers in network byte order (Serialize.h).  `BigEndian` and `BigEndianValue` are
 the reference definitions; the methods are the four template families of the header, with
 their loops, their shifts and their error exits.
 */
module Serialize {
  import opened Wrappers

  type byte = x: int | 0 <= x < 256
  type u16 = x: int | 0 <= x < 0x1_0000
  type u32 = x: int | 0 <= x < 0x1_0000_0000
  type u64 = x: int | 0 <= x < 0x1_0000_0000_0000_0000

  /** Field sizes admitted by the protocol configuration schema: one to eight bytes. */
  type FieldSize = x: int | 1 <= x <= 8 witness 1

  /** How many values an n-byte field can hold. */
  function Pow256(n: nat): (r: nat)
    ensures r > 0
  {
    if n == 0 then 1 else 256 * Pow256(n - 1)
  }

  /** v shifted right by k bytes. */
  function ShiftRight(v: nat, k: nat): nat {
    if k == 0 then v else ShiftRight(v, k - 1) / 256
  }

  /** The low n bytes of v, most significant byte first. */
  function BigEndian(v: nat, n: nat): (s: seq<byte>)
    ensures |s| == n
  {
    if n == 0 then [] else BigEndian(v / 256, n - 1) + [v % 256]
  }

  /** The number that a byte string denotes, most significant byte first. */
  function BigEndianValue(s: seq<byte>): nat {
    if s == [] then 0 else BigEndianValue(s[..|s| - 1]) * 256 + s[|s| - 1]
  }

  lemma PowersOf256()
    ensures Pow256(1) == 0x100 && Pow256(2) == 0x1_0000 && Pow256(4) == 0x1_0000_0000
    ensures Pow256(8) == 0x1_0000_0000_0000_0000
  {
    assert Pow256(3) == 0x100_0000;
    assert Pow256(5) == 0x100_0000_0000;
    assert Pow256(6) == 0x1_0000_0000_0000;
  }

  lemma {:induction false} Pow256Monotonic(m: nat, n: nat)
    requires m <= n
    ensures Pow256(m) <= Pow256(n)
  {
    if m < n {
      Pow256Monotonic(m, n - 1);
    }
  }

  /** A byte string always denotes a number that fits a field of its own length. */
  lemma {:induction false} ValueFitsLength(s: seq<byte>)
    ensures BigEndianValue(s) < Pow256(|s|)
  {
    if s != [] {
      ValueFitsLength(s[..|s| - 1]);
    }
  }

  /** Reading back what was written gives the value, whenever the value fits the field. */
  lemma {:induction false} ValueOfBigEndian(v: nat, n: nat)
    requires v < Pow256(n)
    ensures BigEndianValue(BigEndian(v, n)) == v
  {
    if n > 0 {
      ValueOfBigEndian(v / 256, n - 1);
      var s := BigEndian(v, n);
      assert s[..n - 1] == BigEndian(v / 256, n - 1);
    }
  }

  /** Writing what was read gives back the same bytes: the wire form of a number is unique. */
  lemma {:induction false} BigEndianOfValue(s: seq<byte>)
    ensures BigEndian(BigEndianValue(s), |s|) == s
  {
    if s != [] {
      var front, last := s[..|s| - 1], s[|s| - 1];
      BigEndianOfValue(front);
      assert BigEndianValue(s) / 256 == BigEndianValue(front);
      assert BigEndianValue(s) % 256 == last;
    }
  }

  /** Shifting a value right by at least its width leaves nothing, so the leading bytes of a wider field are zero. */
  lemma {:induction false} ShiftOutOfRange(v: nat, width: nat, k: nat)
    requires v < Pow256(width) && width <= k
    ensures ShiftRight(v, k) == 0
  {
    if width == k {
      ShiftedFits(v, width, width);
    } else {
      ShiftOutOfRange(v, width, k - 1);
    }
  }

  lemma {:induction false} ShiftedFits(v: nat, width: nat, k: nat)
    requires v < Pow256(width) && k <= width
    ensures ShiftRight(v, k) < Pow256(width - k)
  {
    if k > 0 {
      ShiftedFits(v, width, k - 1);
    }
  }

  /** The ways in which these templates throw. */
  datatype Status = Ok | InvalidArgument | LengthError

  /**
   Serialize a value of a `width`-byte type into a field at a given place of a buffer.  At the
   end of the buffer the field is appended; elsewhere it overwrites.  A value that does not fit
   leaves the buffer alone; an overwrite that runs off the end keeps what it wrote so far.
   */
  method SerializeAt(val: nat, width: nat, fieldSize: nat, buf: seq<byte>, at: nat)
    returns (status: Status, out: seq<byte>)
    requires val < Pow256(width) && at <= |buf|
    ensures status.InvalidArgument? <==> val >= Pow256(fieldSize)
    ensures status.InvalidArgument? ==> out == buf
    ensures val < Pow256(fieldSize) && at == |buf| ==> status.Ok? && out == buf + BigEndian(val, fieldSize)
    ensures val < Pow256(fieldSize) && at < |buf| && at + fieldSize <= |buf| ==>
              status.Ok? && out == buf[..at] + BigEndian(val, fieldSize) + buf[at + fieldSize..]
    ensures val < Pow256(fieldSize) && at < |buf| < at + fieldSize ==>
              status.LengthError? && out == buf[..at] + BigEndian(val, fieldSize)[..|buf| - at]
  {
    hide Pow256, BigEndian, ShiftRight;
    out := buf;
    if width > fieldSize && val >= Pow256(fieldSize) {
      return InvalidArgument, out;
    }
    if width <= fieldSize {
      Pow256Monotonic(width, fieldSize);
    }
    var append := at == |buf|;
    ghost var whole := BigEndian(val, fieldSize);
    var it := at;
    var i := fieldSize;
    while i > 0
      invariant 0 <= i <= fieldSize && it == at + (fieldSize - i)
      invariant append ==> out == buf + whole[..fieldSize - i]
      invariant !append ==> it <= |buf| && out == buf[..at] + whole[..fieldSize - i] + buf[it..]
    {
      ghost var before := whole[..fieldSize - i];
      var oneByte: byte := 0;
      if i <= width {
        oneByte := ShiftRight(val, i - 1) % 256;
      } else {
        ShiftOutOfRange(val, width, i - 1);
      }
      NextByte(val, fieldSize, i);
      assert whole[..fieldSize - (i - 1)] == before + [oneByte];
      if append {
        out := out + [oneByte];
      } else {
        if it == |buf| {
          return LengthError, out;
        }
        out := out[it := oneByte];
      }
      it := it + 1;
      i := i - 1;
    }
    assert whole[..fieldSize] == whole;
    status := Ok;
  }

  /** The next byte of a field, from the most significant one on. */
  lemma NextByte(v: nat, n: nat, i: nat)
    requires 0 < i <= n
    ensures BigEndian(v, n)[..n - (i - 1)] == BigEndian(v, n)[..n - i] + [ShiftRight(v, i - 1) % 256]
  {
    BigEndianPrefix(v, n, n - i);
    BigEndianPrefix(v, n, n - i + 1);
  }

  lemma {:induction false} BigEndianPrefix(v: nat, n: nat, k: nat)
    requires k <= n
    ensures BigEndian(v, n)[..k] == BigEndian(ShiftRight(v, n - k), k)
    decreases n - k
  {
    if k == n {
      assert BigEndian(v, n)[..n] == BigEndian(v, n);
    } else {
      BigEndianPrefix(v, n, k + 1);
      var w := ShiftRight(v, n - k - 1);
      assert BigEndian(v, n)[..k] == BigEndian(v, n)[..k + 1][..k];
      assert BigEndian(w, k + 1)[..k] == BigEndian(w / 256, k);
    }
  }

  /** Serialize a value into a field of a given size and append it. */
  method SerializeField(val: nat, width: nat, fieldSize: nat, buf: seq<byte>)
    returns (status: Status, out: seq<byte>)
    requires val < Pow256(width)
    ensures val >= Pow256(fieldSize) ==> status.InvalidArgument? && out == buf
    ensures val < Pow256(fieldSize) ==> status.Ok? && out == buf + BigEndian(val, fieldSize)
  {
    status, out := SerializeAt(val, width, fieldSize, buf, |buf|);
  }

  /** Serialize a value of a `width`-byte type in full and append it; this cannot fail. */
  method SerializeWhole(val: nat, width: nat, buf: seq<byte>) returns (out: seq<byte>)
    requires val < Pow256(width)
    ensures out == buf + BigEndian(val, width)
  {
    out := buf;
    ghost var whole := BigEndian(val, width);
    ShiftOutOfRange(val, width, width);
    var i := width;
    while i > 0
      invariant 0 <= i <= width
      invariant whole[..width - i] == BigEndian(ShiftRight(val, i), width - i)
      invariant out == buf + whole[..width - i]
    {
      BigEndianPrefix(val, width, width - i + 1);
      ghost var oneByte := ShiftRight(val, i - 1) % 256;
      assert BigEndian(ShiftRight(val, i - 1), width - i + 1) == whole[..width - i] + [oneByte];
      out := out + [ShiftRight(val, i - 1) % 256];
      i := i - 1;
    }
    assert whole[..width] == whole;
  }

  /**
   Deserialize a field of a given size into a `width`-byte type, from an iterator `it` that may
   not pass `itEnd`.  The accumulator is a 64-bit word, so only the last eight bytes of a longer
   field survive.
   */
  method DeserializeField(buf: seq<byte>, width: nat, fieldSize: nat, it: nat, itEnd: nat)
    returns (status: Status, value: nat, next: nat)
    requires it <= itEnd <= |buf|
    ensures status.LengthError? <==> it + fieldSize > itEnd
    ensures it + fieldSize <= itEnd ==> next == it + fieldSize
    ensures it + fieldSize <= itEnd ==>
              (status.Ok? <==> BigEndianValue(buf[it..it + fieldSize]) % Pow256(8) < Pow256(width))
    ensures status.Ok? ==> value == BigEndianValue(buf[it..it + fieldSize]) % Pow256(8)
    ensures fieldSize <= 8 && it + fieldSize <= itEnd ==>
              BigEndianValue(buf[it..it + fieldSize]) % Pow256(8) == BigEndianValue(buf[it..it + fieldSize])
  {
    value, next := 0, it;
    var val64 := 0;
    var i := fieldSize;
    while i > 0 && next != itEnd
      invariant 0 <= i <= fieldSize && it <= next <= itEnd && next == it + (fieldSize - i)
      invariant val64 == BigEndianValue(buf[it..next]) % Pow256(8)
    {
      assert buf[it..next + 1][..next - it] == buf[it..next];
      PowersOf256();
      ShiftedInWord(BigEndianValue(buf[it..next]), buf[next]);
      val64 := val64 * 256 % 0x1_0000_0000_0000_0000 + buf[next];
      i := i - 1;
      next := next + 1;
    }
    if i > 0 {
      return LengthError, 0, next;
    }
    if fieldSize <= 8 {
      ShortFieldFitsWord(buf[it..next]);
    }
    if val64 >= Pow256(width) {
      return InvalidArgument, 0, next;
    }
    return Ok, val64, next;
  }

  /** Shifting a byte into a 64-bit word drops what overflows. */
  lemma ShiftedInWord(v: nat, b: byte)
    ensures v % 0x1_0000_0000_0000_0000 * 256 % 0x1_0000_0000_0000_0000 + b == (v * 256 + b) % 0x1_0000_0000_0000_0000
  {
    var r := v % 0x1_0000_0000_0000_0000;
    var high, low := r / 0x100_0000_0000_0000, r % 0x100_0000_0000_0000;
    WordOf(high, low * 256);
    WordOf(v / 0x1_0000_0000_0000_0000 * 256 + high, low * 256 + b);
    assert r * 256 == high * 0x1_0000_0000_0000_0000 + low * 256;
  }

  lemma WordOf(q: nat, r: nat)
    requires r < 0x1_0000_0000_0000_0000
    ensures (q * 0x1_0000_0000_0000_0000 + r) % 0x1_0000_0000_0000_0000 == r
  {
  }

  lemma ShortFieldFitsWord(s: seq<byte>)
    requires |s| <= 8
    ensures BigEndianValue(s) % Pow256(8) == BigEndianValue(s)
  {
    ValueFitsLength(s);
    Pow256Monotonic(|s|, 8);
  }

  /** Deserialize a whole `width`-byte type; only running out of input can go wrong. */
  method DeserializeWhole(buf: seq<byte>, width: nat, it: nat, itEnd: nat)
    returns (status: Status, value: nat, next: nat)
    requires it <= itEnd <= |buf|
    ensures status.Ok? <==> it + width <= itEnd
    ensures !status.InvalidArgument?
    ensures status.Ok? ==> next == it + width && value == BigEndianValue(buf[it..next])
    ensures status.Ok? ==> value < Pow256(width)
  {
    value, next := 0, it;
    var i := width;
    while i > 0 && next != itEnd
      invariant 0 <= i <= width && it <= next <= itEnd && next == it + (width - i)
      invariant value == BigEndianValue(buf[it..next])
      invariant value < Pow256(next - it)
    {
      assert buf[it..next + 1][..next - it] == buf[it..next];
      ValueFitsLength(buf[it..next + 1]);
      value := value * 256 + buf[next];
      i := i - 1;
      next := next + 1;
    }
    status := if i > 0 then LengthError else Ok;
  }
}
