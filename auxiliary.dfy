/** The small integer helpers of `auxiliary_module.py`: the wrapping `Uint16`
    integer, the little-endian pack/unpack helpers and the hex dump of a byte
    string; plus the reading of hexadecimal text the parsers rely on. */
module Auxiliary {
  import opened Base

  /** `Uint16` reduces every value modulo 0xffff (not 0x10000). */
  const UINT16_WRAP: int := 0xffff

  /** The values a `Uint16` can hold: `0..0xfffe`. */
  type Uint16 = v: int | 0 <= v < 0xffff

  /** `Uint16(value)`: the unique value in `0..0xfffe` congruent to `value`
      modulo 0xffff (the host language's `%` is non-negative for a positive
      divisor, as Dafny's is). */
  function ToUint16(value: int): (r: Uint16)
    ensures (value - r) % UINT16_WRAP == 0
    ensures 0 <= value < UINT16_WRAP ==> r == value
  {
    value % UINT16_WRAP
  }

  /** `Uint16.__add__`: the sum re-wrapped. */
  function Add(a: Uint16, other: int): (r: Uint16)
    ensures (a + other - r) % UINT16_WRAP == 0
    ensures 0 <= a + other < UINT16_WRAP ==> r == a + other
    ensures a + other == UINT16_WRAP ==> r == 0
  {
    ToUint16(a + other)
  }

  /** `Uint16.__sub__`: the difference re-wrapped; below zero it wraps to a
      non-negative value. */
  function Sub(a: Uint16, other: int): (r: Uint16)
    ensures (a - other - r) % UINT16_WRAP == 0
    ensures 0 <= a - other < UINT16_WRAP ==> r == a - other
    ensures -UINT16_WRAP <= a - other < 0 ==> r == a - other + UINT16_WRAP
  {
    ToUint16(a - other)
  }

  /** `Uint16.__mul__`: the product re-wrapped. */
  function Mul(a: Uint16, other: int): (r: Uint16)
    ensures (a * other - r) % UINT16_WRAP == 0
  {
    ToUint16(a * other)
  }

  /** Integer division of the host language (`int.__div__` on integers),
      which rounds toward minus infinity. */
  function FloorDiv(a: int, b: int): (q: int)
    requires b != 0
    ensures b > 0 ==> b * q <= a < b * q + b
    ensures b < 0 ==> b * q >= a > b * q + b
  {
    if b > 0 then a / b else (-a) / (-b)
  }

  /** `Uint16.__div__`: the floor quotient re-wrapped. A positive divisor
      gives the plain quotient. A negative one gives a floor quotient in
      `-a..0`, which wraps to 0 when it is 0 and to `q + 0xffff` otherwise,
      so `r - 0xffff` satisfies the bounds of floor division by `other`. */
  function Div(a: Uint16, other: int): (r: Uint16)
    requires other != 0
    ensures other > 0 ==> r == a / other
    ensures other < 0 && a == 0 ==> r == 0
    ensures other < 0 && a > 0 ==>
      r > 0 && other * (r - UINT16_WRAP) >= a > other * (r - UINT16_WRAP) + other
  {
    var q := FloorDiv(a, other);
    assert other > 0 ==> q == a / other && 0 <= q < UINT16_WRAP by {
      if other > 0 {
        DivBelow(a, other);
      }
    }
    assert other < 0 ==> 0 <= q + a && q <= 0 && (a > 0 ==> q < 0) by {
      if other < 0 {
        NegativeDivBounds(a, other, q);
      }
    }
    ToUint16(q)
  }

  /** Floor division of a non-negative value by a negative divisor lies in
      `-a..0`, and is negative when `a` is positive. */
  lemma NegativeDivBounds(a: int, b: int, q: int)
    requires a >= 0 && b < 0
    requires b * q >= a > b * q + b
    ensures 0 <= q + a && q <= 0
    ensures a > 0 ==> q < 0
  {
    if q + a < 0 {
      var k := -(q + 1);
      assert b * (q + 1) == (-b) * k;
      MulAtLeast(-b, k);
    }
  }

  lemma DivBelow(a: nat, b: int)
    requires b > 0
    ensures 0 <= a / b <= a
  {
    var q := a / b;
    assert a == b * q + a % b;
    MulAtLeast(b, q);
  }

  lemma MulAtLeast(b: int, q: nat)
    requires b >= 1
    ensures b * q >= q
  {
    var k := b - 1;
    assert b * q == k * q + q;
    assert k * q >= 0;
  }

  /** Adding and then subtracting the same amount gives the value back. */
  lemma AddSubInverse(a: Uint16, b: int)
    ensures Sub(Add(a, b), b) == a
  {
    var s := Add(a, b);
    assert (a + b - s) % UINT16_WRAP == 0;
    var r := Sub(s, b);
    assert (s - b - r) % UINT16_WRAP == 0;
    assert (a - r) % UINT16_WRAP == 0 by {
      ModSumOfMultiples(a + b - s, s - b - r);
    }
  }

  lemma ModSumOfMultiples(x: int, y: int)
    requires x % UINT16_WRAP == 0 && y % UINT16_WRAP == 0
    ensures (x + y) % UINT16_WRAP == 0
  {
    var p := x / UINT16_WRAP;
    var q := y / UINT16_WRAP;
    assert x == UINT16_WRAP * p;
    assert y == UINT16_WRAP * q;
    assert x + y == UINT16_WRAP * (p + q);
  }

  // ---- struct pack / unpack, native little-endian order ----

  /** `uint16_to_raw`: `struct.pack('H', u)`, two bytes, low byte first. */
  function Uint16ToRaw(u: int): (r: seq<byte>)
    requires 0 <= u <= 0xffff
    ensures |r| == 2 && r[0] as int + 256 * (r[1] as int) == u
  {
    [u % 256, u / 256]
  }

  /** `uint8_to_raw`: `struct.pack('B', u)`. */
  function Uint8ToRaw(u: int): (r: seq<byte>)
    requires 0 <= u <= 0xff
    ensures |r| == 1 && r[0] == u
  {
    [u]
  }

  /** `struct.pack('I', u)`, four bytes, low byte first. */
  function Uint32ToRaw(u: int): (r: seq<byte>)
    requires 0 <= u < 0x1_0000_0000
    ensures |r| == 4
    ensures r[0] as int + 0x100 * (r[1] as int) + 0x1_0000 * (r[2] as int)
      + 0x100_0000 * (r[3] as int) == u
  {
    Uint16ToRaw(u % 0x1_0000) + Uint16ToRaw(u / 0x1_0000)
  }

  /** `uint_to_raw`: one byte up to 0xff, two bytes above. */
  function UintToRaw(u: int): (r: seq<byte>)
    requires 0 <= u <= 0xffff
    ensures |r| == (if u <= 0xff then 1 else 2)
    ensures RawToUint(r) == u
  {
    if u > 0xff then Uint16ToRaw(u) else Uint8ToRaw(u)
  }

  /** `raw_to_uint16`: `struct.unpack('H', raw)`. */
  function RawToUint16(raw: seq<byte>): (u: int)
    requires |raw| == 2
    ensures 0 <= u <= 0xffff
    ensures Uint16ToRaw(u) == raw
  {
    raw[0] as int + 256 * (raw[1] as int)
  }

  /** `raw_to_uint8`: `struct.unpack('B', raw)`. */
  function RawToUint8(raw: seq<byte>): (u: int)
    requires |raw| == 1
    ensures 0 <= u <= 0xff && [u] == raw
  {
    raw[0]
  }

  /** `struct.unpack('I', raw)`. */
  function RawToUint32(raw: seq<byte>): (u: int)
    requires |raw| == 4
    ensures 0 <= u < 0x1_0000_0000
    ensures u == raw[0] as int + 0x100 * (raw[1] as int) + 0x1_0000 * (raw[2] as int)
      + 0x100_0000 * (raw[3] as int)
    ensures Uint32ToRaw(u) == raw
  {
    var lo := RawToUint16(raw[..2]);
    var hi := RawToUint16(raw[2..]);
    assert Uint32ToRaw(lo + 0x1_0000 * hi) == raw by {
      SplitWord(lo + 0x1_0000 * hi, hi, lo);
      assert raw == raw[..2] + raw[2..];
    }
    lo + 0x1_0000 * hi
  }

  /** A value written as `hi * 0x10000 + lo` splits back into those halves. */
  lemma SplitWord(u: int, hi: int, lo: int)
    requires 0 <= lo < 0x1_0000 && u == 0x1_0000 * hi + lo
    ensures u / 0x1_0000 == hi && u % 0x1_0000 == lo
  {
  }

  /** `raw_to_uint`: two bytes read as `H`, otherwise one byte read as `B`. */
  function RawToUint(raw: seq<byte>): (u: int)
    requires |raw| == 1 || |raw| == 2
    ensures 0 <= u <= (if |raw| == 1 then 0xff else 0xffff)
    ensures |raw| == 1 ==> [u] == raw
    ensures |raw| == 2 ==> Uint16ToRaw(u) == raw
  {
    if |raw| == 2 then RawToUint16(raw) else RawToUint8(raw)
  }

  // ---- hexadecimal text ----

  predicate IsHexDigit(c: char)
  {
    '0' <= c <= '9' || 'a' <= c <= 'f' || 'A' <= c <= 'F'
  }

  function HexDigitValue(c: char): (v: nat)
    requires IsHexDigit(c)
    ensures v < 16
  {
    if '0' <= c <= '9' then c as int - '0' as int
    else if 'a' <= c <= 'f' then c as int - 'a' as int + 10
    else c as int - 'A' as int + 10
  }

  function Pow16(n: nat): (p: nat)
    ensures p >= 1
  {
    if n == 0 then 1 else 16 * Pow16(n - 1)
  }

  /** `int(s, 16)` on a string of hex digits: `None` where the host language
      raises `ValueError` (an empty string or a non-digit). */
  function HexValue(s: string): (r: Option<nat>)
    ensures r.Some? <==> |s| > 0 && forall i :: 0 <= i < |s| ==> IsHexDigit(s[i])
    ensures r.Some? ==> r.value < Pow16(|s|)
  {
    if |s| == 0 || !IsHexDigit(s[|s| - 1]) then None
    else if |s| == 1 then Some(HexDigitValue(s[0]))
    else match HexValue(s[..|s| - 1])
      case None => None
      case Some(v) => Some(16 * v + HexDigitValue(s[|s| - 1]))
  }

  /** The upper-case digit `"{:X}"` prints for a value below 16. */
  function HexDigitChar(n: nat): (c: char)
    requires n < 16
    ensures IsHexDigit(c) && HexDigitValue(c) == n
    ensures !('a' <= c <= 'f')
  {
    "0123456789ABCDEF"[n]
  }

  /** The three characters `"{:02X} "` prints for one byte. */
  function ByteToHex(b: byte): (r: string)
    ensures |r| == 3 && r[2] == ' '
    ensures HexValue(r[..2]) == Some(b as nat)
    ensures forall j :: 0 <= j < 3 ==> !('a' <= r[j] <= 'f')
  {
    var r := [HexDigitChar(b / 16), HexDigitChar(b % 16), ' '];
    assert r[..2][..1] == [HexDigitChar(b / 16)];
    r
  }

  /** `raw_str_to_hex`: each byte printed as two upper-case hex digits and a
      space. */
  function RawStrToHex(raw: seq<byte>): (r: string)
    ensures |r| == 3 * |raw|
  {
    if raw == [] then "" else ByteToHex(raw[0]) + RawStrToHex(raw[1..])
  }

  /** The hex dump is readable back: the `i`-th printed pair, read as
      hexadecimal, is the `i`-th byte; it is followed by a space, and no
      lower-case digit is ever printed. */
  lemma {:induction false} RawStrToHexAt(raw: seq<byte>, i: nat)
    requires i < |raw|
    ensures HexValue(RawStrToHex(raw)[3 * i..3 * i + 2]) == Some(raw[i] as nat)
    ensures RawStrToHex(raw)[3 * i + 2] == ' '
    ensures forall j :: 3 * i <= j < 3 * i + 3 ==> !('a' <= RawStrToHex(raw)[j] <= 'f')
  {
    var r := RawStrToHex(raw);
    var head := ByteToHex(raw[0]);
    var rest := RawStrToHex(raw[1..]);
    assert r == head + rest;
    if i == 0 {
      assert r[0..2] == head[..2];
    } else {
      RawStrToHexAt(raw[1..], i - 1);
      PastHead(head, rest, i);
    }
  }

  /** Past a three-character head, the `i`-th group of a concatenation is
      the `(i - 1)`-th group of the rest. */
  lemma PastHead(head: string, rest: string, i: nat)
    requires |head| == 3 && 1 <= i && 3 * i + 3 <= |head| + |rest|
    ensures (head + rest)[3 * i..3 * i + 2] == rest[3 * (i - 1)..3 * (i - 1) + 2]
    ensures forall j :: 3 * i <= j < 3 * i + 3 ==> (head + rest)[j] == rest[j - 3]
  {
  }
}
