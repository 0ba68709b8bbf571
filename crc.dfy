/** CRC-16/XMODEM as `message_handler/crc.py` computes it: polynomial 0x1021
    (x^16 + x^12 + x^5 + 1, the polynomial of ITU-T V.41), initial register 0,
    no reflection, no final XOR, the register packed as two bytes in the
    host's native (little-endian) order. */
module Crc {
  import opened Base
  import opened Auxiliary

  /** One round of `crc_xmodem`: shift left, and XOR the polynomial 0x1021 in
      if bit 15 was set before the shift. */
  function Round(reg: bv16): bv16
  {
    if reg & 0x8000 != 0 then (reg << 1) ^ 0x1021 else reg << 1
  }

  function Rounds(reg: bv16, n: nat): bv16
    decreases n
  {
    if n == 0 then reg else Rounds(Round(reg), n - 1)
  }

  /** `crc_xmodem(crc, data)` for a data byte: XOR it into the high 8 bits,
      then eight rounds. */
  function Step(reg: bv16, b: byte): (r: bv16)
    ensures r == 0 <==> reg == High(b)
  {
    ZeroRounds(reg ^ High(b), 8);
    Rounds(reg ^ High(b), 8)
  }

  /** Rounds map 0 to 0 and nothing else to 0. */
  lemma {:induction false} ZeroRounds(x: bv16, n: nat)
    ensures Rounds(x, n) == 0 <==> x == 0
    decreases n
  {
    if n > 0 {
      if x != 0 {
        RoundNonZero(x);
      }
      ZeroRounds(Round(x), n - 1);
    }
  }

  /** A data byte placed in the high half of the register. */
  function High(b: byte): bv16
  {
    (b as bv16) << 8
  }

  /** The register after feeding `buf` to `crc_xmodem`, starting from `reg`. */
  function Register(reg: bv16, buf: seq<byte>): (r: bv16)
    ensures reg == 0 && (forall i :: 0 <= i < |buf| ==> buf[i] == 0) ==> r == 0
    decreases |buf|
  {
    if buf == [] then reg else Register(Step(reg, buf[0]), buf[1..])
  }

  /** `crc(buffer)`: the register for `buffer` from 0, packed as `H`. */
  function CrcOf(buf: seq<byte>): (r: seq<byte>)
    ensures |r| == 2
  {
    Uint16ToRaw(Register(0, buf) as int)
  }

  /** `unpack_crc`: the register back from its two packed bytes. */
  function UnpackCrc(c: seq<byte>): (r: int)
    requires |c| == 2
    ensures 0 <= r <= 0xffff
  {
    RawToUint16(c)
  }

  /** The byte `struct.unpack('b', ...)` yields: the same octet read as signed. */
  function Signed(b: byte): (v: int)
    ensures -128 <= v < 128
    ensures v % 256 == b
  {
    if b < 128 then b else b - 256
  }

  /** `crc_xmodem`: the register is first XORed with `data << 8` and cut to 16
      bits, then shifted through eight rounds. Only the low 16 bits of
      `crc ^ (data << 8)` survive the mask, so `crc` enters modulo 0x10000
      and `data` modulo 256 (for a negative `data` too: the host language's
      integers behave as two's complement under `&` and `^`). */
  method CrcXmodem(crc: int, data: int) returns (r: int)
    ensures 0 <= r <= 0xffff
    ensures r == Step((crc % 0x1_0000) as bv16, data % 256) as int
  {
    var reg: bv16 := ((crc % 0x1_0000) as bv16) ^ (((data % 256) as bv16) << 8);
    ghost var start := reg;
    XmodemStart(crc, data, start);
    for i := 0 to 8
      invariant Rounds(reg, 8 - i) == Rounds(start, 8)
    {
      ghost var prev := reg;
      if reg & 0x8000 != 0 {
        reg := (reg << 1) ^ 0x1021;
      } else {
        reg := reg << 1;
      }
      assert reg == Round(prev);
    }
    assert reg == Rounds(start, 8);
    BvBound(reg);
    r := reg as int;
  }

  lemma XmodemStart(crc: int, data: int, start: bv16)
    requires start == ((crc % 0x1_0000) as bv16) ^ (((data % 256) as bv16) << 8)
    ensures Rounds(start, 8) == Step((crc % 0x1_0000) as bv16, data % 256)
  {
  }

  /** `crc(buffer)`: fold `crc_xmodem` over the bytes, read as signed, from 0. */
  method Crc(buffer: seq<byte>) returns (r: seq<byte>)
    ensures r == CrcOf(buffer)
    ensures UnpackCrc(r) == Register(0, buffer) as int
  {
    var reg := 0;
    for i := 0 to |buffer|
      invariant reg == Register(0, buffer[..i]) as int
    {
      ghost var prev := reg;
      reg := CrcXmodem(reg, Signed(buffer[i]));
      CrcLoopStep(buffer, i, prev, reg);
    }
    assert buffer[..|buffer|] == buffer;
    r := Uint16ToRaw(reg);
  }

  lemma CrcLoopStep(buffer: seq<byte>, i: nat, reg: int, next: int)
    requires i < |buffer|
    requires reg == Register(0, buffer[..i]) as int
    requires next == Step((reg % 0x1_0000) as bv16, Signed(buffer[i]) % 256) as int
    ensures next == Register(0, buffer[..i + 1]) as int
  {
    var R := Register(0, buffer[..i]);
    BvBound(R);
    ModIdentity(R as int);
    BvIntBv(R);
    RegisterSnoc(0, buffer[..i], buffer[i]);
    assert buffer[..i + 1] == buffer[..i] + [buffer[i]];
  }

  lemma BvBound(x: bv16)
    ensures 0 <= x as int < 0x1_0000
  {
  }

  lemma BvIntBv(x: bv16)
    ensures (x as int) as bv16 == x
  {
  }

  lemma ModIdentity(k: int)
    requires 0 <= k < 0x1_0000
    ensures k % 0x1_0000 == k
  {
  }

  /** The CRC is incremental: the register for `a + b` is the register for
      `b` started from the register for `a`. */
  lemma {:induction false} RegisterAppend(reg: bv16, a: seq<byte>, b: seq<byte>)
    ensures Register(reg, a + b) == Register(Register(reg, a), b)
    decreases |a|
  {
    if a != [] {
      assert (a + b)[1..] == a[1..] + b;
      RegisterAppend(Step(reg, a[0]), a[1..], b);
    } else {
      assert a + b == b;
    }
  }

  lemma RegisterSnoc(reg: bv16, a: seq<byte>, b: byte)
    ensures Register(reg, a + [b]) == Step(Register(reg, a), b)
  {
    RegisterAppend(reg, a, [b]);
    assert [b][1..] == [];
  }

  /** The CRC of the empty buffer is two zero bytes. */
  lemma CrcOfEmpty()
    ensures CrcOf([]) == [0, 0]
  {
  }

  /** The published check value of CRC-16/XMODEM: the ASCII digits
      "123456789" give the register 0x31C3. */
  lemma XmodemCheckValue()
    ensures Register(0, [0x31, 0x32, 0x33, 0x34, 0x35, 0x36, 0x37, 0x38, 0x39]) == 0x31C3
  {
    var digits: seq<byte> := [0x31, 0x32, 0x33, 0x34, 0x35, 0x36, 0x37, 0x38, 0x39];
    assert digits == [0x31, 0x32, 0x33] + ([0x34, 0x35, 0x36] + [0x37, 0x38, 0x39]);
    XmodemDigits123();
    XmodemDigits456();
    XmodemDigits789();
    RegisterAppend(0, [0x31, 0x32, 0x33], [0x34, 0x35, 0x36] + [0x37, 0x38, 0x39]);
    RegisterAppend(0x9752, [0x34, 0x35, 0x36], [0x37, 0x38, 0x39]);
  }

  /** The check value as `crc` packs it, low byte first. */
  lemma XmodemCheckBytes(digits: seq<byte>)
    requires digits == [0x31, 0x32, 0x33, 0x34, 0x35, 0x36, 0x37, 0x38, 0x39]
    ensures CrcOf(digits) == [0xC3, 0x31]
  {
    XmodemCheckValue();
    CheckValueAsInt(Register(0, digits));
    assert CrcOf(digits) == Uint16ToRaw(0x31C3);
    PackCheckValue();
  }

  lemma CheckValueAsInt(r: bv16)
    requires r == 0x31C3
    ensures r as int == 0x31C3
  {
  }

  lemma PackCheckValue()
    ensures Uint16ToRaw(0x31C3) == [0xC3, 0x31]
  {
  }

  lemma XmodemDigits123()
    ensures Register(0, [0x31, 0x32, 0x33]) == 0x9752
  {
    assert Step(0x0000, 0x31) == 0x2672;
    assert Step(0x2672, 0x32) == 0x20B5;
    assert Step(0x20B5, 0x33) == 0x9752;
  }

  lemma XmodemDigits456()
    ensures Register(0x9752, [0x34, 0x35, 0x36]) == 0x20E4
  {
    assert Step(0x9752, 0x34) == 0xD789;
    assert Step(0xD789, 0x35) == 0x546C;
    assert Step(0x546C, 0x36) == 0x20E4;
  }

  lemma XmodemDigits789()
    ensures Register(0x20E4, [0x37, 0x38, 0x39]) == 0x31C3
  {
    assert Step(0x20E4, 0x37) == 0x86D6;
    assert Step(0x86D6, 0x38) == 0x9015;
    assert Step(0x9015, 0x39) == 0x31C3;
  }

  function Zeros(n: nat): (z: seq<byte>)
    ensures |z| == n && forall i :: 0 <= i < n ==> z[i] == 0
  {
    seq(n, i => 0)
  }

  /** Leading zero bytes never change the CRC, as the register starts at 0. */
  lemma {:induction false} LeadingZerosIgnored(n: nat, buf: seq<byte>)
    ensures CrcOf(Zeros(n) + buf) == CrcOf(buf)
  {
    ZerosKeepZero(n);
    RegisterAppend(0, Zeros(n), buf);
  }

  lemma {:induction false} ZerosKeepZero(n: nat)
    ensures Register(0, Zeros(n)) == 0
  {
    if n > 0 {
      assert Step(0, 0) == 0;
      assert Zeros(n)[1..] == Zeros(n - 1);
      ZerosKeepZero(n - 1);
    }
  }

  // ---- any error confined to one byte is detected ----

  lemma TopBitXor(x: bv16, y: bv16)
    ensures ((x ^ y) & 0x8000 != 0) == ((x & 0x8000 != 0) != (y & 0x8000 != 0))
  {
  }

  lemma ShiftXor(x: bv16, y: bv16)
    ensures (x ^ y) << 1 == (x << 1) ^ (y << 1)
  {
  }

  lemma XorRegroup(a: bv16, b: bv16, c: bv16)
    ensures (a ^ c) ^ (b ^ c) == a ^ b
    ensures (a ^ c) ^ b == (a ^ b) ^ c
  {
  }

  lemma XorCommutes(a: bv16, b: bv16)
    ensures a ^ b == b ^ a
  {
  }

  lemma XorNonZero(a: bv16, b: bv16)
    requires a != b
    ensures a ^ b != 0
  {
  }

  lemma NonZeroXor(a: bv16, b: bv16)
    requires a ^ b != 0
    ensures a != b
  {
  }

  lemma XorKeepsApart(a: bv16, b: bv16, h: bv16)
    requires a != b
    ensures a ^ h != b ^ h && h ^ a != h ^ b
  {
  }

  lemma RoundLinearBoth(x: bv16, y: bv16)
    requires x & 0x8000 != 0 && y & 0x8000 != 0
    ensures Round(x ^ y) == Round(x) ^ Round(y)
  {
    TopBitXor(x, y);
    ShiftXor(x, y);
    XorRegroup(x << 1, y << 1, 0x1021);
  }

  lemma RoundLinearOne(x: bv16, y: bv16)
    requires x & 0x8000 != 0 && y & 0x8000 == 0
    ensures Round(x ^ y) == Round(x) ^ Round(y)
  {
    TopBitXor(x, y);
    ShiftXor(x, y);
    XorRegroup(x << 1, y << 1, 0x1021);
  }

  lemma RoundLinearNone(x: bv16, y: bv16)
    requires x & 0x8000 == 0 && y & 0x8000 == 0
    ensures Round(x ^ y) == Round(x) ^ Round(y)
  {
    TopBitXor(x, y);
    ShiftXor(x, y);
  }

  /** A round is linear over GF(2): it multiplies by x modulo the
      polynomial. */
  lemma RoundLinear(x: bv16, y: bv16)
    ensures Round(x ^ y) == Round(x) ^ Round(y)
  {
    if x & 0x8000 != 0 && y & 0x8000 != 0 {
      RoundLinearBoth(x, y);
    } else if x & 0x8000 != 0 {
      RoundLinearOne(x, y);
    } else if y & 0x8000 != 0 {
      RoundLinearOne(y, x);
      XorCommutes(x, y);
      XorCommutes(Round(x), Round(y));
    } else {
      RoundLinearNone(x, y);
    }
  }

  /** A round never maps a non-zero register to zero, since the polynomial's
      constant term is 1. */
  lemma RoundNonZero(x: bv16)
    requires x != 0
    ensures Round(x) != 0
  {
  }

  lemma RoundInjective(x: bv16, y: bv16)
    requires x != y
    ensures Round(x) != Round(y)
  {
    XorNonZero(x, y);
    RoundNonZero(x ^ y);
    RoundLinear(x, y);
    NonZeroXor(Round(x), Round(y));
  }

  lemma {:induction false} RoundsInjective(x: bv16, y: bv16, n: nat)
    requires x != y
    ensures Rounds(x, n) != Rounds(y, n)
    decreases n
  {
    if n > 0 {
      RoundInjective(x, y);
      RoundsInjective(Round(x), Round(y), n - 1);
    }
  }

  lemma ByteAsBv(a: byte)
    ensures (a as bv16) as int == a
    ensures a as bv16 < 256
  {
  }

  lemma ShiftHighByte(x: bv16, y: bv16)
    requires x < 256 && y < 256 && x != y
    ensures x << 8 != y << 8
  {
  }

  lemma HighInjective(a: byte, b: byte)
    requires a != b
    ensures High(a) != High(b)
  {
    ByteAsBv(a);
    ByteAsBv(b);
    ShiftHighByte(a as bv16, b as bv16);
  }

  /** With the register fixed, different bytes give different registers. */
  lemma StepInjectiveInByte(reg: bv16, a: byte, b: byte)
    requires a != b
    ensures Step(reg, a) != Step(reg, b)
  {
    HighInjective(a, b);
    XorKeepsApart(High(a), High(b), reg);
    RoundsInjective(reg ^ High(a), reg ^ High(b), 8);
  }

  /** With the byte fixed, different registers give different registers. */
  lemma StepInjectiveInRegister(r1: bv16, r2: bv16, c: byte)
    requires r1 != r2
    ensures Step(r1, c) != Step(r2, c)
  {
    XorKeepsApart(r1, r2, High(c));
    RoundsInjective(r1 ^ High(c), r2 ^ High(c), 8);
  }

  /** Feeding the same bytes keeps two different registers apart. */
  lemma {:induction false} RegisterInjective(r1: bv16, r2: bv16, buf: seq<byte>)
    requires r1 != r2
    ensures Register(r1, buf) != Register(r2, buf)
    decreases |buf|
  {
    if buf != [] {
      StepInjectiveInRegister(r1, r2, buf[0]);
      RegisterInjective(Step(r1, buf[0]), Step(r2, buf[0]), buf[1..]);
    }
  }

  lemma BvIntNe(x: bv16, y: bv16)
    requires x != y
    ensures x as int != y as int
  {
    BvIntBv(x);
    BvIntBv(y);
  }

  /** Different registers are packed into different CRC bytes. */
  lemma CrcOfDiffers(a: seq<byte>, b: seq<byte>)
    requires Register(0, a) != Register(0, b)
    ensures CrcOf(a) != CrcOf(b)
  {
    BvIntNe(Register(0, a), Register(0, b));
  }

  lemma SingleByteChangesRegister(buf: seq<byte>, p: nat, v: byte)
    requires p < |buf| && v != buf[p]
    ensures Register(0, buf[p := v]) != Register(0, buf)
  {
    var pre, post := buf[..p], buf[p + 1..];
    assert buf == (pre + [buf[p]]) + post;
    assert buf[p := v] == (pre + [v]) + post;
    RegisterAppend(0, pre + [buf[p]], post);
    RegisterAppend(0, pre + [v], post);
    RegisterSnoc(0, pre, buf[p]);
    RegisterSnoc(0, pre, v);
    var r := Register(0, pre);
    StepInjectiveInByte(r, v, buf[p]);
    RegisterInjective(Step(r, v), Step(r, buf[p]), post);
  }

  /** Replacing any one byte of a buffer by a different value changes its
      CRC; in particular every single-bit error is detected, which is what
      the frame check of the message handler relies on. */
  lemma SingleByteErrorDetected(buf: seq<byte>, p: nat, v: byte)
    requires p < |buf| && v != buf[p]
    ensures CrcOf(buf[p := v]) != CrcOf(buf)
  {
    SingleByteChangesRegister(buf, p, v);
    CrcOfDiffers(buf[p := v], buf);
  }
}
