/**
 CRC-16/MODBUS.  The reference is the bit-by-bit procedure of section 6.2.2 of
 "MODBUS over Serial Line Specification and Implementation Guide V1.02": exclusive-or the
 byte into the low half of the register, then eight times shift right and, if a 1 fell out,
 exclusive-or the generator 0xA001.
 */
module Crc {
  import opened Bytes

  // ---- the reference -----------------------------------------------------------------------

  predicate Odd(x: bv16) { x & 1 == 1 }

  function Half(x: bv16): bv16 { x >> 1 }

  /** Exclusive-or with the generator polynomial. */
  function Flip(x: bv16): bv16 { x ^ 0xA001 }

  function Xor(x: bv16, y: bv16): bv16 { x ^ y }

  /** One shift of the register. */
  function Shift(crc: bv16): bv16 {
    if Odd(crc) then Flip(Half(crc)) else Half(crc)
  }

  function Shift8(crc: bv16): bv16 {
    Shift(Shift(Shift(Shift(Shift(Shift(Shift(Shift(crc))))))))
  }

  function ShiftTimes(crc: bv16, n: nat): bv16
    decreases n
  {
    if n == 0 then crc else ShiftTimes(Shift(crc), n - 1)
  }

  lemma ShiftEight(crc: bv16)
    ensures ShiftTimes(crc, 8) == Shift8(crc)
  {
    hide Shift;
  }

  // A byte is a number and a register is a row of bits; the two are related four bits at a time.

  function NibbleBits(n: nat): bv16
    requires n < 16
  {
    if n == 0 then 0 else if n == 1 then 1 else if n == 2 then 2 else if n == 3 then 3
    else if n == 4 then 4 else if n == 5 then 5 else if n == 6 then 6 else if n == 7 then 7
    else if n == 8 then 8 else if n == 9 then 9 else if n == 10 then 10 else if n == 11 then 11
    else if n == 12 then 12 else if n == 13 then 13 else if n == 14 then 14 else 15
  }

  function NibbleValue(x: bv16): (n: nat)
    requires x < 0x10
    ensures n < 16 && NibbleBits(n) == x
  {
    if x == 0 then 0 else if x == 1 then 1 else if x == 2 then 2 else if x == 3 then 3
    else if x == 4 then 4 else if x == 5 then 5 else if x == 6 then 6 else if x == 7 then 7
    else if x == 8 then 8 else if x == 9 then 9 else if x == 10 then 10 else if x == 11 then 11
    else if x == 12 then 12 else if x == 13 then 13 else if x == 14 then 14 else 15
  }

  /** The bits of a byte. */
  function Bits(b: byte): bv16 {
    JoinNibbles(NibbleBits(b / 16), NibbleBits(b % 16))
  }

  function JoinNibbles(high: bv16, low: bv16): bv16 { (high << 4) | low }

  function LowNibble(x: bv16): (y: bv16)
    ensures y < 0x10
  {
    x & 0xF
  }

  function HighNibble(x: bv16): (y: bv16)
    requires x < 0x100
    ensures y < 0x10
  {
    x >> 4
  }

  /** The byte with these bits. */
  function ByteValue(x: bv16): byte
    requires x < 0x100
  {
    16 * NibbleValue(HighNibble(x)) + NibbleValue(LowNibble(x))
  }

  function LowByte(x: bv16): (y: bv16)
    ensures y < 0x100
  {
    x & 0xFF
  }

  function HighByte(x: bv16): (y: bv16)
    ensures y < 0x100
  {
    x >> 8
  }

  /** The number in the register. */
  function Value(x: bv16): u16 {
    ByteValue(LowByte(x)) as int + 256 * ByteValue(HighByte(x)) as int
  }

  function ByteStep(crc: bv16, b: byte): bv16 {
    Shift8(Xor(crc, Bits(b)))
  }

  function CrcFrom(crc: bv16, data: ByteString): bv16
    decreases |data|
  {
    if data == [] then crc else CrcFrom(ByteStep(crc, data[0]), data[1..])
  }

  /** The CRC of a message. */
  function CrcOf(data: ByteString): bv16 { CrcFrom(0xFFFF, data) }

  /** The two CRC bytes in the order they are sent, low byte first. */
  function CrcBytes(crc: bv16): (b: ByteString)
    ensures |b| == 2
  {
    Le16(Value(crc))
  }

  lemma {:induction false} CrcAppend(crc: bv16, a: ByteString, b: ByteString)
    ensures CrcFrom(crc, a + b) == CrcFrom(CrcFrom(crc, a), b)
    decreases |a|
  {
    if a == [] {
      assert a + b == b;
    } else {
      assert (a + b)[0] == a[0] && (a + b)[1..] == a[1..] + b;
      CrcAppend(ByteStep(crc, a[0]), a[1..], b);
    }
  }

  // ---- the step is linear and injective ----------------------------------------------------

  lemma OddXor(a: bv16, b: bv16)
    ensures Odd(Xor(a, b)) <==> Odd(a) != Odd(b)
  {
  }

  lemma HalfXor(a: bv16, b: bv16)
    ensures Half(Xor(a, b)) == Xor(Half(a), Half(b))
  {
  }

  lemma FlipBoth(p: bv16, q: bv16)
    ensures Xor(Flip(p), Flip(q)) == Xor(p, q)
  {
  }

  lemma FlipLeft(p: bv16, q: bv16)
    ensures Xor(Flip(p), q) == Flip(Xor(p, q))
  {
  }

  lemma FlipRight(p: bv16, q: bv16)
    ensures Xor(p, Flip(q)) == Flip(Xor(p, q))
  {
  }

  lemma ShiftXor(a: bv16, b: bv16)
    ensures Shift(Xor(a, b)) == Xor(Shift(a), Shift(b))
  {
    hide Odd, Half, Flip, Xor;
    OddXor(a, b);
    HalfXor(a, b);
    if Odd(a) && Odd(b) {
      FlipBoth(Half(a), Half(b));
    } else if Odd(a) {
      FlipLeft(Half(a), Half(b));
    } else if Odd(b) {
      FlipRight(Half(a), Half(b));
    }
  }

  /** Eight shifts are linear over exclusive-or. */
  lemma Shift8Xor(a: bv16, b: bv16)
    ensures Shift8(Xor(a, b)) == Xor(Shift8(a), Shift8(b))
  {
    hide Shift, Xor;
    var p, q := a, b;
    ShiftXor(p, q);
    p, q := Shift(p), Shift(q);
    ShiftXor(p, q);
    p, q := Shift(p), Shift(q);
    ShiftXor(p, q);
    p, q := Shift(p), Shift(q);
    ShiftXor(p, q);
    p, q := Shift(p), Shift(q);
    ShiftXor(p, q);
    p, q := Shift(p), Shift(q);
    ShiftXor(p, q);
    p, q := Shift(p), Shift(q);
    ShiftXor(p, q);
    p, q := Shift(p), Shift(q);
    ShiftXor(p, q);
  }

  lemma ShiftInjective(a: bv16, b: bv16)
    requires Shift(a) == Shift(b)
    ensures a == b
  {
  }

  /** The top bit of the generator is set, so no shift forgets anything. */
  lemma {:induction false} ShiftTimesInjective(a: bv16, b: bv16, n: nat)
    requires ShiftTimes(a, n) == ShiftTimes(b, n)
    ensures a == b
    decreases n
  {
    hide Shift;
    if n > 0 {
      ShiftTimesInjective(Shift(a), Shift(b), n - 1);
      ShiftInjective(a, b);
    }
  }

  lemma Shift8Injective(a: bv16, b: bv16)
    requires Shift8(a) == Shift8(b)
    ensures a == b
  {
    hide Shift8;
    ShiftEight(a);
    ShiftEight(b);
    ShiftTimesInjective(a, b, 8);
  }

  lemma XorLeftInjective(a: bv16, b: bv16, x: bv16)
    requires a != b
    ensures Xor(a, x) != Xor(b, x)
  {
  }

  /** A common tail keeps different registers different. */
  lemma {:induction false} CrcFromInjective(c: bv16, d: bv16, data: ByteString)
    requires c != d
    ensures CrcFrom(c, data) != CrcFrom(d, data)
    decreases |data|
  {
    if data != [] {
      hide Shift8, Bits, Xor;
      XorLeftInjective(c, d, Bits(data[0]));
      if Shift8(Xor(c, Bits(data[0]))) == Shift8(Xor(d, Bits(data[0]))) {
        Shift8Injective(Xor(c, Bits(data[0])), Xor(d, Bits(data[0])));
      }
      CrcFromInjective(ByteStep(c, data[0]), ByteStep(d, data[0]), data[1..]);
    }
  }

  // ---- bytes as bits -----------------------------------------------------------------------

  lemma NibbleBound(n: nat)
    requires n < 16
    ensures NibbleBits(n) < 0x10 && NibbleValue(NibbleBits(n)) == n
  {
  }

  lemma NibblesOfJoin(high: bv16, low: bv16)
    requires high < 0x10 && low < 0x10
    ensures var x := JoinNibbles(high, low);
            x < 0x100 && LowNibble(x) == low && HighNibble(x) == high
  {
  }

  lemma JoinOfNibbles(x: bv16)
    requires x < 0x100
    ensures JoinNibbles(HighNibble(x), LowNibble(x)) == x
  {
  }

  lemma ValueOfBits(b: byte)
    ensures Bits(b) < 0x100 && ByteValue(Bits(b)) == b
  {
    hide NibbleBits, NibbleValue, JoinNibbles, LowNibble, HighNibble;
    NibbleBound(b / 16);
    NibbleBound(b % 16);
    NibblesOfJoin(NibbleBits(b / 16), NibbleBits(b % 16));
  }

  lemma BitsOfValue(x: bv16)
    requires x < 0x100
    ensures Bits(ByteValue(x)) == x
  {
    hide NibbleBits, NibbleValue, JoinNibbles, LowNibble, HighNibble;
    JoinOfNibbles(x);
  }

  lemma BitsInjective(a: byte, b: byte)
    requires Bits(a) == Bits(b)
    ensures a == b
  {
    hide Bits, ByteValue;
    ValueOfBits(a);
    ValueOfBits(b);
  }

  /** The two bytes sent are the low and the high half of the register. */
  lemma CrcBytesAreHalves(crc: bv16)
    ensures Bits(CrcBytes(crc)[0]) == LowByte(crc) && Bits(CrcBytes(crc)[1]) == HighByte(crc)
  {
    hide Bits, ByteValue, LowByte, HighByte;
    BitsOfValue(LowByte(crc));
    BitsOfValue(HighByte(crc));
    assert CrcBytes(crc)[0] == ByteValue(LowByte(crc)) && CrcBytes(crc)[1] == ByteValue(HighByte(crc));
  }

  // ---- known answers -----------------------------------------------------------------------

  lemma FirstByte(crc: bv16, b: byte, rest: ByteString)
    ensures CrcFrom(crc, [b] + rest) == CrcFrom(ByteStep(crc, b), rest)
  {
    hide ByteStep;
    assert ([b] + rest)[1..] == rest;
  }

  /** The example of section 6.2.2: the CRC of 02 07 is 1241 hexadecimal, sent as 41 12. */
  lemma CrcExample()
    ensures CrcOf([0x02, 0x07]) == 0x1241 && CrcBytes(CrcOf([0x02, 0x07])) == [0x41, 0x12]
  {
    FirstByte(0xFFFF, 0x02, [0x07]);
    FirstByte(ByteStep(0xFFFF, 0x02), 0x07, []);
    assert [0x02] + [0x07] == [0x02, 0x07] && [0x07] + [] == [0x07];
    hide ByteStep, Value;
    FirstStep();
    SecondStep();
    ExampleValue();
  }

  lemma FirstStep()
    ensures ByteStep(0xFFFF, 0x02) == 0x813E
  {
    assert Bits(0x02) == 0x0002;
  }

  lemma SecondStep()
    ensures ByteStep(0x813E, 0x07) == 0x1241
  {
    assert Bits(0x07) == 0x0007;
  }

  lemma ExampleValue()
    ensures Value(0x1241) == 0x1241
  {
  }

  // ---- the bitwise implementations ---------------------------------------------------------

  /** The inner loop of both bitwise implementations. */
  method ShiftLoop(start: bv16) returns (crc: bv16)
    ensures crc == Shift8(start)
  {
    crc := start;
    for k := 0 to 8
      invariant ShiftTimes(start, 8) == ShiftTimes(crc, 8 - k)
    {
      if crc & 0x0001 == 1 {
        crc := (crc >> 1) ^ 0xA001;
      } else {
        crc := crc >> 1;
      }
    }
    ShiftEight(start);
  }

  /** The bitwise CRC of the battery driver and of the capture decoder. */
  method CrcBitwise(data: ByteString) returns (crc: bv16)
    ensures crc == CrcOf(data)
  {
    crc := 0xFFFF;
    for i := 0 to |data|
      invariant CrcOf(data) == CrcFrom(crc, data[i..])
    {
      crc := Xor(crc, Bits(data[i]));
      crc := ShiftLoop(crc);
      assert data[i..][0] == data[i] && data[i..][1..] == data[i + 1..];
    }
  }

  // ---- the table-driven implementation -----------------------------------------------------

  /** The 256 entries, as eight runs of 32. */
  const CRC16_TABLE: seq<bv16> :=
    ((([
      0x0000, 0xC0C1, 0xC181, 0x0140, 0xC301, 0x03C0, 0x0280, 0xC241,
      0xC601, 0x06C0, 0x0780, 0xC741, 0x0500, 0xC5C1, 0xC481, 0x0440,
      0xCC01, 0x0CC0, 0x0D80, 0xCD41, 0x0F00, 0xCFC1, 0xCE81, 0x0E40,
      0x0A00, 0xCAC1, 0xCB81, 0x0B40, 0xC901, 0x09C0, 0x0880, 0xC841
    ] + [
      0xD801, 0x18C0, 0x1980, 0xD941, 0x1B00, 0xDBC1, 0xDA81, 0x1A40,
      0x1E00, 0xDEC1, 0xDF81, 0x1F40, 0xDD01, 0x1DC0, 0x1C80, 0xDC41,
      0x1400, 0xD4C1, 0xD581, 0x1540, 0xD701, 0x17C0, 0x1680, 0xD641,
      0xD201, 0x12C0, 0x1380, 0xD341, 0x1100, 0xD1C1, 0xD081, 0x1040
    ]) +
    ([
      0xF001, 0x30C0, 0x3180, 0xF141, 0x3300, 0xF3C1, 0xF281, 0x3240,
      0x3600, 0xF6C1, 0xF781, 0x3740, 0xF501, 0x35C0, 0x3480, 0xF441,
      0x3C00, 0xFCC1, 0xFD81, 0x3D40, 0xFF01, 0x3FC0, 0x3E80, 0xFE41,
      0xFA01, 0x3AC0, 0x3B80, 0xFB41, 0x3900, 0xF9C1, 0xF881, 0x3840
    ] + [
      0x2800, 0xE8C1, 0xE981, 0x2940, 0xEB01, 0x2BC0, 0x2A80, 0xEA41,
      0xEE01, 0x2EC0, 0x2F80, 0xEF41, 0x2D00, 0xEDC1, 0xEC81, 0x2C40,
      0xE401, 0x24C0, 0x2580, 0xE541, 0x2700, 0xE7C1, 0xE681, 0x2640,
      0x2200, 0xE2C1, 0xE381, 0x2340, 0xE101, 0x21C0, 0x2080, 0xE041
    ])) +
    (([
      0xA001, 0x60C0, 0x6180, 0xA141, 0x6300, 0xA3C1, 0xA281, 0x6240,
      0x6600, 0xA6C1, 0xA781, 0x6740, 0xA501, 0x65C0, 0x6480, 0xA441,
      0x6C00, 0xACC1, 0xAD81, 0x6D40, 0xAF01, 0x6FC0, 0x6E80, 0xAE41,
      0xAA01, 0x6AC0, 0x6B80, 0xAB41, 0x6900, 0xA9C1, 0xA881, 0x6840
    ] + [
      0x7800, 0xB8C1, 0xB981, 0x7940, 0xBB01, 0x7BC0, 0x7A80, 0xBA41,
      0xBE01, 0x7EC0, 0x7F80, 0xBF41, 0x7D00, 0xBDC1, 0xBC81, 0x7C40,
      0xB401, 0x74C0, 0x7580, 0xB541, 0x7700, 0xB7C1, 0xB681, 0x7640,
      0x7200, 0xB2C1, 0xB381, 0x7340, 0xB101, 0x71C0, 0x7080, 0xB041
    ]) +
    ([
      0x5000, 0x90C1, 0x9181, 0x5140, 0x9301, 0x53C0, 0x5280, 0x9241,
      0x9601, 0x56C0, 0x5780, 0x9741, 0x5500, 0x95C1, 0x9481, 0x5440,
      0x9C01, 0x5CC0, 0x5D80, 0x9D41, 0x5F00, 0x9FC1, 0x9E81, 0x5E40,
      0x5A00, 0x9AC1, 0x9B81, 0x5B40, 0x9901, 0x59C0, 0x5880, 0x9841
    ] + [
      0x8801, 0x48C0, 0x4980, 0x8941, 0x4B00, 0x8BC1, 0x8A81, 0x4A40,
      0x4E00, 0x8EC1, 0x8F81, 0x4F40, 0x8D01, 0x4DC0, 0x4C80, 0x8C41,
      0x4400, 0x84C1, 0x8581, 0x4540, 0x8701, 0x47C0, 0x4680, 0x8641,
      0x8201, 0x42C0, 0x4380, 0x8341, 0x4100, 0x81C1, 0x8081, 0x4040
    ])))

  lemma TableRun0(x: bv16)
    requires 0x00 <= x < 0x020
    ensures |CRC16_TABLE| == 256 && CRC16_TABLE[x as int] == Shift8(x)
  {
    if x < 0x10 {
    } else {
    }
  }

  lemma TableRun1(x: bv16)
    requires 0x20 <= x < 0x040
    ensures |CRC16_TABLE| == 256 && CRC16_TABLE[x as int] == Shift8(x)
  {
    if x < 0x30 {
    } else {
    }
  }

  lemma TableRun2(x: bv16)
    requires 0x40 <= x < 0x060
    ensures |CRC16_TABLE| == 256 && CRC16_TABLE[x as int] == Shift8(x)
  {
    if x < 0x50 {
    } else {
    }
  }

  lemma TableRun3(x: bv16)
    requires 0x60 <= x < 0x080
    ensures |CRC16_TABLE| == 256 && CRC16_TABLE[x as int] == Shift8(x)
  {
    if x < 0x70 {
    } else {
    }
  }

  lemma TableRun4(x: bv16)
    requires 0x80 <= x < 0x0A0
    ensures |CRC16_TABLE| == 256 && CRC16_TABLE[x as int] == Shift8(x)
  {
    if x < 0x90 {
    } else {
    }
  }

  lemma TableRun5(x: bv16)
    requires 0xA0 <= x < 0x0C0
    ensures |CRC16_TABLE| == 256 && CRC16_TABLE[x as int] == Shift8(x)
  {
    if x < 0xB0 {
    } else {
    }
  }

  lemma TableRun6(x: bv16)
    requires 0xC0 <= x < 0x0E0
    ensures |CRC16_TABLE| == 256 && CRC16_TABLE[x as int] == Shift8(x)
  {
    if x < 0xD0 {
    } else {
    }
  }

  lemma TableRun7(x: bv16)
    requires 0xE0 <= x < 0x100
    ensures |CRC16_TABLE| == 256 && CRC16_TABLE[x as int] == Shift8(x)
  {
    if x < 0xF0 {
    } else {
    }
  }

  /** Every table entry is what eight shifts make of its index. */
  lemma TableIsShift8(x: bv16)
    requires x < 0x100
    ensures |CRC16_TABLE| == 256 && CRC16_TABLE[x as int] == Shift8(x)
  {
    if x < 0x20 {
      TableRun0(x);
    } else if x < 0x40 {
      TableRun1(x);
    } else if x < 0x60 {
      TableRun2(x);
    } else if x < 0x80 {
      TableRun3(x);
    } else if x < 0xA0 {
      TableRun4(x);
    } else if x < 0xC0 {
      TableRun5(x);
    } else if x < 0xE0 {
      TableRun6(x);
    } else {
      TableRun7(x);
    }
  }

  lemma HighByteKept(crc: bv16, b: bv16)
    requires b < 0x100
    ensures HighByte(Xor(crc, b)) == HighByte(crc)
  {
  }

  lemma JoinHalves(x: bv16)
    ensures x == Xor(x & 0xFF00, LowByte(x))
  {
  }

  lemma Shift8High(x: bv16)
    ensures Shift8(x & 0xFF00) == HighByte(x)
  {
  }

  lemma Shift8Split(x: bv16)
    ensures Shift8(x) == Xor(HighByte(x), Shift8(LowByte(x)))
  {
    hide Shift8, LowByte, HighByte, Xor;
    JoinHalves(x);
    Shift8Xor(x & 0xFF00, LowByte(x));
    Shift8High(x);
  }

  /** One table step does the work of eight shifts. */
  lemma TableStep(crc: bv16, b: byte)
    ensures Xor(HighByte(crc), Shift8(LowByte(Xor(crc, Bits(b))))) == ByteStep(crc, b)
  {
    hide Shift8, LowByte, HighByte, Bits, Xor;
    ValueOfBits(b);
    HighByteKept(crc, Bits(b));
    Shift8Split(Xor(crc, Bits(b)));
  }

  /** A table entry, by the low byte of the register. */
  function TableEntry(x: bv16): (e: bv16)
    requires x < 0x100
    ensures e == Shift8(x)
  {
    TableIsShift8(x);
    CRC16_TABLE[x as int]
  }

  /** The table-driven loop computes the CRC that the bitwise loops compute. */
  method Crc16Modbus(data: ByteString) returns (crc: bv16)
    ensures crc == CrcOf(data)
  {
    crc := 0xFFFF;
    for i := 0 to |data|
      invariant CrcOf(data) == CrcFrom(crc, data[i..])
    {
      TableStep(crc, data[i]);
      crc := Xor(HighByte(crc), TableEntry(LowByte(Xor(crc, Bits(data[i])))));
      assert data[i..][0] == data[i] && data[i..][1..] == data[i + 1..];
    }
  }

  // ---- error bursts ------------------------------------------------------------------------

  function Diff(a: ByteString, b: ByteString, i: nat): bv16
    requires i < |a| == |b|
  {
    Xor(Bits(a[i]), Bits(b[i]))
  }

  /** The s lowest bits. */
  function LowMask(s: nat): bv16
    requires s < 8
  {
    if s == 0 then 0x00 else if s == 1 then 0x01 else if s == 2 then 0x03 else if s == 3 then 0x07
    else if s == 4 then 0x0F else if s == 5 then 0x1F else if s == 6 then 0x3F else 0x7F
  }

  predicate LowBitsClear(x: bv16, s: nat)
    requires s < 8
  {
    x & LowMask(s) == 0
  }

  predicate OnlyLowBits(x: bv16, s: nat)
    requires s < 8
  {
    x <= LowMask(s)
  }

  /**
   The two messages differ at most in a burst of 16 consecutive bits, in the order the bits are
   sent (low bit of each byte first), that begins at bit s of byte k.
   */
  predicate BurstAt(a: ByteString, b: ByteString, k: nat, s: nat) {
    && |a| == |b|
    && s < 8
    && (forall i | 0 <= i < |a| && (i < k || k + 2 < i) :: a[i] == b[i])
    && (k < |a| ==> LowBitsClear(Diff(a, b, k), s))
    && (k + 2 < |a| ==> OnlyLowBits(Diff(a, b, k + 2), s))
  }

  /** Three bytes of difference inside a 16-bit burst never cancel in the register. */
  lemma BurstBits(d0: bv16, d1: bv16, d2: bv16, s: nat)
    requires d0 < 0x100 && d1 < 0x100 && d2 < 0x100 && s < 8
    requires LowBitsClear(d0, s) && OnlyLowBits(d2, s)
    requires Shift8(Xor(Shift8(Xor(Shift8(d0), d1)), d2)) == 0
    ensures d0 == 0 && d1 == 0 && d2 == 0
  {
    hide Shift8, Xor, LowBitsClear, OnlyLowBits;
    ShiftZero();
    Shift8Injective(Xor(Shift8(Xor(Shift8(d0), d1)), d2), 0);
    XorZero(Shift8(Xor(Shift8(d0), d1)), d2);
    if s < 4 {
      BurstBitsLow(d0, d1, d2, s);
    } else {
      BurstBitsHigh(d0, d1, d2, s);
    }
  }

  lemma BurstBitsLow(d0: bv16, d1: bv16, d2: bv16, s: nat)
    requires d0 < 0x100 && d1 < 0x100 && s < 4
    requires LowBitsClear(d0, s) && OnlyLowBits(d2, s)
    requires Shift8(Xor(Shift8(d0), d1)) == d2
    ensures d0 == 0 && d1 == 0 && d2 == 0
  {
    if s == 0 {
    } else if s == 1 {
    } else if s == 2 {
    } else {
    }
  }

  lemma BurstBitsHigh(d0: bv16, d1: bv16, d2: bv16, s: nat)
    requires d0 < 0x100 && d1 < 0x100 && 4 <= s < 8
    requires LowBitsClear(d0, s) && OnlyLowBits(d2, s)
    requires Shift8(Xor(Shift8(d0), d1)) == d2
    ensures d0 == 0 && d1 == 0 && d2 == 0
  {
    if s == 4 {
    } else if s == 5 {
    } else if s == 6 {
    } else {
    }
  }

  lemma XorExchange(c: bv16, d: bv16, x: bv16, y: bv16)
    ensures Xor(Xor(c, x), Xor(d, y)) == Xor(Xor(c, d), Xor(x, y))
  {
    hide Xor;
    XorAssociative(c, x, Xor(d, y));
    XorAssociative(x, d, y);
    XorCommutes(x, d);
    XorAssociative(d, x, y);
    XorAssociative(c, d, Xor(x, y));
  }

  lemma XorAssociative(x: bv16, y: bv16, z: bv16)
    ensures Xor(Xor(x, y), z) == Xor(x, Xor(y, z))
  {
  }

  lemma XorCommutes(x: bv16, y: bv16)
    ensures Xor(x, y) == Xor(y, x)
  {
  }

  lemma XorZero(x: bv16, y: bv16)
    ensures Xor(x, y) == 0 <==> x == y
    ensures Xor(0, y) == y
  {
    XorSelf(y);
    XorIdentity(y);
    hide Xor;
    if x != y {
      XorLeftInjective(x, y, y);
    }
  }

  lemma XorSelf(x: bv16)
    ensures Xor(x, x) == 0
  {
  }

  lemma XorIdentity(x: bv16)
    ensures Xor(0, x) == x
  {
  }

  lemma XorBound(x: bv16, y: bv16)
    requires x < 0x100 && y < 0x100
    ensures Xor(x, y) < 0x100
  {
  }

  /** The difference of two registers after one byte each. */
  lemma StepDiff(c: bv16, d: bv16, x: byte, y: byte)
    ensures Xor(ByteStep(c, x), ByteStep(d, y)) == Shift8(Xor(Xor(c, d), Xor(Bits(x), Bits(y))))
  {
    hide Shift8, Xor, Bits;
    Shift8Xor(Xor(c, Bits(x)), Xor(d, Bits(y)));
    XorExchange(c, d, Bits(x), Bits(y));
  }

  lemma DiffZero(x: byte, y: byte)
    ensures Xor(Bits(x), Bits(y)) < 0x100
    ensures Xor(Bits(x), Bits(y)) == 0 ==> x == y
  {
    hide Xor, Bits;
    ValueOfBits(x);
    ValueOfBits(y);
    XorBound(Bits(x), Bits(y));
    XorZero(Bits(x), Bits(y));
    if Bits(x) == Bits(y) {
      BitsInjective(x, y);
    }
  }

  lemma ShiftZero()
    ensures Shift8(0) == 0
  {
  }

  lemma CrcFromOne(crc: bv16, data: ByteString)
    requires data != []
    ensures CrcFrom(crc, data) == CrcFrom(ByteStep(crc, data[0]), data[1..])
    ensures |data| == 1 ==> CrcFrom(crc, data) == ByteStep(crc, data[0])
  {
    hide ByteStep;
  }

  /** Two registers that differ by e meet again after the bytes only if this difference is zero. */
  function DiffAfter(e: bv16, a: ByteString, b: ByteString): bv16
    requires |a| == |b|
    decreases |a|
  {
    if a == [] then e else DiffAfter(Shift8(Xor(e, Diff(a, b, 0))), a[1..], b[1..])
  }

  lemma {:induction false} CrcDiff(c: bv16, d: bv16, a: ByteString, b: ByteString)
    requires |a| == |b|
    ensures Xor(CrcFrom(c, a), CrcFrom(d, b)) == DiffAfter(Xor(c, d), a, b)
    decreases |a|
  {
    hide Shift8, Xor, Bits, ByteStep;
    if a != [] {
      StepDiff(c, d, a[0], b[0]);
      CrcDiff(ByteStep(c, a[0]), ByteStep(d, b[0]), a[1..], b[1..]);
    }
  }

  lemma DiffAfterThree(a: ByteString, b: ByteString)
    requires 1 <= |a| == |b| <= 3
    ensures var d1 := if |a| > 1 then Diff(a, b, 1) else 0;
            var d2 := if |a| > 2 then Diff(a, b, 2) else 0;
            DiffAfter(0, a, b) == 0 ==> Shift8(Xor(Shift8(Xor(Shift8(Diff(a, b, 0)), d1)), d2)) == 0
  {
    hide Shift8, Xor, Bits;
    ShiftZero();
    XorZero(0, 0);
    XorZero(0, Diff(a, b, 0));
    var e1 := Shift8(Diff(a, b, 0));
    assert DiffAfter(0, a, b) == DiffAfter(e1, a[1..], b[1..]);
    if |a| > 1 {
      assert Diff(a[1..], b[1..], 0) == Diff(a, b, 1);
      var e2 := Shift8(Xor(e1, Diff(a, b, 1)));
      assert DiffAfter(e1, a[1..], b[1..]) == DiffAfter(e2, a[1..][1..], b[1..][1..]);
      if |a| > 2 {
        assert Diff(a[1..][1..], b[1..][1..], 0) == Diff(a, b, 2);
        var e3 := Shift8(Xor(e2, Diff(a, b, 2)));
        assert DiffAfter(e2, a[1..][1..], b[1..][1..]) == DiffAfter(e3, a[1..][1..][1..], b[1..][1..][1..]);
      }
    }
  }

  /** Every error burst of at most 16 bits changes the CRC, whatever register it starts from. */
  lemma BurstDetected(crc: bv16, a: ByteString, b: ByteString, k: nat, s: nat)
    requires BurstAt(a, b, k, s)
    ensures CrcFrom(crc, a) == CrcFrom(crc, b) ==> a == b
  {
    hide Shift8, Xor, Bits, CrcFrom, ByteStep, LowBitsClear, OnlyLowBits;
    if |a| <= k {
      assert a == b;
    } else {
      var e := if k + 3 <= |a| then k + 3 else |a|;
      assert a[..k] == b[..k] && a[e..] == b[e..];
      assert a == a[..k] + (a[k..e] + a[e..]) && b == b[..k] + (b[k..e] + b[e..]);
      var c := CrcFrom(crc, a[..k]);
      assert Diff(a[k..e], b[k..e], 0) == Diff(a, b, k);
      assert e == k + 3 ==> Diff(a[k..e], b[k..e], 2) == Diff(a, b, k + 2);
      BurstInside(c, a[k..e], b[k..e], s);
      CrcAppend(crc, a[..k], a[k..e] + a[e..]);
      CrcAppend(crc, b[..k], b[k..e] + b[e..]);
      CrcAppend(c, a[k..e], a[e..]);
      CrcAppend(c, b[k..e], b[e..]);
      if CrcFrom(c, a[k..e]) != CrcFrom(c, b[k..e]) {
        CrcFromInjective(CrcFrom(c, a[k..e]), CrcFrom(c, b[k..e]), a[e..]);
      }
    }
  }

  lemma BurstInside(c: bv16, a: ByteString, b: ByteString, s: nat)
    requires 1 <= |a| == |b| <= 3 && s < 8
    requires LowBitsClear(Diff(a, b, 0), s)
    requires |a| > 2 ==> OnlyLowBits(Diff(a, b, 2), s)
    ensures CrcFrom(c, a) == CrcFrom(c, b) ==> a == b
  {
    hide Shift8, Xor, Bits, ByteStep, CrcFrom, LowBitsClear, OnlyLowBits;
    CrcDiff(c, c, a, b);
    XorZero(c, c);
    XorZero(CrcFrom(c, a), CrcFrom(c, b));
    DiffAfterThree(a, b);
    DiffZero(a[0], b[0]);
    if |a| > 1 {
      DiffZero(a[1], b[1]);
    }
    if |a| > 2 {
      DiffZero(a[2], b[2]);
    }
    if CrcFrom(c, a) == CrcFrom(c, b) {
      ZeroShiftedRight(s);
      var d1 := if |a| > 1 then Diff(a, b, 1) else 0;
      var d2 := if |a| > 2 then Diff(a, b, 2) else 0;
      BurstBits(Diff(a, b, 0), d1, d2, s);
      assert forall i | 0 <= i < |a| :: a[i] == b[i];
    }
  }

  lemma ZeroShiftedRight(s: nat)
    requires s < 8
    ensures OnlyLowBits(0, s)
  {
  }

  // ---- the residue -------------------------------------------------------------------------

  lemma ResidueStep(crc: bv16)
    ensures Shift8(Xor(Shift8(Xor(crc, LowByte(crc))), HighByte(crc))) == 0
  {
    assert Xor(crc, LowByte(crc)) == crc & 0xFF00;
    Shift8High(crc);
    SameCancels(HighByte(crc));
    ShiftsOfZero();
    hide Shift8, Xor, LowByte, HighByte;
  }

  lemma SameCancels(x: bv16)
    ensures Xor(x, x) == 0
  {
  }

  lemma ShiftsOfZero()
    ensures Shift8(0) == 0
  {
  }

  /**
   A message followed by two bytes has CRC zero exactly when the two bytes are the CRC of the
   message, low byte first.
   */
  lemma ResidueIffTrailer(data: ByteString, trailer: ByteString)
    requires |trailer| == 2
    ensures CrcOf(data + trailer) == 0 <==> trailer == CrcBytes(CrcOf(data))
  {
    hide Shift8, Xor, Bits, LowByte, HighByte, CrcBytes;
    var crc := CrcOf(data);
    var good := CrcBytes(crc);
    CrcAppend(0xFFFF, data, trailer);
    CrcAppend(0xFFFF, data, good);
    CrcBytesAreHalves(crc);
    ResidueStep(crc);
    CrcFromOne(crc, good);
    CrcFromOne(ByteStep(crc, good[0]), good[1..]);
    if trailer != good {
      TwoByteChange(crc, trailer, good);
    }
  }

  lemma TwoByteChange(crc: bv16, a: ByteString, b: ByteString)
    requires |a| == |b| == 2
    ensures CrcFrom(crc, a) == CrcFrom(crc, b) ==> a == b
  {
    hide Shift8, Xor, Bits, CrcFrom;
    assert BurstAt(a, b, 0, 0);
    BurstDetected(crc, a, b, 0, 0);
  }
}
