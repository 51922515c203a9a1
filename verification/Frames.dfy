/**
 LuxPower frames: the fields of one frame, the meaning of a byte string as a frame, and the
 step-by-step parser.
 */
module Frames {
  import opened Wrappers
  import opened Bytes

  const PREFIX: ByteString := [0xA1, 0x1A]
  const HEADER_SIZE: nat := 18

  const TCP_HEARTBEAT: byte := 0xC1
  const TCP_TRANSLATED_DATA: byte := 0xC2

  const READ_HOLD: byte := 3
  const READ_INPUT: byte := 4
  const WRITE_SINGLE: byte := 6
  const WRITE_MULTI: byte := 16

  datatype LuxFrame = LuxFrame(
    protocol: u16,
    tcpFunction: byte,
    datalogSerial: string,
    raw: ByteString,
    address: byte,
    deviceFunction: byte,
    inverterSerial: string,
    register: u16,
    values: seq<u16>,
    writeCount: u16,
    isError: bool,
    errorCode: byte)
  {
    predicate IsTranslatedData() { tcpFunction == TCP_TRANSLATED_DATA }

    predicate IsReadInput() { deviceFunction == READ_INPUT }

    predicate IsReadHold() { deviceFunction == READ_HOLD }
  }

  /** A frame before its data part is looked at. */
  function HeaderOnly(protocol: u16, tcpFunction: byte, datalogSerial: string, raw: ByteString): LuxFrame {
    LuxFrame(protocol, tcpFunction, datalogSerial, raw, 0, 0, "", 0, [], 0, false, 0)
  }

  // ---- serial numbers ----------------------------------------------------------------------

  /** str.encode('ascii', errors='replace') */
  function EncodeAscii(s: string): (b: ByteString)
    ensures |b| == |s|
  {
    seq(|s|, i requires 0 <= i < |s| => if s[i] as int < 128 then s[i] as int else 63)
  }

  /** bytes.decode('ascii', errors='replace') */
  function DecodeAscii(b: ByteString): (s: string)
    ensures |s| == |b|
  {
    seq(|b|, i requires 0 <= i < |b| => if b[i] < 128 then b[i] as char else '\U{FFFD}')
  }

  /** str.rstrip('\0') */
  function StripNul(s: string): string {
    if s != "" && s[|s| - 1] == '\0' then StripNul(s[..|s| - 1]) else s
  }

  function Spaces(n: nat): (b: ByteString)
    ensures |b| == n
  {
    seq(n, _ => 32)
  }

  /** The 10-byte serial field: cut or padded with spaces. */
  function SerialBytes(s: string): (b: ByteString)
    ensures |b| == 10
  {
    var e := EncodeAscii(s);
    if |e| < 10 then e + Spaces(10 - |e|) else e[..10]
  }

  /** The serial a reader recovers from the field that SerialBytes wrote. */
  function SerialField(s: string): string { StripNul(DecodeAscii(SerialBytes(s))) }

  function PadRight(s: string): string {
    if |s| < 10 then s + seq(10 - |s|, _ => ' ') else s[..10]
  }

  /** The part of a serial that fits the field is ASCII, and does not end the field with NUL. */
  predicate Storable(s: string) {
    && (forall i | 0 <= i < |s| && i < 10 :: s[i] as int < 128)
    && (|s| >= 10 ==> s[9] != '\0')
  }

  /** What a reader finds in the field, character by character, before it strips NULs. */
  lemma FieldAt(s: string, i: nat)
    requires i < 10
    ensures DecodeAscii(SerialBytes(s))[i] == PadRight(s)[i] <==> i >= |s| || s[i] as int < 128
  {
    if i < |s| {
      assert SerialBytes(s)[i] == EncodeAscii(s)[i];
    } else {
      assert SerialBytes(s)[i] == 32;
    }
  }

  lemma SurvivesOnlyIfStorable(s: string)
    requires SerialField(s) == PadRight(s)
    ensures Storable(s)
  {
    StripNulShorter(DecodeAscii(SerialBytes(s)));
    forall i | 0 <= i < |s| && i < 10
      ensures s[i] as int < 128
    {
      FieldAt(s, i);
    }
    if |s| >= 10 {
      FieldAt(s, 9);
    }
  }

  /** Exactly the storable serials survive the field, cut or padded to ten characters. */
  lemma SerialRoundTrip(s: string)
    ensures SerialField(s) == PadRight(s) <==> Storable(s)
  {
    if SerialField(s) == PadRight(s) {
      SurvivesOnlyIfStorable(s);
    }
    if Storable(s) {
      var d := DecodeAscii(SerialBytes(s));
      forall i | 0 <= i < 10
        ensures d[i] == PadRight(s)[i]
      {
        FieldAt(s, i);
      }
      StripNulShorter(d);
      assert d == PadRight(s);
    }
  }

  lemma StripNulShorter(s: string)
    ensures if s != "" && s[|s| - 1] == '\0' then |StripNul(s)| < |s| else StripNul(s) == s
  {
  }

  // ---- the meaning of a byte string --------------------------------------------------------

  /** How many of n two-byte values beginning at `begin` end before the two CRC bytes. */
  function Fitting(size: nat, begin: nat, n: nat): (k: nat)
    ensures k <= n && (k > 0 ==> begin + 2 * k <= size - 2)
  {
    var room := if size < begin + 2 then 0 else (size - 2 - begin) / 2;
    if room < n then room else n
  }

  function ValuesAt(data: ByteString, begin: nat, k: nat): (vs: seq<u16>)
    requires k > 0 ==> begin + 2 * k <= |data|
    ensures |vs| == k
  {
    seq(k, i requires 0 <= i < k => ReadU16(data, begin + 2 * i))
  }

  function SerialAt(data: ByteString, off: nat): string
    requires off + 10 <= |data|
  {
    StripNul(DecodeAscii(data[off..off + 10]))
  }

  /** The data part of a frame, from byte 20. */
  function WithData(data: ByteString, f: LuxFrame): LuxFrame {
    if |data| < 22 then f
    else if data[21] >= 128 then
      f.(address := data[20], deviceFunction := data[21], isError := true,
         errorCode := if |data| > 22 then data[22] else f.errorCode)
    else
      f.(address := data[20], deviceFunction := data[21],
         inverterSerial := if |data| >= 32 then SerialAt(data, 22) else f.inverterSerial,
         register := if |data| >= 34 then ReadU16(data, 32) else f.register,
         values := DataValues(data, f.values),
         writeCount := if data[21] == WRITE_MULTI && |data| >= 38 then ReadU16(data, 34) else f.writeCount)
  }

  function DataValues(data: ByteString, earlier: seq<u16>): seq<u16>
    requires |data| >= 22
  {
    if data[21] == WRITE_SINGLE && |data| >= 38 then earlier + [ReadU16(data, 34)]
    else if (data[21] == READ_HOLD || data[21] == READ_INPUT) && |data| > 34 then
      earlier + ValuesAt(data, 35, Fitting(|data|, 35, data[34] / 2))
    else earlier
  }

  function Parse(data: ByteString): (f: Option<LuxFrame>)
    ensures f.Some? <==> |data| >= HEADER_SIZE && data[..2] == PREFIX
    ensures f.Some? ==> f.value.raw == data
  {
    if |data| < HEADER_SIZE || data[..2] != PREFIX then None
    else
      var f := HeaderOnly(ReadU16(data, 2), data[7], SerialAt(data, 8), data);
      Some(if f.IsTranslatedData() && |data| >= 20 then WithData(data, f) else f)
  }

  // ---- the meaning, byte by byte -----------------------------------------------------------

  /** The field is the serial, cut at ten characters, with ? for what is not ASCII, padded with spaces. */
  lemma SerialByteAt(s: string, i: nat)
    requires i < 10
    ensures SerialBytes(s)[i] == if i >= |s| then 32 else if s[i] as int < 128 then s[i] as int else 63
  {
  }

  lemma {:induction false} StripNulMeaning(s: string)
    ensures var t := StripNul(s);
      && t <= s && (t != "" ==> t[|t| - 1] != '\0')
      && forall i | |t| <= i < |s| :: s[i] == '\0'
    decreases |s|
  {
    if s != "" && s[|s| - 1] == '\0' {
      StripNulMeaning(s[..|s| - 1]);
    }
  }

  /** The serial read: the ten bytes as ASCII, without the NULs at the end. */
  lemma SerialAtMeaning(data: ByteString, off: nat)
    requires off + 10 <= |data|
    ensures var t := SerialAt(data, off);
      && |t| <= 10
      && (forall i | 0 <= i < |t| :: t[i] == if data[off + i] < 128 then data[off + i] as char else '\U{FFFD}')
      && (forall i | off + |t| <= i < off + 10 :: data[i] == 0)
      && (t != "" ==> data[off + |t| - 1] != 0)
  {
    var s := DecodeAscii(data[off..off + 10]);
    StripNulMeaning(s);
    hide StripNul;
    var t := SerialAt(data, off);
    forall i | off + |t| <= i < off + 10
      ensures data[i] == 0
    {
      assert s[i - off] == '\0';
    }
  }

  /** The header of any frame: 18 bytes that begin with the magic. */
  lemma ParsedHeader(data: ByteString)
    ensures Parse(data).Some? <==> |data| >= 18 && data[0] == 0xA1 && data[1] == 0x1A
    ensures Parse(data).Some? ==>
              var f := Parse(data).value;
              && f.raw == data && f.protocol as int == data[2] as int + 256 * data[3] as int
              && f.tcpFunction == data[7] && f.datalogSerial == SerialAt(data, 8)
    ensures Parse(data).Some? && (data[7] != 0xC2 || |data| < 22) ==>
              var f := Parse(data).value;
              && f.address == 0 && f.deviceFunction == 0 && f.inverterSerial == "" && f.register == 0
              && f.values == [] && f.writeCount == 0 && !f.isError && f.errorCode == 0
  {
    hide SerialAt;
    if |data| >= 2 {
      assert data[..2] == [data[0], data[1]];
    }
  }

  /**
   A TranslatedData frame is an error exactly when its function code has the top bit set; it
   carries a code and nothing else.
   */
  lemma ParsedError(data: ByteString)
    requires |data| >= 22 && data[0] == 0xA1 && data[1] == 0x1A && data[7] == 0xC2
    ensures Parse(data).Some?
    ensures var f := Parse(data).value;
      && f.address == data[20] && f.deviceFunction == data[21]
      && (f.isError <==> data[21] >= 128)
      && (f.isError ==>
            && f.errorCode == (if |data| >= 23 then data[22] else 0)
            && f.inverterSerial == "" && f.register == 0 && f.values == [] && f.writeCount == 0)
      && (!f.isError ==>
            && f.errorCode == 0
            && f.inverterSerial == (if |data| >= 32 then SerialAt(data, 22) else "")
            && f.register as int == (if |data| >= 34 then data[32] as int + 256 * data[33] as int else 0)
            && f.writeCount as int ==
               (if data[21] == 16 && |data| >= 38 then data[34] as int + 256 * data[35] as int else 0))
  {
    hide SerialAt, DataValues;
    assert data[..2] == [data[0], data[1]];
    assert DataValues(data, []) == Parse(data).value.values || data[21] >= 128;
  }

  /**
   The values: of a single write the one echoed; of a read as many as the byte count announces and
   as end before the two CRC bytes; otherwise none.
   */
  lemma ParsedValues(data: ByteString)
    requires |data| >= 22 && data[0] == 0xA1 && data[1] == 0x1A && data[7] == 0xC2 && data[21] < 128
    ensures Parse(data).Some?
    ensures var values := Parse(data).value.values;
      && (data[21] == 6 && |data| >= 38 ==>
            |values| == 1 && values[0] as int == data[34] as int + 256 * data[35] as int)
      && ((data[21] == 3 || data[21] == 4) && |data| >= 35 ==>
            && |values| <= data[34] as int / 2
            && (values != [] ==> 35 + 2 * |values| <= |data| - 2)
            && (|values| < data[34] as int / 2 ==> 35 + 2 * (|values| + 1) > |data| - 2)
            && forall i | 0 <= i < |values| ::
                 values[i] as int == data[35 + 2 * i] as int + 256 * data[36 + 2 * i] as int)
      && ((data[21] == 6 && |data| < 38) || (data[21] != 6 && |data| < 35) ==> values == [])
      && (data[21] != 3 && data[21] != 4 && data[21] != 6 ==> values == [])
  {
    hide SerialAt;
    assert data[..2] == [data[0], data[1]];
    var values := Parse(data).value.values;
    assert values == DataValues(data, []);
    if (data[21] == 3 || data[21] == 4) && |data| >= 35 {
      assert values == ValuesAt(data, 35, Fitting(|data|, 35, data[34] / 2));
    }
  }

  type Registers = map<nat, u16>

  /** Consecutive registers from `start` on, with these values. */
  function Consecutive(start: nat, values: seq<u16>): (m: Registers)
    ensures forall r :: r in m <==> start <= r < start + |values|
    ensures forall r | r in m :: m[r] == values[r - start]
  {
    if values == [] then map[]
    else
      var last := |values| - 1;
      Consecutive(start, values[..last])[start + last := values[last]]
  }

  // ---- the parser --------------------------------------------------------------------------

  /** Reads a frame; no byte string makes it read out of range. */
  method ParseFrame(data: ByteString) returns (r: Option<LuxFrame>)
    ensures r == Parse(data)
  {
    if |data| < HEADER_SIZE {
      return None;
    }
    if data[0..2] != PREFIX {
      return None;
    }
    var frame := HeaderOnly(ReadU16(data, 2), data[7], SerialAt(data, 8), data);
    if frame.tcpFunction == TCP_TRANSLATED_DATA && |data| >= 20 {
      frame := ParseDataFrame(data, frame);
    }
    return Some(frame);
  }

  method ParseDataFrame(data: ByteString, initial: LuxFrame) returns (frame: LuxFrame)
    requires |data| >= 20
    ensures frame == WithData(data, initial)
  {
    frame := initial;
    var modbusStart := 20;
    if |data| < modbusStart + 2 {
      return;
    }
    frame := frame.(address := data[modbusStart]);
    frame := frame.(deviceFunction := data[modbusStart + 1]);
    if frame.deviceFunction >= 128 {
      frame := frame.(isError := true);
      if |data| > modbusStart + 2 {
        frame := frame.(errorCode := data[modbusStart + 2]);
      }
      return;
    }
    var invStart := modbusStart + 2;
    if |data| >= invStart + 10 {
      frame := frame.(inverterSerial := SerialAt(data, invStart));
    }
    var regStart := invStart + 10;
    if |data| >= regStart + 2 {
      frame := frame.(register := ReadU16(data, regStart));
    }
    if frame.IsReadHold() || frame.IsReadInput() || frame.deviceFunction == WRITE_SINGLE {
      if frame.deviceFunction == WRITE_SINGLE {
        if |data| >= regStart + 4 + 2 {
          frame := frame.(values := frame.values + [ReadU16(data, regStart + 2)]);
        }
        return;
      }
      var valStart := regStart + 2;
      if |data| > valStart {
        var valLen := data[valStart];
        var valsBegin := valStart + 1;
        var numRegs := valLen / 2;
        var values := frame.values;
        for i := 0 to numRegs
          invariant values == initial.values + ValuesAt(data, valsBegin, Fitting(|data|, valsBegin, i))
        {
          var offset := valsBegin + i * 2;
          if offset + 2 <= |data| - 2 {
            values := values + [ReadU16(data, offset)];
          }
        }
        frame := frame.(values := values);
      }
    } else if frame.deviceFunction == WRITE_MULTI {
      if |data| >= regStart + 4 + 2 {
        frame := frame.(register := ReadU16(data, regStart));
        frame := frame.(writeCount := ReadU16(data, regStart + 2));
      }
    }
  }
}
