/**
 Request packets: the byte layout of each kind, the builders that fill a buffer in place, and
 what the parser makes of the result.
 */
module Packets {
  import opened Wrappers
  import opened Bytes
  import opened Crc
  import opened Frames

  // ---- the layout --------------------------------------------------------------------------

  /** Everything up to the payload is 18 bytes; the length field counts what follows it. */
  function Envelope(protocol: u16, tcpFunction: byte, datalog: string, payload: ByteString): (p: ByteString)
    requires |payload| <= 0xFFFF - 12
    ensures |p| == 18 + |payload|
  {
    PREFIX + Le16(protocol) + Le16(12 + |payload|) + [0x01, tcpFunction] + SerialBytes(datalog) + payload
  }

  /** A TranslatedData packet: inner length, Modbus body, CRC of the body. */
  function DataPacket(protocol: u16, datalog: string, body: ByteString): (p: ByteString)
    requires |body| <= 0xFFFF - 16
    ensures |p| == 22 + |body|
  {
    Envelope(protocol, TCP_TRANSLATED_DATA, datalog, Le16(|body| + 2) + body + CrcBytes(CrcOf(body)))
  }

  function Body(address: byte, fn: byte, inverter: string, register: u16, rest: ByteString): (b: ByteString)
    ensures |b| == 14 + |rest|
  {
    [address, fn] + SerialBytes(inverter) + Le16(register) + rest
  }

  function ValueBytes(values: seq<u16>): (b: ByteString)
    ensures |b| == 2 * |values|
  {
    if values == [] then [] else Le16(values[0]) + ValueBytes(values[1..])
  }

  /** Register count, byte count, values. */
  function MultiRest(values: seq<u16>): (b: ByteString)
    requires |values| <= 127
    ensures |b| == 3 + 2 * |values|
  {
    Le16(|values|) + [2 * |values|] + ValueBytes(values)
  }

  datatype Packet =
    | ReadRequest(datalog: string, inverter: string, fn: byte, start: u16, count: u16)
    | WriteRequest(datalog: string, inverter: string, register: u16, value: u16)
    | WriteMultiRequest(datalog: string, inverter: string, start: u16, values: seq<u16>)
    | Heartbeat(datalog: string)
    | ReadResponse(datalog: string, inverter: string, fn: byte, start: u16, values: seq<u16>)
    | ErrorReply(datalog: string, fn: byte, code: byte, rest: ByteString)
  {
    /** The builders' callers use the two read functions; the lengths are the builders' limits. */
    predicate InRange() {
      match this
      case ReadRequest(_, _, fn, _, _) => fn == READ_HOLD || fn == READ_INPUT
      case WriteRequest(_, _, _, _) => true
      case WriteMultiRequest(_, _, _, values) => 1 <= |values| <= 123
      case Heartbeat(_) => true
      case ReadResponse(_, _, fn, _, values) => (fn == READ_HOLD || fn == READ_INPUT) && |values| <= 127
      case ErrorReply(_, fn, _, rest) => fn < 128 && |rest| <= 0xFFFF - 19
    }

    function Encode(): ByteString
      requires InRange()
    {
      match this
      case ReadRequest(datalog, inverter, fn, start, count) =>
        DataPacket(1, datalog, Body(0, fn, inverter, start, Le16(count)))
      case WriteRequest(datalog, inverter, register, value) =>
        DataPacket(1, datalog, Body(0, WRITE_SINGLE, inverter, register, Le16(value)))
      case WriteMultiRequest(datalog, inverter, start, values) =>
        DataPacket(1, datalog, Body(0, WRITE_MULTI, inverter, start, MultiRest(values)))
      case Heartbeat(datalog) =>
        Envelope(2, TCP_HEARTBEAT, datalog, [0])
      case ReadResponse(datalog, inverter, fn, start, values) =>
        DataPacket(5, datalog, Body(1, fn, inverter, start, [2 * |values|] + ValueBytes(values)))
      case ErrorReply(datalog, fn, code, rest) =>
        DataPacket(5, datalog, [1, fn + 128, code] + rest)
    }

    /** The frame a reader should see. */
    function Meaning(): LuxFrame
      requires InRange()
    {
      match this
      case ReadRequest(datalog, inverter, fn, start, _) =>
        HeaderOnly(1, TCP_TRANSLATED_DATA, SerialField(datalog), Encode()).(
          deviceFunction := fn, inverterSerial := SerialField(inverter), register := start)
      case WriteRequest(datalog, inverter, register, value) =>
        HeaderOnly(1, TCP_TRANSLATED_DATA, SerialField(datalog), Encode()).(
          deviceFunction := WRITE_SINGLE, inverterSerial := SerialField(inverter), register := register,
          values := [value])
      case WriteMultiRequest(datalog, inverter, start, values) =>
        HeaderOnly(1, TCP_TRANSLATED_DATA, SerialField(datalog), Encode()).(
          deviceFunction := WRITE_MULTI, inverterSerial := SerialField(inverter), register := start,
          writeCount := |values|)
      case Heartbeat(datalog) =>
        HeaderOnly(2, TCP_HEARTBEAT, SerialField(datalog), Encode())
      case ReadResponse(datalog, inverter, fn, start, values) =>
        HeaderOnly(5, TCP_TRANSLATED_DATA, SerialField(datalog), Encode()).(
          address := 1, deviceFunction := fn, inverterSerial := SerialField(inverter), register := start,
          values := values)
      case ErrorReply(datalog, fn, code, _) =>
        HeaderOnly(5, TCP_TRANSLATED_DATA, SerialField(datalog), Encode()).(
          address := 1, deviceFunction := fn + 128, isError := true, errorCode := code)
    }
  }

  // ---- reading a packet back ---------------------------------------------------------------

  lemma EnvelopeFields(protocol: u16, fn: byte, datalog: string, payload: ByteString)
    requires |payload| <= 0xFFFF - 12
    ensures var p := Envelope(protocol, fn, datalog, payload);
            && p[..2] == PREFIX && ReadU16(p, 2) == protocol && ReadU16(p, 4) == 12 + |payload|
            && p[7] == fn && SerialAt(p, 8) == SerialField(datalog) && p[18..] == payload
  {
    var p := Envelope(protocol, fn, datalog, payload);
    assert p[2..4] == Le16(protocol);
    assert p[4..6] == Le16(12 + |payload|);
    assert p[8..18] == SerialBytes(datalog);
  }

  lemma BodyFields(address: byte, fn: byte, inverter: string, register: u16, rest: ByteString)
    ensures var b := Body(address, fn, inverter, register, rest);
            && b[0] == address && b[1] == fn && b[2..12] == SerialBytes(inverter)
            && ReadU16(b, 12) == register && b[14..] == rest
  {
    var b := Body(address, fn, inverter, register, rest);
    assert b[12..14] == Le16(register);
  }

  /** The body sits at byte 20 and the last two bytes are its CRC. */
  lemma PacketBody(protocol: u16, datalog: string, body: ByteString)
    requires |body| <= 0xFFFF - 16
    ensures var p := DataPacket(protocol, datalog, body);
            p[20..20 + |body|] == body && p[20 + |body|..] == CrcBytes(CrcOf(body))
  {
    hide CrcOf, CrcBytes, Le16, Envelope;
    var crc := CrcBytes(CrcOf(body));
    var payload := Le16(|body| + 2) + body + crc;
    EnvelopeFields(protocol, TCP_TRANSLATED_DATA, datalog, payload);
    var p := DataPacket(protocol, datalog, body);
    assert p[18..] == payload;
    assert payload[2..2 + |body|] == body && payload[2 + |body|..] == crc;
    assert p[20..20 + |body|] == p[18..][2..2 + |body|];
    assert p[20 + |body|..] == p[18..][2 + |body|..];
  }

  lemma SlicesAgree(p: ByteString, body: ByteString)
    requires |p| >= 20 + |body| && |body| >= 14 && p[20..20 + |body|] == body
    ensures p[20] == body[0] && p[21] == body[1] && p[22..32] == body[2..12]
    ensures ReadU16(p, 32) == ReadU16(body, 12) && p[34..20 + |body|] == body[14..]
  {
    var q := p[20..20 + |body|];
    assert q[0] == p[20] && q[1] == p[21] && q[12] == p[32] && q[13] == p[33];
    SliceOfSlice(p, 20, 20 + |body|, 2, 12);
    SliceOfSlice(p, 20, 20 + |body|, 14, |body|);
  }

  lemma DataPacketFields(protocol: u16, datalog: string, address: byte, fn: byte, inverter: string,
                         register: u16, rest: ByteString)
    requires |rest| <= 0xFFFF - 30
    ensures var body := Body(address, fn, inverter, register, rest);
            var p := DataPacket(protocol, datalog, body);
            && p[..2] == PREFIX && ReadU16(p, 2) == protocol && p[7] == TCP_TRANSLATED_DATA
            && SerialAt(p, 8) == SerialField(datalog)
            && p[20] == address && p[21] == fn && SerialAt(p, 22) == SerialField(inverter)
            && ReadU16(p, 32) == register && p[34..34 + |rest|] == rest
  {
    var body := Body(address, fn, inverter, register, rest);
    EnvelopeFields(protocol, TCP_TRANSLATED_DATA, datalog, Le16(|body| + 2) + body + CrcBytes(CrcOf(body)));
    hide Body, Envelope, Le16, CrcOf, CrcBytes, SerialBytes, DecodeAscii, StripNul, ReadU16;
    PacketBody(protocol, datalog, body);
    BodyFields(address, fn, inverter, register, rest);
    SlicesAgree(DataPacket(protocol, datalog, body), body);
  }

  lemma {:induction false} ValueBytesRead(values: seq<u16>, i: nat)
    requires i < |values|
    ensures ReadU16(ValueBytes(values), 2 * i) == values[i]
  {
    if i > 0 {
      ValueBytesRead(values[1..], i - 1);
    }
  }

  lemma PackedValue(p: ByteString, off: nat, values: seq<u16>, i: nat)
    requires off + 2 * |values| <= |p| && i < |values|
    requires p[off..off + 2 * |values|] == ValueBytes(values)
    ensures ReadU16(p, off + 2 * i) == values[i]
  {
    hide ValueBytes;
    ValueBytesRead(values, i);
    var q := p[off..off + 2 * |values|];
    assert q[2 * i] == p[off + 2 * i] && q[2 * i + 1] == p[off + 2 * i + 1];
  }

  lemma ValuesAtPointwise(p: ByteString, off: nat, values: seq<u16>)
    requires off + 2 * |values| <= |p|
    requires forall i | 0 <= i < |values| :: ReadU16(p, off + 2 * i) == values[i]
    ensures ValuesAt(p, off, |values|) == values
  {
  }

  lemma PackedValues(p: ByteString, off: nat, values: seq<u16>)
    requires off + 2 * |values| <= |p| && p[off..off + 2 * |values|] == ValueBytes(values)
    ensures ValuesAt(p, off, |values|) == values
  {
    hide *;
    forall i | 0 <= i < |values|
      ensures ReadU16(p, off + 2 * i) == values[i]
    {
      PackedValue(p, off, values, i);
    }
    ValuesAtPointwise(p, off, values);
  }

  /** What the parser makes of any data packet whose function is not an error code. */
  lemma ParseDataPacket(protocol: u16, datalog: string, address: byte, fn: byte, inverter: string,
                        register: u16, rest: ByteString)
    requires |rest| <= 0xFFFF - 30 && fn < 128
    ensures var p := DataPacket(protocol, datalog, Body(address, fn, inverter, register, rest));
            Parse(p) == Some(HeaderOnly(protocol, TCP_TRANSLATED_DATA, SerialField(datalog), p).(
              address := address, deviceFunction := fn, inverterSerial := SerialField(inverter),
              register := register, values := DataValues(p, []),
              writeCount := if fn == WRITE_MULTI && |p| >= 38 then ReadU16(p, 34) else 0))
  {
    DataPacketFields(protocol, datalog, address, fn, inverter, register, rest);
    hide DataPacket, Body, SerialField, SerialAt, DataValues;
  }

  lemma ReadAtSlice(data: ByteString, off: nat, part: ByteString)
    requires |part| >= 2 && off + |part| <= |data| && data[off..off + |part|] == part
    ensures ReadU16(data, off) == ReadU16(part, 0)
  {
    assert data[off] == part[0] && data[off + 1] == part[1];
  }

  /** A read request is too short to carry values, whatever count it asks for. */
  lemma NoValuesInRequest(p: ByteString, fn: byte)
    requires |p| == 38 && p[21] == fn && (fn == READ_HOLD || fn == READ_INPUT)
    ensures DataValues(p, []) == []
  {
    assert Fitting(38, 35, p[34] / 2) == 0;
  }

  lemma HeadAndTail(p: ByteString, off: nat, x: byte, rest: ByteString)
    requires off + 1 + |rest| <= |p| && p[off..off + 1 + |rest|] == [x] + rest
    ensures p[off] == x && p[off + 1..off + 1 + |rest|] == rest
  {
    var q := p[off..off + 1 + |rest|];
    assert q[0] == p[off];
    forall i | 0 <= i < |rest|
      ensures p[off + 1 + i] == rest[i]
    {
      assert q[1 + i] == p[off + 1 + i];
    }
  }

  lemma DataValuesOfRead(p: ByteString, n: nat)
    requires |p| == 37 + 2 * n && (p[21] == READ_HOLD || p[21] == READ_INPUT) && p[34] == 2 * n
    ensures DataValues(p, []) == ValuesAt(p, 35, n)
  {
    assert Fitting(37 + 2 * n, 35, n) == n;
  }

  lemma ValuesInResponse(p: ByteString, fn: byte, values: seq<u16>)
    requires |values| <= 127 && |p| == 37 + 2 * |values|
    requires p[21] == fn && (fn == READ_HOLD || fn == READ_INPUT)
    requires p[34..35 + 2 * |values|] == [2 * |values|] + ValueBytes(values)
    ensures DataValues(p, []) == values
  {
    hide *;
    HeadAndTail(p, 34, 2 * |values|, ValueBytes(values));
    PackedValues(p, 35, values);
    DataValuesOfRead(p, |values|);
  }

  lemma ValueInWrite(p: ByteString, value: u16)
    requires |p| == 38 && p[21] == WRITE_SINGLE && ReadU16(p, 34) == value
    ensures DataValues(p, []) == [value]
  {
  }

  lemma NoValuesInWriteMulti(p: ByteString)
    requires |p| >= 38 && p[21] == WRITE_MULTI
    ensures DataValues(p, []) == []
  {
  }

  lemma ParseReadRequest(datalog: string, inverter: string, fn: byte, start: u16, count: u16)
    requires fn == READ_HOLD || fn == READ_INPUT
    ensures var p := ReadRequest(datalog, inverter, fn, start, count);
            Parse(p.Encode()) == Some(p.Meaning())
  {
    hide Parse, Body, SerialField, SerialAt, Le16, DataPacket, ReadU16, DataValues;
    var rest := Le16(count);
    ParseDataPacket(1, datalog, 0, fn, inverter, start, rest);
    DataPacketFields(1, datalog, 0, fn, inverter, start, rest);
    NoValuesInRequest(DataPacket(1, datalog, Body(0, fn, inverter, start, rest)), fn);
  }

  lemma ParseWriteRequest(datalog: string, inverter: string, register: u16, value: u16)
    ensures var p := WriteRequest(datalog, inverter, register, value);
            Parse(p.Encode()) == Some(p.Meaning())
  {
    hide Parse, Body, SerialField, SerialAt, Le16, DataPacket, ReadU16, DataValues;
    var rest := Le16(value);
    var p := DataPacket(1, datalog, Body(0, WRITE_SINGLE, inverter, register, rest));
    ParseDataPacket(1, datalog, 0, WRITE_SINGLE, inverter, register, rest);
    DataPacketFields(1, datalog, 0, WRITE_SINGLE, inverter, register, rest);
    ReadAtSlice(p, 34, rest);
    ValueInWrite(p, value);
  }

  lemma ParseWriteMultiRequest(datalog: string, inverter: string, start: u16, values: seq<u16>)
    requires 1 <= |values| <= 123
    ensures var p := WriteMultiRequest(datalog, inverter, start, values);
            Parse(p.Encode()) == Some(p.Meaning())
  {
    var rest := MultiRest(values);
    assert ReadU16(rest, 0) == |values|;
    hide Parse, Body, SerialField, SerialAt, DataPacket, ReadU16, DataValues, MultiRest;
    var p := DataPacket(1, datalog, Body(0, WRITE_MULTI, inverter, start, rest));
    ParseDataPacket(1, datalog, 0, WRITE_MULTI, inverter, start, rest);
    DataPacketFields(1, datalog, 0, WRITE_MULTI, inverter, start, rest);
    ReadAtSlice(p, 34, rest);
    NoValuesInWriteMulti(p);
  }

  /** The values of a multi-register write, where an inverter reads them. */
  lemma WriteMultiValues(datalog: string, inverter: string, start: u16, values: seq<u16>)
    requires 1 <= |values| <= 123
    ensures var p := WriteMultiRequest(datalog, inverter, start, values).Encode();
            |p| == 39 + 2 * |values| && ValuesAt(p, 37, |values|) == values
  {
    var rest := MultiRest(values);
    var p := DataPacket(1, datalog, Body(0, WRITE_MULTI, inverter, start, rest));
    assert rest[3..] == ValueBytes(values);
    DataPacketFields(1, datalog, 0, WRITE_MULTI, inverter, start, rest);
    hide DataPacket, Body, MultiRest, ValueBytes, ReadU16;
    SliceOfSlice(p, 34, 34 + |rest|, 3, |rest|);
    assert p[34..34 + |rest|][3..|rest|] == rest[3..];
    PackedValues(p, 37, values);
  }

  lemma ParseReadResponse(datalog: string, inverter: string, fn: byte, start: u16, values: seq<u16>)
    requires fn == READ_HOLD || fn == READ_INPUT
    requires |values| <= 127
    ensures var p := ReadResponse(datalog, inverter, fn, start, values);
            Parse(p.Encode()) == Some(p.Meaning())
  {
    hide Parse, Body, SerialField, SerialAt, DataPacket, ReadU16, ValueBytes, DataValues;
    var rest := [2 * |values|] + ValueBytes(values);
    ParseDataPacket(5, datalog, 1, fn, inverter, start, rest);
    DataPacketFields(5, datalog, 1, fn, inverter, start, rest);
    ValuesInResponse(DataPacket(5, datalog, Body(1, fn, inverter, start, rest)), fn, values);
  }

  lemma ParseHeartbeat(datalog: string)
    ensures Parse(Heartbeat(datalog).Encode()) == Some(Heartbeat(datalog).Meaning())
  {
    EnvelopeFields(2, TCP_HEARTBEAT, datalog, [0]);
    hide Envelope, SerialField, SerialAt;
  }

  lemma ParseErrorReply(datalog: string, fn: byte, code: byte, rest: ByteString)
    requires ErrorReply(datalog, fn, code, rest).InRange()
    ensures var p := ErrorReply(datalog, fn, code, rest);
            Parse(p.Encode()) == Some(p.Meaning())
  {
    var body := [1, fn + 128, code] + rest;
    var p := DataPacket(5, datalog, body);
    EnvelopeFields(5, TCP_TRANSLATED_DATA, datalog, Le16(|body| + 2) + body + CrcBytes(CrcOf(body)));
    PacketBody(5, datalog, body);
    var q := p[20..20 + |body|];
    assert q[0] == p[20] && q[1] == p[21] && q[2] == p[22];
    hide DataPacket, SerialField, SerialAt, DataValues, CrcOf, CrcBytes, Le16;
  }

  /** The parser reads back exactly what went into a packet. */
  lemma ParseEncode(p: Packet)
    requires p.InRange()
    ensures Parse(p.Encode()) == Some(p.Meaning())
  {
    hide Parse, Packet.Encode, Packet.Meaning;
    match p {
      case ReadRequest(datalog, inverter, fn, start, count) =>
        ParseReadRequest(datalog, inverter, fn, start, count);
      case WriteRequest(datalog, inverter, register, value) =>
        ParseWriteRequest(datalog, inverter, register, value);
      case WriteMultiRequest(datalog, inverter, start, values) =>
        ParseWriteMultiRequest(datalog, inverter, start, values);
      case Heartbeat(datalog) =>
        ParseHeartbeat(datalog);
      case ReadResponse(datalog, inverter, fn, start, values) =>
        ParseReadResponse(datalog, inverter, fn, start, values);
      case ErrorReply(datalog, fn, code, rest) =>
        ParseErrorReply(datalog, fn, code, rest);
    }
  }

  // ---- the layout, byte by byte ------------------------------------------------------------

  /** The number that two bytes stand for, low byte first. */
  lemma LittleEndian(p: ByteString, off: nat, v: u16)
    requires off + 2 <= |p| && p[off..off + 2] == Le16(v)
    ensures p[off] as int + 256 * p[off + 1] as int == v as int
  {
    var q := p[off..off + 2];
    assert q[0] == p[off] && q[1] == p[off + 1];
  }

  lemma EnvelopeLayout(protocol: u16, fn: byte, datalog: string, payload: ByteString)
    requires |payload| <= 0xFFFF - 12
    ensures var p := Envelope(protocol, fn, datalog, payload);
      && |p| == 18 + |payload| && p[0] == 0xA1 && p[1] == 0x1A
      && p[2] as int + 256 * p[3] as int == protocol as int && p[4] as int + 256 * p[5] as int == |p| - 6
      && p[6] == 1 && p[7] == fn && p[8..18] == SerialBytes(datalog) && p[18..] == payload
  {
    var p := Envelope(protocol, fn, datalog, payload);
    assert p[2..4] == Le16(protocol) && p[4..6] == Le16(12 + |payload|) && p[8..18] == SerialBytes(datalog);
    hide Le16, Envelope, SerialBytes;
    LittleEndian(p, 2, protocol);
    LittleEndian(p, 4, 12 + |payload|);
  }

  /**
   Every packet that carries data: its two length fields count what follows them, the marker is 1,
   and the CRC of everything from byte 20 on stands at the end.
   */
  lemma DataPacketLayout(protocol: u16, datalog: string, body: ByteString)
    requires |body| <= 0xFFFF - 16
    ensures var p := DataPacket(protocol, datalog, body);
      && |p| == 22 + |body| && p[0] == 0xA1 && p[1] == 0x1A
      && p[2] as int + 256 * p[3] as int == protocol as int && p[4] as int + 256 * p[5] as int == |p| - 6
      && p[6] == 1 && p[7] == 0xC2 && p[8..18] == SerialBytes(datalog)
      && p[18] as int + 256 * p[19] as int == |p| - 20
      && p[20..|p| - 2] == body && p[|p| - 2..] == CrcBytes(CrcOf(p[20..|p| - 2]))
  {
    var p := DataPacket(protocol, datalog, body);
    var payload := Le16(|body| + 2) + body + CrcBytes(CrcOf(body));
    EnvelopeLayout(protocol, TCP_TRANSLATED_DATA, datalog, payload);
    PacketBody(protocol, datalog, body);
    hide Le16, Envelope, SerialBytes, CrcOf, CrcBytes;
    assert p[18..20] == payload[..2] == Le16(|body| + 2) by {
      assert p[18..20] == p[18..][..2];
    }
    LittleEndian(p, 18, |body| + 2);
  }

  /** Every packet but the heartbeat has this envelope, whatever its kind. */
  lemma EncodedLayout(p: Packet)
    requires p.InRange() && !p.Heartbeat?
    ensures var e := p.Encode();
      && |e| >= 25 && e[0] == 0xA1 && e[1] == 0x1A && e[4] as int + 256 * e[5] as int == |e| - 6
      && e[2] == (if p.ReadResponse? || p.ErrorReply? then 5 else 1) && e[3] == 0
      && e[6] == 1 && e[7] == 0xC2 && e[8..18] == SerialBytes(p.datalog)
      && e[18] as int + 256 * e[19] as int == |e| - 20
      && e[|e| - 2..] == CrcBytes(CrcOf(e[20..|e| - 2]))
  {
    hide DataPacket, Body, CrcOf, CrcBytes, SerialBytes, Le16, ValueBytes, MultiRest;
    match p {
      case ReadRequest(datalog, inverter, fn, start, count) =>
        DataPacketLayout(1, datalog, Body(0, fn, inverter, start, Le16(count)));
      case WriteRequest(datalog, inverter, register, value) =>
        DataPacketLayout(1, datalog, Body(0, WRITE_SINGLE, inverter, register, Le16(value)));
      case WriteMultiRequest(datalog, inverter, start, values) =>
        DataPacketLayout(1, datalog, Body(0, WRITE_MULTI, inverter, start, MultiRest(values)));
      case ReadResponse(datalog, inverter, fn, start, values) =>
        DataPacketLayout(5, datalog, Body(1, fn, inverter, start, [2 * |values|] + ValueBytes(values)));
      case ErrorReply(datalog, fn, code, rest) =>
        DataPacketLayout(5, datalog, [1, fn + 128, code] + rest);
    }
  }

  /** The body of a packet: address, function, inverter serial, register, and the rest. */
  lemma BodyLayout(protocol: u16, datalog: string, address: byte, fn: byte, inverter: string, register: u16,
                   rest: ByteString)
    requires |rest| <= 0xFFFF - 30
    ensures var p := DataPacket(protocol, datalog, Body(address, fn, inverter, register, rest));
      && |p| == 36 + |rest| && p[20] == address && p[21] == fn && p[22..32] == SerialBytes(inverter)
      && p[32] as int + 256 * p[33] as int == register as int && p[34..|p| - 2] == rest
  {
    hide *;
    var body := Body(address, fn, inverter, register, rest);
    var p := DataPacket(protocol, datalog, body);
    DataPacketLayout(protocol, datalog, body);
    BodyFields(address, fn, inverter, register, rest);
    SlicesAgree(p, body);
    ReadU16At(p, 32);
  }

  lemma ReadU16At(p: ByteString, off: nat)
    requires off + 2 <= |p|
    ensures ReadU16(p, off) as int == p[off] as int + 256 * p[off + 1] as int
  {
  }

  /** The first 22 bytes of a request, as numbers. */
  lemma RequestHead(datalog: string, fn: byte, inverter: string, register: u16, rest: ByteString)
    requires |rest| <= 0xFFFF - 30
    ensures var p := DataPacket(1, datalog, Body(0, fn, inverter, register, rest));
      && p[..8] == [0xA1, 0x1A, 1, 0, (|p| - 6) % 256, (|p| - 6) / 256, 1, 0xC2]
      && p[8..18] == SerialBytes(datalog)
      && p[18..22] == [(|p| - 20) % 256, (|p| - 20) / 256, 0, fn]
      && p[22..32] == SerialBytes(inverter)
      && p[|p| - 2..] == CrcBytes(CrcOf(p[20..|p| - 2]))
  {
    var body := Body(0, fn, inverter, register, rest);
    var p := DataPacket(1, datalog, body);
    DataPacketLayout(1, datalog, body);
    BodyLayout(1, datalog, 0, fn, inverter, register, rest);
    hide DataPacket, Body, Le16, CrcOf, CrcBytes, SerialBytes;
  }

  // ---- the builders ------------------------------------------------------------------------

  datatype BuildError = ValueOutOfRange | FieldOutOfRange | NoValues | TooManyValues

  /** pkt[off:off + len(bytes)] = bytes */
  method Put(pkt: array<byte>, off: nat, bytes: ByteString)
    requires off + |bytes| <= pkt.Length
    modifies pkt
    ensures pkt[..off + |bytes|] == old(pkt[..off]) + bytes
    ensures pkt[off + |bytes|..] == old(pkt[off + |bytes|..])
  {
    for i := 0 to |bytes|
      invariant pkt[..off + i] == old(pkt[..off]) + bytes[..i]
      invariant pkt[off + i..] == old(pkt[off + i..])
    {
      pkt[off + i] := bytes[i];
      assert pkt[..off + i + 1] == pkt[..off + i] + [bytes[i]];
      assert bytes[..i + 1] == bytes[..i] + [bytes[i]];
      assert pkt[off + i + 1..] == old(pkt[off + i..])[1..];
    }
    assert bytes[..|bytes|] == bytes;
  }

  function Header(datalog: string, dataLen: u16): (h: ByteString)
    requires dataLen <= 0xFFFF - 14
    ensures |h| == 20
  {
    PREFIX + Le16(1) + Le16(14 + dataLen) + [0x01, TCP_TRANSLATED_DATA] + SerialBytes(datalog) + Le16(dataLen)
  }

  /** The first 20 bytes that all three request builders write alike. */
  method PutHeader(pkt: array<byte>, datalog: string, dataLen: u16)
    requires pkt.Length == 20 + dataLen <= 0xFFFF
    modifies pkt
    ensures pkt[..20] == Header(datalog, dataLen)
  {
    hide Le16, SerialBytes;
    Put(pkt, 0, PREFIX);
    Put(pkt, 2, Le16(1));
    Put(pkt, 4, Le16(pkt.Length - 6));
    Put(pkt, 6, [0x01]);
    Put(pkt, 7, [TCP_TRANSLATED_DATA]);
    Put(pkt, 8, SerialBytes(datalog));
    Put(pkt, 18, Le16(dataLen));
  }

  /** Address, function, inverter serial and register, as all three request builders write them. */
  method PutBodyHead(pkt: array<byte>, fn: byte, inverter: string, register: u16)
    requires pkt.Length >= 34
    modifies pkt
    ensures pkt[..34] == old(pkt[..20]) + Body(0, fn, inverter, register, [])
  {
    Put(pkt, 20, [0x00]);
    Put(pkt, 21, [fn]);
    Put(pkt, 22, SerialBytes(inverter));
    Put(pkt, 32, Le16(register));
  }

  /** The loop that packs the values of a multi-register write. */
  method PutValues(pkt: array<byte>, off: nat, values: seq<u16>)
    requires off + 2 * |values| <= pkt.Length
    modifies pkt
    ensures pkt[..off + 2 * |values|] == old(pkt[..off]) + ValueBytes(values)
  {
    for i := 0 to |values|
      invariant pkt[..off + 2 * i] == old(pkt[..off]) + ValueBytes(values[..i])
    {
      Put(pkt, off + 2 * i, Le16(values[i]));
      ValueBytesSnoc(values[..i], values[i]);
      assert values[..i + 1] == values[..i] + [values[i]];
    }
    assert values[..|values|] == values;
  }

  lemma {:induction false} ValueBytesSnoc(values: seq<u16>, v: u16)
    ensures ValueBytes(values + [v]) == ValueBytes(values) + Le16(v)
  {
    if values != [] {
      assert (values + [v])[1..] == values[1..] + [v];
      ValueBytesSnoc(values[1..], v);
    }
  }

  /** Writes the CRC of everything from byte 20 behind it. */
  method PutCrc(pkt: array<byte>, crcEnd: nat, ghost datalog: string, ghost body: ByteString)
    requires crcEnd + 2 == pkt.Length <= 0xFFFF && |body| == crcEnd - 20 && crcEnd >= 20
    requires pkt[..crcEnd] == Header(datalog, |body| + 2) + body
    modifies pkt
    ensures pkt[..] == DataPacket(1, datalog, body)
  {
    assert pkt[20..crcEnd] == pkt[..crcEnd][20..] == body;
    var crc := Crc16Modbus(pkt[20..crcEnd]);
    Put(pkt, crcEnd, CrcBytes(crc));
    assert pkt[..] == pkt[..crcEnd + 2];
    HeaderOfPacket(datalog, body);
  }

  lemma HeaderOfPacket(datalog: string, body: ByteString)
    requires |body| <= 0xFFFF - 22
    ensures DataPacket(1, datalog, body) == Header(datalog, |body| + 2) + body + CrcBytes(CrcOf(body))
  {
  }

  lemma BodyRest(fn: byte, inverter: string, register: u16, rest: ByteString)
    ensures Body(0, fn, inverter, register, []) + rest == Body(0, fn, inverter, register, rest)
  {
  }

  lemma FourBytes(datalog: string, fn: byte, inverter: string, register: u16, value: u16)
    ensures var p := DataPacket(1, datalog, Body(0, fn, inverter, register, Le16(value)));
            p[32..36] == [register % 256, register / 256, value % 256, value / 256]
  {
    var p := DataPacket(1, datalog, Body(0, fn, inverter, register, Le16(value)));
    BodyLayout(1, datalog, 0, fn, inverter, register, Le16(value));
    assert p[34..36] == [value % 256, value / 256];
    hide DataPacket, Body, Le16, SerialBytes;
    assert p[32..36] == [p[32], p[33]] + p[34..36];
  }

  /** The bytes of a request that carries one 16-bit number. */
  lemma ShortRequest(datalog: string, fn: byte, inverter: string, register: u16, value: u16)
    ensures var p := DataPacket(1, datalog, Body(0, fn, inverter, register, Le16(value)));
      && |p| == 38 && p[..8] == [0xA1, 0x1A, 1, 0, 32, 0, 1, 0xC2] && p[8..18] == SerialBytes(datalog)
      && p[18..22] == [18, 0, 0, fn] && p[22..32] == SerialBytes(inverter)
      && p[32..36] == [register % 256, register / 256, value % 256, value / 256]
      && p[36..] == CrcBytes(CrcOf(p[20..36]))
  {
    hide *;
    RequestHead(datalog, fn, inverter, register, Le16(value));
    FourBytes(datalog, fn, inverter, register, value);
  }

  method BuildReadRequest(datalog: string, inverter: string, fn: int, start: int, count: int)
    returns (r: Result<ByteString, BuildError>)
    ensures r.Success? <==> 0 <= fn < 0x100 && 0 <= start < 0x1_0000 && 0 <= count < 0x1_0000
    ensures r.Success? ==> r.value == DataPacket(1, datalog, Body(0, fn, inverter, start, Le16(count)))
    ensures r.Success? ==>
              var p := r.value;
              && |p| == 38 && p[..8] == [0xA1, 0x1A, 1, 0, 32, 0, 1, 0xC2] && p[8..18] == SerialBytes(datalog)
              && p[18..22] == [18, 0, 0, fn] && p[22..32] == SerialBytes(inverter)
              && p[32..36] == [start % 256, start / 256, count % 256, count / 256]
              && p[36..] == CrcBytes(CrcOf(p[20..36]))
  {
    if !(0 <= fn < 0x100) {
      return Failure(FieldOutOfRange);
    }
    if !(0 <= start < 0x1_0000 && 0 <= count < 0x1_0000) {
      return Failure(FieldOutOfRange);
    }
    hide DataPacket, Body, Header, Le16, SerialBytes, CrcOf, CrcBytes;
    var pkt := new byte[38](_ => 0);
    PutHeader(pkt, datalog, 18);
    PutBodyHead(pkt, fn, inverter, start);
    Put(pkt, 34, Le16(count));
    BodyRest(fn, inverter, start, Le16(count));
    PutCrc(pkt, 36, datalog, Body(0, fn, inverter, start, Le16(count)));
    ShortRequest(datalog, fn, inverter, start, count);
    return Success(pkt[..]);
  }

  method BuildWriteRequest(datalog: string, inverter: string, register: int, value: int)
    returns (r: Result<ByteString, BuildError>)
    ensures r.Success? <==> 0 <= value <= 0xFFFF && 0 <= register < 0x1_0000
    ensures r.Success? ==> r.value == WriteRequest(datalog, inverter, register, value).Encode()
    ensures r.Success? ==>
              var p := r.value;
              && |p| == 38 && p[..8] == [0xA1, 0x1A, 1, 0, 32, 0, 1, 0xC2] && p[8..18] == SerialBytes(datalog)
              && p[18..22] == [18, 0, 0, 6] && p[22..32] == SerialBytes(inverter)
              && p[32..36] == [register % 256, register / 256, value % 256, value / 256]
              && p[36..] == CrcBytes(CrcOf(p[20..36]))
  {
    if !(0 <= value <= 0xFFFF) {
      return Failure(ValueOutOfRange);
    }
    if !(0 <= register < 0x1_0000) {
      return Failure(FieldOutOfRange);
    }
    hide DataPacket, Body, Header, Le16, SerialBytes, CrcOf, CrcBytes;
    var pkt := new byte[38](_ => 0);
    PutHeader(pkt, datalog, 18);
    PutBodyHead(pkt, WRITE_SINGLE, inverter, register);
    Put(pkt, 34, Le16(value));
    BodyRest(WRITE_SINGLE, inverter, register, Le16(value));
    PutCrc(pkt, 36, datalog, Body(0, WRITE_SINGLE, inverter, register, Le16(value)));
    ShortRequest(datalog, WRITE_SINGLE, inverter, register, value);
    return Success(pkt[..]);
  }

  /** Rejects an empty list, more than 123 registers, and any value that is not 16 bits. */
  method BuildWriteMultiRequest(datalog: string, inverter: string, start: int, values: seq<int>)
    returns (r: Result<ByteString, BuildError>)
    ensures r.Success? <==>
            && 1 <= |values| <= 123
            && (forall i | 0 <= i < |values| :: 0 <= values[i] <= 0xFFFF)
            && 0 <= start < 0x1_0000
    ensures r.Success? ==> r.value == WriteMultiRequest(datalog, inverter, start, values).Encode()
    ensures r.Success? ==>
              var p, n := r.value, 2 * |values|;
              && |p| == 39 + n
              && p[..8] == [0xA1, 0x1A, 1, 0, (33 + n) % 256, (33 + n) / 256, 1, 0xC2]
              && p[8..18] == SerialBytes(datalog)
              && p[18..22] == [(19 + n) % 256, (19 + n) / 256, 0, 16] && p[22..32] == SerialBytes(inverter)
              && p[32..37] == [start % 256, start / 256, |values|, 0, n]
              && (forall i | 0 <= i < |values| :: p[37 + 2 * i] == values[i] % 256 && p[38 + 2 * i] == values[i] / 256)
              && p[37 + n..] == CrcBytes(CrcOf(p[20..37 + n]))
  {
    hide DataPacket, Body, SerialBytes, CrcOf, CrcBytes, MultiRest, Packet.Encode;
    if |values| == 0 {
      return Failure(NoValues);
    }
    if |values| > 123 {
      return Failure(TooManyValues);
    }
    for i := 0 to |values|
      invariant forall j | 0 <= j < i :: 0 <= values[j] <= 0xFFFF
    {
      if !(0 <= values[i] <= 0xFFFF) {
        return Failure(ValueOutOfRange);
      }
    }
    if !(0 <= start < 0x1_0000) {
      return Failure(FieldOutOfRange);
    }
    var packed := FillWriteMulti(datalog, inverter, start, values);
    LongRequest(datalog, inverter, start, values);
    return Success(packed);
  }

  lemma MultiRestHead(values: seq<u16>)
    requires 1 <= |values| <= 123
    ensures MultiRest(values)[..3] == [|values|, 0, 2 * |values|]
  {
  }

  lemma MultiHead(datalog: string, inverter: string, start: u16, values: seq<u16>)
    requires 1 <= |values| <= 123
    ensures var p := DataPacket(1, datalog, Body(0, WRITE_MULTI, inverter, start, MultiRest(values)));
            |p| == 39 + 2 * |values| && p[32..37] == [start % 256, start / 256, |values|, 0, 2 * |values|]
  {
    hide DataPacket, Body, MultiRest, SerialBytes;
    var rest := MultiRest(values);
    MultiRestHead(values);
    var p := DataPacket(1, datalog, Body(0, WRITE_MULTI, inverter, start, rest));
    BodyLayout(1, datalog, 0, WRITE_MULTI, inverter, start, rest);
    SliceOfSlice(p, 34, |p| - 2, 0, 3);
    assert p[34..37] == rest[0..3];
    assert p[32..37] == [p[32], p[33]] + p[34..37];
  }

  lemma TwoBytes(p: ByteString, off: nat, v: u16)
    requires off + 2 <= |p| && ReadU16(p, off) == v
    ensures p[off] == v % 256 && p[off + 1] == v / 256
  {
  }

  lemma BytesOfValues(p: ByteString, off: nat, values: seq<u16>)
    requires off + 2 * |values| <= |p| && ValuesAt(p, off, |values|) == values
    ensures forall i | 0 <= i < |values| :: p[off + 2 * i] == values[i] % 256 && p[off + 1 + 2 * i] == values[i] / 256
  {
    hide ReadU16;
    forall i | 0 <= i < |values|
      ensures p[off + 2 * i] == values[i] % 256 && p[off + 1 + 2 * i] == values[i] / 256
    {
      assert ValuesAt(p, off, |values|)[i] == ReadU16(p, off + 2 * i);
      TwoBytes(p, off + 2 * i, values[i]);
    }
  }

  lemma MultiTail(datalog: string, inverter: string, start: u16, values: seq<u16>)
    requires 1 <= |values| <= 123
    ensures var p := WriteMultiRequest(datalog, inverter, start, values).Encode();
      && |p| == 39 + 2 * |values|
      && forall i | 0 <= i < |values| :: p[37 + 2 * i] == values[i] % 256 && p[38 + 2 * i] == values[i] / 256
  {
    hide Packet.Encode, ValuesAt, ReadU16;
    WriteMultiValues(datalog, inverter, start, values);
    BytesOfValues(WriteMultiRequest(datalog, inverter, start, values).Encode(), 37, values);
  }

  /** The bytes of a request that carries a block of values. */
  lemma LongRequest(datalog: string, inverter: string, start: u16, values: seq<u16>)
    requires 1 <= |values| <= 123
    ensures var p, n := WriteMultiRequest(datalog, inverter, start, values).Encode(), 2 * |values|;
      && |p| == 39 + n
      && p[..8] == [0xA1, 0x1A, 1, 0, (33 + n) % 256, (33 + n) / 256, 1, 0xC2]
      && p[8..18] == SerialBytes(datalog)
      && p[18..22] == [(19 + n) % 256, (19 + n) / 256, 0, 16] && p[22..32] == SerialBytes(inverter)
      && p[32..37] == [start % 256, start / 256, |values|, 0, n]
      && (forall i | 0 <= i < |values| :: p[37 + 2 * i] == values[i] % 256 && p[38 + 2 * i] == values[i] / 256)
      && p[37 + n..] == CrcBytes(CrcOf(p[20..37 + n]))
  {
    hide DataPacket, Body, MultiRest, SerialBytes, CrcOf, CrcBytes;
    RequestHead(datalog, WRITE_MULTI, inverter, start, MultiRest(values));
    MultiHead(datalog, inverter, start, values);
    MultiTail(datalog, inverter, start, values);
  }

  method FillWriteMulti(datalog: string, inverter: string, start: u16, values: seq<u16>)
    returns (p: ByteString)
    requires 1 <= |values| <= 123
    ensures p == WriteMultiRequest(datalog, inverter, start, values).Encode()
  {
    hide DataPacket, Body, Header, Le16, ValueBytes, MultiRest;
    var n := |values|;
    var dataLen := 1 + 1 + 10 + 2 + 2 + 1 + 2 * n + 2;
    var total := 18 + 2 + dataLen;
    var pkt := new byte[total](_ => 0);
    PutHeader(pkt, datalog, dataLen);
    PutBodyHead(pkt, WRITE_MULTI, inverter, start);
    Put(pkt, 34, Le16(n));
    Put(pkt, 36, [2 * n]);
    PutValues(pkt, 37, values);
    BodyMultiRest(inverter, start, values);
    PutCrc(pkt, 37 + 2 * n, datalog, Body(0, WRITE_MULTI, inverter, start, MultiRest(values)));
    p := pkt[..];
  }

  lemma BodyMultiRest(inverter: string, start: u16, values: seq<u16>)
    requires |values| <= 127
    ensures Body(0, WRITE_MULTI, inverter, start, []) + Le16(|values|) + [2 * |values|] + ValueBytes(values)
            == Body(0, WRITE_MULTI, inverter, start, MultiRest(values))
  {
    hide Le16, ValueBytes, Body;
    Regroup(Body(0, WRITE_MULTI, inverter, start, []), Le16(|values|), [2 * |values|], ValueBytes(values));
    BodyRest(WRITE_MULTI, inverter, start, MultiRest(values));
  }

  lemma Regroup(a: ByteString, b: ByteString, c: ByteString, d: ByteString)
    ensures a + b + c + d == a + (b + c + d)
  {
  }

  lemma HeartbeatBytes(datalog: string)
    ensures Le16(2) == [2, 0] && Le16(13) == [13, 0] && PREFIX == [0xA1, 0x1A]
    ensures Heartbeat(datalog).Encode() == [0xA1, 0x1A, 2, 0, 13, 0, 1, 0xC1] + SerialBytes(datalog) + [0]
  {
    hide SerialBytes;
  }

  method BuildHeartbeat(datalog: string) returns (p: ByteString)
    ensures p == Heartbeat(datalog).Encode()
    ensures |p| == 19 && p[..8] == [0xA1, 0x1A, 2, 0, 13, 0, 1, 0xC1]
    ensures p[8..18] == SerialBytes(datalog) && p[18] == 0
  {
    hide Packet.Encode, Le16, SerialBytes, CrcOf, CrcBytes;
    HeartbeatBytes(datalog);
    var pkt := new byte[19](_ => 0);
    Put(pkt, 0, PREFIX);
    Put(pkt, 2, Le16(2));
    Put(pkt, 4, Le16(13));
    Put(pkt, 6, [0x01]);
    Put(pkt, 7, [TCP_HEARTBEAT]);
    Put(pkt, 8, SerialBytes(datalog));
    Put(pkt, 18, [0]);
    assert pkt[..] == pkt[..19];
    p := pkt[..];
  }
}
