/** The two battery drivers: Modbus RTU responses with a CRC, and A5/5A broadcast frames. */
module Batteries {
  import opened Wrappers
  import opened Bytes
  import opened Crc
  import Scanner

  // ---- Modbus RTU --------------------------------------------------------------------------

  const READ_HOLDING: byte := 0x03

  function ReadBe16(data: ByteString, off: nat): (v: u16)
    requires off + 2 <= |data|
  {
    256 * data[off] as int + data[off + 1] as int
  }

  datatype Verdict = Rejected | ModbusError(code: byte) | Accepted(payload: ByteString)

  /** A response from the polled battery is a well-formed reading: long enough, and its CRC is right. */
  predicate GoodReading(slave: byte, data: ByteString) {
    && |data| >= 5 && data[0] == slave && data[1] == READ_HOLDING
    && |data| >= 5 + data[2] as int
    && CrcOf(data) == 0
  }

  predicate IsErrorReply(slave: byte, data: ByteString) {
    |data| >= 5 && data[0] == slave && data[1] >= 0x80
  }

  /** The checks of parse_response, in its order; the CRC is not looked at in an error reply. */
  method Validate(slave: byte, data: ByteString) returns (v: Verdict)
    ensures v.Accepted? <==>
              && |data| >= 5 && data[0] == slave && data[1] == 3
              && |data| >= 5 + data[2] as int && CrcOf(data) == 0
    ensures v.Accepted? <==> GoodReading(slave, data)
    ensures v.Accepted? ==> v.payload == data[3..3 + data[2] as int]
    ensures v.ModbusError? <==> |data| >= 5 && data[0] == slave && data[1] >= 128
    ensures v.ModbusError? <==> IsErrorReply(slave, data)
    ensures v.ModbusError? ==> v.code == data[1]
  {
    hide CrcOf, CrcBytes, Value;
    if |data| < 5 {
      return Rejected;
    }
    if data[0] != slave {
      return Rejected;
    }
    var code := data[1];
    if code >= 0x80 {
      return ModbusError(code);
    }
    if code != READ_HOLDING {
      return Rejected;
    }
    var byteCount := data[2] as int;
    if |data| < 3 + byteCount + 2 {
      return Rejected;
    }
    var payload := data[3..3 + byteCount];
    var message, trailer := data[..|data| - 2], data[|data| - 2..];
    var computed := CrcBitwise(message);
    CrcChecks(message, trailer, computed);
    assert data == message + trailer;
    if Value(computed) != ReadU16(trailer, 0) {
      return Rejected;
    }
    return Accepted(payload);
  }

  lemma CrcChecks(message: ByteString, trailer: ByteString, crc: bv16)
    requires |trailer| == 2 && crc == CrcOf(message)
    ensures Value(crc) == ReadU16(trailer, 0) <==> CrcOf(message + trailer) == 0
  {
    hide CrcOf, Value;
    ResidueIffTrailer(message, trailer);
    Le16Unique(trailer, Value(crc));
  }

  /**
   Error detection: take any response that is accepted and change it within 16 consecutive
   bits, anywhere and at any length.  It is never accepted again.
   */
  lemma CorruptionDetected(slave: byte, good: ByteString, bad: ByteString, k: nat, s: nat)
    requires GoodReading(slave, good) && BurstAt(good, bad, k, s) && bad != good
    ensures !GoodReading(slave, bad)
  {
    hide CrcFrom, LowBitsClear, OnlyLowBits;
    BurstDetected(0xFFFF, good, bad, k, s);
  }

  /** A change of one or two neighbouring bytes is such a burst. */
  lemma NeighbouringBytes(good: ByteString, bad: ByteString, k: nat)
    requires |good| == |bad|
    requires forall i | 0 <= i < |good| && i != k && i != k + 1 :: good[i] == bad[i]
    ensures BurstAt(good, bad, k, 0)
  {
    if k < |good| {
      ClearAtZero(Diff(good, bad, k));
    }
    if k + 2 < |good| {
      hide Xor, Bits;
      XorZero(Bits(good[k + 2]), Bits(bad[k + 2]));
    }
  }

  lemma ClearAtZero(x: bv16)
    ensures LowBitsClear(x, 0)
  {
  }

  /**
   The exact effect of changing bytes k and k + 1 of an accepted response: the driver returns
   nothing, unless the changed bytes include byte 1, its top bit got set and the address is
   still right; then it reports a Modbus error without having checked the CRC.
   */
  lemma ByteChangeOutcome(slave: byte, good: ByteString, bad: ByteString, k: nat)
    requires GoodReading(slave, good) && |bad| == |good| && bad != good
    requires forall i | 0 <= i < |good| && i != k && i != k + 1 :: good[i] == bad[i]
    ensures !GoodReading(slave, bad)
    ensures IsErrorReply(slave, bad) <==> k <= 1 && bad[0] == slave && bad[1] >= 0x80
  {
    NeighbouringBytes(good, bad, k);
    hide CrcOf, BurstAt;
    CorruptionDetected(slave, good, bad, k, 0);
  }

  /** The fields of a request; it carries its CRC, so the battery's own check accepts it. */
  function ReadRequestTo(slave: byte, start: u16, count: u16): (r: ByteString)
    ensures |r| == 8 && CrcOf(r) == 0
    ensures r[0] == slave && r[1] == 3
    ensures r[2] as int == start as int / 256 && r[3] as int == start as int % 256
    ensures r[4] as int == count as int / 256 && r[5] as int == count as int % 256
  {
    var pdu := [slave, READ_HOLDING] + Be16(start) + Be16(count);
    ResidueIffTrailer(pdu, CrcBytes(CrcOf(pdu)));
    pdu + CrcBytes(CrcOf(pdu))
  }

  // ---- cells -------------------------------------------------------------------------------

  datatype Extremes = Extremes(min: nat, minCell: nat, max: nat, maxCell: nat, sum: nat, count: nat)

  function Cells(payload: ByteString, off: nat): (mv: seq<u16>)
    requires off + 32 <= |payload|
    ensures |mv| == 16
    ensures forall i | 0 <= i < 16 ::
              mv[i] as int == 256 * payload[off + 2 * i] as int + payload[off + 2 * i + 1] as int
  {
    seq(16, i requires 0 <= i < 16 => ReadBe16(payload, off + 2 * i))
  }

  predicate ValidCell(mv: int) { 0 < mv < 5000 }

  function SumOf(values: seq<u16>): nat {
    if values == [] then 0 else SumOf(values[..|values| - 1]) + values[|values| - 1] as int
  }

  function OnlyValid(values: seq<u16>): seq<u16> {
    if values == [] then []
    else
      var last := values[|values| - 1];
      OnlyValid(values[..|values| - 1]) + if ValidCell(last) then [last] else []
  }

  /** The sum is that of the values one by one. */
  lemma {:induction false} SumOfConcat(a: seq<u16>, b: seq<u16>, mv: u16)
    ensures SumOf(a + b) == SumOf(a) + SumOf(b) && SumOf([mv]) == mv as int && SumOf([]) == 0
    decreases |b|
  {
    assert [mv][..0] == [];
    if b == [] {
      assert a + b == a;
    } else {
      SumOfConcat(a, b[..|b| - 1], mv);
      TakeAll(a, b);
    }
  }

  /** The valid values are those above 0 and below 5000, in their order. */
  lemma {:induction false} OnlyValidConcat(a: seq<u16>, b: seq<u16>, mv: u16)
    ensures OnlyValid(a + b) == OnlyValid(a) + OnlyValid(b)
    ensures OnlyValid([mv]) == (if 0 < mv < 5000 then [mv] else []) && OnlyValid([]) == []
    decreases |b|
  {
    assert [mv][..0] == [];
    if b == [] {
      assert a + b == a;
    } else {
      OnlyValidConcat(a, b[..|b| - 1], mv);
      TakeAll(a, b);
    }
  }

  /** Cell number n, counted from 1, is the first whose valid value is v, and `before` orders the rest. */
  predicate FirstBest(values: seq<u16>, v: int, n: int, better: (int, int) -> bool) {
    && 1 <= n <= |values| && values[n - 1] == v && ValidCell(v)
    && (forall i | 0 <= i < |values| && ValidCell(values[i]) :: v == values[i] || better(v, values[i]))
    && (forall i | 0 <= i < n - 1 && ValidCell(values[i]) :: better(v, values[i]))
  }

  predicate Lower(a: int, b: int) { a < b }

  predicate Higher(a: int, b: int) { a > b }

  /** The first smallest and the first largest valid cell, and the sum and number of valid cells. */
  predicate Summary(values: seq<u16>, e: Extremes) {
    && e.count == |OnlyValid(values)| && e.sum == SumOf(OnlyValid(values))
    && if e.count == 0 then e.min == 10000 && e.max == 0 && forall j | 0 <= j < |values| :: !ValidCell(values[j])
       else FirstBest(values, e.min, e.minCell, Lower) && FirstBest(values, e.max, e.maxCell, Higher)
  }

  lemma InvalidStep(values: seq<u16>, e: Extremes, mv: u16)
    requires Summary(values, e) && !ValidCell(mv)
    ensures Summary(values + [mv], e)
  {
    OnlyValidNext(values, mv);
    hide OnlyValid, SumOf;
    assert forall i | 0 <= i < |values| :: (values + [mv])[i] == values[i];
  }

  lemma ValidStep(values: seq<u16>, e: Extremes, mv: u16, lower: bool, higher: bool)
    requires Summary(values, e) && ValidCell(mv)
    requires lower == (mv < e.min) && higher == (mv > e.max)
    ensures var n := |values| + 1;
            Summary(values + [mv], Extremes(if lower then mv else e.min, if lower then n else e.minCell,
                                            if higher then mv else e.max, if higher then n else e.maxCell,
                                            e.sum + mv, e.count + 1))
  {
    OnlyValidNext(values, mv);
    hide OnlyValid, SumOf;
    assert forall i | 0 <= i < |values| :: (values + [mv])[i] == values[i];
  }

  lemma OnlyValidNext(values: seq<u16>, mv: u16)
    ensures OnlyValid(values + [mv]) == OnlyValid(values) + if ValidCell(mv) then [mv] else []
    ensures SumOf(OnlyValid(values) + [mv]) == SumOf(OnlyValid(values)) + mv as int
    ensures OnlyValid(values) + [] == OnlyValid(values)
  {
    assert (values + [mv])[..|values|] == values;
    assert (OnlyValid(values) + [mv])[..|OnlyValid(values)|] == OnlyValid(values);
  }

  /** The cell loop over a voltage payload: cells outside 1..4999 mV do not take part. */
  method Summarise(payload: ByteString) returns (e: Extremes)
    requires |payload| == 0x24
    ensures Summary(Cells(payload, 4), e)
    // Cells are numbered from 1; of equal ones the first counts.
    ensures var mv := Cells(payload, 4);
      && (forall i | 0 <= i < 16 && 0 < mv[i] < 5000 ::
            && e.min <= mv[i] as int <= e.max
            && (i + 1 < e.minCell ==> e.min < mv[i] as int) && (i + 1 < e.maxCell ==> mv[i] as int < e.max))
      && (if exists i :: 0 <= i < 16 && 0 < mv[i] < 5000 then
            && 1 <= e.minCell <= 16 && e.min == mv[e.minCell - 1] as int && 0 < e.min
            && 1 <= e.maxCell <= 16 && e.max == mv[e.maxCell - 1] as int && e.max < 5000
          else e.min == 10000 && e.max == 0)
      && e.count == |OnlyValid(mv)| && e.sum == SumOf(OnlyValid(mv))
  {
    hide Summary;
    e := Extremes(10000, 0, 0, 0, 0, 0);
    EmptySummary();
    ghost var values := Cells(payload, 4);
    for i := 0 to 16
      invariant Summary(values[..i], e)
    {
      var mv := ReadBe16(payload, 4 + i * 2);
      ghost var before := e;
      if 0 < mv < 5000 {
        ValidStep(values[..i], before, mv, mv < before.min, mv > before.max);
        if mv < e.min {
          e := e.(min := mv, minCell := i + 1);
        }
        if mv > e.max {
          e := e.(max := mv, maxCell := i + 1);
        }
        e := e.(sum := e.sum + mv, count := e.count + 1);
      } else {
        InvalidStep(values[..i], before, mv);
      }
      assert values[..i + 1] == values[..i] + [mv];
    }
    assert values[..16] == values;
    SummaryMeaning(values, e);
  }

  lemma SummaryMeaning(mv: seq<u16>, e: Extremes)
    requires Summary(mv, e) && |mv| == 16
    ensures forall i | 0 <= i < 16 && 0 < mv[i] < 5000 ::
              && e.min <= mv[i] as int <= e.max
              && (i + 1 < e.minCell ==> e.min < mv[i] as int) && (i + 1 < e.maxCell ==> mv[i] as int < e.max)
    ensures if exists i :: 0 <= i < 16 && 0 < mv[i] < 5000 then
              && 1 <= e.minCell <= 16 && e.min == mv[e.minCell - 1] as int && 0 < e.min
              && 1 <= e.maxCell <= 16 && e.max == mv[e.maxCell - 1] as int && e.max < 5000
            else e.min == 10000 && e.max == 0
    ensures e.count == |OnlyValid(mv)| && e.sum == SumOf(OnlyValid(mv))
  {
    hide OnlyValid, SumOf;
    if e.count > 0 {
      assert ValidCell(mv[e.minCell - 1] as int);
    } else {
      forall i | 0 <= i < 16
        ensures !(0 < mv[i] < 5000)
      {
        assert !ValidCell(mv[i] as int);
      }
    }
  }

  lemma EmptySummary()
    ensures Summary([], Extremes(10000, 0, 0, 0, 0, 0))
  {
  }

  // ---- A5/5A frames ------------------------------------------------------------------------

  const MAGIC: ByteString := [0xA5, 0x5A]

  function SplitSpec(data: ByteString): seq<ByteString>
    decreases |data|
  {
    if |data| < 3 then []
    else if data[..2] == MAGIC && 3 + data[2] as int <= |data| then
      [data[..3 + data[2] as int]] + SplitSpec(data[3 + data[2] as int..])
    else SplitSpec(data[1..])
  }

  method SplitFrames(data: ByteString) returns (frames: seq<ByteString>)
    ensures frames == SplitSpec(data)
  {
    hide SplitSpec;
    frames := [];
    var i := 0;
    assert data[0..] == data;
    while i < |data| - 2
      invariant i <= |data|
      invariant SplitSpec(data) == frames + SplitSpec(data[i..])
      decreases |data| - i
    {
      SplitStep(data, i);
      if data[i..i + 2] == MAGIC {
        var end: nat := i + 3 + data[i + 2] as int;
        if end <= |data| {
          frames := frames + [data[i..end]];
          i := end;
          continue;
        }
      }
      i := i + 1;
    }
    SplitShort(data[i..]);
  }

  lemma SplitShort(data: ByteString)
    requires |data| < 3
    ensures SplitSpec(data) == []
  {
  }

  lemma SplitStep(data: ByteString, i: nat)
    requires i + 3 <= |data|
    ensures var end := i + 3 + data[i + 2] as int;
            if data[i..i + 2] == MAGIC && end <= |data|
            then SplitSpec(data[i..]) == [data[i..end]] + SplitSpec(data[end..])
            else SplitSpec(data[i..]) == SplitSpec(data[i + 1..])
  {
    var rest := data[i..];
    var end := i + 3 + data[i + 2] as int;
    assert rest[..2] == data[i..i + 2] && rest[2] == data[i + 2] && rest[1..] == data[i + 1..];
    if end <= |data| {
      assert rest[..end - i] == data[i..end] && rest[end - i..] == data[end..];
    }
  }

  /** A complete frame: the magic, a count, and as many bytes as the count says. */
  predicate WholeAt(d: ByteString, i: nat) {
    i + 3 <= |d| && d[i] == 0xA5 && d[i + 1] == 0x5A && i + 3 + d[i + 2] as int <= |d|
  }

  predicate IsWhole(d: ByteString, s: Scanner.Span) {
    WholeAt(d, s.lo) && s.hi == s.lo + 3 + d[s.lo + 2] as int
  }

  /** Disjoint complete frames, in order; every complete frame from here on starts within one of them. */
  ghost predicate SplitTiles(d: ByteString, from: nat, spans: seq<Scanner.Span>) {
    && (forall k | 0 <= k < |spans| :: IsWhole(d, spans[k]) && from <= spans[k].lo)
    && Scanner.InOrder(spans)
    && forall i: nat | from <= i && WholeAt(d, i) :: Scanner.Covered(spans, i)
  }

  /** On any bytes the frames returned are such. */
  lemma {:induction false} SplitFound(d: ByteString, from: nat) returns (spans: seq<Scanner.Span>)
    requires from <= |d|
    ensures SplitTiles(d, from, spans) && Scanner.Pieces(d, spans) == SplitSpec(d[from..])
    decreases |d| - from
  {
    hide *;
    if from + 3 > |d| {
      spans := [];
      SplitShort(d[from..]);
      Scanner.NoPieces(d);
      NoFrame(d, from);
    } else {
      SplitAt(d, from);
      if WholeAt(d, from) {
        var first := Scanner.Span(from, from + 3 + d[from + 2] as int);
        var rest := SplitFound(d, first.hi);
        OneMoreFrame(d, first, rest);
        Scanner.MorePieces(d, first, rest);
        spans := [first] + rest;
      } else {
        spans := SplitFound(d, from + 1);
        OneBytePassed(d, from, spans);
      }
    }
  }

  lemma NoFrame(d: ByteString, from: nat)
    requires from + 3 > |d|
    ensures SplitTiles(d, from, [])
  {
  }

  lemma SplitAt(d: ByteString, i: nat)
    requires i + 3 <= |d|
    ensures WholeAt(d, i) ==> var end := i + 3 + d[i + 2] as int;
              && end <= |d| && IsWhole(d, Scanner.Span(i, end))
              && SplitSpec(d[i..]) == [d[i..end]] + SplitSpec(d[end..])
    ensures !WholeAt(d, i) ==> SplitSpec(d[i..]) == SplitSpec(d[i + 1..])
  {
    SplitStep(d, i);
    hide SplitSpec;
    assert d[i..i + 2] == [d[i], d[i + 1]];
  }

  lemma OneBytePassed(d: ByteString, from: nat, spans: seq<Scanner.Span>)
    requires SplitTiles(d, from + 1, spans) && !WholeAt(d, from)
    ensures SplitTiles(d, from, spans)
  {
    hide WholeAt, IsWhole, Scanner.Covered, Scanner.InOrder;
  }

  lemma OneMoreFrame(d: ByteString, first: Scanner.Span, rest: seq<Scanner.Span>)
    requires IsWhole(d, first) && SplitTiles(d, first.hi, rest)
    ensures SplitTiles(d, first.lo, [first] + rest)
  {
    assert first.lo < first.hi;
    hide WholeAt, IsWhole, Scanner.Covered, Scanner.InOrder;
    var spans := [first] + rest;
    Ordered(first, rest);
    forall k | 0 <= k < |spans|
      ensures IsWhole(d, spans[k]) && first.lo <= spans[k].lo
    {
      WithFirst(d, first, rest, k);
    }
    forall i: nat | first.lo <= i && WholeAt(d, i)
      ensures Scanner.Covered(spans, i)
    {
      if i >= first.hi {
        assert Scanner.Covered(rest, i);
      }
      Scanner.CoveredByMore(first, rest, i);
    }
  }

  lemma WithFirst(d: ByteString, first: Scanner.Span, rest: seq<Scanner.Span>, k: nat)
    requires IsWhole(d, first) && k <= |rest| && first.lo <= first.hi
    requires k > 0 ==> IsWhole(d, rest[k - 1]) && first.hi <= rest[k - 1].lo
    ensures IsWhole(d, ([first] + rest)[k]) && first.lo <= ([first] + rest)[k].lo
  {
    hide IsWhole;
    assert k > 0 ==> ([first] + rest)[k] == rest[k - 1];
  }

  lemma Ordered(first: Scanner.Span, rest: seq<Scanner.Span>)
    requires Scanner.InOrder(rest) && forall k | 0 <= k < |rest| :: first.hi <= rest[k].lo
    ensures Scanner.InOrder([first] + rest)
  {
    var spans := [first] + rest;
    forall j, k | 0 <= j < k < |spans|
      ensures spans[j].hi <= spans[k].lo
    {
      assert spans[k] == rest[k - 1] && (j > 0 ==> spans[j] == rest[j - 1]);
    }
  }

  predicate A5Frame(f: ByteString) {
    |f| >= 3 && f[..2] == MAGIC && |f| == 3 + f[2] as int
  }

  /** Broadcast frames sent back to back are split into exactly those frames, whatever they carry. */
  lemma {:induction false} SplitFlatten(frames: seq<ByteString>)
    requires forall f | f in frames :: A5Frame(f)
    ensures SplitSpec(Flatten(frames)) == frames
  {
    if frames != [] {
      assert frames[0] in frames;
      SplitFlatten(frames[1..]);
      var first, all := frames[0], Flatten(frames);
      assert all[..2] == first[..2] && all[..|first|] == first && all[|first|..] == Flatten(frames[1..]);
    }
  }
}
