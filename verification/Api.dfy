/** The handlers that write one named holding register, and a block of consecutive ones. */
module Api {
  import opened Wrappers
  import opened Bytes
  import opened HoldingRegisters
  import opened Dongles
  import opened Packets
  import opened Persistent
  import opened Settings
  import Ticks

  datatype Body = Body(value: Option<real>, raw: Option<int>)

  /** A register of the table; its bounds are compared with raw values here. */
  datatype Info = Info(register: u16, scale: real, bounds: Bounds)

  datatype Bounds = Bounds(min: Option<int>, max: Option<int>)

  predicate Within(b: Bounds, raw: int) {
    (b.min.Some? ==> b.min.value <= raw) && (b.max.Some? ==> raw <= b.max.value)
  }

  datatype Response<T> = NotFound | BadRequest | BadGateway | ServerError | Written(value: T)

  /** The raw value that a body asks for, if it asks for exactly one. */
  function Wanted(info: Info, body: Body): Option<int>
    requires info.scale > 0.0
  {
    match (body.value, body.raw)
    case (Some(v), None) => Some(Round(v / info.scale))
    case (None, Some(r)) => Some(r)
    case _ => None
  }

  predicate Acceptable(info: Info, body: Body)
    requires info.scale > 0.0
  {
    Wanted(info, body).Some? && Within(info.bounds, Wanted(info, body).value)
  }

  /**
   A body must name exactly one of value and raw.  The value is divided by the scale and rounded:
   what is written, scaled, is the value to within half a step.
   */
  lemma WantedMeaning(info: Info, body: Body)
    requires info.scale > 0.0
    ensures Wanted(info, body).None? <==> body.value.Some? == body.raw.Some?
    ensures body.value.None? && body.raw.Some? ==> Wanted(info, body) == body.raw
    ensures body.value.Some? && body.raw.None? ==>
              && var raw := Wanted(info, body).value;
                 -info.scale / 2.0 <= raw as real * info.scale - body.value.value <= info.scale / 2.0
    ensures Acceptable(info, body) <==>
              && body.value.Some? != body.raw.Some?
              && (info.bounds.min.Some? ==> Wanted(info, body).value >= info.bounds.min.value)
              && (info.bounds.max.Some? ==> Wanted(info, body).value <= info.bounds.max.value)
  {
    if body.value.Some? && body.raw.None? {
      RoundedSteps(body.value.value, info.scale);
    }
    hide Round;
  }

  lemma RoundedSteps(v: real, scale: real)
    requires scale > 0.0
    ensures -scale / 2.0 <= Round(v / scale) as real * scale - v <= scale / 2.0
  {
    var x := v / scale;
    Undivided(v, scale);
    HalfStep(x, Round(x) as real, scale, v);
  }

  lemma Undivided(v: real, scale: real)
    requires scale > 0.0
    ensures v / scale * scale == v
  {
  }

  lemma HalfStep(x: real, n: real, scale: real, v: real)
    requires scale > 0.0 && -0.5 <= x - n <= 0.5 && x * scale == v
    ensures -scale / 2.0 <= n * scale - v <= scale / 2.0
  {
    NotNegative(0.5 - (x - n), scale);
    NotNegative(0.5 + (x - n), scale);
    assert (0.5 - (x - n)) * scale == 0.5 * scale - v + n * scale;
    assert (0.5 + (x - n)) * scale == 0.5 * scale + v - n * scale;
  }

  lemma NotNegative(x: real, y: real)
    requires x >= 0.0 && y >= 0.0
    ensures x * y >= 0.0
  {
  }

  /**
   Up to four writes until one is echoed, then up to four reads until one returns the value.
   Success is reported only after such a read; a request that is refused sends nothing; with
   an honest dongle every acceptable request that fits a register succeeds.
   */
  method HoldingPut(dongle: Dongle, info: Option<Info>, configured: bool, body: Body) returns (r: Response<int>)
    requires dongle.Valid() && (info.Some? ==> info.value.scale > 0.0)
    modifies dongle
    ensures dongle.Valid() && old(dongle.ops) <= dongle.ops && |dongle.ops| <= |old(dongle.ops)| + 8
    ensures r.NotFound? <==> info.None?
    ensures r.BadRequest? <==> info.Some? && (!Acceptable(info.value, body) || !configured)
    ensures r.NotFound? || r.BadRequest? ==> dongle.ops == old(dongle.ops) && dongle.regs == old(dongle.regs)
    ensures r.Written? ==>
              && Wanted(info.value, body) == Some(r.value) && Within(info.value.bounds, r.value)
              && Ticks.Confirmed(dongle.ops, Goal(info.value.register, r.value))
              && (TruthfulReads(dongle.script) ==> Get(dongle.regs, info.value.register) as int == r.value)
    ensures info.Some? && Acceptable(info.value, body) && configured && Honest(dongle.script)
            && FitsWord(Wanted(info.value, body).value) ==>
              r.Written? && |dongle.ops| == |old(dongle.ops)| + 2
    ensures r.BadGateway? ==>
              || Unanswered(dongle.ops, |dongle.ops| - 4)
              || Contrary(dongle.ops, |dongle.ops| - 4, Wanted(info.value, body).value)
    ensures dongle.regs == old(dongle.regs)
            || (info.Some? && Wanted(info.value, body).Some?
                && OldOrNew(old(dongle.regs), dongle.regs, info.value.register, Wanted(info.value, body).value))
  {
    hide Round;
    if info.None? {
      return NotFound;
    }
    var reg := info.value.register;
    if body.raw.Some? == body.value.Some? {
      return BadRequest;
    }
    var raw := if body.raw.Some? then body.raw.value else Round(body.value.value / info.value.scale);
    var bounds := info.value.bounds;
    if (bounds.min.Some? && raw < bounds.min.value) || (bounds.max.Some? && raw > bounds.max.value) {
      return BadRequest;
    }
    if !configured {
      return BadRequest;
    }
    var w := WriteRetried(dongle, reg, raw);
    if w.WriteRaised? {
      return ServerError;
    }
    if w.NotWritten? {
      return BadGateway;
    }
    r := ReadBackRetried(dongle, reg, raw);
  }

  /** From here on there were only writes that brought no answer. */
  predicate Unanswered(ops: seq<Op>, from: int) {
    0 <= from < |ops| && forall k | from <= k < |ops| :: ops[k].WriteOp? && ops[k].fate.answer.No?
  }

  /** From here on there were only reads, and none returned this value. */
  predicate Contrary(ops: seq<Op>, from: int, raw: int) {
    && 0 <= from < |ops|
    && forall k | from <= k < |ops| ::
         ops[k].ReadOp? && !(ops[k].result.ReadBack? && ops[k].result.value as int == raw)
  }

  predicate OldOrNew(before: Regs, after: Regs, register: u16, raw: int) {
    after == before || (FitsWord(raw) && after == before[register as int := raw])
  }

  method WriteRetried(dongle: Dongle, register: u16, raw: int) returns (w: WriteResult)
    requires dongle.Valid()
    modifies dongle
    ensures dongle.Valid() && old(dongle.ops) <= dongle.ops && |dongle.ops| <= |old(dongle.ops)| + 4
    ensures OldOrNew(old(dongle.regs), dongle.regs, register, raw)
    ensures w.NotWritten? ==> |dongle.ops| == |old(dongle.ops)| + 4 && Unanswered(dongle.ops, |old(dongle.ops)|)
    ensures Honest(dongle.script) && FitsWord(raw) ==>
              w.Written? && |dongle.ops| == |old(dongle.ops)| + 1 && Get(dongle.regs, register) as int == raw
  {
    for i := 0 to 4
      invariant dongle.Valid()
      invariant old(dongle.ops) <= dongle.ops && |dongle.ops| == |old(dongle.ops)| + i
      invariant i > 0 ==> Unanswered(dongle.ops, |old(dongle.ops)|)
      invariant OldOrNew(old(dongle.regs), dongle.regs, register, raw)
      invariant Honest(dongle.script) && FitsWord(raw) ==> i == 0
    {
      assert Honest(dongle.script) ==> IsHonest(dongle.script(dongle.clock));
      w := dongle.Write(register, raw);
      if !w.NotWritten? {
        return;
      }
    }
    w := NotWritten;
  }

  method ReadBackRetried(dongle: Dongle, register: u16, raw: int) returns (r: Response<int>)
    requires dongle.Valid()
    modifies dongle
    ensures dongle.Valid() && old(dongle.ops) <= dongle.ops && |dongle.ops| <= |old(dongle.ops)| + 4
    ensures dongle.regs == old(dongle.regs)
    ensures r == Response.Written(raw) || r.BadGateway? || r.ServerError?
    ensures r.BadGateway? ==> |dongle.ops| == |old(dongle.ops)| + 4 && Contrary(dongle.ops, |old(dongle.ops)|, raw)
    ensures r.Written? ==>
              && Ticks.Confirmed(dongle.ops, Goal(register, raw))
              && (TruthfulReads(dongle.script) ==> Get(dongle.regs, register) as int == raw)
    ensures Honest(dongle.script) && Get(old(dongle.regs), register) as int == raw ==>
              r.Written? && |dongle.ops| == |old(dongle.ops)| + 1
  {
    for i := 0 to 4
      invariant dongle.Valid() && dongle.regs == old(dongle.regs)
      invariant old(dongle.ops) <= dongle.ops && |dongle.ops| == |old(dongle.ops)| + i
      invariant i > 0 ==> Contrary(dongle.ops, |old(dongle.ops)|, raw)
      invariant Honest(dongle.script) && Get(dongle.regs, register) as int == raw ==> i == 0
    {
      assert Honest(dongle.script) ==> IsHonest(dongle.script(dongle.clock));
      var back := dongle.Read(register);
      if back.ReadRaised? {
        return ServerError;
      }
      if back.ReadBack? && back.value as int == raw {
        return Response.Written(raw);
      }
    }
    return BadGateway;
  }

  // ---- blocks ------------------------------------------------------------------------------

  predicate Known(table: map<int, Bounds>, supported: set<int>, reg: int) { reg in table && reg in supported }

  predicate Allowed(table: map<int, Bounds>, supported: set<int>, reg: int, raw: int) {
    Known(table, supported, reg) && Within(table[reg], raw)
  }

  /** The position of the first value that is not allowed, or the number of values. */
  function FirstRefused(table: map<int, Bounds>, supported: set<int>, start: int, values: seq<int>, from: nat): (k: nat)
    requires from <= |values|
    ensures from <= k <= |values|
    ensures forall i | from <= i < k :: Allowed(table, supported, start + i, values[i])
    ensures k < |values| ==> !Allowed(table, supported, start + k, values[k])
    decreases |values| - from
  {
    if from == |values| || !Allowed(table, supported, start + from, values[from]) then from
    else FirstRefused(table, supported, start, values, from + 1)
  }

  /** A value is allowed in a register of the table that the model supports, within its bounds. */
  lemma AllowedMeaning(table: map<int, Bounds>, supported: set<int>, reg: int, raw: int)
    ensures Allowed(table, supported, reg, raw) <==>
              && reg in table && reg in supported
              && (table[reg].min.Some? ==> table[reg].min.value <= raw)
              && (table[reg].max.Some? ==> raw <= table[reg].max.value)
  {
  }

  function EndOf<T>(r: Response<T>): WriteResult {
    match r
    case Written(_) => WriteResult.Written
    case BadGateway => NotWritten
    case _ => WriteRaised
  }

  /** The loop that checks a block, and its refusal. */
  method CheckBlock(table: map<int, Bounds>, supported: set<int>, first: int, values: seq<int>)
    returns (refusal: Option<Response<nat>>)
    ensures var k := FirstRefused(table, supported, first, values, 0);
            refusal == if k == |values| then None
                       else Some(if Known(table, supported, first + k) then BadRequest else NotFound)
  {
    for i := 0 to |values|
      invariant FirstRefused(table, supported, first, values, 0) == FirstRefused(table, supported, first, values, i)
    {
      if !Known(table, supported, first + i) {
        return Some(NotFound);
      }
      var bounds := table[first + i];
      if (bounds.min.Some? && values[i] < bounds.min.value) || (bounds.max.Some? && values[i] > bounds.max.value) {
        return Some(BadRequest);
      }
    }
    return None;
  }

  /**
   Everything is checked before anything is sent; then there is one transaction with the whole
   block, which HoldingRegisters.BlockIsAllOrNothing shows to set all of it or nothing.
   */
  method HoldingMultiPut(conn: PersistentConnection, datalog: string, inverter: string, start: Option<u16>,
                         table: map<int, Bounds>, supported: set<int>, values: seq<int>, configured: bool,
                         script: seq<Attempt>)
    returns (r: Response<nat>)
    requires conn.Valid() && |script| == conn.maxRetries + 1
    modifies conn
    ensures conn.Valid()
    ensures start.None? || start.value as int !in supported ==> r.NotFound?
    ensures start.Some? && start.value as int in supported ==>
              var k := FirstRefused(table, supported, start.value as int, values, 0);
              && (r.NotFound? <==> k < |values| && !Known(table, supported, start.value as int + k))
              && (r.NotFound? || r.BadRequest? <==> k < |values| || !configured)
    ensures r.NotFound? || r.BadRequest? ==> conn.sent == old(conn.sent)
    ensures !r.NotFound? && !r.BadRequest? <==>
              && configured && start.Some? && start.value as int in supported
              && forall i | 0 <= i < |values| :: Allowed(table, supported, start.value as int + i, values[i])
    ensures !r.NotFound? && !r.BadRequest? ==>
              && (r.Written? ==> r.value == |values|)
              && if BlockFits(start.value, values) then
                   && OnlyCopies(old(conn.sent), conn.sent,
                                 WriteMultiRequest(datalog, inverter, start.value, values).Encode())
                   && WriteEnded(script, WriteMultiEcho(start.value), |conn.sent| - |old(conn.sent)|, EndOf(r))
                 else r.ServerError? && conn.sent == old(conn.sent)
  {
    hide WriteEnded, OnlyCopies, Packet.Encode, BlockFits, Allowed;
    if start.None? || start.value as int !in supported {
      return NotFound;
    }
    var refusal := CheckBlock(table, supported, start.value as int, values);
    if refusal.Some? {
      return refusal.value;
    }
    if !configured {
      return BadRequest;
    }
    var w := WriteHoldingRegisters(conn, datalog, inverter, start.value as int, values, script);
    match w {
      case Written => r := Response.Written(|values|);
      case NotWritten => r := BadGateway;
      case WriteRaised => r := ServerError;
    }
  }
}
