/**
 The dongle and the inverter behind it, as the callers of single-register reads and writes see
 them.  A script fixes in advance what the dongle does with each transaction: whether it forwards
 a write, whether it answers, whether the transaction raises, and whether a read tells the truth.
 WriteHasFate and ReadHasFate show that whatever a transaction of the persistent connection and
 the forwarding of its copies come to is one of these fates.
 */
module Dongles {
  import opened Bytes
  import opened Frames
  import opened Packets
  import opened Persistent
  import opened HoldingRegisters

  datatype Answer = Yes | No | Raises

  datatype Fate = Fate(forwarded: bool, answer: Answer, truthful: bool, told: u16)

  function WriteAnswer(f: Fate): WriteResult {
    match f.answer case Yes => Written case No => NotWritten case Raises => WriteRaised
  }

  /** A read that does not tell the truth may return anything. */
  function ReadAnswer(f: Fate, value: u16): ReadResult {
    match f.answer
    case Yes => ReadBack(if f.truthful then value else f.told)
    case No => NotRead
    case Raises => ReadRaised
  }

  function AfterWrite(f: Fate, regs: Regs, register: u16, value: u16): Regs {
    if f.forwarded then regs[register as int := value] else regs
  }

  /** What every transaction of an honest dongle is like. */
  predicate IsHonest(f: Fate) { f.forwarded && f.answer.Yes? && f.truthful }

  ghost predicate Honest(script: nat -> Fate) { forall n: nat :: IsHonest(script(n)) }

  /** Reads that are answered tell the truth; writes may be dropped, unanswered or falsely echoed. */
  ghost predicate TruthfulReads(script: nat -> Fate) { forall n: nat :: script(n).truthful }

  /** A transaction; a write also records what the register held before. */
  datatype Op = ReadOp(register: int, fate: Fate, result: ReadResult)
              | WriteOp(register: int, value: u16, was: u16, fate: Fate)

  function Get(regs: Regs, register: int): u16 { if register in regs then regs[register] else 0 }

  class Dongle {
    const script: nat -> Fate
    var clock: nat
    var regs: Regs

    /** Every transaction, and every state of the registers, in order. */
    ghost var ops: seq<Op>
    ghost var states: seq<Regs>

    ghost predicate Valid()
      reads this
    {
      states != [] && states[|states| - 1] == regs
    }

    constructor (script: nat -> Fate, regs: Regs)
      ensures Valid() && this.script == script && this.regs == regs
      ensures clock == 0 && ops == [] && states == [regs]
    {
      this.script, this.regs := script, regs;
      clock, ops, states := 0, [], [regs];
    }

    method Read(register: u16) returns (r: ReadResult)
      requires Valid()
      modifies this
      ensures Valid() && regs == old(regs) && states == old(states) && clock == old(clock) + 1
      ensures r == ReadAnswer(script(old(clock)), Get(regs, register))
      ensures ops == old(ops) + [ReadOp(register, script(old(clock)), r)]
    {
      var fate := script(clock);
      clock := clock + 1;
      match fate.answer {
        case Yes => r := ReadBack(if fate.truthful then Get(regs, register) else fate.told);
        case No => r := NotRead;
        case Raises => r := ReadRaised;
      }
      ops := ops + [ReadOp(register, fate, r)];
    }

    /** A value that does not fit a register raises before anything is sent. */
    method Write(register: u16, value: int) returns (r: WriteResult)
      requires Valid()
      modifies this
      ensures Valid()
      ensures !(0 <= value <= 0xFFFF) ==>
                && r.WriteRaised? && regs == old(regs) && states == old(states)
                && ops == old(ops) && clock == old(clock)
      ensures 0 <= value <= 0xFFFF ==>
                && clock == old(clock) + 1
                && regs == AfterWrite(script(old(clock)), old(regs), register, value)
                && states == old(states) + [regs]
                && ops == old(ops) + [WriteOp(register, value, Get(old(regs), register), script(old(clock)))]
                && r == WriteAnswer(script(old(clock)))
    {
      if !(0 <= value <= 0xFFFF) {
        return WriteRaised;
      }
      var fate := script(clock);
      clock := clock + 1;
      ops := ops + [WriteOp(register, value, Get(regs, register), fate)];
      if fate.forwarded {
        regs := regs[register as int := value];
      }
      states := states + [regs];
      match fate.answer {
        case Yes => r := Written;
        case No => r := NotWritten;
        case Raises => r := WriteRaised;
      }
    }
  }

  /**
   Whichever copies of a write request the dongle forwards, and however the transaction ends, the
   registers and the result are those of one write with some fate.
   */
  lemma WriteHasFate(regs: Regs, copies: seq<ByteString>, forwarded: seq<bool>, r: WriteResult,
                     datalog: string, inverter: string, register: u16, value: u16) returns (fate: Fate)
    requires |copies| == |forwarded|
    requires forall c | c in copies :: c == WriteRequest(datalog, inverter, register, value).Encode()
    ensures AfterForwarding(regs, copies, forwarded) == AfterWrite(fate, regs, register, value)
    ensures r == WriteAnswer(fate)
  {
    hide AfterForwarding, Packet.Encode;
    var answer := match r case Written => Yes case NotWritten => No case WriteRaised => Raises;
    fate := Fate(true in forwarded, answer, true, 0);
    WriteIsOldOrNew(regs, copies, forwarded, datalog, inverter, register, value);
  }

  /** The same for a read. */
  lemma ReadHasFate(regs: Regs, copies: seq<ByteString>, forwarded: seq<bool>, r: ReadResult,
                    datalog: string, inverter: string, register: u16) returns (fate: Fate)
    requires |copies| == |forwarded|
    requires forall c | c in copies :: c == ReadRequest(datalog, inverter, READ_HOLD, register, 1).Encode()
    ensures AfterForwarding(regs, copies, forwarded) == regs
    ensures r == ReadAnswer(fate, Get(regs, register))
  {
    hide AfterForwarding, Packet.Encode;
    match r {
      case ReadBack(value) => fate := Fate(false, Yes, value == Get(regs, register), value);
      case NotRead => fate := Fate(false, No, true, 0);
      case ReadRaised => fate := Fate(false, Raises, true, 0);
    }
    ReadChangesNothing(regs, copies, forwarded, datalog, inverter, register);
  }
}
