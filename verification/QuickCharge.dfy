/** The quick-charge manager over an unreliable dongle. */
module QuickCharge {
  import opened Wrappers
  import opened Bytes
  import opened HoldingRegisters
  import opened Dongles

  const ENABLE_REG: u16 := 233
  const DURATION_REG: u16 := 234
  const MIN_MINUTES: int := 1
  const MAX_MINUTES: int := 1440

  /** Bits 1 to 15 of the enable register, which belong to other functions. */
  function OtherBits(regs: Regs): nat { Get(regs, ENABLE_REG) as int / 2 }

  predicate BitSet(regs: Regs) { Get(regs, ENABLE_REG) % 2 == 1 }

  function Duration(regs: Regs): u16 { Get(regs, DURATION_REG) }

  /** Quick charge is never on without a duration. */
  predicate Safe(regs: Regs) { BitSet(regs) ==> Duration(regs) >= 1 }

  /** Only the two registers of quick charge may differ, and only in the bits it owns. */
  ghost predicate OnlyOurs(before: Regs, after: Regs) {
    && OtherBits(after) == OtherBits(before)
    && forall r: int | r != ENABLE_REG && r != DURATION_REG :: Get(after, r) == Get(before, r)
  }

  ghost predicate AllOurs(before: Regs, states: seq<Regs>) {
    forall i | 0 <= i < |states| :: OnlyOurs(before, states[i])
  }

  predicate AllSafe(states: seq<Regs>) {
    forall i | 0 <= i < |states| :: Safe(states[i])
  }

  /**
   No accepted duration write left the inverter without a duration: it was applied, or there was a
   duration before, or it was to clear the duration.
   */
  predicate Covered(ops: seq<Op>) {
    forall i | 0 <= i < |ops| && ops[i].WriteOp? && ops[i].register == DURATION_REG && ops[i].fate.answer.Yes? ::
      ops[i].value == 0 || ops[i].fate.forwarded || ops[i].was >= 1
  }

  datatype History = History(ops: seq<Op>, states: seq<Regs>)

  function Last(h: History): Regs
    requires h.states != []
  {
    h.states[|h.states| - 1]
  }

  /** The history went on, harmlessly for everybody else. */
  ghost predicate Extends(a: History, b: History) {
    a.states != [] && a.ops <= b.ops && a.states <= b.states && AllOurs(Last(a), b.states[|a.states|..])
  }

  /** And quick charge was never on without a duration, if that was so before and no false echo hid a missing one. */
  ghost predicate StaysSafe(a: History, b: History)
    requires Extends(a, b)
  {
    Covered(b.ops[|a.ops|..]) && Safe(Last(a)) ==> AllSafe(b.states[|a.states|..])
  }

  /** What these two say, register by register. */
  lemma HistoryMeaning(a: History, b: History)
    requires Extends(a, b) && StaysSafe(a, b)
    ensures forall i | |a.states| <= i < |b.states| ::
              && Get(b.states[i], 233) as int / 2 == Get(Last(a), 233) as int / 2
              && forall r: int | r != 233 && r != 234 :: Get(b.states[i], r) == Get(Last(a), r)
    ensures (Get(Last(a), 233) % 2 == 0 || Get(Last(a), 234) >= 1)
            && (forall i | |a.ops| <= i < |b.ops| && b.ops[i].WriteOp? && b.ops[i].register == 234
                           && b.ops[i].fate.answer.Yes? ::
                  b.ops[i].value == 0 || b.ops[i].fate.forwarded || b.ops[i].was >= 1) ==>
              forall i | |a.states| <= i < |b.states| :: Get(b.states[i], 233) % 2 == 0 || Get(b.states[i], 234) >= 1
  {
    hide Get;
    assert forall i | |a.states| <= i < |b.states| :: b.states[i] == b.states[|a.states|..][i - |a.states|];
    assert forall i | |a.ops| <= i < |b.ops| :: b.ops[i] == b.ops[|a.ops|..][i - |a.ops|];
  }

  lemma Chain(a: History, b: History, c: History)
    requires Extends(a, b) && Extends(b, c)
    ensures Extends(a, c)
    ensures StaysSafe(a, b) && StaysSafe(b, c) ==> StaysSafe(a, c)
  {
    var n, m := |a.states|, |b.states|;
    hide OnlyOurs, Safe;
    OursReflexive(Last(a));
    assert OnlyOurs(Last(a), Last(b)) by {
      if m > n {
        assert Last(b) == b.states[n..][m - 1 - n];
      }
    }
    forall i | n <= i < |c.states|
      ensures OnlyOurs(Last(a), c.states[i])
    {
      if i < m {
        assert c.states[i] == b.states[n..][i - n];
      } else {
        assert c.states[i] == c.states[m..][i - m];
        OursTransitive(Last(a), Last(b), c.states[i]);
      }
    }
    if StaysSafe(a, b) && StaysSafe(b, c) && Covered(c.ops[|a.ops|..]) && Safe(Last(a)) {
      CoveredSplit(a.ops, b.ops, c.ops);
      assert m > n ==> Last(b) == b.states[n..][m - 1 - n];
      forall i | n <= i < |c.states|
        ensures Safe(c.states[i])
      {
        if i < m {
          assert c.states[i] == b.states[n..][i - n];
        } else {
          assert c.states[i] == c.states[m..][i - m];
        }
      }
    }
  }

  lemma OursReflexive(a: Regs)
    ensures OnlyOurs(a, a)
  {
  }

  lemma OursTransitive(a: Regs, b: Regs, c: Regs)
    requires OnlyOurs(a, b) && OnlyOurs(b, c)
    ensures OnlyOurs(a, c)
  {
  }

  lemma CoveredSplit(a: seq<Op>, b: seq<Op>, c: seq<Op>)
    requires a <= b <= c && Covered(c[|a|..])
    ensures Covered(b[|a|..]) && Covered(c[|b|..])
  {
    forall i | 0 <= i < |b| - |a|
      ensures b[|a|..][i] == c[|a|..][i]
    {
    }
    forall i | 0 <= i < |c| - |b|
      ensures c[|b|..][i] == c[|a|..][|b| - |a| + i]
    {
    }
  }

  /** cur | 1 and cur & ~1 */
  function WithBit(cur: u16, enable: bool): (new_: u16)
    ensures new_ as int / 2 == cur as int / 2 && new_ % 2 == (if enable then 1 else 0)
  {
    if enable then (if cur % 2 == 0 then cur + 1 else cur) else cur - cur % 2
  }

  datatype QuickChargeState = QuickChargeState(active: bool, minutes: int, deadline: real, startedAt: real)

  /** `begun` is the time from which the deadline was counted. */
  predicate StateOk(s: QuickChargeState, begun: real) {
    s.active ==> MIN_MINUTES <= s.minutes <= MAX_MINUTES && s.deadline == begun + s.minutes as real * 60.0
  }

  /** The next n transactions are honest. */
  predicate HonestFor(script: nat -> Fate, from: nat, n: nat) {
    forall i: nat | from <= i < from + n :: IsHonest(script(i))
  }

  datatype BitResult = BitDone(value: u16) | BitFailed | BitRaised

  datatype Result = Done | DryRun | Failed | Raised

  datatype LogRow = LogRow(register: u16, raw: Option<int>, success: bool)

  datatype Command =
    | Start(minutes: Option<int>, default: Option<int>, dryRun: bool, now: real, stamp: real)
    | Stop(dryRun: bool)
    | Tick(now: real)

  class QuickChargeManager {
    const dongle: Dongle
    var state: QuickChargeState
    var log: seq<LogRow>
    ghost var begun: real

    constructor (dongle: Dongle)
      ensures this.dongle == dongle && !state.active && StateOk(state, begun) && log == []
    {
      this.dongle := dongle;
      state, log, begun := QuickChargeState(false, 0, 0.0, 0.0), [], 0.0;
    }

    ghost function Now(): History
      reads dongle
    {
      History(dongle.ops, dongle.states)
    }

    /**
     Reads, changes bit 0, writes and reads back up to four times.  Success means that the
     inverter holds the new value.
     */
    method SetEnableBit(enable: bool) returns (r: BitResult)
      requires dongle.Valid() && TruthfulReads(dongle.script)
      modifies dongle
      ensures dongle.Valid() && Extends(old(Now()), Now())
      ensures dongle.states == old(dongle.states)
                               + SwitchStates(dongle.script, old(dongle.clock), old(dongle.regs), enable)
      ensures Duration(dongle.regs) == Duration(old(dongle.regs))
      ensures Safe(old(dongle.regs)) && (enable ==> Duration(old(dongle.regs)) >= 1) ==>
                AllSafe(dongle.states[|old(dongle.states)|..]) && Safe(dongle.regs)
      ensures !enable ==> StaysSafe(old(Now()), Now())
      ensures r.BitDone? ==> Get(dongle.regs, ENABLE_REG) == r.value && BitSet(dongle.regs) == enable
      ensures HonestFor(dongle.script, old(dongle.clock), 3) ==> r.BitDone?
      ensures Covered(dongle.ops[|old(dongle.ops)|..])
      // One read, one write, and up to four reads until one returns what was written.
      ensures old(dongle.ops) < dongle.ops && Switching(dongle.ops[|old(dongle.ops)|..])
      ensures |dongle.ops| <= |old(dongle.ops)| + 6
      ensures r.BitDone? ==>
                |dongle.ops| >= |old(dongle.ops)| + 3 && dongle.ops[|dongle.ops| - 1].result == ReadBack(r.value)
      ensures r.BitFailed? && |dongle.ops| > |old(dongle.ops)| + 2 ==> |dongle.ops| == |old(dongle.ops)| + 6
    {
      hide OnlyOurs, AllOurs, AllSafe, Safe, OtherBits, Covered, SwitchStates, WithBit, Switching;
      ghost var before := Now();
      SwitchUnfolded(dongle.script, dongle.clock, dongle.regs, enable);
      var cur := dongle.Read(ENABLE_REG);
      Unmoved(before);
      NoDuration(before.ops, before.ops, dongle.ops);
      match cur {
        case NotRead => return BitFailed;
        case ReadRaised => return BitRaised;
        case ReadBack(value) =>
          var new_ := WithBit(value, enable);
          ghost var between := dongle.ops;
          var w := dongle.Write(ENABLE_REG, new_);
          NoDuration(before.ops, between, dongle.ops);
          SwitchWritten(before, Now(), new_, enable, dongle.script(old(dongle.clock) + 1));
          ghost var written := dongle.states;
          if w.NotWritten? {
            return BitFailed;
          }
          if w.WriteRaised? {
            return BitRaised;
          }
          for i := 0 to 4
            invariant dongle.clock == old(dongle.clock) + 2 + i
            invariant i > 0 ==> !HonestFor(dongle.script, old(dongle.clock), 3)
            invariant dongle.Valid() && dongle.states == written && dongle.regs == written[|written| - 1]
            invariant before.ops <= dongle.ops && Covered(dongle.ops[|before.ops|..])
            invariant Switching(dongle.ops[|before.ops|..]) && |dongle.ops| == |before.ops| + 2 + i
          {
            between := dongle.ops;
            var back := dongle.Read(ENABLE_REG);
            NoDuration(before.ops, between, dongle.ops);
            if back.ReadRaised? {
              return BitRaised;
            }
            if back == ReadBack(new_) {
              return BitDone(new_);
            }
          }
          return BitFailed;
      }
    }

    /** One write of the duration register, which is not read back. */
    method WriteDuration(minutes: u16) returns (w: WriteResult)
      requires dongle.Valid() && (minutes == 0 ==> !BitSet(dongle.regs))
      modifies dongle
      ensures dongle.Valid() && Extends(old(Now()), Now()) && StaysSafe(old(Now()), Now())
      ensures var fate := dongle.script(old(dongle.clock));
        && dongle.regs == AfterWrite(fate, old(dongle.regs), DURATION_REG, minutes)
        && Duration(dongle.regs) == (if fate.forwarded then minutes else Duration(old(dongle.regs)))
        && dongle.states == old(dongle.states) + [dongle.regs]
        && dongle.ops == old(dongle.ops) + [WriteOp(DURATION_REG, minutes, Duration(old(dongle.regs)), fate)]
        && (w.Written? <==> fate.answer.Yes?) && (w.NotWritten? <==> fate.answer.No?)
      ensures dongle.clock == old(dongle.clock) + 1
      ensures BitSet(dongle.regs) == BitSet(old(dongle.regs))
    {
      w := dongle.Write(DURATION_REG, minutes);
      assert dongle.states[|old(dongle.states)|..] == [dongle.regs];
      assert dongle.ops[|old(dongle.ops)|..] == [dongle.ops[|old(dongle.ops)|]];
    }

    /**
     Duration first, then the switch; a state is saved only when both went through.  The deadline
     counts from `now`, the clock is read again for the stamp.
     */
    method DoStart(minutes: Option<int>, default: Option<int>, dryRun: bool, now: real, stamp: real) returns (r: Result)
      requires dongle.Valid() && TruthfulReads(dongle.script) && StateOk(state, begun)
      modifies this`state, this`log, this`begun, dongle
      ensures dongle.Valid() && Extends(old(Now()), Now()) && StaysSafe(old(Now()), Now()) && StateOk(state, begun)
      ensures dryRun ==> r.DryRun? && dongle.ops == old(dongle.ops) && dongle.states == old(dongle.states)
      ensures var m := Clamped(Asked(minutes, default));
        && (!dryRun ==> Started(old(Now()), Now(), dongle.script, old(dongle.clock), m))
        && StartLogged(old(log), log, r, m, Get(dongle.regs, ENABLE_REG))
        && if r.Done? then state == QuickChargeState(true, m, now + m as real * 60.0, stamp) && begun == now
           else state == old(state) && begun == old(begun)
      // The minutes asked for, else the default, else 60; forced into 1 to 1440.
      ensures r.Done? ==>
                var asked := if minutes.Some? then minutes.value else if default.Some? then default.value else 60;
                && state.minutes == (if asked < 1 then 1 else if asked > 1440 then 1440 else asked)
                && Get(dongle.regs, 233) % 2 == 1
                && |dongle.ops| > |old(dongle.ops)|
                && dongle.ops[|old(dongle.ops)|] ==
                     WriteOp(234, state.minutes, Get(old(dongle.regs), 234), dongle.script(old(dongle.clock)))
      // The duration write is not read back: echoed without being forwarded, it still counts.
      ensures var fate := dongle.script(old(dongle.clock));
        && (r.Done? ==>
              Duration(dongle.regs) == if fate.forwarded then state.minutes else Duration(old(dongle.regs)))
        && (!dryRun && fate.answer.Yes? && HonestFor(dongle.script, old(dongle.clock) + 1, 3) ==> r.Done?)
    {
      hide OnlyOurs, AllOurs, AllSafe, Safe, Covered, OtherBits, WithBit, SwitchStates, Extends, StaysSafe, BitSet,
        Duration, Get, AfterWrite, Started, HonestFor, TruthfulReads, Asked, WriteAnswer, Switching, StartLogged;
      var m: u16 := Clamped(Asked(minutes, default));
      ghost var before := Now();
      if dryRun {
        log := log + [LogRow(DURATION_REG, Some(m), true)];
        StartRows(old(log), m, Get(dongle.regs, ENABLE_REG));
        Unmoved(before);
        return DryRun;
      }
      var w := WriteDuration(m);
      if !w.Written? {
        StartEnded(before, Now(), dongle.script, old(dongle.clock), m);
        StartRows(log, m, Get(dongle.regs, ENABLE_REG));
        log := log + if w.WriteRaised? then [] else [LogRow(DURATION_REG, Some(m), false)];
        return if w.WriteRaised? then Raised else Failed;
      }
      log := log + [LogRow(DURATION_REG, Some(m), true)];
      ghost var between := Now();
      var b := SetEnableBit(true);
      StartSafe(before, between, Now(), m, dongle.script(old(dongle.clock)));
      StartWentOn(before, between, Now(), dongle.script, old(dongle.clock), m);
      StartRows(old(log), m, Get(dongle.regs, ENABLE_REG));
      match b {
        case BitRaised =>
          return Raised;
        case BitFailed =>
          log := log + [LogRow(ENABLE_REG, None, false)];
          return Failed;
        case BitDone(value) =>
          log := log + [LogRow(ENABLE_REG, Some(value as int), true)];
          AskedMeaning(minutes, default);
          SwitchIsOn(before.states[|before.states| - 1], dongle.regs);
          state, begun := QuickChargeState(true, m, now + m as real * 60.0, stamp), now;
          return Done;
      }
    }

    /** Switch first, then the duration; `active` is cleared only when both went through. */
    method DoStop(dryRun: bool) returns (r: Result)
      requires dongle.Valid() && TruthfulReads(dongle.script) && StateOk(state, begun)
      modifies this`state, this`log, dongle
      ensures dongle.Valid() && Extends(old(Now()), Now()) && StaysSafe(old(Now()), Now()) && StateOk(state, begun)
      ensures dryRun ==> r.DryRun? && dongle.ops == old(dongle.ops) && dongle.states == old(dongle.states)
      ensures !r.Done? ==> state == old(state)
      ensures StopLogged(old(log), log, r)
      ensures Safe(old(dongle.regs)) ==> AllSafe(dongle.states[|old(dongle.states)|..])
      ensures r.Done? ==>
                && state == old(state).(active := false)
                && !BitSet(dongle.regs) && AcceptedDuration(dongle.ops, 0)
                && (dongle.ops[|dongle.ops| - 1].fate.forwarded ==> Duration(dongle.regs) == 0)
                && Get(dongle.regs, 233) % 2 == 0
                && |dongle.ops| >= |old(dongle.ops)| + 2 && dongle.ops[|old(dongle.ops)|].register == 233
                && dongle.ops[|dongle.ops| - 1].register == 234 && dongle.ops[|dongle.ops| - 1].WriteOp?
                && log[|log| - 1] == LogRow(234, Some(0), true)
    {
      hide OnlyOurs, AllOurs, AllSafe, Safe, Covered, OtherBits, SwitchedOff, Extends, StaysSafe, SwitchStates, Get;
      Unmoved(Now());
      if dryRun {
        log := log + [LogRow(ENABLE_REG, Some(0), true)];
        return DryRun;
      }
      ghost var before := Now();
      var b := SetEnableBit(false);
      ghost var between := Now();
      match b {
        case BitRaised =>
          return Raised;
        case BitFailed =>
          log := log + [LogRow(ENABLE_REG, None, false)];
          return Failed;
        case BitDone(value) =>
          ghost var was := log;
          log := log + [LogRow(ENABLE_REG, Some(value as int), true)];
          OffRow(was, log, value);
      }
      ghost var off := log;
      var w := WriteDuration(0);
      Chain(before, between, Now());
      ClearSafe(before, between, Now());
      if w.WriteRaised? {
        return Raised;
      }
      log := log + [LogRow(DURATION_REG, Some(0), w.Written?)];
      assert log[..|log| - 1] == off;
      if w.NotWritten? {
        return Failed;
      }
      state := state.(active := false);
      return Done;
    }

    /** Acts only when a charge is active and its deadline has come. */
    method DoTick(now: real) returns (r: Option<Result>)
      requires dongle.Valid() && TruthfulReads(dongle.script) && StateOk(state, begun)
      modifies this`state, this`log, dongle
      ensures dongle.Valid() && Extends(old(Now()), Now()) && StaysSafe(old(Now()), Now()) && StateOk(state, begun)
      ensures r.None? <==> !old(state).active || now < old(state).deadline
      ensures r.None? ==>
                && state == old(state) && log == old(log)
                && dongle.ops == old(dongle.ops) && dongle.states == old(dongle.states)
      ensures Safe(old(dongle.regs)) ==> AllSafe(dongle.states[|old(dongle.states)|..])
      ensures r.Some? && r.value.Done? ==>
                !state.active && !BitSet(dongle.regs) && AcceptedDuration(dongle.ops, 0)
      ensures r.Some? && !r.value.Done? ==> state == old(state)
      ensures r.Some? ==> exists l :: StopLogged(old(log), l, r.value)
                                      && log == l + if r.value.Done? then [LogRow(DURATION_REG, Some(0), true)] else []
    {
      Unmoved(Now());
      if !state.active {
        return None;
      }
      if now < state.deadline {
        return None;
      }
      var result := DoStop(false);
      if result.Done? {
        log := log + [LogRow(DURATION_REG, Some(0), true)];
      }
      return Some(result);
    }

    /**
     Any run of commands against any dongle whose reads tell the truth: in every register state
     of the run the bits of other functions and all other registers are as at the beginning; if
     no start that found no duration had its duration write echoed falsely, quick charge was never
     on without a duration.
     */
    method Run(commands: seq<Command>)
      requires dongle.Valid() && TruthfulReads(dongle.script) && StateOk(state, begun)
      modifies this`state, this`log, this`begun, dongle
      ensures dongle.Valid() && Extends(old(Now()), Now()) && StaysSafe(old(Now()), Now())
      ensures StateOk(state, begun)
    {
      ghost var before := Now();
      Unmoved(before);
      for n := 0 to |commands|
        invariant dongle.Valid() && StateOk(state, begun)
        invariant Extends(before, Now()) && StaysSafe(before, Now())
      {
        ghost var between := Now();
        match commands[n] {
          case Start(minutes, default, dryRun, now, stamp) =>
            var r := DoStart(minutes, default, dryRun, now, stamp);
          case Stop(dryRun) =>
            var r := DoStop(dryRun);
          case Tick(now) =>
            var r := DoTick(now);
        }
        Chain(before, between, Now());
      }
    }
  }

  lemma OffRow(before: seq<LogRow>, after: seq<LogRow>, value: u16)
    requires after == before + [LogRow(ENABLE_REG, Some(value as int), true)] && value % 2 == 0
    ensures SwitchedOff(before, after)
  {
  }

  lemma SwitchWritten(a: History, b: History, value: u16, enable: bool, fate: Fate)
    requires a.states != [] && a.ops <= b.ops && b.states != [] && b.states == a.states + [Last(b)]
    requires Last(b) == AfterWrite(fate, Last(a), ENABLE_REG, value)
    requires value == WithBit(Get(Last(a), ENABLE_REG), enable)
    ensures Extends(a, b) && Duration(Last(b)) == Duration(Last(a))
    ensures Safe(Last(a)) && (enable ==> Duration(Last(a)) >= 1) ==> AllSafe(b.states[|a.states|..]) && Safe(Last(b))
  {
    assert b.states[|a.states|..] == [Last(b)];
    hide WithBit;
  }

  /** A transaction that does not write the duration. */
  lemma NoDuration(before: seq<Op>, between: seq<Op>, after: seq<Op>)
    requires before <= between && |after| == |between| + 1 && after[..|between|] == between
    requires Covered(between[|before|..]) && Switching(between[|before|..])
    requires var op := after[|between|]; op.register == ENABLE_REG && (op.WriteOp? <==> |between| == |before| + 1)
    ensures Covered(after[|before|..]) && Switching(after[|before|..])
  {
    var new_ := after[|before|..];
    assert forall i | 0 <= i < |between| - |before| :: new_[i] == between[|before|..][i];
  }

  /** A read of the switch register, one write of it, and only reads of it after that. */
  predicate Switching(ops: seq<Op>) {
    forall i | 0 <= i < |ops| :: ops[i].register == 233 && (ops[i].WriteOp? <==> i == 1)
  }

  function Asked(minutes: Option<int>, default: Option<int>): int {
    if minutes.Some? then minutes.value else if default.Some? then default.value else 60
  }

  lemma AskedMeaning(minutes: Option<int>, default: Option<int>)
    ensures var asked := if minutes.Some? then minutes.value else if default.Some? then default.value else 60;
            Clamped(Asked(minutes, default)) == if asked < 1 then 1 else if asked > 1440 then 1440 else asked
  {
  }

  lemma SwitchIsOn(before: Regs, after: Regs)
    requires BitSet(after)
    ensures Get(after, 233) % 2 == 1 && Duration(before) == Get(before, 234)
  {
  }

  /** A start logs its steps: success rows for those that went through, then the failure that ended it. */
  predicate StartLogged(before: seq<LogRow>, after: seq<LogRow>, r: Result, minutes: int, enabled: u16) {
    var set_ := LogRow(DURATION_REG, Some(minutes), true);
    match r
    case Done => after == before + [set_] + [LogRow(ENABLE_REG, Some(enabled as int), true)]
    case DryRun => after == before + [set_]
    case Failed =>
      || after == before + [LogRow(DURATION_REG, Some(minutes), false)]
      || after == before + [set_] + [LogRow(ENABLE_REG, None, false)]
    case Raised => after == before || after == before + [set_]
  }

  /** A start that went through left two rows: the minutes, and the value of the switch register. */
  lemma StartDoneMeaning(before: seq<LogRow>, after: seq<LogRow>, minutes: int, enabled: u16)
    requires StartLogged(before, after, Done, minutes, enabled)
    ensures after == before + [LogRow(234, Some(minutes), true), LogRow(233, Some(enabled as int), true)]
  {
  }

  lemma StartRows(before: seq<LogRow>, m: int, enabled: u16)
    ensures var set_ := [LogRow(DURATION_REG, Some(m), true)];
      && StartLogged(before, before + set_ + [LogRow(ENABLE_REG, Some(enabled as int), true)], Done, m, enabled)
      && StartLogged(before, before + set_, DryRun, m, enabled)
      && StartLogged(before, before + set_ + [LogRow(ENABLE_REG, None, false)], Failed, m, enabled)
      && StartLogged(before, before + [LogRow(DURATION_REG, Some(m), false)], Failed, m, enabled)
      && StartLogged(before, before + set_, Raised, m, enabled) && StartLogged(before, before + [], Raised, m, enabled)
  {
  }

  /** A stop likewise; the switch comes first, cleared to some even value. */
  predicate StopLogged(before: seq<LogRow>, after: seq<LogRow>, r: Result) {
    match r
    case Done => SwitchedOffThen(before, after, LogRow(DURATION_REG, Some(0), true))
    case DryRun => after == before + [LogRow(ENABLE_REG, Some(0), true)]
    case Failed =>
      || after == before + [LogRow(ENABLE_REG, None, false)]
      || SwitchedOffThen(before, after, LogRow(DURATION_REG, Some(0), false))
    case Raised => after == before || SwitchedOff(before, after)
  }

  predicate SwitchedOffThen(before: seq<LogRow>, after: seq<LogRow>, row: LogRow) {
    after != [] && SwitchedOff(before, after[..|after| - 1]) && after[|after| - 1] == row
  }

  predicate SwitchedOff(before: seq<LogRow>, after: seq<LogRow>) {
    && before < after && |after| == |before| + 1
    && var row := after[|before|];
       row.register == ENABLE_REG && row.success && row.raw.Some? && row.raw.value % 2 == 0
  }

  /** The last transaction was a write of this duration, and the dongle accepted it. */
  predicate AcceptedDuration(ops: seq<Op>, minutes: u16) {
    && ops != []
    && var op := ops[|ops| - 1];
       op.WriteOp? && op.register == DURATION_REG && op.value == minutes && op.fate.answer.Yes?
  }

  // ---- exactly when a start is safe --------------------------------------------------------

  /** The register states of a change of the switch, from transaction `at` on; reads tell the truth. */
  function SwitchStates(script: nat -> Fate, at: nat, regs: Regs, enable: bool): seq<Regs> {
    if !script(at).answer.Yes? then []
    else
      var value := WithBit(Get(regs, ENABLE_REG), enable);
      [AfterWrite(script(at + 1), regs, ENABLE_REG, value)]
  }

  lemma SwitchUnfolded(script: nat -> Fate, at: nat, regs: Regs, enable: bool)
    ensures SwitchStates(script, at, regs, enable) ==
              if !script(at).answer.Yes? then []
              else [AfterWrite(script(at + 1), regs, ENABLE_REG, WithBit(Get(regs, ENABLE_REG), enable))]
  {
  }

  /** The register states of a start. */
  function StartStates(script: nat -> Fate, at: nat, regs: Regs, minutes: u16): seq<Regs> {
    var timed := AfterWrite(script(at), regs, DURATION_REG, minutes);
    [timed] + if script(at).answer.Yes? then SwitchStates(script, at + 1, timed, true) else []
  }

  /**
   A start went through these states.  If there was a duration already, quick charge was not on
   without one in any of them.
   */
  ghost predicate Started(a: History, b: History, script: nat -> Fate, at: nat, minutes: u16) {
    && a.states != [] && b.states == a.states + StartStates(script, at, Last(a), minutes)
    && (Duration(Last(a)) >= 1 ==> AllSafe(b.states[|a.states|..]) && Safe(Last(b)))
  }

  lemma StartEnded(a: History, b: History, script: nat -> Fate, at: nat, minutes: u16)
    requires a.states != [] && minutes >= 1
    requires b.states == a.states + [AfterWrite(script(at), Last(a), DURATION_REG, minutes)]
    requires !script(at).answer.Yes?
    ensures Started(a, b, script, at, minutes)
  {
    StartIsSafe(script, at, a.states, minutes);
    assert b.states == a.states + StartStates(script, at, Last(a), minutes);
  }

  lemma StartWentOn(a: History, b: History, c: History, script: nat -> Fate, at: nat, minutes: u16)
    requires a.states != [] && minutes >= 1
    requires b.states == a.states + [AfterWrite(script(at), Last(a), DURATION_REG, minutes)]
    requires script(at).answer.Yes? && c.states == b.states + SwitchStates(script, at + 1, Last(b), true)
    ensures Started(a, c, script, at, minutes)
  {
    hide AfterWrite, SwitchStates;
    StartIsSafe(script, at, a.states, minutes);
    assert c.states == a.states + StartStates(script, at, Last(a), minutes);
  }

  lemma DurationStays(regs: Regs, fate: Fate, minutes: u16, value: u16)
    requires minutes >= 1 && Duration(regs) >= 1
    ensures var timed := AfterWrite(fate, regs, DURATION_REG, minutes);
            Safe(timed) && Safe(timed[ENABLE_REG as int := value])
  {
  }

  /** With a duration in the register a start is safe, whatever the dongle does. */
  lemma StartIsSafe(script: nat -> Fate, at: nat, before: seq<Regs>, minutes: u16)
    requires before != [] && minutes >= 1
    ensures var regs := before[|before| - 1];
            var states := before + StartStates(script, at, regs, minutes);
            Duration(regs) >= 1 ==> AllSafe(states[|before|..]) && Safe(states[|states| - 1])
  {
    var regs := before[|before| - 1];
    hide WithBit, AfterWrite, Safe;
    if Duration(regs) >= 1 {
      DurationStays(regs, script(at), minutes, 0);
      var timed := AfterWrite(script(at), regs, DURATION_REG, minutes);
      DurationStays(regs, script(at), minutes, WithBit(Get(timed, ENABLE_REG), true));
      var states := before + StartStates(script, at, regs, minutes);
      assert states[|before|..] == StartStates(script, at, regs, minutes);
    }
  }

  /** Echoes the first transaction without forwarding it, and is honest from then on. */
  function EchoOnly(n: nat): Fate { Fate(n > 0, Yes, true, 0) }

  /** That dongle brings every start into an unsafe state unless there was a duration before. */
  lemma FalseEchoUnsafe(regs: Regs, minutes: u16)
    requires Duration(regs) == 0
    ensures TruthfulReads(EchoOnly) && !AllSafe(StartStates(EchoOnly, 0, regs, minutes))
  {
    var states := StartStates(EchoOnly, 0, regs, minutes);
    var value := WithBit(Get(regs, ENABLE_REG), true);
    assert states == [regs] + [regs[ENABLE_REG as int := value]];
    assert !Safe(states[1]);
  }

  /**
   A start is safe against every dongle whose reads tell the truth exactly when the duration
   register is not zero before it.
   */
  lemma StartSafeIff(regs: Regs, minutes: u16)
    requires minutes >= 1
    ensures (forall script: nat -> Fate, at: nat | TruthfulReads(script) ::
               AllSafe(StartStates(script, at, regs, minutes)))
            <==> Duration(regs) >= 1
  {
    hide AllSafe, StartStates, TruthfulReads;
    if Duration(regs) >= 1 {
      forall script: nat -> Fate, at: nat | TruthfulReads(script)
        ensures AllSafe(StartStates(script, at, regs, minutes))
      {
        StartIsSafe(script, at, [regs], minutes);
        assert ([regs] + StartStates(script, at, regs, minutes))[1..] == StartStates(script, at, regs, minutes);
      }
    } else {
      FalseEchoUnsafe(regs, minutes);
    }
  }

  /**
   The failing half at work: the manager reports a running charge, and it is on without a
   duration exactly if there was none before.
   */
  method StartWithFalseEcho(regs: Regs, minutes: int, now: real) returns (manager: QuickChargeManager)
    ensures fresh(manager) && fresh(manager.dongle) && manager.dongle.Valid() && TruthfulReads(manager.dongle.script)
    ensures manager.state.active && BitSet(manager.dongle.regs)
    ensures Duration(manager.dongle.regs) == Duration(regs)
    ensures Safe(manager.dongle.regs) <==> Duration(regs) >= 1
  {
    var dongle := new Dongle(EchoOnly, regs);
    manager := new QuickChargeManager(dongle);
    var r := manager.DoStart(Some(minutes), None, false, now, now);
  }

  function Clamped(minutes: int): (m: int)
    ensures MIN_MINUTES <= m <= MAX_MINUTES
    ensures MIN_MINUTES <= minutes <= MAX_MINUTES ==> m == minutes
  {
    var upper := if minutes < MAX_MINUTES then minutes else MAX_MINUTES;
    if upper > MIN_MINUTES then upper else MIN_MINUTES
  }

  lemma Unmoved(h: History)
    requires h.states != []
    ensures Extends(h, h) && StaysSafe(h, h) && Covered(h.ops[|h.ops|..]) && AllSafe(h.states[|h.states|..])
    ensures Switching(h.ops[|h.ops|..])
  {
  }

  /** Switching on is safe once the inverter has a duration. */
  lemma StartSafe(a: History, b: History, c: History, minutes: u16, fate: Fate)
    requires Extends(a, b) && StaysSafe(a, b) && Extends(b, c) && minutes >= 1
    requires b.ops == a.ops + [WriteOp(DURATION_REG, minutes, Duration(Last(a)), fate)] && fate.answer.Yes?
    requires Duration(Last(b)) == if fate.forwarded then minutes else Duration(Last(a))
    requires b.states == a.states + [Last(b)]
    requires Safe(Last(b)) && Duration(Last(b)) >= 1 ==> AllSafe(c.states[|b.states|..])
    ensures Extends(a, c) && StaysSafe(a, c)
  {
    Chain(a, b, c);
    if Covered(c.ops[|a.ops|..]) && Safe(Last(a)) {
      CoveredSplit(a.ops, b.ops, c.ops);
      assert b.ops[|a.ops|..][0] == b.ops[|a.ops|];
      assert Last(b) == b.states[|a.states|..][0];
    }
  }

  /** Clearing the duration of a charge that is off is safe. */
  lemma ClearSafe(a: History, b: History, c: History)
    requires Extends(a, b) && c.states != [] && c.states == b.states + [Last(c)] && !BitSet(Last(c))
    requires Safe(Last(a)) ==> AllSafe(b.states[|a.states|..])
    ensures Safe(Last(a)) ==> AllSafe(c.states[|a.states|..])
  {
    assert c.states[|a.states|..] == b.states[|a.states|..] + [Last(c)];
  }
}
