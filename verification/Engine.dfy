/** The automation engine: verified register writes, evaluation of rules, whole ticks and runs of them. */
module Engine {
  import opened Wrappers
  import opened Bytes
  import opened HoldingRegisters
  import opened Dongles
  import opened Settings
  import opened Rules
  import opened Throttle
  import opened Ticks
  import Schedule

  class AutomationEngine {
    const dongle: Dongle
    const supported: set<u16>
    const notifiers: bool
    var lastEval: map<string, bool>
    var lastNotify: map<string, real>
    var log: seq<LogRow>

    /** For every rule its evaluations so far, and every notification with its time. */
    ghost var past: map<string, seq<Evaluation>>
    ghost var notified: seq<(string, real)>

    constructor (dongle: Dongle, supported: set<u16>, notifiers: bool)
      requires dongle.Valid()
      ensures Valid() && this.dongle == dongle && this.supported == supported && this.notifiers == notifiers
      ensures lastEval == map[] && past == map[] && log == [] && notified == []
    {
      this.dongle, this.supported, this.notifiers := dongle, supported, notifiers;
      lastEval, lastNotify, log := map[], map[], [];
      past, notified := map[], [];
    }

    function WasActive(id: string): bool
      reads this
    {
      Was(lastEval, id)
    }

    ghost function Past(id: string): seq<Evaluation>
      reads this
    {
      PastOf(past, id)
    }

    ghost function Now(): Memory
      reads this
    {
      Memory(lastEval, lastNotify, notified, past)
    }

    /** What the engine remembers is what its histories say. */
    ghost predicate Valid()
      reads this, dongle
    {
      dongle.Valid() && MemoryOk(Now())
    }

    /** One write: nothing is sent without a register or in a dry run; otherwise it is verified. */
    method DoWrite(id: string, setting: Setting, value: real, dryRun: bool) returns (end: WriteEnd)
      requires dongle.Valid()
      modifies this`log, dongle
      ensures dongle.Valid() && old(dongle.ops) <= dongle.ops && old(dongle.states) <= dongle.states && old(log) <= log
      ensures WriteDone(id, Target(setting, value, supported), dryRun, dongle.script, old(dongle.regs),
                        end, dongle.ops[|old(dongle.ops)|..], log[|old(log)|..], dongle.regs)
    {
      hide MetaOf, ToRaw, Attempted;
      var goal := Target(setting, value, supported);
      if goal.None? {
        log := log + [LogRow(id, None, dryRun, false, None)];
        return Rejected;
      }
      if dryRun {
        log := log + [LogRow(id, Some(goal.value.raw), true, true, None)];
        return Quiet;
      }
      end := WriteVerified(id, goal.value.register, goal.value.raw);
    }

    /** Read, compare, write, read back up to four times. */
    method WriteVerified(id: string, register: u16, raw: int) returns (end: WriteEnd)
      requires dongle.Valid()
      modifies this`log, dongle
      ensures dongle.Valid() && old(dongle.ops) <= dongle.ops && old(dongle.states) <= dongle.states && old(log) <= log
      ensures Attempted(id, Goal(register, raw), dongle.script, old(dongle.regs),
                        end, dongle.ops[|old(dongle.ops)|..], log[|old(log)|..], dongle.regs)
    {
      hide Attempted, Unconfirmed, Tells, OnlyFor, Honest, ReadAnswer, AfterWrite, Get, Reached;
      assert log[|old(log)|..] == [];
      ghost var goal, regs, clock := Goal(register, raw), dongle.regs, dongle.clock;
      var current := dongle.Read(register);
      ghost var done := [ReadOp(register, dongle.script(clock), current)];
      ReadEnds(id, goal, dongle.script, clock, regs, done);
      if current.ReadRaised? {
        return WriteEnd.Raised;
      }
      if current.ReadBack? && current.value as int == raw {
        return Quiet;
      }
      var w := dongle.Write(register, raw);
      if 0 <= raw <= 0xFFFF {
        done := done + [WriteOp(register, raw, Get(regs, register), dongle.script(clock + 1))];
        assert dongle.ops == old(dongle.ops) + done;
        WriteEnds(id, goal, dongle.script, clock, regs, done);
      }
      if w.WriteRaised? {
        return WriteEnd.Raised;
      }
      if w.NotWritten? {
        log := log + [LogRow(id, Some(raw), false, false, None)];
        return WriteEnd.Failed;
      }
      ghost var written := dongle.regs;
      for i := 0 to 4
        invariant dongle.Valid() && dongle.regs == written && log == old(log)
        invariant old(dongle.states) <= dongle.states
        invariant dongle.ops == old(dongle.ops) + done && |done| == 2 + i
        invariant OnlyFor(done, goal) && Unconfirmed(done, goal)
        invariant i == 4 ==> Attempted(id, goal, dongle.script, regs, Failed, done,
                                       [LogRow(id, Some(raw), false, false, None)], written)
      {
        var back := dongle.Read(register);
        ghost var op := ReadOp(register, dongle.script(dongle.clock - 1), back);
        LoopEnds(id, goal, dongle.script, clock + 1, dongle.clock - 1, regs, done, op);
        done := done + [op];
        assert dongle.ops == old(dongle.ops) + done;
        if back.ReadRaised? {
          return WriteEnd.Raised;
        }
        if back.ReadBack? && back.value as int == raw {
          log := log + [LogRow(id, Some(raw), false, true, None)];
          return Verified;
        }
      }
      log := log + [LogRow(id, Some(raw), false, false, None)];
      return WriteEnd.Failed;
    }

    /** _send_notification: at most one per rule and 300 seconds. */
    method SendNotification(id: string, now: real)
      modifies this`lastNotify, this`log, this`notified
      ensures var sent := Notices(notifiers, old(lastNotify), id, now);
        && notified == old(notified) + sent
        && lastNotify == (if sent == [] then old(lastNotify) else old(lastNotify)[id := now])
        && log == old(log) + (if sent == [] then [] else [LogRow(id, None, false, true, None)])
      ensures notified == old(notified)
                + if notifiers && now - (if id in old(lastNotify) then old(lastNotify)[id] else 0.0) >= 300.0 then
                    [(id, now)]
                  else []
    {
      if !notifiers {
        return;
      }
      var last := LastSent(lastNotify, id);
      if now - last < MIN_INTERVAL {
        return;
      }
      lastNotify := lastNotify[id := now];
      notified := notified + [(id, now)];
      log := log + [LogRow(id, None, false, true, None)];
    }

    /** What an evaluation does to the outside: the write it decided on, a notification, a log row. */
    method Act(a: Automation, c: Context, decision: Decision) returns (raised: bool, ghost e: Effect)
      requires dongle.Valid() && !Unreadable(a, c.env)
      requires c.supported == supported && decision == Decide(a, WasActive(a.id), c.env)
      modifies this`lastNotify, this`log, this`notified, dongle
      ensures dongle.Valid() && e.raised == raised
      ensures dongle.ops == old(dongle.ops) + e.ops && log == old(log) + e.rows && dongle.regs == e.after
      ensures var sent := NoticesOf(a, WasActive(a.id), c, notifiers, old(lastNotify));
        && Acted(a, WasActive(a.id), c, sent, dongle.script, old(dongle.regs), e)
        && notified == old(notified) + sent
        && lastNotify == if sent == [] then old(lastNotify) else old(lastNotify)[a.id := c.now]
    {
      hide Target, Selected, AllMatch, RangeValue, Unreadable, Schedule.IsSource, WriteDone;
      raised := false;
      e := Told([], dongle.regs);
      match a.kind {
        case Notify =>
          if decision.notify {
            SendNotification(a.id, c.now);
            e := Told(log[|old(log)|..], dongle.regs);
          }
        case BatterySoc =>
          if "soc" in c.env.sensors {
            var source := Schedule.ActiveSource(a.points, c.env.minutes);
            log := log + [LogRow(a.id, None, c.dryRun, true, Some(source))];
            e := Told([LogRow(a.id, None, c.dryRun, true, Some(source))], dongle.regs);
          }
        case _ =>
          if decision.write.Some? {
            var end := DoWrite(a.id, decision.write.value.setting, decision.write.value.value, c.dryRun);
            raised := end.Raised?;
            e := Effect(decision.write, raised, dongle.ops[|old(dongle.ops)|..], log[|old(log)|..], dongle.regs);
            assert WriteDone(a.id, GoalOfWrite(e.write, c.supported), c.dryRun, dongle.script, old(dongle.regs),
                             end, e.ops, e.rows, e.after);
          }
      }
    }

    /** One evaluation.  If a reading or the write raises, the rule's activity stays as it was. */
    method EvaluateOne(a: Automation, c: Context) returns (raised: bool, ghost e: Effect)
      requires Valid() && c.supported == supported
      modifies this`lastEval, this`lastNotify, this`log, this`past, this`notified, dongle
      ensures Valid() && e.raised == raised
      ensures dongle.ops == old(dongle.ops) + e.ops && log == old(log) + e.rows && dongle.regs == e.after
      ensures var was := old(WasActive(a.id));
              Acted(a, was, c, NoticesOf(a, was, c, notifiers, old(lastNotify)), dongle.script, old(dongle.regs), e)
      ensures Now() == Remember(old(Now()), a, c, e, notifiers)
      // A readable rule table writes the value of its first matching range.
      ensures a.kind.RuleTable? && a.setting.Some? && !Unreadable(a, c.env) ==>
                forall g, r | FirstMatch(a.groups, c.env, g, r) && a.groups[g].ranges[r].actionValue.Some? ::
                  e.write == Some(Action(a.setting.value, a.groups[g].ranges[r].actionValue.value))
      // Battery protection with a reading writes its action value exactly at or below the threshold.
      ensures a.kind.BatteryProtection? && !Unreadable(a, c.env) && "soc" in c.env.sensors && a.threshold.Some? ==>
                (e.write.Some? && e.write.value.Action? <==>
                 c.env.sensors["soc"] <= a.threshold.value && a.actionValue.Some?)
    {
      WriteOfFirstMatch(a, WasActive(a.id), c.env);
      DecidesActivity(a, WasActive(a.id), c.env);
      hide Decide, ActiveNow, Acted, MemoryOk, Unreadable, Moved, Refused, GoalOf, Honest, FirstMatch;
      ghost var memory, was, regs, sent := Now(), WasActive(a.id), dongle.regs,
        NoticesOf(a, WasActive(a.id), c, notifiers, lastNotify);
      if Unreadable(a, c.env) {
        raised, e := true, Broken(regs);
        ReadingRaised(a, was, c, sent, dongle.script, regs);
      } else {
        var decision := Decide(a, WasActive(a.id), c.env);
        raised, e := Act(a, c, decision);
        if !raised && decision.active.Some? {
          lastEval := lastEval[a.id := decision.active.value];
        }
      }
      ActedMoves(a, was, c, sent, dongle.script, regs, e);
      past := past[a.id := Past(a.id) + [Evaluation(a, c.env, e.write, raised)]];
      RememberOk(memory, a, c, e, notifiers);
      assert Now() == Remember(memory, a, c, e, notifiers);
    }

    /** One tick over all rules; what an evaluation raises is logged and the next rule follows. */
    method Tick(autos: seq<Automation>, c: Context) returns (ghost effects: seq<Effect>)
      requires Valid() && c.supported == supported
      modifies this`lastEval, this`lastNotify, this`log, this`past, this`notified, dongle
      ensures Valid() && TickActed(old(Now()), autos, c, effects, notifiers, dongle.script, old(dongle.regs))
      ensures dongle.ops == old(dongle.ops) + OpsOf(effects) && log == old(log) + RowsOf(effects)
      ensures dongle.regs == RegsAfter(old(dongle.regs), effects)
      ensures Now() == RememberAll(old(Now()), autos, c, effects, notifiers)
      ensures forall id :: Past(id) == old(Past(id)) + EvaluationsIn(autos, c, effects, id)
      ensures old(notified) <= notified
      ensures OnPlan(PlanAll(autos, old(lastEval), c), c, Honest(dongle.script), lastEval, OpsOf(effects),
                     old(dongle.regs), dongle.regs)
    {
      hide AutomationEngine.Valid, Acted, Remember, NoticesOf, Eligible, Honest, OnPlan, PlanAll, TickActed,
        RememberAll, EvaluationsIn;
      effects := [];
      ghost var first, regs := Now(), dongle.regs;
      assert autos[..0] == [];
      NothingTicked(first, c, notifiers, dongle.script, regs);
      for n := 0 to |autos|
        invariant Valid() && TickActed(first, autos[..n], c, effects, notifiers, dongle.script, regs)
        invariant |effects| == n && Now() == RememberAll(first, autos[..n], c, effects, notifiers)
        invariant dongle.ops == old(dongle.ops) + OpsOf(effects) && log == old(log) + RowsOf(effects)
        invariant dongle.regs == RegsAfter(regs, effects)
      {
        var a := autos[n];
        assert autos[..n + 1] == autos[..n] + [a];
        ghost var e := Told([], dongle.regs);
        ghost var before := Now();
        if Eligible(a, c) {
          var raised;
          raised, e := EvaluateOne(a, c);
        }
        TickActedNext(first, autos[..n], a, c, effects, e, notifiers, dongle.script, regs);
        effects := effects + [e];
      }
      assert autos[..|autos|] == autos;
      HonestTick(first, autos, c, effects, notifiers, dongle.script, regs);
      TickHistory(first, autos, c, effects, notifiers, "");
      forall id
        ensures Past(id) == old(Past(id)) + EvaluationsIn(autos, c, effects, id)
      {
        TickHistory(first, autos, c, effects, notifiers, id);
      }
    }

    /**
     Any run of ticks over any dongle, the rules and circumstances changing between them.  The
     history of each rule is extended by its evaluations; restores are issued exactly when due and
     have the rule on between them; notifications of one rule stay 300 seconds apart.
     */
    method Run(rounds: seq<Round>) returns (ghost effects: seq<seq<Effect>>)
      requires Valid() && forall n | 0 <= n < |rounds| :: rounds[n].c.supported == supported
      modifies this`lastEval, this`lastNotify, this`log, this`past, this`notified, dongle
      ensures Valid() && Fit(rounds, effects) && Now() == RememberRun(old(Now()), rounds, effects, notifiers)
      ensures RunActed(old(Now()), rounds, effects, notifiers, dongle.script, old(dongle.regs))
      ensures forall id :: Past(id) == old(Past(id)) + EvaluationsOver(rounds, effects, id)
      ensures forall id :: RestoresRight(Past(id)) && WasActive(id) == ActiveAfter(Past(id))
      ensures old(notified) <= notified
      ensures forall i, j | 0 <= i < j < |notified| && notified[i].0 == notified[j].0 ::
                notified[j].1 - notified[i].1 >= 300.0
    {
      effects := [];
      ghost var first, regs := Now(), dongle.regs;
      for n := 0 to |rounds|
        invariant Valid() && |effects| == n && Fit(rounds[..n], effects)
        invariant Now() == RememberRun(first, rounds[..n], effects, notifiers)
        invariant RunActed(first, rounds[..n], effects, notifiers, dongle.script, regs)
        invariant dongle.regs == RegsAfterRun(regs, effects)
      {
        hide AutomationEngine.Valid, TickActed, RememberAll, EvaluationsIn, OnPlan, PlanAll, OpsOf, RowsOf, Honest;
        assert rounds[..n + 1] == rounds[..n] + [rounds[n]];
        ghost var done := Tick(rounds[n].autos, rounds[n].c);
        RunActedNext(first, rounds[..n], rounds[n], effects, done, notifiers, dongle.script, regs);
        effects := effects + [done];
      }
      assert rounds[..|rounds|] == rounds;
      RunConcludes(first, rounds, effects, notifiers);
    }
  }

  /** How a verified write may end with its first read, the n-th transaction of the script. */
  lemma ReadEnds(id: string, g: Goal, script: nat -> Fate, n: nat, before: Regs, ops: seq<Op>)
    requires ops == [ReadOp(g.register, script(n), ReadAnswer(script(n), Get(before, g.register)))]
    ensures Tells(ops[0], g) ==> Attempted(id, g, script, before, Quiet, ops, [], before)
    ensures ops[0].result.ReadRaised? || (!Tells(ops[0], g) && !FitsWord(g.raw)) ==>
              Attempted(id, g, script, before, WriteEnd.Raised, ops, [], before)
    ensures Tells(ops[0], g) <==> ops[0].result.ReadBack? && ops[0].result.value as int == g.raw
    ensures Honest(script) && !Tells(ops[0], g) ==> !Reached(before, g)
  {
    assert Honest(script) ==> IsHonest(script(n));
  }

  /** How it may end with its write. */
  lemma WriteEnds(id: string, g: Goal, script: nat -> Fate, n: nat, before: Regs, ops: seq<Op>)
    requires FitsWord(g.raw) && |ops| == 2
    requires ops[0] == ReadOp(g.register, script(n), ReadAnswer(script(n), Get(before, g.register)))
    requires !Tells(ops[0], g) && !ops[0].result.ReadRaised?
    requires ops[1] == WriteOp(g.register, g.raw, Get(before, g.register), script(n + 1))
    ensures var after := AfterWrite(script(n + 1), before, g.register, g.raw);
      && (ops[1].fate.answer.No? ==>
            Attempted(id, g, script, before, Failed, ops, [LogRow(id, Some(g.raw), false, false, None)], after))
      && (ops[1].fate.answer.Raises? ==> Attempted(id, g, script, before, WriteEnd.Raised, ops, [], after))
      && (ops[1].fate.answer.Yes? ==> OnlyFor(ops, g) && Unconfirmed(ops, g))
  {
    assert Honest(script) ==> IsHonest(script(n)) && IsHonest(script(n + 1));
  }

  /** How it may end with one of the reads behind the write, which was the n-th transaction. */
  lemma LoopEnds(id: string, g: Goal, script: nat -> Fate, n: nat, k: nat, before: Regs, ops: seq<Op>, op: Op)
    requires Honest(script) ==> !Reached(before, g)
    requires FitsWord(g.raw) && |ops| <= 5 && OnlyFor(ops, g) && Unconfirmed(ops, g)
    requires var after := AfterWrite(script(n), before, g.register, g.raw);
             op == ReadOp(g.register, script(k), ReadAnswer(script(k), Get(after, g.register)))
    ensures var after, all := AfterWrite(script(n), before, g.register, g.raw), ops + [op];
      && OnlyFor(all, g) && (!Tells(op, g) ==> Unconfirmed(all, g))
      && (op.result.ReadRaised? ==> Attempted(id, g, script, before, WriteEnd.Raised, all, [], after))
      && (Tells(op, g) ==>
            Attempted(id, g, script, before, Verified, all, [LogRow(id, Some(g.raw), false, true, None)], after))
      && (!Tells(op, g) && |all| == 6 ==>
            Attempted(id, g, script, before, Failed, all, [LogRow(id, Some(g.raw), false, false, None)], after))
      && (Tells(op, g) <==> op.result.ReadBack? && op.result.value as int == g.raw)
  {
    assert Honest(script) ==> IsHonest(script(n)) && IsHonest(script(k));
    assert (ops + [op])[..|ops|] == ops;
  }

  lemma DecidesActivity(a: Automation, was: bool, env: Env)
    ensures Decide(a, was, env).active == ActiveNow(a, env)
    ensures Unreadable(a, env) ==> ActiveNow(a, env).None? && !Decide(a, was, env).notify
  {
    hide Selected, AllMatch, RangeValue;
  }

  lemma WriteOfFirstMatch(a: Automation, was: bool, env: Env)
    ensures a.kind.RuleTable? && a.setting.Some? && !Unreadable(a, env) ==>
              forall g, r | FirstMatch(a.groups, env, g, r) && a.groups[g].ranges[r].actionValue.Some? ::
                Decide(a, was, env).write == Some(Action(a.setting.value, a.groups[g].ranges[r].actionValue.value))
    ensures a.kind.BatteryProtection? && !Unreadable(a, env) && "soc" in env.sensors && a.threshold.Some? ==>
              (Decide(a, was, env).write.Some? && Decide(a, was, env).write.value.Action? <==>
               env.sensors["soc"] <= a.threshold.value && a.actionValue.Some?)
  {
    if a.kind.RuleTable? && a.setting.Some? && !Unreadable(a, env) {
      RuleTableMeaning(a, was, env);
    } else if a.kind.BatteryProtection? && !Unreadable(a, env) {
      BatteryProtectionMeaning(a, was, env);
    }
    hide Decide, Unreadable, Test;
  }

  lemma ReadingRaised(a: Automation, was: bool, c: Context, sent: seq<(string, real)>, script: nat -> Fate,
                      before: Regs)
    requires Unreadable(a, c.env)
    ensures Acted(a, was, c, sent, script, before, Broken(before))
  {
  }

  lemma NothingTicked(m: Memory, c: Context, notifiers: bool, script: nat -> Fate, regs: Regs)
    ensures TickActed(m, [], c, [], notifiers, script, regs) && RememberAll(m, [], c, [], notifiers) == m
  {
  }

  /** Two ticks in a row over an honest dongle with the same readings and clock. */
  method TickTwice(engine: AutomationEngine, autos: seq<Automation>, c: Context) returns (ghost between: nat)
    requires engine.Valid() && c.supported == engine.supported && !c.dryRun && Honest(engine.dongle.script)
    requires DistinctIds(autos) && DistinctRegisters(PlanAll(autos, engine.lastEval, c).goals)
    modifies engine, engine.dongle
    ensures engine.dongle.regs == AssignAll(old(engine.dongle.regs), PlanAll(autos, old(engine.lastEval), c).goals)
    ensures |old(engine.dongle.ops)| <= between <= |engine.dongle.ops| && NoWrites(engine.dongle.ops[between..])
  {
    hide TickActed, RememberAll, EvaluationsIn, PlanAll, DistinctIds, DistinctRegisters, Honest, AssignAll;
    ghost var eval, regs := engine.lastEval, engine.dongle.regs;
    ghost var first := engine.Tick(autos, c);
    between := |engine.dongle.ops|;
    SecondTickSettled(autos, eval, c, regs);
    ghost var second := engine.Tick(autos, c);
    assert engine.dongle.ops[between..] == OpsOf(second);
  }
}
