/**
 What ticks of the automation engine do and remember, without the engine: the goals of an honest
 tick, the effect that each evaluation may have over any dongle, and the memory after any run.
 */
module Ticks {
  import opened Wrappers
  import opened Bytes
  import opened Dongles
  import opened HoldingRegisters
  import opened Settings
  import opened Rules
  import opened Throttle
  import Schedule

  /** `note` is the source that a battery schedule decided on; other messages are not modelled. */
  datatype LogRow = LogRow(id: string, raw: Option<int>, dryRun: bool, success: bool, note: Option<string>)

  /** What a write of a goal does to the registers when it is done. */
  function Assigned(regs: Regs, g: Goal): Regs {
    if FitsWord(g.raw) && Get(regs, g.register) as int != g.raw then regs[g.register as int := g.raw] else regs
  }

  function AssignAll(regs: Regs, goals: seq<Goal>): Regs {
    if goals == [] then regs else Assigned(AssignAll(regs, goals[..|goals| - 1]), goals[|goals| - 1])
  }

  predicate Reached(regs: Regs, g: Goal) { Get(regs, g.register) as int == g.raw }

  predicate NoWrites(ops: seq<Op>) { forall i | 0 <= i < |ops| :: !ops[i].WriteOp? }

  /** Nothing is left to do for these goals. */
  predicate Settled(regs: Regs, goals: seq<Goal>) {
    forall i | 0 <= i < |goals| :: Reached(regs, goals[i]) || !FitsWord(goals[i].raw)
  }

  /** The last transaction read exactly this value back. */
  predicate Confirmed(ops: seq<Op>, g: Goal) {
    && ops != []
    && var op := ops[|ops| - 1];
       op.ReadOp? && op.register == g.register && op.result.ReadBack? && op.result.value as int == g.raw
  }

  /** A read that returned the target. */
  predicate Tells(op: Op, g: Goal) {
    op.ReadOp? && op.register == g.register && op.result.ReadBack? && op.result.value as int == g.raw
  }

  // ---- the plan of a tick ------------------------------------------------------------------

  datatype Context = Context(env: Env, supported: set<u16>, enabled: bool, dryRun: bool, now: real)

  predicate Eligible(a: Automation, c: Context) {
    c.enabled && a.enabled && !(a.disabledUntil != 0.0 && c.now < a.disabledUntil)
  }

  function Was(eval: map<string, bool>, id: string): bool { id in eval && eval[id] }

  function GoalOfWrite(w: Option<Write>, supported: set<u16>): Option<Goal> {
    if w.None? then None else Target(w.value.setting, w.value.value, supported)
  }

  /** The goal that an evaluation aims at, if it writes. */
  function GoalOf(a: Automation, was: bool, c: Context): Option<Goal> {
    GoalOfWrite(Decide(a, was, c.env).write, c.supported)
  }

  /** The request builder refuses the goal, so the evaluation raises. */
  predicate Refused(g: Option<Goal>, c: Context) { g.Some? && !c.dryRun && !FitsWord(g.value.raw) }

  /** The remembered activity after an evaluation. */
  function NextEval(a: Automation, eval: map<string, bool>, c: Context, raised: bool): map<string, bool> {
    var active := ActiveNow(a, c.env);
    if raised || active.None? then eval else eval[a.id := active.value]
  }

  datatype Plan = Plan(goals: seq<Goal>, eval: map<string, bool>)

  function PlanOne(p: Plan, a: Automation, c: Context): Plan {
    if !Eligible(a, c) then p
    else
      var g := GoalOf(a, Was(p.eval, a.id), c);
      Plan(p.goals + (if g.Some? then [g.value] else []), NextEval(a, p.eval, c, Refused(g, c)))
  }

  /** The goals of a tick over an honest dongle, in list order, and what is remembered after it. */
  function PlanAll(autos: seq<Automation>, eval: map<string, bool>, c: Context): Plan {
    if autos == [] then Plan([], eval)
    else PlanOne(PlanAll(autos[..|autos| - 1], eval, c), autos[|autos| - 1], c)
  }

  // ---- the effect of one evaluation --------------------------------------------------------

  /** How a write can end. */
  datatype WriteEnd = Quiet | Rejected | Failed | Verified | Raised

  /**
   The write that an evaluation issued, whether it raised, its transactions and log rows, and the
   registers after it.
   */
  datatype Effect = Effect(write: Option<Write>, raised: bool, ops: seq<Op>, rows: seq<LogRow>, after: Regs)

  function EndRows(id: string, g: Goal, end: WriteEnd): seq<LogRow> {
    match end
    case Failed => [LogRow(id, Some(g.raw), false, false, None)]
    case Verified => [LogRow(id, Some(g.raw), false, true, None)]
    case _ => []
  }

  /** Reads of the register of the goal, and writes of its value there. */
  predicate OnlyFor(ops: seq<Op>, g: Goal) {
    forall i | 0 <= i < |ops| :: ops[i].register == g.register && (ops[i].WriteOp? ==> ops[i].value as int == g.raw)
  }

  /** The register told something else, a write of the target was echoed, and no read confirmed it yet. */
  ghost predicate Unconfirmed(ops: seq<Op>, g: Goal) {
    && |ops| >= 2 && ops[0].ReadOp? && !Tells(ops[0], g) && ops[1].WriteOp? && ops[1].fate.answer.Yes?
    && forall i | 2 <= i < |ops| :: ops[i].ReadOp? && !Tells(ops[i], g)
  }

  /**
   The order of the transactions: a read, which ends it when it returns the target; one write; and
   once that is echoed, reads until one returns the target, at most four.  It fails only because
   the write was not echoed, or after four reads that did not return the target.
   */
  ghost predicate Exchanged(ops: seq<Op>, g: Goal, end: WriteEnd) {
    match end
    case Quiet => |ops| == 1 && Tells(ops[0], g)
    case Rejected => false
    case Failed =>
      || (|ops| == 6 && Unconfirmed(ops, g))
      || (|ops| == 2 && ops[0].ReadOp? && !Tells(ops[0], g) && ops[1].WriteOp? && ops[1].fate.answer.No?)
    case Verified =>
      3 <= |ops| <= 6 && Unconfirmed(ops[..|ops| - 1], g) && Tells(ops[|ops| - 1], g)
    case Raised =>
      || (|ops| == 1 && ops[0].ReadOp? && (ops[0].fate.answer.Raises? || !FitsWord(g.raw)))
      || (|ops| == 2 && ops[0].ReadOp? && !Tells(ops[0], g) && ops[1].WriteOp? && ops[1].fate.answer.Raises?)
      || (3 <= |ops| <= 6 && Unconfirmed(ops, g) && ops[|ops| - 1].fate.answer.Raises?)
  }

  /**
   A write that was really attempted ends with a failure row in the log, with a read that returned
   exactly the target, or by raising.  The register is old or the target.  An honest dongle sets
   it, and nothing is written when it is there already.
   */
  ghost predicate Attempted(id: string, g: Goal, script: nat -> Fate, before: Regs,
                            end: WriteEnd, ops: seq<Op>, rows: seq<LogRow>, after: Regs)
  {
    && Exchanged(ops, g, end) && OnlyFor(ops, g) && rows == EndRows(id, g, end)
    && (end.Quiet? || end.Verified? ==> Confirmed(ops, g))
    && (after == before || (FitsWord(g.raw) && after == before[g.register as int := g.raw]))
    && (TruthfulReads(script) && (end.Quiet? || end.Verified?) ==> Reached(after, g))
    && (Honest(script) ==>
          && after == Assigned(before, g)
          && end == (if Reached(before, g) then Quiet else if FitsWord(g.raw) then Verified else WriteEnd.Raised)
          && (Reached(before, g) || end.Raised? ==> NoWrites(ops)))
  }

  /** A write of a setting: without a register it is refused, and a dry run sends nothing. */
  ghost predicate WriteDone(id: string, goal: Option<Goal>, dryRun: bool, script: nat -> Fate, before: Regs,
                            end: WriteEnd, ops: seq<Op>, rows: seq<LogRow>, after: Regs)
  {
    if goal.None? || dryRun then
      && ops == [] && after == before && end == (if goal.None? then Rejected else Quiet)
      && rows == [LogRow(id, if goal.None? then None else Some(goal.value.raw), dryRun, goal.Some?, None)]
    else Attempted(id, goal.value, script, before, end, ops, rows, after)
  }

  /** The notification that is sent now, if any. */
  function Notices(notifiers: bool, last: map<string, real>, id: string, now: real): seq<(string, real)> {
    if notifiers && now - LastSent(last, id) >= MIN_INTERVAL then [(id, now)] else []
  }

  function NoticesOf(a: Automation, was: bool, c: Context, notifiers: bool, last: map<string, real>)
    : seq<(string, real)>
  {
    if Decide(a, was, c.env).notify then Notices(notifiers, last, a.id, c.now) else []
  }

  /** A reading that raises ends the evaluation before it did anything. */
  function Broken(before: Regs): Effect { Effect(None, true, [], [], before) }

  function Told(rows: seq<LogRow>, before: Regs): Effect { Effect(None, false, [], rows, before) }

  /** The effect of one evaluation of a rule over any dongle. */
  ghost predicate Acted(a: Automation, was: bool, c: Context, notices: seq<(string, real)>, script: nat -> Fate,
                        before: Regs, e: Effect)
  {
    if Unreadable(a, c.env) then e == Broken(before)
    else
      match a.kind
      case Notify => e == Told(if notices == [] then [] else [LogRow(a.id, None, false, true, None)], before)
      case BatterySoc =>
        if "soc" in c.env.sensors then
          exists source :: Schedule.IsSource(a.points, c.env.minutes, source)
                           && e == Told([LogRow(a.id, None, c.dryRun, true, Some(source))], before)
        else e == Told([], before)
      case _ =>
        var w := Decide(a, was, c.env).write;
        if w.None? then e == Told([], before)
        else
          && e.write == w
          && exists end :: e.raised == (end == WriteEnd.Raised)
                           && WriteDone(a.id, GoalOfWrite(w, c.supported), c.dryRun, script, before,
                                        end, e.ops, e.rows, e.after)
  }

  /** What an evaluation with this goal does to the dongle, and whether it raises. */
  ghost predicate Moved(g: Option<Goal>, c: Context, script: nat -> Fate, before: Regs, e: Effect) {
    && (g.None? || c.dryRun ==> e.ops == [] && e.after == before)
    && (g.Some? ==>
          e.after == before || (FitsWord(g.value.raw) && e.after == before[g.value.register as int := g.value.raw]))
    && (g.Some? && !c.dryRun && Honest(script) ==>
          && e.after == Assigned(before, g.value)
          && (Reached(before, g.value) || e.raised ==> NoWrites(e.ops)))
  }

  lemma ActedMoves(a: Automation, was: bool, c: Context, notices: seq<(string, real)>, script: nat -> Fate,
                   before: Regs, e: Effect)
    requires Acted(a, was, c, notices, script, before, e)
    ensures e.write == Decide(a, was, c.env).write
    ensures Moved(GoalOf(a, was, c), c, script, before, e)
    ensures c.dryRun || Honest(script) ==>
              e.raised == (Unreadable(a, c.env) || Refused(GoalOf(a, was, c), c))
  {
    hide Target, Selected, AllMatch, Schedule.IsSource, RangeValue, Assigned, Reached;
  }

  /**
   A write over an honest dongle and for real raises only for a power factor below zero.  Otherwise
   the register of the setting holds the value, forced into its bounds, to within half a step; and
   no other register changes.
   */
  lemma WriteReaches(a: Automation, was: bool, c: Context, notices: seq<(string, real)>, script: nat -> Fate,
                     before: Regs, e: Effect)
    requires Acted(a, was, c, notices, script, before, e) && e.write.Some?
    requires Honest(script) && !c.dryRun
    requires MetaOf(e.write.value.setting).Some? && MetaOf(e.write.value.setting).value.register in c.supported
    ensures var m, value := MetaOf(e.write.value.setting).value, e.write.value.value;
            var clamped := if value < m.min then m.min else if value > m.max then m.max else value;
            && (e.raised <==> e.write.value.setting.PowerFactorCommand? && value < -0.5)
            && (!e.raised ==>
                  -m.scale / 2.0 <= Get(e.after, m.register) as real * m.scale - clamped <= m.scale / 2.0)
            && forall r: int | r != m.register :: Get(e.after, r) == Get(before, r)
  {
    hide *;
    var s, value := e.write.value.setting, e.write.value.value;
    var g := Target(s, value, c.supported).value;
    WriteEffect(a, was, c, notices, script, before, e);
    AssignedMeaning(before, g);
    TargetInRange(s, value, c.supported);
    TargetMeaning(s, value, c.supported);
    if !e.raised {
      assert Get(e.after, g.register) as real == g.raw as real;
    }
  }

  lemma WriteEffect(a: Automation, was: bool, c: Context, notices: seq<(string, real)>, script: nat -> Fate,
                    before: Regs, e: Effect)
    requires Acted(a, was, c, notices, script, before, e) && e.write.Some?
    requires Honest(script) && !c.dryRun
    ensures var goal := Target(e.write.value.setting, e.write.value.value, c.supported);
            goal.Some? ==> e.after == Assigned(before, goal.value) && (e.raised <==> !FitsWord(goal.value.raw))
  {
    ActedMoves(a, was, c, notices, script, before, e);
    WriteIsReadable(a, was, c.env);
    hide Acted, MetaOf, Target, Decide, Honest, Unreadable, FitsWord, Assigned;
    assert GoalOf(a, was, c) == Target(e.write.value.setting, e.write.value.value, c.supported);
  }

  /** Such a write is logged as a success when it changes the register, and not at all when it need not. */
  lemma ChangeLogged(a: Automation, was: bool, c: Context, notices: seq<(string, real)>, script: nat -> Fate,
                   before: Regs, e: Effect, g: Goal)
    requires Acted(a, was, c, notices, script, before, e) && e.write.Some? && !e.raised
    requires Honest(script) && !c.dryRun && GoalOf(a, was, c) == Some(g)
    ensures e.rows == if Get(before, g.register) as int == g.raw then []
                      else [LogRow(a.id, Some(g.raw), false, true, None)]
    ensures Get(e.after, g.register) as int == g.raw
  {
    hide Target, Decide, Honest, Unreadable, OnlyFor, Exchanged, Confirmed, NoWrites, Schedule.IsSource;
  }

  /**
   Without a register for the setting, or in a dry run, a write only leaves a row: a failure, or
   the raw value that would have been written.
   */
  lemma WriteNotSent(a: Automation, was: bool, c: Context, notices: seq<(string, real)>, script: nat -> Fate,
                     before: Regs, e: Effect)
    requires Acted(a, was, c, notices, script, before, e) && e.write.Some?
    ensures var s, value := e.write.value.setting, e.write.value.value;
            var known := MetaOf(s).Some? && MetaOf(s).value.register in c.supported;
      && (!known ==>
            && !e.raised && e.ops == [] && e.after == before
            && e.rows == [LogRow(a.id, None, c.dryRun, false, None)])
      && (known && c.dryRun ==>
            && !e.raised && e.ops == [] && e.after == before
            && e.rows == [LogRow(a.id, Some(Target(s, value, c.supported).value.raw), true, true, None)])
  {
    hide MetaOf, ToRaw, Decide, Honest, Unreadable, Attempted, Schedule.IsSource;
    ActedMoves(a, was, c, notices, script, before, e);
    assert GoalOf(a, was, c) == Target(e.write.value.setting, e.write.value.value, c.supported);
  }

  lemma AssignedMeaning(regs: Regs, g: Goal)
    ensures FitsWord(g.raw) <==> 0 <= g.raw <= 0xFFFF
    ensures FitsWord(g.raw) ==> Get(Assigned(regs, g), g.register) as int == g.raw
    ensures forall r: int | r != g.register :: Get(Assigned(regs, g), r) == Get(regs, r)
  {
  }

  lemma WriteIsReadable(a: Automation, was: bool, env: Env)
    requires Decide(a, was, env).write.Some?
    ensures !Unreadable(a, env)
  {
    hide Unreadable;
  }

  // ---- memory ------------------------------------------------------------------------------

  /** What the engine remembers, and the history: all notifications, and for every rule its evaluations. */
  datatype Memory = Memory(eval: map<string, bool>, lastNotify: map<string, real>,
                           notified: seq<(string, real)>, past: map<string, seq<Evaluation>>)

  function PastOf(past: map<string, seq<Evaluation>>, id: string): seq<Evaluation> {
    if id in past then past[id] else []
  }

  /** What is remembered is what the histories say, and every write in them was decided on. */
  ghost predicate Remembers(eval: map<string, bool>, past: map<string, seq<Evaluation>>) {
    forall id :: Was(eval, id) == ActiveAfter(PastOf(past, id)) && Decided(PastOf(past, id))
  }

  ghost predicate MemoryOk(m: Memory) {
    Remembers(m.eval, m.past) && Spaced(m.notified, m.lastNotify)
  }

  /** The memory after one evaluation with this effect. */
  function Remember(m: Memory, a: Automation, c: Context, e: Effect, notifiers: bool): Memory {
    var notices := NoticesOf(a, Was(m.eval, a.id), c, notifiers, m.lastNotify);
    Memory(NextEval(a, m.eval, c, e.raised),
           if notices == [] then m.lastNotify else m.lastNotify[a.id := c.now],
           m.notified + notices,
           m.past[a.id := PastOf(m.past, a.id) + [Evaluation(a, c.env, e.write, e.raised)]])
  }

  lemma NextActive(h: seq<Evaluation>, e: Evaluation)
    ensures ActiveAfter(h + [e]) ==
              if e.raised || ActiveNow(e.rule, e.env).None? then ActiveAfter(h) else ActiveNow(e.rule, e.env).value
  {
    hide ActiveNow;
    assert (h + [e])[..|h|] == h;
  }

  lemma DecidedNext(h: seq<Evaluation>, e: Evaluation)
    requires Decided(h) && e.write == Decide(e.rule, ActiveAfter(h), e.env).write
    ensures Decided(h + [e])
  {
    hide ActiveAfter, Decide;
    var all := h + [e];
    assert all[..|h|] == h;
    forall k | 0 <= k < |all|
      ensures all[k].write == Decide(all[k].rule, ActiveAfter(all[..k]), all[k].env).write
    {
      if k < |h| {
        assert all[..k] == h[..k];
      }
    }
  }

  lemma RemembersNext(eval: map<string, bool>, past: map<string, seq<Evaluation>>, a: Automation, c: Context,
                      write: Option<Write>, raised: bool)
    requires Remembers(eval, past) && write == Decide(a, Was(eval, a.id), c.env).write
    ensures Remembers(NextEval(a, eval, c, raised),
                      past[a.id := PastOf(past, a.id) + [Evaluation(a, c.env, write, raised)]])
  {
    hide ActiveNow, ActiveAfter, Decide, Decided;
    var e := Evaluation(a, c.env, write, raised);
    assert Was(eval, a.id) == ActiveAfter(PastOf(past, a.id));
    NextActive(PastOf(past, a.id), e);
    DecidedNext(PastOf(past, a.id), e);
    var next := past[a.id := PastOf(past, a.id) + [e]];
    forall id
      ensures Was(NextEval(a, eval, c, raised), id) == ActiveAfter(PastOf(next, id)) && Decided(PastOf(next, id))
    {
      assert Was(eval, id) == ActiveAfter(PastOf(past, id)) && Decided(PastOf(past, id));
    }
  }

  lemma SpacedNext(sent: seq<(string, real)>, last: map<string, real>, id: string, now: real)
    requires Spaced(sent, last) && now - LastSent(last, id) >= MIN_INTERVAL
    ensures Spaced(sent + [(id, now)], last[id := now])
  {
    var all := sent + [(id, now)];
    assert forall i | 0 <= i < |sent| :: all[i] == sent[i];
  }

  lemma RememberOk(m: Memory, a: Automation, c: Context, e: Effect, notifiers: bool)
    requires MemoryOk(m) && e.write == Decide(a, Was(m.eval, a.id), c.env).write
    ensures MemoryOk(Remember(m, a, c, e, notifiers))
  {
    RemembersNext(m.eval, m.past, a, c, e.write, e.raised);
    hide Remembers, Spaced, Decide;
    var notices := NoticesOf(a, Was(m.eval, a.id), c, notifiers, m.lastNotify);
    if notices == [] {
      assert m.notified + notices == m.notified;
    } else {
      SpacedNext(m.notified, m.lastNotify, a.id, c.now);
    }
  }

  // ---- a tick over any dongle --------------------------------------------------------------

  function OpsOf(effects: seq<Effect>): seq<Op> {
    if effects == [] then [] else OpsOf(effects[..|effects| - 1]) + effects[|effects| - 1].ops
  }

  function RowsOf(effects: seq<Effect>): seq<LogRow> {
    if effects == [] then [] else RowsOf(effects[..|effects| - 1]) + effects[|effects| - 1].rows
  }

  function RegsAfter(regs: Regs, effects: seq<Effect>): Regs {
    if effects == [] then regs else effects[|effects| - 1].after
  }

  /** One rule of a tick; a rule that is not eligible is passed over. */
  function RememberStep(m: Memory, a: Automation, c: Context, e: Effect, notifiers: bool): Memory {
    if Eligible(a, c) then Remember(m, a, c, e, notifiers) else m
  }

  /** The memory after a tick whose evaluations had these effects. */
  function RememberAll(m: Memory, autos: seq<Automation>, c: Context, effects: seq<Effect>, notifiers: bool): Memory
    requires |effects| == |autos|
  {
    if autos == [] then m
    else
      var n := |autos| - 1;
      RememberStep(RememberAll(m, autos[..n], c, effects[..n], notifiers), autos[n], c, effects[n], notifiers)
  }

  ghost predicate StepActed(m: Memory, a: Automation, c: Context, e: Effect, notifiers: bool, script: nat -> Fate,
                            before: Regs)
  {
    if Eligible(a, c) then
      var was := Was(m.eval, a.id);
      Acted(a, was, c, NoticesOf(a, was, c, notifiers, m.lastNotify), script, before, e)
    else e == Told([], before)
  }

  /** Each evaluation of a tick had an effect that it may have. */
  ghost predicate TickActed(m: Memory, autos: seq<Automation>, c: Context, effects: seq<Effect>, notifiers: bool,
                            script: nat -> Fate, regs: Regs)
  {
    && |effects| == |autos|
    && forall n | 0 <= n < |autos| ::
         StepActed(RememberAll(m, autos[..n], c, effects[..n], notifiers), autos[n], c, effects[n], notifiers, script,
                   RegsAfter(regs, effects[..n]))
  }

  lemma TickActedNext(m: Memory, autos: seq<Automation>, a: Automation, c: Context, effects: seq<Effect>, e: Effect,
                      notifiers: bool, script: nat -> Fate, regs: Regs)
    requires TickActed(m, autos, c, effects, notifiers, script, regs)
    requires StepActed(RememberAll(m, autos, c, effects, notifiers), a, c, e, notifiers, script,
                       RegsAfter(regs, effects))
    ensures TickActed(m, autos + [a], c, effects + [e], notifiers, script, regs)
    ensures RememberAll(m, autos + [a], c, effects + [e], notifiers)
            == RememberStep(RememberAll(m, autos, c, effects, notifiers), a, c, e, notifiers)
    ensures OpsOf(effects + [e]) == OpsOf(effects) + e.ops && RowsOf(effects + [e]) == RowsOf(effects) + e.rows
  {
    hide StepActed, RememberStep;
    var all, every := autos + [a], effects + [e];
    assert all[..|autos|] == autos && every[..|effects|] == effects;
    forall n | 0 <= n < |all|
      ensures StepActed(RememberAll(m, all[..n], c, every[..n], notifiers), all[n], c, every[n], notifiers, script,
                        RegsAfter(regs, every[..n]))
    {
      if n < |autos| {
        assert all[..n] == autos[..n] && every[..n] == effects[..n];
      }
    }
  }

  lemma PrefixOfPrefix<T>(s: seq<T>, n: nat, k: nat)
    requires n <= k <= |s|
    ensures s[..k][..n] == s[..n]
  {
  }

  lemma TickActedPrefix(m: Memory, autos: seq<Automation>, c: Context, effects: seq<Effect>, notifiers: bool,
                        script: nat -> Fate, regs: Regs)
    requires TickActed(m, autos, c, effects, notifiers, script, regs) && autos != []
    ensures TickActed(m, autos[..|autos| - 1], c, effects[..|autos| - 1], notifiers, script, regs)
  {
    hide StepActed, RememberAll, RegsAfter;
    var k := |autos| - 1;
    var fewer, less := autos[..k], effects[..k];
    forall n | 0 <= n < k
      ensures StepActed(RememberAll(m, fewer[..n], c, less[..n], notifiers), fewer[n], c, less[n], notifiers, script,
                        RegsAfter(regs, less[..n]))
    {
      PrefixOfPrefix(autos, n, k);
      PrefixOfPrefix(effects, n, k);
      assert StepActed(RememberAll(m, autos[..n], c, effects[..n], notifiers), autos[n], c, effects[n], notifiers,
                       script, RegsAfter(regs, effects[..n]));
    }
  }

  /** The evaluations of one rule id in a tick: one per eligible rule, in list order. */
  function EvaluationsIn(autos: seq<Automation>, c: Context, effects: seq<Effect>, id: string): seq<Evaluation>
    requires |effects| == |autos|
  {
    if autos == [] then []
    else
      var n := |autos| - 1;
      var a, e := autos[n], effects[n];
      EvaluationsIn(autos[..n], c, effects[..n], id)
      + if Eligible(a, c) && a.id == id then [Evaluation(a, c.env, e.write, e.raised)] else []
  }

  /** A tick extends the history of each rule by its evaluations, and takes no notification back. */
  lemma {:induction false} TickHistory(m: Memory, autos: seq<Automation>, c: Context, effects: seq<Effect>,
                                       notifiers: bool, id: string)
    requires |effects| == |autos|
    ensures var after := RememberAll(m, autos, c, effects, notifiers);
      && PastOf(after.past, id) == PastOf(m.past, id) + EvaluationsIn(autos, c, effects, id)
      && m.notified <= after.notified
    decreases |autos|
  {
    hide NoticesOf, NextEval, Eligible;
    if autos != [] {
      var n := |autos| - 1;
      TickHistory(m, autos[..n], c, effects[..n], notifiers, id);
    }
  }

  predicate DistinctIds(autos: seq<Automation>) {
    forall i, j | 0 <= i < j < |autos| :: autos[i].id != autos[j].id
  }

  predicate Absent(autos: seq<Automation>, id: string) { forall k | 0 <= k < |autos| :: autos[k].id != id }

  /** With distinct ids a tick evaluates each eligible rule once and no other. */
  lemma {:induction false} OneEvaluation(autos: seq<Automation>, c: Context, effects: seq<Effect>, k: nat)
    requires |effects| == |autos| && DistinctIds(autos) && k < |autos|
    ensures var a := autos[k];
            EvaluationsIn(autos, c, effects, a.id)
            == if c.enabled && a.enabled && (a.disabledUntil == 0.0 || a.disabledUntil <= c.now) then
                 [Evaluation(a, c.env, effects[k].write, effects[k].raised)]
               else []
    decreases |autos|
  {
    hide Eligible;
    var n := |autos| - 1;
    EligibleMeaning(autos[k], c);
    assert forall i | 0 <= i < n :: autos[..n][i] == autos[i];
    if k < n {
      OneEvaluation(autos[..n], c, effects[..n], k);
    } else {
      NoEvaluation(autos[..n], c, effects[..n], autos[n].id);
    }
  }

  lemma EligibleMeaning(a: Automation, c: Context)
    ensures Eligible(a, c) <==> c.enabled && a.enabled && (a.disabledUntil == 0.0 || a.disabledUntil <= c.now)
  {
  }

  lemma {:induction false} NoEvaluation(autos: seq<Automation>, c: Context, effects: seq<Effect>, id: string)
    requires |effects| == |autos| && Absent(autos, id)
    ensures EvaluationsIn(autos, c, effects, id) == []
    decreases |autos|
  {
    hide Eligible;
    if autos != [] {
      var n := |autos| - 1;
      assert forall i | 0 <= i < n :: autos[..n][i] == autos[i];
      NoEvaluation(autos[..n], c, effects[..n], id);
    }
  }

  /** With the engine or the rule disabled, or before the time until which it is, a rule does nothing. */
  lemma PassedOver(m: Memory, autos: seq<Automation>, c: Context, effects: seq<Effect>, notifiers: bool,
                   script: nat -> Fate, regs: Regs, k: nat)
    requires TickActed(m, autos, c, effects, notifiers, script, regs) && k < |autos|
    requires !c.enabled || !autos[k].enabled || (autos[k].disabledUntil != 0.0 && c.now < autos[k].disabledUntil)
    ensures effects[k].write.None? && effects[k].ops == [] && effects[k].rows == []
    ensures effects[k].after == RegsAfter(regs, effects[..k])
  {
    hide RememberAll, RegsAfter, Acted;
    assert StepActed(RememberAll(m, autos[..k], c, effects[..k], notifiers), autos[k], c, effects[k], notifiers, script,
                     RegsAfter(regs, effects[..k]));
  }

  /** The write raised, or a failure row was logged, or the last transaction read the target back. */
  ghost predicate WellEnded(id: string, g: Goal, script: nat -> Fate, e: Effect) {
    || e.raised
    || e.rows == [LogRow(id, Some(g.raw), false, false, None)]
    || (Confirmed(e.ops, g) && (TruthfulReads(script) ==> Reached(e.after, g)))
  }

  lemma StepVerified(m: Memory, a: Automation, c: Context, e: Effect, notifiers: bool, script: nat -> Fate,
                     before: Regs)
    requires StepActed(m, a, c, e, notifiers, script, before) && !c.dryRun
    requires GoalOfWrite(e.write, c.supported).Some?
    ensures WellEnded(a.id, GoalOfWrite(e.write, c.supported).value, script, e)
  {
    hide Target, Decide, Unreadable, Confirmed, Reached, OnlyFor, Schedule.IsSource, NoticesOf, Honest, TruthfulReads;
  }

  /**
   Verified writes: over any dongle, each write to a register that a tick issues ends with a
   failure row, by raising, or with a read that returned the target.  If reads tell the truth, the
   register then holds it.
   */
  lemma TickVerified(m: Memory, autos: seq<Automation>, c: Context, effects: seq<Effect>, notifiers: bool,
                     script: nat -> Fate, regs: Regs)
    requires TickActed(m, autos, c, effects, notifiers, script, regs) && !c.dryRun
    ensures forall n | 0 <= n < |autos| && GoalOfWrite(effects[n].write, c.supported).Some? ::
              WellEnded(autos[n].id, GoalOfWrite(effects[n].write, c.supported).value, script, effects[n])
  {
    hide StepActed, RememberAll, WellEnded, GoalOfWrite;
    forall n | 0 <= n < |autos| && GoalOfWrite(effects[n].write, c.supported).Some?
      ensures WellEnded(autos[n].id, GoalOfWrite(effects[n].write, c.supported).value, script, effects[n])
    {
      StepVerified(RememberAll(m, autos[..n], c, effects[..n], notifiers), autos[n], c, effects[n], notifiers, script,
                   RegsAfter(regs, effects[..n]));
    }
  }

  /** The goals of the writes that a tick issued. */
  predicate Issued(c: Context, effects: seq<Effect>, g: Goal) {
    exists n :: 0 <= n < |effects| && GoalOfWrite(effects[n].write, c.supported) == Some(g)
  }

  lemma IssuedMore(c: Context, effects: seq<Effect>, e: Effect, g: Goal)
    requires Issued(c, effects, g) || GoalOfWrite(e.write, c.supported) == Some(g)
    ensures Issued(c, effects + [e], g)
  {
    hide GoalOfWrite;
    var all := effects + [e];
    if Issued(c, effects, g) {
      var n :| 0 <= n < |effects| && GoalOfWrite(effects[n].write, c.supported) == Some(g);
      assert all[n] == effects[n];
    } else {
      assert all[|effects|] == e;
    }
  }

  lemma StepOldOrTarget(m: Memory, a: Automation, c: Context, effects: seq<Effect>, e: Effect, notifiers: bool,
                        script: nat -> Fate, before: Regs, register: u16)
    requires StepActed(m, a, c, e, notifiers, script, before)
    ensures var value := Get(e.after, register);
            value == Get(before, register) || Issued(c, effects + [e], Goal(register, value as int))
  {
    if Eligible(a, c) {
      var was := Was(m.eval, a.id);
      ActedMoves(a, was, c, NoticesOf(a, was, c, notifiers, m.lastNotify), script, before, e);
      hide Acted, Decide, Target, Honest, Issued, NoticesOf;
      var g := GoalOf(a, was, c);
      if g.Some? {
        IssuedMore(c, effects, e, g.value);
      }
    }
  }

  /** Over any dongle a tick leaves each register as it was or at the target of a write it issued to it. */
  lemma {:induction false} TickOldOrTarget(m: Memory, autos: seq<Automation>, c: Context, effects: seq<Effect>,
                                           notifiers: bool, script: nat -> Fate, regs: Regs, register: u16)
    requires TickActed(m, autos, c, effects, notifiers, script, regs)
    ensures var value := Get(RegsAfter(regs, effects), register);
            value == Get(regs, register) || Issued(c, effects, Goal(register, value as int))
    decreases |autos|
  {
    hide StepActed, Issued, RememberAll;
    if autos != [] {
      var n := |autos| - 1;
      TickActedPrefix(m, autos, c, effects, notifiers, script, regs);
      TickOldOrTarget(m, autos[..n], c, effects[..n], notifiers, script, regs, register);
      assert effects == effects[..n] + [effects[n]];
      LastOldOrTarget(RememberAll(m, autos[..n], c, effects[..n], notifiers), autos[n], c, effects[..n], effects[n],
                      notifiers, script, regs, register);
    }
  }

  lemma LastOldOrTarget(m: Memory, a: Automation, c: Context, effects: seq<Effect>, e: Effect, notifiers: bool,
                        script: nat -> Fate, regs: Regs, register: u16)
    requires StepActed(m, a, c, e, notifiers, script, RegsAfter(regs, effects))
    requires var value := Get(RegsAfter(regs, effects), register);
             value == Get(regs, register) || Issued(c, effects, Goal(register, value as int))
    ensures var value := Get(e.after, register);
            value == Get(regs, register) || Issued(c, effects + [e], Goal(register, value as int))
  {
    StepOldOrTarget(m, a, c, effects, e, notifiers, script, RegsAfter(regs, effects), register);
    hide StepActed, Issued, Get;
    var value := Get(RegsAfter(regs, effects), register);
    if Issued(c, effects, Goal(register, value as int)) {
      IssuedMore(c, effects, e, Goal(register, value as int));
    }
  }

  // ---- a tick over an honest dongle --------------------------------------------------------

  /** The tick is on its plan. */
  ghost predicate OnPlan(p: Plan, c: Context, honest: bool, eval: map<string, bool>, ops: seq<Op>,
                         before: Regs, after: Regs)
  {
    && (c.dryRun ==> ops == [] && after == before)
    && (c.dryRun || honest ==> eval == p.eval)
    && (!c.dryRun && honest ==> after == AssignAll(before, p.goals))
    && (!c.dryRun && honest && Settled(before, p.goals) ==> NoWrites(ops) && after == before)
  }

  lemma SettledIsDone(regs: Regs, g: Goal)
    requires Reached(regs, g) || !FitsWord(g.raw)
    ensures Assigned(regs, g) == regs
  {
  }

  lemma PlanStep(p: Plan, m: Memory, a: Automation, c: Context, e: Effect, script: nat -> Fate, ops: seq<Op>,
                 regs: Regs, before: Regs)
    requires OnPlan(p, c, Honest(script), m.eval, ops, regs, before)
    requires Moved(GoalOf(a, Was(m.eval, a.id), c), c, script, before, e)
    requires c.dryRun || Honest(script) ==>
               e.raised == (Unreadable(a, c.env) || Refused(GoalOf(a, Was(m.eval, a.id), c), c))
    requires Eligible(a, c)
    ensures OnPlan(PlanOne(p, a, c), c, Honest(script), NextEval(a, m.eval, c, e.raised), ops + e.ops, regs, e.after)
  {
    hide Target, Decide, Assigned, FitsWord, Reached, Honest, Eligible, Unreadable, NextEval;
    var g := GoalOf(a, Was(m.eval, a.id), c);
    UnreadableChangesNothing(a, m.eval, c, Refused(g, c));
    assert p.goals + [] == p.goals && ops + [] == ops;
    if !c.dryRun && Honest(script) {
      var q := PlanOne(p, a, c);
      if g.Some? {
        assert q.goals[..|q.goals| - 1] == p.goals;
        if Settled(regs, q.goals) {
          assert q.goals[|q.goals| - 1] == g.value;
          assert forall i | 0 <= i < |p.goals| :: q.goals[i] == p.goals[i];
          SettledIsDone(regs, g.value);
        }
      }
    }
  }

  lemma UnreadableChangesNothing(a: Automation, eval: map<string, bool>, c: Context, raised: bool)
    ensures NextEval(a, eval, c, Unreadable(a, c.env) || raised) == NextEval(a, eval, c, raised)
  {
    hide Unreadable;
  }

  /** A tick over an honest dongle, and a dry one over any, follow the plan. */
  lemma {:induction false} HonestTick(m: Memory, autos: seq<Automation>, c: Context, effects: seq<Effect>,
                                      notifiers: bool, script: nat -> Fate, regs: Regs)
    requires TickActed(m, autos, c, effects, notifiers, script, regs)
    ensures OnPlan(PlanAll(autos, m.eval, c), c, Honest(script), RememberAll(m, autos, c, effects, notifiers).eval,
                   OpsOf(effects), regs, RegsAfter(regs, effects))
    decreases |autos|
  {
    if autos == [] {
      hide Honest;
    } else {
      var n := |autos| - 1;
      var a, e := autos[n], effects[n];
      TickActedPrefix(m, autos, c, effects, notifiers, script, regs);
      HonestTick(m, autos[..n], c, effects[..n], notifiers, script, regs);
      var plan, before := PlanAll(autos[..n], m.eval, c), RememberAll(m, autos[..n], c, effects[..n], notifiers);
      var at, ops := RegsAfter(regs, effects[..n]), OpsOf(effects[..n]);
      assert StepActed(before, a, c, e, notifiers, script, at);
      hide TickActed, OnPlan, Acted, NoticesOf, NextEval, GoalOf, Honest, Eligible;
      if Eligible(a, c) {
        var was := Was(before.eval, a.id);
        ActedMoves(a, was, c, NoticesOf(a, was, c, notifiers, before.lastNotify), script, at, e);
        PlanStep(plan, before, a, c, e, script, ops, regs, at);
      } else {
        assert ops + [] == ops;
      }
    }
  }

  // ---- runs of ticks -----------------------------------------------------------------------

  /** One tick of a run: the rules as they are configured then, and the circumstances. */
  datatype Round = Round(autos: seq<Automation>, c: Context)

  predicate Fit(rounds: seq<Round>, effects: seq<seq<Effect>>) {
    |effects| == |rounds| && forall n | 0 <= n < |rounds| :: |effects[n]| == |rounds[n].autos|
  }

  function RememberRun(m: Memory, rounds: seq<Round>, effects: seq<seq<Effect>>, notifiers: bool): Memory
    requires Fit(rounds, effects)
  {
    if rounds == [] then m
    else
      var n := |rounds| - 1;
      RememberAll(RememberRun(m, rounds[..n], effects[..n], notifiers), rounds[n].autos, rounds[n].c, effects[n],
                  notifiers)
  }

  function RegsAfterRun(regs: Regs, effects: seq<seq<Effect>>): Regs {
    if effects == [] then regs
    else RegsAfter(RegsAfterRun(regs, effects[..|effects| - 1]), effects[|effects| - 1])
  }

  /** Each tick of a run had effects that it may have. */
  ghost predicate RunActed(m: Memory, rounds: seq<Round>, effects: seq<seq<Effect>>, notifiers: bool,
                           script: nat -> Fate, regs: Regs)
    requires Fit(rounds, effects)
  {
    rounds == []
    || (var n := |rounds| - 1;
        && RunActed(m, rounds[..n], effects[..n], notifiers, script, regs)
        && TickActed(RememberRun(m, rounds[..n], effects[..n], notifiers), rounds[n].autos, rounds[n].c, effects[n],
                     notifiers, script, RegsAfterRun(regs, effects[..n])))
  }

  lemma RunActedNext(m: Memory, rounds: seq<Round>, r: Round, effects: seq<seq<Effect>>, done: seq<Effect>,
                     notifiers: bool, script: nat -> Fate, regs: Regs)
    requires Fit(rounds, effects) && RunActed(m, rounds, effects, notifiers, script, regs)
    requires TickActed(RememberRun(m, rounds, effects, notifiers), r.autos, r.c, done, notifiers, script,
                       RegsAfterRun(regs, effects))
    ensures Fit(rounds + [r], effects + [done]) && RunActed(m, rounds + [r], effects + [done], notifiers, script, regs)
    ensures RememberRun(m, rounds + [r], effects + [done], notifiers)
            == RememberAll(RememberRun(m, rounds, effects, notifiers), r.autos, r.c, done, notifiers)
    ensures RegsAfterRun(regs, effects + [done]) == RegsAfter(RegsAfterRun(regs, effects), done)
  {
    hide TickActed, RememberAll, Fit, RegsAfter;
    var all, every, n := rounds + [r], effects + [done], |rounds|;
    FitNext(m, rounds, r, effects, done, notifiers, script, regs);
    assert all[..n] == rounds && every[..n] == effects && all[n] == r && every[n] == done;
  }

  lemma FitNext(m: Memory, rounds: seq<Round>, r: Round, effects: seq<seq<Effect>>, done: seq<Effect>,
                notifiers: bool, script: nat -> Fate, regs: Regs)
    requires Fit(rounds, effects)
    requires TickActed(RememberRun(m, rounds, effects, notifiers), r.autos, r.c, done, notifiers, script,
                       RegsAfterRun(regs, effects))
    ensures |effects| == |rounds| && Fit(rounds + [r], effects + [done])
  {
    hide StepActed, RememberRun, RememberAll, RegsAfterRun, RegsAfter;
  }

  /** The evaluations of one rule id in a run. */
  function EvaluationsOver(rounds: seq<Round>, effects: seq<seq<Effect>>, id: string): seq<Evaluation>
    requires Fit(rounds, effects)
  {
    if rounds == [] then []
    else
      var n := |rounds| - 1;
      EvaluationsOver(rounds[..n], effects[..n], id) + EvaluationsIn(rounds[n].autos, rounds[n].c, effects[n], id)
  }

  lemma {:induction false} RunHistory(m: Memory, rounds: seq<Round>, effects: seq<seq<Effect>>, notifiers: bool,
                                      id: string)
    requires Fit(rounds, effects)
    ensures var after := RememberRun(m, rounds, effects, notifiers);
      && PastOf(after.past, id) == PastOf(m.past, id) + EvaluationsOver(rounds, effects, id)
      && m.notified <= after.notified
    decreases |rounds|
  {
    hide RememberAll, EvaluationsIn;
    if rounds != [] {
      var n := |rounds| - 1;
      RunHistory(m, rounds[..n], effects[..n], notifiers, id);
      var before := RememberRun(m, rounds[..n], effects[..n], notifiers);
      TickHistory(before, rounds[n].autos, rounds[n].c, effects[n], notifiers, id);
    }
  }

  /** Restores are issued exactly when due; after one that went through the rule was on before the next. */
  ghost predicate RestoresRight(h: seq<Evaluation>) {
    && (forall k: nat :: RestoresAt(h, k) <==> RestoreDue(h, k))
    && (forall i: nat, j: nat | i < j && RestoresAt(h, i) && !h[i].raised && RestoresAt(h, j) ::
          exists k :: i < k < j && WasOn(h[k]))
  }

  lemma DecidedRestores(h: seq<Evaluation>)
    requires Decided(h)
    ensures RestoresRight(h)
  {
    hide Decided, RestoreDue, WasOn;
    forall k: nat
      ensures RestoresAt(h, k) <==> RestoreDue(h, k)
    {
      RestoreIff(h, k);
    }
    forall i: nat, j: nat | i < j && RestoresAt(h, i) && !h[i].raised && RestoresAt(h, j)
      ensures exists k :: i < k < j && WasOn(h[k])
    {
      var k := RestoresSeparated(h, i, j);
    }
  }

  /** What a run from a memory that fits its histories leads to. */
  lemma RunConcludes(m: Memory, rounds: seq<Round>, effects: seq<seq<Effect>>, notifiers: bool)
    requires Fit(rounds, effects) && MemoryOk(RememberRun(m, rounds, effects, notifiers))
    ensures var after := RememberRun(m, rounds, effects, notifiers);
      && (forall id :: PastOf(after.past, id) == PastOf(m.past, id) + EvaluationsOver(rounds, effects, id))
      && (forall id :: RestoresRight(PastOf(after.past, id))
                       && Was(after.eval, id) == ActiveAfter(PastOf(after.past, id)))
      && m.notified <= after.notified
  {
    var after := RememberRun(m, rounds, effects, notifiers);
    hide RememberRun, EvaluationsOver, RestoresRight, Decided, ActiveAfter, Fit, Was;
    RunHistory(m, rounds, effects, notifiers, "");
    forall id
      ensures PastOf(after.past, id) == PastOf(m.past, id) + EvaluationsOver(rounds, effects, id)
    {
      RunHistory(m, rounds, effects, notifiers, id);
    }
    forall id
      ensures RestoresRight(PastOf(after.past, id)) && Was(after.eval, id) == ActiveAfter(PastOf(after.past, id))
    {
      assert Was(after.eval, id) == ActiveAfter(PastOf(after.past, id)) && Decided(PastOf(after.past, id));
      DecidedRestores(PastOf(after.past, id));
    }
  }

  // ---- the outcome of a tick ---------------------------------------------------------------

  predicate Sets(g: Goal, register: int) { g.register == register && FitsWord(g.raw) }

  lemma OneGoal(regs: Regs, g: Goal, register: int)
    ensures Get(Assigned(regs, g), register) as int == if Sets(g, register) then g.raw else Get(regs, register) as int
  {
  }

  predicate Untouched(goals: seq<Goal>, register: int, from: nat) {
    forall i | from <= i < |goals| :: !Sets(goals[i], register)
  }

  /** A register that no goal sets is unchanged; otherwise it holds the value of the last goal that sets it. */
  lemma {:induction false} LastGoalWins(regs: Regs, goals: seq<Goal>, register: int)
    ensures Untouched(goals, register, 0) ==> Get(AssignAll(regs, goals), register) == Get(regs, register)
    ensures forall k: nat | k < |goals| && Sets(goals[k], register) && Untouched(goals, register, k + 1) ::
              Get(AssignAll(regs, goals), register) as int == goals[k].raw
    decreases |goals|
  {
    hide Assigned, Sets;
    if goals != [] {
      var n := |goals| - 1;
      var before := goals[..n];
      LastGoalWins(regs, before, register);
      OneGoal(AssignAll(regs, before), goals[n], register);
      if Untouched(goals, register, 0) {
        assert forall i | 0 <= i < n :: before[i] == goals[i];
      }
      forall k: nat | k < |goals| && Sets(goals[k], register) && Untouched(goals, register, k + 1)
        ensures Get(AssignAll(regs, goals), register) as int == goals[k].raw
      {
        if k < n {
          assert before[k] == goals[k] && forall i | k + 1 <= i < n :: before[i] == goals[i];
          assert Untouched(before, register, k + 1);
        }
      }
    }
  }

  predicate DistinctRegisters(goals: seq<Goal>) {
    forall i, j | 0 <= i < j < |goals| :: goals[i].register != goals[j].register
  }

  /** What one rule remembers after an honest tick in which it was evaluated once. */
  function WasNext(a: Automation, was: bool, c: Context): bool {
    var active := ActiveNow(a, c.env);
    if !Eligible(a, c) || active.None? || Refused(GoalOf(a, was, c), c) then was else active.value
  }

  /** Evaluated a second time in the same circumstances, a rule aims at the same goal or at none. */
  lemma GoalTwice(a: Automation, was: bool, c: Context)
    requires Eligible(a, c)
    ensures GoalOf(a, WasNext(a, was, c), c).Some? ==> GoalOf(a, WasNext(a, was, c), c) == GoalOf(a, was, c)
  {
    hide Target, Selected, Matches;
  }

  ghost predicate Planned(autos: seq<Automation>, eval: map<string, bool>, c: Context, g: Goal) {
    exists k :: 0 <= k < |autos| && AimsAt(autos[k], eval, c, g)
  }

  lemma PlannedSnoc(autos: seq<Automation>, a: Automation, eval: map<string, bool>, c: Context, g: Goal)
    ensures Planned(autos + [a], eval, c, g) <==> Planned(autos, eval, c, g) || AimsAt(a, eval, c, g)
  {
    hide AimsAt;
    var all := autos + [a];
    assert all[|autos|] == a && forall k | 0 <= k < |autos| :: all[k] == autos[k];
  }

  /** With distinct ids each rule's part of the plan depends on what was remembered of it alone. */
  lemma {:induction false} PlanByRule(autos: seq<Automation>, eval: map<string, bool>, c: Context)
    requires DistinctIds(autos)
    ensures var p := PlanAll(autos, eval, c);
      && (forall id | Absent(autos, id) :: Was(p.eval, id) == Was(eval, id))
      && (forall k | 0 <= k < |autos| :: Was(p.eval, autos[k].id) == WasNext(autos[k], Was(eval, autos[k].id), c))
      && (forall g :: g in p.goals <==> Planned(autos, eval, c, g))
    decreases |autos|
  {
    hide PlanOne, WasNext, Was, AimsAt;
    if autos != [] {
      var n := |autos| - 1;
      var rest, last := autos[..n], autos[n];
      assert autos == rest + [last];
      var before := PlanAll(rest, eval, c);
      PlanByRule(rest, eval, c);
      assert forall k | 0 <= k < n :: rest[k] == autos[k] && rest[k].id != last.id;
      assert Absent(rest, last.id);
      PlanOneByRule(before, last, c);
      forall id | Absent(autos, id)
        ensures Was(PlanAll(autos, eval, c).eval, id) == Was(eval, id)
      {
        assert Absent(rest, id);
      }
      forall g
        ensures g in PlanAll(autos, eval, c).goals <==> Planned(autos, eval, c, g)
      {
        PlannedSnoc(rest, last, eval, c, g);
        AimsAlike(last, before.eval, eval, c, g);
      }
    }
  }

  lemma AimsAlike(a: Automation, e: map<string, bool>, f: map<string, bool>, c: Context, g: Goal)
    requires Was(e, a.id) == Was(f, a.id)
    ensures AimsAt(a, e, c, g) <==> AimsAt(a, f, c, g)
  {
  }

  predicate AimsAt(a: Automation, eval: map<string, bool>, c: Context, g: Goal) {
    Eligible(a, c) && GoalOf(a, Was(eval, a.id), c) == Some(g)
  }

  lemma PlanOneByRule(p: Plan, a: Automation, c: Context)
    ensures var q := PlanOne(p, a, c);
      && (forall id | id != a.id :: Was(q.eval, id) == Was(p.eval, id))
      && Was(q.eval, a.id) == WasNext(a, Was(p.eval, a.id), c)
      && (forall g :: g in q.goals <==> g in p.goals || AimsAt(a, p.eval, c, g))
  {
    hide GoalOf, Eligible, ActiveNow, Refused;
  }

  /**
   A second tick in the same circumstances aims at nothing new.  If the goals of the first one
   lie in distinct registers they are all settled by it, so that the second tick writes nothing.
   */
  lemma SecondTickSettled(autos: seq<Automation>, eval: map<string, bool>, c: Context, regs: Regs)
    requires DistinctIds(autos) && DistinctRegisters(PlanAll(autos, eval, c).goals)
    ensures var first := PlanAll(autos, eval, c);
            Settled(AssignAll(regs, first.goals), PlanAll(autos, first.eval, c).goals)
  {
    var first := PlanAll(autos, eval, c);
    var second := PlanAll(autos, first.eval, c);
    var after := AssignAll(regs, first.goals);
    PlanByRule(autos, eval, c);
    PlanByRule(autos, first.eval, c);
    hide GoalOf, Eligible, WasNext, PlanAll, AssignAll, Was;
    forall i | 0 <= i < |second.goals|
      ensures Reached(after, second.goals[i]) || !FitsWord(second.goals[i].raw)
    {
      var g := second.goals[i];
      assert g in second.goals;
      assert Planned(autos, first.eval, c, g);
      var k :| 0 <= k < |autos| && AimsAt(autos[k], first.eval, c, g);
      GoalTwice(autos[k], Was(eval, autos[k].id), c);
      assert AimsAt(autos[k], eval, c, g);
      assert Planned(autos, eval, c, g);
      var j :| 0 <= j < |first.goals| && first.goals[j] == g;
      assert Untouched(first.goals, g.register as int, j + 1);
      LastGoalWins(regs, first.goals, g.register as int);
    }
  }
}
