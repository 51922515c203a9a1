/** Automation rules: their conditions, what an evaluation decides, and the history of decisions. */
module Rules {
  import opened Wrappers
  import opened Bytes
  import opened Settings
  import Schedule

  /**
   Sensor readings that could be read, the names whose reading is there but has no number, the
   minute of the day, and the day and month names.
   */
  datatype Env = Env(sensors: map<string, real>, broken: set<string>, minutes: int, weekday: string, month: string)

  datatype Condition =
    | TimeOfDay(window: Option<(int, int)>)
    | DayOfWeek(day: string)
    | MonthOfYear(month: string)
    | Sensor(name: string, min: Option<real>, max: Option<real>)
    | Unknown

  /**
   Whether a condition matches.  A window that could not be read, an unknown kind and a missing
   reading never match; a broken reading raises, which is None.
   */
  function Test(c: Condition, env: Env): Option<bool> {
    match c
    case TimeOfDay(None) => Some(false)
    case TimeOfDay(Some((start, end))) =>
      Some(if start <= end then start <= env.minutes <= end else env.minutes >= start || env.minutes <= end)
    case DayOfWeek(day) => Some(env.weekday == day)
    case MonthOfYear(month) => Some(env.month == month)
    case Sensor(name, min, max) =>
      if name in env.broken then None
      else
        Some(name in env.sensors
             && (min.Some? ==> min.value <= env.sensors[name])
             && (max.Some? ==> env.sensors[name] <= max.value))
    case Unknown => Some(false)
  }

  /** The window of a time condition runs from its start, over midnight if need be, through its end. */
  lemma WindowMeaning(start: int, end: int, env: Env)
    requires 0 <= start < 1440 && 0 <= end < 1440 && 0 <= env.minutes < 1440
    ensures Test(TimeOfDay(Some((start, end))), env) == Some((env.minutes - start) % 1440 <= (end - start) % 1440)
  {
    assert env.minutes < start ==> (env.minutes - start) % 1440 == env.minutes - start + 1440;
    assert end < start ==> (end - start) % 1440 == end - start + 1440;
  }

  /** Only a sensor condition raises, on a broken reading; without a reading it fails, else its bounds decide. */
  lemma ConditionMeaning(c: Condition, env: Env)
    ensures Test(c, env).None? <==> c.Sensor? && c.name in env.broken
    ensures c.Unknown? || (c.TimeOfDay? && c.window.None?) ==> Test(c, env) == Some(false)
    ensures c.DayOfWeek? ==> Test(c, env) == Some(c.day == env.weekday)
    ensures c.MonthOfYear? ==> Test(c, env) == Some(c.month == env.month)
    ensures c.Sensor? && Test(c, env) == Some(true) ==>
              && c.name in env.sensors
              && (forall low | c.min == Some(low) :: low <= env.sensors[c.name])
              && (forall high | c.max == Some(high) :: env.sensors[c.name] <= high)
    ensures c.Sensor? && Test(c, env) == Some(false) ==>
              || c.name !in env.sensors
              || (exists low :: c.min == Some(low) && env.sensors[c.name] < low)
              || (exists high :: c.max == Some(high) && high < env.sensors[c.name])
  {
  }

  predicate Matches(c: Condition, env: Env) { Test(c, env) == Some(true) }

  predicate Fails(c: Condition, env: Env) { Test(c, env) == Some(false) }

  datatype Range = Range(condition: Condition, actionValue: Option<real>)

  datatype Group = Group(condition: Condition, ranges: seq<Range>)

  datatype Kind = RuleTable | BatterySoc | BatteryProtection | Notify

  datatype Automation = Automation(
    id: string, kind: Kind, enabled: bool, disabledUntil: real,
    setting: Option<Setting>, groups: seq<Group>, conditions: seq<Condition>,
    actionValue: Option<real>, restoreValue: Option<real>,
    points: seq<Schedule.Point>, threshold: Option<real>)

  // ---- the matching range ------------------------------------------------------------------

  predicate PairMatches(groups: seq<Group>, env: Env, g: int, r: int) {
    && 0 <= g < |groups| && 0 <= r < |groups[g].ranges|
    && Matches(groups[g].condition, env) && Matches(groups[g].ranges[r].condition, env)
  }

  /** The first range whose condition does not fail; it matches, or reading it raises. */
  function FirstRange(ranges: seq<Range>, env: Env, from: nat): (r: nat)
    requires from <= |ranges|
    ensures from <= r <= |ranges|
    ensures forall k | from <= k < r :: Fails(ranges[k].condition, env)
    ensures r < |ranges| ==> !Fails(ranges[r].condition, env)
    decreases |ranges| - from
  {
    if from == |ranges| || !Fails(ranges[from].condition, env) then from else FirstRange(ranges, env, from + 1)
  }

  /** The result of the search; Stopped when a condition raised before a match was found. */
  datatype Search = Found(group: nat, range: nat) | NotFound | Stopped

  /** The search goes on behind this group. */
  predicate Passed(g: Group, env: Env) {
    || Fails(g.condition, env)
    || (Matches(g.condition, env) && forall k | 0 <= k < |g.ranges| :: Fails(g.ranges[k].condition, env))
  }

  predicate RaisesAt(ranges: seq<Range>, env: Env, r: nat) {
    r < |ranges| && Test(ranges[r].condition, env).None? && forall k | 0 <= k < r :: Fails(ranges[k].condition, env)
  }

  /** The search raises within this group. */
  ghost predicate StopsIn(g: Group, env: Env) {
    || Test(g.condition, env).None?
    || (Matches(g.condition, env) && exists r: nat :: RaisesAt(g.ranges, env, r))
  }

  /** The lexicographically first matching (group, range), unless reading a condition before it raises. */
  function Selected(groups: seq<Group>, env: Env, from: nat): (p: Search)
    requires from <= |groups|
    ensures p.Found? ==>
              && from <= p.group && PairMatches(groups, env, p.group, p.range)
              && (forall g | from <= g < p.group :: Passed(groups[g], env))
              && (forall r | 0 <= r < p.range :: Fails(groups[p.group].ranges[r].condition, env))
    ensures p.NotFound? <==> forall g | from <= g < |groups| :: Passed(groups[g], env)
    ensures p.Stopped? <==> exists g :: from <= g < |groups| && StopsIn(groups[g], env)
                                        && forall k | from <= k < g :: Passed(groups[k], env)
    decreases |groups| - from
  {
    if from == |groups| then NotFound
    else
      var ranges := groups[from].ranges;
      var r := FirstRange(ranges, env, 0);
      assert r < |ranges| && Test(ranges[r].condition, env).None? ==> RaisesAt(ranges, env, r);
      if Test(groups[from].condition, env).None? then Stopped
      else if Matches(groups[from].condition, env) && r < |ranges| then
        if Matches(ranges[r].condition, env) then Found(from, r) else Stopped
      else Selected(groups, env, from + 1)
  }

  /** No pair before the one found matches. */
  lemma SelectedIsFirst(groups: seq<Group>, env: Env)
    ensures var p := Selected(groups, env, 0);
      && (p.Found? ==> forall g, r | PairMatches(groups, env, g, r) ::
            p.group < g || (p.group == g && p.range <= r))
      && (p.NotFound? ==> forall g, r :: !PairMatches(groups, env, g, r))
  {
    hide Test;
    forall g, r | PairMatches(groups, env, g, r)
      ensures !Passed(groups[g], env)
    {
      assert !Fails(groups[g].ranges[r].condition, env);
    }
  }

  method FindMatchingRange(groups: seq<Group>, env: Env) returns (found: Search)
    ensures found == Selected(groups, env, 0)
  {
    hide Test;
    for g := 0 to |groups|
      invariant Selected(groups, env, 0) == Selected(groups, env, g)
    {
      var outer := Test(groups[g].condition, env);
      if outer.None? {
        return Stopped;
      }
      if !outer.value {
        continue;
      }
      var ranges := groups[g].ranges;
      for r := 0 to |ranges|
        invariant FirstRange(ranges, env, 0) == FirstRange(ranges, env, r)
      {
        var inner := Test(ranges[r].condition, env);
        if inner.None? {
          return Stopped;
        }
        if inner.value {
          return Found(g, r);
        }
      }
    }
    return NotFound;
  }

  // ---- what one evaluation decides ---------------------------------------------------------

  datatype Write = Action(setting: Setting, value: real) | Restore(setting: Setting, value: real)

  /** `active` is the new activity, None when the evaluation leaves it alone. */
  datatype Decision = Decision(write: Option<Write>, active: Option<bool>, notify: bool)

  /** Whether all conditions match, looked at in order up to the first that does not. */
  function AllMatch(conditions: seq<Condition>, env: Env): Option<bool>
    decreases |conditions|
  {
    if conditions == [] then Some(true)
    else if Test(conditions[0], env) == Some(true) then AllMatch(conditions[1..], env)
    else Test(conditions[0], env)
  }

  /** All match exactly if each does; it raises if one raises before which all match. */
  lemma {:induction false} AllMatchMeaning(conditions: seq<Condition>, env: Env)
    ensures AllMatch(conditions, env) == Some(true) <==>
              forall k | 0 <= k < |conditions| :: Test(conditions[k], env) == Some(true)
    ensures AllMatch(conditions, env).None? <==>
              exists k :: 0 <= k < |conditions| && Test(conditions[k], env).None?
                          && forall i | 0 <= i < k :: Test(conditions[i], env) == Some(true)
    decreases |conditions|
  {
    hide Test;
    if conditions != [] && Test(conditions[0], env) == Some(true) {
      var rest := conditions[1..];
      AllMatchMeaning(rest, env);
      assert forall k | 0 <= k < |rest| :: rest[k] == conditions[k + 1];
      assert forall k | 0 < k < |conditions| :: rest[k - 1] == conditions[k];
      if AllMatch(rest, env).None? {
        var k :| 0 <= k < |rest| && Test(rest[k], env).None?
                 && forall i | 0 <= i < k :: Test(rest[i], env) == Some(true);
        assert Test(conditions[k + 1], env).None?;
        assert forall i | 0 <= i < k + 1 :: Test(conditions[i], env) == Some(true);
      }
      if k :| 0 <= k < |conditions| && Test(conditions[k], env).None?
              && forall i | 0 <= i < k :: Test(conditions[i], env) == Some(true) {
        assert Test(rest[k - 1], env).None?;
      }
    }
  }

  /** Reading a condition or the state of charge raises, so that the evaluation ends there. */
  predicate Unreadable(a: Automation, env: Env) {
    || AllMatch(a.conditions, env).None?
    || (a.kind.RuleTable? && Selected(a.groups, env, 0).Stopped?)
    || ((a.kind.BatteryProtection? || a.kind.BatterySoc?) && "soc" in env.broken)
  }

  /** The value that the matching range of a rule table sets. */
  function RangeValue(a: Automation, env: Env): Option<real> {
    var p := Selected(a.groups, env, 0);
    if p.Found? && a.setting.Some? then a.groups[p.group].ranges[p.range].actionValue else None
  }

  /** Whether the rule is on, for the kinds that have this notion and when it can be told. */
  function ActiveNow(a: Automation, env: Env): Option<bool> {
    if Unreadable(a, env) then None
    else
      match a.kind
      case RuleTable => Some(RangeValue(a, env).Some?)
      case BatteryProtection =>
        if "soc" !in env.sensors || a.threshold.None? then None else Some(env.sensors["soc"] <= a.threshold.value)
      case Notify => AllMatch(a.conditions, env)
      case BatterySoc => None
  }

  function Decide(a: Automation, wasActive: bool, env: Env): Decision {
    var now := ActiveNow(a, env);
    if now.None? then Decision(None, None, false)
    else
      match a.kind
      case RuleTable =>
        Decision(
          if now.value then Some(Action(a.setting.value, RangeValue(a, env).value))
          else if wasActive && a.restoreValue.Some? && a.setting.Some? then
            Some(Restore(a.setting.value, a.restoreValue.value))
          else None,
          now, false)
      case BatteryProtection =>
        Decision(
          if now.value && a.actionValue.Some? then Some(Action(ShutdownBatteryVoltage, a.actionValue.value))
          else if !now.value && wasActive && a.restoreValue.Some? then
            Some(Restore(ShutdownBatteryVoltage, a.restoreValue.value))
          else None,
          now, false)
      case Notify => Decision(None, now, now.value && !wasActive)
      case BatterySoc => Decision(None, None, false)
  }

  /** No group and range before this one match both; this one does. */
  ghost predicate FirstMatch(groups: seq<Group>, env: Env, g: int, r: int) {
    && PairMatches(groups, env, g, r)
    && forall h, k | PairMatches(groups, env, h, k) :: g < h || (g == h && r <= k)
  }

  /**
   A readable rule table writes the value of its first matching range and is on; if that range has
   no value, or none matches, it is off.
   */
  lemma RuleTableMeaning(a: Automation, was: bool, env: Env)
    requires a.kind.RuleTable? && a.setting.Some? && !Unreadable(a, env)
    ensures forall g, r |
              && 0 <= g < |a.groups| && 0 <= r < |a.groups[g].ranges|
              && Test(a.groups[g].condition, env) == Some(true)
              && Test(a.groups[g].ranges[r].condition, env) == Some(true)
              && (forall h, k | 0 <= h < |a.groups| && 0 <= k < |a.groups[h].ranges| && (h < g || (h == g && k < r)) ::
                    Test(a.groups[h].condition, env) != Some(true)
                    || Test(a.groups[h].ranges[k].condition, env) != Some(true)) ::
                Decide(a, was, env) ==
                  match a.groups[g].ranges[r].actionValue
                  case Some(v) => Decision(Some(Action(a.setting.value, v)), Some(true), false)
                  case None =>
                    Decision(if was && a.restoreValue.Some? then Some(Restore(a.setting.value, a.restoreValue.value))
                             else None, Some(false), false)
    ensures (forall g, r | 0 <= g < |a.groups| && 0 <= r < |a.groups[g].ranges| ::
               Test(a.groups[g].condition, env) != Some(true)
               || Test(a.groups[g].ranges[r].condition, env) != Some(true)) ==>
              Decide(a, was, env) ==
                Decision(if was && a.restoreValue.Some? then Some(Restore(a.setting.value, a.restoreValue.value))
                         else None, Some(false), false)
  {
    SelectedIsFirst(a.groups, env);
    hide Test, AllMatch;
    var p := Selected(a.groups, env, 0);
    forall g, r | PairMatches(a.groups, env, g, r)
      ensures p.Found?
    {
    }
    if p.Found? {
      assert PairMatches(a.groups, env, p.group, p.range);
    }
  }

  /** Without a setting a rule table is off and writes nothing. */
  lemma NoSettingMeaning(a: Automation, was: bool, env: Env)
    requires a.kind.RuleTable? && a.setting.None? && !Unreadable(a, env)
    ensures Decide(a, was, env) == Decision(None, Some(false), false)
  {
    hide Selected, AllMatch;
  }

  /** Battery protection is on exactly at or below its threshold. */
  lemma BatteryProtectionMeaning(a: Automation, was: bool, env: Env)
    requires a.kind.BatteryProtection? && !Unreadable(a, env)
    ensures a.threshold.Some? && "soc" in env.sensors && env.sensors["soc"] <= a.threshold.value ==>
              && Decide(a, was, env).active == Some(true)
              && (a.actionValue.None? ==> Decide(a, was, env).write.None?)
              && forall v | a.actionValue == Some(v) ::
                   Decide(a, was, env).write == Some(Action(ShutdownBatteryVoltage, v))
    ensures a.threshold.Some? && "soc" in env.sensors && env.sensors["soc"] > a.threshold.value ==>
              && Decide(a, was, env).active == Some(false)
              && (!was || a.restoreValue.None? ==> Decide(a, was, env).write.None?)
              && forall v | was && a.restoreValue == Some(v) ::
                   Decide(a, was, env).write == Some(Restore(ShutdownBatteryVoltage, v))
    ensures a.threshold.None? || "soc" !in env.sensors ==> Decide(a, was, env) == Decision(None, None, false)
  {
    hide Selected, AllMatch;
  }

  /** A notification is due when all conditions match and did not at the last evaluation. */
  lemma NotifyMeaning(a: Automation, was: bool, env: Env)
    requires a.kind.Notify? && !Unreadable(a, env)
    ensures var all := forall k | 0 <= k < |a.conditions| :: Test(a.conditions[k], env) == Some(true);
            Decide(a, was, env) == Decision(None, Some(all), all && !was)
  {
    hide Selected, Test;
    assert AllMatch(a.conditions, env).Some?;
    assert Decide(a, was, env).active == AllMatch(a.conditions, env);
    hide AllMatch;
    AllMatchMeaning(a.conditions, env);
  }

  /** Only a broken reading makes a rule unreadable. */
  lemma ReadableWithoutBroken(a: Automation, env: Env)
    requires env.broken == {}
    ensures !Unreadable(a, env)
  {
    AllMatchMeaning(a.conditions, env);
    hide AllMatch;
    forall c: Condition
      ensures Test(c, env).Some?
    {
    }
  }

  /** The condition or the state of charge that makes a rule unreadable. */
  lemma UnreadableIff(a: Automation, env: Env)
    ensures Unreadable(a, env) <==>
              || (exists k :: 0 <= k < |a.conditions| && Test(a.conditions[k], env).None?
                              && forall i | 0 <= i < k :: Test(a.conditions[i], env) == Some(true))
              || (a.kind.RuleTable?
                  && exists g :: 0 <= g < |a.groups| && StopsIn(a.groups[g], env)
                                 && forall h | 0 <= h < g :: Passed(a.groups[h], env))
              || ((a.kind.BatteryProtection? || a.kind.BatterySoc?) && "soc" in env.broken)
  {
    AllMatchMeaning(a.conditions, env);
    hide AllMatch, Test, StopsIn, Passed;
  }

  // ---- history -----------------------------------------------------------------------------

  /**
   One evaluation of a rule, with the write that it issued; an evaluation that raised, in reading
   a condition or in writing, changes no activity.
   */
  datatype Evaluation = Evaluation(rule: Automation, env: Env, write: Option<Write>, raised: bool)

  /** The evaluation ran to its end and could tell whether the rule is on. */
  predicate Completed(e: Evaluation) { !e.raised && ActiveNow(e.rule, e.env).Some? }

  predicate WasOn(e: Evaluation) { Completed(e) && ActiveNow(e.rule, e.env).value }

  predicate WasOff(e: Evaluation) { Completed(e) && !ActiveNow(e.rule, e.env).value }

  /** The activity the engine remembers after a history. */
  function ActiveAfter(h: seq<Evaluation>): bool {
    if h == [] then false
    else
      var e := h[|h| - 1];
      if Completed(e) then WasOn(e) else ActiveAfter(h[..|h| - 1])
  }

  /** Each evaluation issued the write that the rule decides on with the activity remembered then. */
  predicate Decided(h: seq<Evaluation>) {
    forall k | 0 <= k < |h| :: h[k].write == Decide(h[k].rule, ActiveAfter(h[..k]), h[k].env).write
  }

  predicate RestoresAt(h: seq<Evaluation>, k: nat) {
    k < |h| && h[k].write.Some? && h[k].write.value.Restore?
  }

  predicate LastOnAt(h: seq<Evaluation>, j: nat) {
    j < |h| && WasOn(h[j]) && forall i | j < i < |h| :: !Completed(h[i])
  }

  /** The remembered activity is that of the latest evaluation that completed. */
  lemma {:induction false} ActiveAfterMeaning(h: seq<Evaluation>)
    ensures ActiveAfter(h) <==> exists j: nat :: LastOnAt(h, j)
    decreases |h|
  {
    if h != [] {
      var n := |h| - 1;
      var before := h[..n];
      if Completed(h[n]) {
        if WasOn(h[n]) {
          assert LastOnAt(h, n);
        } else {
          forall j: nat | j < |h|
            ensures !LastOnAt(h, j)
          {
          }
        }
      } else {
        ActiveAfterMeaning(before);
        if ActiveAfter(before) {
          var j: nat :| LastOnAt(before, j);
          assert forall i | j < i < n :: before[i] == h[i];
          assert LastOnAt(h, j);
        }
        forall j: nat | LastOnAt(h, j)
          ensures LastOnAt(before, j)
        {
        }
      }
    }
  }

  /** The rule has a value and a register to restore, was on when last told, and is off. */
  ghost predicate RestoreDue(h: seq<Evaluation>, k: nat) {
    k < |h|
    && var rule := h[k].rule;
       && rule.restoreValue.Some?
       && (rule.kind.BatteryProtection? || (rule.kind.RuleTable? && rule.setting.Some?))
       && ActiveNow(rule, h[k].env) == Some(false)
       && exists j: nat :: LastOnAt(h[..k], j)
  }

  /**
   A restore is issued exactly when the rule has a restore value and a register to restore, the
   latest completed evaluation before was on, and this one is off.
   */
  lemma RestoreIff(h: seq<Evaluation>, k: nat)
    requires Decided(h)
    ensures RestoresAt(h, k) <==> RestoreDue(h, k)
  {
    if k < |h| {
      ActiveAfterMeaning(h[..k]);
      hide ActiveNow;
    }
  }

  /**
   When every evaluation could tell whether the rule is on and none raised, the latest completed
   evaluation is the one right before.
   */
  lemma RestoreAfterOn(h: seq<Evaluation>, k: nat)
    requires Decided(h) && k < |h| && forall i | 0 <= i < k :: Completed(h[i])
    ensures RestoresAt(h, k) <==>
              && h[k].rule.restoreValue.Some?
              && (h[k].rule.kind.BatteryProtection? || (h[k].rule.kind.RuleTable? && h[k].rule.setting.Some?))
              && ActiveNow(h[k].rule, h[k].env) == Some(false)
              && k > 0 && WasOn(h[k - 1])
  {
    RestoreIff(h, k);
    hide ActiveNow;
    if k > 0 {
      var before := h[..k];
      assert before[k - 1] == h[k - 1] && Completed(before[k - 1]);
      forall j: nat | LastOnAt(before, j)
        ensures j == k - 1
      {
      }
      assert WasOn(h[k - 1]) ==> LastOnAt(before, k - 1);
    }
  }

  /** Once a restore has gone through, there is no other before the rule was on again. */
  lemma RestoresSeparated(h: seq<Evaluation>, i: nat, j: nat) returns (k: nat)
    requires Decided(h) && i < j && RestoresAt(h, i) && !h[i].raised && RestoresAt(h, j)
    ensures i < k < j && WasOn(h[k])
  {
    RestoreIff(h, i);
    RestoreIff(h, j);
    k :| LastOnAt(h[..j], k);
    assert Completed(h[i]) && WasOff(h[i]);
    assert h[..j][i] == h[i];
  }
}
