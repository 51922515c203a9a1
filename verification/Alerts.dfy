/** Edge-triggered alerts and the grid-loss timer. */
module Alerts {
  import opened Wrappers

  datatype Readings = Readings(soc: Option<real>, batteryTemp: Option<real>, inverterTemp: Option<real>,
                               gridVoltage: Option<real>, gridFrequency: Option<real>, fault: Option<real>)

  datatype Limits = Limits(socLow: real, socCritical: real, batteryTempHigh: real, inverterTempHigh: real,
                           gridLostSeconds: real)

  datatype Alert = SocLow | SocCritical | BatteryTempHigh | InverterTempHigh | GridLoss | FaultActive

  const ALERTS: seq<Alert> := [SocLow, SocCritical, BatteryTempHigh, InverterTempHigh, GridLoss, FaultActive]

  /** One evaluation as the grid timer sees it. */
  datatype Sample = Sample(present: bool, time: real)

  predicate GridPresent(r: Readings) {
    r.gridVoltage.Some? && r.gridVoltage.value > 80.0 && r.gridFrequency.Some? && r.gridFrequency.value > 45.0
  }

  /** The grid was absent at every evaluation from s on. */
  predicate AbsentFrom(h: seq<Sample>, s: nat) {
    s < |h| && forall i | s <= i < |h| :: !h[i].present
  }

  predicate LostAtLeast(h: seq<Sample>, s: nat, seconds: real) {
    AbsentFrom(h, s) && h[|h| - 1].time - h[s].time >= seconds
  }

  /** The grid has been absent at every evaluation since one that is at least `seconds` old. */
  ghost predicate GridLost(h: seq<Sample>, seconds: real) {
    exists s: nat :: LostAtLeast(h, s, seconds)
  }

  predicate Monotone(h: seq<Sample>) {
    forall i, j | 0 <= i < j < |h| :: h[i].time <= h[j].time
  }

  /** The timer: when the current absence was first seen. */
  function LostSince(h: seq<Sample>): Option<real> {
    if h == [] || h[|h| - 1].present then None
    else
      var before := LostSince(h[..|h| - 1]);
      if before.Some? then before else Some(h[|h| - 1].time)
  }

  lemma {:induction false} LostSinceMeaning(h: seq<Sample>)
    ensures LostSince(h).Some? <==> h != [] && !h[|h| - 1].present
    ensures LostSince(h).Some? ==>
              exists s: nat :: AbsentFrom(h, s) && h[s].time == LostSince(h).value && (s > 0 ==> h[s - 1].present)
    decreases |h|
  {
    if h != [] && !h[|h| - 1].present {
      var n := |h| - 1;
      LostSinceMeaning(h[..n]);
      if LostSince(h[..n]).Some? {
        var s: nat :| AbsentFrom(h[..n], s) && h[..n][s].time == LostSince(h[..n]).value
                      && (s > 0 ==> h[..n][s - 1].present);
        assert forall i | s <= i < n :: h[..n][i] == h[i];
        assert AbsentFrom(h, s) && h[s].time == LostSince(h).value && (s > 0 ==> h[s - 1].present);
      } else {
        assert AbsentFrom(h, n) && h[n].time == LostSince(h).value && (n > 0 ==> h[n - 1].present);
      }
    }
  }

  /** With a clock that does not go back, the timer says exactly whether the grid is lost. */
  lemma TimerIff(h: seq<Sample>, seconds: real)
    requires h != [] && Monotone(h)
    ensures GridLost(h, seconds) <==>
              LostSince(h).Some? && h[|h| - 1].time - LostSince(h).value >= seconds
  {
    LostSinceMeaning(h);
    if LostSince(h).Some? {
      var first: nat :| AbsentFrom(h, first) && h[first].time == LostSince(h).value
                        && (first > 0 ==> h[first - 1].present);
      if GridLost(h, seconds) {
        var s: nat :| LostAtLeast(h, s, seconds);
        assert first <= s;
        assert h[first].time <= h[s].time;
      }
      if h[|h| - 1].time - LostSince(h).value >= seconds {
        assert LostAtLeast(h, first, seconds);
      }
    }
  }

  predicate Holds(a: Alert, r: Readings, l: Limits, gridLost: bool) {
    match a
    case SocLow => r.soc.Some? && r.soc.value <= l.socLow
    case SocCritical => r.soc.Some? && r.soc.value <= l.socCritical
    case BatteryTempHigh => r.batteryTemp.Some? && r.batteryTemp.value >= l.batteryTempHigh
    case InverterTempHigh => r.inverterTemp.Some? && r.inverterTemp.value >= l.inverterTempHigh
    case GridLoss => gridLost
    case FaultActive => r.fault.Some? && r.fault.value != 0.0
  }

  // ---- what is published -------------------------------------------------------------------

  datatype Event = Event(alert: Alert, on: bool)

  /** The state that was published last for an alert; off when there was none. */
  function LastPublished(log: seq<Event>, a: Alert): bool {
    if log == [] then false
    else if log[|log| - 1].alert == a then log[|log| - 1].on
    else LastPublished(log[..|log| - 1], a)
  }

  /** Every event changes the state of its alert: per alert the states alternate, starting with ON. */
  predicate Alternates(log: seq<Event>) {
    forall i | 0 <= i < |log| :: log[i].on != LastPublished(log[..i], log[i].alert)
  }

  lemma AlternatesSnoc(log: seq<Event>, e: Event)
    requires Alternates(log) && e.on != LastPublished(log, e.alert)
    ensures Alternates(log + [e])
    ensures forall a :: LastPublished(log + [e], a) == if a == e.alert then e.on else LastPublished(log, a)
  {
    var all := log + [e];
    assert all[..|log|] == log;
    forall i | 0 <= i < |all|
      ensures all[i].on != LastPublished(all[..i], all[i].alert)
    {
      if i < |log| {
        assert all[..i] == log[..i];
      }
    }
  }

  predicate LastOf(log: seq<Event>, a: Alert, k: int) {
    0 <= k < |log| && log[k].alert == a && forall i | k < i < |log| :: log[i].alert != a
  }

  lemma {:induction false} LastPublishedAt(log: seq<Event>, a: Alert, k: int)
    requires LastOf(log, a, k)
    ensures LastPublished(log, a) == log[k].on
    decreases |log|
  {
    var n := |log| - 1;
    if k < n {
      assert LastOf(log[..n], a, k);
      LastPublishedAt(log[..n], a, k);
    }
  }

  lemma {:induction false} NeverPublished(log: seq<Event>, a: Alert)
    requires forall i | 0 <= i < |log| :: log[i].alert != a
    ensures !LastPublished(log, a)
    decreases |log|
  {
    if log != [] {
      NeverPublished(log[..|log| - 1], a);
    }
  }

  /** Of two events of one alert with none between them, one is ON and one OFF; the first one is ON. */
  lemma AlternatesMeaning(log: seq<Event>, i: nat, j: nat)
    requires Alternates(log) && j < |log|
    ensures i < j && log[i].alert == log[j].alert && (forall k | i < k < j :: log[k].alert != log[j].alert) ==>
              log[i].on != log[j].on
    ensures (forall k | 0 <= k < j :: log[k].alert != log[j].alert) ==> log[j].on
  {
    var before, a := log[..j], log[j].alert;
    if i < j && log[i].alert == a && forall k | i < k < j :: log[k].alert != a {
      LastPublishedAt(before, a, i);
    }
    if forall k | 0 <= k < j :: log[k].alert != a {
      NeverPublished(before, a);
    }
  }

  function StateOf(states: map<Alert, bool>, a: Alert): bool { a in states && states[a] }

  /** These events are the changes of these alerts. */
  ghost predicate Announced(events: seq<Event>, alerts: seq<Alert>, before: map<Alert, bool>, after: map<Alert, bool>) {
    forall e :: e in events <==>
                e.alert in alerts && e.on == StateOf(after, e.alert) && e.on != StateOf(before, e.alert)
  }

  lemma AnnouncedNext(events: seq<Event>, alerts: seq<Alert>, before: map<Alert, bool>, after: map<Alert, bool>,
                      a: Alert, active: bool)
    requires Announced(events, alerts, before, after) && a !in alerts && StateOf(after, a) == StateOf(before, a)
    ensures Announced(if active != StateOf(after, a) then events + [Event(a, active)] else events, alerts + [a],
                      before, after[a := active])
  {
  }

  lemma AnnouncedMeaning(events: seq<Event>, before: map<Alert, bool>, after: map<Alert, bool>)
    requires Announced(events, ALERTS, before, after) && forall a: Alert :: a in after
    ensures forall e :: e in events <==>
                        e.on == after[e.alert] && e.on != (e.alert in before && before[e.alert])
  {
    ListedOnce();
  }

  /** These alerts have their new state, the others their old one. */
  ghost predicate Judged(alerts: seq<Alert>, before: map<Alert, bool>, after: map<Alert, bool>,
                         r: Readings, l: Limits, lost: bool)
  {
    forall a :: if a in alerts then a in after && after[a] == Holds(a, r, l, lost)
                else StateOf(after, a) == StateOf(before, a)
  }

  lemma NothingJudged(states: map<Alert, bool>, r: Readings, l: Limits, lost: bool)
    ensures Judged([], states, states, r, l, lost) && Announced([], [], states, states)
  {
  }

  lemma JudgedNext(alerts: seq<Alert>, before: map<Alert, bool>, after: map<Alert, bool>,
                   r: Readings, l: Limits, lost: bool, a: Alert)
    requires Judged(alerts, before, after, r, l, lost) && a !in alerts
    ensures Judged(alerts + [a], before, after[a := Holds(a, r, l, lost)], r, l, lost)
    ensures StateOf(after, a) == StateOf(before, a)
  {
    hide Holds;
  }

  lemma JudgedMeaning(before: map<Alert, bool>, after: map<Alert, bool>, r: Readings, l: Limits, lost: bool)
    requires Judged(ALERTS, before, after, r, l, lost)
    ensures forall a: Alert :: a in after
    ensures after[SocLow] <==> r.soc.Some? && r.soc.value <= l.socLow
    ensures after[SocCritical] <==> r.soc.Some? && r.soc.value <= l.socCritical
    ensures after[BatteryTempHigh] <==> r.batteryTemp.Some? && r.batteryTemp.value >= l.batteryTempHigh
    ensures after[InverterTempHigh] <==> r.inverterTemp.Some? && r.inverterTemp.value >= l.inverterTempHigh
    ensures after[FaultActive] <==> r.fault.Some? && r.fault.value != 0.0
    ensures after[GridLoss] == lost
  {
    ListedOnce();
  }

  lemma PublishNext(log: seq<Event>, states: map<Alert, bool>, a: Alert, active: bool)
    requires Alternates(log) && forall b :: StateOf(states, b) == LastPublished(log, b)
    ensures var next := if active != StateOf(states, a) then log + [Event(a, active)] else log;
            Alternates(next) && forall b :: StateOf(states[a := active], b) == LastPublished(next, b)
  {
    hide Alternates, LastPublished;
    assert StateOf(states, a) == LastPublished(log, a);
    if active != StateOf(states, a) {
      AlternatesSnoc(log, Event(a, active));
    }
  }

  class AlertEvaluator {
    const limits: Limits
    var states: map<Alert, bool>
    var gridLostSince: Option<real>

    ghost var published: seq<Event>
    ghost var samples: seq<Sample>

    /** The states are those published last, per alert they alternated, and the timer is right. */
    ghost predicate Valid()
      reads this
    {
      && Alternates(published)
      && (forall a :: StateOf(states, a) == LastPublished(published, a))
      && gridLostSince == LostSince(samples)
    }

    constructor (limits: Limits)
      ensures Valid() && this.limits == limits && published == [] && samples == []
    {
      this.limits := limits;
      states, gridLostSince := map[], None;
      published, samples := [], [];
    }

    /** One evaluation; nothing happens when alerts are switched off. */
    method Evaluate(enabled: bool, r: Readings, now: real)
      requires Valid()
      modifies this
      ensures Valid() && old(published) <= published
      ensures !enabled ==> published == old(published) && samples == old(samples) && states == old(states)
      // The grid counts as present above 80 V and 45 Hz.
      ensures enabled ==>
                samples == old(samples) + [Sample(r.gridVoltage.Some? && r.gridVoltage.value > 80.0
                                                  && r.gridFrequency.Some? && r.gridFrequency.value > 45.0, now)]
      ensures enabled ==>
                && (forall a: Alert :: a in states)
                && (states[SocLow] <==> r.soc.Some? && r.soc.value <= limits.socLow)
                && (states[SocCritical] <==> r.soc.Some? && r.soc.value <= limits.socCritical)
                && (states[BatteryTempHigh] <==>
                    r.batteryTemp.Some? && r.batteryTemp.value >= limits.batteryTempHigh)
                && (states[InverterTempHigh] <==>
                    r.inverterTemp.Some? && r.inverterTemp.value >= limits.inverterTempHigh)
                && (states[FaultActive] <==> r.fault.Some? && r.fault.value != 0.0)
      // The grid is lost when it was absent at every evaluation since one that is old enough.
      ensures enabled && (forall i, j | 0 <= i < j < |samples| :: samples[i].time <= samples[j].time) ==>
                (states[GridLoss] <==>
                 exists s :: 0 <= s < |samples| && now - samples[s].time >= limits.gridLostSeconds
                             && forall i | s <= i < |samples| :: !samples[i].present)
      // Published is each change, and nothing else.
      ensures enabled ==>
                forall e :: e in published[|old(published)|..] <==>
                            e.on == states[e.alert] && e.on != (e.alert in old(states) && old(states)[e.alert])
    {
      hide LastPublished, LostSince, Alternates, Announced, Judged, Holds, StateOf;
      if !enabled {
        return;
      }
      ListedOnce();
      var lost := UpdateTimer(r, now);
      LossMeaning(samples, limits.gridLostSeconds);
      ghost var first, seen := states, samples;
      assert ALERTS[..0] == [] && published[|old(published)|..] == [];
      NothingJudged(first, r, limits, lost);
      for n := 0 to |ALERTS|
        invariant Alternates(published) && old(published) <= published
        invariant forall a :: StateOf(states, a) == LastPublished(published, a)
        invariant gridLostSince == LostSince(samples) && samples == seen
        invariant Judged(ALERTS[..n], first, states, r, limits, lost)
        invariant Announced(published[|old(published)|..], ALERTS[..n], first, states)
      {
        var a := ALERTS[n];
        var active := Holds(a, r, limits, lost);
        var was := StateOf(states, a);
        assert ALERTS[..n + 1] == ALERTS[..n] + [a];
        ghost var before := published[|old(published)|..];
        JudgedNext(ALERTS[..n], first, states, r, limits, lost, a);
        AnnouncedNext(before, ALERTS[..n], first, states, a, active);
        PublishNext(published, states, a, active);
        states := states[a := active];
        if active != was {
          published := published + [Event(a, active)];
          assert published[|old(published)|..] == before + [Event(a, active)];
        }
      }
      assert ALERTS[..|ALERTS|] == ALERTS;
      JudgedMeaning(first, states, r, limits, lost);
      AnnouncedMeaning(published[|old(published)|..], first, states);
    }

    /** The grid-loss timer; says whether the loss has lasted long enough. */
    method UpdateTimer(r: Readings, now: real) returns (lost: bool)
      requires Valid()
      modifies this`gridLostSince, this`samples
      ensures samples == old(samples) + [Sample(GridPresent(r), now)]
      ensures gridLostSince == LostSince(samples)
      ensures lost <==> gridLostSince.Some? && now - gridLostSince.value >= limits.gridLostSeconds
    {
      samples := samples + [Sample(GridPresent(r), now)];
      assert samples[..|samples| - 1] == old(samples);
      if GridPresent(r) {
        gridLostSince := None;
        return false;
      }
      if gridLostSince.None? {
        gridLostSince := Some(now);
      }
      return now - gridLostSince.value >= limits.gridLostSeconds;
    }
  }

  /** With a clock that does not go back, the timer says whether the grid is lost. */
  lemma LossMeaning(h: seq<Sample>, seconds: real)
    requires h != []
    ensures (forall i, j | 0 <= i < j < |h| :: h[i].time <= h[j].time) ==>
              (LostSince(h).Some? && h[|h| - 1].time - LostSince(h).value >= seconds <==>
               exists s :: 0 <= s < |h| && h[|h| - 1].time - h[s].time >= seconds
                           && forall i | s <= i < |h| :: !h[i].present)
  {
    hide GridLost, LostSince;
    GridLostMeaning(h, seconds);
    if Monotone(h) {
      TimerIff(h, seconds);
    }
  }

  /** Every alert is in the list, and once. */
  lemma ListedOnce()
    ensures |ALERTS| == 6 && forall a: Alert :: a in ALERTS
    ensures forall i, j | 0 <= i < j < |ALERTS| :: ALERTS[i] != ALERTS[j]
  {
    assert ALERTS[0] == SocLow && ALERTS[1] == SocCritical && ALERTS[2] == BatteryTempHigh
        && ALERTS[3] == InverterTempHigh && ALERTS[4] == GridLoss && ALERTS[5] == FaultActive;
    forall a: Alert
      ensures a in ALERTS
    {
      match a {
        case SocLow => assert a == ALERTS[0];
        case SocCritical => assert a == ALERTS[1];
        case BatteryTempHigh => assert a == ALERTS[2];
        case InverterTempHigh => assert a == ALERTS[3];
        case GridLoss => assert a == ALERTS[4];
        case FaultActive => assert a == ALERTS[5];
      }
    }
  }

  lemma GridLostMeaning(h: seq<Sample>, seconds: real)
    requires h != []
    ensures GridLost(h, seconds) <==>
              exists s :: 0 <= s < |h| && h[|h| - 1].time - h[s].time >= seconds
                          && forall i | s <= i < |h| :: !h[i].present
  {
    if s :| 0 <= s < |h| && h[|h| - 1].time - h[s].time >= seconds && forall i | s <= i < |h| :: !h[i].present {
      assert LostAtLeast(h, s, seconds);
    }
  }
}
