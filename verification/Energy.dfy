/** Hourly energy rows accumulated from power snapshots; powers and hours are exact rationals. */
module Energy {
  import opened Wrappers

  /** The powers of one snapshot; a missing reading counts as 0. */
  datatype Snapshot = Snapshot(hour: string, charge: Option<real>, discharge: Option<real>,
                               gridIn: Option<real>, gridOut: Option<real>,
                               pv1: Option<real>, pv2: Option<real>, pv3: Option<real>)

  datatype Meter = Battery | Grid | Load | Pv

  /** A row of the table; a column that was never given a value is None. */
  datatype Row = Row(valueIn: Option<real>, valueOut: Option<real>)

  function OrZero(x: Option<real>): real { if x.Some? then x.value else 0.0 }

  function PvOf(s: Snapshot): real { OrZero(s.pv1) + OrZero(s.pv2) + OrZero(s.pv3) }

  /** Sources less sinks: what is left for the load. */
  function Balance(s: Snapshot): real {
    (PvOf(s) + OrZero(s.discharge) + OrZero(s.gridIn)) - (OrZero(s.charge) + OrZero(s.gridOut))
  }

  function LoadOf(s: Snapshot): (p: real)
    ensures p >= 0.0 && p >= Balance(s) && (p == Balance(s) <==> Balance(s) >= 0.0)
  {
    if Balance(s) > 0.0 then Balance(s) else 0.0
  }

  /** The power that one snapshot reports in a column of a meter. */
  function PowerIn(s: Snapshot, m: Meter): real {
    match m
    case Battery => OrZero(s.charge)
    case Grid => OrZero(s.gridIn)
    case Load => LoadOf(s)
    case Pv => PvOf(s)
  }

  function PowerOut(s: Snapshot, m: Meter): real {
    match m
    case Battery => OrZero(s.discharge)
    case Grid => OrZero(s.gridOut)
    case _ => 0.0
  }

  /** The energy of a power held for an interval. */
  function Over(power: real, hours: real): real { power * hours }

  /** It is linear in both, and one hour of a power is that power. */
  lemma OverMeaning(p: real, q: real, hours: real, more: real)
    ensures Over(p, hours) == p * hours && Over(p, 1.0) == p
    ensures Over(p + q, hours) == Over(p, hours) + Over(q, hours)
    ensures Over(p, hours + more) == Over(p, hours) + Over(p, more)
  {
  }

  /** Power times interval over the snapshots of one hour. */
  function TotalIn(ss: seq<Snapshot>, hour: string, m: Meter, hours: real): real {
    if ss == [] then 0.0
    else
      var s := ss[|ss| - 1];
      TotalIn(ss[..|ss| - 1], hour, m, hours) + if s.hour == hour then Over(PowerIn(s, m), hours) else 0.0
  }

  function TotalOut(ss: seq<Snapshot>, hour: string, m: Meter, hours: real): real {
    if ss == [] then 0.0
    else
      var s := ss[|ss| - 1];
      TotalOut(ss[..|ss| - 1], hour, m, hours) + if s.hour == hour then Over(PowerOut(s, m), hours) else 0.0
  }

  function StoredIn(rows: map<(string, Meter), Row>, hour: string, m: Meter): (v: real)
    ensures (hour, m) in rows && rows[(hour, m)].valueIn.Some? ==> rows[(hour, m)].valueIn == Some(v)
    ensures (hour, m) !in rows || rows[(hour, m)].valueIn.None? ==> v == 0.0
  {
    if (hour, m) in rows then OrZero(rows[(hour, m)].valueIn) else 0.0
  }

  function StoredOut(rows: map<(string, Meter), Row>, hour: string, m: Meter): (v: real)
    ensures (hour, m) in rows && rows[(hour, m)].valueOut.Some? ==> rows[(hour, m)].valueOut == Some(v)
    ensures (hour, m) !in rows || rows[(hour, m)].valueOut.None? ==> v == 0.0
  {
    if (hour, m) in rows then OrZero(rows[(hour, m)].valueOut) else 0.0
  }

  class HourlyEnergy {
    const hours: real
    var rows: map<(string, Meter), Row>
    ghost var seen: seq<Snapshot>

    /** Each row holds the energy of the snapshots of its hour. */
    ghost predicate Valid()
      reads this
    {
      Accounts(rows, seen, hours)
    }

    constructor (hours: real)
      ensures Valid() && this.hours == hours && rows == map[] && seen == []
    {
      this.hours, rows, seen := hours, map[], [];
    }

    /** _upsert_hourly: inserts the row, or adds to it counting missing values as 0. */
    method Upsert(hour: string, m: Meter, valueIn: Option<real>, valueOut: Option<real>)
      modifies this`rows
      ensures rows == Upserted(old(rows), hour, m, valueIn, valueOut)
    {
      if (hour, m) in rows {
        var row := rows[(hour, m)];
        rows := rows[(hour, m) := Row(Some(OrZero(row.valueIn) + OrZero(valueIn)),
                                      Some(OrZero(row.valueOut) + OrZero(valueOut)))];
      } else {
        rows := rows[(hour, m) := Row(valueIn, valueOut)];
      }
    }

    method Update(s: Snapshot)
      requires Valid()
      modifies this
      ensures Valid() && seen == old(seen) + [s]
      // Every column of the hour grows by its own power times the interval, a missing reading counting as 0.
      ensures StoredIn(rows, s.hour, Battery) - StoredIn(old(rows), s.hour, Battery)
              == Over(if s.charge.Some? then s.charge.value else 0.0, hours)
      ensures StoredOut(rows, s.hour, Battery) - StoredOut(old(rows), s.hour, Battery)
              == Over(if s.discharge.Some? then s.discharge.value else 0.0, hours)
      ensures StoredIn(rows, s.hour, Grid) - StoredIn(old(rows), s.hour, Grid)
              == Over(if s.gridIn.Some? then s.gridIn.value else 0.0, hours)
      ensures StoredOut(rows, s.hour, Grid) - StoredOut(old(rows), s.hour, Grid)
              == Over(if s.gridOut.Some? then s.gridOut.value else 0.0, hours)
      ensures var pv := (if s.pv1.Some? then s.pv1.value else 0.0) + (if s.pv2.Some? then s.pv2.value else 0.0)
                        + (if s.pv3.Some? then s.pv3.value else 0.0);
              var left := pv + (if s.discharge.Some? then s.discharge.value else 0.0)
                          + (if s.gridIn.Some? then s.gridIn.value else 0.0)
                          - (if s.charge.Some? then s.charge.value else 0.0)
                          - (if s.gridOut.Some? then s.gridOut.value else 0.0);
        && StoredIn(rows, s.hour, Pv) - StoredIn(old(rows), s.hour, Pv) == Over(pv, hours)
        && StoredIn(rows, s.hour, Load) - StoredIn(old(rows), s.hour, Load)
           == Over(if left > 0.0 then left else 0.0, hours)
        && StoredOut(rows, s.hour, Pv) == StoredOut(old(rows), s.hour, Pv)
        && StoredOut(rows, s.hour, Load) == StoredOut(old(rows), s.hour, Load)
      ensures forall key: (string, Meter) | key.0 != s.hour ::
                && (key in rows <==> key in old(rows))
                && (key in rows ==> rows[key] == old(rows)[key])
    {
      SnapshotPowers(s);
      hide Upserted, Accounts, LoadOf, PvOf, Over, PowerIn, PowerOut;
      Column(rows, s, hours, Battery);
      Column(rows, s, hours, Grid);
      Column(rows, s, hours, Pv);
      Column(rows, s, hours, Load);
      OtherHours(rows, s, hours);
      ghost var before := rows;
      Upsert(s.hour, Battery, Some(Over(OrZero(s.charge), hours)), Some(Over(OrZero(s.discharge), hours)));
      Upsert(s.hour, Grid, Some(Over(OrZero(s.gridIn), hours)), Some(Over(OrZero(s.gridOut), hours)));
      Upsert(s.hour, Load, Some(Over(LoadOf(s), hours)), None);
      Upsert(s.hour, Pv, Some(Over(PvOf(s), hours)), None);
      assert rows == AfterSnapshot(before, s, hours);
      AccountsNext(before, seen, s, hours);
      seen := seen + [s];
    }
  }

  ghost predicate Accounts(rows: map<(string, Meter), Row>, seen: seq<Snapshot>, hours: real) {
    forall hour, m :: StoredIn(rows, hour, m) == TotalIn(seen, hour, m, hours)
                      && StoredOut(rows, hour, m) == TotalOut(seen, hour, m, hours)
  }

  /** The rows after the four upserts of one snapshot. */
  function AfterSnapshot(rows: map<(string, Meter), Row>, s: Snapshot, hours: real): map<(string, Meter), Row> {
    var r1 := Upserted(rows, s.hour, Battery,
                       Some(Over(OrZero(s.charge), hours)), Some(Over(OrZero(s.discharge), hours)));
    var r2 := Upserted(r1, s.hour, Grid, Some(Over(OrZero(s.gridIn), hours)), Some(Over(OrZero(s.gridOut), hours)));
    var r3 := Upserted(r2, s.hour, Load, Some(Over(LoadOf(s), hours)), None);
    Upserted(r3, s.hour, Pv, Some(Over(PvOf(s), hours)), None)
  }

  lemma SnapshotPowers(s: Snapshot)
    ensures var p := (x: Option<real>) => if x.Some? then x.value else 0.0;
            var pv := p(s.pv1) + p(s.pv2) + p(s.pv3);
            var left := pv + p(s.discharge) + p(s.gridIn) - p(s.charge) - p(s.gridOut);
      && PowerIn(s, Battery) == p(s.charge) && PowerOut(s, Battery) == p(s.discharge)
      && PowerIn(s, Grid) == p(s.gridIn) && PowerOut(s, Grid) == p(s.gridOut)
      && PowerIn(s, Pv) == pv && PowerOut(s, Pv) == 0.0
      && PowerIn(s, Load) == (if left > 0.0 then left else 0.0) && PowerOut(s, Load) == 0.0
  {
  }

  lemma Column(rows: map<(string, Meter), Row>, s: Snapshot, hours: real, m: Meter)
    ensures var after := AfterSnapshot(rows, s, hours);
      && StoredIn(after, s.hour, m) - StoredIn(rows, s.hour, m) == Over(PowerIn(s, m), hours)
      && StoredOut(after, s.hour, m) - StoredOut(rows, s.hour, m) == Over(PowerOut(s, m), hours)
    ensures Over(0.0, hours) == 0.0
  {
    SnapshotAdds(rows, s, hours, s.hour, m);
    hide PowerIn, PowerOut, StoredIn, StoredOut;
  }

  lemma OtherHours(rows: map<(string, Meter), Row>, s: Snapshot, hours: real)
    ensures var after := AfterSnapshot(rows, s, hours);
            forall key: (string, Meter) | key.0 != s.hour ::
              (key in after <==> key in rows) && (key in after ==> after[key] == rows[key])
  {
    hide Over, LoadOf, PvOf, StoredIn, StoredOut;
  }

  lemma SnapshotAdds(rows: map<(string, Meter), Row>, s: Snapshot, hours: real, hour: string, m: Meter)
    ensures var after, of := AfterSnapshot(rows, s, hours), s.hour == hour;
      && StoredIn(after, hour, m) == StoredIn(rows, hour, m) + (if of then Over(PowerIn(s, m), hours) else 0.0)
      && StoredOut(after, hour, m) == StoredOut(rows, hour, m) + (if of then Over(PowerOut(s, m), hours) else 0.0)
  {
    assert Over(0.0, hours) == 0.0;
    hide Upserted, StoredIn, StoredOut, LoadOf, PvOf, Over;
  }

  lemma AccountsNext(rows: map<(string, Meter), Row>, seen: seq<Snapshot>, s: Snapshot, hours: real)
    requires Accounts(rows, seen, hours)
    ensures Accounts(AfterSnapshot(rows, s, hours), seen + [s], hours)
  {
    hide AfterSnapshot, StoredIn, StoredOut, PowerIn, PowerOut, Over;
    assert (seen + [s])[..|seen|] == seen;
    forall hour, m
      ensures StoredIn(AfterSnapshot(rows, s, hours), hour, m) == TotalIn(seen + [s], hour, m, hours)
      ensures StoredOut(AfterSnapshot(rows, s, hours), hour, m) == TotalOut(seen + [s], hour, m, hours)
    {
      SnapshotAdds(rows, s, hours, hour, m);
      assert StoredIn(rows, hour, m) == TotalIn(seen, hour, m, hours);
      assert StoredOut(rows, hour, m) == TotalOut(seen, hour, m, hours);
    }
  }

  function Upserted(rows: map<(string, Meter), Row>, hour: string, m: Meter,
                    valueIn: Option<real>, valueOut: Option<real>)
    : (r: map<(string, Meter), Row>)
    ensures forall h, n ::
              StoredIn(r, h, n) == StoredIn(rows, h, n) + if (h, n) == (hour, m) then OrZero(valueIn) else 0.0
    ensures forall h, n ::
              StoredOut(r, h, n) == StoredOut(rows, h, n) + if (h, n) == (hour, m) then OrZero(valueOut) else 0.0
  {
    if (hour, m) in rows then
      var row := rows[(hour, m)];
      rows[(hour, m) := Row(Some(OrZero(row.valueIn) + OrZero(valueIn)), Some(OrZero(row.valueOut) + OrZero(valueOut)))]
    else rows[(hour, m) := Row(valueIn, valueOut)]
  }

  // ---- conservation ------------------------------------------------------------------------

  predicate NeverNegative(ss: seq<Snapshot>, hour: string) {
    forall i | 0 <= i < |ss| && ss[i].hour == hour :: Balance(ss[i]) >= 0.0
  }

  /** What goes in and is delivered, less what comes from the sources, in one hour. */
  function Excess(ss: seq<Snapshot>, hour: string, hours: real): real {
    (TotalIn(ss, hour, Load, hours) + TotalIn(ss, hour, Battery, hours) + TotalOut(ss, hour, Grid, hours))
    - (TotalIn(ss, hour, Pv, hours) + TotalOut(ss, hour, Battery, hours) + TotalIn(ss, hour, Grid, hours))
  }

  lemma Distributes(a: real, b: real, c: real, d: real, e: real, f: real, hours: real)
    ensures Over(a, hours) + Over(b, hours) + Over(c, hours) - (Over(d, hours) + Over(e, hours) + Over(f, hours))
            == Over(a + b + c - (d + e + f), hours)
  {
  }

  /** One more snapshot of the hour adds the part of its balance that was negative. */
  lemma ExcessNext(ss: seq<Snapshot>, s: Snapshot, hour: string, hours: real)
    ensures Excess(ss + [s], hour, hours)
            == Excess(ss, hour, hours) + if s.hour == hour then Over(LoadOf(s) - Balance(s), hours) else 0.0
  {
    assert (ss + [s])[..|ss|] == ss;
    Distributes(LoadOf(s), OrZero(s.charge), OrZero(s.gridOut), PvOf(s), OrZero(s.discharge), OrZero(s.gridIn), hours);
    hide Over, LoadOf, PvOf, OrZero;
  }

  lemma OneExcess(s: Snapshot, hours: real)
    requires hours > 0.0
    ensures var e := Over(LoadOf(s) - Balance(s), hours);
            e >= 0.0 && (e == 0.0 <==> Balance(s) >= 0.0)
  {
    hide Balance;
    var gap := LoadOf(s) - Balance(s);
    assert gap > 0.0 ==> gap * hours > 0.0;
  }

  /**
   In every hour of any run, load, battery charge and export together are at least what the
   sources gave; equal exactly when no snapshot of the hour had a negative balance.
   */
  lemma {:induction false} Conservation(ss: seq<Snapshot>, hour: string, hours: real)
    requires hours > 0.0
    ensures Excess(ss, hour, hours) >= 0.0
    ensures Excess(ss, hour, hours) == 0.0 <==> NeverNegative(ss, hour)
  {
    if ss != [] {
      var n := |ss| - 1;
      Conservation(ss[..n], hour, hours);
      OneExcess(ss[n], hours);
      assert ss[..n] + [ss[n]] == ss;
      ExcessNext(ss[..n], ss[n], hour, hours);
      hide LoadOf, Balance, Excess, Over;
      assert forall i | 0 <= i < n :: ss[..n][i] == ss[i];
    }
  }

  /** So it is in the rows of a table that accounts for its snapshots. */
  lemma RowsConserve(rows: map<(string, Meter), Row>, seen: seq<Snapshot>, hour: string, hours: real)
    requires hours > 0.0 && Accounts(rows, seen, hours)
    ensures var used := StoredIn(rows, hour, Load) + StoredIn(rows, hour, Battery) + StoredOut(rows, hour, Grid);
            var given := StoredIn(rows, hour, Pv) + StoredOut(rows, hour, Battery) + StoredIn(rows, hour, Grid);
            used >= given && (used == given <==> NeverNegative(seen, hour))
  {
    Conservation(seen, hour, hours);
    hide StoredIn, StoredOut, TotalIn, TotalOut, NeverNegative;
    assert forall m ::
        StoredIn(rows, hour, m) == TotalIn(seen, hour, m, hours)
        && StoredOut(rows, hour, m) == TotalOut(seen, hour, m, hours);
  }
}
