/** The rule that two notifications with one key are at least 300 seconds apart. */
module Throttle {

  const MIN_INTERVAL: real := 300.0

  /** The time of the latest send that is remembered for a key; 0 when there was none. */
  function LastSent(last: map<string, real>, key: string): real {
    if key in last then last[key] else 0.0
  }

  /** Any two sends with one key are at least 300 seconds apart, and the latest is remembered. */
  ghost predicate Spaced(sent: seq<(string, real)>, last: map<string, real>) {
    && (forall i | 0 <= i < |sent| :: sent[i].0 in last && sent[i].1 <= last[sent[i].0])
    && (forall i, j | 0 <= i < j < |sent| && sent[i].0 == sent[j].0 :: sent[j].1 - sent[i].1 >= MIN_INTERVAL)
  }

  class Notifiers {
    var lastSent: map<string, real>
    ghost var sent: seq<(string, real)>

    constructor ()
      ensures Spaced(sent, lastSent) && sent == []
    {
      lastSent, sent := map[], [];
    }

    /** _rate_ok: allows a send, and remembers it, unless the last one is too recent. */
    method RateOk(key: string, now: real) returns (ok: bool)
      requires Spaced(sent, lastSent)
      modifies this
      ensures Spaced(sent, lastSent)
      ensures ok <==> now - (if key in old(lastSent) then old(lastSent)[key] else 0.0) >= 300.0
      ensures lastSent == if ok then old(lastSent)[key := now] else old(lastSent)
      ensures sent == old(sent) + if ok then [(key, now)] else []
    {
      var last := LastSent(lastSent, key);
      if now - last < MIN_INTERVAL {
        return false;
      }
      lastSent := lastSent[key := now];
      sent := sent + [(key, now)];
      return true;
    }
  }
}
