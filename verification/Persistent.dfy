/**
 The persistent dongle connection.  What the network does to one transaction is a script: one
 entry per attempt, saying whether a present socket is still alive, whether connecting works,
 whether sending works, and what each receive returns until the deadline.
 */
module Persistent {
  import opened Wrappers
  import opened Bytes
  import opened Frames
  import opened Scanner

  /** Chunk([]) is an end of file: the dongle closed the connection. */
  datatype Recv = Chunk(bytes: ByteString) | TimedOut | Failed

  datatype Attempt = Attempt(alive: bool, connects: bool, sends: bool, events: seq<Recv>)

  datatype Outcome = Answer(frame: LuxFrame) | NoAnswer | Raised

  type Match = LuxFrame -> bool

  // ---- what a receive sequence contains ----------------------------------------------------

  /** The first n receives all brought bytes. */
  predicate AllData(events: seq<Recv>, n: nat) {
    n <= |events| && forall i | 0 <= i < n :: events[i].Chunk? && events[i].bytes != []
  }

  function BytesOf(events: seq<Recv>, n: nat): ByteString
    requires AllData(events, n)
  {
    if n == 0 then [] else BytesOf(events, n - 1) + events[n - 1].bytes
  }

  /** The frames that can be made of the first n receives of one attempt. */
  function Heard(events: seq<Recv>, n: nat): seq<LuxFrame>
    requires AllData(events, n)
  {
    FramesIn(BytesOf(events, n))
  }

  predicate NoneMatches(frames: seq<LuxFrame>, matches: Match) {
    forall i | 0 <= i < |frames| :: !matches(frames[i])
  }

  predicate FirstMatch(frames: seq<LuxFrame>, matches: Match, f: LuxFrame) {
    exists i :: 0 <= i < |frames| && frames[i] == f && matches(f) && NoneMatches(frames[..i], matches)
  }

  /** No beginning of what was received held a matching frame. */
  predicate Silent(events: seq<Recv>, matches: Match) {
    forall n: nat | 0 < n <= |events| && AllData(events, n) :: NoneMatches(Heard(events, n), matches)
  }

  /** The answer is the first match in the first beginning that holds one. */
  ghost predicate AnsweredBy(events: seq<Recv>, matches: Match, f: LuxFrame) {
    exists n: nat :: AnsweredAt(events, matches, f, n)
  }

  predicate AnsweredAt(events: seq<Recv>, matches: Match, f: LuxFrame, n: nat) {
    && 0 < n <= |events| && AllData(events, n) && FirstMatch(Heard(events, n), matches, f)
    && forall m: nat | 0 < m < n && AllData(events, m) :: NoneMatches(Heard(events, m), matches)
  }

  /** The dongle closed the connection or the socket failed before any time-out. */
  predicate Broken(events: seq<Recv>) {
    exists n: nat :: n < |events| && AllData(events, n) && (events[n].Failed? || events[n] == Chunk([]))
  }

  // ---- staleness ---------------------------------------------------------------------------

  /** How many responses at the end of the history are identical. */
  function RunLength(h: seq<ByteString>): nat {
    if h == [] then 0
    else if |h| == 1 || h[|h| - 2] != h[|h| - 1] then 1
    else 1 + RunLength(h[..|h| - 1])
  }

  /** It is the longest run: the responses in it are equal and the one before it, if any, is not. */
  lemma {:induction false} RunLengthMeaning(h: seq<ByteString>)
    requires h != []
    ensures var k := RunLength(h);
            && 1 <= k <= |h|
            && (forall i | |h| - k <= i < |h| :: h[i] == h[|h| - 1])
            && (k < |h| ==> h[|h| - k - 1] != h[|h| - 1])
    decreases |h|
  {
    if |h| > 1 && h[|h| - 2] == h[|h| - 1] {
      RunLengthMeaning(h[..|h| - 1]);
    }
  }

  const STALE_THRESHOLD: nat := 5

  /** The run of identical responses has just grown to 1 plus a positive multiple of the threshold. */
  predicate StaleAt(h: seq<ByteString>) {
    RunLength(h) > 1 && RunLength(h) % STALE_THRESHOLD == 1
  }

  class PersistentConnection {
    const maxRetries: nat
    var open: bool
    var connectCount: nat
    var txCount: nat
    var lastSig: Option<ByteString>
    var staleCount: nat

    /** Every copy of a request handed to the socket, and every response accepted, in order. */
    ghost var sent: seq<ByteString>
    ghost var accepted: seq<ByteString>

    ghost predicate Valid()
      reads this
    {
      && (accepted == [] ==> lastSig.None? && staleCount == 0)
      && (accepted != [] ==>
            lastSig == Some(accepted[|accepted| - 1]) && staleCount == (RunLength(accepted) - 1) % STALE_THRESHOLD)
    }

    constructor (maxRetries: nat)
      ensures Valid() && this.maxRetries == maxRetries && !open && sent == [] && accepted == []
    {
      this.maxRetries := maxRetries;
      open, connectCount, txCount := false, 0, 0;
      lastSig, staleCount := None, 0;
      sent, accepted := [], [];
    }

    /**
     The stale counter is the length of the current run of identical responses, less one, modulo
     5; the socket is closed exactly when that run has grown to 1 plus a positive multiple of 5.
     */
    method NoteResponse(raw: ByteString)
      requires Valid()
      modifies this`lastSig, this`staleCount, this`open, this`accepted
      ensures Valid() && accepted == old(accepted) + [raw]
      ensures open == (old(open) && !StaleAt(accepted))
      ensures var k := RunLength(accepted); StaleAt(accepted) <==> k > 1 && k % 5 == 1
    {
      accepted := accepted + [raw];
      assert accepted[..|accepted| - 1] == old(accepted);
      if lastSig == Some(raw) {
        staleCount := staleCount + 1;
        if staleCount >= STALE_THRESHOLD {
          staleCount := 0;
          open := false;
        }
      } else {
        lastSig := Some(raw);
        staleCount := 0;
      }
    }

    /** _ensure_connected: true when a socket is there, false when connecting raised. */
    method EnsureConnected(a: Attempt) returns (ok: bool)
      modifies this`open, this`connectCount
      ensures ok == open == ((old(open) && a.alive) || a.connects)
      ensures connectCount == old(connectCount) + if (old(open) && a.alive) || !a.connects then 0 else 1
    {
      if open && a.alive {
        return true;
      }
      open := false;
      if !a.connects {
        return false;
      }
      open := true;
      connectCount := connectCount + 1;
      return true;
    }

    /** The receive loop of one attempt; `closed` says whether it left the socket unusable. */
    method Await(events: seq<Recv>, matches: Match) returns (r: Option<LuxFrame>, closed: bool)
      ensures r.Some? ==> AnsweredBy(events, matches, r.value) && !closed
      ensures r.None? ==> Silent(events, matches) && closed == Broken(events)
      ensures r.None? ==>
                (closed <==> exists n :: 0 <= n < |events| && (events[n].Failed? || events[n] == Chunk([]))
                                         && forall i | 0 <= i < n :: events[i].Chunk? && events[i].bytes != [])
    {
      hide FramesIn;
      var buffer: ByteString := [];
      closed := false;
      var n := 0;
      while n < |events|
        invariant n <= |events| && AllData(events, n) && buffer == BytesOf(events, n)
        invariant forall m: nat | 0 < m <= n :: AllData(events, m) && NoneMatches(Heard(events, m), matches)
        decreases |events| - n
      {
        match events[n] {
          case TimedOut =>
            return None, false;
          case Failed =>
            return None, true;
          case Chunk(chunk) =>
            if chunk == [] {
              assert events[n] == Chunk([]);
              return None, true;
            }
            buffer := buffer + chunk;
            var frames := FindFrames(buffer);
            for i := 0 to |frames|
              invariant NoneMatches(frames[..i], matches)
            {
              if matches(frames[i]) {
                assert FirstMatch(Heard(events, n + 1), matches, frames[i]);
                assert AnsweredAt(events, matches, frames[i], n + 1);
                return Some(frames[i]), false;
              }
              assert frames[..i + 1] == frames[..i] + [frames[i]];
            }
            assert frames[..|frames|] == frames;
            n := n + 1;
        }
      }
      return None, false;
    }

    /** One attempt: connect if needed, send, listen. */
    method TryOnce(request: ByteString, matches: Match, attempt: Attempt) returns (r: Outcome)
      requires Valid()
      modifies this
      ensures Valid()
      ensures sent == old(sent) + if r.Raised? then [] else [request]
      ensures txCount == old(txCount) + if attempt.sends && !r.Raised? then 1 else 0
      ensures r.Raised? ==> !attempt.connects && !open
      ensures r.NoAnswer? ==> open == (attempt.sends && !Broken(attempt.events))
      ensures r.NoAnswer? && attempt.sends ==> Silent(attempt.events, matches)
      ensures r.Answer? ==> open == !StaleAt(accepted)
      ensures if r.Answer? then
                && attempt.sends && AnsweredBy(attempt.events, matches, r.frame)
                && accepted == old(accepted) + [r.frame.raw]
              else accepted == old(accepted)
    {
      var connected := EnsureConnected(attempt);
      if !connected {
        return Raised;
      }
      sent := sent + [request];
      r := NoAnswer;
      if attempt.sends {
        txCount := txCount + 1;
        var frame, closed := Await(attempt.events, matches);
        if frame.Some? {
          NoteResponse(frame.value.raw);
          r := Answer(frame.value);
        } else if closed {
          open := false;
        }
      } else {
        open := false;
      }
    }

    /**
     One transaction.  It hands over at most maxRetries + 1 copies of the request, all the same;
     an answer was received within the very attempt it answers, after attempts that brought no
     match; no answer means that no attempt brought one.
     */
    method Transact(request: ByteString, matches: Match, script: seq<Attempt>)
      returns (r: Outcome, ghost attempts: nat)
      requires Valid() && |script| == maxRetries + 1
      modifies this
      ensures Valid() && attempts <= maxRetries + 1
      ensures OnlyCopies(old(sent), sent, request) && |sent| == |old(sent)| + attempts
      ensures txCount == old(txCount) + Sends(script, attempts)
      ensures r.Answer? ==>
                && attempts > 0 && Replied(script, matches, attempts - 1, r.frame)
                && accepted == old(accepted) + [r.frame.raw] && open == !StaleAt(accepted)
      ensures !r.Answer? ==> accepted == old(accepted) && AllSilent(script, attempts, matches)
      ensures r.NoAnswer? ==>
                attempts == maxRetries + 1 && open == (script[maxRetries].sends && !Broken(script[maxRetries].events))
      ensures r.Raised? ==> attempts <= maxRetries && !script[attempts].connects && !open
    {
      hide AnsweredBy, Silent, Broken, RunLength, PersistentConnection.Valid;
      attempts := 0;
      for n := 0 to maxRetries + 1
        invariant attempts == n
        invariant Valid() && accepted == old(accepted)
        invariant OnlyCopies(old(sent), sent, request) && |sent| == |old(sent)| + n
        invariant txCount == old(txCount) + Sends(script, n)
        invariant AllSilent(script, n, matches)
        invariant n > 0 ==> open == (script[n - 1].sends && !Broken(script[n - 1].events))
      {
        r := TryOnce(request, matches, script[n]);
        if r.Raised? {
          return;
        }
        attempts := n + 1;
        if r.Answer? {
          return;
        }
      }
      r := NoAnswer;
    }
  }

  /** The log grew by copies of one request and nothing else. */
  predicate OnlyCopies(before: seq<ByteString>, after: seq<ByteString>, request: ByteString) {
    before <= after && forall i | |before| <= i < |after| :: after[i] == request
  }

  /** How many of the first n attempts got the request out. */
  function Sends(script: seq<Attempt>, n: nat): nat
    requires n <= |script|
  {
    if n == 0 then 0 else Sends(script, n - 1) + if script[n - 1].sends then 1 else 0
  }

  /** Attempt n brought this answer, and no attempt before it brought any. */
  ghost predicate Replied(script: seq<Attempt>, matches: Match, n: int, f: LuxFrame) {
    && 0 <= n < |script| && script[n].sends
    && AllSilent(script, n, matches) && AnsweredBy(script[n].events, matches, f)
  }

  predicate AllSilent(script: seq<Attempt>, n: int, matches: Match) {
    0 <= n <= |script| && forall a | 0 <= a < n && script[a].sends :: Silent(script[a].events, matches)
  }
}
