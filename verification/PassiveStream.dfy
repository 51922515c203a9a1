/**
 The passive transport: a receive loop that keeps a byte buffer, delivers the frames it finds to
 the collector, cuts the buffer behind the last frame (found again by its content) and drops the
 front of a buffer that grows beyond 8192 bytes.
 */
module PassiveStream {
  import opened Wrappers
  import opened Bytes
  import opened Frames
  import opened Scanner
  import opened Collectors

  // ---- bytes.find --------------------------------------------------------------------------

  predicate OccursAt(b: ByteString, pat: ByteString, i: nat) {
    i + |pat| <= |b| && b[i..i + |pat|] == pat
  }

  /** The first occurrence at or after `from`, or -1. */
  function Find(b: ByteString, pat: ByteString, from: nat): (i: int)
    ensures -1 <= i
    ensures i >= 0 ==> from <= i && OccursAt(b, pat, i)
    ensures forall j: nat | from <= j && OccursAt(b, pat, j) :: 0 <= i <= j
    decreases |b| - from
  {
    if |b| < from + |pat| then -1
    else if OccursAt(b, pat, from) then from
    else if from < |b| then Find(b, pat, from + 1)
    else -1
  }

  // ---- the buffer --------------------------------------------------------------------------

  /** _consume_frames: behind the first occurrence of the last frame's bytes. */
  function AfterConsume(buffer: ByteString): ByteString {
    var frames := FramesIn(buffer);
    if frames == [] then buffer
    else
      var raw := frames[|frames| - 1].raw;
      var pos := Find(buffer, raw, 0) + |raw|;
      if pos <= |buffer| then buffer[pos..] else []
  }

  /** The resynchronisation of a buffer that has grown too long. */
  function AfterResync(buffer: ByteString): ByteString {
    if |buffer| > 8192 then
      var next := Find(buffer, PREFIX, 1);
      if next > 0 then buffer[next..] else []
    else buffer
  }

  datatype Stream = Stream(connected: bool, buffer: ByteString, cache: Cache)

  /** One received chunk; the replay transport does the same without resynchronising. */
  function Receive(s: Stream, chunk: ByteString, resync: bool): Stream {
    var buffer := s.buffer + chunk;
    var unread := AfterConsume(buffer);
    s.(buffer := if resync then AfterResync(unread) else unread, cache := Fold(s.cache, FramesIn(buffer)))
  }

  function ReceiveAll(s: Stream, chunks: seq<ByteString>, resync: bool): Stream
    decreases |chunks|
  {
    if chunks == [] then s else ReceiveAll(Receive(s, chunks[0], resync), chunks[1..], resync)
  }

  /** No bytes means that the dongle closed the connection. */
  datatype Recv = Data(bytes: ByteString) | Timeout | SocketError

  /** One turn of the loop; `connects` says whether connecting would succeed, if it is tried. */
  datatype Turn = Turn(connects: bool, recv: Recv)

  function After(s: Stream, t: Turn): Stream {
    if !s.connected && !t.connects then s
    else
      var open := if s.connected then s else s.(connected := true, buffer := []);
      if t.recv.Data? && t.recv.bytes != [] then Receive(open, t.recv.bytes, true)
      else open.(connected := false)
  }

  function AfterAll(s: Stream, turns: seq<Turn>): Stream
    decreases |turns|
  {
    if turns == [] then s else AfterAll(After(s, turns[0]), turns[1..])
  }

  /** Delivers every frame of the buffer and cuts the buffer; passive and replay do this alike. */
  method ConsumeFrames(collector: Collector, buffer: ByteString) returns (unread: ByteString, count: nat)
    modifies collector
    ensures collector.Contents() == Fold(old(collector.Contents()), FramesIn(buffer))
    ensures unread == AfterConsume(buffer)
    ensures count == |FramesIn(buffer)|
  {
    hide FramesIn, Apply;
    var frames := FindFrames(buffer);
    count := |frames|;
    unread := buffer;
    if frames != [] {
      ghost var before := collector.Contents();
      for n := 0 to |frames|
        invariant collector.Contents() == Fold(before, frames[..n])
      {
        collector.HandleFrame(frames[n]);
        FoldAppend(before, frames[..n], [frames[n]]);
        assert frames[..n + 1] == frames[..n] + [frames[n]];
      }
      assert frames[..|frames|] == frames;
      var last := frames[|frames| - 1];
      var lastPos := Find(buffer, last.raw, 0) + |last.raw|;
      unread := if lastPos <= |buffer| then buffer[lastPos..] else [];
    }
  }

  class PassiveTransport {
    const collector: Collector
    var connected: bool
    var buffer: ByteString
    var framesReceived: nat

    constructor (collector: Collector)
      ensures this.collector == collector && !connected && buffer == [] && framesReceived == 0
    {
      this.collector := collector;
      connected, buffer, framesReceived := false, [], 0;
    }

    function State(): Stream
      reads this, collector
    {
      Stream(connected, buffer, collector.Contents())
    }

    /** The receive loop over any run of connection attempts, chunks, closes, timeouts and errors. */
    method Run(turns: seq<Turn>)
      modifies this, collector
      ensures State() == AfterAll(old(State()), turns)
    {
      hide Fold, AfterConsume, FramesIn;
      assert turns[0..] == turns;
      for n := 0 to |turns|
        invariant AfterAll(State(), turns[n..]) == AfterAll(old(State()), turns)
      {
        ghost var before := State();
        assert turns[n..][0] == turns[n] && turns[n..][1..] == turns[n + 1..];
        if !connected {
          if !turns[n].connects {
            continue;
          }
          connected := true;
          buffer := [];
        }
        match turns[n].recv {
          case Data(chunk) =>
            if chunk == [] {
              connected := false;
            } else {
              buffer := buffer + chunk;
              var count;
              buffer, count := ConsumeFrames(collector, buffer);
              framesReceived := framesReceived + count;
              if |buffer| > 8192 {
                var nextA1 := Find(buffer, PREFIX, 1);
                buffer := if nextA1 > 0 then buffer[nextA1..] else [];
              }
            }
          case Timeout =>
            connected := false;
          case SocketError =>
            connected := false;
        }
        assert State() == After(before, turns[n]);
      }
    }
  }

  // ---- what consuming and resynchronising do to any buffer ---------------------------------

  lemma {:induction false} PieceOccurs(d: ByteString, p: ByteString) returns (i: nat)
    requires p in Scan(d)
    ensures OccursAt(d, p, i)
    decreases |d|
  {
    if CompleteAt(d, 0) {
      var t := TotalAt(d, 0);
      if p == d[..t] {
        i := 0;
      } else {
        i := PieceOccurs(d[t..], p);
        assert d[t..][i..i + |p|] == d[t + i..t + i + |p|];
        i := t + i;
      }
    } else {
      i := PieceOccurs(d[1..], p);
      assert d[1..][i..i + |p|] == d[1 + i..1 + i + |p|];
      i := 1 + i;
    }
  }

  lemma LastFrameOccurs(buffer: ByteString) returns (at: nat)
    requires FramesIn(buffer) != []
    ensures OccursAt(buffer, FramesIn(buffer)[|FramesIn(buffer)| - 1].raw, at)
  {
    ParsedFromPieces(Scan(buffer));
    hide Scan, ParseAll, OccursAt, Parse;
    var frames := FramesIn(buffer);
    assert frames[|frames| - 1] in frames;
    at := PieceOccurs(buffer, frames[|frames| - 1].raw);
  }

  lemma OccursIsPrefix(b: ByteString, pat: ByteString, i: nat)
    ensures i <= |b| && pat <= b[i..] <==> OccursAt(b, pat, i)
  {
    if i + |pat| <= |b| {
      assert b[i..][..|pat|] == b[i..i + |pat|];
    }
  }

  /**
   Consuming keeps a buffer without frames.  Otherwise it cuts it right behind the first place
   where the bytes of the last frame stand, which may be the place of an equal frame before it.
   */
  lemma ConsumeMeaning(buffer: ByteString) returns (pos: nat)
    ensures FramesIn(buffer) == [] ==> AfterConsume(buffer) == buffer
    ensures FramesIn(buffer) != [] ==>
              var raw := FramesIn(buffer)[|FramesIn(buffer)| - 1].raw;
              && pos + |raw| <= |buffer| && raw <= buffer[pos..]
              && (forall j | 0 <= j < pos :: !(raw <= buffer[j..]))
              && AfterConsume(buffer) == buffer[pos + |raw|..]
  {
    hide FramesIn, OccursAt;
    pos := 0;
    if FramesIn(buffer) != [] {
      var raw := FramesIn(buffer)[|FramesIn(buffer)| - 1].raw;
      var at := LastFrameOccurs(buffer);
      pos := Find(buffer, raw, 0);
      OccursIsPrefix(buffer, raw, pos);
      forall j | 0 <= j < pos
        ensures !(raw <= buffer[j..])
      {
        OccursIsPrefix(buffer, raw, j);
      }
    }
  }

  /**
   Resynchronising leaves buffers of up to 8192 bytes alone; of a longer one it keeps what begins
   at the first magic behind its first byte, or nothing.
   */
  lemma ResyncMeaning(buffer: ByteString)
    ensures |buffer| <= 8192 ==> AfterResync(buffer) == buffer
    ensures |buffer| > 8192 ==>
              var kept := AfterResync(buffer);
              var cut := |buffer| - |kept|;
              && 1 <= cut && kept == buffer[cut..]
              && (kept != [] ==> |kept| >= 2 && kept[0] == 0xA1 && kept[1] == 0x1A)
              && forall i | 1 <= i < cut && i + 1 < |buffer| :: !(buffer[i] == 0xA1 && buffer[i + 1] == 0x1A)
  {
    if |buffer| > 8192 {
      var kept, next := AfterResync(buffer), Find(buffer, PREFIX, 1);
      if next > 0 {
        assert kept[..2] == buffer[next..next + 2];
        assert kept[0] == kept[..2][0] && kept[1] == kept[..2][1];
      }
      forall i | 1 <= i < |buffer| - |kept| && i + 1 < |buffer|
        ensures !(buffer[i] == 0xA1 && buffer[i + 1] == 0x1A)
      {
        assert buffer[i..i + 2] == [buffer[i], buffer[i + 1]];
        assert !OccursAt(buffer, PREFIX, i);
      }
    }
  }

  /** A turn without a connection changes nothing; bytes are received; anything else ends the connection. */
  lemma TurnMeaning(s: Stream, t: Turn)
    ensures !s.connected && !t.connects ==> After(s, t) == s
    ensures (s.connected || t.connects) && t.recv.Data? && t.recv.bytes != [] ==>
              var buffer := (if s.connected then s.buffer else []) + t.recv.bytes;
              && After(s, t).connected && After(s, t).buffer == AfterResync(AfterConsume(buffer))
              && After(s, t).cache == Fold(s.cache, FramesIn(buffer))
    ensures (s.connected || t.connects) && (t.recv.Data? ==> t.recv.bytes == []) ==>
              !After(s, t).connected && After(s, t).cache == s.cache
  {
    hide Fold, FramesIn, AfterConsume, AfterResync;
  }

  // ---- well-formed streams -----------------------------------------------------------------

  ghost predicate IsStart(frames: seq<ByteString>, p: nat) {
    exists k :: 0 <= k < |frames| && p == |Flatten(frames[..k])|
  }

  /** Well-formed frames in which the magic pair occurs only where a frame starts. */
  ghost predicate GoodStream(frames: seq<ByteString>) {
    && (forall f | f in frames :: WellFormed(f))
    && (forall p: nat | MagicAt(Flatten(frames), p) :: IsStart(frames, p))
  }

  predicate AllShort(frames: seq<ByteString>) {
    forall f | f in frames :: |f| <= 4096
  }

  /** How many frames lie completely in the first n bytes. */
  function Complete(frames: seq<ByteString>, n: nat): (c: nat)
    ensures c <= |frames|
    decreases |frames|
  {
    if frames == [] || n < |frames[0]| then 0 else 1 + Complete(frames[1..], n - |frames[0]|)
  }

  lemma GoodTail(frames: seq<ByteString>)
    requires GoodStream(frames) && frames != []
    ensures GoodStream(frames[1..])
    ensures forall p: nat | 0 < p && MagicAt(Flatten(frames), p) :: |frames[0]| <= p
  {
    assert frames[0] in frames && |frames[0]| >= HEADER_SIZE;
    hide WellFormed;
    var all, tail := Flatten(frames), Flatten(frames[1..]);
    forall p: nat | MagicAt(tail, p)
      ensures IsStart(frames[1..], p)
    {
      assert MagicAt(all, |frames[0]| + p);
      assert IsStart(frames, |frames[0]| + p);
      var k :| 0 <= k < |frames| && |frames[0]| + p == |Flatten(frames[..k])|;
      assert k > 0;
      assert frames[..k][0] == frames[0] && frames[..k][1..] == frames[1..][..k - 1];
      assert p == |Flatten(frames[1..][..k - 1])|;
    }
    forall p: nat | 0 < p && MagicAt(all, p)
      ensures |frames[0]| <= p
    {
      assert IsStart(frames, p);
      var k :| 0 <= k < |frames| && p == |Flatten(frames[..k])|;
      assert frames[..k][0] == frames[0];
    }
  }

  lemma {:induction false} ScanNothing(d: ByteString)
    requires forall i: nat :: !CompleteAt(d, i)
    ensures Scan(d) == []
    decreases |d|
  {
    if |d| >= 2 {
      forall i: nat
        ensures !CompleteAt(d[1..], i)
      {
        SuffixAt(d, 1, i);
      }
      ScanNothing(d[1..]);
    }
  }

  /** The first n bytes of a good stream scan to the frames that are complete in them. */
  lemma {:induction false} ScanPartial(frames: seq<ByteString>, n: nat)
    requires GoodStream(frames) && n <= |Flatten(frames)|
    ensures Scan(Flatten(frames)[..n]) == frames[..Complete(frames, n)]
    decreases |frames|
  {
    if frames == [] {
    } else {
      GoodTail(frames);
      var first, tail := frames[0], Flatten(frames[1..]);
      assert first in frames;
      var d := Flatten(frames)[..n];
      if |first| <= n {
        assert d == first + tail[..n - |first|];
        ScanWellFormed(first, tail[..n - |first|]);
        ScanPartial(frames[1..], n - |first|);
        assert frames[..Complete(frames, n)] == [first] + frames[1..][..Complete(frames[1..], n - |first|)];
      } else {
        assert forall p: nat | 0 < p && MagicAt(first, p) :: MagicAt(Flatten(frames), p);
        NothingComplete(first, d);
        ScanNothing(d);
      }
    }
  }

  /** A strict beginning of one frame without further magic holds no complete frame. */
  lemma NothingComplete(first: ByteString, d: ByteString)
    requires WellFormed(first) && d < first
    requires forall p: nat | 0 < p :: !MagicAt(first, p)
    ensures forall i: nat :: !CompleteAt(d, i)
  {
    forall i: nat
      ensures !CompleteAt(d, i)
    {
      if i == 0 {
        if |d| >= 6 {
          assert TotalAt(d, 0) == TotalAt(first, 0);
        }
      } else if MagicAt(d, i) {
        assert MagicAt(first, i);
      }
    }
  }

  // ---- where the buffer is cut -------------------------------------------------------------

  /** Where frame k starts in the stream. */
  function Offset(frames: seq<ByteString>, k: nat): nat
    requires k <= |frames|
  {
    |Flatten(frames[..k])|
  }

  lemma OffsetNext(frames: seq<ByteString>, k: nat)
    requires k < |frames|
    ensures Offset(frames, k + 1) == Offset(frames, k) + |frames[k]|
  {
    FlattenTake(frames, k);
  }

  lemma {:induction false} OffsetsIncrease(frames: seq<ByteString>, j: nat, k: nat)
    requires j <= k <= |frames| && forall f | f in frames :: |f| > 0
    ensures Offset(frames, j) + (k - j) <= Offset(frames, k)
    decreases k - j
  {
    if j < k {
      OffsetsIncrease(frames, j, k - 1);
      OffsetNext(frames, k - 1);
      assert frames[k - 1] in frames;
    }
  }

  lemma FrameInStream(frames: seq<ByteString>, k: nat)
    requires k < |frames|
    ensures Offset(frames, k) + |frames[k]| <= |Flatten(frames)|
    ensures Flatten(frames)[Offset(frames, k)..Offset(frames, k) + |frames[k]|] == frames[k]
  {
    FlattenSplit(frames, k);
    assert frames[k..][0] == frames[k];
    var a, b := Flatten(frames[..k]), Flatten(frames[k..]);
    assert b == frames[k] + Flatten(frames[k..][1..]);
    assert (a + b)[|a|..|a| + |frames[k]|] == frames[k];
  }

  lemma OffsetAll(frames: seq<ByteString>)
    ensures Offset(frames, |frames|) == |Flatten(frames)|
  {
    assert frames[..|frames|] == frames;
  }

  /** The complete frames end within the n bytes, and the next one does not. */
  lemma {:induction false} CompleteOffset(frames: seq<ByteString>, n: nat)
    ensures var c := Complete(frames, n);
            Offset(frames, c) <= n && (c < |frames| ==> n < Offset(frames, c + 1))
    decreases |frames|
  {
    if frames != [] {
      OffsetNext(frames, 0);
      if |frames[0]| <= n {
        var c := Complete(frames[1..], n - |frames[0]|);
        CompleteOffset(frames[1..], n - |frames[0]|);
        OffsetTail(frames, c + 1);
        if c + 1 < |frames| {
          OffsetTail(frames, c + 2);
        }
      }
    }
  }

  lemma OffsetTail(frames: seq<ByteString>, k: nat)
    requires 1 <= k <= |frames|
    ensures Offset(frames, k) == |frames[0]| + Offset(frames[1..], k - 1)
  {
    assert frames[..k][0] == frames[0] && frames[..k][1..] == frames[1..][..k - 1];
  }

  /** The n bytes received so far without the frames before k. */
  function Unread(frames: seq<ByteString>, k: nat, n: nat): ByteString
    requires k <= |frames| && Offset(frames, k) <= n <= |Flatten(frames)|
  {
    Flatten(frames)[Offset(frames, k)..n]
  }

  lemma OccursIsMagic(b: ByteString, i: nat)
    ensures OccursAt(b, PREFIX, i) <==> MagicAt(b, i)
  {
    if i + 2 <= |b| {
      assert b[i..i + 2] == [b[i], b[i + 1]];
    }
  }

  /** Two frames found at one place of a buffer have one length. */
  lemma SameLength(d: ByteString, p: nat, a: ByteString, b: ByteString)
    requires WellFormed(a) && WellFormed(b)
    requires OccursAt(d, a, p)
    requires p + |b| <= |d| && d[p..p + |b|] == b
    ensures |a| == |b|
  {
    assert a[4] == d[p..p + |a|][4] == d[p + 4] && a[5] == d[p..p + |a|][5] == d[p + 5];
    assert b[4] == d[p..p + |b|][4] == d[p + 4] && b[5] == d[p..p + |b|][5] == d[p + 5];
  }

  lemma OffsetsOrdered(frames: seq<ByteString>, j: nat, k: nat)
    requires GoodStream(frames) && j <= |frames| && k <= |frames|
    ensures Offset(frames, j) < Offset(frames, k) <==> j < k
  {
    assert forall f | f in frames :: |f| > 0;
    hide GoodStream;
    if j <= k {
      OffsetsIncrease(frames, j, k);
    } else {
      OffsetsIncrease(frames, k, j);
    }
  }

  lemma StartOfMagic(frames: seq<ByteString>, p: nat) returns (k: nat)
    requires GoodStream(frames) && MagicAt(Flatten(frames), p)
    ensures k < |frames| && p == Offset(frames, k)
    ensures WellFormed(frames[k])
  {
    hide WellFormed, MagicAt;
    assert IsStart(frames, p);
    k :| 0 <= k < |frames| && p == |Flatten(frames[..k])|;
    assert frames[k] in frames;
  }

  lemma MagicOfStart(frames: seq<ByteString>, k: nat)
    requires GoodStream(frames) && k < |frames|
    ensures MagicAt(Flatten(frames), Offset(frames, k)) && WellFormed(frames[k])
  {
    assert frames[k] in frames;
    assert WellFormed(frames[k]);
    FrameInStream(frames, k);
    var at := Offset(frames, k);
    var f := Flatten(frames)[at..at + |frames[k]|];
    hide GoodStream, Flatten;
    assert f[0] == Flatten(frames)[at] && f[1] == Flatten(frames)[at + 1];
  }

  lemma OccursInPrefix(all: ByteString, n: nat, raw: ByteString, i: nat)
    requires n <= |all|
    ensures OccursAt(all[..n], raw, i) <==> i + |raw| <= n && OccursAt(all, raw, i)
  {
    if i + |raw| <= n {
      assert all[..n][i..i + |raw|] == all[i..i + |raw|];
    }
  }

  lemma MagicOfOccurrence(d: ByteString, raw: ByteString, i: nat)
    requires WellFormed(raw) && OccursAt(d, raw, i)
    ensures MagicAt(d, i)
  {
    assert d[i..i + |raw|][0] == raw[0] && d[i..i + |raw|][1] == raw[1];
  }

  /** Looking for the last complete frame by content finds the start of some complete frame. */
  lemma FindFrameEnd(frames: seq<ByteString>, n: nat) returns (j: nat)
    requires GoodStream(frames) && n <= |Flatten(frames)| && Complete(frames, n) > 0
    ensures 1 <= j <= Complete(frames, n)
    ensures var raw := frames[Complete(frames, n) - 1];
            Find(Flatten(frames)[..n], raw, 0) >= 0
            && Find(Flatten(frames)[..n], raw, 0) + |raw| == Offset(frames, j)
  {
    hide GoodStream, Flatten, OccursAt, WellFormed, MagicAt, Offset;
    var all := Flatten(frames);
    var last := Complete(frames, n) - 1;
    var raw := frames[last];
    CompleteOffset(frames, n);
    OffsetNext(frames, last);
    FrameInStream(frames, last);
    MagicOfStart(frames, last);
    assert OccursAt(all, raw, Offset(frames, last)) by {
      FrameOccurs(all, raw, Offset(frames, last));
    }
    OccursInPrefix(all, n, raw, Offset(frames, last));
    var pos := Find(all[..n], raw, 0);
    OccursInPrefix(all, n, raw, pos);
    MagicOfOccurrence(all, raw, pos);
    var k := StartOfMagic(frames, pos);
    OffsetsOrdered(frames, last, k);
    OffsetNext(frames, k);
    FrameInStream(frames, k);
    SameLength(all, pos, raw, frames[k]);
    j := k + 1;
  }

  lemma FrameOccurs(all: ByteString, raw: ByteString, i: nat)
    requires i + |raw| <= |all| && all[i..i + |raw|] == raw
    ensures OccursAt(all, raw, i)
  {
  }

  lemma {:induction false} ParseAllWellFormed(pieces: seq<ByteString>)
    requires forall p | p in pieces :: WellFormed(p)
    ensures |ParseAll(pieces)| == |pieces|
    ensures forall i | 0 <= i < |pieces| :: ParseAll(pieces)[i].raw == pieces[i]
  {
    if pieces != [] {
      var p := pieces[0];
      assert p in pieces;
      assert p[..2] == [p[0], p[1]];
      hide WellFormed;
      ParseAllWellFormed(pieces[1..]);
    }
  }

  /** After consuming, what is unread starts behind some complete frame. */
  lemma ConsumeCut(frames: seq<ByteString>, n: nat) returns (j: nat)
    requires GoodStream(frames) && n <= |Flatten(frames)|
    ensures j <= Complete(frames, n) && Offset(frames, j) <= n
    ensures AfterConsume(Flatten(frames)[..n]) == Unread(frames, j, n)
    ensures FramesIn(Flatten(frames)[..n]) == ParseAll(frames[..Complete(frames, n)])
  {
    hide Scan, ParseAll, Complete, Flatten, Find, WellFormed, Offset;
    var c := Complete(frames, n);
    ScanPartial(frames, n);
    CompleteOffset(frames, n);
    assert forall p | p in frames[..c] :: p in frames;
    ParseAllWellFormed(frames[..c]);
    hide GoodStream;
    if c == 0 {
      j := 0;
      OffsetZero(frames);
    } else {
      j := FindFrameEnd(frames, n);
      OffsetsOrdered(frames, c, j);
      assert frames[..c][c - 1] == frames[c - 1];
    }
  }

  lemma OffsetZero(frames: seq<ByteString>)
    ensures Offset(frames, 0) == 0
  {
  }

  lemma MagicInSuffix(all: ByteString, from: nat, n: nat, i: nat)
    requires from <= n <= |all|
    ensures MagicAt(all[from..n], i) <==> from + i + 1 < n && MagicAt(all, from + i)
  {
  }

  /** In a buffer that starts with a whole frame, the next magic is where the next frame starts. */
  lemma FindNextFrame(frames: seq<ByteString>, j: nat, n: nat)
    requires GoodStream(frames) && j + 1 < |frames|
    requires Offset(frames, j + 1) + 2 <= n <= |Flatten(frames)| && Offset(frames, j) <= n
    ensures Find(Unread(frames, j, n), PREFIX, 1) == |frames[j]| > 0
  {
    hide GoodStream, Flatten, OccursAt, MagicAt, Offset;
    var all, b := Flatten(frames), Unread(frames, j, n);
    OffsetNext(frames, j);
    MagicOfStart(frames, j);
    MagicOfStart(frames, j + 1);
    MagicInSuffix(all, Offset(frames, j), n, |frames[j]|);
    OccursIsMagic(b, |frames[j]|);
    var next := Find(b, PREFIX, 1);
    OccursIsMagic(b, next);
    MagicInSuffix(all, Offset(frames, j), n, next);
    var i := StartOfMagic(frames, Offset(frames, j) + next);
    OffsetsOrdered(frames, j, i);
    OffsetsOrdered(frames, i, j + 1);
  }

  /** Dropping the front of a long buffer drops exactly one frame, one that was delivered. */
  lemma ResyncCut(frames: seq<ByteString>, j: nat, n: nat) returns (k: nat)
    requires GoodStream(frames) && AllShort(frames)
    requires n <= |Flatten(frames)| && j <= Complete(frames, n) && Offset(frames, j) <= n
    ensures k <= Complete(frames, n) && Offset(frames, k) <= n
    ensures AfterResync(Unread(frames, j, n)) == Unread(frames, k, n)
  {
    var b := Unread(frames, j, n);
    k := j;
    if |b| > 8192 {
      hide GoodStream, Flatten, Offset, Complete;
      CompleteOffset(frames, n);
      OffsetAll(frames);
      k := j + 1;
      OffsetNext(frames, j);
      assert frames[j] in frames;
      FindNextFrame(frames, j, n);
      UnreadNext(frames, j, n);
    }
  }

  lemma UnreadNext(frames: seq<ByteString>, j: nat, n: nat)
    requires j < |frames| && Offset(frames, j) + |frames[j]| <= n <= |Flatten(frames)|
    ensures Offset(frames, j + 1) <= n
    ensures Unread(frames, j, n)[|frames[j]|..] == Unread(frames, j + 1, n)
  {
    OffsetNext(frames, j);
  }

  // ---- confluence --------------------------------------------------------------------------

  /** What the first j frames leave of a good stream is a good stream. */
  lemma {:induction false} DropFrames(frames: seq<ByteString>, j: nat, n: nat)
    requires GoodStream(frames) && j <= |frames| && Offset(frames, j) <= n <= |Flatten(frames)|
    ensures GoodStream(frames[j..])
    ensures n - Offset(frames, j) <= |Flatten(frames[j..])|
    ensures Unread(frames, j, n) == Flatten(frames[j..])[..n - Offset(frames, j)]
    ensures Complete(frames, n) == j + Complete(frames[j..], n - Offset(frames, j))
    decreases j
  {
    if j == 0 {
      assert frames[0..] == frames;
    } else {
      GoodTail(frames);
      OffsetTail(frames, j);
      DropFrames(frames[1..], j - 1, n - |frames[0]|);
      assert frames[1..][j - 1..] == frames[j..];
    }
  }

  /** The cache after the frames that n bytes of the stream complete. */
  function CacheAt(c: Cache, frames: seq<ByteString>, n: nat): Cache {
    Fold(c, ParseAll(frames[..Complete(frames, n)]))
  }

  lemma CacheDrop(c: Cache, frames: seq<ByteString>, j: nat, n: nat)
    requires GoodStream(frames) && j <= |frames| && Offset(frames, j) <= n <= |Flatten(frames)|
    ensures CacheAt(c, frames, n) == CacheAt(Fold(c, ParseAll(frames[..j])), frames[j..], n - Offset(frames, j))
  {
    DropFrames(frames, j, n);
    FoldFrames(c, frames, j, Complete(frames[j..], n - Offset(frames, j)));
    hide Fold, ParseAll, GoodStream, Complete, Offset, Unread, Flatten;
  }

  lemma FoldFrames(c: Cache, frames: seq<ByteString>, j: nat, k: nat)
    requires j + k <= |frames|
    ensures Fold(c, ParseAll(frames[..j + k])) == Fold(Fold(c, ParseAll(frames[..j])), ParseAll(frames[j..][..k]))
  {
    hide *;
    assert frames[..j + k] == frames[..j] + frames[j..][..k];
    ParseAllAppend(frames[..j], frames[j..][..k]);
    FoldAppend(c, ParseAll(frames[..j]), ParseAll(frames[j..][..k]));
  }

  lemma {:induction false} CompleteMonotone(frames: seq<ByteString>, m: nat, n: nat)
    requires m <= n
    ensures Complete(frames, m) <= Complete(frames, n)
    decreases |frames|
  {
    if frames != [] && |frames[0]| <= m {
      CompleteMonotone(frames[1..], m - |frames[0]|, n - |frames[0]|);
    }
  }

  /** Frames delivered before and delivered again now: the cache sees only the new ones. */
  lemma CacheGrows(c: Cache, frames: seq<ByteString>, m: nat, n: nat)
    requires m <= n
    ensures Fold(CacheAt(c, frames, m), ParseAll(frames[..Complete(frames, n)])) == CacheAt(c, frames, n)
  {
    CompleteMonotone(frames, m, n);
    var a, b := Complete(frames, m), Complete(frames, n);
    hide Fold, ParseAll, Complete;
    FoldFrames(CacheAt(c, frames, m), frames[..b], a, b - a);
    FoldFrames(c, frames[..b], a, b - a);
    assert frames[..b][..a] == frames[..a] && frames[..b][..a + (b - a)] == frames[..b];
    FoldTwice(c, ParseAll(frames[..a]));
  }

  /** One chunk: the buffer holds the stream from some delivered frame on, before and after. */
  lemma ReceiveStep(s: Stream, c: Cache, frames: seq<ByteString>, m: nat, chunk: ByteString, resync: bool)
    returns (j: nat)
    requires GoodStream(frames) && (resync ==> AllShort(frames))
    requires m + |chunk| <= |Flatten(frames)|
    requires s.buffer == Flatten(frames)[..m] && chunk == Flatten(frames)[m..m + |chunk|]
    requires s.cache == CacheAt(c, frames, m)
    ensures j <= |frames| && Offset(frames, j) <= m + |chunk|
    ensures Receive(s, chunk, resync)
            == Stream(s.connected, Unread(frames, j, m + |chunk|), CacheAt(c, frames, m + |chunk|))
  {
    var n := m + |chunk|;
    assert s.buffer + chunk == Flatten(frames)[..n];
    hide GoodStream, Flatten, AfterConsume, AfterResync, FramesIn, Complete, Fold, ParseAll, Offset;
    j := ConsumeCut(frames, n);
    if resync {
      j := ResyncCut(frames, j, n);
    }
    CacheGrows(c, frames, m, n);
  }

  /** The buffer and the cache are those of a good stream of which m bytes have come. */
  ghost predicate Follows(s: Stream, c: Cache, frames: seq<ByteString>, m: nat, resync: bool) {
    && GoodStream(frames) && (resync ==> AllShort(frames))
    && m <= |Flatten(frames)|
    && s.buffer == Flatten(frames)[..m]
    && s.cache == CacheAt(c, frames, m)
  }

  /** One chunk, seen from the first frame that is still in the buffer afterwards. */
  lemma FollowsStep(s: Stream, c: Cache, frames: seq<ByteString>, m: nat, chunk: ByteString, later: ByteString,
                    resync: bool)
    returns (c': Cache, rest: seq<ByteString>, n: nat)
    requires Follows(s, c, frames, m, resync)
    requires m + |chunk| + |later| <= |Flatten(frames)|
    requires chunk == Flatten(frames)[m..m + |chunk|] && later <= Flatten(frames)[m + |chunk|..]
    ensures Follows(Receive(s, chunk, resync), c', rest, n, resync)
    ensures later <= Flatten(rest)[n..]
    ensures CacheAt(c, frames, m + |chunk| + |later|) == CacheAt(c', rest, n + |later|)
  {
    hide GoodStream, Receive, Fold, ParseAll, Complete, Offset, Flatten, CacheAt;
    var t := m + |chunk|;
    var j := ReceiveStep(s, c, frames, m, chunk, resync);
    DropFrames(frames, j, t);
    CacheDrop(c, frames, j, t);
    CacheDrop(c, frames, j, t + |later|);
    FlattenDrop(frames, j, t);
    c', rest, n := Fold(c, ParseAll(frames[..j])), frames[j..], t - Offset(frames, j);
    assert forall f | f in rest :: f in frames;
  }

  /**
   However a good stream is cut into chunks, after every chunk the cache is what the frames
   received completely so far make of it, each once and in order, although frames are
   delivered again and the front of the buffer is dropped.
   */
  lemma {:induction false} ChunksConfluent(s: Stream, c: Cache, frames: seq<ByteString>, m: nat,
                                           chunks: seq<ByteString>, resync: bool)
    requires Follows(s, c, frames, m, resync)
    requires Flatten(chunks) <= Flatten(frames)[m..]
    ensures ReceiveAll(s, chunks, resync).cache == CacheAt(c, frames, m + |Flatten(chunks)|)
    decreases |chunks|
  {
    hide *;
    FollowsFacts(s, c, frames, m, resync);
    if chunks == [] {
      ReceiveNone(s, resync);
    } else {
      FirstChunk(Flatten(frames), m, chunks);
      ReceiveFirst(s, chunks, resync);
      var c', rest, n := FollowsStep(s, c, frames, m, chunks[0], Flatten(chunks[1..]), resync);
      ChunksConfluent(Receive(s, chunks[0], resync), c', rest, n, chunks[1..], resync);
    }
  }

  lemma FollowsFacts(s: Stream, c: Cache, frames: seq<ByteString>, m: nat, resync: bool)
    requires Follows(s, c, frames, m, resync)
    ensures m <= |Flatten(frames)| && s.cache == CacheAt(c, frames, m)
  {
  }

  lemma ReceiveNone(s: Stream, resync: bool)
    ensures ReceiveAll(s, [], resync) == s && Flatten<byte>([]) == []
  {
  }

  lemma ReceiveFirst(s: Stream, chunks: seq<ByteString>, resync: bool)
    requires chunks != []
    ensures ReceiveAll(s, chunks, resync) == ReceiveAll(Receive(s, chunks[0], resync), chunks[1..], resync)
  {
    hide Receive;
  }

  lemma FirstChunk(all: ByteString, m: nat, chunks: seq<ByteString>)
    requires m <= |all| && chunks != [] && Flatten(chunks) <= all[m..]
    ensures var n := m + |chunks[0]|;
            && n + |Flatten(chunks[1..])| == m + |Flatten(chunks)| <= |all|
            && chunks[0] == all[m..n] && Flatten(chunks[1..]) <= all[n..]
  {
    var chunk, later := chunks[0], Flatten(chunks[1..]);
    var n := m + |chunk|;
    assert Flatten(chunks) == chunk + later;
    hide Flatten;
    assert chunk == (chunk + later)[..|chunk|] == all[m..][..|chunk|] == all[m..n];
    assert later == (chunk + later)[|chunk|..] == all[m..][|chunk|..|chunk| + |later|] == all[n..][..|later|];
  }

  lemma FlattenDrop(frames: seq<ByteString>, j: nat, n: nat)
    requires j <= |frames| && Offset(frames, j) <= n <= |Flatten(frames)|
    ensures n - Offset(frames, j) <= |Flatten(frames[j..])|
    ensures Flatten(frames[j..])[n - Offset(frames, j)..] == Flatten(frames)[n..]
  {
    FlattenSplit(frames, j);
  }

  // ---- whole runs --------------------------------------------------------------------------

  /** Some failed connection attempts, then a connection that carries the chunks until it ends. */
  datatype Session = Session(failures: nat, frames: seq<ByteString>, chunks: seq<ByteString>, ending: Recv)

  ghost predicate GoodSession(s: Session) {
    && GoodStream(s.frames) && AllShort(s.frames)
    && Flatten(s.chunks) <= Flatten(s.frames)
    && (forall c | c in s.chunks :: c != [])
    && (s.ending.Data? ==> s.ending.bytes == [])
  }

  function DataTurns(chunks: seq<ByteString>): seq<Turn> {
    if chunks == [] then [] else [Turn(true, Recv.Data(chunks[0]))] + DataTurns(chunks[1..])
  }

  function FailedTurns(n: nat): seq<Turn> {
    if n == 0 then [] else [Turn(false, Recv.Timeout)] + FailedTurns(n - 1)
  }

  function TurnsOf(s: Session): seq<Turn> {
    FailedTurns(s.failures) + DataTurns(s.chunks) + [Turn(true, s.ending)]
  }

  function AllTurns(sessions: seq<Session>): seq<Turn> {
    if sessions == [] then [] else TurnsOf(sessions[0]) + AllTurns(sessions[1..])
  }

  /** Each session adds the frames that it completed. */
  function CacheAfter(c: Cache, sessions: seq<Session>): Cache
    decreases |sessions|
  {
    if sessions == [] then c
    else CacheAfter(CacheAt(c, sessions[0].frames, |Flatten(sessions[0].chunks)|), sessions[1..])
  }

  lemma {:induction false} AfterAllAppend(s: Stream, a: seq<Turn>, b: seq<Turn>)
    ensures AfterAll(s, a + b) == AfterAll(AfterAll(s, a), b)
    decreases |a|
  {
    hide After;
    if a == [] {
      assert a + b == b;
    } else {
      assert (a + b)[0] == a[0] && (a + b)[1..] == a[1..] + b;
      AfterAllAppend(After(s, a[0]), a[1..], b);
    }
  }

  lemma {:induction false} AfterFailures(s: Stream, n: nat)
    requires !s.connected
    ensures AfterAll(s, FailedTurns(n)) == s
  {
    if n > 0 {
      assert FailedTurns(n)[1..] == FailedTurns(n - 1);
      AfterFailures(s, n - 1);
    }
  }

  lemma {:induction false} AfterData(s: Stream, chunks: seq<ByteString>)
    requires s.connected && forall c | c in chunks :: c != []
    ensures AfterAll(s, DataTurns(chunks)) == ReceiveAll(s, chunks, true)
    ensures ReceiveAll(s, chunks, true).connected
    decreases |chunks|
  {
    hide AfterConsume, AfterResync, Fold, FramesIn;
    if chunks != [] {
      assert chunks[0] in chunks && forall c | c in chunks[1..] :: c in chunks;
      assert DataTurns(chunks)[1..] == DataTurns(chunks[1..]);
      assert After(s, DataTurns(chunks)[0]) == Receive(s, chunks[0], true);
      AfterData(Receive(s, chunks[0], true), chunks[1..]);
    }
  }

  /** Connecting first makes no difference to a run whose first turn connects. */
  lemma AfterOpening(s: Stream, turns: seq<Turn>)
    requires !s.connected && turns != [] && turns[0].connects
    ensures AfterAll(s, turns) == AfterAll(s.(connected := true, buffer := []), turns)
  {
    hide Receive;
  }

  lemma OneSession(s: Stream, session: Session)
    requires !s.connected && GoodSession(session)
    ensures !AfterAll(s, TurnsOf(session)).connected
    ensures AfterAll(s, TurnsOf(session)).cache == CacheAt(s.cache, session.frames, |Flatten(session.chunks)|)
  {
    var data, last := DataTurns(session.chunks), [Turn(true, session.ending)];
    var open := s.(connected := true, buffer := []);
    hide Fold, ParseAll, Receive;
    assert TurnsOf(session) == FailedTurns(session.failures) + (data + last);
    AfterAllAppend(s, FailedTurns(session.failures), data + last);
    AfterFailures(s, session.failures);
    AfterOpening(s, data + last);
    AfterAllAppend(open, data, last);
    AfterData(open, session.chunks);
    NothingReceived(open, s.cache, session.frames);
    ChunksConfluent(open, s.cache, session.frames, 0, session.chunks, true);
    AfterEnding(ReceiveAll(open, session.chunks, true), session.ending);
  }

  lemma AfterEnding(s: Stream, ending: Recv)
    requires s.connected && (ending.Data? ==> ending.bytes == [])
    ensures AfterAll(s, [Turn(true, ending)]) == s.(connected := false)
  {
    hide Receive;
    assert [Turn(true, ending)][1..] == [];
  }

  lemma NothingReceived(s: Stream, c: Cache, frames: seq<ByteString>)
    requires GoodStream(frames) && s.buffer == [] && s.cache == c
    ensures AllShort(frames) ==> Follows(s, c, frames, 0, true)
    ensures Follows(s, c, frames, 0, false)
    ensures Flatten(frames)[0..] == Flatten(frames)
  {
    assert Complete(frames, 0) == 0 by {
      if frames != [] {
        assert frames[0] in frames;
      }
    }
  }

  /**
   Every run of good sessions, however their streams are cut, wherever they break off and
   whatever fails in between, leaves the cache that results from handling each frame that
   arrived completely once, in order.
   */
  lemma {:induction false} RunConfluent(s: Stream, sessions: seq<Session>)
    requires !s.connected && forall x | x in sessions :: GoodSession(x)
    ensures AfterAll(s, AllTurns(sessions)).cache == CacheAfter(s.cache, sessions)
    decreases |sessions|
  {
    hide GoodSession, CacheAt, TurnsOf;
    if sessions != [] {
      assert sessions[0] in sessions;
      OneSession(s, sessions[0]);
      AfterAllAppend(s, TurnsOf(sessions[0]), AllTurns(sessions[1..]));
      RunConfluent(AfterAll(s, TurnsOf(sessions[0])), sessions[1..]);
    }
  }

  // ---- the registers after a run -----------------------------------------------------------

  /** The frames that arrived completely in a run, in order. */
  function Arrived(sessions: seq<Session>): seq<ByteString> {
    if sessions == [] then []
    else sessions[0].frames[..Complete(sessions[0].frames, |Flatten(sessions[0].chunks)|)] + Arrived(sessions[1..])
  }

  lemma {:induction false} CacheOfArrived(c: Cache, sessions: seq<Session>)
    ensures CacheAfter(c, sessions) == Fold(c, ParseAll(Arrived(sessions)))
    decreases |sessions|
  {
    hide Fold, ParseAll, Complete, Flatten;
    if sessions == [] {
      NothingFolded(c);
    } else {
      var n := |Flatten(sessions[0].chunks)|;
      var first, later := sessions[0].frames[..Complete(sessions[0].frames, n)], Arrived(sessions[1..]);
      CacheOfArrived(CacheAt(c, sessions[0].frames, n), sessions[1..]);
      ParseAllAppend(first, later);
      FoldAppend(c, ParseAll(first), ParseAll(later));
    }
  }

  lemma NothingFolded(c: Cache)
    ensures Fold(c, ParseAll([])) == c
  {
  }

  lemma {:induction false} ArrivedWellFormed(sessions: seq<Session>)
    requires forall x | x in sessions :: GoodSession(x)
    ensures forall p | p in Arrived(sessions) :: WellFormed(p)
    decreases |sessions|
  {
    hide Complete, WellFormed, Flatten;
    if sessions != [] {
      assert sessions[0] in sessions && forall x | x in sessions[1..] :: x in sessions;
      ArrivedWellFormed(sessions[1..]);
    }
  }

  /** The frame is a reply to a read with this function, and its two bytes for the register hold the value. */
  predicate Carries(raw: ByteString, fn: byte, r: nat, value: u16) {
    && |raw| >= 35 && raw[7] == 0xC2 && raw[21] == fn
    && var i := r - (raw[32] as int + 256 * raw[33] as int);
       0 <= i && 38 + 2 * i < |raw| && value as int == raw[35 + 2 * i] as int + 256 * raw[36 + 2 * i] as int
  }

  lemma CarriedValue(raw: ByteString, r: nat)
    requires WellFormed(raw) && Parse(raw).Some?
    ensures var f := Parse(raw).value;
      && (ReportsInput(f, r) ==> Carries(raw, 4, r, f.values[r - f.register]))
      && (ReportsHold(f, r) ==> Carries(raw, 3, r, f.values[r - f.register]))
  {
    ParsedHeader(raw);
    hide Parse;
    if |raw| >= 22 && raw[7] == 0xC2 {
      ParsedError(raw);
      if raw[21] < 128 {
        ParsedValues(raw);
      }
    }
  }

  lemma OneParsed(pieces: seq<ByteString>, k: nat)
    requires (forall p | p in pieces :: WellFormed(p)) && k < |pieces|
    ensures k < |ParseAll(pieces)| && Parse(pieces[k]) == Some(ParseAll(pieces)[k])
  {
    ParseAllWellFormed(pieces);
    ParsedFromPieces(pieces);
    hide ParseAll, Parse;
    assert ParseAll(pieces)[k] in ParseAll(pieces);
  }

  /** Folding well-formed frames leaves in each register the bytes of the last frame that reports it. */
  lemma FoldedBytes(c: Cache, pieces: seq<ByteString>, r: nat, k: nat)
    requires (forall p | p in pieces :: WellFormed(p)) && k < |pieces|
    ensures var d := Fold(c, ParseAll(pieces));
      && (LastInput(ParseAll(pieces), r, k) ==> r in d.input && Carries(pieces[k], 4, r, d.input[r]))
      && (LastHold(ParseAll(pieces), r, k) ==> r in d.hold && Carries(pieces[k], 3, r, d.hold[r]))
  {
    hide *;
    OneParsed(pieces, k);
    CarriedValue(pieces[k], r);
    var frames := ParseAll(pieces);
    if LastInput(frames, r, k) {
      InputMeaning(c, frames, r, k);
      LastReports(frames, r, k);
    }
    if LastHold(frames, r, k) {
      HoldMeaning(c, frames, r, k);
      LastReports(frames, r, k);
    }
  }

  lemma LastReports(frames: seq<LuxFrame>, r: nat, k: nat)
    requires LastInput(frames, r, k) || LastHold(frames, r, k)
    ensures LastInput(frames, r, k) ==> k < |frames| && ReportsInput(frames[k], r)
    ensures LastHold(frames, r, k) ==> k < |frames| && ReportsHold(frames[k], r)
  {
  }

  /**
   The answer of a run of good sessions, byte by byte: each register holds the two bytes that the
   last frame to report it carries for it.  Here k is the position of that frame among those that
   arrived completely.
   */
  lemma RegistersAfterRun(s: Stream, sessions: seq<Session>, r: nat, k: nat)
    requires !s.connected && forall x | x in sessions :: GoodSession(x)
    requires k < |Arrived(sessions)|
    ensures var cache, frames := AfterAll(s, AllTurns(sessions)).cache, ParseAll(Arrived(sessions));
      && (LastInput(frames, r, k) ==> r in cache.input && Carries(Arrived(sessions)[k], 4, r, cache.input[r]))
      && (LastHold(frames, r, k) ==> r in cache.hold && Carries(Arrived(sessions)[k], 3, r, cache.hold[r]))
  {
    ArrivedWellFormed(sessions);
    hide *;
    RunConfluent(s, sessions);
    CacheOfArrived(s.cache, sessions);
    FoldedBytes(s.cache, Arrived(sessions), r, k);
  }

  /** A register that no frame of the run reports is as before. */
  lemma UnreportedAfterRun(s: Stream, sessions: seq<Session>, r: nat)
    requires !s.connected && forall x | x in sessions :: GoodSession(x)
    ensures var cache, frames := AfterAll(s, AllTurns(sessions)).cache, ParseAll(Arrived(sessions));
      && ((forall k | 0 <= k < |frames| :: !ReportsInput(frames[k], r)) ==>
            (r in cache.input <==> r in s.cache.input) && (r in s.cache.input ==> cache.input[r] == s.cache.input[r]))
      && ((forall k | 0 <= k < |frames| :: !ReportsHold(frames[k], r)) ==>
            (r in cache.hold <==> r in s.cache.hold) && (r in s.cache.hold ==> cache.hold[r] == s.cache.hold[r]))
  {
    hide *;
    var frames := ParseAll(Arrived(sessions));
    RunConfluent(s, sessions);
    CacheOfArrived(s.cache, sessions);
    if forall k | 0 <= k < |frames| :: !ReportsInput(frames[k], r) {
      NoInput(s.cache, frames, r);
    }
    if forall k | 0 <= k < |frames| :: !ReportsHold(frames[k], r) {
      NoHold(s.cache, frames, r);
    }
  }

  // ---- replay ------------------------------------------------------------------------------

  /** The file in pieces of `size` bytes, the last one possibly shorter. */
  function Chunks(data: ByteString, size: nat): seq<ByteString>
    requires size > 0
    decreases |data|
  {
    if |data| <= size then (if data == [] then [] else [data])
    else [data[..size]] + Chunks(data[size..], size)
  }

  lemma {:induction false} FlattenChunks(data: ByteString, size: nat)
    requires size > 0
    ensures Flatten(Chunks(data, size)) == data
    decreases |data|
  {
    if |data| > size {
      FlattenChunks(data[size..], size);
    } else if data != [] {
      assert Flatten([data]) == data;
    }
  }

  /** Feeds a recorded file to the collector. */
  method Replay(collector: Collector, data: ByteString, chunkSize: nat)
    requires chunkSize > 0
    modifies collector
    ensures collector.Contents()
            == ReceiveAll(Stream(true, [], old(collector.Contents())), Chunks(data, chunkSize), false).cache
  {
    hide AfterConsume, Fold, FramesIn;
    var buffer: ByteString := [];
    var offset := 0;
    ghost var first := Stream(true, [], collector.Contents());
    assert data[0..] == data;
    while offset < |data|
      invariant ReceiveAll(Stream(true, buffer, collector.Contents()),
                           Chunks(if offset <= |data| then data[offset..] else [], chunkSize), false)
                == ReceiveAll(first, Chunks(data, chunkSize), false)
      decreases |data| - offset
    {
      var end := if offset + chunkSize <= |data| then offset + chunkSize else |data|;
      ReplayStep(data, offset, chunkSize);
      ReceiveFirst(Stream(true, buffer, collector.Contents()), Chunks(data[offset..], chunkSize), false);
      buffer := buffer + data[offset..end];
      var count;
      buffer, count := ConsumeFrames(collector, buffer);
      offset := offset + chunkSize;
    }
  }

  lemma ReplayStep(data: ByteString, offset: nat, size: nat)
    requires size > 0 && offset < |data|
    ensures var end := if offset + size <= |data| then offset + size else |data|;
            var chunks := Chunks(data[offset..], size);
            && chunks != [] && chunks[0] == data[offset..end]
            && chunks[1..] == Chunks(if offset + size <= |data| then data[offset + size..] else [], size)
  {
    if offset + size <= |data| {
      assert data[offset..][..size] == data[offset..offset + size];
      assert data[offset..][size..] == data[offset + size..];
    }
  }

  /** Replaying a recording of a good stream has the effect of its frames, whatever the chunk size. */
  lemma ReplayConfluent(c: Cache, frames: seq<ByteString>, size: nat)
    requires GoodStream(frames) && size > 0
    ensures ReceiveAll(Stream(true, [], c), Chunks(Flatten(frames), size), false).cache == Fold(c, ParseAll(frames))
  {
    hide *;
    var all := Flatten(frames);
    FlattenChunks(all, size);
    NothingReceived(Stream(true, [], c), c, frames);
    ChunksConfluent(Stream(true, [], c), c, frames, 0, Chunks(all, size), false);
    CacheAtEnd(c, frames);
  }

  lemma CacheAtEnd(c: Cache, frames: seq<ByteString>)
    ensures CacheAt(c, frames, |Flatten(frames)|) == Fold(c, ParseAll(frames))
  {
    AllComplete(frames);
    assert frames[..|frames|] == frames;
  }

  lemma {:induction false} AllComplete(frames: seq<ByteString>)
    ensures Complete(frames, |Flatten(frames)|) == |frames|
  {
    if frames != [] {
      AllComplete(frames[1..]);
    }
  }
}
