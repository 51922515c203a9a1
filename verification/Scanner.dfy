/**
 The two stream scanners.  `Scan` is what find_frames recovers: it skips bytes, also inside a
 frame that is not complete yet.  `WaitScan` is what the capture decoder's find_packets recovers:
 it waits at a frame that is not complete yet.
 */
module Scanner {
  import opened Wrappers
  import opened Bytes
  import opened Crc
  import opened Frames
  import opened Packets

  predicate MagicAt(d: ByteString, i: nat) {
    i + 1 < |d| && d[i] == PREFIX[0] && d[i + 1] == PREFIX[1]
  }

  /** The whole length that the frame at i declares. */
  function TotalAt(d: ByteString, i: nat): (t: nat)
    requires i + 6 <= |d|
    ensures t >= 6
  {
    6 + ReadU16(d, i + 4)
  }

  predicate CompleteAt(d: ByteString, i: nat) {
    MagicAt(d, i) && i + 6 <= |d| && i + TotalAt(d, i) <= |d|
  }

  /** A complete frame, in its bytes: the magic, and no more bytes declared than there are. */
  lemma CompleteAtBytes(d: ByteString, i: nat)
    ensures CompleteAt(d, i) <==>
              && i + 6 <= |d| && d[i] == 0xA1 && d[i + 1] == 0x1A
              && i + 6 + d[i + 4] as int + 256 * d[i + 5] as int <= |d|
    ensures CompleteAt(d, i) ==> TotalAt(d, i) == 6 + d[i + 4] as int + 256 * d[i + 5] as int
  {
  }

  function Scan(d: ByteString): seq<ByteString>
    decreases |d|
  {
    if |d| < 2 then []
    else if CompleteAt(d, 0) then [d[..TotalAt(d, 0)]] + Scan(d[TotalAt(d, 0)..])
    else Scan(d[1..])
  }

  function ParseAll(pieces: seq<ByteString>): seq<LuxFrame> {
    if pieces == [] then []
    else (match Parse(pieces[0]) case Some(f) => [f] case None => []) + ParseAll(pieces[1..])
  }

  /** The frames find_frames returns. */
  function FramesIn(d: ByteString): seq<LuxFrame> { ParseAll(Scan(d)) }

  lemma SuffixAt(d: ByteString, i: nat, p: nat)
    requires i <= |d|
    ensures MagicAt(d[i..], p) <==> MagicAt(d, i + p)
    ensures i + p + 6 <= |d| ==> TotalAt(d[i..], p) == TotalAt(d, i + p)
    ensures CompleteAt(d[i..], p) <==> CompleteAt(d, i + p)
  {
    if i + p + 6 <= |d| {
      assert d[i..][p + 4] == d[i + p + 4] && d[i..][p + 5] == d[i + p + 5];
    }
  }

  /** One step of the scan at position i. */
  lemma ScanStep(d: ByteString, i: nat)
    requires i + 2 <= |d|
    ensures CompleteAt(d, i) ==>
              var e := i + TotalAt(d, i);
              Scan(d[i..]) == [d[i..e]] + Scan(d[e..]) && FramesIn(d[i..]) == ParseAll([d[i..e]]) + FramesIn(d[e..])
    ensures !CompleteAt(d, i) ==> Scan(d[i..]) == Scan(d[i + 1..])
  {
    SuffixAt(d, i, 0);
    if CompleteAt(d, i) {
      var t := TotalAt(d, i);
      assert d[i..][t..] == d[i + t..] && d[i..][..t] == d[i..i + t];
      ParseAllAppend([d[i..i + t]], Scan(d[i + t..]));
    } else {
      assert d[i..][1..] == d[i + 1..];
    }
  }

  lemma {:induction false} ParseAllAppend(a: seq<ByteString>, b: seq<ByteString>)
    ensures ParseAll(a + b) == ParseAll(a) + ParseAll(b)
  {
    hide Parse;
    if a == [] {
      assert a + b == b;
    } else {
      assert (a + b)[0] == a[0] && (a + b)[1..] == a[1..] + b;
      ParseAllAppend(a[1..], b);
    }
  }

  lemma ParseAllOne(piece: ByteString)
    ensures ParseAll([piece]) == match Parse(piece) case Some(f) => [f] case None => []
  {
    hide Parse;
  }

  /** Terminates on every buffer and never reads out of range. */
  method FindFrames(data: ByteString) returns (frames: seq<LuxFrame>)
    ensures frames == FramesIn(data)
  {
    hide Scan, Parse, ParseAll;
    frames := [];
    var i := 0;
    assert data[0..] == data;
    while i < |data| - 1
      invariant i <= |data|
      invariant FramesIn(data) == frames + FramesIn(data[i..])
      decreases |data| - i
    {
      ScanStep(data, i);
      if data[i] == PREFIX[0] && data[i + 1] == PREFIX[1] {
        if i + 6 <= |data| {
          var frameLen := ReadU16(data, i + 4);
          var total: nat := 6 + frameLen as int;
          if i + total <= |data| {
            var frame := ParseFrame(data[i..i + total]);
            ParseAllOne(data[i..i + total]);
            if frame.Some? {
              frames := frames + [frame.value];
            }
            i := i + total;
            continue;
          }
        }
      }
      i := i + 1;
    }
    EmptyScan(data[i..]);
  }

  lemma EmptyScan(d: ByteString)
    requires |d| < 2
    ensures Scan(d) == [] && FramesIn(d) == []
  {
  }

  // ---- what find_frames recovers, without the loop -----------------------------------------

  datatype Span = Span(lo: nat, hi: nat)

  function Pieces(d: ByteString, spans: seq<Span>): seq<ByteString> {
    if spans == [] then [] else [Piece(d, spans[0])] + Pieces(d, spans[1..])
  }

  function Piece(d: ByteString, s: Span): ByteString {
    if s.lo <= s.hi <= |d| then d[s.lo..s.hi] else []
  }

  predicate IsFrame(d: ByteString, s: Span) {
    CompleteAt(d, s.lo) && s.hi == s.lo + TotalAt(d, s.lo)
  }

  predicate AllFrames(d: ByteString, from: nat, spans: seq<Span>) {
    forall k | 0 <= k < |spans| :: IsFrame(d, spans[k]) && from <= spans[k].lo
  }

  predicate InOrder(spans: seq<Span>) {
    forall j, k | 0 <= j < k < |spans| :: spans[j].hi <= spans[k].lo
  }

  ghost predicate Covered(spans: seq<Span>, p: nat) {
    exists k :: 0 <= k < |spans| && spans[k].lo <= p < spans[k].hi
  }

  ghost predicate CoversAll(d: ByteString, from: nat, spans: seq<Span>) {
    forall p: nat | from <= p && CompleteAt(d, p) :: Covered(spans, p)
  }

  /**
   The spans are complete frames, in order and disjoint, and every position from `from` on where
   a complete frame starts lies inside one of them.
   */
  ghost predicate Tiles(d: ByteString, from: nat, spans: seq<Span>) {
    AllFrames(d, from, spans) && InOrder(spans) && CoversAll(d, from, spans)
  }

  lemma FirstSpan(d: ByteString, from: nat, spans: seq<Span>)
    requires Tiles(d, from, spans) && CompleteAt(d, from)
    ensures spans != [] && spans[0] == Span(from, from + TotalAt(d, from))
  {
    hide CompleteAt, TotalAt;
    assert Covered(spans, from);
    var k :| 0 <= k < |spans| && spans[k].lo <= from < spans[k].hi;
    assert IsFrame(d, spans[0]);
    assert k == 0;
  }

  lemma CoveredByOthers(spans: seq<Span>, p: nat)
    requires spans != [] && spans[0].hi <= p && Covered(spans, p)
    ensures Covered(spans[1..], p)
  {
    var j :| 0 <= j < |spans| && spans[j].lo <= p < spans[j].hi;
    assert spans[1..][j - 1] == spans[j];
  }

  lemma CoveredByMore(first: Span, rest: seq<Span>, p: nat)
    requires (first.lo <= p < first.hi) || Covered(rest, p)
    ensures Covered([first] + rest, p)
  {
    if first.lo <= p < first.hi {
      assert ([first] + rest)[0] == first;
    } else {
      var j :| 0 <= j < |rest| && rest[j].lo <= p < rest[j].hi;
      assert ([first] + rest)[j + 1] == rest[j];
    }
  }

  lemma OthersAreFrames(d: ByteString, from: nat, spans: seq<Span>)
    requires spans != [] && AllFrames(d, from, spans) && InOrder(spans)
    ensures AllFrames(d, spans[0].hi, spans[1..]) && InOrder(spans[1..])
  {
    hide IsFrame;
    assert forall k | 0 <= k < |spans| - 1 :: spans[1..][k] == spans[k + 1];
  }

  lemma OtherSpans(d: ByteString, from: nat, spans: seq<Span>)
    requires spans != [] && Tiles(d, from, spans)
    ensures Tiles(d, spans[0].hi, spans[1..])
  {
    OthersAreFrames(d, from, spans);
    assert IsFrame(d, spans[0]) && from <= spans[0].hi;
    hide CompleteAt, TotalAt, AllFrames, InOrder, Covered;
    forall p: nat | spans[0].hi <= p && CompleteAt(d, p)
      ensures Covered(spans[1..], p)
    {
      CoveredByOthers(spans, p);
    }
  }

  lemma SkipPosition(d: ByteString, from: nat, spans: seq<Span>)
    requires Tiles(d, from, spans) && !CompleteAt(d, from)
    ensures Tiles(d, from + 1, spans)
  {
    hide CompleteAt, TotalAt, Covered;
    assert forall k | 0 <= k < |spans| :: IsFrame(d, spans[k]) && from + 1 <= spans[k].lo;
  }

  lemma RoomForSpan(d: ByteString, from: nat, spans: seq<Span>)
    requires spans != [] && Tiles(d, from, spans)
    ensures from + 2 <= |d|
  {
    assert IsFrame(d, spans[0]);
  }

  /** Any such tiling is what find_frames recovers, so there is only one. */
  lemma {:induction false} TilingIsScan(d: ByteString, from: nat, spans: seq<Span>)
    requires from <= |d| && Tiles(d, from, spans)
    ensures Pieces(d, spans) == Scan(d[from..])
    decreases |d| - from
  {
    if |d| - from < 2 {
      EmptyScan(d[from..]);
      if spans != [] {
        RoomForSpan(d, from, spans);
      }
    } else {
      ScanStep(d, from);
      hide Scan, Tiles;
      if CompleteAt(d, from) {
        FirstSpan(d, from, spans);
        OtherSpans(d, from, spans);
        TilingIsScan(d, spans[0].hi, spans[1..]);
      } else {
        SkipPosition(d, from, spans);
        TilingIsScan(d, from + 1, spans);
      }
    }
  }

  lemma FramesWithFirst(d: ByteString, from: nat, first: Span, rest: seq<Span>)
    requires IsFrame(d, first) && first.lo == from && AllFrames(d, first.hi, rest) && InOrder(rest)
    ensures AllFrames(d, from, [first] + rest) && InOrder([first] + rest)
  {
    assert from <= first.hi;
    hide IsFrame;
    assert forall k | 0 < k <= |rest| :: ([first] + rest)[k] == rest[k - 1];
  }

  lemma AddSpan(d: ByteString, from: nat, rest: seq<Span>)
    requires CompleteAt(d, from) && Tiles(d, from + TotalAt(d, from), rest)
    ensures Tiles(d, from, [Span(from, from + TotalAt(d, from))] + rest)
  {
    var first := Span(from, from + TotalAt(d, from));
    assert IsFrame(d, first);
    hide CompleteAt, TotalAt, Covered, IsFrame, AllFrames, InOrder;
    var spans := [first] + rest;
    FramesWithFirst(d, from, first, rest);
    forall p: nat | from <= p && CompleteAt(d, p)
      ensures Covered(spans, p)
    {
      CoveredByMore(first, rest, p);
    }
  }

  lemma KeepSpans(d: ByteString, from: nat, spans: seq<Span>)
    requires !CompleteAt(d, from) && Tiles(d, from + 1, spans)
    ensures Tiles(d, from, spans)
  {
    hide CompleteAt, TotalAt, Covered;
    assert forall k | 0 <= k < |spans| :: IsFrame(d, spans[k]) && from <= spans[k].lo;
  }

  /** And there always is one. */
  lemma {:induction false} ScanTiles(d: ByteString, from: nat) returns (spans: seq<Span>)
    requires from <= |d|
    ensures Tiles(d, from, spans)
    decreases |d| - from
  {
    if |d| - from < 2 {
      spans := [];
    } else {
      hide Tiles;
      if CompleteAt(d, from) {
        spans := ScanTiles(d, from + TotalAt(d, from));
        AddSpan(d, from, spans);
        spans := [Span(from, from + TotalAt(d, from))] + spans;
      } else {
        spans := ScanTiles(d, from + 1);
        KeepSpans(d, from, spans);
      }
    }
  }

  /** A list of byte strings is what find_frames recovers exactly when some tiling cuts it out. */
  lemma ScanIffTiling(d: ByteString, pieces: seq<ByteString>)
    ensures pieces == Scan(d) <==> exists spans :: Tiles(d, 0, spans) && Pieces(d, spans) == pieces
  {
    assert d[0..] == d;
    var found := ScanTiles(d, 0);
    TilingIsScan(d, 0, found);
    forall spans | Tiles(d, 0, spans)
      ensures Pieces(d, spans) == Scan(d)
    {
      TilingIsScan(d, 0, spans);
    }
  }

  // ---- the waiting scanner -----------------------------------------------------------------

  function WaitScan(d: ByteString): seq<ByteString>
    decreases |d|
  {
    if |d| < 6 then []
    else if MagicAt(d, 0) then
      if TotalAt(d, 0) <= |d| then [d[..TotalAt(d, 0)]] + WaitScan(d[TotalAt(d, 0)..]) else []
    else WaitScan(d[1..])
  }

  /** What is left behind the last packet. */
  function Rest(d: ByteString): (r: ByteString)
    ensures |r| <= |d|
    decreases |d|
  {
    if WaitScan(d) == [] then d
    else if MagicAt(d, 0) then Rest(d[TotalAt(d, 0)..])
    else Rest(d[1..])
  }

  /** One step of the waiting scan at position i. */
  lemma WaitStep(d: ByteString, i: nat)
    requires i <= |d|
    ensures i + 6 <= |d| && CompleteAt(d, i) ==>
              var e := i + TotalAt(d, i);
              WaitScan(d[i..]) == [d[i..e]] + WaitScan(d[e..]) && Rest(d[i..]) == Rest(d[e..])
    ensures i + 6 <= |d| && !MagicAt(d, i) ==>
              && WaitScan(d[i..]) == WaitScan(d[i + 1..])
              && (WaitScan(d[i..]) != [] ==> Rest(d[i..]) == Rest(d[i + 1..]))
    ensures i + 6 > |d| || (MagicAt(d, i) && !CompleteAt(d, i)) ==> WaitScan(d[i..]) == []
    ensures WaitScan(d[i..]) == [] ==> Rest(d[i..]) == d[i..]
  {
    SuffixAt(d, i, 0);
    if i + 6 <= |d| && CompleteAt(d, i) {
      var t := TotalAt(d, i);
      assert d[i..][t..] == d[i + t..] && d[i..][..t] == d[i..i + t];
    } else if i + 6 <= |d| {
      assert d[i..][1..] == d[i + 1..];
    }
  }

  /** The first magic from `end` on, with its header, does not begin a complete frame. */
  predicate WaitsAt(d: ByteString, end: nat) {
    forall p | end <= p < |d| - 5 && MagicAt(d, p) && (forall q | end <= q < p :: !MagicAt(d, q)) :: !CompleteAt(d, p)
  }

  /** No magic before `end` lies outside these spans. */
  ghost predicate NothingSkipped(d: ByteString, from: nat, end: nat, spans: seq<Span>) {
    forall p: nat | from <= p < end && MagicAt(d, p) :: Covered(spans, p)
  }

  /** The spans are complete frames in order, up to `end`, that leave out no magic. */
  ghost predicate WaitTiles(d: ByteString, from: nat, spans: seq<Span>, end: nat) {
    && AllFrames(d, from, spans) && InOrder(spans) && NothingSkipped(d, from, end, spans) && WaitsAt(d, end)
    && end == if spans == [] then from else spans[|spans| - 1].hi
  }

  lemma NoneFound(d: ByteString, from: nat)
    requires from + 6 > |d| || (MagicAt(d, from) && !CompleteAt(d, from))
    ensures WaitTiles(d, from, [], from)
  {
    hide CompleteAt, MagicAt;
  }

  lemma OneFound(d: ByteString, from: nat, later: seq<Span>, end: nat)
    requires CompleteAt(d, from) && WaitTiles(d, from + TotalAt(d, from), later, end)
    ensures WaitTiles(d, from, [Span(from, from + TotalAt(d, from))] + later, end)
  {
    var first := Span(from, from + TotalAt(d, from));
    assert IsFrame(d, first);
    hide CompleteAt, TotalAt, MagicAt, Covered, IsFrame, AllFrames, InOrder, WaitsAt, NothingSkipped;
    FramesWithFirst(d, from, first, later);
    NothingSkippedWithFirst(d, first, later, end);
    assert later != [] ==> ([first] + later)[|later|] == later[|later| - 1];
  }

  lemma NothingSkippedWithFirst(d: ByteString, first: Span, later: seq<Span>, end: nat)
    requires NothingSkipped(d, first.hi, end, later)
    ensures NothingSkipped(d, first.lo, end, [first] + later)
  {
    hide MagicAt, Covered;
    forall p: nat | first.lo <= p < end && MagicAt(d, p)
      ensures Covered([first] + later, p)
    {
      CoveredByMore(first, later, p);
    }
  }

  lemma PositionPassed(d: ByteString, from: nat, spans: seq<Span>, end: nat)
    requires !MagicAt(d, from) && WaitTiles(d, from + 1, spans, end)
    ensures WaitTiles(d, from, spans, if spans == [] then from else end)
  {
    hide CompleteAt, MagicAt, Covered, IsFrame, InOrder, WaitsAt;
    assert AllFrames(d, from, spans);
    if spans == [] {
      WaitsEarlier(d, from);
    }
  }

  lemma WaitsEarlier(d: ByteString, from: nat)
    requires !MagicAt(d, from) && WaitsAt(d, from + 1)
    ensures WaitsAt(d, from)
  {
    hide CompleteAt, MagicAt;
  }

  /**
   What the waiting scanner finds, without the loop: complete frames in order that leave out no
   magic, up to the end of the last one; the rest begins there, and the first magic in it belongs
   to a frame that is not complete.
   */
  lemma {:induction false} WaitFound(d: ByteString, from: nat) returns (spans: seq<Span>, end: nat)
    requires from <= |d|
    ensures WaitTiles(d, from, spans, end) && from <= end <= |d|
    ensures Pieces(d, spans) == WaitScan(d[from..]) && Rest(d[from..]) == d[end..]
    decreases |d| - from
  {
    hide *;
    WaitStep(d, from);
    CompleteIsMagic(d, from);
    if from + 6 > |d| || (MagicAt(d, from) && !CompleteAt(d, from)) {
      spans, end := [], from;
      NoneFound(d, from);
      NoPieces(d);
    } else if CompleteAt(d, from) {
      var e := from + TotalAt(d, from);
      spans, end := WaitFound(d, e);
      OneFound(d, from, spans, end);
      MorePieces(d, Span(from, e), spans);
      spans := [Span(from, e)] + spans;
    } else {
      spans, end := WaitFound(d, from + 1);
      PositionPassed(d, from, spans, end);
      if spans == [] {
        NoPieces(d);
        end := from;
      } else {
        SomePieces(d, spans);
      }
    }
  }

  lemma CompleteIsMagic(d: ByteString, i: nat)
    ensures CompleteAt(d, i) ==> MagicAt(d, i) && i + 6 <= |d| && i + TotalAt(d, i) <= |d|
  {
  }

  lemma NoPieces(d: ByteString)
    ensures Pieces(d, []) == []
  {
  }

  lemma SomePieces(d: ByteString, spans: seq<Span>)
    requires spans != []
    ensures Pieces(d, spans) != []
  {
  }

  lemma MorePieces(d: ByteString, first: Span, rest: seq<Span>)
    requires first.lo <= first.hi <= |d|
    ensures Pieces(d, [first] + rest) == [d[first.lo..first.hi]] + Pieces(d, rest)
  {
    assert ([first] + rest)[1..] == rest;
  }

  predicate PacketsAgree(buf: ByteString, packets: seq<(ByteString, nat)>, found: seq<ByteString>) {
    && |packets| == |found|
    && forall k | 0 <= k < |packets| :: EndsAt(buf, found[k], packets[k].1) && packets[k].0 == found[k]
  }

  predicate EndsAt(buf: ByteString, piece: ByteString, end: nat) {
    |piece| <= end <= |buf| && buf[end - |piece|..end] == piece
  }

  lemma AgreeSnoc(buf: ByteString, packets: seq<(ByteString, nat)>, found: seq<ByteString>,
                  piece: ByteString, end: nat)
    requires PacketsAgree(buf, packets, found) && EndsAt(buf, piece, end)
    ensures PacketsAgree(buf, packets + [(piece, end)], found + [piece])
  {
    hide EndsAt;
  }

  lemma SliceEndsAt(buf: ByteString, i: nat, t: nat)
    requires i + t <= |buf|
    ensures EndsAt(buf, buf[i..i + t], i + t)
  {
  }

  lemma NoneAgree(buf: ByteString)
    ensures PacketsAgree(buf, [], [])
  {
  }

  /** Each packet comes with the offset at which it ends. */
  method FindPackets(buf: ByteString) returns (packets: seq<(ByteString, nat)>)
    ensures PacketsAgree(buf, packets, WaitScan(buf))
    ensures packets != [] ==> packets[|packets| - 1].1 <= |buf| && buf[packets[|packets| - 1].1..] == Rest(buf)
    ensures packets == [] ==> Rest(buf) == buf
  {
    hide WaitScan, Rest, PacketsAgree, EndsAt;
    packets := [];
    ghost var found: seq<ByteString> := [];
    var i := 0;
    ghost var last := 0;
    assert buf[0..] == buf;
    WaitStep(buf, 0);
    NoneAgree(buf);
    while i < |buf| - 5
      invariant last <= i <= |buf|
      invariant WaitScan(buf) == found + WaitScan(buf[i..])
      invariant PacketsAgree(buf, packets, found)
      invariant if packets == [] then last == 0 else packets[|packets| - 1].1 == last
      invariant WaitScan(buf[i..]) == [] ==> Rest(buf) == buf[last..]
      invariant WaitScan(buf[i..]) != [] ==> Rest(buf) == Rest(buf[i..])
      decreases |buf| - i
    {
      WaitStep(buf, i);
      if buf[i] == PREFIX[0] && buf[i + 1] == PREFIX[1] {
        var frameLen := ReadU16(buf, i + 4);
        var totalLen: nat := 6 + frameLen as int;
        if i + totalLen <= |buf| {
          SliceEndsAt(buf, i, totalLen);
          AgreeSnoc(buf, packets, found, buf[i..i + totalLen], i + totalLen);
          packets := packets + [(buf[i..i + totalLen], i + totalLen)];
          found := found + [buf[i..i + totalLen]];
          i := i + totalLen;
          last := i;
          WaitStep(buf, i);
          continue;
        } else {
          break;
        }
      }
      i := i + 1;
    }
    WaitStep(buf, i);
    assert found + [] == found;
  }

  lemma PrefixAt(d: ByteString, e: ByteString)
    requires |d| >= 6
    ensures MagicAt(d + e, 0) <==> MagicAt(d, 0)
    ensures TotalAt(d + e, 0) == TotalAt(d, 0)
  {
  }

  lemma WaitUnfold(d: ByteString)
    requires WaitScan(d) != []
    ensures |d| >= 6
    ensures MagicAt(d, 0) ==>
              var t := TotalAt(d, 0);
              t <= |d| && WaitScan(d) == [d[..t]] + WaitScan(d[t..]) && Rest(d) == Rest(d[t..])
    ensures !MagicAt(d, 0) ==> WaitScan(d) == WaitScan(d[1..]) && Rest(d) == Rest(d[1..])
  {
  }

  lemma WaitFold(d: ByteString)
    requires |d| >= 6
    ensures MagicAt(d, 0) && TotalAt(d, 0) <= |d| ==>
              var t := TotalAt(d, 0);
              WaitScan(d) == [d[..t]] + WaitScan(d[t..]) && Rest(d) == Rest(d[t..])
    ensures !MagicAt(d, 0) ==>
              WaitScan(d) == WaitScan(d[1..]) && (WaitScan(d) != [] ==> Rest(d) == Rest(d[1..]))
  {
  }

  lemma Prepended<T>(a: seq<T>, b: seq<T>, c: seq<T>)
    ensures a + (b + c) == a + b + c
  {
  }

  /** Bytes that arrive later never change what was found, and the scan can resume at the rest. */
  lemma {:induction false} PacketsExtend(d: ByteString, e: ByteString)
    ensures WaitScan(d + e) == WaitScan(d) + WaitScan(Rest(d) + e)
    ensures Rest(d + e) == Rest(Rest(d) + e)
    decreases |d|
  {
    if WaitScan(d) == [] {
      assert Rest(d) == d;
    } else {
      hide *;
      WaitUnfold(d);
      PrefixAt(d, e);
      WaitFold(d + e);
      if MagicAt(d, 0) {
        var t := TotalAt(d, 0);
        assert (d + e)[..t] == d[..t] && (d + e)[t..] == d[t..] + e;
        PacketsExtend(d[t..], e);
        Prepended([d[..t]], WaitScan(d[t..]), WaitScan(Rest(d) + e));
      } else {
        assert (d + e)[1..] == d[1..] + e;
        PacketsExtend(d[1..], e);
      }
    }
  }

  /** The packets emitted over a whole run of received chunks, trimming after each. */
  function Emitted(buf: ByteString, chunks: seq<ByteString>): seq<ByteString>
    decreases |chunks|
  {
    if chunks == [] then []
    else WaitScan(buf + chunks[0]) + Emitted(Rest(buf + chunks[0]), chunks[1..])
  }

  /** However a stream is cut, the packets emitted are those of the whole stream. */
  lemma {:induction false} ChunkInvariance(received: ByteString, chunks: seq<ByteString>)
    ensures WaitScan(received) + Emitted(Rest(received), chunks) == WaitScan(received + Flatten(chunks))
    decreases |chunks|
  {
    hide WaitScan, Rest;
    if chunks == [] {
      assert received + Flatten(chunks) == received;
    } else {
      PacketsExtend(received, chunks[0]);
      ChunkInvariance(received + chunks[0], chunks[1..]);
      assert received + Flatten(chunks) == received + chunks[0] + Flatten(chunks[1..]);
    }
  }

  /** A receive either times out or returns bytes; no bytes means the dongle closed. */
  datatype CaptureEvent = Timeout | Data(bytes: ByteString)

  /** The bytes received up to the end of the capture. */
  function Received(events: seq<CaptureEvent>): ByteString {
    if events == [] || events[0] == Data([]) then []
    else (if events[0].Data? then events[0].bytes else []) + Received(events[1..])
  }

  /** The receive loop of the capture decoder. */
  method Capture(events: seq<CaptureEvent>) returns (emitted: seq<ByteString>)
    ensures emitted == WaitScan(Received(events))
  {
    hide WaitScan, Rest;
    emitted := [];
    var buf: ByteString := [];
    ghost var got: ByteString := [];
    NothingYet();
    assert events[0..] == events;
    var n := 0;
    while n < |events|
      invariant n <= |events|
      invariant emitted == WaitScan(got) && buf == Rest(got)
      invariant got + Received(events[n..]) == Received(events)
      decreases |events| - n
    {
      var event := events[n];
      assert events[n..][0] == event && events[n..][1..] == events[n + 1..];
      n := n + 1;
      if event.Timeout? {
        continue;
      }
      if event.bytes == [] {
        assert got + [] == got;
        return;
      }
      PacketsExtend(got, event.bytes);
      buf := buf + event.bytes;
      var packets := FindPackets(buf);
      emitted := emitted + Payloads(packets);
      PayloadsAgree(buf, packets, WaitScan(buf));
      if packets != [] {
        buf := buf[packets[|packets| - 1].1..];
      }
      got := got + event.bytes;
    }
    assert got + [] == got;
  }

  function Payloads(packets: seq<(ByteString, nat)>): seq<ByteString> {
    seq(|packets|, k requires 0 <= k < |packets| => packets[k].0)
  }

  lemma PayloadsAgree(buf: ByteString, packets: seq<(ByteString, nat)>, found: seq<ByteString>)
    requires PacketsAgree(buf, packets, found)
    ensures Payloads(packets) == found
  {
  }

  lemma NothingYet()
    ensures WaitScan([]) == [] && Rest([]) == []
  {
  }

  // ---- the two scanners compared -----------------------------------------------------------

  lemma {:induction false} ShortScan(d: ByteString)
    requires |d| < 6
    ensures Scan(d) == []
    decreases |d|
  {
    if |d| >= 2 {
      ShortScan(d[1..]);
    }
  }

  /** find_frames finds what the waiting scanner finds, and then what lies inside the rest. */
  lemma {:induction false} ScanSplit(d: ByteString)
    ensures Scan(d) == WaitScan(d) + Scan(Rest(d))
    decreases |d|
  {
    if WaitScan(d) == [] {
      assert Rest(d) == d;
    } else {
      WaitUnfold(d);
      if MagicAt(d, 0) {
        var t := TotalAt(d, 0);
        ScanSplit(d[t..]);
        ScanCons(d, []);
        hide Scan, WaitScan, Rest;
        Prepended([d[..t]], WaitScan(d[t..]), Scan(Rest(d)));
      } else {
        ScanSplit(d[1..]);
        ScanSkip(d, []);
      }
    }
  }

  lemma {:induction false} PiecesFit(d: ByteString)
    ensures forall k | 0 <= k < |Scan(d)| :: |Scan(d)[k]| <= |d|
    decreases |d|
  {
    if |d| >= 2 {
      if CompleteAt(d, 0) {
        PiecesFit(d[TotalAt(d, 0)..]);
      } else {
        PiecesFit(d[1..]);
      }
    }
  }

  lemma ScanCons(d: ByteString, e: ByteString)
    requires CompleteAt(d, 0)
    ensures var t := TotalAt(d, 0);
            Scan(d) == [d[..t]] + Scan(d[t..]) && Scan(d + e) == [d[..t]] + Scan(d[t..] + e)
  {
    PrefixAt(d, e);
    var t := TotalAt(d, 0);
    assert (d + e)[..t] == d[..t] && (d + e)[t..] == d[t..] + e;
  }

  lemma ScanSkip(d: ByteString, e: ByteString)
    requires |d| >= 6 && !MagicAt(d, 0)
    ensures Scan(d) == Scan(d[1..]) && Scan(d + e) == Scan(d[1..] + e)
  {
    PrefixAt(d, e);
    assert (d + e)[1..] == d[1..] + e;
  }

  lemma ScanCompleted(d: ByteString, e: ByteString)
    requires |d| >= 6 && MagicAt(d, 0) && |d| + |e| == TotalAt(d, 0)
    ensures Scan(d + e) == [d + e]
  {
    PrefixAt(d, e);
    assert (d + e)[..|d + e|] == d + e;
  }

  lemma SameHead<T>(x: T, a: seq<T>, b: seq<T>)
    ensures [x] + a <= [x] + b ==> a <= b
  {
    assert ([x] + a)[1..] == a && ([x] + b)[1..] == b;
  }

  lemma ParseKeepsBytes(piece: ByteString)
    ensures Parse(piece).Some? ==> Parse(piece).value.raw == piece && |piece| >= HEADER_SIZE
  {
  }

  /** The frames of a list of pieces keep the bytes of pieces of the list. */
  lemma {:induction false} ParsedFromPieces(pieces: seq<ByteString>)
    ensures forall f | f in ParseAll(pieces) :: f.raw in pieces && Parse(f.raw) == Some(f)
  {
    hide Parse;
    if pieces != [] {
      ParseKeepsBytes(pieces[0]);
      ParsedFromPieces(pieces[1..]);
    }
  }

  /** A longer frame that arrives alone does not contain what was found before. */
  lemma LongerFrameOnly(d: ByteString, e: ByteString)
    requires Scan(d + e) == [d + e] && e != [] && FramesIn(d) != []
    ensures !(FramesIn(d) <= FramesIn(d + e))
  {
    hide Scan, Parse;
    ParsedFromPieces(Scan(d));
    PiecesFit(d);
    ParseAllOne(d + e);
    ParseKeepsBytes(d + e);
    assert FramesIn(d)[0].raw in Scan(d);
    assert FramesIn(d)[0].raw != d + e;
  }

  lemma FramesCons(d: ByteString, e: ByteString)
    requires CompleteAt(d, 0)
    ensures var t := TotalAt(d, 0);
            FramesIn(d) <= FramesIn(d + e) ==> FramesIn(d[t..]) <= FramesIn(d[t..] + e)
  {
    ScanCons(d, e);
    hide Scan, Parse;
    var t := TotalAt(d, 0);
    var first := ParseAll([d[..t]]);
    ParseAllAppend([d[..t]], Scan(d[t..]));
    ParseAllAppend([d[..t]], Scan(d[t..] + e));
    if first == [] {
      assert forall x: seq<LuxFrame> :: first + x == x;
    } else {
      ParseAllOne(d[..t]);
      assert first == [first[0]];
      SameHead(first[0], FramesIn(d[t..]), FramesIn(d[t..] + e));
    }
  }

  /**
   Where find_frames looks inside an incomplete frame, some continuation of the stream takes back
   a piece; and a frame, if it found one there.
   */
  lemma {:induction false} ScanTakenBack(d: ByteString) returns (e: ByteString)
    requires Scan(Rest(d)) != []
    ensures !(Scan(d) <= Scan(d + e))
    ensures FramesIn(Rest(d)) != [] ==> !(FramesIn(d) <= FramesIn(d + e))
    decreases |d|
  {
    if |d| < 6 {
      ShortScan(d);
      e := [];
    } else if CompleteAt(d, 0) {
      var t := TotalAt(d, 0);
      e := ScanTakenBack(d[t..]);
      ScanCons(d, e);
      FramesCons(d, e);
      WaitFold(d);
      hide Scan, WaitScan, FramesIn;
      SameHead(d[..t], Scan(d[t..]), Scan(d[t..] + e));
    } else if MagicAt(d, 0) {
      e := seq(TotalAt(d, 0) - |d|, _ => 0);
      ScanCompleted(d, e);
      PiecesFit(d);
      assert Rest(d) == d;
      assert Scan(d)[0] != d + e;
      if FramesIn(d) != [] {
        LongerFrameOnly(d, e);
      }
    } else {
      WaitFold(d);
      ScanSkip(d, []);
      e := ScanTakenBack(d[1..]);
      ScanSkip(d, e);
    }
  }

  /**
   find_frames never has to take back a frame when more bytes arrive exactly when the bytes behind
   the last complete frame hold no frame, that is when it found none inside an incomplete one.
   */
  lemma FramesStableIff(d: ByteString)
    ensures (forall e :: FramesIn(d) <= FramesIn(d + e)) <==> FramesIn(Rest(d)) == []
  {
    hide Scan, WaitScan, Rest, ParseAll;
    ScanSplit(d);
    ParseAllAppend(WaitScan(d), Scan(Rest(d)));
    if FramesIn(Rest(d)) == [] {
      forall e
        ensures FramesIn(d) <= FramesIn(d + e)
      {
        PacketsExtend(d, e);
        ScanSplit(d + e);
        ParseAllAppend(WaitScan(d), WaitScan(Rest(d) + e));
        ParseAllAppend(WaitScan(d + e), Scan(Rest(d + e)));
      }
    } else {
      NothingParsed();
      var e := ScanTakenBack(d);
    }
  }

  lemma NothingParsed()
    ensures ParseAll([]) == []
  {
  }

  /**
   The same for the pieces before the short ones among them are dropped, and for the comparison
   with the waiting scanner.
   */
  lemma ScanStableIff(d: ByteString)
    ensures (forall e :: Scan(d) <= Scan(d + e)) <==> Scan(Rest(d)) == []
    ensures Scan(d) == WaitScan(d) <==> Scan(Rest(d)) == []
  {
    ScanSplit(d);
    if Scan(Rest(d)) == [] {
      forall e
        ensures Scan(d) <= Scan(d + e)
      {
        PacketsExtend(d, e);
        ScanSplit(d + e);
      }
    } else {
      var e := ScanTakenBack(d);
    }
  }

  // ---- the frames returned -----------------------------------------------------------------

  function Raws(frames: seq<LuxFrame>): seq<ByteString> {
    seq(|frames|, i requires 0 <= i < |frames| => frames[i].raw)
  }

  /** The pieces that are long enough to be frames. */
  function LongOnes(pieces: seq<ByteString>): seq<ByteString> {
    if pieces == [] then []
    else (if |pieces[0]| >= HEADER_SIZE then [pieces[0]] else []) + LongOnes(pieces[1..])
  }

  predicate StartsAsFrame(p: ByteString) {
    |p| >= 6 && MagicAt(p, 0) && TotalAt(p, 0) == |p|
  }

  lemma {:induction false} LongOnesAppend(a: seq<ByteString>, b: seq<ByteString>)
    ensures LongOnes(a + b) == LongOnes(a) + LongOnes(b)
  {
    if a == [] {
      assert a + b == b;
    } else {
      assert (a + b)[0] == a[0] && (a + b)[1..] == a[1..] + b;
      LongOnesAppend(a[1..], b);
    }
  }

  lemma {:induction false} PiecesStartAsFrames(d: ByteString)
    ensures forall p | p in Scan(d) :: StartsAsFrame(p)
    decreases |d|
  {
    if |d| >= 2 {
      if CompleteAt(d, 0) {
        var t := TotalAt(d, 0);
        PiecesStartAsFrames(d[t..]);
        PrefixAt(d[..t], d[t..]);
        assert d[..t] + d[t..] == d;
        assert Scan(d) == [d[..t]] + Scan(d[t..]);
        assert StartsAsFrame(d[..t]);
      } else {
        PiecesStartAsFrames(d[1..]);
      }
    }
  }

  lemma {:induction false} ParsedAreLong(pieces: seq<ByteString>)
    requires forall p | p in pieces :: StartsAsFrame(p)
    ensures Raws(ParseAll(pieces)) == LongOnes(pieces)
  {
    hide WithData, HeaderOnly, TotalAt;
    if pieces != [] {
      var p := pieces[0];
      assert p in pieces;
      assert p[..2] == PREFIX;
      ParsedAreLong(pieces[1..]);
      ParseKeepsBytes(p);
    }
  }

  /**
   Whatever the bytes, each frame returned is well-formed: at least 18 bytes that begin with the
   magic and have the length they declare.  The frames are those of the scanned pieces that are
   long enough, in order, and they begin with the waiting scanner's packets of at least 18 bytes.
   */
  lemma FramesFound(d: ByteString)
    ensures forall f | f in FramesIn(d) :: WellFormed(f.raw) && Parse(f.raw) == Some(f)
    ensures forall f | f in FramesIn(d) ::
              && |f.raw| >= 18 && f.raw[0] == 0xA1 && f.raw[1] == 0x1A
              && |f.raw| == 6 + f.raw[4] as int + 256 * f.raw[5] as int
    ensures Raws(FramesIn(d)) == LongOnes(Scan(d))
    ensures LongOnes(WaitScan(d)) <= Raws(FramesIn(d))
  {
    hide Scan, WaitScan, Rest, Parse, ParseAll, LongOnes;
    PiecesStartAsFrames(d);
    ParsedAreLong(Scan(d));
    ScanSplit(d);
    LongOnesAppend(WaitScan(d), Scan(Rest(d)));
    ParsedFromPieces(Scan(d));
    forall f | f in FramesIn(d)
      ensures WellFormed(f.raw)
    {
      assert StartsAsFrame(f.raw);
      ParseKeepsBytes(f.raw);
    }
  }

  // ---- well-formed frames ------------------------------------------------------------------

  predicate WellFormed(p: ByteString) {
    |p| >= HEADER_SIZE && MagicAt(p, 0) && TotalAt(p, 0) == |p|
  }

  lemma ScanWellFormed(p: ByteString, d: ByteString)
    requires WellFormed(p)
    ensures Scan(p + d) == [p] + Scan(d) && WaitScan(p + d) == [p] + WaitScan(d)
  {
    PrefixAt(p, d);
    assert (p + d)[..|p|] == p && (p + d)[|p|..] == d;
  }

  /** Frames sent back to back are recovered one by one, whatever bytes they carry inside. */
  lemma {:induction false} ScanFlatten(packets: seq<ByteString>)
    requires forall p | p in packets :: WellFormed(p)
    ensures Scan(Flatten(packets)) == packets && WaitScan(Flatten(packets)) == packets
  {
    if packets != [] {
      assert packets[0] in packets;
      ScanFlatten(packets[1..]);
      hide Scan, WaitScan, WellFormed;
      ScanWellFormed(packets[0], Flatten(packets[1..]));
    }
  }

  /** A well-formed frame that arrives alone is the one frame found. */
  lemma FoundAlone(p: ByteString)
    requires WellFormed(p)
    ensures Parse(p).Some? && FramesIn(p) == [Parse(p).value]
  {
    assert p[..2] == [p[0], p[1]];
    ScanFlatten([p]);
    assert Flatten([p]) == p;
    hide Scan, Parse, ParseAll, WellFormed;
    ParseAllOne(p);
  }

  function EncodeAll(ps: seq<Packet>): seq<ByteString>
    requires forall p | p in ps :: p.InRange()
  {
    seq(|ps|, i requires 0 <= i < |ps| => ps[i].Encode())
  }

  function MeaningAll(ps: seq<Packet>): seq<LuxFrame>
    requires forall p | p in ps :: p.InRange()
  {
    seq(|ps|, i requires 0 <= i < |ps| => ps[i].Meaning())
  }

  lemma EncodedWellFormed(p: Packet)
    requires p.InRange()
    ensures WellFormed(p.Encode())
  {
    var e := p.Encode();
    match p {
      case ReadRequest(datalog, inverter, fn, start, count) =>
        DataPacketWellFormed(1, datalog, Body(0, fn, inverter, start, Le16(count)));
      case WriteRequest(datalog, inverter, register, value) =>
        DataPacketWellFormed(1, datalog, Body(0, WRITE_SINGLE, inverter, register, Le16(value)));
      case WriteMultiRequest(datalog, inverter, start, values) =>
        DataPacketWellFormed(1, datalog, Body(0, WRITE_MULTI, inverter, start, MultiRest(values)));
      case Heartbeat(datalog) =>
        EnvelopeWellFormed(2, TCP_HEARTBEAT, datalog, [0]);
      case ReadResponse(datalog, inverter, fn, start, values) =>
        DataPacketWellFormed(5, datalog, Body(1, fn, inverter, start, [2 * |values|] + ValueBytes(values)));
      case ErrorReply(datalog, fn, code, rest) =>
        DataPacketWellFormed(5, datalog, [1, fn + 128, code] + rest);
    }
  }

  lemma EnvelopeWellFormed(protocol: u16, fn: byte, datalog: string, payload: ByteString)
    requires |payload| <= 0xFFFF - 12
    ensures WellFormed(Envelope(protocol, fn, datalog, payload))
  {
    var p := Envelope(protocol, fn, datalog, payload);
    EnvelopeFields(protocol, fn, datalog, payload);
    hide Envelope;
    assert p[..2][0] == p[0] && p[..2][1] == p[1];
  }

  lemma DataPacketWellFormed(protocol: u16, datalog: string, body: ByteString)
    requires |body| <= 0xFFFF - 16
    ensures WellFormed(DataPacket(protocol, datalog, body))
  {
    hide Envelope, WellFormed, CrcBytes, CrcOf;
    EnvelopeWellFormed(protocol, TCP_TRANSLATED_DATA, datalog, Le16(|body| + 2) + body + CrcBytes(CrcOf(body)));
  }

  lemma ParseAllEncoded(ps: seq<Packet>)
    requires forall p | p in ps :: p.InRange()
    ensures ParseAll(EncodeAll(ps)) == MeaningAll(ps)
  {
    hide Parse, Packet.Encode, Packet.Meaning;
    if ps != [] {
      assert ps[0] in ps;
      ParseEncode(ps[0]);
      ParseAllEncoded(ps[1..]);
      assert EncodeAll(ps)[1..] == EncodeAll(ps[1..]);
      assert MeaningAll(ps) == [ps[0].Meaning()] + MeaningAll(ps[1..]);
    }
  }

  /**
   Round trip: any stream of packets as the builders make them, and of read responses as the
   inverter sends them, scans to exactly one frame per packet with the packet's own fields.
   */
  lemma BuiltStreamRoundTrip(ps: seq<Packet>)
    requires forall p | p in ps :: p.InRange()
    ensures FramesIn(Flatten(EncodeAll(ps))) == MeaningAll(ps)
  {
    hide Scan, Parse, ParseAll, WellFormed, Packet.Encode, Packet.Meaning;
    forall e | e in EncodeAll(ps)
      ensures WellFormed(e)
    {
      var i :| 0 <= i < |ps| && EncodeAll(ps)[i] == e;
      assert ps[i] in ps;
      EncodedWellFormed(ps[i]);
    }
    ScanFlatten(EncodeAll(ps));
    ParseAllEncoded(ps);
  }

  // ---- a frame that is taken back ----------------------------------------------------------

  /** The beginning of a frame of 261 bytes. */
  const OPENING: ByteString := PREFIX + [1, 0, 0xFF, 0]

  lemma OpeningByte(d: ByteString, i: nat)
    requires 0 < |d| < 255 && i < 6
    ensures Scan((OPENING + d)[i..]) == Scan((OPENING + d)[i + 1..]) && |OPENING| == 6
  {
    var all := OPENING + d;
    assert TotalAt(all, 0) == 261;
    hide Scan;
    ScanStep(all, i);
  }

  lemma OpeningSkipped(d: ByteString)
    requires 0 < |d| < 255
    ensures Scan(OPENING + d) == Scan(d)
  {
    hide Scan;
    var all := OPENING + d;
    OpeningByte(d, 0);
    OpeningByte(d, 1);
    OpeningByte(d, 2);
    OpeningByte(d, 3);
    OpeningByte(d, 4);
    OpeningByte(d, 5);
    assert all[0..] == all && all[6..] == d;
  }

  /**
   It does happen: a heartbeat carried inside a frame that has not arrived completely is reported,
   and once the frame is complete it is the only one that is.
   */
  lemma HeartbeatTakenBack(datalog: string) returns (d: ByteString, e: ByteString)
    ensures FramesIn(d) == [Heartbeat(datalog).Meaning()] && WaitScan(d) == []
    ensures |FramesIn(d + e)| == 1 && FramesIn(d + e)[0].raw == d + e
    ensures !(FramesIn(d) <= FramesIn(d + e))
  {
    var beat := Heartbeat(datalog);
    d := OPENING + beat.Encode();
    assert |d| == 25 && TotalAt(d, 0) == 261;
    e := seq(236, _ => 0);
    OpeningSkipped(beat.Encode());
    EncodedWellFormed(beat);
    ScanFlatten([beat.Encode()]);
    assert Flatten([beat.Encode()]) == beat.Encode();
    ParseEncode(beat);
    ScanCompleted(d, e);
    hide Scan, Parse, ParseAll, WellFormed, Packet.Encode, Packet.Meaning;
    ParseAllOne(beat.Encode());
    CompletedFrame(d, e);
    LongerFrameOnly(d, e);
  }

  lemma CompletedFrame(d: ByteString, e: ByteString)
    requires |d| >= HEADER_SIZE && MagicAt(d, 0) && Scan(d + e) == [d + e]
    ensures |FramesIn(d + e)| == 1 && FramesIn(d + e)[0].raw == d + e
  {
    hide Scan, ParseAll, WithData, HeaderOnly;
    ParseAllOne(d + e);
    assert (d + e)[..2] == PREFIX;
  }

  // ---- the CRC recheck of the capture decoder ----------------------------------------------

  /** decode_packet's crc_valid: the CRC of bytes 20 up to the last two against the last two. */
  method CrcValid(pkt: ByteString) returns (valid: bool)
    requires |pkt| >= 37
    ensures valid <==> pkt[|pkt| - 2..] == CrcBytes(CrcOf(pkt[20..|pkt| - 2]))
  {
    hide CrcOf, CrcBytes;
    var inner := pkt[18..];
    var crcData := inner[2..|inner| - 2];
    var crcRecv := ReadU16(inner, |inner| - 2);
    var crcCalc := CrcBitwise(crcData);
    valid := crcRecv == Value(crcCalc);
    assert crcData == pkt[20..|pkt| - 2];
    ghost var trailer := pkt[|pkt| - 2..];
    assert trailer[0] == inner[|inner| - 2] && trailer[1] == inner[|inner| - 1];
    TrailerMatches(trailer, crcCalc);
  }

  lemma TrailerMatches(trailer: ByteString, crc: bv16)
    requires |trailer| == 2
    ensures ReadU16(trailer, 0) == Value(crc) <==> trailer == CrcBytes(crc)
  {
    hide Value;
    Le16Unique(trailer, Value(crc));
  }

  /** Every packet that carries data passes the recheck. */
  lemma EncodedCrcValid(p: Packet)
    requires p.InRange() && !p.Heartbeat?
    ensures var e := p.Encode();
            |e| >= 25 && e[|e| - 2..] == CrcBytes(CrcOf(e[20..|e| - 2]))
    ensures p.ErrorReply? || |p.Encode()| >= 37
  {
    hide DataPacket, CrcBytes, CrcOf;
    match p {
      case ReadRequest(datalog, inverter, fn, start, count) =>
        PacketBody(1, datalog, Body(0, fn, inverter, start, Le16(count)));
      case WriteRequest(datalog, inverter, register, value) =>
        PacketBody(1, datalog, Body(0, WRITE_SINGLE, inverter, register, Le16(value)));
      case WriteMultiRequest(datalog, inverter, start, values) =>
        PacketBody(1, datalog, Body(0, WRITE_MULTI, inverter, start, MultiRest(values)));
      case ReadResponse(datalog, inverter, fn, start, values) =>
        PacketBody(5, datalog, Body(1, fn, inverter, start, [2 * |values|] + ValueBytes(values)));
      case ErrorReply(datalog, fn, code, rest) =>
        PacketBody(5, datalog, [1, fn + 128, code] + rest);
    }
  }
}
