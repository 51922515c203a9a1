/** The register cache that the streams feed. */
module Collectors {
  import opened Wrappers
  import opened Bytes
  import opened Frames
  import opened Scanner

  datatype Cache = Cache(input: Registers, hold: Registers)

  function Update(f: LuxFrame): Cache {
    if !f.IsTranslatedData() then Cache(map[], map[])
    else if f.IsReadInput() then Cache(Consecutive(f.register, f.values), map[])
    else if f.IsReadHold() then Cache(map[], Consecutive(f.register, f.values))
    else Cache(map[], map[])
  }

  /** The second cache wins where both know a register. */
  function Merge(c: Cache, d: Cache): Cache {
    Cache(c.input + d.input, c.hold + d.hold)
  }

  function Apply(c: Cache, f: LuxFrame): Cache { Merge(c, Update(f)) }

  /** What the cache holds after a list of frames, in order. */
  function Fold(c: Cache, frames: seq<LuxFrame>): Cache
    decreases |frames|
  {
    if frames == [] then c else Fold(Apply(c, frames[0]), frames[1..])
  }

  class Collector {
    var latestInput: Registers
    var latestHold: Registers

    constructor ()
      ensures Contents() == Cache(map[], map[])
    {
      latestInput, latestHold := map[], map[];
    }

    function Contents(): Cache
      reads this
    {
      Cache(latestInput, latestHold)
    }

    /**
     A translated frame of function 4 overwrites the input registers that it carries, one of
     function 3 the holding registers; nothing else changes.
     */
    method HandleFrame(frame: LuxFrame)
      modifies this
      ensures Contents() == Apply(old(Contents()), frame)
      ensures frame.tcpFunction == 0xC2 && frame.deviceFunction == 4 ==>
                && latestHold == old(latestHold)
                && (forall r :: r in latestInput <==>
                      r in old(latestInput) || frame.register <= r < frame.register + |frame.values|)
                && (forall r | r in latestInput ::
                      latestInput[r] == if frame.register <= r < frame.register + |frame.values|
                                        then frame.values[r - frame.register] else old(latestInput)[r])
      ensures frame.tcpFunction == 0xC2 && frame.deviceFunction == 3 ==>
                && latestInput == old(latestInput)
                && (forall r :: r in latestHold <==>
                      r in old(latestHold) || frame.register <= r < frame.register + |frame.values|)
                && (forall r | r in latestHold ::
                      latestHold[r] == if frame.register <= r < frame.register + |frame.values|
                                       then frame.values[r - frame.register] else old(latestHold)[r])
      ensures frame.tcpFunction != 0xC2 || (frame.deviceFunction != 3 && frame.deviceFunction != 4) ==>
                latestInput == old(latestInput) && latestHold == old(latestHold)
    {
      hide Apply, Filed;
      AppliedMeaning(Contents(), frame);
      ghost var before := Contents();
      if !frame.IsTranslatedData() {
        return;
      }
      if frame.IsReadInput() {
        for i := 0 to |frame.values|
          invariant latestHold == old(latestHold)
          invariant latestInput == Filed(before.input, frame.register, frame.values[..i])
        {
          FiledNext(before.input, frame.register, frame.values, i);
          latestInput := latestInput[frame.register + i := frame.values[i]];
        }
        FiledMeaning(before.input, frame.register, frame.values);
      } else if frame.IsReadHold() {
        for i := 0 to |frame.values|
          invariant latestInput == old(latestInput)
          invariant latestHold == Filed(before.hold, frame.register, frame.values[..i])
        {
          FiledNext(before.hold, frame.register, frame.values, i);
          latestHold := latestHold[frame.register + i := frame.values[i]];
        }
        FiledMeaning(before.hold, frame.register, frame.values);
      }
    }
  }

  /** A cache with these values overwriting consecutive registers. */
  function Filed(m: Registers, start: nat, values: seq<u16>): Registers { m + Consecutive(start, values) }

  lemma FiledNext(m: Registers, start: nat, values: seq<u16>, i: nat)
    requires i < |values|
    ensures Filed(m, start, values[..i + 1]) == Filed(m, start, values[..i])[start + i := values[i]]
  {
    assert values[..i + 1][..i] == values[..i];
  }

  lemma FiledMeaning(m: Registers, start: nat, values: seq<u16>)
    ensures var after := Filed(m, start, values);
      && (forall r :: r in after <==> r in m || start <= r < start + |values|)
      && (forall r | r in after :: after[r] == if start <= r < start + |values| then values[r - start] else m[r])
    ensures values[..|values|] == values
  {
  }

  lemma AppliedMeaning(c: Cache, f: LuxFrame)
    ensures Apply(c, f) == if !f.IsTranslatedData() then c
                           else if f.IsReadInput() then Cache(Filed(c.input, f.register, f.values), c.hold)
                           else if f.IsReadHold() then Cache(c.input, Filed(c.hold, f.register, f.values))
                           else c
    ensures Filed(c.input, f.register, f.values[..0]) == c.input && Filed(c.hold, f.register, f.values[..0]) == c.hold
  {
    MergeNone(c);
  }

  // ---- what the cache holds, register by register ------------------------------------------

  /** The frame is a reply to a read of input registers, and reports this one. */
  predicate ReportsInput(f: LuxFrame, r: nat) {
    f.tcpFunction == 0xC2 && f.deviceFunction == 4 && f.register <= r < f.register + |f.values|
  }

  /** The same for holding registers. */
  predicate ReportsHold(f: LuxFrame, r: nat) {
    f.tcpFunction == 0xC2 && f.deviceFunction == 3 && f.register <= r < f.register + |f.values|
  }

  /** Frame k is the last that reports input register r. */
  predicate LastInput(frames: seq<LuxFrame>, r: nat, k: nat) {
    k < |frames| && ReportsInput(frames[k], r) && forall j | k < j < |frames| :: !ReportsInput(frames[j], r)
  }

  predicate LastHold(frames: seq<LuxFrame>, r: nat, k: nat) {
    k < |frames| && ReportsHold(frames[k], r) && forall j | k < j < |frames| :: !ReportsHold(frames[j], r)
  }

  lemma ApplyMeaning(c: Cache, f: LuxFrame, r: nat)
    ensures var d := Apply(c, f);
      && (ReportsInput(f, r) ==> r in d.input && d.input[r] == f.values[r - f.register])
      && (!ReportsInput(f, r) ==> (r in d.input <==> r in c.input) && (r in c.input ==> d.input[r] == c.input[r]))
      && (ReportsHold(f, r) ==> r in d.hold && d.hold[r] == f.values[r - f.register])
      && (!ReportsHold(f, r) ==> (r in d.hold <==> r in c.hold) && (r in c.hold ==> d.hold[r] == c.hold[r]))
  {
    hide Consecutive;
  }

  lemma {:induction false} NoInput(c: Cache, frames: seq<LuxFrame>, r: nat)
    requires forall k | 0 <= k < |frames| :: !ReportsInput(frames[k], r)
    ensures var d := Fold(c, frames);
            (r in d.input <==> r in c.input) && (r in c.input ==> d.input[r] == c.input[r])
    decreases |frames|
  {
    if frames != [] {
      ApplyMeaning(c, frames[0], r);
      hide Apply, ReportsInput;
      assert forall j | 0 <= j < |frames[1..]| :: frames[1..][j] == frames[j + 1];
      NoInput(Apply(c, frames[0]), frames[1..], r);
    }
  }

  /** After any frames an input register holds the value of the last frame that reports it. */
  lemma {:induction false} InputMeaning(c: Cache, frames: seq<LuxFrame>, r: nat, k: nat)
    requires LastInput(frames, r, k)
    ensures var d := Fold(c, frames);
            r in d.input && d.input[r] == frames[k].values[r - frames[k].register]
    decreases |frames|
  {
    ApplyMeaning(c, frames[0], r);
    hide Apply;
    assert forall j | 0 <= j < |frames[1..]| :: frames[1..][j] == frames[j + 1];
    if k == 0 {
      NoInput(Apply(c, frames[0]), frames[1..], r);
    } else {
      InputMeaning(Apply(c, frames[0]), frames[1..], r, k - 1);
    }
  }

  lemma {:induction false} NoHold(c: Cache, frames: seq<LuxFrame>, r: nat)
    requires forall k | 0 <= k < |frames| :: !ReportsHold(frames[k], r)
    ensures var d := Fold(c, frames);
            (r in d.hold <==> r in c.hold) && (r in c.hold ==> d.hold[r] == c.hold[r])
    decreases |frames|
  {
    if frames != [] {
      ApplyMeaning(c, frames[0], r);
      hide Apply, ReportsHold;
      assert forall j | 0 <= j < |frames[1..]| :: frames[1..][j] == frames[j + 1];
      NoHold(Apply(c, frames[0]), frames[1..], r);
    }
  }

  /** After any frames a holding register holds the value of the last frame that reports it. */
  lemma {:induction false} HoldMeaning(c: Cache, frames: seq<LuxFrame>, r: nat, k: nat)
    requires LastHold(frames, r, k)
    ensures var d := Fold(c, frames);
            r in d.hold && d.hold[r] == frames[k].values[r - frames[k].register]
    decreases |frames|
  {
    ApplyMeaning(c, frames[0], r);
    hide Apply;
    assert forall j | 0 <= j < |frames[1..]| :: frames[1..][j] == frames[j + 1];
    if k == 0 {
      NoHold(Apply(c, frames[0]), frames[1..], r);
    } else {
      HoldMeaning(Apply(c, frames[0]), frames[1..], r, k - 1);
    }
  }

  // ---- redelivery --------------------------------------------------------------------------

  lemma {:induction false} FoldAppend(c: Cache, a: seq<LuxFrame>, b: seq<LuxFrame>)
    ensures Fold(c, a + b) == Fold(Fold(c, a), b)
    decreases |a|
  {
    hide Apply;
    if a == [] {
      assert a + b == b;
    } else {
      assert (a + b)[0] == a[0] && (a + b)[1..] == a[1..] + b;
      FoldAppend(Apply(c, a[0]), a[1..], b);
    }
  }

  /** Folding is overwriting with one fixed cache. */
  lemma {:induction false} FoldIsMerge(c: Cache, frames: seq<LuxFrame>)
    ensures Fold(c, frames) == Merge(c, Fold(Cache(map[], map[]), frames))
    decreases |frames|
  {
    var none := Cache(map[], map[]);
    MergeNone(c);
    if frames != [] {
      var u := Update(frames[0]);
      MergeNone(u);
      hide Update, Merge;
      var later := Fold(none, frames[1..]);
      FoldIsMerge(Apply(c, frames[0]), frames[1..]);
      FoldIsMerge(Apply(none, frames[0]), frames[1..]);
      MergeAssociative(c, u, later);
    }
  }

  lemma MergeNone(c: Cache)
    ensures Merge(c, Cache(map[], map[])) == c == Merge(Cache(map[], map[]), c)
  {
  }

  lemma MergeAssociative(a: Cache, b: Cache, c: Cache)
    ensures Merge(Merge(a, b), c) == Merge(a, Merge(b, c))
  {
    MapPlusAssociative(a.input, b.input, c.input);
    MapPlusAssociative(a.hold, b.hold, c.hold);
  }

  lemma MapPlusAssociative(a: Registers, b: Registers, c: Registers)
    ensures (a + b) + c == a + (b + c)
  {
  }

  lemma MergeTwice(a: Cache, b: Cache)
    ensures Merge(Merge(a, b), b) == Merge(a, b)
  {
  }

  /** Delivering frames a second time right after the first changes nothing. */
  lemma FoldTwice(c: Cache, frames: seq<LuxFrame>)
    ensures Fold(Fold(c, frames), frames) == Fold(c, frames)
  {
    FoldIsMerge(c, frames);
    FoldIsMerge(Fold(c, frames), frames);
    hide Fold, Merge;
    MergeTwice(c, Fold(Cache(map[], map[]), frames));
  }
}
