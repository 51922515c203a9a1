/** The time-of-day source schedule of a battery automation. */
module Schedule {
  import opened Wrappers

  /** A time that could not be read is None. */
  datatype Point = Point(time: Option<int>, source: string)

  const DEFAULT_SOURCE := "battery"

  function Key(p: Point): int { if p.time.Some? then p.time.value else 0 }

  predicate Sorted(ps: seq<Point>) {
    forall i, j | 0 <= i < j < |ps| :: Key(ps[i]) <= Key(ps[j])
  }

  /** A stable sort, as Python's `sorted` is. */
  function Insert(p: Point, ps: seq<Point>): seq<Point> {
    if ps == [] || Key(p) <= Key(ps[0]) then [p] + ps else [ps[0]] + Insert(p, ps[1..])
  }

  lemma {:induction false} InsertKeeps(p: Point, ps: seq<Point>)
    requires Sorted(ps)
    ensures Sorted(Insert(p, ps)) && multiset(Insert(p, ps)) == multiset([p] + ps)
    decreases |ps|
  {
    if ps != [] && Key(ps[0]) < Key(p) {
      InsertKeeps(p, ps[1..]);
      InsertStays(p, ps, Insert(p, ps[1..]));
    }
  }

  lemma InsertStays(p: Point, ps: seq<Point>, rest: seq<Point>)
    requires ps != [] && Sorted(ps) && Key(ps[0]) < Key(p)
    requires Sorted(rest) && multiset(rest) == multiset([p] + ps[1..])
    ensures Sorted([ps[0]] + rest) && multiset([ps[0]] + rest) == multiset([p] + ps)
  {
    forall i | 0 <= i < |rest|
      ensures Key(ps[0]) <= Key(rest[i])
    {
      assert rest[i] in multiset(rest);
      assert rest[i] in [p] + ps[1..];
    }
    assert ps == [ps[0]] + ps[1..];
  }

  function Sort(ps: seq<Point>): (r: seq<Point>)
    ensures Sorted(r) && multiset(r) == multiset(ps)
  {
    if ps == [] then []
    else
      assert ps == [ps[0]] + ps[1..];
      InsertKeeps(ps[0], Sort(ps[1..]));
      Insert(ps[0], Sort(ps[1..]))
  }

  /** The points with one key, in their order. */
  function WithKey(ps: seq<Point>, k: int): seq<Point> {
    if ps == [] then []
    else if Key(ps[0]) == k then [ps[0]] + WithKey(ps[1..], k)
    else WithKey(ps[1..], k)
  }

  lemma {:induction false} InsertStable(p: Point, ps: seq<Point>, k: int)
    ensures WithKey(Insert(p, ps), k) == if Key(p) == k then [p] + WithKey(ps, k) else WithKey(ps, k)
    decreases |ps|
  {
    if ps == [] || Key(p) <= Key(ps[0]) {
      WithKeyCons(p, ps, k);
    } else {
      assert Insert(p, ps) == [ps[0]] + Insert(p, ps[1..]);
      hide Insert;
      InsertStable(p, ps[1..], k);
      WithKeyCons(ps[0], Insert(p, ps[1..]), k);
    }
  }

  lemma WithKeyCons(p: Point, rest: seq<Point>, k: int)
    ensures WithKey([p] + rest, k) == if Key(p) == k then [p] + WithKey(rest, k) else WithKey(rest, k)
  {
    assert ([p] + rest)[1..] == rest;
  }

  /** Points with equal times keep their order. */
  lemma {:induction false} SortStable(ps: seq<Point>, k: int)
    ensures WithKey(Sort(ps), k) == WithKey(ps, k)
  {
    if ps != [] {
      SortStable(ps[1..], k);
      InsertStable(ps[0], Sort(ps[1..]), k);
    }
  }

  lemma SortKeeps(ps: seq<Point>)
    ensures AllTimed(Sort(ps)) <==> AllTimed(ps)
    ensures AllAtOnce(Sort(ps)) <==> AllAtOnce(ps)
  {
    SameMembers(ps, Sort(ps));
    hide Sort;
    OnceByMembers(ps);
    OnceByMembers(Sort(ps));
    assert AllTimed(ps) <==> forall p | p in ps :: p.time.Some?;
    assert AllTimed(Sort(ps)) <==> forall p | p in Sort(ps) :: p.time.Some?;
  }

  lemma SameMembers(a: seq<Point>, b: seq<Point>)
    requires multiset(a) == multiset(b)
    ensures forall p :: p in a <==> p in b
  {
    forall p
      ensures p in a <==> p in b
    {
      assert p in a <==> p in multiset(a);
      assert p in b <==> p in multiset(b);
    }
  }

  lemma OnceByMembers(ps: seq<Point>)
    ensures AllAtOnce(ps) <==> forall p, q | p in ps && q in ps :: Key(p) == Key(q)
  {
    if AllAtOnce(ps) {
      forall p, q | p in ps && q in ps
        ensures Key(p) == Key(q)
      {
        var i :| 0 <= i < |ps| && ps[i] == p;
        var j :| 0 <= j < |ps| && ps[j] == q;
        if i < j {
          assert Key(ps[i]) == Key(ps[j]);
        } else if j < i {
          assert Key(ps[j]) == Key(ps[i]);
        }
      }
    } else {
      var i, j :| 0 <= i < j < |ps| && Key(ps[i]) != Key(ps[j]);
      assert ps[i] in ps && ps[j] in ps;
    }
  }

  predicate AllTimed(ps: seq<Point>) { forall i | 0 <= i < |ps| :: ps[i].time.Some? }

  predicate AllAtOnce(ps: seq<Point>) { forall i, j | 0 <= i < j < |ps| :: Key(ps[i]) == Key(ps[j]) }

  function NextIndex(i: nat, n: nat): (k: nat)
    requires i < n
    ensures k == if i + 1 < n then i + 1 else 0
  {
    (i + 1) % n
  }

  /** Whether now lies in the interval from point i to the next one, the last wrapping round midnight. */
  predicate InInterval(ps: seq<Point>, now: int, i: nat)
    requires i < |ps|
  {
    ps[i].time.Some? &&
    var t := ps[i].time.value;
    var next := ps[NextIndex(i, |ps|)].time;
    var nextT := if next.Some? then next.value else t;
    if t <= nextT then t <= now < nextT else now >= t || now < nextT
  }

  /** The source of the first interval, in sorted order, that now lies in, or the default. */
  predicate IsSource(points: seq<Point>, now: int, source: string) {
    var ps := Sort(points);
    if exists i :: 0 <= i < |ps| && InInterval(ps, now, i)
    then exists i :: 0 <= i < |ps| && InInterval(ps, now, i) && source == ps[i].source
                     && forall j | 0 <= j < i :: !InInterval(ps, now, j)
    else source == DEFAULT_SOURCE
  }

  /** The loop of the schedule lookup. */
  method ActiveSource(points: seq<Point>, now: int) returns (source: string)
    ensures IsSource(points, now, source)
  {
    hide NextIndex, Sort;
    source := DEFAULT_SOURCE;
    var ps := Sort(points);
    for i := 0 to |ps|
      invariant source == DEFAULT_SOURCE
      invariant forall j | 0 <= j < i :: !InInterval(ps, now, j)
    {
      if ps[i].time.None? {
        continue;
      }
      var t := ps[i].time.value;
      var next := ps[NextIndex(i, |ps|)].time;
      var nextT := if next.Some? then next.value else t;
      if t <= nextT {
        if t <= now < nextT {
          assert InInterval(ps, now, i);
          return ps[i].source;
        }
      } else {
        if now >= t || now < nextT {
          assert InInterval(ps, now, i);
          return ps[i].source;
        }
      }
    }
  }

  /** The simple meaning: the latest point at or before now, or the last point before the first time. */
  function Latest(ps: seq<Point>, now: int): (i: nat)
    requires ps != []
    ensures i < |ps|
  {
    LatestBelow(ps, now, |ps|)
  }

  function LatestBelow(ps: seq<Point>, now: int, n: nat): (i: nat)
    requires n <= |ps| && ps != []
    ensures i < |ps|
    ensures (exists j :: 0 <= j < n && Key(ps[j]) <= now) ==>
              i < n && Key(ps[i]) <= now && forall j | i < j < n :: now < Key(ps[j])
    ensures (forall j | 0 <= j < n :: now < Key(ps[j])) ==> i == |ps| - 1
    decreases n
  {
    if n == 0 then |ps| - 1
    else if Key(ps[n - 1]) <= now then n - 1
    else LatestBelow(ps, now, n - 1)
  }

  /**
   When all times could be read and are not all the same, now lies in exactly one interval, and
   that is the one of the latest point.
   */
  lemma ExactlyOneInterval(ps: seq<Point>, now: int, i: nat)
    requires Sorted(ps) && AllTimed(ps) && !AllAtOnce(ps) && i < |ps|
    ensures InInterval(ps, now, i) <==> i == Latest(ps, now)
  {
    var n := |ps|;
    var a, b :| 0 <= a < b < n && Key(ps[a]) != Key(ps[b]);
    assert Key(ps[0]) <= Key(ps[a]) && Key(ps[b]) <= Key(ps[n - 1]);
    assert Key(ps[0]) < Key(ps[n - 1]);
    var l := Latest(ps, now);
    hide NextIndex;
    if i + 1 < n {
      assert Key(ps[i]) <= Key(ps[i + 1]);
    }
    if l < i {
      assert Key(ps[l]) <= Key(ps[i]);
    } else if i < l {
      assert Key(ps[i + 1]) <= Key(ps[l]);
    }
  }

  /** When all times are the same, in particular with one point, now lies in no interval. */
  lemma NoInterval(ps: seq<Point>, now: int, i: nat)
    requires AllTimed(ps) && AllAtOnce(ps) && i < |ps|
    ensures !InInterval(ps, now, i)
  {
    hide NextIndex;
    var next := NextIndex(i, |ps|);
    if i != next {
      assert Key(ps[i]) == Key(ps[next]);
    }
  }

  /**
   For points whose times could all be read: now lies in some interval exactly when the times
   are not all the same, and then only in that of the latest point.
   */
  lemma ScheduleMeaning(points: seq<Point>, now: int)
    requires AllTimed(points)
    ensures var ps := Sort(points);
            (exists i :: 0 <= i < |ps| && InInterval(ps, now, i)) <==> !AllAtOnce(points)
    ensures var ps := Sort(points);
            !AllAtOnce(points) ==> forall i | 0 <= i < |ps| :: InInterval(ps, now, i) <==> i == Latest(ps, now)
  {
    SortKeeps(points);
    var ps := Sort(points);
    hide Sort;
    if AllAtOnce(ps) {
      forall i | 0 <= i < |ps|
        ensures !InInterval(ps, now, i)
      {
        NoInterval(ps, now, i);
      }
    } else {
      forall i | 0 <= i < |ps|
        ensures InInterval(ps, now, i) <==> i == Latest(ps, now)
      {
        ExactlyOneInterval(ps, now, i);
      }
      assert InInterval(ps, now, Latest(ps, now));
    }
  }

  /** So the source is that of the latest point, or the default when all times are the same. */
  lemma SourceMeaning(points: seq<Point>, now: int, source: string)
    requires AllTimed(points)
    ensures AllAtOnce(points) ==> (IsSource(points, now, source) <==> source == "battery")
    ensures !AllAtOnce(points) ==>
              var ps := Sort(points);
              ps != [] && (IsSource(points, now, source) <==> source == ps[Latest(ps, now)].source)
  {
    ScheduleMeaning(points, now);
    SortKeeps(points);
    var ps := Sort(points);
    hide *;
    if ps == [] {
      OnlyOne(ps);
      NothingSorted(points, now, source);
    } else if AllAtOnce(points) {
      NoneOf(points, now, source);
    } else {
      OneOf(points, now, Latest(ps, now), source);
    }
  }

  /** In an unsorted list this is the latest point: the last of those with the latest time not after now. */
  predicate LatestOf(points: seq<Point>, now: int, i: nat) {
    && i < |points|
    && (forall j | i < j < |points| :: Key(points[j]) != Key(points[i]))
    && if Key(points[i]) <= now then
         forall j | 0 <= j < |points| && Key(points[j]) <= now :: Key(points[j]) <= Key(points[i])
       else forall j | 0 <= j < |points| :: now < Key(points[j]) <= Key(points[i])
  }

  /**
   In terms of the list as it is given, all of its times readable and not all the same: the source
   is that of the point with the latest time not after now, or with the latest time of all when
   none is; of points with that time, the last.
   */
  lemma SourceOfLatest(points: seq<Point>, now: int, i: nat, source: string)
    requires forall j | 0 <= j < |points| :: points[j].time.Some?
    requires exists j, k :: 0 <= j < k < |points| && points[j].time != points[k].time
    requires i < |points|
    requires forall j | i < j < |points| :: points[j].time != points[i].time
    requires if points[i].time.value <= now then
               forall j | 0 <= j < |points| && points[j].time.value <= now ::
                 points[j].time.value <= points[i].time.value
             else forall j | 0 <= j < |points| :: now < points[j].time.value <= points[i].time.value
    ensures IsSource(points, now, source) <==> source == points[i].source
  {
    hide *;
    NotAtOnce(points);
    SourceMeaning(points, now, source);
    TimesAreKeys(points, now, i);
    LatestIsLatestOf(points, now, i);
  }

  lemma TimesAreKeys(points: seq<Point>, now: int, i: nat)
    requires forall j | 0 <= j < |points| :: points[j].time.Some?
    requires i < |points| && forall j | i < j < |points| :: points[j].time != points[i].time
    requires if points[i].time.value <= now then
               forall j | 0 <= j < |points| && points[j].time.value <= now ::
                 points[j].time.value <= points[i].time.value
             else forall j | 0 <= j < |points| :: now < points[j].time.value <= points[i].time.value
    ensures LatestOf(points, now, i)
  {
  }

  lemma NotAtOnce(points: seq<Point>)
    requires forall j | 0 <= j < |points| :: points[j].time.Some?
    requires exists j, k :: 0 <= j < k < |points| && points[j].time != points[k].time
    ensures AllTimed(points) && !AllAtOnce(points)
  {
    var j, k :| 0 <= j < k < |points| && points[j].time != points[k].time;
    assert Key(points[j]) != Key(points[k]);
  }

  lemma LatestIsLatestOf(points: seq<Point>, now: int, i: nat)
    requires LatestOf(points, now, i)
    ensures Sort(points) != [] && Sort(points)[Latest(Sort(points), now)] == points[i]
  {
    var ps, k := Sort(points), Key(points[i]);
    SameMembers(points, ps);
    SortStable(points, k);
    hide Sort;
    assert points[i] in ps;
    var m :| 0 <= m < |ps| && ps[m] == points[i];
    var l := Latest(ps, now);
    assert ps[l] in points;
    LatestMeaning(ps, now, m);
    assert forall p | p in ps :: p in points;
    assert forall j | l < j < |ps| :: ps[j] in ps && ps[j] in points;
    LastWithKey(points, k, i);
    LastWithKey(ps, k, l);
  }

  lemma LatestMeaning(ps: seq<Point>, now: int, m: nat)
    requires Sorted(ps) && m < |ps|
    ensures var l := Latest(ps, now);
      && (Key(ps[m]) <= now ==>
            m <= l && Key(ps[m]) <= Key(ps[l]) <= now && forall j | l < j < |ps| :: now < Key(ps[j]))
      && ((forall j | 0 <= j < |ps| :: now < Key(ps[j])) ==> l == |ps| - 1 && Key(ps[m]) <= Key(ps[l]))
  {
  }

  /** The last point with one key. */
  lemma {:induction false} LastWithKey(ps: seq<Point>, k: int, i: nat)
    requires i < |ps| && Key(ps[i]) == k && forall j | i < j < |ps| :: Key(ps[j]) != k
    ensures var w := WithKey(ps, k); w != [] && w[|w| - 1] == ps[i]
    decreases |ps|
  {
    if i == 0 {
      NoneWithKey(ps[1..], k);
    } else {
      LastWithKey(ps[1..], k, i - 1);
    }
  }

  lemma {:induction false} NoneWithKey(ps: seq<Point>, k: int)
    requires forall j | 0 <= j < |ps| :: Key(ps[j]) != k
    ensures WithKey(ps, k) == []
    decreases |ps|
  {
    if ps != [] {
      NoneWithKey(ps[1..], k);
    }
  }

  lemma OnlyOne(ps: seq<Point>)
    ensures |ps| <= 1 ==> AllAtOnce(ps)
  {
  }

  lemma NothingSorted(points: seq<Point>, now: int, source: string)
    requires Sort(points) == []
    ensures IsSource(points, now, source) <==> source == DEFAULT_SOURCE
  {
    hide Sort, InInterval;
  }

  lemma NoneOf(points: seq<Point>, now: int, source: string)
    requires !exists i :: 0 <= i < |Sort(points)| && InInterval(Sort(points), now, i)
    ensures IsSource(points, now, source) <==> source == DEFAULT_SOURCE
  {
    hide Sort, InInterval;
  }

  lemma OneOf(points: seq<Point>, now: int, l: nat, source: string)
    requires l < |Sort(points)|
    requires forall i | 0 <= i < |Sort(points)| :: InInterval(Sort(points), now, i) <==> i == l
    ensures IsSource(points, now, source) <==> source == Sort(points)[l].source
  {
    hide Sort, InInterval;
    assert InInterval(Sort(points), now, l);
  }
}
