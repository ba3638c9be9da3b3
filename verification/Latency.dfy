/** The latency histogram of internal/summary/summary.go: bounds each a quarter wider than
    the one before, counters between them, and percentiles read off the counters. */
module Latency {
  import opened Ordering
  import opened Sequences

  const LOWEST := 500_000
  const TOP := 120_000_000_000
  const COUNTERS := 64

  // ---------------------------------------------------------------- the bounds

  /** A quarter more, as truncated to whole nanoseconds. */
  function Wider(b: int): int {
    5 * b / 4
  }

  function Bounds(b: int): seq<int>
    requires b >= LOWEST
    decreases TOP - b
  {
    if b < TOP then [b] + Bounds(Wider(b)) else []
  }

  /** What the histogram needs of its bounds: they rise, each at most a quarter above the
      one before, and leave room among the counters for what lies above them all. */
  ghost predicate Ladder(bounds: seq<int>) {
    && 0 < |bounds| < COUNTERS
    && (forall i, j | 0 <= i < j < |bounds| :: bounds[i] < bounds[j])
    && (forall i, j | 0 <= i && j == i + 1 && j < |bounds| :: 4 * bounds[j] <= 5 * bounds[i])
  }

  lemma {:induction false} BoundsStep(b: int, i: nat)
    requires b >= LOWEST && i < |Bounds(b)|
    ensures Bounds(b)[i] >= b
    ensures i == 0 ==> Bounds(b)[0] == b
    ensures i > 0 ==> Bounds(b)[i] == Wider(Bounds(b)[i - 1])
    decreases i
  {
    if i > 0 {
      BoundsStep(Wider(b), i - 1);
    }
  }

  /** Each bound is above the one before, and at most a quarter more. */
  lemma {:induction false} BoundsRise(b: int, i: nat, j: nat)
    requires b >= LOWEST && i < j < |Bounds(b)|
    ensures LOWEST <= Bounds(b)[i] < Bounds(b)[j]
    ensures j == i + 1 ==> 4 * Bounds(b)[j] <= 5 * Bounds(b)[i]
    decreases j
  {
    BoundsStep(b, i);
    BoundsStep(b, j);
    BoundsStep(b, j - 1);
    if i < j - 1 {
      BoundsRise(b, i, j - 1);
    }
  }

  function After(b: int, steps: nat): int
    decreases steps
  {
    if steps == 0 then b else After(Wider(b), steps - 1)
  }

  lemma {:induction false} LengthAfter(b: int, steps: nat)
    requires b >= LOWEST
    ensures After(b, steps) >= LOWEST && |Bounds(b)| <= steps + |Bounds(After(b, steps))|
    decreases steps
  {
    if steps > 0 {
      LengthAfter(Wider(b), steps - 1);
    }
  }

  function Tripled(b: int, times: nat): int
    decreases times
  {
    if times == 0 then b else Tripled(3 * b, times - 1)
  }

  lemma {:induction false} TripledGrows(a: int, b: int, times: nat)
    requires a <= b
    ensures Tripled(a, times) <= Tripled(b, times)
    decreases times
  {
    if times > 0 {
      TripledGrows(3 * a, 3 * b, times - 1);
    }
  }

  lemma {:induction false} FewBounds(b: int, times: nat)
    requires b >= LOWEST && Tripled(b, times) >= TOP
    ensures |Bounds(b)| <= 5 * times
    decreases times
  {
    if times > 0 {
      LengthAfter(b, 5);
      TripledGrows(3 * b, After(b, 5), times - 1);
      FewBounds(After(b, 5), times - 1);
    }
  }

  /** Twelve triplings lead from half a millisecond past two minutes. */
  lemma TwelveTriplings(b: int)
    requires b == LOWEST
    ensures Tripled(b, 12) >= TOP
  {
    var b3, b6, b9 := 27 * b, 729 * b, 19683 * b;
    assert Tripled(b, 12) == Tripled(b3, 9);
    assert Tripled(b3, 9) == Tripled(b6, 6);
    assert Tripled(b6, 6) == Tripled(b9, 3);
    assert Tripled(b9, 3) == 27 * b9;
  }

  lemma BoundsClimb(b: int)
    requires b == LOWEST
    ensures Ladder(Bounds(b))
    ensures Bounds(b)[0] == LOWEST && |Bounds(b)| <= 60
  {
    TwelveTriplings(b);
    FewBounds(b, 12);
    BoundsStep(b, 0);
    forall i, j | 0 <= i < j < |Bounds(b)|
      ensures Bounds(b)[i] < Bounds(b)[j]
      ensures j == i + 1 ==> 4 * Bounds(b)[j] <= 5 * Bounds(b)[i]
    {
      BoundsRise(b, i, j);
    }
  }

  /** At most sixty bounds, so that sixty-four counters are enough. */
  method LatencyBounds() returns (bounds: seq<int>)
    ensures Ladder(bounds) && bounds[0] == LOWEST && |bounds| <= 60
  {
    bounds := [];
    var b := LOWEST;
    ghost var first := b;
    assert bounds + Bounds(b) == Bounds(first);
    while b < TOP
      invariant b >= LOWEST == first && bounds + Bounds(b) == Bounds(first)
      decreases TOP - b
    {
      Associate(bounds, [b], Bounds(Wider(b)));
      bounds := bounds + [b];
      b := Wider(b);
    }
    assert bounds + [] == bounds;
    BoundsClimb(first);
  }

  // ---------------------------------------------------------------- buckets

  /** The first bound from the k-th on that is not below the duration. */
  function FirstFrom(bounds: seq<int>, d: int, k: nat): (i: nat)
    requires k <= |bounds|
    ensures k <= i <= |bounds|
    ensures forall l | k <= l < i :: bounds[l] < d
    ensures i < |bounds| ==> bounds[i] >= d
    decreases |bounds| - k
  {
    if k < |bounds| && bounds[k] < d then FirstFrom(bounds, d, k + 1) else k
  }

  /** The bucket of a duration: how many bounds lie below it. */
  function Bucket(bounds: seq<int>, d: int): (i: nat)
    ensures i <= |bounds|
  {
    FirstFrom(bounds, d, 0)
  }

  lemma {:induction false} FirstIs(bounds: seq<int>, d: int, k: nat, i: nat)
    requires k <= i <= |bounds|
    requires forall l | k <= l < i :: bounds[l] < d
    requires i < |bounds| ==> bounds[i] >= d
    ensures FirstFrom(bounds, d, k) == i
    decreases i - k
  {
    if k < i {
      FirstIs(bounds, d, k + 1, i);
    }
  }

  /** Binary search: the first bound not below the duration. */
  method Search(bounds: seq<int>, d: int) returns (i: nat)
    requires Ladder(bounds)
    ensures i == Bucket(bounds, d)
  {
    var j;
    i, j := 0, |bounds|;
    while i < j
      invariant i <= j <= |bounds|
      invariant forall k | 0 <= k < i :: bounds[k] < d
      invariant forall k | j <= k < |bounds| :: bounds[k] >= d
    {
      var h := (i + j) / 2;
      if bounds[h] < d {
        i := h + 1;
      } else {
        j := h;
      }
    }
    FirstIs(bounds, d, 0, i);
  }

  // ---------------------------------------------------------------- counting

  ghost function InOne(bounds: seq<int>, seen: seq<int>, i: nat): nat
    requires Ladder(bounds)
  {
    if seen == [] then 0
    else InOne(bounds, seen[..|seen| - 1], i) + if Bucket(bounds, seen[|seen| - 1]) == i then 1 else 0
  }

  ghost function Below(bounds: seq<int>, seen: seq<int>, i: nat): nat
    requires Ladder(bounds)
  {
    if seen == [] then 0
    else Below(bounds, seen[..|seen| - 1], i) + if Bucket(bounds, seen[|seen| - 1]) < i then 1 else 0
  }

  function AtMost(seen: seq<int>, x: int): nat {
    if seen == [] then 0
    else AtMost(seen[..|seen| - 1], x) + if seen[|seen| - 1] <= x then 1 else 0
  }

  /** The longest seen, or zero. */
  function Longest(seen: seq<int>): int {
    if seen == [] then 0
    else
      var m := Longest(seen[..|seen| - 1]);
      if seen[|seen| - 1] > m then seen[|seen| - 1] else m
  }

  lemma {:induction false} BelowNext(bounds: seq<int>, seen: seq<int>, i: nat)
    requires Ladder(bounds)
    ensures Below(bounds, seen, i + 1) == Below(bounds, seen, i) + InOne(bounds, seen, i)
    ensures Below(bounds, seen, 0) == 0 && Below(bounds, seen, i + 1) <= |seen|
  {
    if seen != [] {
      BelowNext(bounds, seen[..|seen| - 1], i);
    }
  }

  lemma {:induction false} BelowIsAtMost(bounds: seq<int>, seen: seq<int>, i: nat)
    requires Ladder(bounds)
    requires i < |bounds|
    ensures Below(bounds, seen, i + 1) == AtMost(seen, bounds[i])
  {
    if seen != [] {
      BelowIsAtMost(bounds, seen[..|seen| - 1], i);
    }
  }

  lemma {:induction false} BelowAll(bounds: seq<int>, seen: seq<int>, i: nat)
    requires Ladder(bounds)
    requires i > |bounds|
    ensures Below(bounds, seen, i) == |seen|
  {
    if seen != [] {
      BelowAll(bounds, seen[..|seen| - 1], i);
    }
  }

  lemma {:induction false} LongestIs(seen: seq<int>, d: int)
    ensures d in seen ==> d <= Longest(seen)
    ensures Longest(seen) >= 0
  {
    if seen != [] {
      LongestIs(seen[..|seen| - 1], d);
      LastApart(seen);
    }
  }

  class Histogram {
    const bounds: seq<int>
    const counts: array<nat>
    var count: nat
    var max: int

    ghost var seen: seq<int>

    ghost predicate Valid()
      reads this, counts
    {
      && Ladder(bounds) && counts.Length == COUNTERS
      && (forall i | 0 <= i < COUNTERS :: counts[i] == InOne(bounds, seen, i))
      && count == |seen| && max == Longest(seen)
    }

    constructor (bounds: seq<int>)
      requires Ladder(bounds)
      ensures Valid() && seen == [] && fresh(counts) && this.bounds == bounds
    {
      this.bounds := bounds;
      counts := new nat[COUNTERS](_ => 0);
      count, max, seen := 0, 0, [];
    }

    method Add(d: int)
      requires Valid()
      modifies this, counts
      ensures Valid() && seen == old(seen) + [d]
    {
      var i := Search(bounds, d);
      PushInit(seen, d);
      counts[i] := counts[i] + 1;
      count := count + 1;
      if d > max {
        max := d;
      }
      seen := seen + [d];
    }

    /** The upper edge of the bucket the percentile falls into, but never more than the longest
        seen. */
    method Percentile(share: real) returns (p: int)
      requires Valid()
      ensures count == 0 ==> p == 0
      ensures count > 0 && 0.0 < share <= 1.0 ==> Reads(bounds, seen, RankOf(share, count), p)
      ensures count > 0 && share <= 0.0 ==> p == if bounds[0] < max then bounds[0] else max
      ensures count > 0 && share > 1.0 ==> p == max
    {
      if count == 0 {
        return 0;
      }
      var rank := RankOf(share, count);
      RankWithin(share, count);
      p := AtRank(rank);
    }

    method AtRank(rank: int) returns (p: int)
      requires Valid()
      ensures 1 <= rank <= count ==> Reads(bounds, seen, rank, p)
      ensures rank < 1 ==> p == if bounds[0] < max then bounds[0] else max
      ensures rank > count ==> p == max
    {
      var total := 0;
      BelowNext(bounds, seen, 0);
      for i := 0 to COUNTERS
        invariant total == Below(bounds, seen, i)
        invariant i > 0 ==> total < rank
      {
        BelowNext(bounds, seen, i);
        total := total + counts[i];
        if total >= rank {
          if i < |bounds| && bounds[i] < max {
            return bounds[i];
          }
          return max;
        }
      }
      BelowAll(bounds, seen, COUNTERS);
      return max;
    }
  }

  function Ceil(x: real): (n: int)
    ensures (n - 1) as real < x <= n as real
  {
    -(-x).Floor
  }

  /** The share of a count, rounded up. */
  function RankOf(share: real, count: nat): int {
    Ceil(share * count as real)
  }

  lemma RankWithin(share: real, count: nat)
    requires count > 0
    ensures 0 < RankOf(share, count) <==> 0.0 < share
    ensures RankOf(share, count) <= count <==> share <= 1.0
  {
    var x := PartOf(share, count as real);
    CeilWithin(x, count);
  }

  lemma CeilWithin(x: real, count: nat)
    ensures 0 < Ceil(x) <==> 0.0 < x
    ensures Ceil(x) <= count <==> x <= count as real
  {
  }

  lemma PartOf(share: real, n: real) returns (x: real)
    requires 0.0 < n
    ensures x == share * n && (0.0 < x <==> 0.0 < share) && (x <= n <==> share <= 1.0)
  {
    x := share * n;
    if share <= 1.0 {
      assert (1.0 - share) * n >= 0.0;
    } else {
      assert (share - 1.0) * n > 0.0;
    }
  }

  /** The answer belongs to the first bucket up to which at least `rank` durations lie. */
  ghost predicate Reads(bounds: seq<int>, seen: seq<int>, rank: nat, p: int)
    requires Ladder(bounds)
  {
    exists i | 0 <= i < COUNTERS ::
      && Below(bounds, seen, i) < rank <= Below(bounds, seen, i + 1)
      && p == if i < |bounds| && bounds[i] < Longest(seen) then bounds[i] else Longest(seen)
  }

  // ---------------------------------------------------------------- the error

  predicate Less(a: int, b: int) { a < b }

  /** The rank-th smallest of what was seen. */
  function Smallest(seen: seq<int>, rank: nat): int
    requires 1 <= rank <= |seen|
  {
    Sort(Less, seen)[rank - 1]
  }

  ghost predicate Rising(s: seq<int>) {
    forall i, j | 0 <= i < j < |s| :: s[i] <= s[j]
  }

  /** Of a sorted list, at least `rank` lie at or below x just when the rank-th does. */
  lemma {:induction false} SortedAtMost(s: seq<int>, x: int, rank: nat)
    requires Rising(s) && 1 <= rank <= |s|
    ensures AtMost(s, x) >= rank <==> s[rank - 1] <= x
    ensures AtMost(s, x) <= |s|
  {
    var n := |s| - 1;
    if n == 0 {
      assert s[..0] == [];
    } else if rank <= n {
      SortedAtMost(s[..n], x, rank);
      if s[n] <= x {
        assert s[rank - 1] <= s[n];
        SortedAtMost(s[..n], x, n);
      }
    } else {
      SortedAtMost(s[..n], x, n);
      assert s[n - 1] <= s[n];
    }
  }

  function Kept(x: int): int -> seq<int> {
    v => if v <= x then [v] else []
  }

  lemma {:induction false} AtMostGathers(s: seq<int>, x: int)
    ensures AtMost(s, x) == |Gather(s, Kept(x))|
  {
    if s != [] {
      AtMostGathers(s[..|s| - 1], x);
    }
  }

  lemma AtMostAnyOrder(a: seq<int>, b: seq<int>, x: int)
    requires multiset(a) == multiset(b)
    ensures AtMost(a, x) == AtMost(b, x)
  {
    AtMostGathers(a, x);
    AtMostGathers(b, x);
    GatherAnyOrder(a, b, Kept(x));
    SameMembers(Gather(a, Kept(x)), Gather(b, Kept(x)));
  }

  lemma SmallestBy(seen: seq<int>, rank: nat, x: int)
    requires 1 <= rank <= |seen|
    ensures AtMost(seen, x) >= rank <==> Smallest(seen, rank) <= x
  {
    var s := Sort(Less, seen);
    SortAscending(Less, seen, Members(seen));
    assert Rising(s) by {
      assert forall i, j | 0 <= i < j < |s| :: !Less(s[j], s[i]);
    }
    AtMostAnyOrder(seen, s, x);
    SortedAtMost(s, x, rank);
  }

  lemma SmallestSeen(seen: seq<int>, rank: nat)
    requires 1 <= rank <= |seen|
    ensures Smallest(seen, rank) <= Longest(seen)
  {
    SameMembers(seen, Sort(Less, seen));
    assert Smallest(seen, rank) in Members(Sort(Less, seen));
    LongestIs(seen, Smallest(seen, rank));
  }

  /** A percentile is never below the true one nor above the longest seen, and between the
      first bound and the last it is at most a quarter above the true one. */
  lemma PercentileError(bounds: seq<int>, seen: seq<int>, rank: nat, p: int)
    requires Ladder(bounds)
    requires 1 <= rank <= |seen| && Reads(bounds, seen, rank, p)
    ensures Smallest(seen, rank) <= p <= Longest(seen)
    ensures bounds[0] < Smallest(seen, rank) <= bounds[|bounds| - 1] ==> 4 * p <= 5 * Smallest(seen, rank)
  {
    var i :| 0 <= i < COUNTERS && Below(bounds, seen, i) < rank <= Below(bounds, seen, i + 1)
      && p == if i < |bounds| && bounds[i] < Longest(seen) then bounds[i] else Longest(seen);
    SmallestSeen(seen, rank);
    if i < |bounds| {
      BucketEdges(bounds, seen, rank, i);
    } else {
      NotAboveAll(bounds, seen, rank, i);
    }
  }

  /** The rank-th smallest lies between the edges of the bucket that reaches the rank. */
  lemma BucketEdges(bounds: seq<int>, seen: seq<int>, rank: nat, i: nat)
    requires Ladder(bounds) && 1 <= rank <= |seen| && i < |bounds|
    requires Below(bounds, seen, i) < rank <= Below(bounds, seen, i + 1)
    ensures Smallest(seen, rank) <= bounds[i]
    ensures i > 0 ==> bounds[i - 1] < Smallest(seen, rank) && 4 * bounds[i] <= 5 * bounds[i - 1]
  {
    BelowIsAtMost(bounds, seen, i);
    SmallestBy(seen, rank, bounds[i]);
    if i > 0 {
      BelowIsAtMost(bounds, seen, i - 1);
      SmallestBy(seen, rank, bounds[i - 1]);
    }
  }

  lemma NotAboveAll(bounds: seq<int>, seen: seq<int>, rank: nat, i: nat)
    requires Ladder(bounds)
    requires 1 <= rank <= |seen| && i >= |bounds| > 0 && Below(bounds, seen, i) < rank
    ensures Smallest(seen, rank) > bounds[|bounds| - 1]
  {
    if i > |bounds| {
      BelowAll(bounds, seen, i);
    } else {
      PastLast(bounds, seen, rank);
    }
  }

  lemma PastLast(bounds: seq<int>, seen: seq<int>, rank: nat)
    requires Ladder(bounds) && bounds != [] && 1 <= rank <= |seen| && Below(bounds, seen, |bounds|) < rank
    ensures Smallest(seen, rank) > bounds[|bounds| - 1]
  {
    var last := |bounds| - 1;
    BelowIsAtMost(bounds, seen, last);
    SmallestBy(seen, rank, bounds[last]);
  }
}
