/** The minute ring of internal/alerts/alerts.go: the traffic of the last two hours,
    counted by the minute in 120 slots. */
module Minutes {
  import opened Wrappers
  import opened Sequences
  import opened Facts

  const RING := 120

  datatype Answer = NoAnswer | Blocked | ServerError | Other

  /** What a request counts as; summary.AnswerOf, with the answers not told apart here in one. */
  function AnswerOf(r: Request): Answer {
    if r.decision == BLOCK || r.decision == RATELIMIT then Blocked
    else if r.status >= 500 then ServerError
    else if r.status >= 100 then Other
    else NoAnswer
  }

  datatype Tally = Tally(requests: nat, blocked: nat, reached: nat, failed: nat, rules: map<string, nat>)

  const NOTHING := Tally(0, 0, 0, 0, map[])

  datatype Minute = Minute(stamp: int, tally: Tally)

  function Of(rules: map<string, nat>, id: string): nat {
    if id in rules then rules[id] else 0
  }

  function With(t: Tally, r: Request): Tally {
    var answer := AnswerOf(r);
    Tally(t.requests + 1,
          t.blocked + if answer == Blocked then 1 else 0,
          t.reached + if answer in {ServerError, Other} then 1 else 0,
          t.failed + if answer == ServerError then 1 else 0,
          if answer == Blocked && r.rule != "" then t.rules[r.rule := Of(t.rules, r.rule) + 1] else t.rules)
  }

  function Together(a: map<string, nat>, b: map<string, nat>): map<string, nat> {
    map id | id in a.Keys + b.Keys :: Of(a, id) + Of(b, id)
  }

  function Plus(a: Tally, b: Tally): Tally {
    Tally(a.requests + b.requests, a.blocked + b.blocked, a.reached + b.reached, a.failed + b.failed,
          Together(a.rules, b.rules))
  }

  // ---------------------------------------------------------------- the ring as a value

  function Written(slots: seq<Minute>, m: nat, r: Request): (s: seq<Minute>)
    requires |slots| == RING
    ensures |s| == RING
  {
    var slot := slots[m % RING];
    if slot.stamp > m then slots
    else slots[m % RING := Minute(m, With(if slot.stamp == m then slot.tally else NOTHING, r))]
  }

  /** What the ring says of one minute. */
  function Shown(slots: seq<Minute>, m: nat): Tally
    requires |slots| == RING
  {
    if slots[m % RING].stamp == m then slots[m % RING].tally else NOTHING
  }

  function SumOf(slots: seq<Minute>, from: nat, to: nat): Tally
    requires |slots| == RING
  {
    if from >= to then NOTHING else Plus(SumOf(slots, from, to - 1), Shown(slots, to - 1))
  }

  const FRESH := seq(RING, _ => Minute(0, NOTHING))

  class Watcher {
    const ring: array<Minute>

    ghost predicate Valid() {
      ring.Length == RING
    }

    constructor ()
      ensures Valid() && fresh(ring) && ring[..] == FRESH
    {
      ring := new Minute[RING](_ => Minute(0, NOTHING));
    }

    /** Counts a request in its minute. */
    method Write(m: nat, r: Request)
      requires Valid()
      modifies ring
      ensures ring[..] == Written(old(ring[..]), m, r)
    {
      var slot := ring[m % RING];
      if slot.stamp > m {
        return;
      }
      if slot.stamp != m {
        slot := Minute(m, NOTHING);
      }
      var t := slot.tally;
      t := t.(requests := t.requests + 1);
      match AnswerOf(r) {
        case Blocked =>
          t := t.(blocked := t.blocked + 1);
          if r.rule != "" {
            t := t.(rules := t.rules[r.rule := Of(t.rules, r.rule) + 1]);
          }
        case ServerError => t := t.(reached := t.reached + 1, failed := t.failed + 1);
        case NoAnswer =>
        case Other => t := t.(reached := t.reached + 1);
      }
      ring[m % RING] := Minute(m, t);
    }

    method Sum(from: nat, to: nat) returns (total: Tally)
      requires Valid()
      ensures total == SumOf(ring[..], from, to)
    {
      total := NOTHING;
      ghost var sums := Sums(ring[..], from, to);
      var m := from;
      while m < to
        invariant from <= m && m - from < |sums|
        invariant total == sums[m - from]
      {
        var s := ring[m % RING];
        if s.stamp == m {
          total := Plus(total, s.tally);
        }
        assert sums[m + 1 - from] == Stepped(sums[m - from], s, m);
        m := m + 1;
      }
    }

    /** What the traffic of the last window triggers, the minute under way left out. */
    method Traffic(o: Limits, now: nat, win: nat, sinceStart: nat) returns (found: set<string>)
      requires Valid() && now >= win + BASELINE
      ensures found == Triggered(o, SumOf(ring[..], now - win, now), BaseOf(ring[..], now, win, sinceStart),
                                 win, Covered(sinceStart, win))
    {
      var cur := Sum(now - win, now);
      found := if SiteFails(o, cur) then {SITE_DOWN} else {};
      var covered := Covered(sinceStart, win);
      if covered.None? {
        return;
      }
      var base := Sum(now - win - covered.value, now - win);
      var spikes := Spikes(o, cur, base, win, covered.value);
      found := found + spikes;
    }
  }

  method Spikes(o: Limits, cur: Tally, base: Tally, win: nat, covered: nat) returns (found: set<string>)
    requires covered > 0
    ensures found == Spiking(o, cur, base, win, covered)
  {
    found := {};
    if Spike(o, cur.requests, Usual(base.requests, win, covered), o.spikeMinRequests) {
      found := found + {REQUESTS_SPIKE};
    }
    if Spike(o, cur.blocked, Usual(base.blocked, win, covered), o.spikeMinBlocked) {
      found := found + {BLOCKED_SPIKE};
    }
    var spiking := RuleSpikes(o, cur, base, win, covered);
    found := found + spiking;
  }

  method RuleSpikes(o: Limits, cur: Tally, base: Tally, win: nat, covered: nat) returns (found: set<string>)
    requires covered > 0
    ensures found == SpikingRules(o, cur, base, win, covered)
  {
    found := {};
    var left := cur.rules.Keys;
    while left != {}
      invariant left <= cur.rules.Keys
      invariant found == set id | id in cur.rules.Keys - left && RuleSpikesAt(o, cur, base, win, covered, id) ::
                                  RULE_SPIKE + id
    {
      var id :| id in left;
      if RuleSpikesAt(o, cur, base, win, covered, id) {
        found := found + {RULE_SPIKE + id};
      }
      left := left - {id};
    }
  }

  // ---------------------------------------------------------------- what it is compared for

  const SITE_DOWN := "site_down"
  const RULE_SPIKE := "rule_spike:"
  const REQUESTS_SPIKE := "requests_spike"
  const BLOCKED_SPIKE := "blocked_spike"

  /** The thresholds of the checks of traffic. */
  datatype Limits = Limits(siteErrorShare: real, siteMinRequests: int, spikeFactor: real,
                           spikeMinRequests: int, spikeMinBlocked: int, ruleMinMatches: int)

  predicate SiteFails(o: Limits, cur: Tally) {
    cur.reached >= o.siteMinRequests && cur.reached > 0 && cur.failed as real >= o.siteErrorShare * cur.reached as real
  }

  /** A count of the stretch before, scaled to the window. */
  function Usual(n: nat, win: nat, covered: nat): real
    requires covered > 0
  {
    n as real * win as real / covered as real
  }

  predicate Spike(o: Limits, n: nat, usual: real, least: int) {
    n >= least && n as real >= o.spikeFactor * usual
  }

  predicate RuleSpikesAt(o: Limits, cur: Tally, base: Tally, win: nat, covered: nat, id: string)
    requires covered > 0 && id in cur.rules
  {
    Spike(o, cur.rules[id], Usual(Of(base.rules, id), win, covered), o.ruleMinMatches)
  }

  function SpikingRules(o: Limits, cur: Tally, base: Tally, win: nat, covered: nat): set<string>
    requires covered > 0
  {
    set id | id in cur.rules && RuleSpikesAt(o, cur, base, win, covered, id) :: RULE_SPIKE + id
  }

  function Spiking(o: Limits, cur: Tally, base: Tally, win: nat, covered: nat): set<string>
    requires covered > 0
  {
    (if Spike(o, cur.requests, Usual(base.requests, win, covered), o.spikeMinRequests) then {REQUESTS_SPIKE} else {})
    + (if Spike(o, cur.blocked, Usual(base.blocked, win, covered), o.spikeMinBlocked) then {BLOCKED_SPIKE} else {})
    + SpikingRules(o, cur, base, win, covered)
  }

  /** The triggers of a window, against the stretch before it. */
  function Triggered(o: Limits, cur: Tally, base: Tally, win: nat, covered: Option<nat>): set<string>
    requires covered.Some? ==> covered.value > 0
  {
    (if SiteFails(o, cur) then {SITE_DOWN} else {})
    + if covered.None? then {} else Spiking(o, cur, base, win, covered.value)
  }

  const BASELINE := 60
  const BASELINE_NEEDED := 30

  /** How many minutes before the window it is compared with, once enough have passed since
      the start. */
  function Covered(sinceStart: nat, win: nat): (n: Option<nat>)
    ensures n.Some? ==> BASELINE_NEEDED <= n.value <= BASELINE
  {
    if sinceStart < win + BASELINE_NEEDED then None
    else Some(if sinceStart - win > BASELINE then BASELINE else sinceStart - win)
  }

  /** The minutes before the window that are read. */
  function Before(sinceStart: nat, win: nat): (n: nat)
    ensures n <= BASELINE
  {
    match Covered(sinceStart, win)
    case None => 0
    case Some(n) => n
  }

  /** The stretch before the window, as the ring shows it. */
  function BaseOf(slots: seq<Minute>, now: nat, win: nat, sinceStart: nat): Tally
    requires |slots| == RING && now >= win + BASELINE
  {
    SumOf(slots, now - win - Before(sinceStart, win), now - win)
  }

  lemma PlusNothing(t: Tally)
    ensures Plus(t, NOTHING) == t
  {
    assert Together(t.rules, map[]) == t.rules;
  }

  /** A sum with one minute more, if its slot shows it. */
  function Stepped(before: Tally, s: Minute, m: nat): Tally {
    if s.stamp == m then Plus(before, s.tally) else before
  }

  /** The sums up to each minute of the range. */
  lemma {:induction false} Sums(slots: seq<Minute>, from: nat, to: nat) returns (sums: seq<Tally>)
    requires |slots| == RING
    ensures |sums| == (if from < to then to - from else 0) + 1
    ensures sums[0] == NOTHING && sums[|sums| - 1] == SumOf(slots, from, to)
    ensures forall i | 0 <= i < |sums| - 1 :: sums[i + 1] == Stepped(sums[i], slots[(from + i) % RING], from + i)
  {
    sums := [NOTHING];
    if from < to {
      var before := Sums(slots, from, to - 1);
      sums := before + [SumOf(slots, from, to)];
      SumNext(slots, from, to - 1);
    }
  }

  lemma SumNext(slots: seq<Minute>, from: nat, m: nat)
    requires |slots| == RING && from <= m
    ensures SumOf(slots, from, m + 1) == Stepped(SumOf(slots, from, m), slots[m % RING], m)
  {
    PlusNothing(SumOf(slots, from, m));
  }

  // ---------------------------------------------------------------- the truth

  datatype Write = Write(minute: nat, r: Request)

  function Run(slots: seq<Minute>, writes: seq<Write>): (s: seq<Minute>)
    requires |slots| == RING
    ensures |s| == RING
  {
    if writes == [] then slots
    else
      var n := |writes| - 1;
      Written(Run(slots, writes[..n]), writes[n].minute, writes[n].r)
  }

  /** Everything written in [from, to), whatever the order. */
  function Total(writes: seq<Write>, from: nat, to: nat): Tally {
    if writes == [] then NOTHING
    else
      var n := |writes| - 1;
      var before := Total(writes[..n], from, to);
      if from <= writes[n].minute < to then With(before, writes[n].r) else before
  }

  ghost predicate HasWrite(writes: seq<Write>, m: nat) {
    exists i | 0 <= i < |writes| :: writes[i].minute == m
  }

  /** Something was written to the slot of this minute, at a later minute. */
  ghost predicate Overtaken(writes: seq<Write>, m: nat) {
    exists i | 0 <= i < |writes| :: writes[i].minute > m && writes[i].minute % RING == m % RING
  }

  lemma {:induction false} NoWrites(writes: seq<Write>, m: nat)
    requires !HasWrite(writes, m)
    ensures Total(writes, m, m + 1) == NOTHING
  {
    if writes != [] {
      var n := |writes| - 1;
      assert forall i | 0 <= i < n :: writes[..n][i] == writes[i];
      NoWrites(writes[..n], m);
    }
  }

  lemma {:induction false} SomeWrites(writes: seq<Write>, m: nat)
    requires HasWrite(writes, m)
    ensures Total(writes, m, m + 1).requests > 0
  {
    var n := |writes| - 1;
    if writes[n].minute != m {
      var i :| 0 <= i < |writes| && writes[i].minute == m;
      assert writes[..n][i].minute == m;
      SomeWrites(writes[..n], m);
    }
  }

  /** The stamp of a slot is the latest minute written to it. */
  lemma {:induction false} StampIsLatest(writes: seq<Write>, k: nat)
    requires k < RING
    ensures var stamp := Run(FRESH, writes)[k].stamp;
            && stamp >= 0
            && (forall i | 0 <= i < |writes| && writes[i].minute % RING == k :: writes[i].minute <= stamp)
            && (stamp == 0 || exists i | 0 <= i < |writes| :: writes[i].minute % RING == k && writes[i].minute == stamp)
  {
    if writes != [] {
      var n := |writes| - 1;
      StampIsLatest(writes[..n], k);
      assert forall i | 0 <= i < n :: writes[..n][i] == writes[i];
      var before, after := Run(FRESH, writes[..n])[k].stamp, Run(FRESH, writes)[k].stamp;
      if after != before {
        assert writes[n].minute % RING == k && writes[n].minute == after;
      } else if before != 0 {
        var i :| 0 <= i < n && writes[..n][i].minute % RING == k && writes[..n][i].minute == before;
        assert writes[i].minute % RING == k && writes[i].minute == after;
      }
    }
  }

  /** A minute not overtaken in its slot is shown exactly, in whatever order it was written. */
  lemma {:induction false} ShownExactly(writes: seq<Write>, m: nat)
    requires m > 0 && !Overtaken(writes, m)
    ensures Shown(Run(FRESH, writes), m) == Total(writes, m, m + 1)
  {
    if writes != [] {
      var n := |writes| - 1;
      var k := m % RING;
      assert forall i | 0 <= i < n :: writes[..n][i] == writes[i];
      ShownExactly(writes[..n], m);
      var before, w := Run(FRESH, writes[..n]), writes[n];
      if w.minute % RING == k {
        NotAhead(writes[..n], m);
      }
    }
  }

  lemma NotAhead(writes: seq<Write>, m: nat)
    requires !Overtaken(writes, m)
    ensures Run(FRESH, writes)[m % RING].stamp <= m
  {
    StampIsLatest(writes, m % RING);
  }

  /** And one overtaken is shown as nothing at all: a minute is exact just when it is not
      overtaken, or nothing was written in it. */
  lemma ExactIff(writes: seq<Write>, m: nat)
    requires m > 0
    ensures Shown(Run(FRESH, writes), m) == Total(writes, m, m + 1) <==> !Overtaken(writes, m) || !HasWrite(writes, m)
  {
    if !Overtaken(writes, m) {
      ShownExactly(writes, m);
    } else {
      StampIsLatest(writes, m % RING);
      assert Shown(Run(FRESH, writes), m) == NOTHING;
      if HasWrite(writes, m) {
        SomeWrites(writes, m);
      } else {
        NoWrites(writes, m);
      }
    }
  }

  // ---------------------------------------------------------------- sums

  lemma WithLeft(a: Tally, b: Tally, r: Request)
    ensures Plus(With(a, r), b) == With(Plus(a, b), r)
  {
    assert Together(With(a, r).rules, b.rules) == With(Plus(a, b), r).rules;
  }

  lemma WithRight(a: Tally, b: Tally, r: Request)
    ensures Plus(a, With(b, r)) == With(Plus(a, b), r)
  {
    assert Together(a.rules, With(b, r).rules) == With(Plus(a, b), r).rules;
  }

  /** A range is the sum of its parts. */
  lemma {:induction false} TotalSplits(writes: seq<Write>, from: nat, mid: nat, to: nat)
    requires from <= mid <= to
    ensures Total(writes, from, to) == Plus(Total(writes, from, mid), Total(writes, mid, to))
  {
    if writes == [] {
      PlusNothing(NOTHING);
    } else {
      var n := |writes| - 1;
      TotalSplits(writes[..n], from, mid, to);
      var a, b := Total(writes[..n], from, mid), Total(writes[..n], mid, to);
      WithLeft(a, b, writes[n].r);
      WithRight(a, b, writes[n].r);
    }
  }

  lemma {:induction false} TotalNone(writes: seq<Write>, from: nat, to: nat)
    requires from >= to
    ensures Total(writes, from, to) == NOTHING
  {
    if writes != [] {
      TotalNone(writes[..|writes| - 1], from, to);
    }
  }

  lemma {:induction false} SumExactly(writes: seq<Write>, from: nat, to: nat)
    requires from > 0 && forall m | from <= m < to :: !Overtaken(writes, m)
    ensures SumOf(Run(FRESH, writes), from, to) == Total(writes, from, to)
  {
    if from >= to {
      TotalNone(writes, from, to);
    } else {
      SumExactly(writes, from, to - 1);
      ShownExactly(writes, to - 1);
      TotalSplits(writes, from, to - 1, to);
    }
  }

  /** With nothing written past minute M, every sum from after M - 120 on is exact: no minute
      of the last two hours can have been overtaken. */
  lemma RingExact(writes: seq<Write>, last: nat, from: nat, to: nat)
    requires forall i | 0 <= i < |writes| :: writes[i].minute <= last
    requires from > 0 && from > last - RING
    ensures SumOf(Run(FRESH, writes), from, to) == Total(writes, from, to)
  {
    forall m | from <= m < to
      ensures !Overtaken(writes, m)
    {
      forall i | 0 <= i < |writes| && writes[i].minute % RING == m % RING
        ensures writes[i].minute <= m
      {
        SameSlot(writes[i].minute, m);
      }
    }
    SumExactly(writes, from, to);
  }

  lemma SameSlot(a: nat, b: nat)
    requires a % RING == b % RING && a < b + RING
    ensures a <= b
  {
    assert a == RING * (a / RING) + a % RING && b == RING * (b / RING) + b % RING;
  }

  lemma StretchesExact(writes: seq<Write>, now: nat, win: nat, before: nat)
    requires forall i | 0 <= i < |writes| :: writes[i].minute <= now
    requires win + before < RING && now > win + before
    ensures SumOf(Run(FRESH, writes), now - win, now) == Total(writes, now - win, now)
    ensures SumOf(Run(FRESH, writes), now - win - before, now - win) == Total(writes, now - win - before, now - win)
  {
    RingExact(writes, now, now - win, now);
    RingExact(writes, now, now - win - before, now - win);
  }

  /** The triggers of traffic are those of the requests there were, as long as the window and
      the stretch before it make at most 119 minutes together. */
  lemma TrafficExact(o: Limits, writes: seq<Write>, now: nat, win: nat, sinceStart: nat)
    requires forall i | 0 <= i < |writes| :: writes[i].minute <= now
    requires win + Before(sinceStart, win) < RING && now > win + BASELINE
    ensures var ring, covered := Run(FRESH, writes), Covered(sinceStart, win);
            Triggered(o, SumOf(ring, now - win, now), BaseOf(ring, now, win, sinceStart), win, covered)
            == Triggered(o, Total(writes, now - win, now),
                         Total(writes, now - win - Before(sinceStart, win), now - win), win, covered)
  {
    StretchesExact(writes, now, win, Before(sinceStart, win));
  }

  /** At 120 minutes together the oldest one shares its slot with the minute under way: it is
      counted right just when one of the two has no requests. */
  lemma OldestMinuteShared(writes: seq<Write>, now: nat)
    requires forall i | 0 <= i < |writes| :: writes[i].minute <= now
    requires now > RING
    ensures Shown(Run(FRESH, writes), now - RING) == Total(writes, now - RING, now - RING + 1)
            <==> !HasWrite(writes, now) || !HasWrite(writes, now - RING)
  {
    ExactIff(writes, now - RING);
    OvertakenNow(writes, now - RING);
  }

  /** Within two hours only the write two hours later can overtake a minute. */
  lemma OvertakenNow(writes: seq<Write>, m: nat)
    requires forall i | 0 <= i < |writes| :: writes[i].minute <= m + RING
    ensures Overtaken(writes, m) <==> HasWrite(writes, m + RING)
  {
    SameRemainder(m);
    if Overtaken(writes, m) {
      var i :| 0 <= i < |writes| && writes[i].minute > m && writes[i].minute % RING == m % RING;
      SameSlot(m + RING, writes[i].minute);
      assert writes[i].minute == m + RING;
    }
    if HasWrite(writes, m + RING) {
      var i :| 0 <= i < |writes| && writes[i].minute == m + RING;
      assert writes[i].minute > m && writes[i].minute % RING == m % RING;
    }
  }

  lemma SameRemainder(m: nat)
    ensures (m + RING) % RING == m % RING
  {
  }

  // ---------------------------------------------------------------- when a count is a spike

  /** A count of the window is `factor` times that of the stretch before, minute for minute. */
  predicate Times(factor: real, n: nat, win: nat, usual: nat, covered: nat) {
    (n * covered) as real >= factor * (usual * win) as real
  }

  lemma OnceMore(n: nat, k: nat)
    requires k > 0
    ensures n * k == n * (k - 1) + n
  {
  }

  lemma {:induction false} RealProduct(n: nat, k: nat)
    ensures (n * k) as real == n as real * k as real
    decreases k
  {
    if k > 0 {
      RealProduct(n, k - 1);
      OnceMore(n, k);
      assert n as real * k as real == n as real * (k - 1) as real + n as real;
    }
  }

  lemma Divided(a: real, b: real, f: real, c: real)
    requires c > 0.0
    ensures a >= f * (b / c) <==> a * c >= f * b
  {
    var q := b / c;
    assert q * c == b;
    assert f * b == (f * q) * c;
    if a >= f * q {
      assert (a - f * q) * c >= 0.0;
    } else {
      assert (f * q - a) * c > 0.0;
    }
  }

  lemma SpikeIs(o: Limits, n: nat, usual: nat, win: nat, covered: nat, least: int)
    requires covered > 0
    ensures Spike(o, n, Usual(usual, win, covered), least)
            <==> n >= least && Times(o.spikeFactor, n, win, usual, covered)
  {
    RealProduct(n, covered);
    RealProduct(usual, win);
    Divided(n as real, (usual * win) as real, o.spikeFactor, covered as real);
  }

  /** The triggers of a window against a stretch of `covered` minutes before it, without a
      division: the site is down when that share of what reached it failed, and a count spikes
      when it is large enough and `factor` times the usual. */
  lemma TriggeredExact(o: Limits, cur: Tally, base: Tally, win: nat, covered: nat, id: string)
    requires covered > 0
    ensures var found := Triggered(o, cur, base, win, Some(covered));
            && ("site_down" in found
                <==> cur.reached > 0 && cur.reached >= o.siteMinRequests
                     && cur.failed as real >= o.siteErrorShare * cur.reached as real)
            && ("requests_spike" in found
                <==> cur.requests >= o.spikeMinRequests
                     && Times(o.spikeFactor, cur.requests, win, base.requests, covered))
            && ("blocked_spike" in found
                <==> cur.blocked >= o.spikeMinBlocked && Times(o.spikeFactor, cur.blocked, win, base.blocked, covered))
            && ("rule_spike:" + id in found
                <==> id in cur.rules && cur.rules[id] >= o.ruleMinMatches
                     && Times(o.spikeFactor, cur.rules[id], win, Of(base.rules, id), covered))
    ensures Triggered(o, cur, base, win, None) == Triggered(o, cur, base, win, Some(covered)) * {"site_down"}
  {
    NamesApart(id);
    SpikeIs(o, cur.requests, base.requests, win, covered, o.spikeMinRequests);
    SpikeIs(o, cur.blocked, base.blocked, win, covered, o.spikeMinBlocked);
    if id in cur.rules {
      SpikeIs(o, cur.rules[id], Of(base.rules, id), win, covered, o.ruleMinMatches);
    }
    SpikingNames(o, cur, base, win, covered, id);
  }

  lemma NamesApart(id: string)
    ensures RULE_SPIKE + id !in {SITE_DOWN, REQUESTS_SPIKE, BLOCKED_SPIKE}
  {
    assert (RULE_SPIKE + id)[1] == 'u';
    assert SITE_DOWN[1] == 'i' && REQUESTS_SPIKE[1] == 'e' && BLOCKED_SPIKE[1] == 'l';
  }

  lemma SpikingNames(o: Limits, cur: Tally, base: Tally, win: nat, covered: nat, id: string)
    requires covered > 0
    ensures RULE_SPIKE + id in SpikingRules(o, cur, base, win, covered)
            <==> id in cur.rules && RuleSpikesAt(o, cur, base, win, covered, id)
    ensures SpikingRules(o, cur, base, win, covered) !! {SITE_DOWN, REQUESTS_SPIKE, BLOCKED_SPIKE}
  {
    forall other | other in cur.rules
      ensures RULE_SPIKE + other !in {SITE_DOWN, REQUESTS_SPIKE, BLOCKED_SPIKE}
      ensures RULE_SPIKE + other == RULE_SPIKE + id ==> other == id
    {
      NamesApart(other);
      assert (RULE_SPIKE + other)[|RULE_SPIKE|..] == other && (RULE_SPIKE + id)[|RULE_SPIKE|..] == id;
    }
  }

  function RequestsAt(writes: seq<Write>, m: nat): nat {
    Total(writes, m, m + 1).requests
  }

  ghost predicate Steady(writes: seq<Write>, from: nat, to: nat, n: nat) {
    forall m: nat | from <= m < to :: RequestsAt(writes, m) == n
  }

  lemma RequestsSplit(writes: seq<Write>, from: nat, end: nat)
    requires from < end
    ensures Total(writes, from, end).requests
            == Total(writes, from, end - 1).requests + RequestsAt(writes, end - 1)
  {
    TotalSplits(writes, from, end - 1, end);
  }

  lemma {:induction false} SteadyTotal(writes: seq<Write>, from: nat, end: nat, n: nat, k: nat)
    requires end == from + k && Steady(writes, from, end, n)
    ensures Total(writes, from, end).requests == n * k
    decreases k
  {
    if k == 0 {
      TotalNone(writes, from, end);
    } else {
      SteadyTotal(writes, from, end - 1, n, k - 1);
      RequestsSplit(writes, from, end);
      OnceMore(n, k);
    }
  }

  lemma Positive(a: nat, b: nat)
    requires a > 0 && b > 0
    ensures a * b > 0
  {
  }

  lemma SteadyTimes(factor: real, n: nat, win: nat, covered: nat)
    requires factor > 1.0 && n > 0 && win > 0 && covered > 0
    ensures !Times(factor, n * win, win, n * covered, covered)
  {
    Positive(n, win);
    Positive(n * win, covered);
    assert n * covered * win == n * win * covered;
    Larger(factor, n * win * covered, n * covered * win);
  }

  lemma Larger(factor: real, a: nat, b: nat)
    requires factor > 1.0 && a == b > 0
    ensures a as real < factor * b as real
  {
    assert (factor - 1.0) * b as real > 0.0;
  }

  lemma SteadyTriggers(o: Limits, cur: Tally, base: Tally, win: nat, covered: Option<nat>,
                       before: nat, n: nat)
    requires o.spikeFactor > 1.0 && n > 0 && win > 0 && cur.requests == n * win
    requires base.requests == n * before && (covered.Some? ==> covered.value == before > 0)
    ensures "requests_spike" !in Triggered(o, cur, base, win, covered)
  {
    if covered.Some? {
      SteadyTimes(o.spikeFactor, n, win, before);
      TriggeredExact(o, cur, base, win, before, "");
    } else {
      TriggeredExact(o, cur, base, win, 1, "");
    }
  }

  /** Traffic that is the same every minute is no spike of requests, with a factor above one,
      whatever the other thresholds. */
  lemma SteadyNeverSpikes(o: Limits, writes: seq<Write>, now: nat, win: nat, sinceStart: nat, n: nat)
    requires forall i | 0 <= i < |writes| :: writes[i].minute <= now
    requires win + Before(sinceStart, win) < RING && now > win + BASELINE
    requires o.spikeFactor > 1.0 && n > 0 && win > 0
    requires Steady(writes, now - win - Before(sinceStart, win), now, n)
    ensures var ring := Run(FRESH, writes);
            "requests_spike" !in Triggered(o, SumOf(ring, now - win, now), BaseOf(ring, now, win, sinceStart), win,
                                           Covered(sinceStart, win))
  {
    TrafficExact(o, writes, now, win, sinceStart);
    SteadyTruly(o, writes, now, win, Covered(sinceStart, win), Before(sinceStart, win), n);
  }

  lemma SteadyTruly(o: Limits, writes: seq<Write>, now: nat, win: nat, covered: Option<nat>, before: nat, n: nat)
    requires o.spikeFactor > 1.0 && n > 0 && win > 0 && now > win + before
    requires covered.Some? ==> covered.value == before > 0
    requires Steady(writes, now - win - before, now, n)
    ensures "requests_spike" !in Triggered(o, Total(writes, now - win, now),
                                           Total(writes, now - win - before, now - win), win, covered)
  {
    SteadyTotal(writes, now - win, now, n, win);
    SteadyTotal(writes, now - win - before, now - win, n, before);
    SteadyTriggers(o, Total(writes, now - win, now), Total(writes, now - win - before, now - win), win, covered,
                   before, n);
  }

  // ---------------------------------------------------------------- what the totals count

  ghost predicate Counted(writes: seq<Write>, from: nat, to: nat, i: int, pass: Request -> bool) {
    0 <= i < |writes| && from <= writes[i].minute < to && pass(writes[i].r)
  }

  /** How many of the requests in [from, to) are such. */
  ghost function HowMany(writes: seq<Write>, from: nat, to: nat, pass: Request -> bool): nat {
    |Places(|writes|, i => Counted(writes, from, to, i, pass))|
  }

  lemma HowManyNext(writes: seq<Write>, from: nat, to: nat, pass: Request -> bool)
    requires writes != []
    ensures var n := |writes| - 1;
            HowMany(writes, from, to, pass)
            == HowMany(writes[..n], from, to, pass)
               + if from <= writes[n].minute < to && pass(writes[n].r) then 1 else 0
  {
    var n := |writes| - 1;
    var all: int -> bool := i => Counted(writes, from, to, i, pass);
    var init: int -> bool := i => Counted(writes[..n], from, to, i, pass);
    PlacesNext(n, all);
    PlacesAlike(n, all, init);
  }

  predicate TurnedAway(r: Request) {
    r.decision == "block" || r.decision == "ratelimit"
  }

  /** The totals: all requests, those turned away, those that reached the site, those that
      failed there, and those turned away by each rule. */
  lemma {:induction false} TotalExact(writes: seq<Write>, from: nat, to: nat, id: string)
    requires id != ""
    ensures var t := Total(writes, from, to);
            && t.requests == HowMany(writes, from, to, r => true)
            && t.blocked == HowMany(writes, from, to, r => TurnedAway(r))
            && t.reached == HowMany(writes, from, to, r => !TurnedAway(r) && r.status >= 100)
            && t.failed == HowMany(writes, from, to, r => !TurnedAway(r) && r.status >= 500)
            && Of(t.rules, id) == HowMany(writes, from, to, r => TurnedAway(r) && r.rule == id)
            && "" !in t.rules
  {
    if writes != [] {
      TotalExact(writes[..|writes| - 1], from, to, id);
      HowManyNext(writes, from, to, r => true);
      HowManyNext(writes, from, to, r => TurnedAway(r));
      HowManyNext(writes, from, to, r => !TurnedAway(r) && r.status >= 100);
      HowManyNext(writes, from, to, r => !TurnedAway(r) && r.status >= 500);
      HowManyNext(writes, from, to, r => TurnedAway(r) && r.rule == id);
    }
  }
}
