/** What the limiter promises: it is a sliding log. The ring, its growth and the
    sweep change no answer, and no stretch of one window holds more admitted
    requests than the limit. */
module LimitLaws {
  import opened Wrappers
  import opened Limit
  import Ordering

  /** What happens to a limiter: requests of keys, and sweeps. */
  datatype Op = Request(key: string, at: int) | SweepAt(at: int)

  /** The limit and the window a key is always asked with. */
  datatype Policy = Policy(limit: string -> int, window: string -> int) {
    ghost predicate Positive() {
      forall k :: limit(k) > 0 && window(k) > 0
    }
  }

  /** Requests of one key come in time order, and none lags behind an earlier sweep. */
  ghost predicate Clocked(ops: seq<Op>) {
    forall i, j | 0 <= i < j < |ops| && ops[j].Request? && (ops[i].SweepAt? || ops[i].key == ops[j].key) ::
      ops[i].at <= ops[j].at
  }

  ghost function KeysOf(ops: seq<Op>): set<string> {
    set o | o in ops && o.Request? :: o.key
  }

  /** No shard ever has to turn a key away. */
  ghost predicate Roomy(layout: Layout, keys: set<string>) {
    forall key | key in keys :: !layout.Full(keys - {key}, key)
  }

  function RunOps(layout: Layout, p: Policy, t: Table, ops: seq<Op>): (Table, seq<bool>)
    decreases |ops|
  {
    if ops == [] then (t, [])
    else match ops[0]
      case SweepAt(at) => RunOps(layout, p, Sweep(t, at), ops[1..])
      case Request(key, at) =>
        var (t', exceeded) := Ask(layout, t, key, p.limit(key), p.window(key), at);
        var (t'', rest) := RunOps(layout, p, t', ops[1..]);
        (t'', [exceeded] + rest)
  }

  // ---------------------------------------------------------------- the naive log

  type Log = map<string, seq<int>>

  function Stamps(log: Log, key: string): seq<int> {
    if key in log then log[key] else []
  }

  /** How many stamps lie in (lo, hi]. */
  function Within(s: seq<int>, lo: int, hi: int): nat {
    if s == [] then 0
    else Within(s[..|s| - 1], lo, hi) + if lo < s[|s| - 1] <= hi then 1 else 0
  }

  function NaiveAsk(log: Log, key: string, limit: int, window: int, now: int): (Log, bool) {
    if Within(Stamps(log, key), now - window, now) >= limit then (log, true)
    else (log[key := Stamps(log, key) + [now]], false)
  }

  /** Keeps every stamp ever admitted and takes no notice of sweeps. */
  function NaiveRun(p: Policy, log: Log, ops: seq<Op>): (Log, seq<bool>)
    decreases |ops|
  {
    if ops == [] then (log, [])
    else match ops[0]
      case SweepAt(_) => NaiveRun(p, log, ops[1..])
      case Request(key, at) =>
        var (log', exceeded) := NaiveAsk(log, key, p.limit(key), p.window(key), at);
        var (log'', rest) := NaiveRun(p, log', ops[1..]);
        (log'', [exceeded] + rest)
  }

  // ---------------------------------------------------------------- refinement

  ghost predicate Sorted(s: seq<int>) {
    forall i, j | 0 <= i < j < |s| :: s[i] <= s[j]
  }

  function Lookup(t: Table, key: string): Option<EntryView> {
    if key in t then Some(t[key]) else None
  }

  /** An entry holds what of the full log can still count for a request at `floor` or later. */
  ghost predicate Agrees(entry: Option<EntryView>, s: seq<int>, limit: int, window: int, floor: int) {
    && Sorted(s)
    && match entry
       case None => forall i | 0 <= i < |s| :: s[i] <= floor - window
       case Some(e) =>
         && e.limit == limit && e.window == window && e.last <= floor
         && |e.stamps| <= |s| && e.stamps == s[|s| - |e.stamps|..]
         && (forall i | 0 <= i < |s| :: s[i] <= e.last)
         && (forall i | 0 <= i < |s| - |e.stamps| :: s[i] <= e.last - window)
  }

  lemma {:induction false} DropCuts(s: seq<int>, boundary: int) returns (cut: nat)
    requires Sorted(s)
    ensures cut <= |s| && Drop(s, boundary) == s[cut..]
    ensures forall i | 0 <= i < cut :: s[i] <= boundary
    ensures forall i | cut <= i < |s| :: boundary < s[i]
  {
    if s != [] && s[0] <= boundary {
      cut := DropCuts(s[1..], boundary);
      assert forall i | 1 <= i < |s| :: s[i] == s[1..][i - 1];
      cut := cut + 1;
    } else {
      cut := 0;
    }
  }

  lemma {:induction false} WithinSuffix(s: seq<int>, cut: nat, lo: int, hi: int)
    requires cut <= |s|
    requires forall i | 0 <= i < cut :: s[i] <= lo
    requires forall i | cut <= i < |s| :: lo < s[i] <= hi
    ensures Within(s, lo, hi) == |s| - cut
  {
    if s != [] {
      var init := s[..|s| - 1];
      WithinSuffix(init, if cut == |s| then cut - 1 else cut, lo, hi);
    }
  }

  /** What an agreeing entry keeps of the log is exactly what the window still holds. */
  lemma KeptIsWindow(e: EntryView, s: seq<int>, limit: int, window: int, now: int) returns (gone: nat)
    requires window > 0 && Agrees(Some(e), s, limit, window, now)
    ensures gone <= |s| && Drop(e.stamps, now - window) == s[gone..]
    ensures forall i | 0 <= i < gone :: s[i] <= now - window
    ensures Within(s, now - window, now) == |s| - gone
  {
    var base := |s| - |e.stamps|;
    var cut := DropCuts(e.stamps, now - window);
    gone := base + cut;
    KeptSplit(s, e.stamps, base, cut, now - window, now);
    assert e.stamps[cut..] == s[gone..];
    WithinSuffix(s, gone, now - window, now);
  }

  lemma KeptSplit(s: seq<int>, kept: seq<int>, base: nat, cut: nat, lo: int, hi: int)
    requires base <= |s| && kept == s[base..] && cut <= |kept|
    requires forall i | 0 <= i < base :: s[i] <= lo
    requires forall i | 0 <= i < cut :: kept[i] <= lo
    requires forall i | cut <= i < |kept| :: lo < kept[i]
    requires forall i | 0 <= i < |s| :: s[i] <= hi
    ensures forall i | 0 <= i < base + cut :: s[i] <= lo
    ensures forall i | base + cut <= i < |s| :: lo < s[i] <= hi
  {
    forall i | base <= i < |s|
      ensures if i < base + cut then s[i] <= lo else lo < s[i]
    {
      assert s[i] == kept[i - base];
    }
  }

  /** One request: the entry answers as the whole log would, and keeps agreeing with it. */
  lemma TouchRefines(entry: Option<EntryView>, s: seq<int>, limit: int, window: int, now: int)
    requires limit > 0 && window > 0
    requires Agrees(entry, s, limit, window, now)
    ensures var e := if entry.Some? then entry.value else EntryView([], limit, window, now);
            var exceeded := Within(s, now - window, now) >= limit;
            && Touch(e, limit, window, now).1 == exceeded
            && Agrees(Some(Touch(e, limit, window, now).0), if exceeded then s else s + [now], limit, window, now)
  {
    if entry.Some? {
      var gone := KeptIsWindow(entry.value, s, limit, window, now);
      KeepAgrees(s, gone, limit, window, now);
    } else {
      WithinSuffix(s, |s|, now - window, now);
      assert Drop([], now - window) == s[|s|..];
      KeepAgrees(s, |s|, limit, window, now);
    }
  }

  lemma KeepAgrees(s: seq<int>, gone: nat, limit: int, window: int, now: int)
    requires Sorted(s) && gone <= |s| && window > 0
    requires forall i | 0 <= i < |s| :: s[i] <= now
    requires forall i | 0 <= i < gone :: s[i] <= now - window
    ensures Agrees(Some(EntryView(s[gone..], limit, window, now)), s, limit, window, now)
    ensures Agrees(Some(EntryView(s[gone..] + [now], limit, window, now)), s + [now], limit, window, now)
  {
    assert s + [now] == s[..gone] + (s[gone..] + [now]);
  }

  lemma SweepRefines(t: Table, key: string, s: seq<int>, limit: int, window: int, at: int, floor: int)
    requires Agrees(Lookup(t, key), s, limit, window, floor) && at <= floor
    ensures Agrees(Lookup(Sweep(t, at), key), s, limit, window, floor)
  {
  }

  /** The table agrees with the log for every request still to come. */
  ghost predicate Ready(p: Policy, t: Table, log: Log, ops: seq<Op>) {
    forall j | 0 <= j < |ops| && ops[j].Request? ::
      Agrees(Lookup(t, ops[j].key), Stamps(log, ops[j].key),
             p.limit(ops[j].key), p.window(ops[j].key), ops[j].at)
  }

  lemma FullGrows(layout: Layout, small: set<string>, large: set<string>, key: string)
    requires small <= large && layout.Full(small, key)
    ensures layout.Full(large, key)
  {
    Ordering.SubsetCount(set k | k in small && layout.Together(k, key), set k | k in large && layout.Together(k, key));
  }

  /** The limiter answers exactly as the naive log, through every wrap, growth and sweep. */
  lemma {:induction false} RingRefinesLog(layout: Layout, p: Policy, t: Table, log: Log, ops: seq<Op>,
                                          keys: set<string>)
    requires p.Positive() && Clocked(ops)
    requires t.Keys + KeysOf(ops) <= keys && Roomy(layout, keys)
    requires Ready(p, t, log, ops)
    ensures RunOps(layout, p, t, ops).1 == NaiveRun(p, log, ops).1
    decreases |ops|
  {
    if ops != [] {
      var rest := ops[1..];
      assert Clocked(rest);
      assert forall o | o in rest :: o in ops;
      match ops[0] {
        case SweepAt(at) =>
          SweepReady(p, t, log, ops);
          RingRefinesLog(layout, p, Sweep(t, at), log, rest, keys);
        case Request(key, at) =>
          RequestRefines(layout, p, t, log, ops, keys);
          var t' := Ask(layout, t, key, p.limit(key), p.window(key), at).0;
          var log' := NaiveAsk(log, key, p.limit(key), p.window(key), at).0;
          RingRefinesLog(layout, p, t', log', rest, keys);
      }
    }
  }

  lemma HasRoom(layout: Layout, held: set<string>, keys: set<string>, key: string)
    requires Roomy(layout, keys) && held <= keys && key in keys
    ensures key in held || !layout.Full(held, key)
  {
    if key !in held && layout.Full(held, key) {
      FullGrows(layout, held, keys - {key}, key);
    }
  }

  lemma SweepReady(p: Policy, t: Table, log: Log, ops: seq<Op>)
    requires Clocked(ops) && ops != [] && ops[0].SweepAt? && Ready(p, t, log, ops)
    ensures Ready(p, Sweep(t, ops[0].at), log, ops[1..])
  {
    var at, rest := ops[0].at, ops[1..];
    forall j | 0 <= j < |rest| && rest[j].Request?
      ensures Agrees(Lookup(Sweep(t, at), rest[j].key), Stamps(log, rest[j].key),
                     p.limit(rest[j].key), p.window(rest[j].key), rest[j].at)
    {
      var r := ops[j + 1];
      SweepRefines(t, r.key, Stamps(log, r.key), p.limit(r.key), p.window(r.key), at, r.at);
    }
  }

  lemma RequestRefines(layout: Layout, p: Policy, t: Table, log: Log, ops: seq<Op>, keys: set<string>)
    requires p.Positive() && Clocked(ops) && ops != [] && ops[0].Request? && Ready(p, t, log, ops)
    requires t.Keys + KeysOf(ops) <= keys && Roomy(layout, keys)
    ensures var key, at := ops[0].key, ops[0].at;
            var fast := Ask(layout, t, key, p.limit(key), p.window(key), at);
            var slow := NaiveAsk(log, key, p.limit(key), p.window(key), at);
            fast.1 == slow.1 && fast.0.Keys <= keys && Ready(p, fast.0, slow.0, ops[1..])
  {
    var key, at := ops[0].key, ops[0].at;
    assert ops[0] in ops;
    assert key in KeysOf(ops);
    HasRoom(layout, t.Keys, keys, key);
    AskRefines(layout, t, log, key, p.limit(key), p.window(key), at);
    var t' := Ask(layout, t, key, p.limit(key), p.window(key), at).0;
    var log' := NaiveAsk(log, key, p.limit(key), p.window(key), at).0;
    forall k | k != key
      ensures Stamps(log', k) == Stamps(log, k)
    {
      NaiveElsewhere(log, key, p.limit(key), p.window(key), at, k);
    }
    RequestReady(p, t, log, t', log', ops);
  }

  /** One request: table and log give one answer, and agree on its key afterwards. */
  lemma AskRefines(layout: Layout, t: Table, log: Log, key: string, limit: int, window: int, at: int)
    requires limit > 0 && window > 0 && (key in t || !layout.Full(t.Keys, key))
    requires Agrees(Lookup(t, key), Stamps(log, key), limit, window, at)
    ensures Ask(layout, t, key, limit, window, at).1 == NaiveAsk(log, key, limit, window, at).1
    ensures key in Ask(layout, t, key, limit, window, at).0
    ensures Ask(layout, t, key, limit, window, at).0 == t[key := Ask(layout, t, key, limit, window, at).0[key]]
    ensures Agrees(Lookup(Ask(layout, t, key, limit, window, at).0, key),
                   Stamps(NaiveAsk(log, key, limit, window, at).0, key), limit, window, at)
  {
    var e := Touch(EntryOf(t, key, limit, window, at), limit, window, at).0;
    var t' := Ask(layout, t, key, limit, window, at).0;
    assert t' == t[key := e] && t'[key] == e by {
      AskTouches(layout, t, key, limit, window, at);
    }
    TouchRefines(Lookup(t, key), Stamps(log, key), limit, window, at);
    AskTouches(layout, t, key, limit, window, at);
  }

  lemma NaiveElsewhere(log: Log, key: string, limit: int, window: int, at: int, k: string)
    requires k != key
    ensures Stamps(NaiveAsk(log, key, limit, window, at).0, k) == Stamps(log, k)
  {
  }

  lemma StillAgrees(p: Policy, t: Table, log: Log, t': Table, log': Log, key: string, at: int, r: Op)
    requires r.Request? && key in t' && t' == t[key := t'[key]]
    requires r.key == key ==> at <= r.at && Agrees(Lookup(t', key), Stamps(log', key), p.limit(key), p.window(key), at)
    requires r.key != key ==> Stamps(log', r.key) == Stamps(log, r.key)
    requires Agrees(Lookup(t, r.key), Stamps(log, r.key), p.limit(r.key), p.window(r.key), r.at)
    ensures Agrees(Lookup(t', r.key), Stamps(log', r.key), p.limit(r.key), p.window(r.key), r.at)
  {
    if r.key != key {
      assert Lookup(t', r.key) == Lookup(t, r.key);
    }
  }

  lemma RequestReady(p: Policy, t: Table, log: Log, t': Table, log': Log, ops: seq<Op>)
    requires Clocked(ops) && ops != [] && ops[0].Request?
    requires Ready(p, t, log, ops)
    requires ops[0].key in t' && t' == t[ops[0].key := t'[ops[0].key]]
    requires Agrees(Lookup(t', ops[0].key), Stamps(log', ops[0].key), p.limit(ops[0].key), p.window(ops[0].key),
                    ops[0].at)
    requires forall k | k != ops[0].key :: Stamps(log', k) == Stamps(log, k)
    ensures Ready(p, t', log', ops[1..])
  {
    var rest := ops[1..];
    forall j | 0 <= j < |rest| && rest[j].Request?
      ensures Agrees(Lookup(t', rest[j].key), Stamps(log', rest[j].key),
                     p.limit(rest[j].key), p.window(rest[j].key), rest[j].at)
    {
      StillAgrees(p, t, log, t', log', ops[0].key, ops[0].at, ops[j + 1]);
    }
  }

  /** From an empty limiter, sweeps inserted anywhere change no answer, and neither does
      how the keys are spread over the shards. */
  lemma SweepsChangeNothing(layout: Layout, other: Layout, p: Policy, ops: seq<Op>, swept: seq<Op>)
    requires p.Positive() && Clocked(ops) && Clocked(swept)
    requires Requests(ops) == Requests(swept)
    requires Roomy(layout, KeysOf(ops)) && Roomy(other, KeysOf(swept))
    ensures RunOps(layout, p, map[], ops).1 == RunOps(other, p, map[], swept).1
  {
    RingRefinesLog(layout, p, map[], map[], ops, KeysOf(ops));
    RingRefinesLog(other, p, map[], map[], swept, KeysOf(swept));
    NaiveIgnoresSweeps(p, map[], ops);
    NaiveIgnoresSweeps(p, map[], swept);
  }

  function Requests(ops: seq<Op>): seq<Op> {
    if ops == [] then []
    else if ops[0].Request? then [ops[0]] + Requests(ops[1..])
    else Requests(ops[1..])
  }

  lemma {:induction false} NaiveIgnoresSweeps(p: Policy, log: Log, ops: seq<Op>)
    ensures NaiveRun(p, log, ops) == NaiveRun(p, log, Requests(ops))
    decreases |ops|
  {
    if ops != [] {
      match ops[0] {
        case SweepAt(_) => NaiveIgnoresSweeps(p, log, ops[1..]);
        case Request(key, at) =>
          NaiveIgnoresSweeps(p, NaiveAsk(log, key, p.limit(key), p.window(key), at).0, ops[1..]);
          assert Requests(ops)[1..] == Requests(ops[1..]);
      }
    }
  }

  /** The answer after a sweep of any time, for an entry that agrees with the log: it is as
      without the sweep exactly when the sweep keeps the entry, or the limit is not used up
      anyway. Only a sweep whose clock runs ahead of the requests can do otherwise. */
  lemma SweepMatters(layout: Layout, t: Table, s: seq<int>, key: string, limit: int, window: int, at: int, now: int)
    requires limit > 0 && window > 0 && key in t && Roomy(layout, t.Keys)
    requires Agrees(Lookup(t, key), s, limit, window, now)
    ensures Ask(layout, Sweep(t, at), key, limit, window, now).1 == Ask(layout, t, key, limit, window, now).1
            <==> key in Sweep(t, at) || Within(s, now - window, now) < limit
    ensures at <= now ==> key in Sweep(t, at) || Within(s, now - window, now) == 0
  {
    AnswerIsWithin(layout, t, s, key, limit, window, now);
    HasRoom(layout, Sweep(t, at).Keys, t.Keys, key);
    SweptAnswer(layout, t, Sweep(t, at), key, limit, window, now);
    if key !in Sweep(t, at) && at <= now {
      WithinSuffix(s, |s|, now - window, now);
    }
  }

  lemma AnswerIsWithin(layout: Layout, t: Table, s: seq<int>, key: string, limit: int, window: int, now: int)
    requires limit > 0 && window > 0 && key in t && Agrees(Lookup(t, key), s, limit, window, now)
    ensures Ask(layout, t, key, limit, window, now).1 <==> Within(s, now - window, now) >= limit
  {
    Answers(layout, t, key, limit, window, now);
    TouchRefines(Lookup(t, key), s, limit, window, now);
  }

  lemma SweptAnswer(layout: Layout, t: Table, swept: Table, key: string, limit: int, window: int, now: int)
    requires limit > 0 && window > 0 && key in t
    requires key in swept || !layout.Full(swept.Keys, key)
    requires key in swept ==> swept[key] == t[key]
    ensures Ask(layout, swept, key, limit, window, now).1
            == (key in swept && Ask(layout, t, key, limit, window, now).1)
  {
    Answers(layout, t, key, limit, window, now);
    if key in swept {
      Answers(layout, swept, key, limit, window, now);
    } else {
      Answers(layout, swept, key, limit, window, now);
      FreshPasses(limit, window, now);
    }
  }

  lemma Answers(layout: Layout, t: Table, key: string, limit: int, window: int, now: int)
    requires limit > 0 && window > 0 && (key in t || !layout.Full(t.Keys, key))
    ensures Ask(layout, t, key, limit, window, now).1
            == Touch(EntryOf(t, key, limit, window, now), limit, window, now).1
  {
  }

  lemma FreshPasses(limit: int, window: int, now: int)
    requires limit > 0
    ensures !Touch(EntryView([], limit, window, now), limit, window, now).1
  {
  }

  // ---------------------------------------------------------------- the bound

  /** Any `limit + 1` stamps in a row span at least a window. */
  ghost predicate Spaced(s: seq<int>, limit: int, window: int) {
    forall i, j | 0 <= i < j < |s| && i + limit <= j :: s[i] + window <= s[j]
  }

  lemma {:induction false} SpacedBound(s: seq<int>, limit: int, window: int, lo: int)
    requires limit > 0 && Sorted(s) && Spaced(s, limit, window)
    ensures Within(s, lo, lo + window) <= limit
  {
    if s != [] {
      var init, last := s[..|s| - 1], s[|s| - 1];
      SpacedBound(init, limit, window, lo);
      if lo < last <= lo + window && |s| > limit {
        WithinShort(init, |s| - limit, lo, lo + window);
      } else {
        WithinShort(init, 0, lo, lo + window);
      }
    }
  }

  lemma {:induction false} WithinShort(s: seq<int>, cut: nat, lo: int, hi: int)
    requires cut <= |s| && Sorted(s)
    requires forall i | 0 <= i < cut :: s[i] <= lo
    ensures Within(s, lo, hi) <= |s| - cut
  {
    if s != [] {
      WithinShort(s[..|s| - 1], if cut == |s| then cut - 1 else cut, lo, hi);
    }
  }

  lemma AdmitSpaced(s: seq<int>, limit: int, window: int, now: int)
    requires limit > 0 && window > 0 && Sorted(s) && Spaced(s, limit, window)
    requires forall i | 0 <= i < |s| :: s[i] <= now
    requires Within(s, now - window, now) < limit
    ensures Sorted(s + [now]) && Spaced(s + [now], limit, window)
  {
    if |s| >= limit {
      var k := |s| - limit;
      if s[k] > now - window {
        WithinLong(s, k, now - window, now);
        assert false;
      }
      assert forall i | 0 <= i <= k :: s[i] <= s[k];
    }
  }

  lemma {:induction false} WithinLong(s: seq<int>, cut: nat, lo: int, hi: int)
    requires cut <= |s|
    requires forall i | cut <= i < |s| :: lo < s[i] <= hi
    ensures Within(s, lo, hi) >= |s| - cut
  {
    if cut < |s| {
      WithinLong(s[..|s| - 1], cut, lo, hi);
    }
  }

  /** Whatever the requests, no window-long stretch of a key's log holds more than its limit. */
  lemma {:induction false} NeverMoreThanLimit(p: Policy, log: Log, ops: seq<Op>, key: string, lo: int)
    requires p.Positive() && Clocked(ops)
    requires Sorted(Stamps(log, key)) && Spaced(Stamps(log, key), p.limit(key), p.window(key))
    requires forall i, j | 0 <= i < |Stamps(log, key)| && 0 <= j < |ops| && ops[j].Request? && ops[j].key == key ::
               Stamps(log, key)[i] <= ops[j].at
    ensures Within(Stamps(NaiveRun(p, log, ops).0, key), lo, lo + p.window(key)) <= p.limit(key)
    decreases |ops|
  {
    if ops == [] {
      SpacedBound(Stamps(log, key), p.limit(key), p.window(key), lo);
    } else {
      var rest := ops[1..];
      assert forall j | 0 <= j < |rest| :: rest[j] == ops[j + 1];
      match ops[0] {
        case SweepAt(_) => NeverMoreThanLimit(p, log, rest, key, lo);
        case Request(k, at) =>
          AskKeepsSpaced(p, log, ops, key);
          NeverMoreThanLimit(p, NaiveAsk(log, k, p.limit(k), p.window(k), at).0, rest, key, lo);
      }
    }
  }

  lemma AskKeepsSpaced(p: Policy, log: Log, ops: seq<Op>, key: string)
    requires p.Positive() && Clocked(ops) && ops != [] && ops[0].Request?
    requires Sorted(Stamps(log, key)) && Spaced(Stamps(log, key), p.limit(key), p.window(key))
    requires forall i, j | 0 <= i < |Stamps(log, key)| && 0 <= j < |ops| && ops[j].Request? && ops[j].key == key ::
               Stamps(log, key)[i] <= ops[j].at
    ensures var k, at := ops[0].key, ops[0].at;
            var next := Stamps(NaiveAsk(log, k, p.limit(k), p.window(k), at).0, key);
            && Sorted(next) && Spaced(next, p.limit(key), p.window(key))
            && forall i, j | 0 <= i < |next| && 1 <= j < |ops| && ops[j].Request? && ops[j].key == key ::
                next[i] <= ops[j].at
  {
    var k, at := ops[0].key, ops[0].at;
    if k != key {
      NaiveElsewhere(log, k, p.limit(k), p.window(k), at, key);
    } else if Within(Stamps(log, key), at - p.window(key), at) < p.limit(key) {
      AdmitSpaced(Stamps(log, key), p.limit(key), p.window(key), at);
    }
  }

  /** The times at which a run let the key through, given the run's answers. */
  function Admitted(ops: seq<Op>, answers: seq<bool>, key: string): seq<int>
    decreases |ops|
  {
    if ops == [] then []
    else if ops[0].SweepAt? then Admitted(ops[1..], answers, key)
    else if answers == [] then []
    else (if ops[0].key == key && !answers[0] then [ops[0].at] else []) + Admitted(ops[1..], answers[1..], key)
  }

  lemma {:induction false} LogIsAdmitted(p: Policy, log: Log, ops: seq<Op>, key: string)
    ensures Stamps(NaiveRun(p, log, ops).0, key)
            == Stamps(log, key) + Admitted(ops, NaiveRun(p, log, ops).1, key)
    decreases |ops|
  {
    if ops != [] {
      match ops[0] {
        case SweepAt(_) => LogIsAdmitted(p, log, ops[1..], key);
        case Request(k, at) =>
          var log' := NaiveAsk(log, k, p.limit(k), p.window(k), at).0;
          LogIsAdmitted(p, log', ops[1..], key);
          assert NaiveRun(p, log, ops).1[1..] == NaiveRun(p, log', ops[1..]).1;
      }
    }
  }

  /** The limit itself, for the real limiter: in any stretch of one window, sweeps or
      not, a key is let through at most `limit` times. */
  lemma LimitHolds(layout: Layout, p: Policy, ops: seq<Op>, key: string, lo: int)
    requires p.Positive() && Clocked(ops) && Roomy(layout, KeysOf(ops))
    ensures Within(Admitted(ops, RunOps(layout, p, map[], ops).1, key), lo, lo + p.window(key)) <= p.limit(key)
  {
    RingRefinesLog(layout, p, map[], map[], ops, KeysOf(ops));
    LogIsAdmitted(p, map[], ops, key);
    assert Stamps(NaiveRun(p, map[], ops).0, key) == Admitted(ops, RunOps(layout, p, map[], ops).1, key);
    NeverMoreThanLimit(p, map[], ops, key, lo);
  }

  // ---------------------------------------------------------------- with shards that run full

  ghost predicate IsSuffix(a: seq<int>, b: seq<int>) {
    |a| <= |b| && a == b[|b| - |a|..]
  }

  /** What the entry of the key holds is the end of what was let through. */
  ghost predicate Remembers(p: Policy, entry: Option<EntryView>, key: string, passed: seq<int>) {
    entry.Some? ==> entry.value.limit == p.limit(key) && IsSuffix(entry.value.stamps, passed)
  }

  lemma {:induction false} DropSuffix(s: seq<int>, boundary: int)
    ensures IsSuffix(Drop(s, boundary), s)
  {
    if s != [] && s[0] <= boundary {
      DropSuffix(s[1..], boundary);
    }
  }

  lemma SuffixPush(a: seq<int>, b: seq<int>, c: seq<int>, x: int)
    requires IsSuffix(a, b) && IsSuffix(b, c)
    ensures IsSuffix(a, c) && IsSuffix(a + [x], c + [x])
  {
  }

  /** The times let through, with one request more. */
  function Noting(passed: seq<int>, at: int, exceeded: bool): seq<int> {
    if exceeded then passed else passed + [at]
  }

  lemma TouchRemembers(p: Policy, e: EntryView, key: string, passed: seq<int>, at: int)
    requires Remembers(p, Some(e), key, passed)
    ensures var (e', exceeded) := Touch(e, p.limit(key), p.window(key), at);
            Remembers(p, Some(e'), key, Noting(passed, at, exceeded))
  {
    DropSuffix(e.stamps, at - p.window(key));
    SuffixPush(Drop(e.stamps, at - p.window(key)), e.stamps, passed, at);
  }

  lemma AskRemembers(layout: Layout, p: Policy, t: Table, key: string, passed: seq<int>, at: int)
    requires p.Positive() && Remembers(p, Lookup(t, key), key, passed)
    ensures var (t', exceeded) := Ask(layout, t, key, p.limit(key), p.window(key), at);
            Remembers(p, Lookup(t', key), key, Noting(passed, at, exceeded))
  {
    TouchRemembers(p, EntryOf(t, key, p.limit(key), p.window(key), at), key, passed, at);
  }

  lemma {:induction false} RunRemembers(layout: Layout, p: Policy, t: Table, ops: seq<Op>, key: string,
                                        passed: seq<int>)
    requires p.Positive() && Remembers(p, Lookup(t, key), key, passed)
    ensures var run := RunOps(layout, p, t, ops);
            Remembers(p, Lookup(run.0, key), key, passed + Admitted(ops, run.1, key))
    decreases |ops|
  {
    if ops == [] {
      assert passed + [] == passed;
    } else {
      match ops[0] {
        case SweepAt(at) => RunRemembers(layout, p, Sweep(t, at), ops[1..], key, passed);
        case Request(k, at) =>
          var (t', exceeded) := Ask(layout, t, k, p.limit(k), p.window(k), at);
          var next := if k == key then Noting(passed, at, exceeded) else passed;
          if k == key {
            AskRemembers(layout, p, t, key, passed, at);
          }
          RunRemembers(layout, p, t', ops[1..], key, next);
          AdmittedFirst(layout, p, t, ops, key, passed);
      }
    }
  }

  lemma AdmittedFirst(layout: Layout, p: Policy, t: Table, ops: seq<Op>, key: string, passed: seq<int>)
    requires ops != [] && ops[0].Request?
    ensures var k, at := ops[0].key, ops[0].at;
            var (t', exceeded) := Ask(layout, t, k, p.limit(k), p.window(k), at);
            passed + Admitted(ops, RunOps(layout, p, t, ops).1, key)
            == (if k == key then Noting(passed, at, exceeded) else passed)
               + Admitted(ops[1..], RunOps(layout, p, t', ops[1..]).1, key)
  {
    var k, at := ops[0].key, ops[0].at;
    var (t', exceeded) := Ask(layout, t, k, p.limit(k), p.window(k), at);
    var answers := RunOps(layout, p, t, ops).1;
    assert answers[0] == exceeded && answers[1..] == RunOps(layout, p, t', ops[1..]).1;
    var first := if k == key && !exceeded then [at] else [];
    assert passed + (first + Admitted(ops[1..], answers[1..], key))
        == (passed + first) + Admitted(ops[1..], answers[1..], key);
    assert passed + [] == passed;
  }

  /** The times a key was let through at are times of its requests, in their order. */
  lemma {:induction false} AdmittedInOrder(ops: seq<Op>, answers: seq<bool>, key: string, lo: int, hi: int)
    requires Clocked(ops)
    requires forall o | o in ops && o.Request? && o.key == key :: lo <= o.at <= hi
    ensures var times := Admitted(ops, answers, key);
            Sorted(times) && forall i | 0 <= i < |times| :: lo <= times[i] <= hi
    decreases |ops|
  {
    if ops != [] {
      var rest := ops[1..];
      assert forall o | o in rest :: o in ops;
      if ops[0].SweepAt? {
        AdmittedInOrder(rest, answers, key, lo, hi);
      } else if answers != [] {
        var from := if ops[0].key == key then ops[0].at else lo;
        forall o | o in rest && o.Request? && o.key == key
          ensures from <= o.at <= hi
        {
          var j :| 0 <= j < |rest| && rest[j] == o;
          assert ops[j + 1] == o;
        }
        AdmittedInOrder(rest, answers[1..], key, from, hi);
      }
    }
  }

  /** A request is refused only when `limit` requests of its key were let through in the window
      that ends with it, however full the shards are and whatever was swept. */
  lemma RefusedWhenUsedUp(layout: Layout, p: Policy, ops: seq<Op>, key: string, at: int)
    requires p.Positive() && Clocked(ops + [Op.Request(key, at)])
    requires Ask(layout, RunOps(layout, p, map[], ops).0, key, p.limit(key), p.window(key), at).1
    ensures Within(Admitted(ops, RunOps(layout, p, map[], ops).1, key), at - p.window(key), at) >= p.limit(key)
  {
    var run := RunOps(layout, p, map[], ops);
    var times := Admitted(ops, run.1, key);
    RunRemembers(layout, p, map[], ops, key, []);
    assert [] + times == times;
    BeforeLast(ops, key, at);
    AdmittedInOrder(ops, run.1, key, FirstTime(ops, at), at);
    RefusedByEntry(layout, p, run.0, key, times, at);
  }

  lemma RefusedByEntry(layout: Layout, p: Policy, t: Table, key: string, passed: seq<int>, at: int)
    requires p.Positive() && Ask(layout, t, key, p.limit(key), p.window(key), at).1
    requires Remembers(p, Lookup(t, key), key, passed) && Sorted(passed)
    requires forall i | 0 <= i < |passed| :: passed[i] <= at
    ensures Within(passed, at - p.window(key), at) >= p.limit(key)
  {
    UsedUpEntry(p, EntryOf(t, key, p.limit(key), p.window(key), at), key, passed, at);
  }

  lemma UsedUpEntry(p: Policy, e: EntryView, key: string, passed: seq<int>, at: int)
    requires Remembers(p, Some(e), key, passed) && Sorted(passed) && forall i | 0 <= i < |passed| :: passed[i] <= at
    requires Touch(e, p.limit(key), p.window(key), at).1
    ensures Within(passed, at - p.window(key), at) >= p.limit(key)
  {
    SuffixSorted(e.stamps, passed);
    var cut := DropCuts(e.stamps, at - p.window(key));
    LateEnd(passed, e.stamps, cut, at - p.window(key), at);
  }

  lemma SuffixSorted(a: seq<int>, b: seq<int>)
    requires IsSuffix(a, b) && Sorted(b)
    ensures Sorted(a)
  {
  }

  lemma LateEnd(passed: seq<int>, held: seq<int>, cut: nat, lo: int, hi: int)
    requires IsSuffix(held, passed) && cut <= |held|
    requires (forall i | cut <= i < |held| :: lo < held[i]) && (forall i | 0 <= i < |passed| :: passed[i] <= hi)
    ensures Within(passed, lo, hi) >= |held[cut..]|
  {
    var base := |passed| - |held|;
    forall i | base + cut <= i < |passed|
      ensures lo < passed[i] <= hi
    {
      assert passed[i] == held[i - base];
    }
    WithinLong(passed, base + cut, lo, hi);
  }

  /** A time no request is before. */
  function FirstTime(ops: seq<Op>, at: int): int {
    if ops == [] then at
    else
      var rest := FirstTime(ops[1..], at);
      if ops[0].at < rest then ops[0].at else rest
  }

  lemma {:induction false} NoneBefore(ops: seq<Op>, at: int)
    ensures forall o | o in ops :: FirstTime(ops, at) <= o.at
  {
    if ops != [] {
      NoneBefore(ops[1..], at);
    }
  }

  lemma BeforeLast(ops: seq<Op>, key: string, at: int)
    requires Clocked(ops + [Op.Request(key, at)])
    ensures Clocked(ops)
    ensures forall o | o in ops && o.Request? && o.key == key :: FirstTime(ops, at) <= o.at <= at
  {
    var all := ops + [Op.Request(key, at)];
    NoneBefore(ops, at);
    assert forall i | 0 <= i < |ops| :: all[i] == ops[i];
    forall o | o in ops && o.Request? && o.key == key
      ensures o.at <= at
    {
      var i :| 0 <= i < |ops| && ops[i] == o;
      assert all[i] == o && all[|ops|] == Op.Request(key, at);
    }
  }

  // ---------------------------------------------------------------- memory

  /** A shard holds at most its part of the keys and one more, and an entry at most as many
      stamps as it has a limit. */
  ghost predicate Bounded(layout: Layout, t: Table) {
    && (forall key :: |set k | k in t.Keys && layout.shardOf(k) % 64 == layout.shardOf(key) % 64|
                      <= (if layout.maxKeys <= 0 then 1_048_576 else layout.maxKeys) / 64 + 1)
    && (forall k | k in t :: |t[k].stamps| <= t[k].limit)
  }

  lemma ShardBounded(layout: Layout, t: Table, key: string, e: EntryView, other: string)
    requires Bounded(layout, t) && (key in t || !layout.Full(t.Keys, key))
    ensures var keys := t[key := e].Keys;
            |set k | k in keys && layout.shardOf(k) % 64 == layout.shardOf(other) % 64|
            <= (if layout.maxKeys <= 0 then 1_048_576 else layout.maxKeys) / 64 + 1
  {
    var before := set k | k in t.Keys && layout.shardOf(k) % 64 == layout.shardOf(other) % 64;
    var after := set k | k in t[key := e].Keys && layout.shardOf(k) % 64 == layout.shardOf(other) % 64;
    if layout.Together(other, key) {
      assert before == set k | k in t.Keys && layout.Together(k, key);
      assert after == before + {key};
    } else {
      assert after == before;
    }
  }

  lemma AskBounded(layout: Layout, t: Table, key: string, limit: int, window: int, now: int)
    requires Bounded(layout, t)
    ensures Bounded(layout, Ask(layout, t, key, limit, window, now).0)
  {
    if limit > 0 && window > 0 && (key in t || !layout.Full(t.Keys, key)) {
      var e := Touch(EntryOf(t, key, limit, window, now), limit, window, now).0;
      TouchBounded(EntryOf(t, key, limit, window, now), limit, window, now);
      forall other
        ensures |set k | k in t[key := e].Keys && layout.shardOf(k) % 64 == layout.shardOf(other) % 64|
                <= (if layout.maxKeys <= 0 then 1_048_576 else layout.maxKeys) / 64 + 1
      {
        ShardBounded(layout, t, key, e, other);
      }
    }
  }

  lemma TouchBounded(e: EntryView, limit: int, window: int, now: int)
    requires limit > 0 && (e.stamps == [] || |e.stamps| <= e.limit)
    ensures |Touch(e, limit, window, now).0.stamps| <= limit == Touch(e, limit, window, now).0.limit
  {
    DropShorter(if e.limit != limit then [] else e.stamps, now - window);
  }

  lemma {:induction false} DropShorter(stamps: seq<int>, boundary: int)
    ensures |Drop(stamps, boundary)| <= |stamps|
  {
    if stamps != [] && stamps[0] <= boundary {
      DropShorter(stamps[1..], boundary);
    }
  }

  lemma SweepBounded(layout: Layout, t: Table, at: int)
    requires Bounded(layout, t)
    ensures Bounded(layout, Sweep(t, at))
  {
    forall key
      ensures |set k | k in Sweep(t, at).Keys && layout.shardOf(k) % 64 == layout.shardOf(key) % 64|
              <= (if layout.maxKeys <= 0 then 1_048_576 else layout.maxKeys) / 64 + 1
    {
      Ordering.SubsetCount(set k | k in Sweep(t, at).Keys && layout.shardOf(k) % 64 == layout.shardOf(key) % 64,
                           set k | k in t.Keys && layout.shardOf(k) % 64 == layout.shardOf(key) % 64);
    }
  }

  /** Over every run, whatever its clocks and however many keys come, the memory of the limiter
      stays bounded. */
  lemma {:induction false} MemoryBounded(layout: Layout, p: Policy, t: Table, ops: seq<Op>)
    requires Bounded(layout, t)
    ensures Bounded(layout, RunOps(layout, p, t, ops).0)
    decreases |ops|
  {
    if ops != [] {
      match ops[0]
      case SweepAt(at) =>
        SweepBounded(layout, t, at);
        MemoryBounded(layout, p, Sweep(t, at), ops[1..]);
      case Request(key, at) =>
        AskBounded(layout, t, key, p.limit(key), p.window(key), at);
        MemoryBounded(layout, p, Ask(layout, t, key, p.limit(key), p.window(key), at).0, ops[1..]);
    }
  }

  // ---------------------------------------------------------------- what a sweep keeps

  /** No sweep of the run comes more than a window after this time. */
  ghost predicate Outlasts(ops: seq<Op>, last: int, window: int) {
    forall j | 0 <= j < |ops| && ops[j].SweepAt? :: ops[j].at - last <= window
  }

  /** A request of the key that every later sweep finds within its window. */
  ghost predicate Recent(ops: seq<Op>, key: string, window: int) {
    exists i | 0 <= i < |ops| :: RecentAt(ops, i, key, window)
  }

  ghost predicate RecentAt(ops: seq<Op>, i: nat, key: string, window: int)
    requires i < |ops|
  {
    ops[i].Request? && ops[i].key == key && Outlasts(ops[i + 1..], ops[i].at, window)
  }

  lemma RecentFirst(ops: seq<Op>, key: string, window: int)
    requires ops != []
    ensures Recent(ops, key, window) <==> RecentAt(ops, 0, key, window) || Recent(ops[1..], key, window)
  {
    var rest := ops[1..];
    forall i | 0 < i < |ops|
      ensures RecentAt(ops, i, key, window) <==> RecentAt(rest, i - 1, key, window)
    {
      assert ops[i + 1..] == rest[i..];
    }
    if Recent(rest, key, window) {
      var i :| 0 <= i < |rest| && RecentAt(rest, i, key, window);
      assert RecentAt(ops, i + 1, key, window);
    }
  }

  lemma OutlastsFirst(ops: seq<Op>, last: int, window: int)
    requires ops != []
    ensures Outlasts(ops, last, window)
            <==> (ops[0].SweepAt? ==> ops[0].at - last <= window) && Outlasts(ops[1..], last, window)
  {
    assert forall j | 0 < j < |ops| :: ops[j] == ops[1..][j - 1];
  }

  /** What the limiter has for the key outlasts the sweeps to come. */
  ghost predicate Stays(p: Policy, entry: Option<EntryView>, key: string, ops: seq<Op>) {
    entry.Some? && Outlasts(ops, entry.value.last, p.window(key))
  }

  /** The entry is of the key's window, and no request to come is before its last one. */
  ghost predicate Dated(p: Policy, entry: Option<EntryView>, key: string, ops: seq<Op>) {
    entry.Some? ==>
      && entry.value.window == p.window(key)
      && forall o | o in ops && o.Request? && o.key == key :: entry.value.last <= o.at
  }

  lemma TouchDates(layout: Layout, p: Policy, t: Table, key: string, at: int)
    requires p.Positive() && (key in t || !layout.Full(t.Keys, key))
    ensures var t' := Ask(layout, t, key, p.limit(key), p.window(key), at).0;
            key in t' && t'[key].last == at && t'[key].window == p.window(key) && t'.Keys == t.Keys + {key}
  {
  }

  lemma AskElsewhereKeeps(layout: Layout, t: Table, other: string, limit: int, window: int, at: int, key: string)
    requires other != key
    ensures var t' := Ask(layout, t, other, limit, window, at).0;
            Lookup(t', key) == Lookup(t, key) && t'.Keys <= t.Keys + {other}
  {
  }

  lemma {:induction false} KeptFrom(layout: Layout, p: Policy, t: Table, ops: seq<Op>, key: string, keys: set<string>)
    requires p.Positive() && Clocked(ops) && Dated(p, Lookup(t, key), key, ops)
    requires t.Keys + KeysOf(ops) <= keys && Roomy(layout, keys)
    ensures key in RunOps(layout, p, t, ops).0
            <==> Recent(ops, key, p.window(key)) || Stays(p, Lookup(t, key), key, ops)
    decreases |ops|
  {
    if ops != [] {
      var rest := ops[1..];
      assert Clocked(rest) && forall o | o in rest :: o in ops;
      assert KeysOf(rest) <= KeysOf(ops);
      match ops[0]
      case SweepAt(at) =>
        SweepStays(p, t, ops, key);
        KeptFrom(layout, p, Sweep(t, at), rest, key, keys);
      case Request(asked, at) =>
        assert ops[0] in ops && asked in KeysOf(ops);
        HasRoom(layout, t.Keys, keys, asked);
        AskStays(layout, p, t, ops, key);
        KeptFrom(layout, p, Ask(layout, t, asked, p.limit(asked), p.window(asked), at).0, rest, key, keys);
    }
  }

  lemma SweepStays(p: Policy, t: Table, ops: seq<Op>, key: string)
    requires ops != [] && ops[0].SweepAt? && Dated(p, Lookup(t, key), key, ops)
    ensures var rest, w, t' := ops[1..], p.window(key), Sweep(t, ops[0].at);
            && Dated(p, Lookup(t', key), key, rest) && t'.Keys <= t.Keys
            && (Recent(ops, key, w) || Stays(p, Lookup(t, key), key, ops)
                <==> Recent(rest, key, w) || Stays(p, Lookup(t', key), key, rest))
  {
    RecentFirst(ops, key, p.window(key));
    if key in t {
      OutlastsFirst(ops, t[key].last, p.window(key));
    }
  }

  lemma AskStays(layout: Layout, p: Policy, t: Table, ops: seq<Op>, key: string)
    requires p.Positive() && Clocked(ops) && ops != [] && ops[0].Request? && Dated(p, Lookup(t, key), key, ops)
    requires ops[0].key in t || !layout.Full(t.Keys, ops[0].key)
    ensures var rest, w, asked := ops[1..], p.window(key), ops[0].key;
            var t' := Ask(layout, t, asked, p.limit(asked), p.window(asked), ops[0].at).0;
            && Dated(p, Lookup(t', key), key, rest) && t'.Keys <= t.Keys + {asked}
            && (Recent(ops, key, w) || Stays(p, Lookup(t, key), key, ops)
                <==> Recent(rest, key, w) || Stays(p, Lookup(t', key), key, rest))
  {
    RecentFirst(ops, key, p.window(key));
    if key in t {
      OutlastsFirst(ops, t[key].last, p.window(key));
    }
    var asked := ops[0].key;
    if asked == key {
      TouchDates(layout, p, t, key, ops[0].at);
      RequestsLater(ops);
      assert ops[0] in ops;
    } else {
      AskElsewhereKeeps(layout, t, asked, p.limit(asked), p.window(asked), ops[0].at, key);
    }
  }

  lemma RequestsLater(ops: seq<Op>)
    requires Clocked(ops) && ops != [] && ops[0].Request?
    ensures forall o | o in ops[1..] && o.Request? && o.key == ops[0].key :: ops[0].at <= o.at
  {
    forall o | o in ops[1..] && o.Request? && o.key == ops[0].key
      ensures ops[0].at <= o.at
    {
      var i :| 0 <= i < |ops[1..]| && ops[1..][i] == o;
      assert ops[i + 1] == o;
    }
  }

  /** The limiter holds on to a key exactly when some request of it, let through or not, lies
      within its window of every sweep after it. */
  lemma KeptExactly(layout: Layout, p: Policy, ops: seq<Op>, key: string)
    requires p.Positive() && Clocked(ops) && Roomy(layout, KeysOf(ops))
    ensures key in RunOps(layout, p, map[], ops).0 <==> Recent(ops, key, p.window(key))
  {
    KeptFrom(layout, p, map[], ops, key, KeysOf(ops));
  }
}
