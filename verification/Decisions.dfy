/** What becomes of every request of a stream, said of the rules as they are written: which
    rule leads, what it says, and when its limit is used up. */
module Decisions {
  import opened Wrappers
  import opened Ordering
  import opened Sequences
  import opened Facts
  import opened Condition
  import opened Rules
  import opened RuleSets
  import opened RuleSetLaws
  import opened Limit
  import opened LimitLaws
  import opened LimitOrder
  import opened Replay
  import opened ReplayLaws
  import opened ReplayOrder

  /** The rule is enabled and active, and the request comes under it. */
  ghost predicate Applies(env: Env, u: Rule, r: Request) {
    && u.enabled != Some(false) && u.mode == "active" && ValidRule(env, u)
    && InScope(env, u.scope, r.host) && Holds(env.parse, u.condition, r)
  }

  /** It applies, and every other rule that does has a lower priority, or the same and a
      greater id. */
  ghost predicate Foremost(env: Env, list: seq<Rule>, r: Request, v: Rule) {
    && v in list && Applies(env, v, r)
    && forall u | u in list && Applies(env, u, r) && u != v ::
         v.priority > u.priority || (v.priority == u.priority && StringLess(v.id, u.id))
  }

  /** The id and the value of the counted field, the address if none is named. */
  function KeyText(u: Rule, r: Request): string {
    u.id + "\0" + ReadText(r, if u.action.key == "" then "ip" else u.action.key)
  }

  /** A rate limit leads for the request, and counts it under this key. */
  ghost predicate CountsUnder(env: Env, list: seq<Rule>, r: Request, key: string) {
    exists v :: Foremost(env, list, r, v) && v.action.kind == "ratelimit" && KeyText(v, r) == key
  }

  /** The request counted under the key, and was let through after `lo` and no later than `hi`. */
  ghost predicate Through(env: Env, list: seq<Rule>, r: Request, d: Decision, key: string, lo: int, hi: int) {
    CountsUnder(env, list, r, key) && d.action == "pass" && lo < r.time <= hi
  }

  /** How many of the first n requests did so. */
  ghost function LetThrough(env: Env, list: seq<Rule>, log: seq<Request>, ds: seq<Decision>, n: nat, key: string,
                            lo: int, hi: int): nat
    requires n <= |log| == |ds|
  {
    if n == 0 then 0
    else LetThrough(env, list, log, ds, n - 1, key, lo, hi)
           + if Through(env, list, log[n - 1], ds[n - 1], key, lo, hi) then 1 else 0
  }

  function SpanOfRule(env: Env, u: Rule): int {
    match env.duration(u.action.window) case Some(w) => w case None => 0
  }

  /** At least `limit` requests of the key were let through in the window that ends with the
      i-th one. */
  ghost predicate Spent(env: Env, list: seq<Rule>, log: seq<Request>, ds: seq<Decision>, i: nat, u: Rule)
    requires i < |log| == |ds|
  {
    LetThrough(env, list, log, ds, i, KeyText(u, log[i]), log[i].time - SpanOfRule(env, u), log[i].time)
    >= u.action.limit
  }

  // ---------------------------------------------------------------- who leads

  lemma ForemostIsVerdict(env: Env, list: seq<Rule>, r: Request)
    requires Buildable(env, list)
    ensures forall v :: Verdict(env, Effective(list), r) == Some(v) <==> Foremost(env, list, r, v)
    ensures Verdict(env, Effective(list), r) == None <==> forall u | u in list :: !Applies(env, u, r)
  {
    VerdictLeads(env, list, r);
    forall u | u in list
      ensures Applies(env, u, r) <==> u.Enabled() && Decides(env, u, r)
    {
      var i :| 0 <= i < |list| && list[i] == u;
      assert ValidRule(env, list[i]);
    }
  }

  lemma CountsIsBudget(env: Env, list: seq<Rule>, r: Request, key: string)
    requires Buildable(env, list)
    ensures CountsUnder(env, list, r, key) <==> CountsAs(env, Effective(list), r, key)
  {
    ForemostIsVerdict(env, list, r);
    if CountsAs(env, Effective(list), r, key) {
      var v := Verdict(env, Effective(list), r).value;
      assert Foremost(env, list, r, v) && KeyText(v, r) == key;
    }
  }

  // ---------------------------------------------------------------- what was let through

  /** The times of the requests of a key that were let through. */
  ghost function PassedTimes(env: Env, rules: seq<Rule>, log: seq<Request>, ds: seq<Decision>, key: string): seq<int>
    requires |log| == |ds|
  {
    if log == [] then []
    else
      var n := |log| - 1;
      PassedTimes(env, rules, log[..n], ds[..n], key)
        + if CountsAs(env, rules, log[n], key) && ds[n].action == "pass" then [log[n].time] else []
  }

  /** What the key's log holds is what was let through. */
  lemma {:induction false} PassedIsLog(env: Env, rules: seq<Rule>, log: seq<Request>, u: Rule, key: string,
                                        q: Request)
    requires OneBudget(env, rules) && u in rules && ValidRule(env, u) && u.action.kind == RATELIMIT
    requires u.KeyFor(q) == key
    ensures PassedTimes(env, rules, log, AllByKey(env, rules, log), key)
            == KeyLog(u.action.limit, WindowOf(env, u), Times(OfKey(env, rules, log, key)))
  {
    if log != [] {
      var n := |log| - 1;
      PassedIsLog(env, rules, log[..n], u, key, q);
      LastApart(log);
      AllByKeyNext(env, rules, log[..n], log[n]);
      PassedNext(env, rules, log[..n], log[n], u, key, q);
    }
  }

  lemma PassedNext(env: Env, rules: seq<Rule>, log: seq<Request>, r: Request, u: Rule, key: string,
                   q: Request)
    requires OneBudget(env, rules) && u in rules && ValidRule(env, u) && u.action.kind == RATELIMIT
    requires u.KeyFor(q) == key
    requires PassedTimes(env, rules, log, AllByKey(env, rules, log), key)
             == KeyLog(u.action.limit, WindowOf(env, u), Times(OfKey(env, rules, log, key)))
    ensures var ds := AllByKey(env, rules, log) + [ByKey(env, rules, log, r)];
            PassedTimes(env, rules, log + [r], ds, key)
            == KeyLog(u.action.limit, WindowOf(env, u), Times(OfKey(env, rules, log + [r], key)))
  {
    var ds, d := AllByKey(env, rules, log), ByKey(env, rules, log, r);
    PushInit(log, r);
    PushInit(ds, d);
    OfKeyNext(env, rules, log, r, key);
    AppendNothing(OfKey(env, rules, log, key), []);
    AppendNothing(PassedTimes(env, rules, log, ds, key), []);
    TimesPush(OfKey(env, rules, log, key), r);
    if CountsAs(env, rules, r, key) {
      PassOrLimit(env, rules, log, r, u, key, q);
      KeyLogNext(u.action.limit, WindowOf(env, u), Times(OfKey(env, rules, log, key)), r.time);
    }
  }

  lemma PassOrLimit(env: Env, rules: seq<Rule>, log: seq<Request>, r: Request, u: Rule, key: string,
                   q: Request)
    requires OneBudget(env, rules) && u in rules && ValidRule(env, u) && u.action.kind == RATELIMIT
    requires u.KeyFor(q) == key
    requires CountsAs(env, rules, r, key)
    ensures ByKey(env, rules, log, r).action == "pass"
            <==> !UsedUp(u.action.limit, WindowOf(env, u), Times(OfKey(env, rules, log, key)), r.time)
  {
    BudgetIsRule(env, rules, r);
    var v := Budget(env, rules, r).value;
    assert v.KeyFor(r) == u.KeyFor(q);
  }

  lemma WithinNext(s: seq<int>, t: int, lo: int, hi: int)
    ensures Within(s + [t], lo, hi) == Within(s, lo, hi) + if lo < t <= hi then 1 else 0
  {
    PushInit(s, t);
  }

  // ---------------------------------------------------------------- every decision

  lemma PassedBefore(env: Env, list: seq<Rule>, log: seq<Request>, i: nat, u: Rule, key: string)
    requires OneBudget(env, Effective(list)) && i < |log| && key == u.KeyFor(log[i])
    requires u in Effective(list) && ValidRule(env, u) && u.action.kind == RATELIMIT
    ensures PassedTimes(env, Effective(list), log[..i], AllByKey(env, Effective(list), log)[..i], key)
            == KeyLog(u.action.limit, WindowOf(env, u), Times(OfKey(env, Effective(list), log[..i], key)))
  {
    PassedIsLog(env, Effective(list), log[..i], u, key, log[i]);
    PrefixByKey(env, Effective(list), log, i);
  }

  lemma SpentIsUsedUp(env: Env, list: seq<Rule>, log: seq<Request>, ds: seq<Decision>, i: nat, u: Rule, key: string,
                      window: int)
    requires Buildable(env, list) && i < |log| == |ds| && KeyText(u, log[i]) == key && SpanOfRule(env, u) == window
    requires PassedTimes(env, Effective(list), log[..i], ds[..i], key)
             == KeyLog(u.action.limit, window, Times(OfKey(env, Effective(list), log[..i], key)))
    ensures Spent(env, list, log, ds, i, u)
            <==> UsedUp(u.action.limit, window, Times(OfKey(env, Effective(list), log[..i], key)), log[i].time)
  {
    ThroughIsUsedUp(env, list, log, ds, i, key, u.action.limit, window);
    SpentIs(env, list, log, ds, i, u, key, window);
  }

  lemma ThroughIsUsedUp(env: Env, list: seq<Rule>, log: seq<Request>, ds: seq<Decision>, i: nat, key: string,
                        limit: int, window: int)
    requires Buildable(env, list) && i < |log| == |ds|
    requires PassedTimes(env, Effective(list), log[..i], ds[..i], key)
             == KeyLog(limit, window, Times(OfKey(env, Effective(list), log[..i], key)))
    ensures LetThrough(env, list, log, ds, i, key, log[i].time - window, log[i].time) >= limit
            <==> UsedUp(limit, window, Times(OfKey(env, Effective(list), log[..i], key)), log[i].time)
  {
    ThroughCount(env, list, log, ds, i, key, log[i].time - window, log[i].time);
  }

  lemma SpentIs(env: Env, list: seq<Rule>, log: seq<Request>, ds: seq<Decision>, i: nat, u: Rule, key: string,
                window: int)
    requires i < |log| == |ds| && KeyText(u, log[i]) == key && SpanOfRule(env, u) == window
    ensures Spent(env, list, log, ds, i, u)
            <==> LetThrough(env, list, log, ds, i, key, log[i].time - window, log[i].time) >= u.action.limit
  {
  }

  lemma KeyTextIs(u: Rule, r: Request)
    ensures KeyText(u, r) == u.KeyFor(r)
  {
  }

  lemma PassedTaken(env: Env, rules: seq<Rule>, log: seq<Request>, ds: seq<Decision>, n: nat, key: string)
    requires 0 < n <= |log| == |ds|
    ensures PassedTimes(env, rules, log[..n], ds[..n], key)
            == PassedTimes(env, rules, log[..n - 1], ds[..n - 1], key)
               + if CountsAs(env, rules, log[n - 1], key) && ds[n - 1].action == "pass" then [log[n - 1].time] else []
  {
    assert log[..n][..n - 1] == log[..n - 1] && ds[..n][..n - 1] == ds[..n - 1];
  }

  lemma WithinMore(passed: seq<int>, more: bool, t: int, lo: int, hi: int)
    ensures Within(passed + if more then [t] else [], lo, hi)
            == Within(passed, lo, hi) + if more && lo < t <= hi then 1 else 0
  {
    WithinNext(passed, t, lo, hi);
    AppendNothing(passed, []);
  }

  lemma LetThroughNext(env: Env, list: seq<Rule>, log: seq<Request>, ds: seq<Decision>, n: nat, key: string,
                       lo: int, hi: int, more: bool)
    requires 0 < n <= |log| == |ds|
    requires more <==> CountsUnder(env, list, log[n - 1], key) && ds[n - 1].action == "pass"
    ensures LetThrough(env, list, log, ds, n, key, lo, hi)
            == LetThrough(env, list, log, ds, n - 1, key, lo, hi) + if more && lo < log[n - 1].time <= hi then 1 else 0
  {
  }

  lemma {:induction false} ThroughCount(env: Env, list: seq<Rule>, log: seq<Request>, ds: seq<Decision>, n: nat,
                                        key: string, lo: int, hi: int)
    requires Buildable(env, list) && n <= |log| == |ds|
    ensures LetThrough(env, list, log, ds, n, key, lo, hi)
            == Within(PassedTimes(env, Effective(list), log[..n], ds[..n], key), lo, hi)
    decreases n
  {
    if n > 0 {
      ThroughCount(env, list, log, ds, n - 1, key, lo, hi);
      ThroughStep(env, list, log, ds, n, key, lo, hi,
                  PassedTimes(env, Effective(list), log[..n - 1], ds[..n - 1], key));
    }
  }

  lemma ThroughStep(env: Env, list: seq<Rule>, log: seq<Request>, ds: seq<Decision>, n: nat, key: string,
                    lo: int, hi: int, passed: seq<int>)
    requires Buildable(env, list) && 0 < n <= |log| == |ds|
    requires passed == PassedTimes(env, Effective(list), log[..n - 1], ds[..n - 1], key)
    requires LetThrough(env, list, log, ds, n - 1, key, lo, hi) == Within(passed, lo, hi)
    ensures LetThrough(env, list, log, ds, n, key, lo, hi)
            == Within(PassedTimes(env, Effective(list), log[..n], ds[..n], key), lo, hi)
  {
    var more := CountsUnder(env, list, log[n - 1], key) && ds[n - 1].action == "pass";
    CountsIsBudget(env, list, log[n - 1], key);
    LetThroughNext(env, list, log, ds, n, key, lo, hi, more);
    PassedTaken(env, Effective(list), log, ds, n, key);
    WithinMore(passed, more, log[n - 1].time, lo, hi);
  }

  lemma PrefixByKey(env: Env, rules: seq<Rule>, log: seq<Request>, i: nat)
    requires i <= |log|
    ensures AllByKey(env, rules, log)[..i] == AllByKey(env, rules, log[..i])
  {
    assert forall j | 0 <= j < i :: log[..i][..j] == log[..j];
  }

  /** The decision about the i-th request of a log: it passes, and no rule is named, just when
      no rule applies; otherwise it gets what the foremost rule says, whose limit is used up
      just when that many requests of its key were let through in its window. */
  ghost predicate Explained(env: Env, list: seq<Rule>, log: seq<Request>, ds: seq<Decision>, i: nat)
    requires i < |log| == |ds|
  {
    && (ds[i].rule == "" <==> forall u | u in list :: !Applies(env, u, log[i]))
    && (ds[i].rule == "" ==> ds[i] == Decision("pass", "", "", 0, ""))
    && (forall v | Foremost(env, list, log[i], v) ::
          Speaks(env, v, v.action.kind == "ratelimit" && Spent(env, list, log, ds, i, v), ds[i]))
  }

  /** The requests of a stream. */
  function Requested(events: seq<Event>): seq<Request> {
    if events == [] then []
    else (match events[0] case Arrives(r) => [r] case SweptAt(_) => []) + Requested(events[1..])
  }

  lemma {:induction false} RequestedArrive(events: seq<Event>)
    ensures Arriving(Requested(events)) == Arrivals(events)
  {
    if events != [] {
      RequestedArrive(events[1..]);
    }
  }

  /** Every decision about every stream of requests and sweeps, from a fresh limiter. */
  lemma DecisionsExact(env: Env, list: seq<Rule>, layout: Layout, events: seq<Event>)
    requires Buildable(env, list) && OneBudget(env, Effective(list))
    requires Clocked(Asks(env, Effective(list), events)) && Roomy(layout, KeysOf(Asks(env, Effective(list), events)))
    ensures var log, ds := Requested(events), Served(env, Effective(list), Some(Book(layout, map[])), events).1;
            |ds| == |log| && forall i | 0 <= i < |log| :: Explained(env, list, log, ds, i)
  {
    var log, ops := Requested(events), Asks(env, Effective(list), events);
    var ds := Served(env, Effective(list), Some(Book(layout, map[])), events).1;
    RequestedArrive(events);
    SameDecisions(env, Effective(list), layout, layout, events);
    AsksOfArrivals(env, Effective(list), events);
    RequestsKept(ops);
    RequestsClocked(ops);
    DecidedByKey(env, Effective(list), layout, log);
    forall i | 0 <= i < |log|
      ensures Explained(env, list, log, ds, i)
    {
      OneExplained(env, list, log, ds, i);
    }
  }

  lemma OneExplained(env: Env, list: seq<Rule>, log: seq<Request>, ds: seq<Decision>, i: nat)
    requires Buildable(env, list) && OneBudget(env, Effective(list))
    requires i < |log| && ds == AllByKey(env, Effective(list), log)
    ensures Explained(env, list, log, ds, i)
  {
    var rules, r := Effective(list), log[i];
    var v, u := Verdict(env, rules, r), Budget(env, rules, r);
    ForemostIsVerdict(env, list, r);
    var exceeded := u.Some? &&
      UsedUp(u.value.action.limit, WindowOf(env, u.value), Times(OfKey(env, rules, log[..i], u.value.KeyFor(r))),
             r.time);
    SettledSaid(env, v, exceeded);
    assert ds[i] == Settled(env, v, exceeded);
    if u.Some? {
      BudgetIsRule(env, rules, r);
      PassedBefore(env, list, log, i, u.value, u.value.KeyFor(r));
      KeyTextIs(u.value, r);
      SpentIsUsedUp(env, list, log, ds, i, u.value, u.value.KeyFor(r), WindowOf(env, u.value));
    }
    if v.Some? {
      assert v.value.id != "";
    }
  }
}
