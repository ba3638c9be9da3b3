/** How much of the order a replay needs. A log need not be in decision order: the order
    within each rate limited key is enough, and two neighbours of one key are never free to
    change places. */
module ReplayOrder {
  import opened Wrappers
  import opened Facts
  import opened Condition
  import opened Rules
  import opened RuleSets
  import opened RuleSetLaws
  import opened Sequences
  import opened Limit
  import opened LimitLaws
  import opened LimitOrder
  import opened Replay
  import opened ReplayLaws

  /** A log as a stream of requests. */
  function Arriving(log: seq<Request>): (events: seq<Event>)
    ensures |events| == |log|
  {
    seq(|log|, i requires 0 <= i < |log| => Arrives(log[i]))
  }

  /** The request counts under this key. */
  predicate CountsAs(env: Env, rules: seq<Rule>, r: Request, key: string) {
    var u := Budget(env, rules, r);
    u.Some? && u.value.KeyFor(r) == key
  }

  /** The requests of a log that count under the key, in its order. */
  function OfKey(env: Env, rules: seq<Rule>, log: seq<Request>, key: string): seq<Request> {
    Chosen(log, (r: Request) => CountsAs(env, rules, r, key))
  }

  lemma OfKeyNext(env: Env, rules: seq<Rule>, log: seq<Request>, r: Request, key: string)
    ensures OfKey(env, rules, log + [r], key)
            == OfKey(env, rules, log, key) + if CountsAs(env, rules, r, key) then [r] else []
  {
    PushInit(log, r);
  }

  function Times(log: seq<Request>): (ts: seq<int>)
    ensures |ts| == |log|
  {
    seq(|log|, i requires 0 <= i < |log| => log[i].time)
  }

  /** The decision about a request, told from the requests of its key before it. */
  function ByKey(env: Env, rules: seq<Rule>, before: seq<Request>, r: Request): Decision {
    var v, u := Verdict(env, rules, r), Budget(env, rules, r);
    Settled(env, v, u.Some? &&
      UsedUp(u.value.action.limit, WindowOf(env, u.value), Times(OfKey(env, rules, before, u.value.KeyFor(r))), r.time))
  }

  // ---------------------------------------------------------------- decisions by key

  function AsksOf(env: Env, rules: seq<Rule>, r: Request): seq<Op> {
    var u := Budget(env, rules, r);
    if u.Some? then [Op.Request(u.value.KeyFor(r), r.time)] else []
  }

  lemma ArrivingNext(log: seq<Request>, r: Request)
    ensures Arriving(log + [r]) == Arriving(log) + [Arrives(r)]
  {
  }

  lemma {:induction false} AsksNext(env: Env, rules: seq<Rule>, events: seq<Event>, r: Request)
    ensures Asks(env, rules, events + [Arrives(r)]) == Asks(env, rules, events) + AsksOf(env, rules, r)
    decreases |events|
  {
    var more := events + [Arrives(r)];
    if events == [] {
      assert more[1..] == [] && more[0] == Arrives(r);
      AppendNothing(AsksOf(env, rules, r), Asks(env, rules, more[1..]));
    } else {
      assert more[1..] == events[1..] + [Arrives(r)] && more[0] == events[0];
      AsksNext(env, rules, events[1..], r);
      var first := match events[0] case SweptAt(at) => [SweepAt(at)] case Arrives(q) => AsksOf(env, rules, q);
      Associate(first, Asks(env, rules, events[1..]), AsksOf(env, rules, r));
    }
  }

  /** The limiter is asked for a key at the times of the requests that count under it. */
  lemma {:induction false} AskedTimes(env: Env, rules: seq<Rule>, log: seq<Request>, key: string)
    ensures TimesOf(Asks(env, rules, Arriving(log)), key) == Times(OfKey(env, rules, log, key))
    ensures AllRequests(Asks(env, rules, Arriving(log)))
  {
    if log != [] {
      var n := |log| - 1;
      var r := log[n];
      AskedTimes(env, rules, log[..n], key);
      LastApart(log);
      ArrivingNext(log[..n], r);
      AsksNext(env, rules, Arriving(log[..n]), r);
      var before := Asks(env, rules, Arriving(log[..n]));
      if Budget(env, rules, r).Some? {
        TimesNext(before, AsksOf(env, rules, r)[0], key);
      } else {
        AppendNothing(before, []);
      }
      OfKeyNext(env, rules, log[..n], r, key);
      TimesPush(OfKey(env, rules, log[..n], key), r);
      AppendNothing(OfKey(env, rules, log[..n], key), []);
    }
  }

  lemma TimesPush(log: seq<Request>, r: Request)
    ensures Times(log + [r]) == Times(log) + [r.time]
  {
  }

  lemma RepliesFirst(env: Env, rules: seq<Rule>, events: seq<Event>, answers: seq<bool>)
    requires events != [] && events[0].Arrives?
    requires Budget(env, rules, events[0].r).Some? ==> answers != []
    ensures var some := Budget(env, rules, events[0].r).Some?;
            Replies(env, rules, events, answers)
            == [Settled(env, Verdict(env, rules, events[0].r), some && answers[0])]
               + Replies(env, rules, events[1..], if some then answers[1..] else answers)
  {
  }

  lemma {:induction false} RepliesNext(env: Env, rules: seq<Rule>, events: seq<Event>, r: Request, answers: seq<bool>,
                                       x: bool)
    requires forall e | e in events :: e.Arrives?
    requires |answers| == |Asks(env, rules, events)|
    ensures var some := Budget(env, rules, r).Some?;
            Replies(env, rules, events + [Arrives(r)], answers + if some then [x] else [])
            == Replies(env, rules, events, answers) + [Settled(env, Verdict(env, rules, r), some && x)]
    decreases |events|
  {
    var last := if Budget(env, rules, r).Some? then [x] else [];
    var more := events + [Arrives(r)];
    var d := Settled(env, Verdict(env, rules, r), Budget(env, rules, r).Some? && x);
    if events == [] {
      assert more[0] == Arrives(r) && more[1..] == [] && answers + last == last;
      var none: seq<Decision> := [];
      assert [d] + none == none + [d];
    } else {
      var q := events[0].r;
      PushTail(events, [Arrives(r)]);
      var some := Budget(env, rules, q).Some?;
      assert |Asks(env, rules, events)| == |Asks(env, rules, events[1..])| + if some then 1 else 0;
      var rest := if some then answers[1..] else answers;
      RepliesNext(env, rules, events[1..], r, rest, x);
      RepliesFirst(env, rules, events, answers);
      RepliesFirst(env, rules, more, answers + last);
      if some {
        PushTail(answers, last);
      }
      var e := Settled(env, Verdict(env, rules, q), some && answers[0]);
      Associate([e], Replies(env, rules, events[1..], rest), [d]);
    }
  }

  function AllByKey(env: Env, rules: seq<Rule>, log: seq<Request>): (ds: seq<Decision>)
    ensures |ds| == |log|
  {
    seq(|log|, i requires 0 <= i < |log| => ByKey(env, rules, log[..i], log[i]))
  }

  lemma AllByKeyNext(env: Env, rules: seq<Rule>, log: seq<Request>, r: Request)
    ensures AllByKey(env, rules, log + [r]) == AllByKey(env, rules, log) + [ByKey(env, rules, log, r)]
  {
    var more := log + [r];
    assert forall i | 0 <= i <= |log| :: more[..i] == log[..i];
    assert log[..|log|] == log;
  }

  lemma {:induction false} NaiveByKey(env: Env, rules: seq<Rule>, p: Policy, log: seq<Request>)
    requires Fits(env, rules, p)
    ensures var ops := Asks(env, rules, Arriving(log));
            Replies(env, rules, Arriving(log), NaiveRun(p, map[], ops).1) == AllByKey(env, rules, log)
  {
    if log != [] {
      var n := |log| - 1;
      NaiveByKey(env, rules, p, log[..n]);
      LastApart(log);
      NaiveStep(env, rules, p, log[..n], log[n]);
    }
  }

  /** The naive answers for a log, as decisions. */
  function Naively(env: Env, rules: seq<Rule>, p: Policy, log: seq<Request>): seq<Decision> {
    Replies(env, rules, Arriving(log), NaiveRun(p, map[], Asks(env, rules, Arriving(log))).1)
  }

  lemma AllArrive(log: seq<Request>)
    ensures forall e | e in Arriving(log) :: e.Arrives?
  {
  }

  lemma NaiveStep(env: Env, rules: seq<Rule>, p: Policy, log: seq<Request>, r: Request)
    requires Fits(env, rules, p) && Naively(env, rules, p, log) == AllByKey(env, rules, log)
    ensures Naively(env, rules, p, log + [r]) == AllByKey(env, rules, log + [r])
  {
    ArrivingNext(log, r);
    AsksNext(env, rules, Arriving(log), r);
    AllByKeyNext(env, rules, log, r);
    if Budget(env, rules, r).Some? {
      LimitedStep(env, rules, p, log, r);
    } else {
      FreeStep(env, rules, p, log, r);
    }
  }

  lemma FreeStep(env: Env, rules: seq<Rule>, p: Policy, log: seq<Request>, r: Request)
    requires Budget(env, rules, r).None?
    ensures var events := Arriving(log);
            var ops := Asks(env, rules, events) + AsksOf(env, rules, r);
            Replies(env, rules, events + [Arrives(r)], NaiveRun(p, map[], ops).1)
            == Naively(env, rules, p, log) + [ByKey(env, rules, log, r)]
  {
    var ops := Asks(env, rules, Arriving(log));
    AskedTimes(env, rules, log, "");
    StampsByKey(p, ops, "");
    AppendNothing(ops, []);
    AppendNothing(NaiveRun(p, map[], ops).1, []);
    AllArrive(log);
    RepliesNext(env, rules, Arriving(log), r, NaiveRun(p, map[], ops).1, false);
  }

  lemma LimitedStep(env: Env, rules: seq<Rule>, p: Policy, log: seq<Request>, r: Request)
    requires Fits(env, rules, p) && Budget(env, rules, r).Some?
    ensures var events := Arriving(log);
            var ops := Asks(env, rules, events) + AsksOf(env, rules, r);
            Replies(env, rules, events + [Arrives(r)], NaiveRun(p, map[], ops).1)
            == Naively(env, rules, p, log) + [ByKey(env, rules, log, r)]
  {
    var ops := Asks(env, rules, Arriving(log));
    var run := NaiveRun(p, map[], ops);
    var key := Budget(env, rules, r).value.KeyFor(r);
    AskedTimes(env, rules, log, key);
    StampsByKey(p, ops, key);
    NaiveNext(p, map[], ops, Op.Request(key, r.time));
    AllArrive(log);
    var x := NaiveAsk(run.0, key, p.limit(key), p.window(key), r.time).1;
    RepliesNext(env, rules, Arriving(log), r, run.1, x);
    BudgetIsRule(env, rules, r);
    AnswerByKey(env, rules, Budget(env, rules, r).value, log, r, run.0);
  }

  lemma AnswerByKey(env: Env, rules: seq<Rule>, u: Rule, before: seq<Request>, r: Request, log: Log)
    requires Budget(env, rules, r) == Some(u) && ValidRule(env, u)
    requires Stamps(log, u.KeyFor(r))
             == KeyLog(u.action.limit, WindowOf(env, u), Times(OfKey(env, rules, before, u.KeyFor(r))))
    ensures ByKey(env, rules, before, r)
            == Settled(env, Verdict(env, rules, r),
                       NaiveAsk(log, u.KeyFor(r), u.action.limit, WindowOf(env, u), r.time).1)
  {
  }

  lemma BudgetIsRule(env: Env, rules: seq<Rule>, r: Request)
    requires Budget(env, rules, r).Some?
    ensures var u := Budget(env, rules, r).value; u in rules && ValidRule(env, u) && u.action.kind == RATELIMIT
  {
  }

  /** Against a fresh limiter every decision is told by the requests of its own key. */
  lemma DecidedByKey(env: Env, rules: seq<Rule>, layout: Layout, log: seq<Request>)
    requires OneBudget(env, rules) && Clocked(Asks(env, rules, Arriving(log)))
    requires Roomy(layout, KeysOf(Asks(env, rules, Arriving(log))))
    ensures Served(env, rules, Some(Book(layout, map[])), Arriving(log)).1 == AllByKey(env, rules, log)
  {
    var p := BudgetsFit(env, rules);
    var ops := Asks(env, rules, Arriving(log));
    RunByAnswers(env, rules, p, layout, map[], Arriving(log));
    RingRefinesLog(layout, p, map[], map[], ops, KeysOf(ops));
    NaiveByKey(env, rules, p, log);
  }

  // ---------------------------------------------------------------- the order within each key

  /** The same requests, and those of each key in the same order. */
  ghost predicate KeepsKeyOrder(env: Env, rules: seq<Rule>, a: seq<Request>, b: seq<Request>) {
    multiset(a) == multiset(b) && forall key :: OfKey(env, rules, a, key) == OfKey(env, rules, b, key)
  }

  /** Every request of the one log is in the other, decided alike. */
  lemma SamePlace(env: Env, rules: seq<Rule>, a: seq<Request>, b: seq<Request>, i: nat) returns (j: nat)
    requires KeepsKeyOrder(env, rules, a, b) && i < |a|
    ensures j < |b| && b[j] == a[i] && ByKey(env, rules, a[..i], a[i]) == ByKey(env, rules, b[..j], b[j])
  {
    var u := Budget(env, rules, a[i]);
    if u.Some? {
      j := PlaceOfKey(env, rules, a, b, i, u.value.KeyFor(a[i]));
      AlikeByKey(env, rules, a[..i], b[..j], a[i]);
    } else {
      assert a[i] in multiset(a) && a[i] in b;
      j :| 0 <= j < |b| && b[j] == a[i];
    }
  }

  lemma PlaceOfKey(env: Env, rules: seq<Rule>, a: seq<Request>, b: seq<Request>, i: nat, key: string) returns (j: nat)
    requires i < |a| && CountsAs(env, rules, a[i], key) && OfKey(env, rules, a, key) == OfKey(env, rules, b, key)
    ensures j < |b| && b[j] == a[i] && OfKey(env, rules, a[..i], key) == OfKey(env, rules, b[..j], key)
  {
    j := ChosenAlike(a, b, i, (r: Request) => CountsAs(env, rules, r, key));
  }

  lemma AlikeByKey(env: Env, rules: seq<Rule>, a: seq<Request>, b: seq<Request>, r: Request)
    requires var u := Budget(env, rules, r);
             u.Some? && OfKey(env, rules, a, u.value.KeyFor(r)) == OfKey(env, rules, b, u.value.KeyFor(r))
    ensures ByKey(env, rules, a, r) == ByKey(env, rules, b, r)
  {
  }

  /** The order within the keys carries over what is asked of the limiter. */
  lemma SameAsks(env: Env, rules: seq<Rule>, a: seq<Request>, b: seq<Request>)
    requires KeepsKeyOrder(env, rules, a, b) && Clocked(Asks(env, rules, Arriving(a)))
    ensures var p, q := Asks(env, rules, Arriving(a)), Asks(env, rules, Arriving(b));
            Clocked(q) && KeysOf(p) == KeysOf(q)
  {
    var p, q := Asks(env, rules, Arriving(a)), Asks(env, rules, Arriving(b));
    AskedTimes(env, rules, a, "");
    AskedTimes(env, rules, b, "");
    forall key
      ensures TimesOf(p, key) == TimesOf(q, key)
    {
      AskedTimes(env, rules, a, key);
      AskedTimes(env, rules, b, key);
    }
    ClockedByKey(p, q);
  }

  lemma {:induction false} AsksBySignals(env: Env, rules: seq<Rule>, a: seq<Event>, b: seq<Event>)
    requires AllAlike(a, b)
    ensures Asks(env, rules, a) == Asks(env, rules, b)
    decreases |a|
  {
    if a != [] {
      VerdictBySignals(env, rules, a[0].r, b[0].r);
      var u := Budget(env, rules, a[0].r);
      if u.Some? {
        assert ValueOf(a[0].r, u.value.LimiterKey()) == ValueOf(b[0].r, u.value.LimiterKey());
      }
      AsksBySignals(env, rules, a[1..], b[1..]);
    }
  }

  /** The hot path's decisions, told by key from the log it kept in decision order. */
  lemma HotPathByKey(env: Env, rules: seq<Rule>, layout: Layout, events: seq<Event>, ordered: seq<Request>)
    requires OneBudget(env, rules) && Clocked(Asks(env, rules, events))
             && Roomy(layout, KeysOf(Asks(env, rules, events)))
    requires Recorded(ordered, Arrivals(events), Served(env, rules, Some(Book(layout, map[])), events).1)
    ensures Served(env, rules, Some(Book(layout, map[])), events).1 == AllByKey(env, rules, ordered)
    ensures var ops := Asks(env, rules, Arriving(ordered));
            Clocked(ops) && KeysOf(ops) == KeysOf(Asks(env, rules, events))
  {
    assert AllAlike(Arriving(ordered), Arrivals(events));
    AsksBySignals(env, rules, Arriving(ordered), Arrivals(events));
    AsksOfArrivals(env, rules, events);
    RequestsKept(Asks(env, rules, events));
    RequestsClocked(Asks(env, rules, events));
    SameDecisions(env, rules, layout, layout, events);
    ServedBySignals(env, rules, Some(Book(layout, map[])), Arriving(ordered), Arrivals(events));
    DecidedByKey(env, rules, layout, ordered);
  }

  lemma AnewAlike(log: seq<Request>)
    ensures AllAlike(Anew(log), Arriving(log))
  {
    forall i | 0 <= i < |log|
      ensures Alike(Anew(log)[i].r, Arriving(log)[i].r)
    {
      ErasedAlike(log[i]);
    }
  }

  /** A log in any order that keeps the one within each rate limited key, replayed with the
      rules it was made with, gives every decision again, and no divergence. */
  lemma KeyOrderReproduces(env: Env, rules: seq<Rule>, layout: Layout, other: Layout, events: seq<Event>,
                           ordered: seq<Request>, log: seq<Request>, samples: int)
    requires OneBudget(env, rules) && Clocked(Asks(env, rules, events))
    requires Roomy(layout, KeysOf(Asks(env, rules, events))) && Roomy(other, KeysOf(Asks(env, rules, events)))
    requires Recorded(ordered, Arrivals(events), Served(env, rules, Some(Book(layout, map[])), events).1)
    requires KeepsKeyOrder(env, rules, log, ordered)
    ensures var was, now := Served(env, rules, Some(Book(layout, map[])), events).1,
                            Served(env, rules, Some(Book(other, map[])), Anew(log)).1;
            |now| == |log| && forall i | 0 <= i < |log| :: exists j | 0 <= j < |ordered| ::
                ordered[j] == log[i] && was[j] == now[i]
    ensures Replayed(env, rules, Some(Book(other, map[])), log, samples).report.divergences == map[]
  {
    HotPathByKey(env, rules, layout, events, ordered);
    SameAsks(env, rules, ordered, log);
    DecidedByKey(env, rules, other, log);
    AnewAlike(log);
    ServedBySignals(env, rules, Some(Book(other, map[])), Anew(log), Arriving(log));
    var was, now := AllByKey(env, rules, ordered), AllByKey(env, rules, log);
    forall i | 0 <= i < |log|
      ensures exists j | 0 <= j < |ordered| :: ordered[j] == log[i] && was[j] == now[i]
      ensures log[i].decision == now[i].action
    {
      var j := SamePlace(env, rules, log, ordered, i);
      assert was[j] == now[i];
    }
    DivergencesExact(env, rules, Some(Book(other, map[])), log, samples);
  }

  // ---------------------------------------------------------------- two neighbours exchanged

  lemma TwoServed(env: Env, rules: seq<Rule>, book: Option<Book>, q: Request, r: Request)
    ensures var v, w := Verdict(env, rules, q), Verdict(env, rules, r);
            var first := Asked(env, book, v, q);
            Served(env, rules, book, [Arrives(q), Arrives(r)]).1
            == [Settled(env, v, first.1), Settled(env, w, Asked(env, first.0, w, r).1)]
  {
    var none: seq<Decision> := [];
    var events := [Arrives(q), Arrives(r)];
    assert events[1..] == [Arrives(r)] && events[1..][1..] == [];
    var first := Asked(env, book, Verdict(env, rules, q), q);
    var d := Settled(env, Verdict(env, rules, r), Asked(env, first.0, Verdict(env, rules, r), r).1);
    assert Served(env, rules, first.0, events[1..]).1 == [d] + none;
    assert [d] + none == [d];
  }

  predicate DecidedAlike(env: Env, rules: seq<Rule>, layout: Layout, t: Table, q: Request, r: Request) {
    var qr := Served(env, rules, Some(Book(layout, t)), [Arrives(q), Arrives(r)]).1;
    var rq := Served(env, rules, Some(Book(layout, t)), [Arrives(r), Arrives(q)]).1;
    |qr| == |rq| == 2 && qr[0] == rq[1] && qr[1] == rq[0]
  }

  /** Neither decision depends on which of the two comes first, in any state the limiter can
      be in before them. */
  ghost predicate Interchangeable(env: Env, rules: seq<Rule>, layout: Layout, p: Policy, q: Request, r: Request) {
    forall t, log | Standing(env, rules, layout, p, t, log, q, r) :: DecidedAlike(env, rules, layout, t, q, r)
  }

  ghost predicate Standing(env: Env, rules: seq<Rule>, layout: Layout, p: Policy, t: Table, log: Log, q: Request,
                           r: Request) {
    AsksOf(env, rules, q) != [] && AsksOf(env, rules, r) != [] ==>
      Precedes(layout, p, t, log, AsksOf(env, rules, q)[0], AsksOf(env, rules, r)[0])
  }

  /** Both requests count under one key. */
  predicate SameKey(env: Env, rules: seq<Rule>, q: Request, r: Request) {
    var u, v := Budget(env, rules, q), Budget(env, rules, r);
    u.Some? && v.Some? && u.value.KeyFor(q) == v.value.KeyFor(r)
  }

  lemma FreeCommute(env: Env, rules: seq<Rule>, layout: Layout, t: Table, q: Request, r: Request)
    requires Budget(env, rules, q).None?
    ensures DecidedAlike(env, rules, layout, t, q, r) && DecidedAlike(env, rules, layout, t, r, q)
  {
    TwoServed(env, rules, Some(Book(layout, t)), q, r);
    TwoServed(env, rules, Some(Book(layout, t)), r, q);
  }

  /** Two limited requests are decided by the two answers. */
  lemma LimitedServed(env: Env, rules: seq<Rule>, layout: Layout, p: Policy, t: Table, q: Request, r: Request)
    requires Fits(env, rules, p) && Budget(env, rules, q).Some? && Budget(env, rules, r).Some?
    ensures var u, v := Budget(env, rules, q).value, Budget(env, rules, r).value;
            var both := Both(layout, p, t, Op.Request(u.KeyFor(q), q.time), Op.Request(v.KeyFor(r), r.time));
            Served(env, rules, Some(Book(layout, t)), [Arrives(q), Arrives(r)]).1
            == [Settled(env, Some(u), both.1), Settled(env, Some(v), both.2)]
  {
    TwoServed(env, rules, Some(Book(layout, t)), q, r);
    BudgetIsRule(env, rules, q);
    BudgetIsRule(env, rules, r);
  }

  lemma AnswersTell(env: Env, u: Rule, x: bool, y: bool)
    requires u.action.kind == RATELIMIT
    ensures Settled(env, Some(u), x) == Settled(env, Some(u), y) <==> x == y
  {
  }

  /** Two neighbouring requests may be logged either way round, whatever the state, exactly
      when they do not count under one key. How far apart they are does not matter. */
  lemma NeighboursExact(env: Env, rules: seq<Rule>, layout: Layout, p: Policy, q: Request, r: Request)
    requires Fits(env, rules, p) && p.Positive()
    requires Budget(env, rules, q).Some? ==> Roomy(layout, {Budget(env, rules, q).value.KeyFor(q)})
    ensures Interchangeable(env, rules, layout, p, q, r) <==> !SameKey(env, rules, q, r)
  {
    if Budget(env, rules, q).Some? && Budget(env, rules, r).Some? {
      LimitedExact(env, rules, layout, p, q, r);
    } else {
      forall t, log | Standing(env, rules, layout, p, t, log, q, r)
        ensures DecidedAlike(env, rules, layout, t, q, r)
      {
        if Budget(env, rules, q).None? {
          FreeCommute(env, rules, layout, t, q, r);
        } else {
          FreeCommute(env, rules, layout, t, r, q);
        }
      }
    }
  }

  lemma LimitedExact(env: Env, rules: seq<Rule>, layout: Layout, p: Policy, q: Request, r: Request)
    requires Fits(env, rules, p) && p.Positive()
    requires Budget(env, rules, q).Some? && Budget(env, rules, r).Some?
    requires Roomy(layout, {Budget(env, rules, q).value.KeyFor(q)})
    ensures Interchangeable(env, rules, layout, p, q, r) <==> !SameKey(env, rules, q, r)
  {
    var a, b := AsksOf(env, rules, q)[0], AsksOf(env, rules, r)[0];
    ExchangeExact(layout, p, a, b);
    forall t
      ensures DecidedAlike(env, rules, layout, t, q, r) <==> AnswersAlike(layout, p, t, a, b)
    {
      LimitedAlike(env, rules, layout, p, t, q, r);
    }
    AlikeEverywhere(env, rules, layout, p, q, r, a, b);
  }

  lemma AlikeEverywhere(env: Env, rules: seq<Rule>, layout: Layout, p: Policy, q: Request, r: Request, a: Op, b: Op)
    requires a.Request? && b.Request? && AsksOf(env, rules, q) == [a] && AsksOf(env, rules, r) == [b]
    requires forall t :: DecidedAlike(env, rules, layout, t, q, r) <==> AnswersAlike(layout, p, t, a, b)
    ensures Interchangeable(env, rules, layout, p, q, r) <==> Exchangeable(layout, p, a, b)
  {
    assert forall t, log :: Standing(env, rules, layout, p, t, log, q, r) <==> Precedes(layout, p, t, log, a, b);
  }

  lemma LimitedAlike(env: Env, rules: seq<Rule>, layout: Layout, p: Policy, t: Table, q: Request, r: Request)
    requires Fits(env, rules, p) && Budget(env, rules, q).Some? && Budget(env, rules, r).Some?
    ensures DecidedAlike(env, rules, layout, t, q, r)
            <==> AnswersAlike(layout, p, t, AsksOf(env, rules, q)[0], AsksOf(env, rules, r)[0])
  {
    var a, b := AsksOf(env, rules, q)[0], AsksOf(env, rules, r)[0];
    BudgetIsRule(env, rules, q);
    BudgetIsRule(env, rules, r);
    LimitedServed(env, rules, layout, p, t, q, r);
    LimitedServed(env, rules, layout, p, t, r, q);
    AnswersTell(env, Budget(env, rules, q).value, Both(layout, p, t, a, b).1, Both(layout, p, t, b, a).2);
    AnswersTell(env, Budget(env, rules, r).value, Both(layout, p, t, a, b).2, Both(layout, p, t, b, a).1);
  }

  // ---------------------------------------------------------------- a log that diverges

  lemma TwoOfOne(env: Env, rules: seq<Rule>, u: Rule, a: Request, b: Request, layout: Layout)
    requires Verdict(env, rules, a) == Some(u) == Verdict(env, rules, b)
    requires u.action.kind == RATELIMIT && u.action.limit == 1
    requires u.KeyFor(a) == u.KeyFor(b) && b.time < a.time + WindowOf(env, u)
    requires !layout.Full({}, u.KeyFor(a))
    ensures Served(env, rules, Some(Book(layout, map[])), [Arrives(a), Arrives(b)]).1
            == [Answer(env, u, PASS), Answer(env, u, RATELIMIT)]
  {
    var book := Some(Book(layout, map[]));
    TwoAsked(env, u, a, b, layout);
    TwoServed(env, rules, book, a, b);
  }

  lemma TwoAsked(env: Env, u: Rule, a: Request, b: Request, layout: Layout)
    requires ValidRule(env, u) && u.action.kind == RATELIMIT && u.action.limit == 1
    requires u.KeyFor(a) == u.KeyFor(b) && b.time < a.time + WindowOf(env, u)
    requires !layout.Full({}, u.KeyFor(a))
    ensures var first := Asked(env, Some(Book(layout, map[])), Some(u), a);
            !first.1 && Asked(env, first.0, Some(u), b).1
  {
  }

  lemma ReplayedNext(env: Env, rules: seq<Rule>, book: Option<Book>, log: seq<Request>, r: Request, samples: int)
    ensures Replayed(env, rules, book, log + [r], samples)
            == Next(env, rules, Replayed(env, rules, book, log, samples), r, samples)
  {
    PushInit(log, r);
  }

  /** The divergences of a log of two. */
  lemma TwoDiverge(env: Env, rules: seq<Rule>, book: Option<Book>, a: Request, b: Request, d: Decision, e: Decision,
                   samples: int)
    requires Served(env, rules, book, [Arrives(a), Arrives(b)]).1 == [d, e]
    requires a.decision !in {"", d.action} && b.decision !in {"", e.action}
    ensures Replayed(env, rules, book, [a, b], samples).report.divergences
            == Bump(Bump(map[], Divergence(a.decision, d.action)), Divergence(b.decision, e.action))
  {
    TwoServed(env, rules, book, a, b);
    var p := Progress(book, NO_REPORT);
    var q := Next(env, rules, p, a, samples);
    assert Replayed(env, rules, book, [a], samples) == q by {
      assert [] + [a] == [a];
      ReplayedNext(env, rules, book, [], a, samples);
    }
    assert Replayed(env, rules, book, [a, b], samples) == Next(env, rules, q, b, samples) by {
      assert [a] + [b] == [a, b];
      ReplayedNext(env, rules, book, [a], b, samples);
    }
    NextDiverges(env, rules, p, a, samples);
    NextDiverges(env, rules, q, b, samples);
  }

  /** One event of a replay, told by the event as it was recorded. */
  lemma NextDiverges(env: Env, rules: seq<Rule>, p: Progress, event: Request, samples: int)
    ensures var next := Next(env, rules, p, event, samples);
            var v := Verdict(env, rules, event);
            var d := Settled(env, v, Asked(env, p.book, v, event).1);
            && next.book == Asked(env, p.book, v, event).0
            && next.report.divergences
               == if event.decision in {"", d.action} then p.report.divergences
                  else Bump(p.report.divergences, Divergence(event.decision, d.action))
  {
    ErasedAlike(event);
    DecidedBySignals(env, rules, p.book, Erased(event), event);
  }

  lemma DecidedBySignals(env: Env, rules: seq<Rule>, book: Option<Book>, a: Request, b: Request)
    requires Alike(a, b)
    ensures Verdict(env, rules, a) == Verdict(env, rules, b)
    ensures Asked(env, book, Verdict(env, rules, a), a) == Asked(env, book, Verdict(env, rules, b), b)
  {
    VerdictBySignals(env, rules, a, b);
    var v := Verdict(env, rules, a);
    if v.Some? {
      AskedBySignals(env, book, v.value, a, b);
    }
  }

  /** One of two requests of one client passed and the other, no more than a window away,
      was limited: so the hot path had it, with `a` first, under a limit of one per window. */
  ghost predicate PassedThenLimited(env: Env, rules: seq<Rule>, u: Rule, a: Request, b: Request) {
    && Verdict(env, rules, a) == Some(u) == Verdict(env, rules, b)
    && u.action.kind == RATELIMIT && u.action.limit == 1
    && u.KeyFor(a) == u.KeyFor(b) && a.time <= b.time < a.time + WindowOf(env, u)
    && a.decision == PASS && b.decision == RATELIMIT
  }

  /** The log the node writes is in the order requests complete. With the later of the two
      completed first, the replay of their log reports both as divergent; in the order they
      were decided it reports nothing. */
  lemma CompletionOrderDiverges(env: Env, rules: seq<Rule>, u: Rule, a: Request, b: Request, layout: Layout,
                                samples: int)
    requires PassedThenLimited(env, rules, u, a, b) && !layout.Full({}, u.KeyFor(a))
    ensures var book := Some(Book(layout, map[]));
            && Replayed(env, rules, book, [a, b], samples).report.divergences == map[]
            && Replayed(env, rules, book, [b, a], samples).report.divergences
               == map[Divergence(RATELIMIT, PASS) := 1, Divergence(PASS, RATELIMIT) := 1]
  {
    var book := Some(Book(layout, map[]));
    TwoOfOne(env, rules, u, a, b, layout);
    TwoAgree(env, rules, book, a, b, samples);
    TwoOfOne(env, rules, u, b, a, layout);
    TwoDiverge(env, rules, book, b, a, Answer(env, u, PASS), Answer(env, u, RATELIMIT), samples);
    TwoBumps();
  }

  lemma TwoBumps()
    ensures Bump(Bump(map[], Divergence(RATELIMIT, PASS)), Divergence(PASS, RATELIMIT))
            == map[Divergence(RATELIMIT, PASS) := 1, Divergence(PASS, RATELIMIT) := 1]
  {
    assert Divergence(RATELIMIT, PASS)[0] != Divergence(PASS, RATELIMIT)[0];
  }

  lemma TwoAgree(env: Env, rules: seq<Rule>, book: Option<Book>, a: Request, b: Request, samples: int)
    requires var ds := Served(env, rules, book, [Arrives(a), Arrives(b)]).1;
             |ds| == 2 && a.decision == ds[0].action && b.decision == ds[1].action
    ensures Replayed(env, rules, book, [a, b], samples).report.divergences == map[]
  {
    DivergencesExact(env, rules, book, [a, b], samples);
    AnewAlike([a, b]);
    assert Arriving([a, b]) == [Arrives(a), Arrives(b)];
    ServedBySignals(env, rules, book, Anew([a, b]), Arriving([a, b]));
  }
}
